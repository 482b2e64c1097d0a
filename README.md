# QuizMaster session logic in Dafny

QuizMaster is a browser quiz over up to twenty lecture files. Its `QuizApp` class
(`app.js`) keeps a session and a handful of controller fields:
- The session holds the answers given, keyed `"<lecture>-<question_number>"` in a JavaScript `Map`.
- It also holds the favorite questions, a `Set` of the same keys.
- The third part is per-lecture progress.
- The controller fields record the current lecture and question, the pending selection, whether the answer is in, the review being run and where it was started from.

The buttons of the page call methods that update this state in place. This project
models that state machine, with the page's rendering removed:
- starting, resuming and restarting a lecture;
- selecting and submitting an answer, with the progress it updates;
- moving between questions;
- marking favorites;
- the dashboard's results;
- the three reviews (a lecture's wrong answers, its favorites, the favorites of every lecture);
- retaking a lecture and resetting the session.

Layout, one module per file:
- `text.dfy` (`Text`): the decimal rendering of numbers in template literals, `startsWith`, `split('-')[1]`, and the loose equality `==` between a number and a key's text.
- `seqs.dfy` (`Seqs`): `Array.prototype.filter` and the facts about it the rest relies on.
- `quiz_data.dfy` (`QuizData`): lectures, questions, answers, progress, and the answer keys. It also holds the proof that the prefix test `key.startsWith(`${n}-`)` selects exactly lecture `n`'s keys.
- `ordered_maps.dfy` (`OrderedMaps`): a JavaScript `Map` as an insertion order beside a Dafny `map`, and its round trip through the entry list it is saved as.
- `answer_log.dfy` (`AnswerLog`): counting and deleting a lecture's answers by key prefix.
- `review_sets.dfy` (`ReviewSets`): the question sets the reviews run over.
- `dashboard.dfy` (`Dashboard`): `calculateResults`.
- `controls.dfy` (`ControlState`): the controller fields as one value, `getCurrentQuestion`, `getTotalQuestions`, and the transitions several handlers share.
- `quiz_app.dfy` (`Controller`): the `QuizApp` class. Its fields are updated by one method per handler.

How the model treats the source's errors and environment:
- Where the source reads a field of a null `currentLecture` or of an undefined question, it throws a `TypeError`. The event handler then stops, so each method keeps exactly the changes made before that point. A lookup that can fail returns an `Option`.
- `renderQuestion` throws when there is no current lecture or no question at the current index. The model keeps only that outcome, as `ControlState.Renders`. Where the source renders before `showView('quiz')` (`startQuiz`, `retakeAllQuestions`), the view changes only if rendering succeeds.
- `confirm()` becomes a boolean argument. `alert()` becomes a `started` result that is false. `Date.now()` becomes the argument `now`.

Behaviour kept as written:
- The stored progress of a lecture is not always the count of its answers.
  - `startQuiz` and `retakeAllQuestions` delete a lecture's answers without recounting its progress.
  - A submission during a review does not recount progress (app.js:517-519).
  - If no answer is submitted between the deletion and the next selection of the lecture:
    - after a retake of a finished lecture, selecting it again opens the dashboard rather than the quiz;
    - after a restart from the resume prompt, a later resume opens at the old count.
  - Any submission outside a review recounts the progress from the answers left (app.js:517-519, 538-549), which ends the mismatch.
- The model keeps this behaviour. `Controller.PurgeLeavesProgressStale` states it for the deletions.

## Model

| member | source | states |
|---|---|---|
| Text.NatToString | app.js:504 | `${n}` is a non-empty string of decimal digits without a leading zero |
| Text.ParseNatToString | app.js:919-920 | reading back the digits of `${n}` gives `n` |
| Text.NatToStringInjective | app.js:504 | two numbers render alike exactly when they are equal |
| Text.PrefixAtDash | app.js:352 | for dash-free parts, `head-tail` starts with `other-` exactly when `head == other` |
| Text.SplitAtFirstDash | app.js:919 | splitting `head-tail` at its first dash gives back `tail`, and all of a dash-free `tail` as the second field |
| Text.LooselyEqualsRendering | app.js:920 | `question_number == text`, with `text` the rendering of `m`, holds exactly when `question_number == m` |
| QuizData.LectureTextDashFree | app.js:1122 | a lecture's number, numeric or `'favorites'`, renders without a dash |
| QuizData.LectureTextInjective | app.js:78 | different lecture numbers render differently |
| QuizData.KeyMatchesPrefix | app.js:352 | `KeyOf(a, q).startsWith(`${b}-`)` exactly when `a == b` (so "11-3" is not a key of lecture 1) |
| QuizData.KeyQuestionField | app.js:919 | `key.split('-')[1]` of a key is the question number's text |
| Seqs.Filter | app.js:541-542 | `filter` keeps the elements that pass and no others, and is no longer than its input |
| Seqs.FilterSubsequence | app.js:541-542 | `filter` keeps the passing elements in their original order |
| Seqs.FilterMultiplicity | app.js:541-542 | `filter` keeps each passing element as many times as it occurs and drops every other element |
| Seqs.FilterCount | app.js:541-542 | on a list without repeats the filter's length is the number of distinct passing elements |
| Seqs.FilterPartition | app.js:913-918 | filters by two exclusive tests that together make a third share out that third filter's length |
| OrderedMaps.Inserted | app.js:507 | after `set(key, v)` an existing key keeps its place and a new key goes last, after the unchanged old order |
| OrderedMaps.InsertedWellFormed | app.js:507 | `set` keeps the key order and the map in step, with no repeated key |
| OrderedMaps.FromEntriesWellFormed | app.js:105-106 | `new Map(entries)` built from any entry list is a well-formed Map |
| OrderedMaps.EntriesRoundTrip | app.js:88-111 | saving a Map as its entries and rebuilding it gives the same order and contents |
| AnswerLog.PurgedWellFormed | app.js:351-355 | deleting by prefix leaves a well-formed Map |
| AnswerLog.CountIsDistinctKeys | app.js:541-542 | the count of a lecture's answers is the number of distinct keys with its prefix |
| AnswerLog.InsertedCount | app.js:541-542 | setting an answer adds one to its lecture's count when the key is new and nothing when it is re-answered |
| AnswerLog.PurgeLecture | app.js:351-355 | deleting lecture `a`'s answers removes a key exactly when it belongs to `a`; other lectures' answers keep their values |
| AnswerLog.PurgedCountsNothing | app.js:351-355 | after the deletion the lecture counts no answers |
| ReviewSets.IncorrectQuestions | app.js:1137-1143 | the lecture's questions whose stored answer is incorrect, exactly, in lecture order |
| ReviewSets.FavoriteQuestions | app.js:1145-1150 | the lecture's favorited questions, exactly, in lecture order |
| ReviewSets.CollectGlobalFavorites | app.js:1098-1110 | the outer loop builds the global favorites set lecture by lecture, in ascending lecture number |
| ReviewSets.CollectLectureFavorites | app.js:1101-1108 | the inner loop keeps the lecture's favorited questions, in lecture order, each tagged with the lecture |
| ReviewSets.GlobalFavoritesSound | app.js:1100-1109 | each collected question is a favorited question of a loaded lecture, unchanged except for its tag naming that lecture |
| ReviewSets.GlobalFavoritesComplete | app.js:1100-1109 | every favorited question of every loaded lecture is collected, tagged with its lecture |
| ReviewSets.GlobalFavoritesPrefix | app.js:1100-1109 | visiting more lectures only appends to the collection |
| ReviewSets.GlobalFavoritesOrdered | app.js:1100-1109 | the collection is in ascending lecture order |
| ReviewSets.GlobalFavoritesOfLecture | app.js:1100-1109 | the collected questions tagged with lecture `n` are exactly that lecture's favorited questions, in the lecture's order; none when `n` is not loaded |
| Dashboard.Percentage | app.js:932 | the score is 0 without questions, else within half a point of `correct*100/total`, halves rounding up |
| Dashboard.PercentageAtMost100 | app.js:932 | the score is at most 100 when `correct <= total` |
| Dashboard.OneInFive | app.js:932 | one correct answer out of five scores 20 |
| Dashboard.FindQuestion | app.js:920 | `find` returns the first question whose number loosely equals the text, or nothing if none does |
| Dashboard.WrongAnswersOf | app.js:918-928 | each row is keyed by an incorrect key, shows that answer's choice, and shows a lecture question whose number matches the key |
| Dashboard.CountFavorites | app.js:907-911 | the loop over the favorites counts those with the lecture's prefix |
| Dashboard.TallyResults | app.js:896-935 | the pass over the answers computes the counts, score, favorites count and wrong-answer rows that `ResultsOf` defines by filtering |
| Dashboard.CorrectPlusIncorrect | app.js:913-918 | correct plus incorrect equals the number of the lecture's answer keys (`CountWithPrefix`), the count `updateLectureProgress` records |
| Dashboard.CorrectCountsDistinctQuestions | app.js:913-916 | the correct count is the number of distinct keys of the lecture answered correctly |
| Dashboard.IncorrectCountsDistinctQuestions | app.js:913-918 | the incorrect count is the number of distinct keys of the lecture answered incorrectly |
| Dashboard.WrongAnswersAreIncorrect | app.js:913-928 | every row is an incorrect answer of the lecture and shows one of its questions |
| Dashboard.RowsInKeyOrder | app.js:913-928 | rows come in the order of their keys |
| Dashboard.WrongAnswersInMapOrder | app.js:913-930 | the rows follow the Map's insertion order |
| Dashboard.WrongAnswersComplete | app.js:918-928 | an incorrect key of a lecture question gets a row showing a question with that number |
| Dashboard.IncorrectQuestionsListed | app.js:913-928 | every lecture question answered incorrectly has a row |
| ControlState.LectureFor | app.js:345 | `lectures.get(target)` is a loaded lecture carrying the requested number; when it is absent, no loaded lecture carries that number |
| ControlState.TotalCountsPositions | app.js:720-725 | the total is the number of positions that show a question: each index below it shows the active question at that position, and the index equal to it shows none |
| ControlState.CurrentQuestion | app.js:421-426 | a question exists exactly when the index is below the total, and it is the active question at the index |
| ControlState.StartQuizShows | app.js:344-359 | outside a review, starting a lecture resets the position and shows its first question, or leaves the view if the lecture is missing or empty |
| ControlState.GlobalReviewKeysAreReal | app.js:503-504 | in a global favorites review the current key is the real lecture's key, never a `favorites-` key |
| ControlState.ExitReviewRestores | app.js:1175-1190 | leaving a review clears its fields and restores the saved lecture, and a second exit does nothing |
| Controller.PurgeLeavesProgressStale | app.js:344-359 | deleting a lecture's answers leaves its progress entry unchanged, so the entry's count exceeds the answers left |
| Controller.ProgressCountsAnsweredQuestions | app.js:538-549 | recorded progress counts distinct answered keys and is complete exactly when that count reaches the total; other lectures are untouched |
| Controller.Toggled | app.js:877-881 | toggling flips exactly `key`'s membership |
| Controller.ToggleTwice | app.js:877-881 | toggling twice restores the favorites |
| Controller.FirstWithNumber | app.js:1023-1029 | the position of the first question with that number, or none if no question has it |
| Controller.QuizApp.constructor | app.js:5-25 | landing view, nothing selected, the saved Map, Set and progress rebuilt from their entry lists |
| Controller.QuizApp.DeleteAnswersWithPrefix | app.js:351-355 | the loop deletes exactly the answers with the prefix, keeping the others in order |
| Controller.QuizApp.BackToFirstQuestion | app.js:346-348 | index 0, answer not in, view-only off; nothing else changes |
| Controller.QuizApp.RenderThenShowQuiz | app.js:357-358 | the quiz view is shown exactly when rendering succeeds |
| Controller.QuizApp.StartQuiz | app.js:344-359 | the lecture is opened, its answers are deleted, the position resets, and the view follows rendering |
| Controller.QuizApp.CalculateResults | app.js:896-935 | the results are stored for the current lecture; nothing changes without one |
| Controller.QuizApp.ShowDashboard | app.js:890-894 | results, then the dashboard view |
| Controller.QuizApp.HandleLectureSelection | app.js:301-315 | exactly one route: unfinished progress resumes, equal progress opens the dashboard, anything else starts afresh |
| Controller.QuizApp.ContinueQuiz | app.js:331-337 | the pending lecture opens at index `completedQuestions` |
| Controller.QuizApp.RestartQuiz | app.js:339-341 | `startQuiz` on the pending lecture |
| Controller.QuizApp.SelectChoice | app.js:479-495 | nothing happens once the answer is in; otherwise the selection is remembered |
| Controller.QuizApp.UpdateLectureProgress | app.js:538-549 | the current lecture's progress entry is recomputed from the answers |
| Controller.QuizApp.SubmitAnswer | app.js:498-535 | no-op without a selection, after submission, or without a key; else it writes `{choice, correct: choice == correct_choice}` under the key and marks the answer in, updating progress only outside reviews |
| Controller.QuizApp.NextQuestion | app.js:727-750 | below the last index it advances in range; otherwise it leaves the modes and goes to landing exactly when the recorded origin was landing |
| Controller.QuizApp.PreviousQuestion | app.js:752-762 | nothing at index 0; else one back, staying in range |
| Controller.QuizApp.ToggleFavorite | app.js:871-887 | the current question's key is toggled, and nothing else changes |
| Controller.QuizApp.ShowQuestionExplanation | app.js:1019-1035 | the origin becomes the dashboard; the first question with that number opens view-only, if found |
| Controller.QuizApp.ExitViewOnlyMode | app.js:1037-1041 | view-only off, answer not in, origin cleared |
| Controller.QuizApp.ExitReviewMode | app.js:1175-1190 | acts only during a review |
| Controller.QuizApp.ShowReviewModal | app.js:1044-1046 | the origin becomes the dashboard and the review type is stored |
| Controller.QuizApp.ShowGlobalFavoritesModal | app.js:1068-1071 | the origin becomes landing |
| Controller.QuizApp.EnterReview | app.js:1086-1093 | review set in place, index 0, `answerSubmitted == viewOnlyMode == viewOnly`, quiz view |
| Controller.QuizApp.StartReviewMode | app.js:1073-1094 | starts exactly when the lecture's filtered set is non-empty; otherwise nothing changes |
| Controller.QuizApp.StartGlobalFavoritesReview | app.js:1096-1135 | starts exactly when some favorite exists, over a virtual lecture of all of them, keeping the old lecture |
| Controller.QuizApp.RetakeAllQuestions | app.js:1152-1173 | when confirmed, the lecture's answers are deleted and the quiz restarts from the first question |
| Controller.QuizApp.ResetSession | app.js:1205-1223 | when confirmed, the session is emptied, then the open quiz restarts or the open dashboard is recounted |
| Controller.QuizApp.BackToLanding | app.js:127-143 | leaves the modes and returns to the dashboard only when a mode was on and the origin was not landing |
| Controller.QuizApp.DashboardHome | app.js:145-148 | leaves a review, shows landing |
| Controller.QuizApp.ReturnToDashboard | app.js:167-170 | leaves view-only, shows the dashboard |

## Left out

- An invariant that a lecture's stored `completedQuestions` equals the number of its answered keys: the source does not keep it (see "Behaviour kept as written"), so no method promises it. `Controller.ProgressCountsAnsweredQuestions` states it only just after `updateLectureProgress`.
- Rendering: `renderQuestion`, `renderChoices`, `renderExplanation`, `renderDashboard`, `updateQuizHeader`, `updateQuizControls`, `createLectureCard`, `showView`'s page changes, and the modals' show/hide. They are page output. Only two effects are kept: whether `renderQuestion` throws, and which view is current.
- Rendering can also throw on missing display data, such as a question without choices. Questions carry only the number, correct choice and tag that the session logic reads.
- `loadLectures`/`loadLectureFile` (app.js:37-86) are network I/O. The constructor takes the loaded lectures as a map keyed 1..20, with each lecture's number equal to its key.
- `saveSessionData`/`loadSessionData` (app.js:88-111) are `localStorage` and JSON calls.
  - The model takes the saved entry lists as constructor arguments.
  - `OrderedMaps.EntriesRoundTrip` states the Map's round trip through its entries.
  - A JSON parse failure, and the Set's serialization order, are not modelled.
- The display language and the `toggleLanguage`/`toggleExplanationLanguage` switches are left out. They only choose texts.
- `updateProgress` (app.js:714-718) is left out. It computes a floating-point bar width for display only.
- `setTimeout` animations are left out.
- Dashboard.Percentage: uses exact rational rounding. `Math.round` on the double `correct / total * 100` can differ where the double falls just below an exact half (29 of 200 gives 14 in the browser and 15 here).
- Text.LooselyEquals: covers only non-empty digit strings, the only texts a key built by the quiz can hold. JavaScript's `==` also accepts texts such as `" 3"`, `"+3"` or `"3.0"` that only a hand-edited saved session could contain.
- Controller.QuizApp.StartReviewMode: takes the review type as an argument restricted to the two lecture reviews. The review modal only ever stores `'errors'` or `'favorites'`, and the handlers at app.js:206-214 pass that value.
- Controller.QuizApp.ShowReviewModal: is likewise restricted to the two dashboard buttons' types (app.js:183-189).
