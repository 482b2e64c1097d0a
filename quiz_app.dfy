/**
 * The `QuizApp` controller: the session data it saves (answers, favorites,
 * per-lecture progress) and the fields that say where the user is, updated in
 * place by the handlers behind the quiz's buttons. Rendering is left out; where
 * the source's rendering or a field read throws a TypeError, the handler stops
 * there, so the model keeps exactly the changes made before that point.
 */
module Controller {
  import opened Wrappers
  import opened Text
  import opened Seqs
  import opened OrderedMaps
  import opened QuizData
  import opened AnswerLog
  import opened ReviewSets
  import opened Dashboard
  import opened ControlState

  /** Where `handleLectureSelection` sends the user. */
  datatype Route = ResumePrompt | OpenDashboard | FreshStart

  /** `lectureProgress` after `updateLectureProgress` (nothing happens without a current lecture: the source throws). */
  function ProgressUpdate(progress: map<LectureId, Progress>, current: Option<Lecture>, order: seq<string>): map<LectureId, Progress>
  {
    match current
    case None => progress
    case Some(lecture) =>
      var completed := CountWithPrefix(order, Prefix(lecture.number));
      progress[lecture.number := Progress(lecture.TotalQuestions(), completed, completed == lecture.TotalQuestions())]
  }

  /**
   * The recorded progress of a lecture counts its distinct answered keys, so an
   * answer given twice counts once, and is complete exactly when that count
   * reaches the lecture's total; no other lecture's progress changes.
   */
  lemma ProgressCountsAnsweredQuestions(progress: map<LectureId, Progress>, lecture: Lecture, order: seq<string>, m: map<string, Answer>)
    requires WellFormed(order, m)
    ensures var r := ProgressUpdate(progress, Some(lecture), order);
      lecture.number in r &&
      r[lecture.number].completedQuestions == |set k | k in m && StartsWith(k, Prefix(lecture.number))| &&
      r[lecture.number].totalQuestions == |lecture.questions| &&
      (r[lecture.number].isCompleted <==> r[lecture.number].completedQuestions == |lecture.questions|) &&
      forall id :: id != lecture.number ==> (id in r <==> id in progress) && (id in r ==> r[id] == progress[id])
  {
    CountIsDistinctKeys(order, m, Prefix(lecture.number));
  }

  /**
   * Deleting a lecture's answers leaves its progress entry as it was: the entry
   * still counts the deleted answers while none of them is left, so a lecture
   * that was finished still reads as finished.
   */
  lemma PurgeLeavesProgressStale(s: SessionData, id: LectureId)
    requires id in s.progress && s.progress[id].completedQuestions > 0
    ensures var t := PurgedSession(s, Prefix(id));
      id in t.progress && t.progress[id] == s.progress[id] &&
      t.progress[id].completedQuestions > CountWithPrefix(t.answerOrder, Prefix(id))
  {
    PurgedCountsNothing(s.answerOrder, Prefix(id));
  }

  /** `favorites` after `toggleFavorite` on `key`. */
  function Toggled(favorites: set<string>, key: string): (r: set<string>)
    ensures key in r <==> key !in favorites
    ensures forall k :: k != key ==> (k in r <==> k in favorites)
  {
    if key in favorites then favorites - {key} else favorites + {key}
  }

  /** Toggling the same favorite twice gives back the set it started from. */
  lemma ToggleTwice(favorites: set<string>, key: string)
    ensures Toggled(Toggled(favorites, key), key) == favorites
  {
    var once := Toggled(favorites, key);
    var twice := Toggled(once, key);
    assert forall k :: k in twice <==> k in favorites;
  }

  /**
   * `questions.indexOf(questions.find(q => q.question_number === n))`: the
   * position of the first question with number `n`, if any.
   */
  function FirstWithNumber(qs: seq<Question>, n: nat): (r: Option<nat>)
    ensures r.Some? ==> r.value < |qs| && qs[r.value].questionNumber == n &&
                        forall j :: 0 <= j < r.value ==> qs[j].questionNumber != n
    ensures r.None? ==> forall j :: 0 <= j < |qs| ==> qs[j].questionNumber != n
  {
    if |qs| == 0 then None
    else if qs[0].questionNumber == n then Some(0)
    else
      match FirstWithNumber(qs[1..], n)
      case None => None
      case Some(i) => Some(i + 1)
  }

  /** The review set `startReviewMode(kind)` runs over: `'errors'` takes the incorrect answers, anything else the favorites. */
  function ReviewSet(kind: ReviewMode, lecture: Lecture, s: SessionData): seq<Question>
  {
    if kind == IncorrectReview then IncorrectQuestions(lecture, s.answers) else FavoriteQuestions(lecture, s.favorites)
  }

  class QuizApp {
    const lectures: map<nat, Lecture>
    var session: SessionData
    var view: View
    var currentLecture: Option<Lecture>
    var index: nat
    var selection: Option<char>
    var answerSubmitted: bool
    var viewOnlyMode: bool
    var reviewMode: Option<ReviewMode>
    var reviewQuestions: Option<seq<Question>>
    var originalLecture: Option<Lecture>
    var reviewOrigin: Option<Origin>
    var pendingLecture: Option<nat>
    var reviewType: Option<ReviewMode>
    var results: Option<Results>

    /** The controller fields as one value. */
    function State(): Controls
      reads this
    {
      Controls(view, currentLecture, index, selection, answerSubmitted, viewOnlyMode, reviewMode,
               reviewQuestions, originalLecture, reviewOrigin, pendingLecture, reviewType, results)
    }

    ghost predicate Valid()
      reads this
    {
      Loaded(lectures) &&
      WellFormed(session.answerOrder, session.answers) &&
      ControlsValid(lectures, State())
    }

    /**
     * The constructor with `loadSessionData` and `loadLectures` done: the lectures
     * as loaded and the saved Map, Set and progress as the entry lists they were
     * saved as.
     */
    constructor (loaded: map<nat, Lecture>, savedAnswers: seq<(string, Answer)>, savedFavorites: seq<string>,
                 savedProgress: seq<(LectureId, Progress)>)
      requires Loaded(loaded)
      ensures Valid() && lectures == loaded
      ensures session == SessionData(OrderOf(savedAnswers), MapOf(savedAnswers), (set k | k in savedFavorites), MapOf(savedProgress))
      ensures State() == Controls(LandingView, None, 0, None, false, false, None, None, None, None, None, None, None)
    {
      lectures := loaded;
      session := SessionData(OrderOf(savedAnswers), MapOf(savedAnswers), (set k | k in savedFavorites), MapOf(savedProgress));
      view := LandingView;
      currentLecture := None;
      index := 0;
      selection := None;
      answerSubmitted := false;
      viewOnlyMode := false;
      reviewMode := None;
      reviewQuestions := None;
      originalLecture := None;
      reviewOrigin := None;
      pendingLecture := None;
      reviewType := None;
      results := None;
      FromEntriesWellFormed(savedAnswers);
    }

    /** The `forEach` that deletes every answer whose key starts with `p`, one key at a time, keeping the others in order. */
    method DeleteAnswersWithPrefix(p: string)
      modifies this
      requires WellFormed(session.answerOrder, session.answers)
      ensures session == PurgedSession(old(session), p)
      ensures State() == old(State())
    {
      var keys := session.answerOrder;
      var answers := session.answers;
      var kept: seq<string> := [];
      for i := 0 to |keys|
        invariant kept == PurgedOrder(keys[..i], p)
        invariant forall k :: k in answers <==> k in old(session.answers) && !(k in keys[..i] && StartsWith(k, p))
        invariant forall k :: k in answers ==> answers[k] == old(session.answers)[k]
      {
        var key := keys[i];
        assert keys[..i + 1][..i] == keys[..i];
        assert forall k :: k in keys[..i + 1] <==> k in keys[..i] || k == key;
        if StartsWith(key, p) {
          answers := answers - {key};
        } else {
          kept := kept + [key];
        }
      }
      assert keys[..|keys|] == keys;
      assert answers == Purged(old(session.answers), p);
      session := session.(answerOrder := kept, answers := answers);
    }

    /** `currentQuestionIndex = 0; answerSubmitted = false; viewOnlyMode = false`. */
    method BackToFirstQuestion()
      modifies this
      requires Valid()
      ensures Valid()
      ensures session == old(session)
      ensures State() == Restarted(old(State()))
    {
      index := 0;
      answerSubmitted := false;
      viewOnlyMode := false;
    }

    /** `renderQuestion()` then `showView('quiz')`: the view switches only if rendering gets through. */
    method RenderThenShowQuiz()
      modifies this
      requires Valid()
      ensures Valid()
      ensures session == old(session)
      ensures State() == Shown(old(State()))
    {
      if Renders(State()) {
        view := QuizView;
      }
    }

    /** `startQuiz(target)`: open the lecture, clear its answers, start at its first question. */
    method StartQuiz(target: Option<LectureId>)
      modifies this
      requires Valid()
      ensures Valid()
      ensures session == PurgedSession(old(session), TargetPrefix(target))
      ensures State() == QuizStarted(old(State()), lectures, target)
    {
      currentLecture := LectureFor(lectures, target);
      BackToFirstQuestion();
      PurgedWellFormed(session.answerOrder, session.answers, TargetPrefix(target));
      DeleteAnswersWithPrefix(TargetPrefix(target));
      RenderThenShowQuiz();
    }

    /** `calculateResults`, stored as the results the dashboard shows. */
    method CalculateResults()
      modifies this
      requires Valid()
      ensures Valid()
      ensures session == old(session)
      ensures State() == WithResults(old(State()), session)
    {
      if currentLecture.Some? {
        var r := Dashboard.TallyResults(currentLecture.value, session.answerOrder, session.answers, session.favorites);
        results := Some(r);
      }
    }

    /** `showDashboard`. */
    method ShowDashboard()
      modifies this
      requires Valid()
      ensures Valid()
      ensures session == old(session)
      ensures State() == WithDashboard(old(State()), session)
    {
      if currentLecture.Some? {
        CalculateResults();
        view := DashboardView;
      }
    }

    /**
     * `handleLectureSelection(n)`: a lecture with unfinished progress asks whether
     * to resume, a finished one opens its dashboard, any other starts afresh.
     */
    method HandleLectureSelection(n: nat) returns (route: Route)
      modifies this
      requires Valid()
      ensures Valid()
      ensures var p := old(session.progress);
        (route == ResumePrompt <==>
           Numbered(n) in p && p[Numbered(n)].completedQuestions < p[Numbered(n)].totalQuestions) &&
        (route == OpenDashboard <==>
           Numbered(n) in p && p[Numbered(n)].completedQuestions == p[Numbered(n)].totalQuestions)
      ensures route == ResumePrompt ==>
                session == old(session) && State() == old(State()).(pendingLecture := Some(n))
      ensures route == OpenDashboard ==>
                session == old(session) &&
                State() == WithDashboard(old(State()).(currentLecture := LectureFor(lectures, Some(Numbered(n)))), session)
      ensures route == FreshStart ==>
                session == PurgedSession(old(session), Prefix(Numbered(n))) &&
                State() == QuizStarted(old(State()), lectures, Some(Numbered(n)))
    {
      var id := Numbered(n);
      if id in session.progress && session.progress[id].completedQuestions < session.progress[id].totalQuestions {
        pendingLecture := Some(n);
        route := ResumePrompt;
      } else if id in session.progress && session.progress[id].completedQuestions == session.progress[id].totalQuestions {
        currentLecture := LectureFor(lectures, Some(id));
        ShowDashboard();
        route := OpenDashboard;
      } else {
        StartQuiz(Some(id));
        route := FreshStart;
      }
    }

    /** `continueQuiz`: reopen the pending lecture at the first unanswered position. */
    method ContinueQuiz()
      modifies this
      requires Valid()
      ensures Valid()
      ensures session == old(session)
      ensures var target := if old(pendingLecture).Some? then Some(Numbered(old(pendingLecture).value)) else None;
        var c := old(State()).(currentLecture := LectureFor(lectures, target));
        State() == if target.Some? && target.value in old(session.progress)
                   then c.(index := old(session.progress)[target.value].completedQuestions, view := QuizView)
                   else c
    {
      var target := if pendingLecture.Some? then Some(Numbered(pendingLecture.value)) else None;
      currentLecture := LectureFor(lectures, target);
      if target.Some? && target.value in session.progress {
        index := session.progress[target.value].completedQuestions;
        view := QuizView;
      }
    }

    /** `restartQuiz`: start the pending lecture afresh. */
    method RestartQuiz()
      modifies this
      requires Valid()
      ensures Valid()
      ensures var target := if old(pendingLecture).Some? then Some(Numbered(old(pendingLecture).value)) else None;
        session == PurgedSession(old(session), TargetPrefix(target)) &&
        State() == QuizStarted(old(State()), lectures, target)
    {
      var target := if pendingLecture.Some? then Some(Numbered(pendingLecture.value)) else None;
      StartQuiz(target);
    }

    /** `selectChoice`: remember the choice, unless the answer is already in. */
    method SelectChoice(choice: char)
      modifies this
      requires Valid()
      ensures Valid()
      ensures session == old(session)
      ensures old(answerSubmitted) ==> State() == old(State())
      ensures !old(answerSubmitted) ==> State() == old(State()).(selection := Some(choice))
    {
      if !answerSubmitted {
        selection := Some(choice);
      }
    }

    /** `updateLectureProgress`. */
    method UpdateLectureProgress()
      modifies this
      requires Valid()
      ensures Valid()
      ensures State() == old(State())
      ensures session == old(session).(progress := ProgressUpdate(old(session.progress), currentLecture, session.answerOrder))
    {
      if currentLecture.Some? {
        var lecture := currentLecture.value;
        var completed := CountWithPrefix(session.answerOrder, Prefix(lecture.number));
        var entry := Progress(lecture.TotalQuestions(), completed, completed == lecture.TotalQuestions());
        session := session.(progress := session.progress[lecture.number := entry]);
      }
    }

    /**
     * `submitAnswer(now)`: store the selected choice under the current question's
     * key, marked correct exactly when it is the question's correct choice, and
     * update the lecture's progress unless a review is running.
     */
    method SubmitAnswer(now: int)
      modifies this
      requires Valid()
      ensures Valid()
      ensures var c := old(State());
        c.selection.None? || c.answerSubmitted || CurrentKey(c).None? ==>
          session == old(session) && State() == c
      ensures var c := old(State());
        c.selection.Some? && !c.answerSubmitted && CurrentKey(c).Some? ==>
          var key := CurrentKey(c).value;
          var choice := c.selection.value;
          var order := Inserted(old(session.answerOrder), key);
          State() == c.(answerSubmitted := true) &&
          session == old(session).(
            answerOrder := order,
            answers := old(session.answers)[key := Answer(choice, choice == CurrentQuestion(c).value.correctChoice, now)],
            progress := if c.reviewMode.None? then ProgressUpdate(old(session.progress), c.currentLecture, order)
                        else old(session.progress))
    {
      if selection.None? || answerSubmitted {
        return;
      }
      var question := CurrentQuestion(State());
      if question.None? {
        return;
      }
      var key := QuestionKey(question.value, currentLecture);
      if key.None? {
        return;
      }
      var choice := selection.value;
      InsertedWellFormed(session.answerOrder, session.answers, key.value, Answer(choice, choice == question.value.correctChoice, now));
      session := session.(answerOrder := Inserted(session.answerOrder, key.value),
                          answers := session.answers[key.value := Answer(choice, choice == question.value.correctChoice, now)]);
      answerSubmitted := true;
      if reviewMode.None? {
        UpdateLectureProgress();
      }
    }

    /**
     * `nextQuestion`: move on within the questions, or past the last one leave
     * the review and view-only modes and go where the review was started from.
     */
    method NextQuestion()
      modifies this
      requires Valid()
      ensures Valid()
      ensures session == old(session)
      ensures var c := old(State());
        ActiveTotal(c).None? ==> State() == c
      ensures var c := old(State());
        ActiveTotal(c).Some? && c.index + 1 < ActiveTotal(c).value ==>
          State() == c.(index := c.index + 1, answerSubmitted := c.viewOnlyMode, selection := None) &&
          CurrentQuestion(State()).Some?
      ensures var c := old(State());
        ActiveTotal(c).Some? && c.index + 1 >= ActiveTotal(c).value ==>
          var exited := ExitedViewOnly(ExitedReview(c));
          State() == if c.reviewOrigin == Some(FromLanding) then exited.(view := LandingView) else WithDashboard(exited, session)
    {
      var total := ActiveTotal(State());
      if total.None? {
        return;
      }
      if index + 1 < total.value {
        index := index + 1;
        answerSubmitted := viewOnlyMode;
        selection := None;
      } else {
        var origin := reviewOrigin;
        ExitReviewMode();
        ExitViewOnlyMode();
        if origin == Some(FromLanding) {
          view := LandingView;
        } else {
          ShowDashboard();
        }
      }
    }

    /** `previousQuestion`: step back unless at the first question. */
    method PreviousQuestion()
      modifies this
      requires Valid()
      ensures Valid()
      ensures session == old(session)
      ensures old(index) == 0 ==> State() == old(State())
      ensures old(index) > 0 ==>
        State() == old(State()).(index := old(index) - 1, answerSubmitted := old(viewOnlyMode), selection := None) &&
        (old(CurrentQuestion(State())).Some? ==> CurrentQuestion(State()).Some?)
    {
      if index > 0 {
        index := index - 1;
        answerSubmitted := viewOnlyMode;
        selection := None;
      }
    }

    /** `toggleFavorite`: flip the current question's key in the favorites. */
    method ToggleFavorite()
      modifies this
      requires Valid()
      ensures Valid()
      ensures State() == old(State())
      ensures CurrentKey(State()).None? ==> session == old(session)
      ensures CurrentKey(State()).Some? ==>
        session == old(session).(favorites := Toggled(old(session.favorites), CurrentKey(State()).value))
    {
      var key := CurrentKey(State());
      if key.Some? {
        if key.value in session.favorites {
          session := session.(favorites := session.favorites - {key.value});
        } else {
          session := session.(favorites := session.favorites + {key.value});
        }
      }
    }

    /** `showQuestionExplanation(n)`: open question `n` of the current lecture with its answer shown. */
    method ShowQuestionExplanation(questionNumber: nat)
      modifies this
      requires Valid()
      ensures Valid()
      ensures session == old(session)
      ensures var c := old(State()).(reviewOrigin := Some(FromDashboard));
        State() == if c.currentLecture.None? then c
                   else match FirstWithNumber(c.currentLecture.value.questions, questionNumber)
                     case None => c
                     case Some(i) => c.(index := i, viewOnlyMode := true, answerSubmitted := true, view := QuizView)
    {
      reviewOrigin := Some(FromDashboard);
      if currentLecture.None? {
        return;
      }
      var i := FirstWithNumber(currentLecture.value.questions, questionNumber);
      if i.Some? {
        index := i.value;
        viewOnlyMode := true;
        answerSubmitted := true;
        view := QuizView;
      }
    }

    /** `exitViewOnlyMode`. */
    method ExitViewOnlyMode()
      modifies this
      requires Valid()
      ensures Valid()
      ensures session == old(session)
      ensures State() == ExitedViewOnly(old(State()))
    {
      viewOnlyMode := false;
      answerSubmitted := false;
      reviewOrigin := None;
    }

    /** `exitReviewMode`: only while a review runs. */
    method ExitReviewMode()
      modifies this
      requires Valid()
      ensures Valid()
      ensures session == old(session)
      ensures State() == ExitedReview(old(State()))
    {
      if reviewMode.Some? {
        reviewMode := None;
        reviewQuestions := None;
        viewOnlyMode := false;
        answerSubmitted := false;
        if originalLecture.Some? {
          currentLecture := originalLecture;
          originalLecture := None;
        }
        index := 0;
        reviewOrigin := None;
      }
    }

    /** `showReviewModal(kind)`, for the dashboard's two review buttons. */
    method ShowReviewModal(kind: ReviewMode)
      modifies this
      requires Valid() && kind != GlobalFavoritesReview
      ensures Valid()
      ensures session == old(session)
      ensures State() == old(State()).(reviewOrigin := Some(FromDashboard), reviewType := Some(kind))
    {
      reviewOrigin := Some(FromDashboard);
      reviewType := Some(kind);
    }

    /** `showGlobalFavoritesModal`. */
    method ShowGlobalFavoritesModal()
      modifies this
      requires Valid()
      ensures Valid()
      ensures session == old(session)
      ensures State() == old(State()).(reviewOrigin := Some(FromLanding))
    {
      reviewOrigin := Some(FromLanding);
    }

    /** What both review starts do once they have their questions: run through them from the first, in the quiz view. */
    method EnterReview(kind: ReviewMode, qs: seq<Question>, viewOnly: bool)
      modifies this
      requires Valid()
      requires kind == GlobalFavoritesReview ==>
                 forall q :: q in qs ==> q.lectureNumber.Some? && 1 <= q.lectureNumber.value && q.lectureNumber.value in lectures
      ensures Valid()
      ensures session == old(session)
      ensures State() == old(State()).(reviewMode := Some(kind), reviewQuestions := Some(qs), index := 0,
                                       viewOnlyMode := viewOnly, answerSubmitted := viewOnly, view := QuizView)
    {
      reviewMode := Some(kind);
      reviewQuestions := Some(qs);
      index := 0;
      viewOnlyMode := viewOnly;
      answerSubmitted := viewOnly;
      view := QuizView;
    }

    /**
     * `startReviewMode(kind, viewOnly)`: review the current lecture's incorrect
     * or favorite questions; `started` is false when there is none to review
     * (the source alerts) or no current lecture, and then nothing changes.
     */
    method StartReviewMode(kind: ReviewMode, viewOnly: bool) returns (started: bool)
      modifies this
      requires Valid() && kind != GlobalFavoritesReview
      ensures Valid()
      ensures session == old(session)
      ensures started <==> old(currentLecture).Some? && |ReviewSet(kind, old(currentLecture).value, old(session))| > 0
      ensures !started ==> State() == old(State())
      ensures started ==>
        State() == old(State()).(reviewMode := Some(kind), reviewQuestions := Some(ReviewSet(kind, old(currentLecture).value, old(session))),
                                 index := 0, viewOnlyMode := viewOnly, answerSubmitted := viewOnly, view := QuizView)
    {
      if currentLecture.None? {
        return false;
      }
      var qs := ReviewSet(kind, currentLecture.value, session);
      if |qs| == 0 {
        return false;
      }
      EnterReview(kind, qs, viewOnly);
      started := true;
    }

    /**
     * `startGlobalFavoritesReview(viewOnly)`: review the favorites of every
     * lecture as one virtual lecture, keeping the current lecture to return to.
     */
    method StartGlobalFavoritesReview(viewOnly: bool) returns (started: bool)
      modifies this
      requires Valid()
      ensures Valid()
      ensures session == old(session)
      ensures started <==> |GlobalFavorites(lectures, old(session.favorites), MaxLecture)| > 0
      ensures !started ==> State() == old(State())
      ensures started ==>
        var all := GlobalFavorites(lectures, old(session.favorites), MaxLecture);
        State() == old(State()).(originalLecture := old(currentLecture), currentLecture := Some(Lecture(Synthetic, all)),
                                 reviewMode := Some(GlobalFavoritesReview), reviewQuestions := Some(all), index := 0,
                                 viewOnlyMode := viewOnly, answerSubmitted := viewOnly, view := QuizView)
    {
      var all := CollectGlobalFavorites(lectures, session.favorites);
      if |all| == 0 {
        return false;
      }
      GlobalFavoritesSound(lectures, session.favorites, MaxLecture);
      originalLecture := currentLecture;
      currentLecture := Some(Lecture(Synthetic, all));
      EnterReview(GlobalFavoritesReview, all, viewOnly);
      started := true;
    }

    /**
     * `retakeAllQuestions(confirmed)`: clear the current lecture's answers and
     * start it again from the first question. Without a current lecture the
     * source throws at the first stored answer it looks at.
     */
    method RetakeAllQuestions(confirmed: bool)
      modifies this
      requires Valid()
      ensures Valid()
      ensures var c := old(State());
        !confirmed || (c.currentLecture.None? && |old(session.answerOrder)| > 0) ==>
          session == old(session) && State() == c
      ensures var c := old(State());
        confirmed && (c.currentLecture.Some? || |old(session.answerOrder)| == 0) ==>
          session == (if c.currentLecture.Some? then PurgedSession(old(session), Prefix(c.currentLecture.value.number))
                      else old(session)) &&
          State() == Shown(Restarted(c))
    {
      if !confirmed {
        return;
      }
      if currentLecture.Some? {
        PurgedWellFormed(session.answerOrder, session.answers, Prefix(currentLecture.value.number));
        DeleteAnswersWithPrefix(Prefix(currentLecture.value.number));
      } else if |session.answerOrder| > 0 {
        return;
      }
      BackToFirstQuestion();
      RenderThenShowQuiz();
    }

    /**
     * `resetSession(confirmed)`: forget every answer, favorite and progress
     * record, then restart the open quiz or recount the open dashboard.
     */
    method ResetSession(confirmed: bool)
      modifies this
      requires Valid()
      ensures Valid()
      ensures !confirmed ==> session == old(session) && State() == old(State())
      ensures confirmed ==> session == SessionData([], map[], {}, map[])
      ensures var c := old(State());
        confirmed && c.view == QuizView && c.currentLecture.Some? ==>
          State() == QuizStarted(c, lectures, Some(c.currentLecture.value.number))
      ensures var c := old(State());
        confirmed && c.view == DashboardView ==> State() == WithResults(c, session)
      ensures var c := old(State());
        confirmed && (c.view == LandingView || (c.view == QuizView && c.currentLecture.None?)) ==> State() == c
    {
      if !confirmed {
        return;
      }
      session := SessionData([], map[], {}, map[]);
      if view == QuizView {
        if currentLecture.None? {
          return;
        }
        StartQuiz(Some(currentLecture.value.number));
        assert PurgedOrder([], TargetPrefix(Some(old(currentLecture).value.number))) == [];
      } else if view == DashboardView {
        CalculateResults();
      }
    }

    /** The quiz header's back arrow: leave any review, then go back where it came from. */
    method BackToLanding()
      modifies this
      requires Valid()
      ensures Valid()
      ensures session == old(session)
      ensures var c := old(State());
        var exited := ExitedViewOnly(ExitedReview(c));
        State() == if (c.reviewMode.Some? || c.viewOnlyMode) && c.reviewOrigin != Some(FromLanding)
                   then WithDashboard(exited, session)
                   else exited.(view := LandingView)
    {
      var origin := reviewOrigin;
      var special := reviewMode.Some? || viewOnlyMode;
      ExitReviewMode();
      ExitViewOnlyMode();
      if special && origin != Some(FromLanding) {
        ShowDashboard();
      } else {
        view := LandingView;
      }
    }

    /** The dashboard's home button. */
    method DashboardHome()
      modifies this
      requires Valid()
      ensures Valid()
      ensures session == old(session)
      ensures State() == ExitedReview(old(State())).(view := LandingView)
    {
      ExitReviewMode();
      view := LandingView;
    }

    /** The quiz's return-to-dashboard button. */
    method ReturnToDashboard()
      modifies this
      requires Valid()
      ensures Valid()
      ensures session == old(session)
      ensures State() == WithDashboard(ExitedViewOnly(old(State())), session)
    {
      ExitViewOnlyMode();
      ShowDashboard();
    }
  }
}
