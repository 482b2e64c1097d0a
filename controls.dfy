/**
 * The controller state of `QuizApp` as a value: which view is shown, the lecture
 * and question in play, the review being run and where it was started from,
 * together with the pure lookups and transitions the methods share.
 */
module ControlState {
  import opened Wrappers
  import opened Text
  import opened OrderedMaps
  import opened QuizData
  import opened AnswerLog
  import opened Dashboard

  datatype View = LandingView | QuizView | DashboardView

  /** `reviewMode`: 'errors', 'favorites' or 'global-favorites'. */
  datatype ReviewMode = IncorrectReview | FavoritesReview | GlobalFavoritesReview

  /** `reviewOrigin`: 'landing' or 'dashboard'. */
  datatype Origin = FromLanding | FromDashboard

  /** `sessionData` without its display language: what is saved between visits. */
  datatype SessionData = SessionData(
    answerOrder: seq<string>,
    answers: map<string, Answer>,
    favorites: set<string>,
    progress: map<LectureId, Progress>)

  /** The controller's fields; an absent value stands for the source's `null` or `undefined`. */
  datatype Controls = Controls(
    view: View,
    currentLecture: Option<Lecture>,
    index: nat,
    selection: Option<char>,
    answerSubmitted: bool,
    viewOnlyMode: bool,
    reviewMode: Option<ReviewMode>,
    reviewQuestions: Option<seq<Question>>,
    originalLecture: Option<Lecture>,
    reviewOrigin: Option<Origin>,
    pendingLecture: Option<nat>,
    reviewType: Option<ReviewMode>,
    results: Option<Results>)

  /** The loader stores the file `Lecture_n.json`, for `n` from 1 to 20, under key `n` with number `n`. */
  predicate Loaded(lectures: map<nat, Lecture>)
  {
    forall n :: n in lectures ==> 1 <= n <= MaxLecture && lectures[n].number == Numbered(n)
  }

  /**
   * `lectures.get(target)`, where an absent target is `undefined`: the loaded
   * lecture that carries the requested number, or none when no loaded lecture does.
   */
  function LectureFor(lectures: map<nat, Lecture>, target: Option<LectureId>): (r: Option<Lecture>)
    ensures Loaded(lectures) && r.Some? ==>
              target.Some? && r.value.number == target.value && r.value in lectures.Values
    ensures Loaded(lectures) && r.None? && target.Some? ==>
              forall n {:trigger lectures[n]} :: n in lectures ==> lectures[n].number != target.value
  {
    if target.Some? && target.value.Numbered? && target.value.n in lectures then Some(lectures[target.value.n])
    else None
  }

  /** The prefix `${target}-` of a lecture argument, `"undefined-"` when it is absent. */
  function TargetPrefix(target: Option<LectureId>): string
  {
    if target.Some? then Prefix(target.value) else "undefined-"
  }

  /** The questions being worked through: the review set while a review runs, else the lecture's. */
  function ActiveQuestions(c: Controls): Option<seq<Question>>
  {
    if c.reviewMode.Some? && c.reviewQuestions.Some? then c.reviewQuestions
    else if c.currentLecture.Some? then Some(c.currentLecture.value.questions)
    else None
  }

  /** `getTotalQuestions`; absent where the source reads through a null lecture. */
  function ActiveTotal(c: Controls): Option<nat>
  {
    match ActiveQuestions(c)
    case None => None
    case Some(qs) => Some(|qs|)
  }

  /** `getCurrentQuestion`; absent where the source gets `undefined` or reads through a null lecture. */
  function CurrentQuestion(c: Controls): (r: Option<Question>)
    ensures r.Some? <==> ActiveTotal(c).Some? && c.index < ActiveTotal(c).value
    ensures r.Some? ==> r.value == ActiveQuestions(c).value[c.index]
  {
    match ActiveQuestions(c)
    case None => None
    case Some(qs) => if c.index < |qs| then Some(qs[c.index]) else None
  }

  /**
   * The total is the number of positions that show a question: every index
   * below it shows the question at that position of the active questions, and
   * the index equal to it shows none.
   */
  lemma TotalCountsPositions(c: Controls)
    requires ActiveTotal(c).Some?
    ensures forall i :: 0 <= i < ActiveTotal(c).value ==>
              CurrentQuestion(c.(index := i)) == Some(ActiveQuestions(c).value[i])
    ensures CurrentQuestion(c.(index := ActiveTotal(c).value)).None?
  {
  }

  /** The key of the current question, `${question.lectureNumber || currentLecture.number}-${question_number}`. */
  function CurrentKey(c: Controls): Option<string>
  {
    match CurrentQuestion(c)
    case None => None
    case Some(q) => QuestionKey(q, c.currentLecture)
  }

  /**
   * `renderQuestion` gets through without a TypeError: it reads the current
   * lecture's number for the header, then the current question.
   */
  predicate Renders(c: Controls)
  {
    c.currentLecture.Some? && CurrentQuestion(c).Some?
  }

  /** What the controller keeps true: review mode and review set come and go together, and a global review's questions are tagged with loaded lectures. */
  predicate ControlsValid(lectures: map<nat, Lecture>, c: Controls)
  {
    (c.reviewMode.Some? <==> c.reviewQuestions.Some?) &&
    (c.reviewMode == Some(GlobalFavoritesReview) ==>
       forall q :: q in c.reviewQuestions.value ==>
         q.lectureNumber.Some? && 1 <= q.lectureNumber.value && q.lectureNumber.value in lectures)
  }

  /** `exitReviewMode`. */
  function ExitedReview(c: Controls): Controls
  {
    if c.reviewMode.None? then c
    else
      c.(reviewMode := None, reviewQuestions := None, viewOnlyMode := false, answerSubmitted := false,
         currentLecture := if c.originalLecture.Some? then c.originalLecture else c.currentLecture,
         originalLecture := None, index := 0, reviewOrigin := None)
  }

  /** `exitViewOnlyMode`. */
  function ExitedViewOnly(c: Controls): Controls
  {
    c.(viewOnlyMode := false, answerSubmitted := false, reviewOrigin := None)
  }

  /** `calculateResults`: nothing happens when there is no current lecture (the source throws). */
  function WithResults(c: Controls, s: SessionData): Controls
    requires WellFormed(s.answerOrder, s.answers)
  {
    if c.currentLecture.None? then c
    else c.(results := Some(ResultsOf(c.currentLecture.value, s.answerOrder, s.answers, s.favorites)))
  }

  /** `showDashboard`: the results, then the dashboard view, unless `calculateResults` throws. */
  function WithDashboard(c: Controls, s: SessionData): Controls
    requires WellFormed(s.answerOrder, s.answers)
  {
    if c.currentLecture.None? then c else WithResults(c, s).(view := DashboardView)
  }

  /** `currentQuestionIndex = 0; answerSubmitted = false; viewOnlyMode = false`. */
  function Restarted(c: Controls): Controls
  {
    c.(index := 0, answerSubmitted := false, viewOnlyMode := false)
  }

  /** `renderQuestion()` followed by `showView('quiz')`: the view switches only if rendering gets through. */
  function Shown(c: Controls): Controls
  {
    c.(view := if Renders(c) then QuizView else c.view)
  }

  /** `startQuiz(target)` on the controller fields. */
  function QuizStarted(c: Controls, lectures: map<nat, Lecture>, target: Option<LectureId>): Controls
  {
    Shown(Restarted(c).(currentLecture := LectureFor(lectures, target)))
  }

  /** The session once every answer whose key starts with `p` is deleted. */
  function PurgedSession(s: SessionData, p: string): SessionData
  {
    s.(answerOrder := PurgedOrder(s.answerOrder, p), answers := Purged(s.answers, p))
  }

  /**
   * Starting a loaded lecture outside a review shows its first question when it
   * has one; starting one that is not loaded (or the virtual favorites lecture)
   * leaves no current lecture and the view where it was.
   */
  lemma StartQuizShows(c: Controls, lectures: map<nat, Lecture>, target: Option<LectureId>)
    requires c.reviewMode.None?
    ensures var r := QuizStarted(c, lectures, target);
      r.index == 0 && !r.answerSubmitted && !r.viewOnlyMode &&
      (r.currentLecture.Some? <==> target.Some? && target.value.Numbered? && target.value.n in lectures) &&
      r.view == (if r.currentLecture.Some? && |r.currentLecture.value.questions| > 0 then QuizView else c.view) &&
      (r.currentLecture.Some? && |r.currentLecture.value.questions| > 0 ==>
         CurrentQuestion(r) == Some(r.currentLecture.value.questions[0]))
  {
  }

  /** The key the current question is stored under in a global favorites review is the key of its own lecture. */
  lemma GlobalReviewKeysAreReal(lectures: map<nat, Lecture>, c: Controls)
    requires Loaded(lectures) && ControlsValid(lectures, c)
    requires c.reviewMode == Some(GlobalFavoritesReview) && CurrentQuestion(c).Some?
    ensures var q := CurrentQuestion(c).value;
      q.lectureNumber.Some? && q.lectureNumber.value in lectures &&
      CurrentKey(c) == Some(KeyOf(lectures[q.lectureNumber.value].number, q.questionNumber)) &&
      !StartsWith(CurrentKey(c).value, Prefix(Synthetic))
  {
    var q := CurrentQuestion(c).value;
    assert q in c.reviewQuestions.value;
    KeyMatchesPrefix(Numbered(q.lectureNumber.value), q.questionNumber, Synthetic);
  }

  /**
   * Leaving a review ends it for good: the review fields are cleared, and the
   * lecture that was current before a global favorites review is current again.
   */
  lemma ExitReviewRestores(c: Controls)
    requires c.reviewMode.Some?
    ensures var r := ExitedReview(c);
      r.reviewMode.None? && r.reviewQuestions.None? && r.originalLecture.None? && r.reviewOrigin.None? &&
      r.index == 0 && !r.viewOnlyMode && !r.answerSubmitted &&
      (c.originalLecture.Some? ==> r.currentLecture == c.originalLecture) &&
      ExitedReview(r) == r
  {
  }
}
