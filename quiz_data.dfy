/**
 * The quiz's data: lectures and their questions as loaded, the answer records
 * and progress entries of the session, and the string keys
 * `"<lecture>-<question_number>"` under which answers and favorites are stored.
 */
module QuizData {
  import opened Wrappers
  import opened Text

  /** The loader tries the lecture files numbered 1 to 20. */
  const MaxLecture: nat := 20

  /**
   * A lecture's `number`: a real lecture's number, or the text 'favorites'
   * of the virtual lecture a global favorites review builds.
   */
  datatype LectureId = Numbered(n: nat) | Synthetic

  /**
   * The fields of a question that the session logic reads. `lectureNumber` is
   * present only on the copies a global favorites review makes; prompts,
   * choice texts and explanations are display data and are not modelled.
   */
  datatype Question = Question(questionNumber: nat, correctChoice: char, lectureNumber: Option<nat>)

  datatype Lecture = Lecture(number: LectureId, questions: seq<Question>)
  {
    /** `totalQuestions`: the loader and the virtual lecture both set it to the number of questions. */
    function TotalQuestions(): nat { |questions| }
  }

  /** One stored answer; `timestamp` is the `Date.now()` of the submission. */
  datatype Answer = Answer(choice: char, correct: bool, timestamp: int)

  datatype Progress = Progress(totalQuestions: nat, completedQuestions: nat, isCompleted: bool)

  /** `${lecture.number}`. */
  function LectureText(id: LectureId): string
  {
    match id
    case Numbered(n) => NatToString(n)
    case Synthetic => "favorites"
  }

  /** The prefix `${number}-` that selects a lecture's keys. */
  function Prefix(id: LectureId): string { LectureText(id) + "-" }

  /** The key `${number}-${question_number}`. */
  function KeyOf(id: LectureId, questionNumber: nat): string
  {
    LectureText(id) + "-" + NatToString(questionNumber)
  }

  lemma LectureTextDashFree(id: LectureId)
    ensures DashFree(LectureText(id))
  {
    if id.Numbered? {
      var s := NatToString(id.n);
      assert forall i :: 0 <= i < |s| ==> IsDigit(s[i]);
    }
  }

  /** Different lectures have different texts. */
  lemma LectureTextInjective(a: LectureId, b: LectureId)
    ensures LectureText(a) == LectureText(b) <==> a == b
  {
    if a.Numbered? && b.Numbered? {
      NatToStringInjective(a.n, b.n);
    } else if a.Numbered? && b.Synthetic? {
      assert IsDigit(LectureText(a)[0]);
    } else if a.Synthetic? && b.Numbered? {
      assert IsDigit(LectureText(b)[0]);
    }
  }

  /**
   * The prefix test `key.startsWith(`${n}-`)` selects exactly the keys of
   * lecture `n`: "11-3" is not a key of lecture 1, and "1-3" is not one of lecture 11.
   */
  lemma KeyMatchesPrefix(a: LectureId, questionNumber: nat, b: LectureId)
    ensures StartsWith(KeyOf(a, questionNumber), Prefix(b)) <==> a == b
  {
    LectureTextDashFree(a);
    LectureTextDashFree(b);
    PrefixAtDash(LectureText(a), NatToString(questionNumber), LectureText(b));
    LectureTextInjective(a, b);
  }

  /** `key.split('-')[1]` of a key is the question number's text. */
  lemma KeyQuestionField(id: LectureId, questionNumber: nat)
    ensures SecondField(KeyOf(id, questionNumber)) == Some(NatToString(questionNumber))
  {
    var digits := NatToString(questionNumber);
    assert DashFree(digits) by {
      assert forall i :: 0 <= i < |digits| ==> IsDigit(digits[i]);
    }
    LectureTextDashFree(id);
    SplitAtFirstDash(LectureText(id), digits);
  }

  /**
   * The lecture part of a question's key, `question.lectureNumber || currentLecture.number`:
   * a tag of 0 is falsy and falls through; `None` where the source reads a
   * field of a null `currentLecture` and throws.
   */
  function KeyLecture(q: Question, current: Option<Lecture>): Option<LectureId>
  {
    if q.lectureNumber.Some? && q.lectureNumber.value != 0 then Some(Numbered(q.lectureNumber.value))
    else if current.Some? then Some(current.value.number)
    else None
  }

  /** The key under which a question's answer and favorite mark are stored. */
  function QuestionKey(q: Question, current: Option<Lecture>): Option<string>
  {
    match KeyLecture(q, current)
    case None => None
    case Some(id) => Some(KeyOf(id, q.questionNumber))
  }
}
