/**
 * What the quiz does with the answers Map by key prefix: count a lecture's
 * answers (`updateLectureProgress`) and delete them (`startQuiz`,
 * `retakeAllQuestions`).
 */
module AnswerLog {
  import opened Text
  import opened Seqs
  import opened OrderedMaps
  import opened QuizData

  function HasPrefix(p: string): string -> bool { (k: string) => StartsWith(k, p) }

  function LacksPrefix(p: string): string -> bool { (k: string) => !StartsWith(k, p) }

  /** `Array.from(answers.keys()).filter(key => key.startsWith(p)).length`. */
  function CountWithPrefix(order: seq<string>, p: string): nat
  {
    |Filter(order, HasPrefix(p))|
  }

  /** The insertion order left once every key starting with `p` is deleted. */
  function PurgedOrder(order: seq<string>, p: string): seq<string>
  {
    Filter(order, LacksPrefix(p))
  }

  /** The answers left once every key starting with `p` is deleted. */
  function Purged(m: map<string, Answer>, p: string): map<string, Answer>
  {
    map k | k in m && !StartsWith(k, p) :: m[k]
  }

  /** Deleting by prefix leaves a well-formed Map. */
  lemma PurgedWellFormed(order: seq<string>, m: map<string, Answer>, p: string)
    requires WellFormed(order, m)
    ensures WellFormed(PurgedOrder(order, p), Purged(m, p))
  {
    FilterDistinct(order, LacksPrefix(p));
  }

  /**
   * The count of a lecture's answers is the number of distinct keys with its
   * prefix: an answered question counts once however often it was answered.
   */
  lemma CountIsDistinctKeys(order: seq<string>, m: map<string, Answer>, p: string)
    requires WellFormed(order, m)
    ensures CountWithPrefix(order, p) == |set k | k in m && StartsWith(k, p)|
  {
    FilterCount(order, HasPrefix(p));
    var inOrder := Passing(order, HasPrefix(p));
    var inMap := set k | k in m && StartsWith(k, p);
    assert inOrder <= inMap;
    assert inMap <= inOrder;
    assert inOrder == inMap;
    assert CountWithPrefix(order, p) == |inOrder|;
  }

  /**
   * Setting an answer adds one to its lecture's count when the key is new and
   * leaves the count alone when the question was answered before.
   */
  lemma InsertedCount(order: seq<string>, key: string, p: string)
    ensures CountWithPrefix(Inserted(order, key), p) ==
            CountWithPrefix(order, p) + (if key !in order && StartsWith(key, p) then 1 else 0)
  {
    if key !in order {
      assert (order + [key])[..|order|] == order;
    }
  }

  /**
   * Deleting lecture `a`'s answers removes exactly the keys of lecture `a` and
   * keeps every other lecture's answer, value and all.
   */
  lemma PurgeLecture(m: map<string, Answer>, a: LectureId, b: LectureId, questionNumber: nat)
    ensures var key := KeyOf(b, questionNumber);
      (key in Purged(m, Prefix(a)) <==> key in m && a != b) &&
      (key in Purged(m, Prefix(a)) ==> Purged(m, Prefix(a))[key] == m[key])
  {
    KeyMatchesPrefix(b, questionNumber, a);
  }

  /** After the deletion no answer of the lecture is left to count. */
  lemma PurgedCountsNothing(order: seq<string>, p: string)
    ensures CountWithPrefix(PurgedOrder(order, p), p) == 0
  {
    FilterNone(PurgedOrder(order, p), HasPrefix(p));
  }
}
