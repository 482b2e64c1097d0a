/**
 * `calculateResults`: the dashboard's summary of one lecture, computed from the
 * answers Map (walked in insertion order) and the favorites Set.
 */
module Dashboard {
  import opened Wrappers
  import opened Text
  import opened Seqs
  import opened OrderedMaps
  import opened QuizData
  import opened AnswerLog

  /** A row of the dashboard's table of wrong answers. */
  datatype WrongAnswer = WrongAnswer(question: Question, userChoice: char, questionKey: string)

  datatype Results = Results(
    correct: nat,
    incorrect: nat,
    total: nat,
    percentage: nat,
    favoriteCount: nat,
    wrongAnswers: seq<WrongAnswer>)

  /**
   * `Math.round(correct / total * 100)`, or 0 for a lecture without questions:
   * the score is within half a point of the exact ratio, halves rounding up.
   */
  function Percentage(correct: nat, total: nat): (r: nat)
    ensures total == 0 ==> r == 0
    ensures total > 0 ==> 2 * total * r <= 200 * correct + total < 2 * total * (r + 1)
  {
    if total > 0 then
      var x, d := 200 * correct + total, 2 * total;
      assert d * (x / d) + x % d == x;
      x / d
    else 0
  }

  /** A score never exceeds 100 when no more answers are correct than there are questions. */
  lemma PercentageAtMost100(correct: nat, total: nat)
    requires correct <= total
    ensures Percentage(correct, total) <= 100
  {
    var r := Percentage(correct, total);
    if total > 0 {
      assert r * (2 * total) < 101 * (2 * total);
      ScaledLess(r, 101, 2 * total);
    }
  }

  lemma ScaledLess(a: nat, b: nat, d: nat)
    requires d > 0 && a * d < b * d
    ensures a < b
  {
    assert (b - a) * d == b * d - a * d;
  }

  /** One correct answer out of five questions scores 20. */
  lemma OneInFive()
    ensures Percentage(1, 5) == 20
  {
  }

  function CorrectIn(m: map<string, Answer>, p: string): string -> bool
  {
    (k: string) => k in m && StartsWith(k, p) && m[k].correct
  }

  function IncorrectIn(m: map<string, Answer>, p: string): string -> bool
  {
    (k: string) => k in m && StartsWith(k, p) && !m[k].correct
  }

  /** The keys of the lecture's correct answers, in the Map's order. */
  function CorrectKeys(order: seq<string>, m: map<string, Answer>, p: string): seq<string>
  {
    Filter(order, CorrectIn(m, p))
  }

  /** The keys of the lecture's incorrect answers, in the Map's order. */
  function IncorrectKeys(order: seq<string>, m: map<string, Answer>, p: string): seq<string>
  {
    Filter(order, IncorrectIn(m, p))
  }

  /** `questions.find(q => q.question_number == text)`: the first question whose number loosely equals `text`. */
  function FindQuestion(qs: seq<Question>, text: Option<string>): (r: Option<Question>)
    ensures r.Some? ==> exists i :: 0 <= i < |qs| && qs[i] == r.value && LooselyEquals(qs[i].questionNumber, text) &&
                                    forall j :: 0 <= j < i ==> !LooselyEquals(qs[j].questionNumber, text)
    ensures r.None? ==> forall i :: 0 <= i < |qs| ==> !LooselyEquals(qs[i].questionNumber, text)
  {
    if |qs| == 0 then None
    else if LooselyEquals(qs[0].questionNumber, text) then
      assert qs[0] == qs[0];
      Some(qs[0])
    else
      var rest := FindQuestion(qs[1..], text);
      assert forall i :: 1 <= i < |qs| ==> qs[i] == qs[1..][i - 1];
      rest
  }

  /**
   * The wrong-answer rows for the incorrect keys `keys`: one per key whose
   * question number (`key.split('-')[1]`) names a question of the lecture.
   */
  function WrongAnswersOf(keys: seq<string>, m: map<string, Answer>, qs: seq<Question>): (r: seq<WrongAnswer>)
    requires forall k :: k in keys ==> k in m
    ensures |r| <= |keys|
    ensures forall w :: w in r ==>
              w.questionKey in keys && w.userChoice == m[w.questionKey].choice &&
              w.question in qs && LooselyEquals(w.question.questionNumber, SecondField(w.questionKey))
  {
    if |keys| == 0 then []
    else
      var key := keys[|keys| - 1];
      var front := WrongAnswersOf(keys[..|keys| - 1], m, qs);
      match FindQuestion(qs, SecondField(key))
      case None => front
      case Some(q) => front + [WrongAnswer(q, m[key].choice, key)]
  }

  /** The keys of the rows. */
  function RowKeys(rows: seq<WrongAnswer>): seq<string>
  {
    seq(|rows|, i requires 0 <= i < |rows| => rows[i].questionKey)
  }

  /** `favorites.forEach(key => { if (key.startsWith(p)) count++ })`. */
  function FavoriteCount(favorites: set<string>, p: string): nat
  {
    |set k | k in favorites && StartsWith(k, p)|
  }

  /** The results `calculateResults` stores for `lecture`. */
  function ResultsOf(lecture: Lecture, order: seq<string>, m: map<string, Answer>, favorites: set<string>): Results
    requires forall k :: k in order ==> k in m
  {
    var p := Prefix(lecture.number);
    var wrong := IncorrectKeys(order, m, p);
    Results(
      |CorrectKeys(order, m, p)|,
      |wrong|,
      lecture.TotalQuestions(),
      Percentage(|CorrectKeys(order, m, p)|, lecture.TotalQuestions()),
      FavoriteCount(favorites, p),
      WrongAnswersOf(wrong, m, lecture.questions))
  }

  /** Counts the favorites carrying prefix `p`, one Set element at a time. */
  method CountFavorites(favorites: set<string>, p: string) returns (count: nat)
    ensures count == FavoriteCount(favorites, p)
  {
    count := 0;
    var left := favorites;
    while left != {}
      invariant left <= favorites
      invariant count + |set k | k in left && StartsWith(k, p)| == FavoriteCount(favorites, p)
      decreases |left|
    {
      var k :| k in left;
      var before := set x | x in left && StartsWith(x, p);
      var after := set x | x in left - {k} && StartsWith(x, p);
      if StartsWith(k, p) {
        assert before == after + {k};
        count := count + 1;
      } else {
        assert before == after;
      }
      left := left - {k};
    }
  }

  /**
   * The loop of `calculateResults`: the favorites count, then one pass over the
   * answers in insertion order tallying the lecture's correct and incorrect
   * answers and collecting a row for each incorrect one whose question is found.
   */
  method TallyResults(lecture: Lecture, order: seq<string>, m: map<string, Answer>, favorites: set<string>)
    returns (r: Results)
    requires forall k :: k in order ==> k in m
    ensures r == ResultsOf(lecture, order, m, favorites)
  {
    var p := Prefix(lecture.number);
    var favoriteCount := CountFavorites(favorites, p);
    var correct, incorrect := 0, 0;
    var wrong: seq<WrongAnswer> := [];
    for i := 0 to |order|
      invariant (correct, incorrect, wrong) == Tally(order[..i], m, p, lecture.questions)
    {
      var key := order[i];
      var answer := m[key];
      assert order[..i + 1][..i] == order[..i];
      if StartsWith(key, p) {
        if answer.correct {
          correct := correct + 1;
        } else {
          incorrect := incorrect + 1;
          var found := FindQuestion(lecture.questions, SecondField(key));
          if found.Some? {
            wrong := wrong + [WrongAnswer(found.value, answer.choice, key)];
          }
        }
      }
    }
    assert order[..|order|] == order;
    TallyIsResults(order, m, p, lecture.questions);
    var total := lecture.TotalQuestions();
    r := Results(correct, incorrect, total, Percentage(correct, total), favoriteCount, wrong);
  }

  /**
   * One more key of the Map's order: it joins the correct or the incorrect keys
   * when it passes the test, and an incorrect one adds a row when its question is found.
   */
  lemma ResultsStep(keys: seq<string>, m: map<string, Answer>, p: string, qs: seq<Question>)
    requires forall k :: k in keys ==> k in m
    requires |keys| > 0
    ensures var init, key := keys[..|keys| - 1], keys[|keys| - 1];
      CorrectKeys(keys, m, p) == CorrectKeys(init, m, p) + (if CorrectIn(m, p)(key) then [key] else []) &&
      IncorrectKeys(keys, m, p) == IncorrectKeys(init, m, p) + (if IncorrectIn(m, p)(key) then [key] else [])
  {
    var init, key := keys[..|keys| - 1], keys[|keys| - 1];
    assert keys == init + [key];
    FilterSnoc(init, key, CorrectIn(m, p));
    FilterSnoc(init, key, IncorrectIn(m, p));
  }

  /**
   * What the loop of `calculateResults` has tallied after walking `keys`:
   * the correct count, the incorrect count and the rows collected so far.
   */
  function Tally(keys: seq<string>, m: map<string, Answer>, p: string, qs: seq<Question>): (nat, nat, seq<WrongAnswer>)
    requires forall k :: k in keys ==> k in m
  {
    if |keys| == 0 then (0, 0, [])
    else
      var key := keys[|keys| - 1];
      var before := Tally(keys[..|keys| - 1], m, p, qs);
      if !StartsWith(key, p) then before
      else if m[key].correct then (before.0 + 1, before.1, before.2)
      else match FindQuestion(qs, SecondField(key))
        case None => (before.0, before.1 + 1, before.2)
        case Some(q) => (before.0, before.1 + 1, before.2 + [WrongAnswer(q, m[key].choice, key)])
  }

  /** The single pass tallies exactly the counts and rows `ResultsOf` defines by filtering. */
  lemma {:induction false} TallyIsResults(keys: seq<string>, m: map<string, Answer>, p: string, qs: seq<Question>)
    requires forall k :: k in keys ==> k in m
    ensures Tally(keys, m, p, qs) ==
            (|CorrectKeys(keys, m, p)|, |IncorrectKeys(keys, m, p)|, WrongAnswersOf(IncorrectKeys(keys, m, p), m, qs))
  {
    if |keys| > 0 {
      var init, key := keys[..|keys| - 1], keys[|keys| - 1];
      assert forall k :: k in init ==> k in keys;
      TallyIsResults(init, m, p, qs);
      ResultsStep(keys, m, p, qs);
      var wrong := IncorrectKeys(keys, m, p);
      if IncorrectIn(m, p)(key) {
        assert wrong[..|wrong| - 1] == IncorrectKeys(init, m, p);
      }
    }
  }

  /**
   * Every answer of the lecture is either correct or incorrect: the two counts
   * add up to the number of the lecture's answer keys, the count
   * `updateLectureProgress` records.
   */
  lemma CorrectPlusIncorrect(order: seq<string>, m: map<string, Answer>, p: string)
    requires WellFormed(order, m)
    ensures |CorrectKeys(order, m, p)| + |IncorrectKeys(order, m, p)| == CountWithPrefix(order, p)
  {
    FilterPartition(order, HasPrefix(p), CorrectIn(m, p), IncorrectIn(m, p));
  }

  /** The correct count is the number of distinct questions of the lecture answered correctly. */
  lemma CorrectCountsDistinctQuestions(order: seq<string>, m: map<string, Answer>, p: string)
    requires WellFormed(order, m)
    ensures |CorrectKeys(order, m, p)| == |set k | k in m && StartsWith(k, p) && m[k].correct|
  {
    FilterCount(order, CorrectIn(m, p));
    assert Passing(order, CorrectIn(m, p)) == set k | k in m && StartsWith(k, p) && m[k].correct;
  }

  /** The incorrect count is the number of distinct questions of the lecture answered incorrectly. */
  lemma IncorrectCountsDistinctQuestions(order: seq<string>, m: map<string, Answer>, p: string)
    requires WellFormed(order, m)
    ensures |IncorrectKeys(order, m, p)| == |set k | k in m && StartsWith(k, p) && !m[k].correct|
  {
    FilterCount(order, IncorrectIn(m, p));
    assert Passing(order, IncorrectIn(m, p)) == set k | k in m && StartsWith(k, p) && !m[k].correct;
  }

  /**
   * Every row of the table is an incorrect answer of the lecture: its key has
   * the lecture's prefix and its stored answer is marked incorrect.
   */
  lemma WrongAnswersAreIncorrect(lecture: Lecture, order: seq<string>, m: map<string, Answer>, favorites: set<string>)
    requires forall k :: k in order ==> k in m
    ensures forall w :: w in ResultsOf(lecture, order, m, favorites).wrongAnswers ==>
              w.questionKey in m && StartsWith(w.questionKey, Prefix(lecture.number)) &&
              !m[w.questionKey].correct && w.userChoice == m[w.questionKey].choice &&
              w.question in lecture.questions
  {
    var p := Prefix(lecture.number);
    var keys := IncorrectKeys(order, m, p);
    forall w | w in WrongAnswersOf(keys, m, lecture.questions)
      ensures w.questionKey in m && StartsWith(w.questionKey, p) && !m[w.questionKey].correct
    {
      assert IncorrectIn(m, p)(w.questionKey);
    }
  }

  /** The rows come in the order of their keys in `keys`. */
  lemma {:induction false} RowsInKeyOrder(keys: seq<string>, m: map<string, Answer>, qs: seq<Question>)
    requires forall k :: k in keys ==> k in m
    ensures IsSubsequence(RowKeys(WrongAnswersOf(keys, m, qs)), keys)
  {
    if |keys| > 0 {
      var init := keys[..|keys| - 1];
      var key := keys[|keys| - 1];
      var front := WrongAnswersOf(init, m, qs);
      RowsInKeyOrder(init, m, qs);
      var rows := WrongAnswersOf(keys, m, qs);
      SubsequenceExtend(RowKeys(front), init, key);
      if rows != front {
        assert RowKeys(rows)[..|rows| - 1] == RowKeys(front);
      }
    }
  }

  /** The table lists wrong answers in the order they were first given (the Map's insertion order). */
  lemma WrongAnswersInMapOrder(lecture: Lecture, order: seq<string>, m: map<string, Answer>, favorites: set<string>)
    requires forall k :: k in order ==> k in m
    ensures IsSubsequence(RowKeys(ResultsOf(lecture, order, m, favorites).wrongAnswers), order)
  {
    var keys := IncorrectKeys(order, m, Prefix(lecture.number));
    RowsInKeyOrder(keys, m, lecture.questions);
    FilterSubsequence(order, IncorrectIn(m, Prefix(lecture.number)));
    SubsequenceTransitive(RowKeys(WrongAnswersOf(keys, m, lecture.questions)), keys, order);
  }

  /**
   * Every question of the lecture whose stored answer is incorrect gets a row,
   * keyed by its own key and showing a question with its number.
   */
  lemma {:induction false} WrongAnswersComplete(keys: seq<string>, m: map<string, Answer>, lecture: Lecture, q: Question)
    requires forall k :: k in keys ==> k in m
    requires q in lecture.questions && KeyOf(lecture.number, q.questionNumber) in keys
    ensures exists w :: w in WrongAnswersOf(keys, m, lecture.questions) &&
                        w.questionKey == KeyOf(lecture.number, q.questionNumber) &&
                        w.question.questionNumber == q.questionNumber
  {
    var key := KeyOf(lecture.number, q.questionNumber);
    var last := keys[|keys| - 1];
    var init := keys[..|keys| - 1];
    if last == key {
      KeyQuestionField(lecture.number, q.questionNumber);
      LooselyEqualsRendering(q.questionNumber, q.questionNumber);
      var found := FindQuestion(lecture.questions, SecondField(key));
      assert found.Some? by {
        var i :| 0 <= i < |lecture.questions| && lecture.questions[i] == q;
      }
      LooselyEqualsRendering(found.value.questionNumber, q.questionNumber);
      var w := WrongAnswer(found.value, m[key].choice, key);
      assert WrongAnswersOf(keys, m, lecture.questions) == WrongAnswersOf(init, m, lecture.questions) + [w];
      assert w in WrongAnswersOf(keys, m, lecture.questions);
    } else {
      assert key in init;
      WrongAnswersComplete(init, m, lecture, q);
      var w :| w in WrongAnswersOf(init, m, lecture.questions) &&
               w.questionKey == key && w.question.questionNumber == q.questionNumber;
      assert w in WrongAnswersOf(keys, m, lecture.questions);
    }
  }

  /** The results' table has a row for every question of the lecture answered incorrectly. */
  lemma IncorrectQuestionsListed(lecture: Lecture, order: seq<string>, m: map<string, Answer>, favorites: set<string>, q: Question)
    requires WellFormed(order, m)
    requires q in lecture.questions
    requires KeyOf(lecture.number, q.questionNumber) in m && !m[KeyOf(lecture.number, q.questionNumber)].correct
    ensures exists w :: w in ResultsOf(lecture, order, m, favorites).wrongAnswers &&
                        w.questionKey == KeyOf(lecture.number, q.questionNumber) &&
                        w.question.questionNumber == q.questionNumber
  {
    var p := Prefix(lecture.number);
    var key := KeyOf(lecture.number, q.questionNumber);
    KeyMatchesPrefix(lecture.number, q.questionNumber, lecture.number);
    assert key in order;
    assert key in IncorrectKeys(order, m, p);
    WrongAnswersComplete(IncorrectKeys(order, m, p), m, lecture, q);
  }
}
