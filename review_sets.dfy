/**
 * The question sequences a review runs over: a lecture's incorrectly answered
 * or favorited questions (`getIncorrectQuestions`, `getFavoriteQuestions`) and
 * the favorites of every lecture (`startGlobalFavoritesReview`).
 */
module ReviewSets {
  import opened Wrappers
  import opened Seqs
  import opened QuizData

  /** The key the per-lecture filters build: `${currentLecture.number}-${question.question_number}`. */
  function KeyIn(lecture: Lecture, q: Question): string
  {
    KeyOf(lecture.number, q.questionNumber)
  }

  function AnsweredWrong(lecture: Lecture, answers: map<string, Answer>): Question -> bool
  {
    (q: Question) => KeyIn(lecture, q) in answers && !answers[KeyIn(lecture, q)].correct
  }

  function Favored(lecture: Lecture, favorites: set<string>): Question -> bool
  {
    (q: Question) => KeyIn(lecture, q) in favorites
  }

  /** `getIncorrectQuestions`: the lecture's questions whose stored answer is marked incorrect, in lecture order. */
  function IncorrectQuestions(lecture: Lecture, answers: map<string, Answer>): (r: seq<Question>)
    ensures forall q {:trigger q in r} :: q in r <==>
              q in lecture.questions && KeyIn(lecture, q) in answers && !answers[KeyIn(lecture, q)].correct
    ensures IsSubsequence(r, lecture.questions)
  {
    FilterSubsequence(lecture.questions, AnsweredWrong(lecture, answers));
    Filter(lecture.questions, AnsweredWrong(lecture, answers))
  }

  /** `getFavoriteQuestions`: the lecture's favorited questions, in lecture order. */
  function FavoriteQuestions(lecture: Lecture, favorites: set<string>): (r: seq<Question>)
    ensures forall q {:trigger q in r} :: q in r <==> q in lecture.questions && KeyIn(lecture, q) in favorites
    ensures IsSubsequence(r, lecture.questions)
  {
    FilterSubsequence(lecture.questions, Favored(lecture, favorites));
    Filter(lecture.questions, Favored(lecture, favorites))
  }

  /** `{...question, lectureNumber: n}` for each question. */
  function Tagged(qs: seq<Question>, n: nat): (r: seq<Question>)
    ensures |r| == |qs|
    ensures forall i :: 0 <= i < |qs| ==> r[i] == qs[i].(lectureNumber := Some(n))
  {
    seq(|qs|, i requires 0 <= i < |qs| => qs[i].(lectureNumber := Some(n)))
  }

  lemma TaggedSnoc(qs: seq<Question>, x: Question, n: nat)
    ensures Tagged(qs + [x], n) == Tagged(qs, n) + [x.(lectureNumber := Some(n))]
  {
  }

  lemma TaggedMember(qs: seq<Question>, n: nat, q: Question)
    requires q in qs
    ensures q.(lectureNumber := Some(n)) in Tagged(qs, n)
  {
    var i :| 0 <= i < |qs| && qs[i] == q;
    assert Tagged(qs, n)[i] == q.(lectureNumber := Some(n));
  }

  lemma TaggedMembers(qs: seq<Question>, n: nat)
    ensures forall t :: t in Tagged(qs, n) ==>
              t.lectureNumber == Some(n) && exists orig :: orig in qs && t == orig.(lectureNumber := Some(n))
  {
    forall t | t in Tagged(qs, n)
      ensures t.lectureNumber == Some(n) && exists orig :: orig in qs && t == orig.(lectureNumber := Some(n))
    {
      var i :| 0 <= i < |qs| && Tagged(qs, n)[i] == t;
      assert qs[i] in qs;
    }
  }

  function FavoredIn(n: nat, favorites: set<string>): Question -> bool
  {
    (q: Question) => KeyOf(Numbered(n), q.questionNumber) in favorites
  }

  /** The favorited questions of lecture `n` (none if it was not loaded), tagged with `n`. */
  function LectureFavorites(lectures: map<nat, Lecture>, favorites: set<string>, n: nat): seq<Question>
  {
    if n in lectures then Tagged(Filter(lectures[n].questions, FavoredIn(n, favorites)), n) else []
  }

  /**
   * The global favorites set over lectures 1 to `upTo`: lecture by lecture in
   * ascending number (the order the loader inserted them), question by question within each.
   */
  function GlobalFavorites(lectures: map<nat, Lecture>, favorites: set<string>, upTo: nat): seq<Question>
  {
    if upTo == 0 then []
    else GlobalFavorites(lectures, favorites, upTo - 1) + LectureFavorites(lectures, favorites, upTo)
  }

  /** One more lecture appends its favorites to the collection. */
  lemma GlobalFavoritesUnfold(lectures: map<nat, Lecture>, favorites: set<string>, upTo: nat)
    requires upTo > 0
    ensures GlobalFavorites(lectures, favorites, upTo) ==
            GlobalFavorites(lectures, favorites, upTo - 1) + LectureFavorites(lectures, favorites, upTo)
    ensures upTo !in lectures ==> GlobalFavorites(lectures, favorites, upTo) == GlobalFavorites(lectures, favorites, upTo - 1)
  {
    if upTo !in lectures {
      assert GlobalFavorites(lectures, favorites, upTo - 1) + [] == GlobalFavorites(lectures, favorites, upTo - 1);
    }
  }

  /**
   * The loop of `startGlobalFavoritesReview`: every loaded lecture in turn, every
   * question of it in turn, keeping the favorited ones tagged with their lecture.
   */
  method CollectGlobalFavorites(lectures: map<nat, Lecture>, favorites: set<string>) returns (all: seq<Question>)
    ensures all == GlobalFavorites(lectures, favorites, MaxLecture)
  {
    all := [];
    for n := 1 to MaxLecture + 1
      invariant all == GlobalFavorites(lectures, favorites, n - 1)
    {
      GlobalFavoritesUnfold(lectures, favorites, n);
      if n in lectures {
        var picked := CollectLectureFavorites(lectures[n].questions, n, favorites);
        all := all + picked;
      }
    }
  }

  /** The inner loop: lecture `n`'s questions in turn, the favorited ones tagged with `n`. */
  method CollectLectureFavorites(qs: seq<Question>, n: nat, favorites: set<string>) returns (picked: seq<Question>)
    ensures picked == Tagged(Filter(qs, FavoredIn(n, favorites)), n)
  {
    picked := [];
    for j := 0 to |qs|
      invariant picked == Tagged(Filter(qs[..j], FavoredIn(n, favorites)), n)
    {
      LectureFavoritesStep(qs, j, n, favorites);
      if KeyOf(Numbered(n), qs[j].questionNumber) in favorites {
        picked := picked + [qs[j].(lectureNumber := Some(n))];
      }
    }
    assert qs[..|qs|] == qs;
  }

  /** One more question of the lecture is appended, tagged, exactly when it is a favorite. */
  lemma LectureFavoritesStep(qs: seq<Question>, j: nat, n: nat, favorites: set<string>)
    requires j < |qs|
    ensures Tagged(Filter(qs[..j + 1], FavoredIn(n, favorites)), n) ==
            Tagged(Filter(qs[..j], FavoredIn(n, favorites)), n) +
            (if KeyOf(Numbered(n), qs[j].questionNumber) in favorites then [qs[j].(lectureNumber := Some(n))] else [])
  {
    assert qs[..j + 1] == qs[..j] + [qs[j]];
    FilterSnoc(qs[..j], qs[j], FavoredIn(n, favorites));
    TaggedSnoc(Filter(qs[..j], FavoredIn(n, favorites)), qs[j], n);
  }

  /**
   * Every question of the global set is a favorited question of a loaded lecture
   * between 1 and `upTo`, unchanged except for the tag naming that lecture.
   */
  lemma GlobalFavoritesSound(lectures: map<nat, Lecture>, favorites: set<string>, upTo: nat)
    ensures forall q :: q in GlobalFavorites(lectures, favorites, upTo) ==>
              q.lectureNumber.Some? && 1 <= q.lectureNumber.value <= upTo &&
              q.lectureNumber.value in lectures &&
              KeyOf(Numbered(q.lectureNumber.value), q.questionNumber) in favorites &&
              exists orig :: orig in lectures[q.lectureNumber.value].questions &&
                             q == orig.(lectureNumber := q.lectureNumber)
  {
    forall q | q in GlobalFavorites(lectures, favorites, upTo)
      ensures q.lectureNumber.Some? && 1 <= q.lectureNumber.value <= upTo &&
              q.lectureNumber.value in lectures &&
              KeyOf(Numbered(q.lectureNumber.value), q.questionNumber) in favorites &&
              exists orig :: orig in lectures[q.lectureNumber.value].questions &&
                             q == orig.(lectureNumber := q.lectureNumber)
    {
      var orig := GlobalFavoriteSource(lectures, favorites, upTo, q);
    }
  }

  /** The question of a loaded lecture that a member of the global set is a tagged copy of. */
  lemma {:induction false} GlobalFavoriteSource(lectures: map<nat, Lecture>, favorites: set<string>, upTo: nat, q: Question)
    returns (orig: Question)
    requires q in GlobalFavorites(lectures, favorites, upTo)
    ensures q.lectureNumber.Some? && 1 <= q.lectureNumber.value <= upTo && q.lectureNumber.value in lectures
    ensures KeyOf(Numbered(q.lectureNumber.value), q.questionNumber) in favorites
    ensures orig in lectures[q.lectureNumber.value].questions && q == orig.(lectureNumber := q.lectureNumber)
  {
    var front := GlobalFavorites(lectures, favorites, upTo - 1);
    var last := LectureFavorites(lectures, favorites, upTo);
    GlobalFavoritesUnfold(lectures, favorites, upTo);
    if q in front {
      orig := GlobalFavoriteSource(lectures, favorites, upTo - 1, q);
    } else {
      assert upTo in lectures;
      var picked := Filter(lectures[upTo].questions, FavoredIn(upTo, favorites));
      assert last == Tagged(picked, upTo);
      var i :| 0 <= i < |last| && last[i] == q;
      orig := picked[i];
      assert orig in picked;
    }
  }

  /** Collecting more lectures only appends: the set up to `m` begins the set up to `upTo`. */
  lemma {:induction false} GlobalFavoritesPrefix(lectures: map<nat, Lecture>, favorites: set<string>, m: nat, upTo: nat)
    requires m <= upTo
    ensures var small := GlobalFavorites(lectures, favorites, m);
      var large := GlobalFavorites(lectures, favorites, upTo);
      |small| <= |large| && large[..|small|] == small
    decreases upTo
  {
    var small := GlobalFavorites(lectures, favorites, m);
    if m < upTo {
      var front := GlobalFavorites(lectures, favorites, upTo - 1);
      var last := LectureFavorites(lectures, favorites, upTo);
      assert |small| <= |front| && front[..|small|] == small by {
        GlobalFavoritesPrefix(lectures, favorites, m, upTo - 1);
      }
      assert GlobalFavorites(lectures, favorites, upTo) == front + last by {
        GlobalFavoritesUnfold(lectures, favorites, upTo);
      }
      assert (front + last)[..|small|] == front[..|small|];
    } else {
      assert small[..|small|] == small;
    }
  }


  /** Every favorited question of every loaded lecture from 1 to `upTo` is in the global set, tagged. */
  lemma GlobalFavoritesComplete(lectures: map<nat, Lecture>, favorites: set<string>, upTo: nat, n: nat, q: Question)
    requires 1 <= n <= upTo && n in lectures
    requires q in lectures[n].questions && KeyOf(Numbered(n), q.questionNumber) in favorites
    ensures q.(lectureNumber := Some(n)) in GlobalFavorites(lectures, favorites, upTo)
  {
    var picked := Filter(lectures[n].questions, FavoredIn(n, favorites));
    assert q in picked;
    TaggedMember(picked, n, q);
    var small := GlobalFavorites(lectures, favorites, n);
    assert q.(lectureNumber := Some(n)) in small;
    GlobalFavoritesPrefix(lectures, favorites, n, upTo);
    var large := GlobalFavorites(lectures, favorites, upTo);
    assert small == large[..|small|];
  }

  lemma LectureFavoritesTag(lectures: map<nat, Lecture>, favorites: set<string>, n: nat)
    ensures var last := LectureFavorites(lectures, favorites, n);
      forall k :: 0 <= k < |last| ==> last[k].lectureNumber == Some(n)
    ensures forall q :: q in LectureFavorites(lectures, favorites, n) ==> q.lectureNumber == Some(n)
  {
    if n in lectures {
      var picked := Filter(lectures[n].questions, FavoredIn(n, favorites));
      assert LectureFavorites(lectures, favorites, n) == Tagged(picked, n);
    }
  }

  /** Every question of the global set carries a tag between 1 and `upTo`. */
  lemma GlobalFavoritesTags(lectures: map<nat, Lecture>, favorites: set<string>, upTo: nat)
    ensures forall q :: q in GlobalFavorites(lectures, favorites, upTo) ==>
              q.lectureNumber.Some? && 1 <= q.lectureNumber.value <= upTo
  {
    forall q | q in GlobalFavorites(lectures, favorites, upTo)
      ensures q.lectureNumber.Some? && 1 <= q.lectureNumber.value <= upTo
    {
      var orig := GlobalFavoriteSource(lectures, favorites, upTo, q);
    }
  }


  /** Both questions are tagged and the first one's lecture is not after the second one's. */
  predicate Precedes(a: Question, b: Question)
  {
    a.lectureNumber.Some? && b.lectureNumber.Some? && a.lectureNumber.value <= b.lectureNumber.value
  }

  /** Appending questions of lecture `k` to questions of earlier lectures keeps the order. */
  lemma OrderedAppend(front: seq<Question>, last: seq<Question>, k: nat)
    requires forall i, j :: 0 <= i < j < |front| ==> Precedes(front[i], front[j])
    requires forall q :: q in front ==> q.lectureNumber.Some? && q.lectureNumber.value < k
    requires forall i :: 0 <= i < |last| ==> last[i].lectureNumber == Some(k)
    ensures forall i, j :: 0 <= i < j < |front + last| ==> Precedes((front + last)[i], (front + last)[j])
  {
    var r := front + last;
    forall i, j | 0 <= i < j < |r|
      ensures Precedes(r[i], r[j])
    {
      if j < |front| {
        assert r[i] == front[i] && r[j] == front[j];
      } else if i < |front| {
        assert r[i] == front[i] && front[i] in front;
        assert r[j] == last[j - |front|];
      } else {
        assert r[i] == last[i - |front|] && r[j] == last[j - |front|];
      }
    }
  }

  /** The global set is ordered by lecture: a question never precedes one of an earlier lecture. */
  lemma {:induction false} GlobalFavoritesOrdered(lectures: map<nat, Lecture>, favorites: set<string>, upTo: nat)
    ensures forall i, j :: 0 <= i < j < |GlobalFavorites(lectures, favorites, upTo)| ==>
              Precedes(GlobalFavorites(lectures, favorites, upTo)[i], GlobalFavorites(lectures, favorites, upTo)[j])
  {
    if upTo > 0 {
      var front := GlobalFavorites(lectures, favorites, upTo - 1);
      var last := LectureFavorites(lectures, favorites, upTo);
      assert forall i, j :: 0 <= i < j < |front| ==> Precedes(front[i], front[j]) by {
        GlobalFavoritesOrdered(lectures, favorites, upTo - 1);
      }
      assert forall q :: q in front ==> q.lectureNumber.Some? && q.lectureNumber.value < upTo by {
        GlobalFavoritesTags(lectures, favorites, upTo - 1);
      }
      assert forall i :: 0 <= i < |last| ==> last[i].lectureNumber == Some(upTo) by {
        LectureFavoritesTag(lectures, favorites, upTo);
      }
      OrderedAppend(front, last, upTo);
      GlobalFavoritesUnfold(lectures, favorites, upTo);
    }
  }

  /** The questions tagged with lecture `n`. */
  function TaggedWith(n: nat): Question -> bool
  {
    (q: Question) => q.lectureNumber == Some(n)
  }

  /** Picking lecture `n`'s questions out of lecture `k`'s favorites gives all of them or none. */
  lemma LectureFavoritesPick(lectures: map<nat, Lecture>, favorites: set<string>, k: nat, n: nat)
    ensures Filter(LectureFavorites(lectures, favorites, k), TaggedWith(n)) ==
            if k == n then LectureFavorites(lectures, favorites, k) else []
  {
    var last := LectureFavorites(lectures, favorites, k);
    LectureFavoritesTag(lectures, favorites, k);
    if k == n {
      FilterAll(last, TaggedWith(n));
    } else {
      forall q | q in last ensures !TaggedWith(n)(q) {
        var i :| 0 <= i < |last| && last[i] == q;
      }
      FilterNone(last, TaggedWith(n));
    }
  }

  /**
   * Within the global set, the questions of lecture `n` are exactly its
   * favorited questions, in the lecture's own order.
   */
  lemma {:induction false} GlobalFavoritesOfLecture(lectures: map<nat, Lecture>, favorites: set<string>, upTo: nat, n: nat)
    ensures Filter(GlobalFavorites(lectures, favorites, upTo), TaggedWith(n)) ==
            if 1 <= n <= upTo then LectureFavorites(lectures, favorites, n) else []
  {
    if upTo == 0 {
      assert GlobalFavorites(lectures, favorites, upTo) == [];
    } else if n == upTo {
      GlobalFavoritesOfLastLecture(lectures, favorites, upTo);
    } else if n > upTo {
      GlobalFavoritesBefore(lectures, favorites, upTo, n);
    } else {
      var front := GlobalFavorites(lectures, favorites, upTo - 1);
      var last := LectureFavorites(lectures, favorites, upTo);
      var picked := Filter(front, TaggedWith(n));
      assert picked == if n == 0 then [] else LectureFavorites(lectures, favorites, n) by {
        GlobalFavoritesOfLecture(lectures, favorites, upTo - 1, n);
      }
      GlobalFavoritesUnfold(lectures, favorites, upTo);
      FilterAppend(front, last, TaggedWith(n));
      LectureFavoritesPick(lectures, favorites, upTo, n);
      assert picked + [] == picked;
    }
  }



  /** Questions all tagged with lectures before `n` hold none tagged `n`. */
  lemma NoneTaggedWith(qs: seq<Question>, n: nat)
    requires forall q :: q in qs ==> q.lectureNumber.Some? && q.lectureNumber.value < n
    ensures Filter(qs, TaggedWith(n)) == []
  {
    forall q | q in qs
      ensures !TaggedWith(n)(q)
    {
    }
    FilterNone(qs, TaggedWith(n));
  }

  /** The collection up to lecture `k` holds no question of a later lecture `n`. */
  lemma GlobalFavoritesBefore(lectures: map<nat, Lecture>, favorites: set<string>, k: nat, n: nat)
    requires k < n
    ensures Filter(GlobalFavorites(lectures, favorites, k), TaggedWith(n)) == []
  {
    GlobalFavoritesTags(lectures, favorites, k);
    NoneTaggedWith(GlobalFavorites(lectures, favorites, k), n);
  }

  /** The last lecture collected contributes all of its own tagged questions, and none come before. */
  lemma GlobalFavoritesOfLastLecture(lectures: map<nat, Lecture>, favorites: set<string>, upTo: nat)
    requires upTo > 0
    ensures Filter(GlobalFavorites(lectures, favorites, upTo), TaggedWith(upTo)) ==
            LectureFavorites(lectures, favorites, upTo)
  {
    var front := GlobalFavorites(lectures, favorites, upTo - 1);
    var last := LectureFavorites(lectures, favorites, upTo);
    var fromFront := Filter(front, TaggedWith(upTo));
    var fromLast := Filter(last, TaggedWith(upTo));
    assert fromFront == [] by {
      GlobalFavoritesBefore(lectures, favorites, upTo - 1, upTo);
    }
    assert fromLast == last by {
      LectureFavoritesPick(lectures, favorites, upTo, upTo);
    }
    assert Filter(GlobalFavorites(lectures, favorites, upTo), TaggedWith(upTo)) == fromFront + fromLast by {
      GlobalFavoritesUnfold(lectures, favorites, upTo);
      FilterAppend(front, last, TaggedWith(upTo));
    }
    assert fromFront + fromLast == last;
  }


}
