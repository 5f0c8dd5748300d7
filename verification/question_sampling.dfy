/**
 * The `--sample_questions` cap (lines 57-59). As written, the shuffle is
 * applied to a freshly sorted copy that is then dropped, so the sample is
 * simply a prefix of the questions in their corpus order. The intended
 * sample (sort by id, shuffle with the fixed seed, then cut) is modelled
 * beside it.
 */
module QuestionSampling {
  import opened Wrappers
  import opened EvalData
  import opened StringOrder

  predicate SortedById<P>(qs: seq<Question<P>>)
  {
    forall i, j :: 0 <= i < j < |qs| ==> LessEq(qs[i].questionId, qs[j].questionId)
  }

  predicate StrictlySortedById<P>(qs: seq<Question<P>>)
  {
    forall i, j :: 0 <= i < j < |qs| ==> Less(qs[i].questionId, qs[j].questionId)
  }

  predicate DistinctIds<P>(qs: seq<Question<P>>)
  {
    forall i, j :: 0 <= i < j < |qs| ==> qs[i].questionId != qs[j].questionId
  }

  /** Inserts `x` after every question whose id is not greater (a stable insertion). */
  function InsertById<P(==)>(s: seq<Question<P>>, x: Question<P>): (r: seq<Question<P>>)
    ensures |r| == |s| + 1
    ensures multiset(r) == multiset(s) + multiset{x}
  {
    if s == [] then [x]
    else if Less(x.questionId, s[0].questionId) then [x] + s
    else
      assert s == [s[0]] + s[1..];
      [s[0]] + InsertById(s[1..], x)
  }

  /** Inserting into a list sorted by id keeps it sorted by id. */
  lemma {:induction false} InsertByIdSorted<P>(s: seq<Question<P>>, x: Question<P>)
    requires SortedById(s)
    ensures SortedById(InsertById(s, x))
    decreases |s|
  {
    if s == [] {
    } else if Less(x.questionId, s[0].questionId) {
      forall j | 0 < j < |s| ensures LessEq(x.questionId, s[j].questionId) {
        LessEqTransitive(x.questionId, s[0].questionId, s[j].questionId);
      }
    } else {
      Trichotomy(x.questionId, s[0].questionId);
      var tail := InsertById(s[1..], x);
      InsertByIdSorted(s[1..], x);
      forall y | y in tail ensures LessEq(s[0].questionId, y.questionId) {
        assert y in multiset(tail);
        if y != x {
          var j :| 0 <= j < |s[1..]| && s[1..][j] == y;
          assert s[j + 1] == y;
        }
      }
      var r := [s[0]] + tail;
      forall i, j | 0 <= i < j < |r| ensures LessEq(r[i].questionId, r[j].questionId) {
        if i == 0 {
          assert r[j] in tail;
        } else {
          assert r[i] == tail[i - 1] && r[j] == tail[j - 1];
        }
      }
    }
  }

  /** Inserting a question whose id is new keeps the ids strictly ascending. */
  lemma {:induction false} InsertByIdStrict<P>(s: seq<Question<P>>, x: Question<P>)
    requires StrictlySortedById(s)
    requires forall y :: y in s ==> y.questionId != x.questionId
    ensures StrictlySortedById(InsertById(s, x))
    decreases |s|
  {
    if s != [] && !Less(x.questionId, s[0].questionId) {
      Trichotomy(x.questionId, s[0].questionId);
      var tail := InsertById(s[1..], x);
      InsertByIdStrict(s[1..], x);
      forall y | y in tail ensures Less(s[0].questionId, y.questionId) {
        assert y in multiset(tail);
        if y != x {
          var j :| 0 <= j < |s[1..]| && s[1..][j] == y;
          assert s[j + 1] == y;
        }
      }
    } else if s != [] {
      forall j | 0 < j < |s| ensures Less(x.questionId, s[j].questionId) {
        Transitive(x.questionId, s[0].questionId, s[j].questionId);
      }
    }
  }

  /** `sorted(qs, key=lambda x: x.question_id)`: an insertion sort by question id. */
  function SortById<P(==)>(qs: seq<Question<P>>): (r: seq<Question<P>>)
    ensures |r| == |qs| && multiset(r) == multiset(qs)
  {
    if qs == [] then []
    else
      var front, last := qs[..|qs| - 1], qs[|qs| - 1];
      assert qs == front + [last];
      assert multiset(qs) == multiset(front) + multiset{last};
      InsertById(SortById(front), last)
  }

  /** The sort's result is ordered by id; strictly so when the ids are distinct. */
  lemma {:induction false} SortByIdSorted<P>(qs: seq<Question<P>>)
    ensures SortedById(SortById(qs))
    ensures DistinctIds(qs) ==> StrictlySortedById(SortById(qs))
    decreases |qs|
  {
    if qs != [] {
      var front, last := qs[..|qs| - 1], qs[|qs| - 1];
      var sortedFront := SortById(front);
      SortByIdSorted(front);
      InsertByIdSorted(sortedFront, last);
      if DistinctIds(qs) {
        assert DistinctIds(front);
        forall y | y in sortedFront ensures y.questionId != last.questionId {
          assert y in multiset(front);
          var j :| 0 <= j < |front| && front[j] == y;
        }
        InsertByIdStrict(sortedFront, last);
      }
    }
  }

  /** Of two sorted lists holding the same questions, with distinct ids, the heads agree. */
  lemma SortedHeadsEqual<P>(a: seq<Question<P>>, b: seq<Question<P>>)
    requires StrictlySortedById(a) && SortedById(b)
    requires multiset(a) == multiset(b) && |a| > 0
    ensures |b| > 0 && a[0] == b[0]
  {
    assert a[0] in multiset(b);
    assert |b| > 0;
    assert b[0] in multiset(a);
    var k :| 0 <= k < |a| && a[k] == b[0];
    var m :| 0 <= m < |b| && b[m] == a[0];
    assert LessEq(a[0].questionId, a[k].questionId);
    assert LessEq(b[0].questionId, b[m].questionId);
    LessEqAntisymmetric(a[0].questionId, b[0].questionId);
    if k != 0 {
      Irreflexive(a[0].questionId);
      assert false;
    }
  }

  /**
   * A sorted sequence is determined by its elements when its ids are
   * distinct: any reordering of the same questions sorts to the same list.
   */
  lemma {:induction false} SortedUnique<P>(a: seq<Question<P>>, b: seq<Question<P>>)
    requires StrictlySortedById(a) && SortedById(b)
    requires multiset(a) == multiset(b)
    ensures a == b
    decreases |a|
  {
    assert |a| == |multiset(a)| == |multiset(b)| == |b|;
    if |a| > 0 {
      SortedHeadsEqual(a, b);
      assert a == [a[0]] + a[1..] && b == [b[0]] + b[1..];
      assert multiset(a[1..]) == multiset(a) - multiset{a[0]};
      assert multiset(b[1..]) == multiset(b) - multiset{b[0]};
      SortedUnique(a[1..], b[1..]);
    }
  }

  /** Sorting by id forgets the input order when the ids are distinct. */
  lemma SortIgnoresInputOrder<P>(qs1: seq<Question<P>>, qs2: seq<Question<P>>)
    requires DistinctIds(qs1) && multiset(qs1) == multiset(qs2)
    ensures SortById(qs1) == SortById(qs2)
  {
    SortByIdSorted(qs1);
    SortByIdSorted(qs2);
    SortedUnique(SortById(qs1), SortById(qs2));
  }

  /** `p` lists each of 0 .. k-1 exactly once. */
  predicate IsPermutation(p: seq<nat>, k: nat)
  {
    && |p| == k
    && (forall i :: 0 <= i < k ==> p[i] < k)
    && (forall i, j :: 0 <= i < j < k ==> p[i] != p[j])
  }

  /** The list after an in-place shuffle that moves the element at p[i] to position i. */
  function Permute<T>(s: seq<T>, p: seq<nat>): (r: seq<T>)
    requires IsPermutation(p, |s|)
    ensures |r| == |s| && forall i :: 0 <= i < |r| ==> r[i] == s[p[i]]
  {
    seq(|s|, i requires 0 <= i < |s| => s[p[i]])
  }

  function Min(a: int, b: int): int { if a <= b then a else b }

  function Max(a: int, b: int): int { if a <= b then b else a }

  /** Python's `s[:k]`: a negative `k` counts from the end. */
  function SlicePrefix<T>(s: seq<T>, k: int): (r: seq<T>)
    ensures |r| == (if k >= 0 then Min(k, |s|) else Max(0, |s| + k))
    ensures |r| <= |s| && r == s[..|r|]
  {
    if k >= 0 then (if k <= |s| then s[..k] else s)
    else if |s| + k > 0 then s[..|s| + k]
    else []
  }

  /**
   * Lines 57-59 as written. `shuffle(L)` is the permutation the seeded
   * generator applies to a list of length L; its result is dropped, so the
   * sample is the first `n` questions in their original order (and, as
   * with any Python slice, all but the last `-n` when `n` is negative).
   */
  function SampleQuestions<P(==)>(qs: seq<Question<P>>, n: Option<int>, shuffle: nat -> seq<nat>): (r: seq<Question<P>>)
    requires IsPermutation(shuffle(|qs|), |qs|)
    ensures |r| <= |qs| && r == qs[..|r|]
    ensures n.None? || n.value == 0 ==> r == qs
    ensures n.Some? && n.value > 0 ==> |r| == Min(n.value, |qs|)
    ensures n.Some? && n.value < 0 ==> |r| == Max(0, |qs| + n.value)
  {
    if n.None? || n.value == 0 then qs
    else
      var discarded := Permute(SortById(qs), shuffle(|qs|));
      SlicePrefix(qs, n.value)
  }

  /** The generator's permutation has no effect on the sample. */
  lemma SampleIgnoresShuffle<P>(qs: seq<Question<P>>, n: Option<int>, s1: nat -> seq<nat>, s2: nat -> seq<nat>)
    requires IsPermutation(s1(|qs|), |qs|) && IsPermutation(s2(|qs|), |qs|)
    ensures SampleQuestions(qs, n, s1) == SampleQuestions(qs, n, s2)
  {
  }

  /**
   * The as-written sample depends on the corpus order: the same two
   * questions in the two possible orders give different one-question samples.
   */
  lemma SampleDependsOnInputOrder(shuffle: nat -> seq<nat>)
    requires IsPermutation(shuffle(2), 2)
    ensures var a, b := Question("a", 0), Question("b", 0);
            DistinctIds([a, b]) && multiset([a, b]) == multiset([b, a])
            && SampleQuestions([a, b], Some(1), shuffle) != SampleQuestions([b, a], Some(1), shuffle)
  {
  }

  /**
   * The evidently intended sampling: sort by id, shuffle that list with the
   * seeded generator, then cut it.
   */
  function SampleQuestionsShuffled<P(==)>(qs: seq<Question<P>>, n: Option<int>, shuffle: nat -> seq<nat>): (r: seq<Question<P>>)
    requires IsPermutation(shuffle(|qs|), |qs|)
    ensures n.None? || n.value == 0 ==> r == qs
    ensures n.Some? && n.value > 0 ==> |r| == Min(n.value, |qs|)
    ensures n.Some? && n.value < 0 ==> |r| == Max(0, |qs| + n.value)
    ensures forall x :: x in r ==> x in qs
    ensures DistinctIds(qs) ==> DistinctIds(r)
  {
    if n.None? || n.value == 0 then qs
    else
      var sorted := SortById(qs);
      var shuffled := Permute(sorted, shuffle(|qs|));
      assert forall x :: x in shuffled ==> x in qs by {
        forall x | x in shuffled ensures x in qs {
          assert x in multiset(sorted);
        }
      }
      assert DistinctIds(qs) ==> DistinctIds(shuffled) by {
        if DistinctIds(qs) {
          SortByIdSorted(qs);
          PermuteKeepsDistinctIds(sorted, shuffle(|qs|));
        }
      }
      SlicePrefix(shuffled, n.value)
  }

  /** Shuffling a list whose ids are strictly ascending never repeats an id. */
  lemma PermuteKeepsDistinctIds<P>(s: seq<Question<P>>, p: seq<nat>)
    requires StrictlySortedById(s) && IsPermutation(p, |s|)
    ensures DistinctIds(Permute(s, p))
  {
    var r := Permute(s, p);
    forall i, j | 0 <= i < j < |r| ensures r[i].questionId != r[j].questionId {
      var a, b := p[i], p[j];
      if a < b {
        assert Less(s[a].questionId, s[b].questionId);
        Irreflexive(s[a].questionId);
      } else {
        assert Less(s[b].questionId, s[a].questionId);
        Irreflexive(s[b].questionId);
      }
    }
  }

  /**
   * The intended sample does not depend on the order in which the corpus
   * lists its questions, as long as their ids are distinct and the cap is
   * not zero (without a cap, the list passes through in its own order).
   */
  lemma ShuffledSampleIgnoresInputOrder<P>(qs1: seq<Question<P>>, qs2: seq<Question<P>>, n: Option<int>,
                                              shuffle: nat -> seq<nat>)
    requires DistinctIds(qs1) && multiset(qs1) == multiset(qs2)
    requires IsPermutation(shuffle(|qs1|), |qs1|)
    requires n.Some? && n.value != 0
    ensures |qs1| == |qs2|
    ensures SampleQuestionsShuffled(qs1, n, shuffle) == SampleQuestionsShuffled(qs2, n, shuffle)
  {
    assert |qs1| == |multiset(qs1)| == |multiset(qs2)| == |qs2|;
    SortIgnoresInputOrder(qs1, qs2);
  }

}
