/**
 * The exact ranking of the cosine path: `scores.argsort()[-k:][::-1]`, the
 * indices of the k highest scores, highest first. Scores are taken as given
 * (the cosine values themselves are library floating point); only their order
 * matters here.
 */
module Ranking {
  import opened SeqFacts

  /** Every listed index points into a corpus of `n` rows. */
  predicate InRange(order: seq<nat>, n: nat) {
    forall j :: 0 <= j < |order| ==> order[j] < n
  }

  /** Scores do not decrease along `order`. */
  predicate SortedBy(scores: seq<real>, order: seq<nat>)
    requires InRange(order, |scores|)
  {
    forall a, b :: 0 <= a < b < |order| ==> scores[order[a]] <= scores[order[b]]
  }

  /**
   * What `argsort` returns: every index of `scores` once, in ascending order of
   * score. Among equal scores any order is allowed.
   */
  predicate IsArgsort(scores: seq<real>, order: seq<nat>) {
    && |order| == |scores|
    && InRange(order, |scores|)
    && Distinct(order)
    && (forall i :: 0 <= i < |scores| ==> i in order)
    && SortedBy(scores, order)
  }

  /** The tail of a sorted index list is sorted, and its head scores no more than any of it. */
  lemma TailSorted(scores: seq<real>, sorted: seq<nat>)
    requires sorted != [] && InRange(sorted, |scores|) && SortedBy(scores, sorted)
    ensures InRange(sorted[1..], |scores|) && SortedBy(scores, sorted[1..])
    ensures forall p :: 0 <= p < |sorted| - 1 ==> scores[sorted[0]] <= scores[sorted[1..][p]]
  {
    var tail := sorted[1..];
    assert forall p :: 0 <= p < |tail| ==> tail[p] == sorted[p + 1];
  }

  /** An index scoring no more than every element of a sorted list can go in front of it. */
  lemma ConsSorted(scores: seq<real>, h: nat, s: seq<nat>)
    requires h < |scores| && InRange(s, |scores|) && SortedBy(scores, s)
    requires forall p :: 0 <= p < |s| ==> scores[h] <= scores[s[p]]
    ensures InRange([h] + s, |scores|) && SortedBy(scores, [h] + s)
  {
    var t := [h] + s;
    assert forall p :: 0 < p < |t| ==> t[p] == s[p - 1];
  }

  /** A lower bound on the scores of `s` and on that of `i` bounds every element of a list holding exactly those. */
  lemma LowerBoundCarries(scores: seq<real>, h: nat, s: seq<nat>, i: nat, rest: seq<nat>)
    requires h < |scores| && i < |scores| && InRange(s, |scores|) && InRange(rest, |scores|)
    requires Elems(rest) == Elems(s) + {i}
    requires forall p :: 0 <= p < |s| ==> scores[h] <= scores[s[p]]
    requires scores[h] <= scores[i]
    ensures forall p :: 0 <= p < |rest| ==> scores[h] <= scores[rest[p]]
  {
    forall p | 0 <= p < |rest| ensures scores[h] <= scores[rest[p]] {
      assert rest[p] in Elems(rest);
      if rest[p] != i {
        var q :| 0 <= q < |s| && s[q] == rest[p];
      }
    }
  }

  /** Inserts index `i` into an index list sorted by score, before the first index scoring at least as much. */
  function InsertByScore(scores: seq<real>, i: nat, sorted: seq<nat>): (r: seq<nat>)
    requires i < |scores| && InRange(sorted, |scores|) && SortedBy(scores, sorted)
    ensures |r| == |sorted| + 1 && InRange(r, |scores|) && SortedBy(scores, r)
    ensures Elems(r) == Elems(sorted) + {i}
    ensures Distinct(sorted) && i !in sorted ==> Distinct(r)
  {
    if sorted == [] then [i]
    else if scores[i] <= scores[sorted[0]] then
      DistinctCons(i, sorted);
      ConsSorted(scores, i, sorted);
      [i] + sorted
    else
      TailSorted(scores, sorted);
      var rest := InsertByScore(scores, i, sorted[1..]);
      InsertBehindHead(scores, i, sorted, rest);
      [sorted[0]] + rest
  }

  /** When `i` scores above the head, inserting it into the tail and putting the head back in front is a correct insertion. */
  lemma InsertBehindHead(scores: seq<real>, i: nat, sorted: seq<nat>, rest: seq<nat>)
    requires i < |scores| && sorted != [] && InRange(sorted, |scores|) && SortedBy(scores, sorted)
    requires scores[sorted[0]] < scores[i]
    requires InRange(rest, |scores|) && SortedBy(scores, rest)
    requires Elems(rest) == Elems(sorted[1..]) + {i}
    requires Distinct(sorted[1..]) && i !in sorted[1..] ==> Distinct(rest)
    ensures InRange([sorted[0]] + rest, |scores|) && SortedBy(scores, [sorted[0]] + rest)
    ensures Elems([sorted[0]] + rest) == Elems(sorted) + {i}
    ensures Distinct(sorted) && i !in sorted ==> Distinct([sorted[0]] + rest)
  {
    var h, tail := sorted[0], sorted[1..];
    TailSorted(scores, sorted);
    LowerBoundCarries(scores, h, tail, i, rest);
    ConsSorted(scores, h, rest);
    assert sorted == [h] + tail;
    DistinctCons(h, tail);
    DistinctCons(h, rest);
  }

  /** Insertion sort of the indices `0 .. m-1` by score. */
  function SortIndices(scores: seq<real>, m: nat): (r: seq<nat>)
    requires m <= |scores|
    ensures |r| == m && InRange(r, |scores|) && Distinct(r) && SortedBy(scores, r)
    ensures forall x: nat :: x in r <==> x < m
  {
    if m == 0 then []
    else
      var prev := SortIndices(scores, m - 1);
      var r := InsertByScore(scores, m - 1, prev);
      assert forall x: nat :: x in r <==> x in Elems(r);
      r
  }

  /** One valid argsort of `scores` (earlier index first among ties); it shows that `ArgsortFn` is inhabited. */
  function Argsort(scores: seq<real>): (order: seq<nat>)
    ensures IsArgsort(scores, order)
  {
    SortIndices(scores, |scores|)
  }

  /**
   * Any argsort numpy might compute: a function giving a valid argsort of
   * every score vector, with no rule for the order among equal scores.
   */
  type ArgsortFn = f: seq<real> -> seq<nat> | forall s :: IsArgsort(s, f(s)) witness Argsort

  /** Python's `s[start:]` for any integer `start`: a negative start counts from the end, and both ends clamp. */
  function SliceFrom<T>(s: seq<T>, start: int): (r: seq<T>)
    ensures |r| <= |s| && r == s[|s| - |r|..]
    ensures start < 0 ==> |r| == if -start < |s| then -start else |s|
    ensures start >= 0 ==> |r| == if start < |s| then |s| - start else 0
  {
    var b := if start < 0 then (if |s| + start < 0 then 0 else |s| + start)
             else (if start > |s| then |s| else start);
    s[b..]
  }

  /** Python's `s[::-1]`. */
  function Reverse<T>(s: seq<T>): (r: seq<T>)
    ensures |r| == |s| && forall i :: 0 <= i < |s| ==> r[i] == s[|s| - 1 - i]
  {
    if s == [] then [] else Reverse(s[1..]) + [s[0]]
  }

  /**
   * `order[-k:][::-1]`: the last min(k, n) entries of `order` for k > 0, the
   * last one first.
   */
  function TopK(order: seq<nat>, k: int): (r: seq<nat>)
    ensures k > 0 ==> |r| == if k < |order| then k else |order|
    ensures |r| <= |order|
    ensures forall t :: 0 <= t < |r| ==> r[t] == order[|order| - 1 - t]
  {
    Reverse(SliceFrom(order, -k))
  }

  /** Any ordering of the three indices of three equal scores is a valid argsort. */
  lemma ThreeTies(a: nat, b: nat, c: nat)
    requires a < 3 && b < 3 && c < 3 && a != b && b != c && a != c
    ensures IsArgsort([1.0, 1.0, 1.0], [a, b, c])
  {
    var order := [a, b, c];
    forall i | 0 <= i < 3 ensures i in order {
      if i != a && i != b {
        assert i == c;
      }
    }
  }

  /**
   * Tie order is left open: for three equal scores both the identity and its
   * reverse are valid argsorts, and they select different rows as the top 1.
   */
  lemma TiesAreOpen()
    ensures IsArgsort([1.0, 1.0, 1.0], [0, 1, 2]) && IsArgsort([1.0, 1.0, 1.0], [2, 1, 0])
    ensures TopK([0, 1, 2], 1) == [2] && TopK([2, 1, 0], 1) == [0]
  {
    ThreeTies(0, 1, 2);
    ThreeTies(2, 1, 0);
    TopOfThree(0, 1, 2);
    TopOfThree(2, 1, 0);
  }

  /** The top 1 of a three-entry argsort is its last entry. */
  lemma TopOfThree(a: nat, b: nat, c: nat)
    ensures TopK([a, b, c], 1) == [c]
  {
    var r := TopK([a, b, c], 1);
    assert |r| == 1 && r[0] == c;
  }

  /** For k > 0 the selection has min(k, n) entries: the slice takes the whole array when k > n. */
  lemma TopKLength(order: seq<nat>, k: int)
    requires k > 0
    ensures |TopK(order, k)| == if k < |order| then k else |order|
  {
  }

  /** At k = 0 the same expression would select every row, since `[-0:]` is the whole array. */
  lemma TopKZeroTakesAll(order: seq<nat>)
    ensures TopK(order, 0) == Reverse(order)
    ensures |TopK(order, 0)| == |order|
  {
    assert SliceFrom(order, 0) == order;
  }

  /** Position `t` of the selection is position `|order| - 1 - t` of the argsort. */
  lemma TopKAt(order: seq<nat>, k: int, t: int)
    requires k > 0 && 0 <= t < |TopK(order, k)|
    ensures |order| - 1 - t >= 0
    ensures TopK(order, k)[t] == order[|order| - 1 - t]
  {
    var sl := SliceFrom(order, -k);
    assert sl == order[|order| - |sl|..];
    assert TopK(order, k)[t] == sl[|sl| - 1 - t];
  }

  /** The selected indices are distinct rows of the corpus. */
  lemma TopKIndices(scores: seq<real>, order: seq<nat>, k: int)
    requires IsArgsort(scores, order) && k > 0
    ensures InRange(TopK(order, k), |scores|)
    ensures Distinct(TopK(order, k))
  {
    var r := TopK(order, k);
    forall t | 0 <= t < |r| ensures r[t] < |scores| {
      TopKAt(order, k, t);
    }
    forall a, b | 0 <= a < b < |r| ensures r[a] != r[b] {
      TopKAt(order, k, a);
      TopKAt(order, k, b);
    }
  }

  /** The selection lists scores from the highest down. */
  lemma TopKOrdered(scores: seq<real>, order: seq<nat>, k: int)
    requires IsArgsort(scores, order) && k > 0
    ensures InRange(TopK(order, k), |scores|)
    ensures forall a, b :: 0 <= a < b < |TopK(order, k)| ==>
      scores[TopK(order, k)[a]] >= scores[TopK(order, k)[b]]
  {
    TopKIndices(scores, order, k);
    var r := TopK(order, k);
    forall a, b | 0 <= a < b < |r| ensures scores[r[a]] >= scores[r[b]] {
      TopKAt(order, k, a);
      TopKAt(order, k, b);
    }
  }

  /** The row at argsort position `p`, if not selected, scores no higher than the selected row at `t`. */
  lemma LeftOutBelow(scores: seq<real>, order: seq<nat>, k: int, p: int, t: int)
    requires IsArgsort(scores, order) && k > 0
    requires 0 <= p < |order| && order[p] !in TopK(order, k)
    requires 0 <= t < |TopK(order, k)|
    ensures TopK(order, k)[t] < |scores|
    ensures scores[order[p]] <= scores[TopK(order, k)[t]]
  {
    var n, m := |order|, |TopK(order, k)|;
    TopKAt(order, k, t);
    if p >= n - m {
      TopKAt(order, k, n - 1 - p);
      assert false;
    }
    assert p < n - 1 - t;
  }

  /** Every row left out scores no higher than any row selected. */
  lemma TopKDominates(scores: seq<real>, order: seq<nat>, k: int)
    requires IsArgsort(scores, order) && k > 0
    ensures InRange(TopK(order, k), |scores|)
    ensures forall j, t :: 0 <= j < |scores| && j !in TopK(order, k) && 0 <= t < |TopK(order, k)| ==>
      scores[j] <= scores[TopK(order, k)[t]]
  {
    TopKIndices(scores, order, k);
    var r := TopK(order, k);
    forall j, t | 0 <= j < |scores| && j !in r && 0 <= t < |r| ensures scores[j] <= scores[r[t]] {
      assert j in order;
      var p :| 0 <= p < |order| && order[p] == j;
      LeftOutBelow(scores, order, k, p, t);
    }
  }
}
