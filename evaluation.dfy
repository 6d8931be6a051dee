/**
 * The offline metrics of the evaluation script, as exact rationals: precision,
 * recall and reciprocal rank over title lists, diversity and serendipity over
 * sets of titles, and the hit flag of one evaluated row.
 */
module Evaluation {
  import opened Outcomes
  import opened SeqFacts
  import opened BookModel

  /** The titles of a list of recommendations, in order. */
  function Titles(recs: seq<RecommendedBook>): (ts: seq<string>)
    ensures |ts| == |recs| && forall i :: 0 <= i < |recs| ==> ts[i] == recs[i].title
  {
    seq(|recs|, i requires 0 <= i < |recs| => recs[i].title)
  }

  /** A ratio of a part to a positive whole lies in [0, 1] and is 1 exactly for the whole. */
  lemma RatioBounds(n: real, m: real)
    requires 0.0 <= n <= m && 0.0 < m
    ensures 0.0 <= n / m <= 1.0
    ensures n / m == 1.0 <==> n == m
  {
    DivCancel(n, m);
  }

  /** Dividing by a non-zero number and multiplying back gives the number again. */
  lemma DivCancel(n: real, m: real)
    requires m != 0.0
    ensures n / m * m == n
  {
  }

  /** A subset is no larger than its superset. */
  lemma SubsetCard<T>(a: set<T>, b: set<T>)
    requires a <= b
    ensures |a| <= |b|
  {
    assert b == a + (b - a);
    assert a * (b - a) == {};
  }

  /** A ratio multiplied back by its non-zero divisor gives the dividend. */
  lemma RatioTimes(n: nat, d: nat)
    requires d > 0
    ensures Ratio(n, d) * d as real == n as real
  {
    DivCancel(n as real, d as real);
  }

  /** A ratio of non-negative numbers is non-negative. */
  lemma RatioNonNegative(n: real, m: real)
    requires 0.0 <= n && 0.0 < m
    ensures 0.0 <= n / m
  {
  }

  // ---------------------------------------------------------------------------
  // Precision, recall and MRR
  // ---------------------------------------------------------------------------

  /** The true positives: positions of `pred` whose title is among the true titles (repeats count again). */
  function CountHits(pred: seq<string>, truth: seq<string>): (n: nat)
    ensures n <= |pred|
  {
    if pred == [] then 0
    else CountHits(pred[..|pred| - 1], truth) + if pred[|pred| - 1] in truth then 1 else 0
  }

  /** `n / d if d else 0`. */
  function Ratio(n: nat, d: nat): real {
    if d == 0 then 0.0 else n as real / d as real
  }

  function Precision(pred: seq<string>, truth: seq<string>): real {
    Ratio(CountHits(pred, truth), |pred|)
  }

  function Recall(pred: seq<string>, truth: seq<string>): real {
    Ratio(CountHits(pred, truth), |truth|)
  }

  /** `calculate_precision`: counts the hits in one pass. */
  method CalculatePrecision(pred: seq<string>, truth: seq<string>) returns (p: real)
    ensures p == Precision(pred, truth)
  {
    var tp := 0;
    for i := 0 to |pred|
      invariant tp == CountHits(pred[..i], truth)
    {
      assert pred[..i + 1][..i] == pred[..i];
      if pred[i] in truth {
        tp := tp + 1;
      }
    }
    assert pred[..|pred|] == pred;
    p := if |pred| > 0 then tp as real / |pred| as real else 0.0;
  }

  /** `calculate_recall`: the same count, divided by the number of true titles. */
  method CalculateRecall(pred: seq<string>, truth: seq<string>) returns (r: real)
    ensures r == Recall(pred, truth)
  {
    var tp := 0;
    for i := 0 to |pred|
      invariant tp == CountHits(pred[..i], truth)
    {
      assert pred[..i + 1][..i] == pred[..i];
      if pred[i] in truth {
        tp := tp + 1;
      }
    }
    assert pred[..|pred|] == pred;
    r := if |truth| > 0 then tp as real / |truth| as real else 0.0;
  }

  /** Every prediction is a hit exactly when the count is the full length; none is exactly when it is 0. */
  lemma {:induction false} CountHitsExtremes(pred: seq<string>, truth: seq<string>)
    ensures CountHits(pred, truth) == |pred| <==> forall i :: 0 <= i < |pred| ==> pred[i] in truth
    ensures CountHits(pred, truth) == 0 <==> forall i :: 0 <= i < |pred| ==> pred[i] !in truth
  {
    if pred != [] {
      var p := pred[..|pred| - 1];
      CountHitsExtremes(p, truth);
      assert forall i :: 0 <= i < |p| ==> p[i] == pred[i];
    }
  }

  /** Without repeated predictions the count is the number of common titles. */
  lemma {:induction false} CountHitsDistinct(pred: seq<string>, truth: seq<string>)
    requires Distinct(pred)
    ensures CountHits(pred, truth) == |Elems(pred) * Elems(truth)|
  {
    if pred == [] {
      assert Elems(pred) == {};
    } else {
      var p, x := pred[..|pred| - 1], pred[|pred| - 1];
      DistinctSnoc(pred);
      CountHitsDistinct(p, truth);
      var before := Elems(p) * Elems(truth);
      if x in truth {
        assert Elems(pred) * Elems(truth) == before + {x};
        assert x !in before;
      } else {
        assert Elems(pred) * Elems(truth) == before;
      }
    }
  }

  /** Precision lies in [0, 1], is 1 exactly when every prediction is a hit and 0 when none is. */
  lemma PrecisionBounds(pred: seq<string>, truth: seq<string>)
    ensures 0.0 <= Precision(pred, truth) <= 1.0
    ensures pred != [] ==> (Precision(pred, truth) == 1.0 <==> forall i :: 0 <= i < |pred| ==> pred[i] in truth)
    ensures Precision(pred, truth) == 0.0 <==> forall i :: 0 <= i < |pred| ==> pred[i] !in truth
  {
    CountHitsExtremes(pred, truth);
    if pred != [] {
      RatioBounds(CountHits(pred, truth) as real, |pred| as real);
    }
  }

  /** Recall is never negative and is 0 for an empty true list; with distinct predictions it is at most 1. */
  lemma RecallBounds(pred: seq<string>, truth: seq<string>)
    ensures 0.0 <= Recall(pred, truth)
    ensures truth == [] ==> Recall(pred, truth) == 0.0
    ensures Distinct(pred) ==> Recall(pred, truth) <= 1.0
  {
    if truth != [] {
      var n, m := CountHits(pred, truth), |truth|;
      RatioNonNegative(n as real, m as real);
      if Distinct(pred) {
        CountHitsDistinct(pred, truth);
        ElemsCard(truth);
        var common := Elems(pred) * Elems(truth);
        SubsetCard(common, Elems(truth));
        assert n <= m;
        RatioBounds(n as real, m as real);
      }
    }
  }

  /** Repeated predictions are counted again, so recall can exceed 1. */
  lemma RecallAboveOne()
    ensures Recall(["a", "a"], ["a"]) == 2.0
  {
    assert ["a", "a"][..1] == ["a"];
    assert ["a"][..0] == [];
  }

  /** Precision times the number of predictions is the hit count. */
  lemma PrecisionCountsHits(pred: seq<string>, truth: seq<string>)
    requires pred != []
    ensures Precision(pred, truth) * |pred| as real == CountHits(pred, truth) as real
  {
    var n, d := CountHits(pred, truth), |pred|;
    assert Precision(pred, truth) == Ratio(n, d);
    RatioTimes(n, d);
  }

  /** Recall times the number of true titles is the same hit count. */
  lemma RecallCountsHits(pred: seq<string>, truth: seq<string>)
    requires truth != []
    ensures Recall(pred, truth) * |truth| as real == CountHits(pred, truth) as real
  {
    var n, d := CountHits(pred, truth), |truth|;
    assert Recall(pred, truth) == Ratio(n, d);
    RatioTimes(n, d);
  }

  /** Precision and recall share the hit count: precision * |pred| == recall * |true|. */
  lemma PrecisionRecallLink(pred: seq<string>, truth: seq<string>)
    requires pred != [] && truth != []
    ensures Precision(pred, truth) * |pred| as real == Recall(pred, truth) * |truth| as real
  {
    PrecisionCountsHits(pred, truth);
    RecallCountsHits(pred, truth);
  }

  /** The first position whose prediction is a hit. */
  function FirstHit(pred: seq<string>, truth: seq<string>): (r: Option<nat>)
    ensures r.Some? ==> r.value < |pred| && pred[r.value] in truth
    ensures r.Some? ==> forall j :: 0 <= j < r.value ==> pred[j] !in truth
    ensures r.None? ==> forall j :: 0 <= j < |pred| ==> pred[j] !in truth
  {
    if pred == [] then None
    else if pred[0] in truth then Some(0)
    else match FirstHit(pred[1..], truth)
      case None => None
      case Some(i) => Some(i + 1)
  }

  /** The reciprocal rank: 1 / (position + 1) of the first hit, 0 without one. */
  function Mrr(pred: seq<string>, truth: seq<string>): real {
    match FirstHit(pred, truth)
    case None => 0.0
    case Some(i) => 1.0 / (i + 1) as real
  }

  /** `calculate_mrr`: scans for the first hit and returns at once. */
  method CalculateMrr(pred: seq<string>, truth: seq<string>) returns (m: real)
    ensures m == Mrr(pred, truth)
  {
    for i := 0 to |pred|
      invariant forall j :: 0 <= j < i ==> pred[j] !in truth
    {
      if pred[i] in truth {
        var f := FirstHit(pred, truth);
        assert f == Some(i);
        return 1.0 / (i + 1) as real;
      }
    }
    return 0.0;
  }

  /** MRR lies in [0, 1], is positive exactly when some prediction is a hit, and is 1 exactly when the first one is. */
  lemma MrrBounds(pred: seq<string>, truth: seq<string>)
    ensures 0.0 <= Mrr(pred, truth) <= 1.0
    ensures Mrr(pred, truth) > 0.0 <==> exists i :: 0 <= i < |pred| && pred[i] in truth
    ensures Mrr(pred, truth) == 1.0 <==> pred != [] && pred[0] in truth
  {
    var f := FirstHit(pred, truth);
    if f.Some? {
      var d := (f.value + 1) as real;
      assert 1.0 / d <= 1.0 by { assert d >= 1.0; }
      assert 1.0 / d == 1.0 <==> d == 1.0;
      assert 0 < |pred| && pred[0] !in truth ==> f.value != 0;
    }
  }

  // ---------------------------------------------------------------------------
  // Diversity and serendipity
  // ---------------------------------------------------------------------------

  /** The only way a metric fails: dividing by an empty list. */
  datatype MetricError = ZeroDivisionError

  /** `calculate_diversity`: distinct titles over the number of recommendations. */
  function Diversity(recs: seq<RecommendedBook>): Result<real, MetricError> {
    if recs == [] then Err(ZeroDivisionError)
    else Ok(|Elems(Titles(recs))| as real / |recs| as real)
  }

  /** Diversity fails exactly on an empty list; otherwise it lies in (0, 1] and is 1 exactly when no title repeats. */
  lemma DiversityBounds(recs: seq<RecommendedBook>)
    ensures Diversity(recs).Err? <==> recs == []
    ensures recs != [] ==> 0.0 < Diversity(recs).value <= 1.0
    ensures recs != [] ==> (Diversity(recs).value == 1.0 <==> Distinct(Titles(recs)))
  {
    if recs != [] {
      var ts := Titles(recs);
      ElemsCard(ts);
      assert ts[0] in Elems(ts);
      var n, m := |Elems(ts)| as real, |recs| as real;
      RatioBounds(n, m);
      assert 0.0 < n / m by { assert 0.0 < n; }
    }
  }

  /** `calculate_serendipity`: the share of distinct recommended titles that are not in the history. */
  function Serendipity(recs: seq<RecommendedBook>, history: seq<string>): real {
    var rs := Elems(Titles(recs));
    if rs == {} then 0.0 else |rs - Elems(history)| as real / |rs| as real
  }

  /** Serendipity lies in [0, 1], is 0 for no recommendations, and is 1 exactly when no recommended title is in the history. */
  lemma SerendipityBounds(recs: seq<RecommendedBook>, history: seq<string>)
    ensures 0.0 <= Serendipity(recs, history) <= 1.0
    ensures recs == [] ==> Serendipity(recs, history) == 0.0
    ensures Serendipity(recs, history) == 1.0 <==> recs != [] && Elems(Titles(recs)) * Elems(history) == {}
  {
    var rs := Elems(Titles(recs));
    if recs != [] {
      assert Titles(recs)[0] in rs;
      var novel := rs - Elems(history);
      assert novel <= rs;
      RatioBounds(|novel| as real, |rs| as real);
      if rs * Elems(history) != {} {
        var x :| x in rs * Elems(history);
        assert novel <= rs - {x};
        assert |novel| < |rs|;
      } else {
        forall x | x in rs ensures x in novel {
          assert x !in rs * Elems(history);
        }
        assert novel == rs;
      }
    } else {
      assert rs == {};
    }
  }

  // ---------------------------------------------------------------------------
  // One row of the first evaluation
  // ---------------------------------------------------------------------------

  /** `actual_title in titles`. */
  function Hit(actual: string, recs: seq<RecommendedBook>): (h: bool)
    ensures h <==> exists i :: 0 <= i < |recs| && recs[i].title == actual
  {
    actual in Titles(recs)
  }

  /** The record appended for one test row. */
  datatype RowResult = RowResult(
    actualTitle: string,
    faissHit: bool,
    cosineHit: bool,
    faissDiversity: real,
    cosineDiversity: real,
    faissSerendipity: real,
    cosineSerendipity: real)

  /** One row of `evaluate_recommendations_first`, given both methods' recommendations; an empty list makes diversity fail. */
  function EvaluateRow(actual: string, faissRecs: seq<RecommendedBook>, cosineRecs: seq<RecommendedBook>)
    : Result<RowResult, MetricError>
  {
    match (Diversity(faissRecs), Diversity(cosineRecs))
    case (Ok(fd), Ok(cd)) =>
      Ok(RowResult(actual, Hit(actual, faissRecs), Hit(actual, cosineRecs), fd, cd,
                   Serendipity(faissRecs, [actual]), Serendipity(cosineRecs, [actual])))
    case _ => Err(ZeroDivisionError)
  }

  /** Against a history of the row's own title, serendipity is 1 exactly when the row is not a hit. */
  lemma SerendipityOfMiss(actual: string, recs: seq<RecommendedBook>)
    requires recs != []
    ensures Serendipity(recs, [actual]) == 1.0 <==> !Hit(actual, recs)
  {
    SerendipityBounds(recs, [actual]);
    assert Elems([actual]) == {actual};
  }

  /**
   * A row is produced exactly when both lists are non-empty; its hit flags
   * say whether the actual title was recommended, and each serendipity is 1
   * exactly when its method missed.
   */
  lemma EvaluateRowFacts(actual: string, faissRecs: seq<RecommendedBook>, cosineRecs: seq<RecommendedBook>)
    ensures EvaluateRow(actual, faissRecs, cosineRecs).Ok? <==> faissRecs != [] && cosineRecs != []
    ensures EvaluateRow(actual, faissRecs, cosineRecs).Ok? ==>
      var row := EvaluateRow(actual, faissRecs, cosineRecs).value;
      && row.actualTitle == actual
      && (row.faissHit <==> exists i :: 0 <= i < |faissRecs| && faissRecs[i].title == actual)
      && (row.cosineHit <==> exists i :: 0 <= i < |cosineRecs| && cosineRecs[i].title == actual)
      && (row.faissSerendipity == 1.0 <==> !row.faissHit)
      && (row.cosineSerendipity == 1.0 <==> !row.cosineHit)
      && 0.0 < row.faissDiversity <= 1.0 && 0.0 < row.cosineDiversity <= 1.0
  {
    DiversityBounds(faissRecs);
    DiversityBounds(cosineRecs);
    if faissRecs != [] && cosineRecs != [] {
      SerendipityOfMiss(actual, faissRecs);
      SerendipityOfMiss(actual, cosineRecs);
    }
  }
}
