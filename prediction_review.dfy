/** `collect_bad_predictions` and `print_top_bad_predictions` in
    `scripts/prediction_review.py`: the predictions that are not exact
    matches or score below an F1 threshold are collected with their score,
    then sorted in place by score, worst first, and the first `n` are shown.
    Python's sort is stable, so predictions of equal score keep their order.
    Loading the file, printing and the tokenizer inspection are outside the
    model; what would be printed is returned. */
module PredictionReview {
  import opened Seqs
  import opened Records
  import EvalUtils

  /** One collected record: the F1 score and the fields it was computed from. */
  datatype BadPrediction = BadPrediction(
    f1: real,
    prediction: string,
    reference: string,
    question: string,
    context: string)

  /** The default of `f1_threshold`. */
  const DefaultF1Threshold: real := 0.9

  /** The default of `n`, the number of records shown. */
  const DefaultTopN: int := 10

  /** `em == 0 or f1 < f1_threshold` */
  predicate IsBad(ex: Prediction, f1Threshold: real) {
    !EvalUtils.ExactMatchScore(ex.prediction, ex.reference) ||
    EvalUtils.F1Score(ex.prediction, ex.reference) < f1Threshold
  }

  /** How the threshold decides: at or below 0 only a failed exact match
      counts as bad, up to 1 an exact match never does, and above 1 every
      example does, since F1 lies in [0, 1] and an exact match scores 1. */
  lemma IsBadThresholds(ex: Prediction, f1Threshold: real)
    ensures f1Threshold <= 0.0 ==> (IsBad(ex, f1Threshold) <==> !EvalUtils.ExactMatchScore(ex.prediction, ex.reference))
    ensures f1Threshold <= 1.0 && EvalUtils.ExactMatchScore(ex.prediction, ex.reference) ==> !IsBad(ex, f1Threshold)
    ensures f1Threshold > 1.0 ==> IsBad(ex, f1Threshold)
  {
    var p, g := EvalUtils.Tokens(ex.prediction), EvalUtils.Tokens(ex.reference);
    assert 0.0 <= EvalUtils.F1OfTokens(p, g) <= 1.0;
    if EvalUtils.ExactMatchScore(ex.prediction, ex.reference) {
      EvalUtils.ExactMatchFullF1(ex.prediction, ex.reference);
    }
  }

  /** The record appended for an example. */
  function Entry(ex: Prediction): BadPrediction {
    BadPrediction(EvalUtils.F1Score(ex.prediction, ex.reference), ex.prediction, ex.reference, ex.question, ex.context)
  }

  /** The example a record was made from. */
  function Origin(b: BadPrediction): (ex: Prediction)
    ensures forall e :: Entry(e) == b ==> e == ex
  {
    Prediction(b.context, b.question, b.prediction, b.reference)
  }

  /** `bad_preds` after the examples: the record of each bad example, in order. */
  function BadOf(examples: seq<Prediction>, f1Threshold: real): seq<BadPrediction> {
    FilterMap(examples, ex => IsBad(ex, f1Threshold), Entry)
  }

  /** The loop appending one record per bad example. */
  method CollectBadPredictions(examples: seq<Prediction>, f1Threshold: real := DefaultF1Threshold) returns (badPreds: seq<BadPrediction>)
    ensures badPreds == BadOf(examples, f1Threshold)
  {
    badPreds := [];
    for i := 0 to |examples|
      invariant badPreds == BadOf(examples[..i], f1Threshold)
    {
      assert examples[..i + 1][..i] == examples[..i];
      var ex := examples[i];
      var pred := ex.prediction;
      var ref := ex.reference;
      var f1 := EvalUtils.F1Score(pred, ref);
      var em := EvalUtils.ExactMatchScore(pred, ref);
      if !em || f1 < f1Threshold {
        badPreds := badPreds + [BadPrediction(f1, pred, ref, ex.question, ex.context)];
      }
    }
    assert examples[..|examples|] == examples;
  }

  /** What is collected: in input order, the record of each bad example as
      often as the example occurs, and no record of any other example. Every
      record was made from a bad example and carries its F1 score, a value in
      [0, 1]. */
  lemma BadOfExact(examples: seq<Prediction>, f1Threshold: real)
    ensures IsSubsequence(BadOf(examples, f1Threshold), Map(examples, Entry))
    ensures |BadOf(examples, f1Threshold)| <= |examples|
    ensures forall ex :: multiset(BadOf(examples, f1Threshold))[Entry(ex)] ==
                         (if IsBad(ex, f1Threshold) then multiset(examples)[ex] else 0)
    ensures forall b :: b in BadOf(examples, f1Threshold) ==>
      b == Entry(Origin(b)) && Origin(b) in examples && IsBad(Origin(b), f1Threshold) &&
      b.f1 == EvalUtils.F1Score(b.prediction, b.reference) && 0.0 <= b.f1 <= 1.0
  {
    var keep := ex => IsBad(ex, f1Threshold);
    FilterMapOrder(examples, keep, Entry);
    FilterMapCounts(examples, keep, Entry);
    FilterMapMembers(examples, keep, Entry);
  }

  /** With a threshold of at most 1, no exact match is collected: an exact
      match scores 1. */
  lemma NoExactMatchKept(examples: seq<Prediction>, f1Threshold: real)
    requires f1Threshold <= 1.0
    ensures forall b :: b in BadOf(examples, f1Threshold) ==>
      !EvalUtils.ExactMatchScore(b.prediction, b.reference)
  {
    BadOfExact(examples, f1Threshold);
    forall b | b in BadOf(examples, f1Threshold)
      ensures !EvalUtils.ExactMatchScore(b.prediction, b.reference)
    {
      if EvalUtils.ExactMatchScore(b.prediction, b.reference) {
        EvalUtils.ExactMatchFullF1(b.prediction, b.reference);
      }
    }
  }

  /** Non-decreasing in `f1`. */
  predicate SortedByF1(s: seq<BadPrediction>) {
    forall k, l :: 0 <= k < l < |s| ==> s[k].f1 <= s[l].f1
  }

  /** The records with score `v`, in order. */
  function WithF1(s: seq<BadPrediction>, v: real): seq<BadPrediction> {
    if s == [] then []
    else WithF1(s[..|s| - 1], v) + (if s[|s| - 1].f1 == v then [s[|s| - 1]] else [])
  }

  /** A stable reordering of `t`: for every score, the records with that
      score appear in `s` in the order they had in `t`. */
  ghost predicate StableReorder(s: seq<BadPrediction>, t: seq<BadPrediction>) {
    multiset(s) == multiset(t) && forall v :: WithF1(s, v) == WithF1(t, v)
  }

  /** The per-score filters split over a concatenation. */
  lemma {:induction false} WithF1Concat(s: seq<BadPrediction>, t: seq<BadPrediction>, v: real)
    ensures WithF1(s + t, v) == WithF1(s, v) + WithF1(t, v)
    decreases |t|
  {
    if t != [] {
      var t' := t[..|t| - 1];
      assert (s + t)[..|s + t| - 1] == s + t';
      assert (s + t)[|s + t| - 1] == t[|t| - 1];
      assert t[..|t| - 1] == t';
      WithF1Concat(s, t', v);
    } else {
      assert s + t == s;
    }
  }

  /** Exchanging two neighbours of different scores is a stable reordering. */
  lemma SwapStable(s: seq<BadPrediction>, j: nat)
    requires 0 < j < |s| && s[j - 1].f1 != s[j].f1
    ensures StableReorder(s[j - 1 := s[j]][j := s[j - 1]], s)
  {
    var t := s[j - 1 := s[j]][j := s[j - 1]];
    var a, b := s[..j - 1], s[j + 1..];
    var x, y := s[j - 1], s[j];
    assert s == a + [x, y] + b;
    assert t == a + [y, x] + b;
    forall v ensures WithF1(t, v) == WithF1(s, v) {
      WithF1Concat(a + [x, y], b, v);
      WithF1Concat(a + [y, x], b, v);
      WithF1Concat(a, [x, y], v);
      WithF1Concat(a, [y, x], v);
      assert [x, y][..1] == [x] && [y, x][..1] == [y];
    }
  }

  /** Adjacent exchange, the only step of the sort. */
  method SwapAdjacent(a: array<BadPrediction>, j: int)
    requires 0 < j < a.Length && a[j - 1].f1 > a[j].f1
    modifies a
    ensures a[..] == old(a[..])[j - 1 := old(a[j])][j := old(a[j - 1])]
    ensures StableReorder(a[..], old(a[..]))
  {
    SwapStable(a[..], j);
    a[j - 1], a[j] := a[j], a[j - 1];
  }

  /** `bad_preds.sort(key=lambda x: x["f1"])`: a stable sort, here by
      insertion through adjacent exchanges. */
  method SortByF1(a: array<BadPrediction>)
    modifies a
    ensures SortedByF1(a[..])
    ensures StableReorder(a[..], old(a[..]))
  {
    for i := 0 to a.Length
      invariant SortedByF1(a[..i])
      invariant StableReorder(a[..], old(a[..]))
    {
      ghost var before := a[..];
      InsertLast(a, i);
      StableReorderTrans(a[..], before, old(a[..]));
    }
    assert a[..a.Length] == a[..];
  }

  /** One insertion step: `a[i]` moves left past the records of higher score,
      so that `a[..i + 1]` is sorted; the records after `i` stay where they
      were, so the prefix holds the records it held before. */
  method InsertLast(a: array<BadPrediction>, i: int)
    requires 0 <= i < a.Length && SortedByF1(a[..i])
    modifies a
    ensures SortedByF1(a[..i + 1])
    ensures StableReorder(a[..], old(a[..]))
    ensures a[i + 1..] == old(a[i + 1..])
  {
    var j := i;
    InsertStart(a[..], i);
    while j > 0 && a[j - 1].f1 > a[j].f1
      invariant 0 <= j <= i
      invariant SortedApartFrom(a[..], i, j) && BelowRest(a[..], i, j)
      invariant StableReorder(a[..], old(a[..]))
      invariant a[i + 1..] == old(a[i + 1..])
      decreases j
    {
      ghost var before := a[..];
      SwapAdjacent(a, j);
      InsertSwap(before, i, j);
      StableReorderTrans(a[..], before, old(a[..]));
      j := j - 1;
    }
    InsertEnd(a[..], i, j);
  }

  /** A reordering that leaves everything after `i` in place keeps the
      records of `s[..i + 1]`: after `InsertLast` the sorted prefix is the old
      prefix with `old(a[i])` put into it. */
  lemma PrefixKept(s: seq<BadPrediction>, t: seq<BadPrediction>, i: nat)
    requires i < |s| == |t| && multiset(s) == multiset(t)
    requires s[i + 1..] == t[i + 1..]
    ensures multiset(s[..i + 1]) == multiset(t[..i + 1])
  {
    assert s == s[..i + 1] + s[i + 1..];
    assert t == t[..i + 1] + t[i + 1..];
    assert multiset(s) == multiset(s[..i + 1]) + multiset(s[i + 1..]);
    assert multiset(t) == multiset(t[..i + 1]) + multiset(t[i + 1..]);
    assert multiset(s[..i + 1]) == multiset(s) - multiset(s[i + 1..]);
    assert multiset(t[..i + 1]) == multiset(t) - multiset(t[i + 1..]);
  }

  /** `s[..i + 1]` is sorted once the record at `j` is left out. */
  predicate SortedApartFrom(s: seq<BadPrediction>, i: int, j: int)
    requires 0 <= j <= i < |s|
  {
    forall k, l :: 0 <= k < l <= i && k != j && l != j ==> s[k].f1 <= s[l].f1
  }

  /** The record at `j` scores less than every record after it up to `i`. */
  predicate BelowRest(s: seq<BadPrediction>, i: int, j: int)
    requires 0 <= j <= i < |s|
  {
    forall l :: j < l <= i ==> s[j].f1 < s[l].f1
  }

  /** Before the insertion the moving record is the last one. */
  lemma InsertStart(s: seq<BadPrediction>, i: int)
    requires 0 <= i < |s| && SortedByF1(s[..i])
    ensures SortedApartFrom(s, i, i) && BelowRest(s, i, i)
  {
    assert forall k :: 0 <= k < i ==> s[..i][k] == s[k];
  }

  /** Exchanging the moving record with a higher-scoring left neighbour. */
  lemma InsertSwap(s: seq<BadPrediction>, i: int, j: int)
    requires 0 < j <= i < |s| && s[j - 1].f1 > s[j].f1
    requires SortedApartFrom(s, i, j) && BelowRest(s, i, j)
    ensures SortedApartFrom(s[j - 1 := s[j]][j := s[j - 1]], i, j - 1)
    ensures BelowRest(s[j - 1 := s[j]][j := s[j - 1]], i, j - 1)
  {
  }

  /** The moving record has reached its place. */
  lemma InsertEnd(s: seq<BadPrediction>, i: int, j: int)
    requires 0 <= j <= i < |s| && (j == 0 || s[j - 1].f1 <= s[j].f1)
    requires SortedApartFrom(s, i, j) && BelowRest(s, i, j)
    ensures SortedByF1(s[..i + 1])
  {
    assert forall k :: 0 <= k <= i ==> s[..i + 1][k] == s[k];
  }

  /** Stable reorderings compose. */
  lemma StableReorderTrans(s: seq<BadPrediction>, t: seq<BadPrediction>, u: seq<BadPrediction>)
    requires StableReorder(s, t) && StableReorder(t, u)
    ensures StableReorder(s, u)
  {
  }

  /** The sort, then `bad_preds[:n]`: the records that would be printed. */
  method PrintTopBadPredictions(badPreds: array<BadPrediction>, n: int := DefaultTopN) returns (shown: seq<BadPrediction>)
    modifies badPreds
    ensures SortedByF1(badPreds[..]) && StableReorder(badPreds[..], old(badPreds[..]))
    ensures shown == PySlice(badPreds[..], 0, n)
  {
    SortByF1(badPreds);
    shown := PySlice(badPreds[..], 0, n);
  }

  /** The first `n` of the sorted records, for `n >= 0`, are `min(n, len)`
      records, and none of them scores more than any record left out. */
  lemma TopAreWorst(s: seq<BadPrediction>, n: int)
    requires SortedByF1(s) && n >= 0
    ensures |PySlice(s, 0, n)| == if n < |s| then n else |s|
    ensures forall b, c :: b in PySlice(s, 0, n) && c in s[|PySlice(s, 0, n)|..] ==> b.f1 <= c.f1
  {
    var shown := PySlice(s, 0, n);
    assert shown == s[..|shown|];
    forall b, c | b in shown && c in s[|shown|..] ensures b.f1 <= c.f1 {
      var k :| 0 <= k < |shown| && shown[k] == b;
      var l :| 0 <= l < |s| - |shown| && s[|shown|..][l] == c;
      assert s[k] == b && s[|shown| + l] == c;
    }
  }
}
