/** `compute_em_f1` and the bracketed-reference filter of
    `scripts/f1_sample_evaluation.py`. Its exact match compares stripped,
    lower-cased strings, and its F1 compares SETS of whitespace tokens, so a
    repeated token counts once and two empty strings score 0: a different
    metric from `EvalUtils.F1Score`. Reading the predictions file and printing
    the results are outside the model. */
module F1SampleEvaluation {
  import opened Seqs
  import opened Text
  import opened Records
  import EvalUtils

  /** `s.strip().lower()` */
  function Clean(s: string): string {
    Lower(Strip(s))
  }

  /** `int(pred == ref)` for one sample. */
  predicate SampleEm(prediction: string, reference: string) {
    Clean(prediction) == Clean(reference)
  }

  /** `set(pred_tokens) & set(ref_tokens)` */
  function CommonTokens(pt: seq<string>, rt: seq<string>): (c: set<string>)
    ensures forall w :: w in c <==> w in pt && w in rt
    ensures |c| <= |pt| && |c| <= |rt|
  {
    var c := set w | w in pt && w in rt;
    SetOfSeqBound(pt);
    SetOfSeqBound(rt);
    SubsetCard(c, set w | w in pt);
    SubsetCard(c, set w | w in rt);
    c
  }

  /** The per-sample F1 over token sets: precision and recall are 0 for an
      empty side, and the harmonic mean is taken only when their sum is
      positive. It is 0 when either side is empty or nothing is shared, and
      otherwise twice the shared count over the two lengths. */
  function SetF1(pt: seq<string>, rt: seq<string>): (r: real)
    ensures 0.0 <= r <= 1.0
    ensures pt == [] || rt == [] ==> r == 0.0
    ensures |CommonTokens(pt, rt)| == 0 ==> r == 0.0
    ensures pt != [] && rt != [] && |CommonTokens(pt, rt)| > 0 ==>
      r == 2.0 * |CommonTokens(pt, rt)| as real / (|pt| + |rt|) as real
  {
    var common := CommonTokens(pt, rt);
    assert pt == [] || rt == [] ==> common == {};
    var c := |common|;
    var prec := if pt != [] then c as real / |pt| as real else 0.0;
    var rec := if rt != [] then c as real / |rt| as real else 0.0;
    if prec + rec > 0.0 then
      EvalUtils.HarmonicMean(c as real, |pt| as real, |rt| as real);
      2.0 * prec * rec / (prec + rec)
    else 0.0
  }

  /** The F1 of one sample. */
  function SampleF1(prediction: string, reference: string): real {
    SetF1(Split(Clean(prediction)), Split(Clean(reference)))
  }

  /** The number of exact matches in the samples. */
  function EmCount(samples: seq<Prediction>): (k: nat)
    ensures k <= |samples|
  {
    if samples == [] then 0
    else
      var s := samples[|samples| - 1];
      EmCount(samples[..|samples| - 1]) + (if SampleEm(s.prediction, s.reference) then 1 else 0)
  }

  /** The sum of the per-sample F1 values. */
  function F1Sum(samples: seq<Prediction>): (t: real)
    ensures 0.0 <= t <= |samples| as real
  {
    if samples == [] then 0.0
    else
      var s := samples[|samples| - 1];
      F1Sum(samples[..|samples| - 1]) + SampleF1(s.prediction, s.reference)
  }

  /** `compute_em_f1`: the loop (`Totals`) and the final scaling, giving the
      share of exact matches and the mean F1 as percentages, or `(0, 0)` for
      no samples. */
  method ComputeEmF1(samples: seq<Prediction>) returns (emScore: real, f1Score: real)
    ensures |samples| == 0 ==> emScore == 0.0 && f1Score == 0.0
    ensures |samples| > 0 ==> emScore == EmCount(samples) as real / |samples| as real * 100.0
    ensures |samples| > 0 ==> f1Score == F1Sum(samples) / |samples| as real * 100.0
    ensures 0.0 <= emScore <= 100.0 && 0.0 <= f1Score <= 100.0
  {
    var em, f1 := Totals(samples);
    var n := |samples|;
    if n > 0 {
      emScore, f1Score := em as real / n as real * 100.0, f1 / n as real * 100.0;
      ScoresInRange(samples);
    } else {
      emScore, f1Score := 0.0, 0.0;
    }
  }

  /** The loop of `compute_em_f1` with its two accumulators: the number of
      exact matches and the sum of the per-sample F1 values. */
  method Totals(samples: seq<Prediction>) returns (em: nat, f1: real)
    ensures em == EmCount(samples) && f1 == F1Sum(samples)
  {
    em, f1 := 0, 0.0;
    for i := 0 to |samples|
      invariant em == EmCount(samples[..i])
      invariant f1 == F1Sum(samples[..i])
    {
      var exact, score := ScoreSample(samples[i]);
      em := em + (if exact then 1 else 0);
      f1 := f1 + score;
      SumsStep(samples, i);
    }
    assert samples[..|samples|] == samples;
  }

  /** The body of the loop for one sample: the cleaned strings are compared
      for the exact match, and their whitespace tokens give the F1. */
  method ScoreSample(s: Prediction) returns (exact: bool, score: real)
    ensures exact == SampleEm(s.prediction, s.reference)
    ensures score == SampleF1(s.prediction, s.reference)
    ensures 0.0 <= score <= 1.0
  {
    var pred := Clean(s.prediction);
    var ref := Clean(s.reference);
    exact := pred == ref;
    var predTokens := Split(pred);
    var refTokens := Split(ref);
    score := SetF1(predTokens, refTokens);
  }

  /** The accumulators after one more sample. */
  lemma SumsStep(samples: seq<Prediction>, i: nat)
    requires i < |samples|
    ensures var s := samples[i];
      EmCount(samples[..i + 1]) == EmCount(samples[..i]) + (if SampleEm(s.prediction, s.reference) then 1 else 0) &&
      F1Sum(samples[..i + 1]) == F1Sum(samples[..i]) + SampleF1(s.prediction, s.reference)
  {
    assert samples[..i + 1][..i] == samples[..i];
  }

  /** Both scores of a non-empty list are percentages. */
  lemma ScoresInRange(samples: seq<Prediction>)
    requires |samples| > 0
    ensures 0.0 <= EmCount(samples) as real / |samples| as real * 100.0 <= 100.0
    ensures 0.0 <= F1Sum(samples) / |samples| as real * 100.0 <= 100.0
  {
    PercentBound(EmCount(samples) as real, |samples| as real);
    PercentBound(F1Sum(samples), |samples| as real);
  }

  /** A share of at most the whole is a percentage between 0 and 100. */
  lemma PercentBound(part: real, whole: real)
    requires 0.0 <= part <= whole && whole > 0.0
    ensures 0.0 <= part / whole * 100.0 <= 100.0
  {
    assert part / whole <= 1.0;
  }

  /** `"[" in p["reference"] and "]" in p["reference"]` */
  predicate Bracketed(p: Prediction) {
    Contains(p.reference, "[") && Contains(p.reference, "]")
  }

  /** The list comprehension keeping the samples whose reference has both
      brackets. */
  function BracketedFilter(preds: seq<Prediction>): (r: seq<Prediction>)
    ensures forall p :: p in r ==> Bracketed(p)
  {
    if preds == [] then []
    else
      var front := BracketedFilter(preds[..|preds| - 1]);
      var last := preds[|preds| - 1];
      if Bracketed(last) then front + [last] else front
  }

  /** The filter keeps exactly the bracketed samples, in order: its result is
      a subsequence of the input holding each bracketed sample as often as
      the input does and no other sample. */
  lemma {:induction false} BracketedFilterExact(preds: seq<Prediction>)
    ensures IsSubsequence(BracketedFilter(preds), preds)
    ensures forall p :: multiset(BracketedFilter(preds))[p] == if Bracketed(p) then multiset(preds)[p] else 0
  {
    if preds != [] {
      var front := preds[..|preds| - 1];
      var last := preds[|preds| - 1];
      BracketedFilterExact(front);
      assert preds == front + [last];
      if Bracketed(last) {
        SubsequenceExtend(BracketedFilter(front), front, last);
      } else {
        SubsequenceExtend(BracketedFilter(front), front, last);
      }
    }
  }

  /** A reference that has both brackets as characters passes the filter. */
  lemma BracketChars(p: Prediction)
    ensures Bracketed(p) <==> '[' in p.reference && ']' in p.reference
  {
    CharContains(p.reference, '[');
    CharContains(p.reference, ']');
  }

  /** A one-character text occurs exactly where that character is. */
  lemma CharContains(s: string, c: char)
    ensures Contains(s, [c]) <==> c in s
  {
    if c in s {
      var i :| 0 <= i < |s| && s[i] == c;
      assert s[i..i + 1] == [c];
      assert OccursAt(s, [c], i);
    }
    if Contains(s, [c]) {
      var i :| OccursAt(s, [c], i);
      assert s[i..i + 1][0] == s[i];
    }
  }

  /** Two empty strings: the set-based F1 gives 0, the multiset F1 of the
      evaluation utilities gives 1. */
  lemma EmptyPairDiffers()
    ensures SampleF1("", "") == 0.0
    ensures EvalUtils.F1Score("", "") == 1.0
  {
    assert Split(Clean("")) == [];
    EvalUtils.ExactMatchFullF1("", "");
  }

  /** A repeated token counts once: "x x" against itself is an exact match
      with a set-based F1 of one half, while the multiset F1 is 1. */
  lemma RepeatedTokenCountsOnce()
    ensures SampleEm("x x", "x x")
    ensures SampleF1("x x", "x x") == 0.5
    ensures EvalUtils.F1Score("x x", "x x") == 1.0
  {
    var ws := ["x", "x"];
    RepeatedTokens("x x", ws);
    DoubledTokenHalf("x");
    EvalUtils.ExactMatchFullF1("x x", "x x");
  }

  /** Two copies of one token against themselves share only that token. */
  lemma DoubledTokenHalf(w: string)
    ensures SetF1([w, w], [w, w]) == 0.5
  {
    var ws := [w, w];
    assert CommonTokens(ws, ws) == {w};
  }

  /** "x x" is already clean and splits into two equal tokens. */
  lemma RepeatedTokens(s: string, ws: seq<string>)
    requires s == "x x" && ws == ["x", "x"]
    ensures Clean(s) == s && Split(Clean(s)) == ws
  {
    assert !IsSpace(s[0]);
    RunLengthIs(s, IsSpace, 0);
    assert s[0..] == s;
    assert StripEnd(s) == s;
    LowerIdentity(s);
    assert Join(ws) == s;
    assert IsToken(ws[0]) && IsToken(ws[1]);
    SplitJoin(ws);
  }
}
