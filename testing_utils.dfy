/** `fix_answer_spans` in `src/testing_utils.py`: each record's stored
    `answer_start` is checked by slicing the context; on a mismatch it is
    replaced by the first position where the answer text occurs, and a record
    whose answer text does not occur at all is dropped. The records are a
    sequence here; reading and writing the files and the progress messages
    are outside the model. */
module TestingUtils {
  import opened Seqs
  import opened Text
  import opened Records

  /** `context[start:end] == answer` with `end = start + len(answer)`, as
      Python slices, negative and out-of-range bounds included. */
  predicate SpanMatches(ex: Example) {
    PySlice(ex.context, ex.answerStart, ex.answerStart + |ex.answerText|) == ex.answerText
  }

  /** What happens to one record: emitted as it is, emitted with a new
      `answer_start`, or dropped. */
  datatype Outcome = Kept(ex: Example) | Fixed(ex: Example) | Skipped

  /** The loop body for one record. */
  function Repair(ex: Example): (o: Outcome)
    ensures o.Kept? <==> SpanMatches(ex)
    ensures o.Kept? ==> o.ex == ex
    ensures o.Skipped? <==> !SpanMatches(ex) && forall i :: !OccursAt(ex.context, ex.answerText, i)
    ensures o.Fixed? ==> o.ex == ex.(answerStart := o.ex.answerStart)
    ensures o.Fixed? ==> OccursAt(ex.context, ex.answerText, o.ex.answerStart)
    ensures o.Fixed? ==> forall i :: 0 <= i < o.ex.answerStart ==> !OccursAt(ex.context, ex.answerText, i)
    ensures !o.Skipped? ==> SpanMatches(o.ex)
  {
    if SpanMatches(ex) then Kept(ex)
    else
      var idx := Find(ex.context, ex.answerText);
      if idx == -1 then Skipped
      else
        var ex' := ex.(answerStart := idx);
        assert ex'.context[idx..idx + |ex.answerText|] == ex.answerText;
        Fixed(ex')
  }

  /** The records written to the output file, in input order. */
  function Repaired(records: seq<Example>): seq<Example> {
    if records == [] then []
    else
      var front := Repaired(records[..|records| - 1]);
      match Repair(records[|records| - 1])
      case Skipped => front
      case Kept(ex) => front + [ex]
      case Fixed(ex) => front + [ex]
  }

  /** The final value of the `fixed` counter. */
  function FixedCount(records: seq<Example>): nat {
    if records == [] then 0
    else FixedCount(records[..|records| - 1]) + (if Repair(records[|records| - 1]).Fixed? then 1 else 0)
  }

  /** The final value of the `skipped` counter. */
  function SkippedCount(records: seq<Example>): nat {
    if records == [] then 0
    else SkippedCount(records[..|records| - 1]) + (if Repair(records[|records| - 1]).Skipped? then 1 else 0)
  }

  /** The input records that are not dropped, unchanged: what `Repaired`
      yields up to the `answer_start` of each record. */
  function Survivors(records: seq<Example>): seq<Example> {
    if records == [] then []
    else
      var front := Survivors(records[..|records| - 1]);
      var last := records[|records| - 1];
      if Repair(last).Skipped? then front else front + [last]
  }

  /** The loop over the records with its two counters. */
  method FixAnswerSpans(records: seq<Example>) returns (out: seq<Example>, fixed: nat, skipped: nat)
    ensures out == Repaired(records)
    ensures fixed == FixedCount(records) && skipped == SkippedCount(records)
  {
    fixed, skipped := 0, 0;
    out := [];
    for i := 0 to |records|
      invariant out == Repaired(records[..i])
      invariant fixed == FixedCount(records[..i]) && skipped == SkippedCount(records[..i])
    {
      assert records[..i + 1][..i] == records[..i];
      var ex := records[i];
      var context := ex.context;
      var answer := ex.answerText;
      var start := ex.answerStart;
      var end := start + |answer|;
      if PySlice(context, start, end) != answer {
        var idx := Find(context, answer);
        if idx == -1 {
          skipped := skipped + 1;
          continue;
        }
        ex := ex.(answerStart := idx);
        fixed := fixed + 1;
      }
      out := out + [ex];
    }
    assert records[..|records|] == records;
  }

  /** Every emitted record's stored span now spells its answer; when its
      `answer_start` is not negative and the answer is not empty, the slice
      lies inside the context. */
  lemma {:induction false} RepairedSpansMatch(records: seq<Example>)
    ensures forall ex :: ex in Repaired(records) ==> SpanMatches(ex)
    ensures forall ex :: ex in Repaired(records) && ex.answerStart >= 0 && |ex.answerText| > 0 ==>
      ex.answerStart + |ex.answerText| <= |ex.context| &&
      ex.context[ex.answerStart..ex.answerStart + |ex.answerText|] == ex.answerText
  {
    if records != [] {
      RepairedSpansMatch(records[..|records| - 1]);
    }
    forall ex | ex in Repaired(records) && ex.answerStart >= 0 && |ex.answerText| > 0
      ensures ex.answerStart + |ex.answerText| <= |ex.context|
      ensures ex.context[ex.answerStart..ex.answerStart + |ex.answerText|] == ex.answerText
    {
      MatchInBounds(ex);
    }
  }

  /** A matching span at a non-negative start, for a non-empty answer, is an
      in-range slice: a clamped slice would be shorter than the answer. */
  lemma MatchInBounds(ex: Example)
    requires SpanMatches(ex) && ex.answerStart >= 0 && |ex.answerText| > 0
    ensures ex.answerStart + |ex.answerText| <= |ex.context|
    ensures ex.context[ex.answerStart..ex.answerStart + |ex.answerText|] == ex.answerText
  {
  }

  /** The counters account for the records: the output is the input minus the
      skipped records, and at most one counter moves per record. */
  lemma {:induction false} CountersAccount(records: seq<Example>)
    ensures |Repaired(records)| == |records| - SkippedCount(records)
    ensures FixedCount(records) + SkippedCount(records) <= |records|
    ensures |Survivors(records)| == |Repaired(records)|
  {
    if records != [] {
      CountersAccount(records[..|records| - 1]);
    }
  }

  /** The output is the surviving input in order, with only `answer_start`
      possibly changed; it is changed exactly where the stored span did not
      match, and then to the first occurrence of the answer. */
  lemma {:induction false} OnlyStartChanges(records: seq<Example>)
    ensures |Repaired(records)| == |Survivors(records)|
    ensures forall i :: 0 <= i < |Repaired(records)| ==>
      var ex, orig := Repaired(records)[i], Survivors(records)[i];
      ex == orig.(answerStart := ex.answerStart) &&
      (SpanMatches(orig) ==> ex == orig) &&
      (!SpanMatches(orig) ==> ex.answerStart == Find(orig.context, orig.answerText))
  {
    if records != [] {
      OnlyStartChanges(records[..|records| - 1]);
    }
  }

  /** The survivors are a subsequence of the input. */
  lemma {:induction false} SurvivorsSubsequence(records: seq<Example>)
    ensures IsSubsequence(Survivors(records), records)
  {
    if records != [] {
      var front := records[..|records| - 1];
      var last := records[|records| - 1];
      SurvivorsSubsequence(front);
      assert records == front + [last];
      SubsequenceExtend(Survivors(front), front, last);
    }
  }

  /** A record is dropped exactly when its answer text occurs nowhere in its
      context (a stored span that matches implies an occurrence). */
  lemma SkippedIffAbsent(ex: Example)
    ensures Repair(ex).Skipped? <==> !Contains(ex.context, ex.answerText)
  {
    if SpanMatches(ex) && ex.answerStart >= 0 && |ex.answerText| > 0 {
      MatchInBounds(ex);
      assert OccursAt(ex.context, ex.answerText, ex.answerStart);
    } else if SpanMatches(ex) && |ex.answerText| == 0 {
      assert OccursAt(ex.context, ex.answerText, 0);
    } else if SpanMatches(ex) {
      NegativeStartMatch(ex);
    }
  }

  /** A match at a negative start is a match at the position the slice
      resolved it to. */
  lemma NegativeStartMatch(ex: Example)
    requires SpanMatches(ex) && ex.answerStart < 0 && |ex.answerText| > 0
    ensures Contains(ex.context, ex.answerText)
  {
    var n := |ex.context|;
    var lo := SliceBound(ex.answerStart, n);
    var hi := SliceBound(ex.answerStart + |ex.answerText|, n);
    assert lo <= hi && ex.context[lo..hi] == ex.answerText;
    assert OccursAt(ex.context, ex.answerText, lo);
  }

  /** Repairing the output again changes nothing: every record it holds
      already matches, so none is fixed or dropped. */
  lemma {:induction false} RepairIdempotent(records: seq<Example>)
    ensures Repaired(Repaired(records)) == Repaired(records)
    ensures FixedCount(Repaired(records)) == 0 && SkippedCount(Repaired(records)) == 0
  {
    RepairedSpansMatch(records);
    var out := Repaired(records);
    assert forall i :: 0 <= i < |out| ==> out[i] in out;
    AllMatching(out);
  }

  /** Records that all match pass through untouched. */
  lemma AllMatching(records: seq<Example>)
    requires forall i :: 0 <= i < |records| ==> SpanMatches(records[i])
    ensures Repaired(records) == records
    ensures FixedCount(records) == 0 && SkippedCount(records) == 0
  {
    AllMatchingPrefix(records, |records|);
    assert records[..|records|] == records;
  }

  /** The same, for the first `n` records. */
  lemma {:induction false} AllMatchingPrefix(records: seq<Example>, n: nat)
    requires forall i :: 0 <= i < |records| ==> SpanMatches(records[i])
    requires n <= |records|
    ensures Repaired(records[..n]) == records[..n]
    ensures FixedCount(records[..n]) == 0 && SkippedCount(records[..n]) == 0
  {
    if n > 0 {
      AllMatchingPrefix(records, n - 1);
      TakeStep(records, n);
      AllMatchingStep(records[..n], records[..n - 1], records[n - 1]);
    }
  }

  /** A matching record appended to records emitted as they were leaves
      them so, and counts nowhere. */
  lemma AllMatchingStep(records: seq<Example>, front: seq<Example>, last: Example)
    requires records == front + [last] && SpanMatches(last)
    requires Repaired(front) == front && FixedCount(front) == 0 && SkippedCount(front) == 0
    ensures Repaired(records) == records
    ensures FixedCount(records) == 0 && SkippedCount(records) == 0
  {
    assert records[..|front|] == front;
    assert Repair(last).Kept?;
  }

  /** The drug-dose record: the stored start 5 is wrong, the answer occurs at
      13, and it is repaired to 13. */
  lemma DoseRecordFixed(ex: Example)
    requires ex.context == "Patient took 10 MG Metformin." && ex.answerText == "10 MG Metformin"
    requires ex.answerStart == 5
    ensures Repair(ex) == Fixed(ex.(answerStart := 13))
  {
    DoseText(ex.context, ex.answerText);
    FixedAt(ex, 13);
  }

  /** Where the dose occurs in the drug-dose context. */
  lemma DoseText(c: string, a: string)
    requires c == "Patient took 10 MG Metformin." && a == "10 MG Metformin"
    ensures PySlice(c, 5, 5 + |a|) != a
    ensures OccursAt(c, a, 13) && forall i :: 0 <= i < 13 ==> !OccursAt(c, a, i)
  {
    DoseContextChars(c);
    assert |a| == 15 && a[0] == '1';
    assert PySlice(c, 5, 20)[0] == 'n';
    NoOccurrenceBefore(c, a, 13);
  }

  /** A mismatched record whose answer first occurs at `k` is moved to `k`. */
  lemma FixedAt(ex: Example, k: nat)
    requires !SpanMatches(ex) && OccursAt(ex.context, ex.answerText, k)
    requires forall i :: 0 <= i < k ==> !OccursAt(ex.context, ex.answerText, i)
    ensures Repair(ex) == Fixed(ex.(answerStart := k))
  {
    var idx := Find(ex.context, ex.answerText);
    assert !(idx < k) && !(k < idx);
  }

  /** The same record with an answer that is not in its context, such as
      "warfarin", is dropped. */
  lemma DoseRecordDropped(ex: Example)
    requires ex.context == "Patient took 10 MG Metformin." && ex.answerText == "warfarin"
    requires ex.answerStart == 5
    ensures Repair(ex).Skipped?
  {
    var c, b := ex.context, ex.answerText;
    DoseContextChars(c);
    assert |b| == 8 && b[0] == 'w';
    assert PySlice(c, 5, 13)[0] == 'n';
    NoOccurrenceBefore(c, b, |c|);
  }

  /** The characters of the drug-dose context that the two lemmas use. */
  lemma DoseContextChars(c: string)
    requires c == "Patient took 10 MG Metformin."
    ensures |c| == 29 && c[5] == 'n' && c[13..28] == "10 MG Metformin"
    ensures forall i :: 0 <= i < |c| ==> c[i] != 'w'
    ensures forall i :: 0 <= i < 13 ==> c[i] != '1'
  {
  }

  /** A non-empty text occurs at no position whose character differs from
      its first character. */
  lemma NoOccurrenceBefore(s: string, sub: string, k: nat)
    requires |sub| > 0 && k <= |s|
    requires forall i :: 0 <= i < k ==> s[i] != sub[0]
    ensures forall i :: 0 <= i < k ==> !OccursAt(s, sub, i)
    ensures k == |s| ==> forall i :: !OccursAt(s, sub, i)
  {
    forall i | 0 <= i < k ensures !OccursAt(s, sub, i) {
      if i + |sub| <= |s| {
        assert s[i..i + |sub|][0] == s[i];
      }
    }
  }
}
