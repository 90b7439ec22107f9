/** `is_informative` and `CLINICAL_KEYWORDS` in
    `scripts/extract_radiology_samples.py`, with the row filter built on them
    and the size of the sample then drawn. Reading the CSV file, the random
    sample itself and writing the JSONL output are outside the model. */
module ExtractRadiologySamples {
  import opened Seqs
  import opened Text

  /** A value of the `report` column: a string, or anything else pandas may
      put there (a missing value is a float). */
  datatype Cell = Report(s: string) | NotText

  /** `CLINICAL_KEYWORDS`, all lower-case. */
  const ClinicalKeywords: seq<string> := [
    "consolidation", "atelectasis", "effusion", "opacity", "edema", "pneumothorax",
    "infiltrate", "cardiomegaly", "pleural", "mass", "lesion", "concerning", "abnormal",
    "airspace", "collapse", "interstitial", "fibrosis", "nodule", "infection"
  ]

  /** The shortest informative report, in characters. */
  const MinLength: nat := 300

  /** `NUM_SAMPLES` */
  const NumSamples: nat := 400

  /** `any(kw in text for kw in kws)` */
  function AnyKeyword(text: string, kws: seq<string>): (r: bool)
    ensures r <==> exists i :: 0 <= i < |kws| && Contains(text, kws[i])
  {
    if kws == [] then false
    else Contains(text, kws[0]) || AnyKeyword(text, kws[1..])
  }

  /** A string of at least 300 characters whose lower-case form contains
      "impression" or one of the keywords; never anything that is not a
      string. */
  function IsInformative(c: Cell): (r: bool)
    ensures !c.Report? ==> !r
    ensures c.Report? && |c.s| < MinLength ==> !r
    ensures c.Report? && |c.s| >= MinLength ==>
      (r <==> Contains(Lower(c.s), "impression") ||
              exists k :: k in ClinicalKeywords && Contains(Lower(c.s), k))
  {
    if !c.Report? || |c.s| < MinLength then false
    else
      var reportLower := Lower(c.s);
      assert (exists i :: 0 <= i < |ClinicalKeywords| && Contains(reportLower, ClinicalKeywords[i])) ==>
             exists k :: k in ClinicalKeywords && Contains(reportLower, k);
      Contains(reportLower, "impression") || AnyKeyword(reportLower, ClinicalKeywords)
  }

  /** A word found in the report, in any case, counts once lower-cased. */
  lemma LowerContains(s: string, w: string)
    requires Contains(s, w)
    ensures Contains(Lower(s), Lower(w))
  {
    var i :| OccursAt(s, w, i);
    assert Lower(s)[i..i + |w|] == Lower(w);
    assert OccursAt(Lower(s), Lower(w), i);
  }

  /** The test ignores case: a long report containing "IMPRESSION", or a
      keyword written in capitals, is informative. */
  lemma CaseInsensitive(s: string, w: string)
    requires |s| >= MinLength && Contains(s, w)
    requires Lower(w) == "impression" || Lower(w) in ClinicalKeywords
    ensures IsInformative(Report(s))
  {
    LowerContains(s, w);
  }

  /** Lower-casing a report does not change whether it is informative. */
  lemma LowerInvariant(s: string)
    ensures IsInformative(Report(Lower(s))) == IsInformative(Report(s))
  {
    LowerIdentity(Lower(s));
  }

  /** What occurs in a string occurs in any extension of it. */
  lemma ContainsPrefix(s: string, t: string, w: string)
    requires Contains(s, w)
    ensures Contains(s + t, w)
  {
    var i :| OccursAt(s, w, i);
    assert (s + t)[i..i + |w|] == s[i..i + |w|];
    assert OccursAt(s + t, w, i);
  }

  /** Appending text to an informative report leaves it informative. */
  lemma ExtendInformative(s: string, t: string)
    requires IsInformative(Report(s))
    ensures IsInformative(Report(s + t))
  {
    LowerConcat(s, t);
    if Contains(Lower(s), "impression") {
      ContainsPrefix(Lower(s), Lower(t), "impression");
    } else {
      var k :| k in ClinicalKeywords && Contains(Lower(s), k);
      ContainsPrefix(Lower(s), Lower(t), k);
    }
  }

  /** `df[df["report"].apply(is_informative)]`, the rows in order. */
  function Filtered(reports: seq<Cell>): seq<Cell> {
    FilterMap(reports, IsInformative, c => c)
  }

  /** The filter keeps each informative report as often as it occurs, in
      order, and nothing else. */
  lemma FilteredExact(reports: seq<Cell>)
    ensures IsSubsequence(Filtered(reports), reports)
    ensures forall c :: multiset(Filtered(reports))[c] == if IsInformative(c) then multiset(reports)[c] else 0
    ensures forall c :: c in Filtered(reports) ==> IsInformative(c)
  {
    FilterMapOrder(reports, IsInformative, c => c);
    MapIdentity(reports, c => c);
    FilterMapCounts(reports, IsInformative, c => c);
    FilterMapMembers(reports, IsInformative, c => c);
  }

  /** `min(NUM_SAMPLES, len(filtered))`: 400 reports when there are enough,
      otherwise all of them. */
  function SampleSize(filtered: seq<Cell>): (n: nat)
    ensures n <= NumSamples && n <= |filtered|
    ensures n == NumSamples || n == |filtered|
  {
    if NumSamples < |filtered| then NumSamples else |filtered|
  }
}
