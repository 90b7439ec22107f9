/** The label assignment of `prepare_train_features` in `src/data_utils.py`:
    each window of the tokenizer's sliding-window encoding gets the token
    positions where the answer of its source example starts and ends, or the
    position of the CLS token twice when the answer is not inside the
    window's context. The tokenizer itself is outside the model: its output
    is an input here. */
module DataUtils {
  import opened Seqs
  import opened Records

  /** One window of the encoding of a (question, context) pair: the token ids,
      each position's character span `(start, end)` in the text it came from
      (`(0, 0)` for special and padding tokens), and each position's sequence
      id (`Some(0)` question, `Some(1)` context, `None` special tokens). */
  datatype Window = Window(
    inputIds: seq<int>,
    offsets: seq<(int, int)>,
    sequenceIds: seq<Option<int>>)

  /** The tokenizer's output: the windows, and for each window the index of
      the example it was cut from (`overflow_to_sample_mapping`). */
  datatype Encoding = Encoding(windows: seq<Window>, overflowToSampleMapping: seq<int>)

  /** What `prepare_train_features` returns: the windows, without the sample
      mapping it popped, and the two label lists it added. */
  datatype Features = Features(
    windows: seq<Window>,
    startPositions: seq<int>,
    endPositions: seq<int>)

  /** What the tokenizer guarantees of a window: a CLS token (so
      `input_ids.index` does not raise), a context token (so
      `sequence_ids.index(1)` does not raise), and one offset per position. */
  predicate WellFormed(w: Window, clsTokenId: int) {
    clsTokenId in w.inputIds && Some(1) in w.sequenceIds && |w.sequenceIds| == |w.offsets|
  }

  /** `cls_index = input_ids.index(tokenizer.cls_token_id)` */
  function ClsIndex(w: Window, clsTokenId: int): nat
    requires clsTokenId in w.inputIds
  {
    IndexOf(w.inputIds, clsTokenId)
  }

  /** `context_start = sequence_ids.index(1)` */
  function ContextStart(w: Window): nat
    requires Some(1) in w.sequenceIds
  {
    IndexOf(w.sequenceIds, Some(1))
  }

  /** `context_end = len(sequence_ids) - 1 - sequence_ids[::-1].index(1)` */
  function ContextEnd(w: Window): nat
    requires Some(1) in w.sequenceIds
  {
    LastIndexOf(w.sequenceIds, Some(1))
  }

  /** The context of a window runs from its first to its last context
      position; no context position lies outside. */
  lemma ContextBounds(w: Window)
    requires Some(1) in w.sequenceIds
    ensures ContextStart(w) <= ContextEnd(w) < |w.sequenceIds|
    ensures w.sequenceIds[ContextStart(w)] == Some(1) && w.sequenceIds[ContextEnd(w)] == Some(1)
    ensures forall k :: 0 <= k < |w.sequenceIds| && w.sequenceIds[k] == Some(1) ==>
      ContextStart(w) <= k <= ContextEnd(w)
  {
  }

  /** `start_char`: the answer's first character in the context. */
  function StartChar(ex: Example): int {
    ex.answerStart
  }

  /** `end_char = start_char + len(answer)`: one past the answer's last character. */
  function EndChar(ex: Example): int {
    ex.answerStart + |ex.answerText|
  }

  /** The containment test: the first context token starts at or before the
      answer and the last context token ends at or after it. */
  predicate AnswerInWindow(w: Window, ex: Example)
    requires Some(1) in w.sequenceIds && |w.sequenceIds| == |w.offsets|
  {
    w.offsets[ContextStart(w)].0 <= StartChar(ex) && w.offsets[ContextEnd(w)].1 >= EndChar(ex)
  }

  /** Where the forward cursor leaves the start label: at or after the
      context start, every token from there to the label starts at or before
      `startChar`, and the next token (if any) starts after it. The cursor is
      bounded by the window's length only, not by the context end. */
  predicate IsStartLabel(offsets: seq<(int, int)>, from: nat, startChar: int, s: int) {
    from <= s < |offsets| &&
    (forall k :: from <= k <= s ==> offsets[k].0 <= startChar) &&
    (s + 1 == |offsets| || offsets[s + 1].0 > startChar)
  }

  /** Where the backward cursor leaves the end label: at or before the
      context end and at or after 0, every token from the label to the
      context end ends at or after `endChar`, and the token before the label
      (if any) ends before it. */
  predicate IsEndLabel(offsets: seq<(int, int)>, from: nat, endChar: int, e: int) {
    0 <= e <= from < |offsets| &&
    (forall k :: e <= k <= from ==> offsets[k].1 >= endChar) &&
    (e == 0 || offsets[e - 1].1 < endChar)
  }

  /** The labels of one window for the answer of its source example. */
  predicate IsWindowLabel(w: Window, ex: Example, clsTokenId: int, s: int, e: int)
    requires WellFormed(w, clsTokenId)
  {
    if AnswerInWindow(w, ex) then
      IsStartLabel(w.offsets, ContextStart(w), StartChar(ex), s) &&
      IsEndLabel(w.offsets, ContextEnd(w), EndChar(ex), e)
    else
      s == ClsIndex(w, clsTokenId) && e == ClsIndex(w, clsTokenId)
  }

  /** The body of the loop over windows: the containment test, then the two
      cursors and their +1/-1 correction. */
  method LabelWindow(w: Window, ex: Example, clsTokenId: int) returns (startPosition: int, endPosition: int)
    requires WellFormed(w, clsTokenId)
    ensures IsWindowLabel(w, ex, clsTokenId, startPosition, endPosition)
  {
    var offsets := w.offsets;
    var clsIndex := IndexOf(w.inputIds, clsTokenId);
    var startChar := ex.answerStart;
    var endChar := startChar + |ex.answerText|;
    var contextStart := IndexOf(w.sequenceIds, Some(1));
    var contextEnd := LastIndexOf(w.sequenceIds, Some(1));
    if !(offsets[contextStart].0 <= startChar && offsets[contextEnd].1 >= endChar) {
      startPosition, endPosition := clsIndex, clsIndex;
    } else {
      var tokenStart := contextStart;
      var tokenEnd: int := contextEnd;
      while tokenStart < |offsets| && offsets[tokenStart].0 <= startChar
        invariant contextStart <= tokenStart <= |offsets|
        invariant forall k :: contextStart <= k < tokenStart ==> offsets[k].0 <= startChar
        decreases |offsets| - tokenStart
      {
        tokenStart := tokenStart + 1;
      }
      while tokenEnd >= 0 && offsets[tokenEnd].1 >= endChar
        invariant -1 <= tokenEnd <= contextEnd
        invariant forall k :: tokenEnd < k <= contextEnd ==> offsets[k].1 >= endChar
        decreases tokenEnd + 1
      {
        tokenEnd := tokenEnd - 1;
      }
      startPosition, endPosition := tokenStart - 1, tokenEnd + 1;
    }
  }

  /** `prepare_train_features` after the tokenizer call: one start label and
      one end label per window, in window order, each for the answer of the
      example the window was cut from. */
  method PrepareTrainFeatures(examples: seq<Example>, encoding: Encoding, clsTokenId: int)
    returns (features: Features)
    requires |encoding.overflowToSampleMapping| == |encoding.windows|
    requires forall i :: 0 <= i < |encoding.windows| ==>
      0 <= encoding.overflowToSampleMapping[i] < |examples| && WellFormed(encoding.windows[i], clsTokenId)
    ensures features.windows == encoding.windows
    ensures |features.startPositions| == |encoding.windows| == |features.endPositions|
    ensures forall i :: 0 <= i < |encoding.windows| ==>
      IsWindowLabel(encoding.windows[i], examples[encoding.overflowToSampleMapping[i]], clsTokenId,
                    features.startPositions[i], features.endPositions[i])
  {
    var sampleMapping := encoding.overflowToSampleMapping;
    var startPositions: seq<int> := [];
    var endPositions: seq<int> := [];
    for i := 0 to |encoding.windows|
      invariant |startPositions| == i == |endPositions|
      invariant forall j :: 0 <= j < i ==>
        IsWindowLabel(encoding.windows[j], examples[sampleMapping[j]], clsTokenId,
                      startPositions[j], endPositions[j])
    {
      var sampleIdx := sampleMapping[i];
      var s, e := LabelWindow(encoding.windows[i], examples[sampleIdx], clsTokenId);
      startPositions := startPositions + [s];
      endPositions := endPositions + [e];
    }
    features := Features(encoding.windows, startPositions, endPositions);
  }

  /** The labels of a window are determined: at most one pair satisfies
      `IsWindowLabel`, so it specifies `LabelWindow` completely. */
  lemma WindowLabelUnique(w: Window, ex: Example, clsTokenId: int, s1: int, e1: int, s2: int, e2: int)
    requires WellFormed(w, clsTokenId)
    requires IsWindowLabel(w, ex, clsTokenId, s1, e1)
    requires IsWindowLabel(w, ex, clsTokenId, s2, e2)
    ensures s1 == s2 && e1 == e2
  {
  }

  /** When the answer is inside the window, the label span covers it: the
      start token starts at or before `start_char` and the end token ends at
      or after `end_char`; neither the token after the start nor the token
      before the end would. */
  lemma LabelCoversAnswer(w: Window, ex: Example, clsTokenId: int, s: int, e: int)
    requires WellFormed(w, clsTokenId)
    requires IsWindowLabel(w, ex, clsTokenId, s, e)
    requires AnswerInWindow(w, ex)
    ensures ContextStart(w) <= s < |w.offsets| && 0 <= e <= ContextEnd(w)
    ensures w.offsets[s].0 <= StartChar(ex) && w.offsets[e].1 >= EndChar(ex)
    ensures s + 1 < |w.offsets| ==> w.offsets[s + 1].0 > StartChar(ex)
    ensures e > 0 ==> w.offsets[e - 1].1 < EndChar(ex)
  {
  }

  /** The edge the forward cursor has as written: when the answer starts in
      the last context token (context offsets ascending), and the special and
      padding positions after the context carry `(0, 0)`, the cursor runs over
      them, since `0 <= start_char`, and the start label is the window's last
      position, outside the context whenever a token follows it. */
  lemma StartLabelRunsPastContext(w: Window, ex: Example, clsTokenId: int, s: int, e: int)
    requires WellFormed(w, clsTokenId)
    requires IsWindowLabel(w, ex, clsTokenId, s, e)
    requires AnswerInWindow(w, ex)
    requires forall j, k :: ContextStart(w) <= j <= k <= ContextEnd(w) ==> w.offsets[j].0 <= w.offsets[k].0
    requires w.offsets[ContextEnd(w)].0 <= StartChar(ex)
    requires forall k :: ContextEnd(w) < k < |w.offsets| ==> w.offsets[k] == (0, 0)
    requires 0 <= StartChar(ex)
    ensures s == |w.offsets| - 1
    ensures ContextEnd(w) < |w.offsets| - 1 ==> s > ContextEnd(w)
  {
  }

  /** A window of the question "What condition is shown?" and the context
      "Chest X-ray shows pneumothorax.", with "pneumothorax" cut into three
      sub-word tokens, the separators, two padding positions, CLS id 101 and
      SEP id 102. */
  function ScenarioWindow(): Window {
    Window(
      [101, 2054, 4650, 2003, 3491, 1029, 102, 3108, 1060, 1011, 4097, 3065, 22064, 12184, 18570, 1012, 102, 0, 0],
      [(0, 0), (0, 4), (5, 14), (15, 17), (18, 23), (23, 24), (0, 0),
       (0, 5), (6, 7), (7, 8), (8, 11), (12, 17), (18, 23), (23, 27), (27, 30), (30, 31),
       (0, 0), (0, 0), (0, 0)],
      [None, Some(0), Some(0), Some(0), Some(0), Some(0), None,
       Some(1), Some(1), Some(1), Some(1), Some(1), Some(1), Some(1), Some(1), Some(1),
       None, None, None])
  }

  /** What the labelling reads of the scenario window: CLS first, the context
      at positions 7 to 15, and the character spans of the context tokens. */
  predicate ScenarioShape(w: Window) {
    |w.inputIds| == 19 && |w.offsets| == 19 && |w.sequenceIds| == 19 &&
    w.inputIds[0] == 101 &&
    (forall k :: 0 <= k < 19 ==> (w.sequenceIds[k] == Some(1) <==> 7 <= k <= 15)) &&
    w.offsets[7] == (0, 5) && w.offsets[8] == (6, 7) && w.offsets[9] == (7, 8) &&
    w.offsets[10] == (8, 11) && w.offsets[11] == (12, 17) && w.offsets[12] == (18, 23) &&
    w.offsets[13] == (23, 27) && w.offsets[14] == (27, 30) && w.offsets[15] == (30, 31)
  }

  lemma ScenarioWindowShape()
    ensures ScenarioShape(ScenarioWindow())
  {
    var w := ScenarioWindow();
    forall k | 0 <= k < 19 ensures w.sequenceIds[k] == Some(1) <==> 7 <= k <= 15 {
      assert k < 7 || k in {7, 8, 9, 10, 11, 12, 13, 14, 15} || k > 15;
    }
  }

  /** In the scenario window, the answer "pneumothorax" at character 18 is
      labelled with the three tokens covering characters 18 to 30, not with
      the CLS position; an answer beyond the window's last context character,
      at 40, gets the CLS position twice. */
  lemma ScenarioLabels(w: Window, s: int, e: int)
    requires w == ScenarioWindow()
    ensures var inside := Example("Chest X-ray shows pneumothorax.", "What condition is shown?", "pneumothorax", 18, map[]);
      var beyond := inside.(answerStart := 40);
      WellFormed(w, 101) &&
      (IsWindowLabel(w, inside, 101, s, e) <==> s == 12 && e == 14) &&
      (IsWindowLabel(w, beyond, 101, s, e) <==> s == 0 && e == 0)
  {
    ScenarioWindowShape();
    var inside := Example("Chest X-ray shows pneumothorax.", "What condition is shown?", "pneumothorax", 18, map[]);
    ShapeLabels(w, inside, s, e);
    ShapeLabels(w, inside.(answerStart := 40), s, e);
  }

  /** The labels of any window of the scenario's shape, for an answer of
      length 12 starting at character 18 or at character 40. */
  lemma ShapeLabels(w: Window, ex: Example, s: int, e: int)
    requires ScenarioShape(w)
    requires |ex.answerText| == 12 && (ex.answerStart == 18 || ex.answerStart == 40)
    ensures WellFormed(w, 101)
    ensures ex.answerStart == 18 ==> (IsWindowLabel(w, ex, 101, s, e) <==> s == 12 && e == 14)
    ensures ex.answerStart == 40 ==> (IsWindowLabel(w, ex, 101, s, e) <==> s == 0 && e == 0)
  {
    assert w.sequenceIds[7] == Some(1);
    IndexOfIs(w.inputIds, 101, 0);
    IndexOfIs(w.sequenceIds, Some(1), 7);
    LastIndexOfIs(w.sequenceIds, Some(1), 15);
    if ex.answerStart == 18 {
      var o := w.offsets;
      assert forall k :: 7 <= k <= 12 ==> o[k].0 <= 18 by {
        forall k | 7 <= k <= 12 ensures o[k].0 <= 18 {
          assert k in {7, 8, 9, 10, 11, 12};
        }
      }
      assert forall k :: 14 <= k <= 15 ==> o[k].1 >= 30 by {
        forall k | 14 <= k <= 15 ensures o[k].1 >= 30 {
          assert k == 14 || k == 15;
        }
      }
      assert IsWindowLabel(w, ex, 101, 12, 14);
      if IsWindowLabel(w, ex, 101, s, e) {
        WindowLabelUnique(w, ex, 101, s, e, 12, 14);
      }
    }
  }
}
