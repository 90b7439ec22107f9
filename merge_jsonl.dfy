/** `merge_unique_qa_entries` in `scripts/merge_jsonl.py`: the lines of
    several JSON Lines files, read in order, are merged so that only the first
    entry for each `(hadm_id, question)` pair is kept. A line that does not
    parse, is not an object, lacks a key field, or has a key that cannot be
    hashed raises inside the `try` and is skipped. The files are sequences of
    already-parsed lines here; reading, writing and the messages are outside
    the model. */
module MergeJsonl {
  import opened Seqs
  import opened Records

  /** One line of an input file: what `json.loads` made of it, or the
      exception it raised. */
  datatype Line = Unparsable | Parsed(value: Json)

  /** A hashable element of the key tuple. Python's `True == 1` and hash
      alike, so a Boolean key part is the integer it equals. */
  datatype KeyPart = KNull | KNum(n: int) | KStr(s: string)

  type Key = (KeyPart, KeyPart)

  /** The key part a JSON value gives, or `None` when it is a list or an
      object, which `key not in seen` refuses to hash. */
  function AsKeyPart(j: Json): (r: Option<KeyPart>)
    ensures r.None? <==> j.JArr? || j.JObj?
    ensures j.JStr? ==> r == Some(KStr(j.s))
    ensures j.JNum? ==> r == Some(KNum(j.n))
    ensures j.JBool? ==> r == Some(KNum(if j.b then 1 else 0))
    ensures j.JNull? ==> r == Some(KNull)
  {
    match j
    case JNull => Some(KNull)
    case JBool(b) => Some(KNum(if b then 1 else 0))
    case JNum(n) => Some(KNum(n))
    case JStr(s) => Some(KStr(s))
    case JArr(_) => None
    case JObj(_) => None
  }

  /** `(obj["hadm_id"], obj["question"])`, or `None` when computing or hashing
      it raises: the value is not an object, a field is missing, or a part is
      unhashable. */
  function KeyOfJson(j: Json): (r: Option<Key>)
    ensures r.Some? <==> (j.JObj? && "hadm_id" in j.fields && "question" in j.fields &&
                          AsKeyPart(j.fields["hadm_id"]).Some? && AsKeyPart(j.fields["question"]).Some?)
    ensures r.Some? ==> r.value == (AsKeyPart(j.fields["hadm_id"]).value, AsKeyPart(j.fields["question"]).value)
  {
    if !j.JObj? || "hadm_id" !in j.fields || "question" !in j.fields then None
    else
      match (AsKeyPart(j.fields["hadm_id"]), AsKeyPart(j.fields["question"]))
      case (Some(a), Some(b)) => Some((a, b))
      case _ => None
  }

  /** The key of a line, or `None` when the line is skipped. */
  function KeyOf(line: Line): (r: Option<Key>)
    ensures r.Some? ==> line.Parsed? && r == KeyOfJson(line.value)
    ensures line.Parsed? ==> r == KeyOfJson(line.value)
    ensures line.Unparsable? ==> r.None?
  {
    if line.Parsed? then KeyOfJson(line.value) else None
  }

  /** The lines of all files, file after file. */
  function Flatten(files: seq<seq<Line>>): seq<Line> {
    if files == [] then [] else Flatten(files[..|files| - 1]) + files[|files| - 1]
  }

  /** The keys of a list of entries. */
  function Keys(objs: seq<Json>): set<Key> {
    if objs == [] then {}
    else
      var last := KeyOfJson(objs[|objs| - 1]);
      Keys(objs[..|objs| - 1]) + (if last.Some? then {last.value} else {})
  }

  /** The keys of the lines that are not skipped. */
  function ValidKeys(lines: seq<Line>): set<Key> {
    if lines == [] then {}
    else
      var last := KeyOf(lines[|lines| - 1]);
      ValidKeys(lines[..|lines| - 1]) + (if last.Some? then {last.value} else {})
  }

  /** `unique_entries` after the given lines, with `seen` as the keys of the
      entries kept so far. */
  function Merge(lines: seq<Line>): seq<Json> {
    if lines == [] then []
    else
      var front := Merge(lines[..|lines| - 1]);
      var line := lines[|lines| - 1];
      var key := KeyOf(line);
      if key.None? || key.value in Keys(front) then front else front + [line.value]
  }

  /** The two nested loops over files and lines, with the `seen` set. */
  method MergeUniqueQaEntries(files: seq<seq<Line>>) returns (uniqueEntries: seq<Json>)
    ensures uniqueEntries == Merge(Flatten(files))
  {
    var seen: set<Key> := {};
    uniqueEntries := [];
    for fi := 0 to |files|
      invariant uniqueEntries == Merge(Flatten(files[..fi]))
      invariant seen == Keys(uniqueEntries)
    {
      var file := files[fi];
      assert Flatten(files[..fi]) + file[..0] == Flatten(files[..fi]);
      for li := 0 to |file|
        invariant uniqueEntries == Merge(Flatten(files[..fi]) + file[..li])
        invariant seen == Keys(uniqueEntries)
      {
        var before := Flatten(files[..fi]) + file[..li];
        assert Flatten(files[..fi]) + file[..li + 1] == before + [file[li]];
        var line := file[li];
        MergeStep(before, line);
        var key := KeyOf(line);
        if key.Some? {
          if key.value !in seen {
            KeysStep(uniqueEntries, line.value);
            seen := seen + {key.value};
            uniqueEntries := uniqueEntries + [line.value];
          }
        }
      }
      assert file[..|file|] == file;
      assert files[..fi + 1][..fi] == files[..fi];
    }
    assert files[..|files|] == files;
  }

  /** A key is among `Keys(objs)` exactly when some entry has it. */
  lemma {:induction false} KeysMembers(objs: seq<Json>, k: Key)
    ensures k in Keys(objs) <==> exists i :: 0 <= i < |objs| && KeyOfJson(objs[i]) == Some(k)
  {
    if objs != [] {
      var front := objs[..|objs| - 1];
      KeysMembers(front, k);
      if k in Keys(front) {
        var i :| 0 <= i < |front| && KeyOfJson(front[i]) == Some(k);
        assert objs[i] == front[i];
      }
      if i :| 0 <= i < |objs| && KeyOfJson(objs[i]) == Some(k) {
        if i < |front| {
          assert front[i] == objs[i];
        }
      }
    }
  }

  /** A key is among `ValidKeys(lines)` exactly when some line has it. */
  lemma {:induction false} ValidKeysMembers(lines: seq<Line>, k: Key)
    ensures k in ValidKeys(lines) <==> exists i :: 0 <= i < |lines| && KeyOf(lines[i]) == Some(k)
  {
    if lines != [] {
      var front := lines[..|lines| - 1];
      ValidKeysMembers(front, k);
      if k in ValidKeys(front) {
        var i :| 0 <= i < |front| && KeyOf(front[i]) == Some(k);
        assert lines[i] == front[i];
      }
      if i :| 0 <= i < |lines| && KeyOf(lines[i]) == Some(k) {
        if i < |front| {
          assert front[i] == lines[i];
        }
      }
    }
  }

  /** The merged keys are the keys of all lines that are not skipped: every
      key found is represented, and nothing else is. */
  lemma {:induction false} MergeKeys(lines: seq<Line>)
    ensures Keys(Merge(lines)) == ValidKeys(lines)
  {
    if lines != [] {
      var front := lines[..|lines| - 1];
      MergeKeys(front);
      var out := Merge(front);
      var line := lines[|lines| - 1];
      var key := KeyOf(line);
      if key.Some? && key.value !in Keys(out) {
        var out' := out + [line.value];
        assert out'[..|out'| - 1] == out;
      }
    }
  }

  /** Every entry has a key, and no two entries have the same key. */
  predicate DistinctKeys(objs: seq<Json>) {
    (forall i :: 0 <= i < |objs| ==> KeyOfJson(objs[i]).Some?) &&
    (forall i, j :: 0 <= i < j < |objs| ==> KeyOfJson(objs[i]) != KeyOfJson(objs[j]))
  }

  /** No two entries of the output share a key, and each has one. */
  lemma {:induction false} MergeDistinct(lines: seq<Line>)
    ensures DistinctKeys(Merge(lines))
  {
    if lines != [] {
      var front, line := lines[..|lines| - 1], lines[|lines| - 1];
      MergeDistinct(front);
      LastSplit(lines);
      MergeStep(front, line);
      var key := KeyOf(line);
      if key.Some? && key.value !in Keys(Merge(front)) {
        DistinctAppend(Merge(front), line.value);
      }
    }
  }

  /** Appending an entry whose key is new keeps the keys distinct. */
  lemma DistinctAppend(objs: seq<Json>, j: Json)
    requires DistinctKeys(objs) && KeyOfJson(j).Some? && KeyOfJson(j).value !in Keys(objs)
    ensures DistinctKeys(objs + [j])
  {
    KeysMembers(objs, KeyOfJson(j).value);
    assert forall i :: 0 <= i < |objs| ==> (objs + [j])[i] == objs[i];
  }

  /** The entries of the lines that are not skipped, in order, duplicates
      included. */
  function Objects(lines: seq<Line>): seq<Json> {
    if lines == [] then []
    else
      var front := Objects(lines[..|lines| - 1]);
      var line := lines[|lines| - 1];
      if KeyOf(line).Some? then front + [line.value] else front
  }

  /** The output keeps the input order: it is a subsequence of the entries
      that have a key. */
  lemma {:induction false} MergeSubsequence(lines: seq<Line>)
    ensures IsSubsequence(Merge(lines), Objects(lines))
  {
    if lines != [] {
      var front := lines[..|lines| - 1];
      MergeSubsequence(front);
      var line := lines[|lines| - 1];
      if KeyOf(line).Some? {
        SubsequenceExtend(Merge(front), Objects(front), line.value);
      }
    }
  }

  /** Line `j` is the first with its key. */
  predicate IsFirst(lines: seq<Line>, j: nat)
    requires j < |lines|
  {
    KeyOf(lines[j]).Some? && forall i :: 0 <= i < j ==> KeyOf(lines[i]) != KeyOf(lines[j])
  }

  /** The entries of the first `n` lines that are first with their key, in
      order: first-seen-wins stated without the `seen` set. */
  function Firsts(lines: seq<Line>, n: nat): seq<Json>
    requires n <= |lines|
  {
    if n == 0 then []
    else Firsts(lines, n - 1) + (if IsFirst(lines, n - 1) then [lines[n - 1].value] else [])
  }

  /** For each key, the entry kept is its first occurrence in the
      concatenated input, and only first occurrences are kept. */
  lemma {:induction false} MergeKeepsFirsts(lines: seq<Line>, n: nat)
    requires n <= |lines|
    ensures Merge(lines[..n]) == Firsts(lines, n)
  {
    if n > 0 {
      var prefix := lines[..n];
      var front := lines[..n - 1];
      assert prefix[..n - 1] == front;
      MergeKeepsFirsts(lines, n - 1);
      var line := lines[n - 1];
      var key := KeyOf(line);
      if key.Some? {
        MergeKeys(front);
        ValidKeysMembers(front, key.value);
        if key.value in Keys(Merge(front)) {
          var i :| 0 <= i < |front| && KeyOf(front[i]) == Some(key.value);
          assert KeyOf(lines[i]) == KeyOf(lines[n - 1]);
          assert !IsFirst(lines, n - 1);
        } else {
          forall i | 0 <= i < n - 1 ensures KeyOf(lines[i]) != KeyOf(lines[n - 1]) {
            assert front[i] == lines[i];
          }
          assert IsFirst(lines, n - 1);
        }
      }
    }
  }

  /** A skipped line leaves the output and `seen` as they were. */
  lemma SkippedLine(lines: seq<Line>, line: Line)
    requires KeyOf(line).None?
    ensures Merge(lines + [line]) == Merge(lines)
    ensures Keys(Merge(lines + [line])) == Keys(Merge(lines))
  {
    assert (lines + [line])[..|lines|] == lines;
  }

  /** The lines that `json.dumps` of each entry reads back as. */
  function AsLines(objs: seq<Json>): (r: seq<Line>)
    ensures |r| == |objs|
    ensures forall i :: 0 <= i < |objs| ==> r[i] == Parsed(objs[i])
  {
    seq(|objs|, i requires 0 <= i < |objs| => Parsed(objs[i]))
  }

  /** Entries with distinct keys come through a merge untouched. */
  lemma {:induction false} MergeDistinctIdentity(objs: seq<Json>)
    requires DistinctKeys(objs)
    ensures Merge(AsLines(objs)) == objs
  {
    if objs != [] {
      var front, last := objs[..|objs| - 1], objs[|objs| - 1];
      DistinctFront(objs);
      MergeDistinctIdentity(front);
      AsLinesStep(objs);
      MergeStep(AsLines(front), Parsed(last));
      LastSplit(objs);
    }
  }

  /** The lines of a list are those of its front and one more. */
  lemma AsLinesStep(objs: seq<Json>)
    requires objs != []
    ensures AsLines(objs) == AsLines(objs[..|objs| - 1]) + [Parsed(objs[|objs| - 1])]
  {
  }

  /** Without its last entry, a list of distinct keys still has distinct
      keys, none of them the last entry's. */
  lemma DistinctFront(objs: seq<Json>)
    requires objs != [] && DistinctKeys(objs)
    ensures DistinctKeys(objs[..|objs| - 1])
    ensures KeyOfJson(objs[|objs| - 1]).Some? && KeyOfJson(objs[|objs| - 1]).value !in Keys(objs[..|objs| - 1])
  {
    var front, key := objs[..|objs| - 1], KeyOfJson(objs[|objs| - 1]);
    assert forall i :: 0 <= i < |front| ==> front[i] == objs[i];
    KeysMembers(front, key.value);
  }

  /** One more line: it is appended exactly when it has a key not yet kept. */
  lemma MergeStep(lines: seq<Line>, line: Line)
    ensures var key := KeyOf(line);
      Merge(lines + [line]) ==
        if key.None? || key.value in Keys(Merge(lines)) then Merge(lines) else Merge(lines) + [line.value]
  {
    assert (lines + [line])[..|lines|] == lines;
  }

  /** `seen.add(key)` alongside the append keeps `seen` the keys of the entries. */
  lemma KeysStep(objs: seq<Json>, j: Json)
    requires KeyOfJson(j).Some?
    ensures Keys(objs + [j]) == Keys(objs) + {KeyOfJson(j).value}
  {
    assert (objs + [j])[..|objs|] == objs;
  }

  /** Merging the merged output again gives the same output. */
  lemma MergeIdempotent(lines: seq<Line>)
    ensures Merge(AsLines(Merge(lines))) == Merge(lines)
  {
    MergeDistinct(lines);
    MergeDistinctIdentity(Merge(lines));
  }
}
