/** The string operations of Python that the core relies on, over ASCII:
    `str.lower`, the whitespace set of `str.split` and `str.strip`, the word
    characters of a regular expression's `\w`, `str.split()`, `' '.join`,
    `str.strip()`, `str.find` and the substring test `sub in s`. */
module Text {

  /** The ASCII upper-case letters, the only characters `str.lower` changes here. */
  predicate IsUpper(c: char) {
    'A' <= c <= 'Z'
  }

  function LowerChar(c: char): (r: char)
    ensures !IsUpper(r)
    ensures !IsUpper(c) ==> r == c
    ensures IsUpper(c) ==> r as int == c as int + 32
  {
    if IsUpper(c) then (c as int + 32) as char else c
  }

  /** Python's `str.lower()` on ASCII text. */
  function Lower(s: string): (r: string)
    ensures |r| == |s|
    ensures forall i :: 0 <= i < |s| ==> r[i] == LowerChar(s[i])
  {
    seq(|s|, i requires 0 <= i < |s| => LowerChar(s[i]))
  }

  /** Lower-casing works character by character, so it splits over a
      concatenation. */
  lemma LowerConcat(s: string, t: string)
    ensures Lower(s + t) == Lower(s) + Lower(t)
  {
  }

  /** Text without upper-case letters is its own lower-case form. */
  lemma LowerIdentity(s: string)
    requires forall i :: 0 <= i < |s| ==> !IsUpper(s[i])
    ensures Lower(s) == s
  {
  }

  /** The ASCII characters Python's `str.isspace` accepts: tab, line feed,
      vertical tab, form feed, carriage return, the four separators
      0x1C to 0x1F, and the space. */
  predicate IsSpace(c: char) {
    9 <= c as int <= 13 || 28 <= c as int <= 32
  }

  predicate IsNonSpace(c: char) {
    !IsSpace(c)
  }

  /** The ASCII characters of a regular expression's `\w`. */
  predicate IsWordChar(c: char) {
    'a' <= c <= 'z' || 'A' <= c <= 'Z' || '0' <= c <= '9' || c == '_'
  }

  /** The length of the longest prefix of `s` whose characters satisfy `p`. */
  function RunLength(s: string, p: char -> bool): (k: nat)
    ensures k <= |s|
    ensures forall i :: 0 <= i < k ==> p(s[i])
    ensures k < |s| ==> !p(s[k])
  {
    if s == [] || !p(s[0]) then 0 else 1 + RunLength(s[1..], p)
  }

  /** A prefix of length `k` whose characters satisfy `p`, followed by the end
      or by a character that does not, is the run `RunLength` measures. */
  lemma RunLengthIs(s: string, p: char -> bool, k: nat)
    requires k <= |s|
    requires forall i :: 0 <= i < k ==> p(s[i])
    requires k < |s| ==> !p(s[k])
    ensures RunLength(s, p) == k
  {
  }

  /** A run inside `a` is unaffected by what follows `a`; a run filling all of
      `a` ends with `a` when `b` does not continue it. */
  lemma RunLengthConcat(a: string, b: string, p: char -> bool)
    ensures RunLength(a, p) < |a| ==> RunLength(a + b, p) == RunLength(a, p)
    ensures RunLength(a, p) == |a| && (b == [] || !p(b[0])) ==> RunLength(a + b, p) == |a|
  {
    var k := RunLength(a, p);
    assert forall i :: 0 <= i < |a| ==> (a + b)[i] == a[i];
    if k < |a| {
      RunLengthIs(a + b, p, k);
    } else if b == [] || !p(b[0]) {
      RunLengthIs(a + b, p, k);
    }
  }

  /** What `str.split()` yields: a non-empty run without whitespace. */
  predicate IsToken(w: string) {
    |w| > 0 && forall i :: 0 <= i < |w| ==> !IsSpace(w[i])
  }

  /** Python's `s.split()` with no separator: the maximal runs of
      non-whitespace characters, in order. */
  function Split(s: string): (ws: seq<string>)
    ensures forall w :: w in ws ==> IsToken(w)
    decreases |s|
  {
    if s == [] then []
    else if IsSpace(s[0]) then Split(s[1..])
    else
      var k := RunLength(s, IsNonSpace);
      [s[..k]] + Split(s[k..])
  }

  /** A single token splits into itself. */
  lemma SplitToken(w: string)
    requires IsToken(w)
    ensures Split(w) == [w]
  {
    RunLengthIs(w, IsNonSpace, |w|);
    assert w[..|w|] == w && w[|w|..] == [];
  }

  /** A whitespace character separates: the text on each side of it splits
      on its own, and the two token lists follow each other. */
  lemma {:induction false} SplitAtSpace(a: string, c: char, b: string)
    requires IsSpace(c)
    ensures Split(a + [c] + b) == Split(a) + Split(b)
    decreases |a|
  {
    var t := a + [c] + b;
    if a == [] {
      assert t[1..] == b;
    } else if IsSpace(a[0]) {
      assert t[0] == a[0];
      assert t[1..] == a[1..] + [c] + b;
      SplitAtSpace(a[1..], c, b);
    } else {
      var k := RunLength(a, IsNonSpace);
      RunLengthConcat(a, [c] + b, IsNonSpace);
      assert t == a + ([c] + b);
      assert t[0] == a[0];
      if k < |a| {
        assert t[..k] == a[..k];
        assert t[k..] == a[k..] + [c] + b;
        SplitAtSpace(a[k..], c, b);
      } else {
        assert t[..k] == a;
        assert t[k..] == [c] + b;
        assert ([c] + b)[1..] == b;
        assert Split([c] + b) == Split(b);
        assert a[..k] == a && a[k..] == [];
        assert Split(a) == [a];
        assert Split(t) == [a] + Split([c] + b);
      }
    }
  }

  /** Python's `' '.join(ws)`. */
  function Join(ws: seq<string>): string {
    if ws == [] then []
    else if |ws| == 1 then ws[0]
    else ws[0] + " " + Join(ws[1..])
  }

  /** Joining tokens with single spaces and splitting again gives the tokens back. */
  lemma {:induction false} SplitJoin(ws: seq<string>)
    requires forall w :: w in ws ==> IsToken(w)
    ensures Split(Join(ws)) == ws
  {
    if |ws| == 1 {
      SplitToken(ws[0]);
    } else if |ws| > 1 {
      var w, rest := ws[0], ws[1..];
      assert forall v :: v in rest ==> v in ws;
      assert Join(ws) == w + [' '] + Join(rest);
      SplitAtSpace(w, ' ', Join(rest));
      SplitToken(w);
      SplitJoin(rest);
    }
  }

  /** Every character of a split lies in the text that was split. */
  lemma {:induction false} SplitChars(s: string, P: char -> bool)
    requires forall i :: 0 <= i < |s| ==> P(s[i])
    ensures forall w, i :: w in Split(s) && 0 <= i < |w| ==> P(w[i])
    decreases |s|
  {
    if s == [] {
    } else if IsSpace(s[0]) {
      SplitChars(s[1..], P);
    } else {
      var k := RunLength(s, IsNonSpace);
      SplitChars(s[k..], P);
      assert Split(s) == [s[..k]] + Split(s[k..]);
    }
  }

  /** Every character of a join is a space or a character of one of the parts. */
  lemma {:induction false} JoinChars(ws: seq<string>, P: char -> bool)
    requires P(' ')
    requires forall w, i :: w in ws && 0 <= i < |w| ==> P(w[i])
    ensures forall i :: 0 <= i < |Join(ws)| ==> P(Join(ws)[i])
  {
    if |ws| > 1 {
      assert forall v :: v in ws[1..] ==> v in ws;
      JoinChars(ws[1..], P);
      var j := Join(ws);
      assert j == ws[0] + " " + Join(ws[1..]);
      forall i | 0 <= i < |j| ensures P(j[i]) {
        if i < |ws[0]| {
          assert j[i] == ws[0][i];
        } else if i > |ws[0]| {
          assert j[i] == Join(ws[1..])[i - |ws[0]| - 1];
        }
      }
    }
  }

  /** The spacing of a join of tokens: it is empty exactly when there are no
      tokens; otherwise it begins and ends with a non-space, and every
      whitespace character in it is a single space between two non-spaces. */
  lemma {:induction false} JoinShape(ws: seq<string>)
    requires forall w :: w in ws ==> IsToken(w)
    ensures var j := Join(ws);
      (j == [] <==> ws == []) &&
      (j != [] ==> !IsSpace(j[0]) && !IsSpace(j[|j| - 1])) &&
      forall i :: 0 <= i < |j| && IsSpace(j[i]) ==>
        j[i] == ' ' && 0 < i < |j| - 1 && !IsSpace(j[i - 1]) && !IsSpace(j[i + 1])
  {
    if |ws| == 1 {
      assert IsToken(ws[0]);
    } else if |ws| > 1 {
      var w, rest := ws[0], ws[1..];
      assert IsToken(w);
      assert forall v :: v in rest ==> v in ws;
      JoinShape(rest);
      var r := Join(rest);
      var j := Join(ws);
      assert j == w + " " + r;
      assert forall i :: 0 <= i < |w| ==> j[i] == w[i];
      forall i | 0 <= i < |j| && IsSpace(j[i])
        ensures j[i] == ' ' && 0 < i < |j| - 1 && !IsSpace(j[i - 1]) && !IsSpace(j[i + 1])
      {
        if i == |w| {
          assert j[i - 1] == w[|w| - 1];
          assert j[i + 1] == r[0];
        } else if i > |w| {
          assert j[i] == r[i - |w| - 1];
          assert j[i - 1] == (if i - 1 == |w| then ' ' else r[i - |w| - 2]);
          assert j[i + 1] == r[i - |w|];
        }
      }
      assert j[|j| - 1] == r[|r| - 1];
    }
  }

  /** Python's `str.strip()` with no argument: leading and trailing whitespace
      removed. `StripSlice` says which slice of `s` it keeps. */
  function Strip(s: string): (r: string)
    ensures r == [] || (!IsSpace(r[0]) && !IsSpace(r[|r| - 1]))
    ensures (forall i :: 0 <= i < |s| ==> !IsSpace(s[i])) ==> r == s
    ensures forall i :: 0 <= i < |r| ==> r[i] in s
  {
    StripEnd(s[RunLength(s, IsSpace)..])
  }

  /** `Strip` keeps the slice of `s` that starts after the leading whitespace
      run, and only whitespace lies outside that slice. */
  lemma StripSlice(s: string)
    ensures var r, i := Strip(s), RunLength(s, IsSpace);
      i + |r| <= |s| && r == s[i..i + |r|] &&
      (forall k :: 0 <= k < i ==> IsSpace(s[k])) && (forall k :: i + |r| <= k < |s| ==> IsSpace(s[k]))
  {
    var lead := RunLength(s, IsSpace);
    TrailingSlice(s, lead, s[lead..], Strip(s));
  }

  /** A prefix `r` of `t == s[lead..]` followed in `t` by whitespace only is
      the slice of `s` at `lead`, followed in `s` by whitespace only. */
  lemma TrailingSlice(s: string, lead: nat, t: string, r: string)
    requires lead <= |s| && t == s[lead..]
    requires |r| <= |t| && r == t[..|r|]
    requires forall k :: |r| <= k < |t| ==> IsSpace(t[k])
    ensures lead + |r| <= |s| && r == s[lead..lead + |r|]
    ensures forall k :: lead + |r| <= k < |s| ==> IsSpace(s[k])
  {
    forall k | lead + |r| <= k < |s|
      ensures IsSpace(s[k])
    {
      assert s[k] == t[k - lead];
    }
  }

  /** Python's `str.rstrip()` with no argument. */
  function StripEnd(s: string): (r: string)
    ensures r == [] || !IsSpace(r[|r| - 1])
    ensures (forall i :: 0 <= i < |s| ==> !IsSpace(s[i])) ==> r == s
    ensures forall i :: 0 <= i < |r| ==> r[i] in s
    ensures |r| <= |s| && r == s[..|r|]
    ensures forall k :: |r| <= k < |s| ==> IsSpace(s[k])
  {
    if s == [] || !IsSpace(s[|s| - 1]) then s
    else
      var front := s[..|s| - 1];
      var r := StripEnd(front);
      assert forall i :: 0 <= i < |r| ==> r[i] in front ==> r[i] in s;
      r
  }

  /** `sub` occurs in `s` at position `i`. */
  predicate OccursAt(s: string, sub: string, i: int) {
    0 <= i && i + |sub| <= |s| && s[i..i + |sub|] == sub
  }

  /** Python's `s.find(sub)`: the least position at which `sub` occurs in `s`,
      or -1 when it does not occur. */
  function Find(s: string, sub: string): (r: int)
    ensures r == -1 || OccursAt(s, sub, r)
    ensures r == -1 <==> forall i :: !OccursAt(s, sub, i)
    ensures forall i :: 0 <= i < r ==> !OccursAt(s, sub, i)
  {
    FindFrom(s, sub, 0)
  }

  /** The least position from `start` on at which `sub` occurs, or -1. */
  function FindFrom(s: string, sub: string, start: nat): (r: int)
    ensures r == -1 || (start <= r && OccursAt(s, sub, r))
    ensures r == -1 <==> forall i :: start <= i ==> !OccursAt(s, sub, i)
    ensures forall i :: start <= i < r ==> !OccursAt(s, sub, i)
    decreases |s| - start
  {
    if start + |sub| > |s| then -1
    else if s[start..start + |sub|] == sub then start
    else FindFrom(s, sub, start + 1)
  }

  /** Python's substring test `sub in s`. */
  predicate Contains(s: string, sub: string)
    ensures Contains(s, sub) <==> exists i :: OccursAt(s, sub, i)
  {
    Find(s, sub) != -1
  }
}
