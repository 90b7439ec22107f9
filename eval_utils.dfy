/** The SQuAD v1.1 answer normalisation and its two scores, exact match and
    token-overlap F1, of `src/eval_utils.py`. */
module EvalUtils {
  import opened Seqs
  import opened Text

  /** Python's `string.punctuation`: the 32 ASCII punctuation characters. */
  const Punctuation: string := "!\"#$%&'()*+,-./:;<=>?@[\\]^_`{|}~"

  predicate IsPunct(c: char) {
    c in Punctuation
  }

  /** Text with neither punctuation nor upper-case letters. */
  predicate IsClean(s: string) {
    forall i :: 0 <= i < |s| ==> !IsPunct(s[i]) && !IsUpper(s[i])
  }

  /** `remove_punc`: every punctuation character dropped, the rest kept
      (`RemovePuncExact` says in order, each as often as it occurs). */
  function RemovePunc(s: string): (r: string)
    ensures forall i :: 0 <= i < |r| ==> !IsPunct(r[i]) && r[i] in s
    ensures (forall i :: 0 <= i < |s| ==> !IsPunct(s[i])) ==> r == s
  {
    if s == [] then []
    else
      var front, last := s[..|s| - 1], s[|s| - 1];
      var rest := RemovePunc(front);
      assert s == front + [last];
      assert forall i :: 0 <= i < |rest| ==> rest[i] in front ==> rest[i] in s;
      rest + (if IsPunct(last) then [] else [last])
  }

  /** `remove_punc` keeps the characters that are not punctuation in their
      order, each as often as the text has it. */
  lemma RemovePuncExact(s: string)
    ensures IsSubsequence(RemovePunc(s), s)
    ensures forall c :: !IsPunct(c) ==> multiset(RemovePunc(s))[c] == multiset(s)[c]
  {
    RemovePuncOrder(s);
    RemovePuncCounts(s);
  }

  lemma {:induction false} RemovePuncOrder(s: string)
    ensures IsSubsequence(RemovePunc(s), s)
  {
    if s != [] {
      var front, last := s[..|s| - 1], s[|s| - 1];
      var r := RemovePunc(front);
      RemovePuncOrder(front);
      RemovePuncStep(s);
      SubsequenceExtend(r, front, last);
      if IsPunct(last) {
        assert RemovePunc(s) == r;
      } else {
        assert RemovePunc(s) == r + [last];
      }
    }
  }

  lemma {:induction false} RemovePuncCounts(s: string)
    ensures forall c :: !IsPunct(c) ==> multiset(RemovePunc(s))[c] == multiset(s)[c]
  {
    if s != [] {
      var front, last := s[..|s| - 1], s[|s| - 1];
      RemovePuncCounts(front);
      RemovePuncStep(s);
      assert multiset(s) == multiset(front) + multiset{last};
    }
  }

  /** One more character at the end is kept unless it is punctuation. */
  lemma RemovePuncStep(s: string)
    requires s != []
    ensures var front, last := s[..|s| - 1], s[|s| - 1];
      s == front + [last] &&
      RemovePunc(s) == RemovePunc(front) + (if IsPunct(last) then [] else [last])
  {
  }

  /** The three words `remove_articles` deletes. */
  predicate IsArticle(w: string) {
    w == "a" || w == "an" || w == "the"
  }

  /** `remove_articles`, i.e. `re.sub(r'\b(a|an|the)\b', ' ', text)`. A match of
      that pattern is exactly a maximal run of word characters spelling an
      article (the alternation falls back from `a` to `an` when `\b` fails),
      so the text is scanned one word run at a time and each article run
      becomes a single space. */
  function RemoveArticles(s: string): (r: string)
    ensures s == [] || !IsWordChar(s[0]) ==> r == [] || !IsWordChar(r[0])
    decreases |s|
  {
    if s == [] then []
    else if IsWordChar(s[0]) then
      var k := RunLength(s, IsWordChar);
      var rest := RemoveArticles(s[k..]);
      (if IsArticle(s[..k]) then " " else s[..k]) + rest
    else
      var rest := RemoveArticles(s[1..]);
      [s[0]] + rest
  }

  /** `white_space_fix`: `' '.join(text.split())`. */
  function WhiteSpaceFix(s: string): string {
    Join(Split(s))
  }

  /** `normalize_answer`: lower-case, drop punctuation, replace articles by a
      space, collapse whitespace, in that order. */
  function NormalizeAnswer(s: string): string {
    WhiteSpaceFix(RemoveArticles(RemovePunc(Lower(s))))
  }

  /** No maximal run of word characters in `s` spells an article: the texts
      on which `remove_articles` has nothing to do. */
  predicate NoArticles(s: string)
    decreases |s|
  {
    if s == [] then true
    else if IsWordChar(s[0]) then
      var k := RunLength(s, IsWordChar);
      !IsArticle(s[..k]) && NoArticles(s[k..])
    else NoArticles(s[1..])
  }

  /** Two texts whose concatenation cannot join a word run of one to a word
      run of the other. */
  predicate Separated(a: string, b: string) {
    a == [] || b == [] || !IsWordChar(a[|a| - 1]) || !IsWordChar(b[0])
  }

  lemma SpaceIsNotWordChar(c: char)
    requires IsSpace(c)
    ensures !IsWordChar(c)
  {
  }

  /** Across a separated boundary, a concatenation is free of articles exactly
      when both parts are. */
  lemma {:induction false} NoArticlesConcat(a: string, b: string)
    requires Separated(a, b)
    ensures NoArticles(a + b) <==> NoArticles(a) && NoArticles(b)
    decreases |a|, 1
  {
    if a == [] {
      assert a + b == b;
    } else if IsWordChar(a[0]) {
      NoArticlesConcatRun(a, b);
    } else {
      assert (a + b)[0] == a[0];
      assert (a + b)[1..] == a[1..] + b;
      NoArticlesConcat(a[1..], b);
    }
  }

  /** The case of `NoArticlesConcat` where `a` starts with a word run. */
  lemma {:induction false} NoArticlesConcatRun(a: string, b: string)
    requires Separated(a, b) && a != [] && IsWordChar(a[0])
    ensures NoArticles(a + b) <==> NoArticles(a) && NoArticles(b)
    decreases |a|, 0
  {
    var k := RunLength(a, IsWordChar);
    RunLengthConcat(a, b, IsWordChar);
    assert (a + b)[0] == a[0];
    if k < |a| {
      assert (a + b)[..k] == a[..k];
      assert (a + b)[k..] == a[k..] + b;
      NoArticlesConcat(a[k..], b);
    } else {
      assert (a + b)[..k] == a;
      assert (a + b)[k..] == b;
      assert a[k..] == [];
    }
  }

  /** A single run of word characters becomes one space when it spells an
      article, and is kept otherwise. */
  lemma RemoveArticlesWord(w: string)
    requires |w| > 0 && forall i :: 0 <= i < |w| ==> IsWordChar(w[i])
    ensures RemoveArticles(w) == if IsArticle(w) then " " else w
  {
    RunLengthIs(w, IsWordChar, |w|);
    assert w[..|w|] == w && w[|w|..] == [];
  }

  /** A character that is not a word character is kept. */
  lemma RemoveArticlesOther(c: char)
    requires !IsWordChar(c)
    ensures RemoveArticles([c]) == [c]
  {
    assert [c][1..] == [];
  }

  /** Across a separated boundary `remove_articles` works on each part on its
      own: together with the two lemmas above this fixes its result on every
      text, one word run or other character at a time. */
  lemma {:induction false} RemoveArticlesConcat(a: string, b: string)
    requires Separated(a, b)
    ensures RemoveArticles(a + b) == RemoveArticles(a) + RemoveArticles(b)
    decreases |a|, 1
  {
    if a == [] {
      assert a + b == b;
    } else if IsWordChar(a[0]) {
      RemoveArticlesConcatRun(a, b);
    } else {
      assert a[1..] == [] || a[1..][|a[1..]| - 1] == a[|a| - 1];
      RemoveArticlesConcat(a[1..], b);
      OtherThen(a, b);
    }
  }

  /** A leading character that is not a word character is kept in front of
      the rest, with or without `b`. */
  lemma OtherThen(a: string, b: string)
    requires a != [] && !IsWordChar(a[0])
    requires RemoveArticles(a[1..] + b) == RemoveArticles(a[1..]) + RemoveArticles(b)
    ensures RemoveArticles(a + b) == RemoveArticles(a) + RemoveArticles(b)
  {
    OtherFirst(a, b);
  }

  /** `remove_articles` keeps a leading character that is not a word
      character, on `a` and on `a + b`. */
  lemma OtherFirst(a: string, b: string)
    requires a != [] && !IsWordChar(a[0])
    ensures RemoveArticles(a) == [a[0]] + RemoveArticles(a[1..])
    ensures RemoveArticles(a + b) == [a[0]] + RemoveArticles(a[1..] + b)
  {
    assert (a + b)[0] == a[0] && (a + b)[1..] == a[1..] + b;
  }

  /** The case of `RemoveArticlesConcat` where `a` starts with a word run. */
  lemma {:induction false} RemoveArticlesConcatRun(a: string, b: string)
    requires Separated(a, b) && a != [] && IsWordChar(a[0])
    ensures RemoveArticles(a + b) == RemoveArticles(a) + RemoveArticles(b)
    decreases |a|, 0
  {
    var k := RunLength(a, IsWordChar);
    if k < |a| {
      assert a[k..][|a[k..]| - 1] == a[|a| - 1];
      RemoveArticlesConcat(a[k..], b);
      FirstRunThen(a, b, k);
    } else {
      WholeRunThen(a, b);
    }
  }

  /** A first word run that ends inside `a` is the first word run of `a + b`. */
  lemma FirstRunThen(a: string, b: string, k: nat)
    requires a != [] && IsWordChar(a[0]) && k == RunLength(a, IsWordChar) && k < |a|
    requires RemoveArticles(a[k..] + b) == RemoveArticles(a[k..]) + RemoveArticles(b)
    ensures RemoveArticles(a + b) == RemoveArticles(a) + RemoveArticles(b)
  {
    FirstRun(a, b, k);
  }

  /** The first word run of `a`, when it ends inside `a`, is the first word run
      of `a + b` as well, and `remove_articles` treats it the same in both. */
  lemma FirstRun(a: string, b: string, k: nat)
    requires a != [] && IsWordChar(a[0]) && k == RunLength(a, IsWordChar) && k < |a|
    ensures var chunk := if IsArticle(a[..k]) then " " else a[..k];
      RemoveArticles(a) == chunk + RemoveArticles(a[k..]) &&
      RemoveArticles(a + b) == chunk + RemoveArticles(a[k..] + b)
  {
    var t := a + b;
    assert t[0] == a[0];
    RunLengthConcat(a, b, IsWordChar);
    var w, rest := a[..k], a[k..];
    assert t[..k] == w && t[k..] == rest + b;
    RunStepAt(a, k, w, rest);
    RunStepAt(t, k, w, rest + b);
  }

  /** `RunStep` with the run and the remainder named. */
  lemma RunStepAt(s: string, k: nat, w: string, rest: string)
    requires s != [] && IsWordChar(s[0]) && k == RunLength(s, IsWordChar)
    requires w == s[..k] && rest == s[k..]
    ensures RemoveArticles(s) == (if IsArticle(w) then " " else w) + RemoveArticles(rest)
  {
    RunStep(s);
  }

  /** A text that is one word run, followed by text that does not continue it. */
  lemma WholeRunThen(a: string, b: string)
    requires a != [] && IsWordChar(a[0]) && RunLength(a, IsWordChar) == |a|
    requires b == [] || !IsWordChar(b[0])
    ensures RemoveArticles(a + b) == RemoveArticles(a) + RemoveArticles(b)
  {
    RunLengthConcat(a, b, IsWordChar);
    assert (a + b)[0] == a[0];
    RunStep(a + b);
    RemoveArticlesWord(a);
    assert (a + b)[..|a|] == a;
    assert (a + b)[|a|..] == b;
  }

  /** `remove_articles` on a text that starts with a word run. */
  lemma RunStep(s: string)
    requires s != [] && IsWordChar(s[0])
    ensures var k := RunLength(s, IsWordChar);
      RemoveArticles(s) == (if IsArticle(s[..k]) then " " else s[..k]) + RemoveArticles(s[k..])
  {
  }

  /** A run of word characters that is not an article is free of articles. */
  lemma WordRunNoArticles(w: string)
    requires |w| > 0 && forall i :: 0 <= i < |w| ==> IsWordChar(w[i])
    requires !IsArticle(w)
    ensures NoArticles(w)
  {
    RunLengthIs(w, IsWordChar, |w|);
    assert w[..|w|] == w && w[|w|..] == [];
  }

  /** After `remove_articles` no article is left: replacing an article run by
      a space never creates a new one. */
  lemma {:induction false} RemoveArticlesComplete(s: string)
    ensures NoArticles(RemoveArticles(s))
    decreases |s|
  {
    if s == [] {
    } else if IsWordChar(s[0]) {
      var k := RunLength(s, IsWordChar);
      var chunk := if IsArticle(s[..k]) then " " else s[..k];
      var rest := RemoveArticles(s[k..]);
      RemoveArticlesComplete(s[k..]);
      assert RemoveArticles(s) == chunk + rest;
      if IsArticle(s[..k]) {
        assert NoArticles(chunk) by { assert chunk[1..] == []; }
      } else {
        WordRunNoArticles(s[..k]);
      }
      NoArticlesConcat(chunk, rest);
    } else {
      var rest := RemoveArticles(s[1..]);
      RemoveArticlesComplete(s[1..]);
      assert RemoveArticles(s) == [s[0]] + rest;
      assert NoArticles([s[0]]) by { assert [s[0]][1..] == []; }
      NoArticlesConcat([s[0]], rest);
    }
  }

  /** `remove_articles` leaves a text without articles unchanged. */
  lemma {:induction false} RemoveArticlesIdentity(s: string)
    requires NoArticles(s)
    ensures RemoveArticles(s) == s
    decreases |s|, 1
  {
    if s == [] {
    } else if IsWordChar(s[0]) {
      RemoveArticlesIdentityRun(s);
    } else {
      assert NoArticles(s[1..]);
      assert RemoveArticles(s) == [s[0]] + RemoveArticles(s[1..]);
      RemoveArticlesIdentity(s[1..]);
      assert [s[0]] + s[1..] == s;
    }
  }

  /** The case of `RemoveArticlesIdentity` where `s` starts with a word run. */
  lemma {:induction false} RemoveArticlesIdentityRun(s: string)
    requires NoArticles(s) && s != [] && IsWordChar(s[0])
    ensures RemoveArticles(s) == s
    decreases |s|, 0
  {
    var k := RunLength(s, IsWordChar);
    WordRunKept(s);
    RemoveArticlesIdentity(s[k..]);
    assert s[..k] + s[k..] == s;
  }

  /** A leading word run that is not an article is kept as it is. */
  lemma WordRunKept(s: string)
    requires s != [] && IsWordChar(s[0]) && NoArticles(s)
    ensures var k := RunLength(s, IsWordChar);
      NoArticles(s[k..]) && RemoveArticles(s) == s[..k] + RemoveArticles(s[k..])
  {
    WordRunStep(s);
  }

  /** How both definitions treat a leading word run. */
  lemma WordRunStep(s: string)
    requires s != [] && IsWordChar(s[0])
    ensures var k := RunLength(s, IsWordChar);
      0 < k <= |s| &&
      (NoArticles(s) <==> !IsArticle(s[..k]) && NoArticles(s[k..])) &&
      RemoveArticles(s) == (if IsArticle(s[..k]) then " " else s[..k]) + RemoveArticles(s[k..])
  {
  }

  /** Splitting on whitespace never merges or cuts a word run, so the tokens of
      a text without articles are free of articles. */
  lemma {:induction false} SplitNoArticles(s: string)
    requires NoArticles(s)
    ensures forall w :: w in Split(s) ==> NoArticles(w)
    decreases |s|
  {
    if s == [] {
    } else if IsSpace(s[0]) {
      SpaceIsNotWordChar(s[0]);
      assert s == [s[0]] + s[1..];
      NoArticlesConcat([s[0]], s[1..]);
      SplitNoArticles(s[1..]);
    } else {
      var k := RunLength(s, IsNonSpace);
      assert s == s[..k] + s[k..];
      if k < |s| {
        SpaceIsNotWordChar(s[k]);
      }
      NoArticlesConcat(s[..k], s[k..]);
      SplitNoArticles(s[k..]);
    }
  }

  /** Joining article-free tokens with single spaces keeps them article-free. */
  lemma {:induction false} JoinNoArticles(ws: seq<string>)
    requires forall w :: w in ws ==> NoArticles(w)
    ensures NoArticles(Join(ws))
  {
    if |ws| > 1 {
      assert forall v :: v in ws[1..] ==> v in ws;
      JoinNoArticles(ws[1..]);
      var j := Join(ws[1..]);
      assert NoArticles(" ") by { assert " "[1..] == []; }
      NoArticlesConcat(" ", j);
      assert ws[0] in ws;
      NoArticlesConcat(ws[0], " " + j);
      assert Join(ws) == ws[0] + (" " + j);
    } else if |ws| == 1 {
      assert ws[0] in ws;
    }
  }

  /** The clean characters: neither punctuation nor upper-case. */
  predicate IsCleanChar(c: char) {
    !IsPunct(c) && !IsUpper(c)
  }

  /** `white_space_fix` keeps a clean text clean and an article-free text
      article-free. */
  lemma WhiteSpaceFixPreserves(s: string)
    ensures IsClean(s) ==> IsClean(WhiteSpaceFix(s))
    ensures NoArticles(s) ==> NoArticles(WhiteSpaceFix(s))
  {
    if IsClean(s) {
      SpaceIsClean();
      SplitChars(s, IsCleanChar);
      JoinChars(Split(s), IsCleanChar);
    }
    if NoArticles(s) {
      SplitNoArticles(s);
      JoinNoArticles(Split(s));
    }
  }

  /** Lower-casing and dropping punctuation leave a clean text. */
  lemma LowerRemovePuncClean(s: string)
    ensures IsClean(RemovePunc(Lower(s)))
  {
    var low := Lower(s);
    var p := RemovePunc(low);
    forall i | 0 <= i < |p| ensures !IsUpper(p[i]) {
      var j :| 0 <= j < |low| && low[j] == p[i];
    }
  }

  /** `remove_articles` keeps a clean text clean: it only adds spaces. */
  lemma {:induction false} RemoveArticlesClean(s: string)
    requires IsClean(s)
    ensures IsClean(RemoveArticles(s))
    decreases |s|, 1
  {
    if s == [] {
    } else if IsWordChar(s[0]) {
      RemoveArticlesCleanRun(s);
    } else {
      assert IsClean(s[1..]);
      RemoveArticlesClean(s[1..]);
      CleanConcat([s[0]], RemoveArticles(s[1..]));
    }
  }

  /** The case of `RemoveArticlesClean` where `s` starts with a word run. */
  lemma {:induction false} RemoveArticlesCleanRun(s: string)
    requires IsClean(s) && s != [] && IsWordChar(s[0])
    ensures IsClean(RemoveArticles(s))
    decreases |s|, 0
  {
    var k := RunLength(s, IsWordChar);
    WordRunStep(s);
    assert IsClean(s[..k]) && IsClean(s[k..]);
    RemoveArticlesClean(s[k..]);
    SpaceIsClean();
    CleanConcat(if IsArticle(s[..k]) then " " else s[..k], RemoveArticles(s[k..]));
  }

  /** A space is neither punctuation nor upper case. */
  lemma SpaceIsClean()
    ensures IsCleanChar(' ') && IsClean(" ")
  {
    assert ' ' !in Punctuation;
  }

  /** Clean texts concatenate to a clean text. */
  lemma CleanConcat(a: string, b: string)
    requires IsClean(a) && IsClean(b)
    ensures IsClean(a + b)
  {
    assert forall i :: 0 <= i < |a + b| ==> (a + b)[i] == if i < |a| then a[i] else b[i - |a|];
  }

  /** The text `white_space_fix` receives inside `normalize_answer` is clean
      and free of articles. */
  lemma BeforeWhiteSpaceFix(s: string)
    ensures IsClean(RemoveArticles(RemovePunc(Lower(s))))
    ensures NoArticles(RemoveArticles(RemovePunc(Lower(s))))
  {
    LowerRemovePuncClean(s);
    RemoveArticlesClean(RemovePunc(Lower(s)));
    RemoveArticlesComplete(RemovePunc(Lower(s)));
  }

  /** The shape of every normalised answer: no punctuation, no upper-case
      letter, no article among its word runs, no whitespace at either end,
      and every whitespace character a single space between two
      non-spaces. */
  lemma NormalizeAnswerShape(s: string)
    ensures var n := NormalizeAnswer(s);
      IsClean(n) && NoArticles(n) &&
      (n == [] || (!IsSpace(n[0]) && !IsSpace(n[|n| - 1]))) &&
      forall i :: 0 <= i < |n| && IsSpace(n[i]) ==>
        n[i] == ' ' && 0 < i < |n| - 1 && !IsSpace(n[i - 1]) && !IsSpace(n[i + 1])
  {
    var y := RemoveArticles(RemovePunc(Lower(s)));
    BeforeWhiteSpaceFix(s);
    WhiteSpaceFixPreserves(y);
    JoinShape(Split(y));
  }

  /** `normalize_answer` is idempotent. */
  lemma NormalizeAnswerIdempotent(s: string)
    ensures NormalizeAnswer(NormalizeAnswer(s)) == NormalizeAnswer(s)
  {
    var y := RemoveArticles(RemovePunc(Lower(s)));
    var n := NormalizeAnswer(s);
    BeforeWhiteSpaceFix(s);
    WhiteSpaceFixPreserves(y);
    LowerIdentity(n);
    assert RemovePunc(n) == n;
    RemoveArticlesIdentity(n);
    SplitJoin(Split(y));
  }

  /** The tokens `f1_score` compares: `normalize_answer(s).split()`. */
  function Tokens(s: string): seq<string> {
    Split(NormalizeAnswer(s))
  }

  /** No token of a normalised answer is `a`, `an` or `the`. */
  lemma TokensAreNotArticles(s: string)
    ensures forall w :: w in Tokens(s) ==> !IsArticle(w)
  {
    var y := RemoveArticles(RemovePunc(Lower(s)));
    BeforeWhiteSpaceFix(s);
    SplitJoin(Split(y));
    SplitNoArticles(y);
    forall w | w in Tokens(s) ensures !IsArticle(w) {
      ArticleIsNotArticleFree(w);
    }
  }

  /** An article, taken alone, is a text with an article in it. */
  lemma ArticleIsNotArticleFree(w: string)
    ensures IsArticle(w) ==> !NoArticles(w)
  {
    if IsArticle(w) {
      RunLengthIs(w, IsWordChar, |w|);
      assert w[..|w|] == w;
    }
  }

  /** A sub-multiset is no larger. */
  lemma {:induction false} SubMultisetCard<T>(a: multiset<T>, b: multiset<T>)
    requires a <= b
    ensures |a| <= |b|
    decreases |b|
  {
    if a != multiset{} {
      var x :| x in a;
      SubMultisetCard(a - multiset{x}, b - multiset{x});
    }
  }

  /** `sum((Counter(p) & Counter(g)).values())`: the tokens the two lists
      share, each counted up to the smaller of its two multiplicities. */
  function CommonCount(p: seq<string>, g: seq<string>): (c: nat)
    ensures c <= |p| && c <= |g|
  {
    var both := multiset(p) * multiset(g);
    SubMultisetCard(both, multiset(p));
    SubMultisetCard(both, multiset(g));
    |both|
  }

  /** With precision c/p and recall c/g, their harmonic mean is 2c/(p+g),
      which is positive and at most 1 when 0 < c <= p, g. */
  lemma HarmonicMean(c: real, p: real, g: real)
    requires 0.0 < c <= p && c <= g
    ensures var precision, recall := c / p, c / g;
      2.0 * precision * recall / (precision + recall) == 2.0 * c / (p + g)
    ensures 0.0 < 2.0 * c / (p + g) <= 1.0
  {
    var precision, recall := c / p, c / g;
    assert precision * p == c && recall * g == c;
    assert precision > 0.0 && recall > 0.0;
    assert precision * recall * p == recall * c;
    assert precision * recall * g == precision * c;
    assert precision * recall * (p + g) == c * (precision + recall);
    var x := 2.0 * c / (p + g);
    assert x * (precision + recall) == 2.0 * precision * recall by {
      assert x * (precision + recall) == 2.0 * (c * (precision + recall)) / (p + g);
    }
    assert 2.0 * c <= p + g;
  }

  /** The last line of `f1_score`: the harmonic mean of precision
      `numSame/|pred|` and recall `numSame/|gt|`. */
  function F1FromCounts(numSame: nat, predLen: nat, gtLen: nat): (r: real)
    requires 0 < numSame <= predLen && numSame <= gtLen
    ensures r == 2.0 * numSame as real / (predLen + gtLen) as real
    ensures 0.0 < r <= 1.0
  {
    var precision := numSame as real / predLen as real;
    var recall := numSame as real / gtLen as real;
    HarmonicMean(numSame as real, predLen as real, gtLen as real);
    2.0 * precision * recall / (precision + recall)
  }

  /** `f1_score` on the two token lists. */
  function F1OfTokens(p: seq<string>, g: seq<string>): (r: real)
    ensures 0.0 <= r <= 1.0
  {
    if |p| == 0 || |g| == 0 then (if p == g then 1.0 else 0.0)
    else
      var numSame := CommonCount(p, g);
      if numSame == 0 then 0.0
      else F1FromCounts(numSame, |p|, |g|)
  }

  /** `f1_score(prediction, ground_truth)`. */
  function F1Score(prediction: string, groundTruth: string): real {
    F1OfTokens(Tokens(prediction), Tokens(groundTruth))
  }

  /** `exact_match_score(prediction, ground_truth)`. */
  predicate ExactMatchScore(prediction: string, groundTruth: string) {
    NormalizeAnswer(prediction) == NormalizeAnswer(groundTruth)
  }

  /** The boundary cases: with an empty side the score is 1 when both sides
      are empty and 0 otherwise; it is 0 when nothing is shared; otherwise it
      is 2·common/(|pred|+|gt|), in (0, 1]. */
  lemma F1Cases(prediction: string, groundTruth: string)
    ensures var p, g := Tokens(prediction), Tokens(groundTruth);
      var r := F1Score(prediction, groundTruth);
      (|p| == 0 || |g| == 0 ==> r == if |p| == 0 && |g| == 0 then 1.0 else 0.0) &&
      (|p| > 0 && |g| > 0 && CommonCount(p, g) == 0 ==> r == 0.0) &&
      (|p| > 0 && |g| > 0 && CommonCount(p, g) > 0 ==>
        r == 2.0 * CommonCount(p, g) as real / (|p| + |g|) as real && 0.0 < r <= 1.0)
  {
    F1OfTokensCases(Tokens(prediction), Tokens(groundTruth));
  }

  /** The same cases on the token lists. */
  lemma F1OfTokensCases(p: seq<string>, g: seq<string>)
    ensures var r := F1OfTokens(p, g);
      (|p| == 0 || |g| == 0 ==> r == if |p| == 0 && |g| == 0 then 1.0 else 0.0) &&
      (|p| > 0 && |g| > 0 && CommonCount(p, g) == 0 ==> r == 0.0) &&
      (|p| > 0 && |g| > 0 && CommonCount(p, g) > 0 ==>
        r == 2.0 * CommonCount(p, g) as real / (|p| + |g|) as real && 0.0 < r <= 1.0)
  {
  }

  /** Both scores are symmetric in their two arguments. */
  lemma ScoresSymmetric(a: string, b: string)
    ensures F1Score(a, b) == F1Score(b, a)
    ensures ExactMatchScore(a, b) == ExactMatchScore(b, a)
  {
    var p, g := Tokens(a), Tokens(b);
    assert multiset(p) * multiset(g) == multiset(g) * multiset(p);
  }

  /** Identical token lists score 1. */
  lemma F1OfSameTokens(p: seq<string>)
    ensures F1OfTokens(p, p) == 1.0
  {
    if |p| > 0 {
      assert multiset(p) * multiset(p) == multiset(p);
      assert CommonCount(p, p) == |p|;
    }
  }

  /** An exact match scores an F1 of 1. */
  lemma ExactMatchFullF1(prediction: string, groundTruth: string)
    requires ExactMatchScore(prediction, groundTruth)
    ensures F1Score(prediction, groundTruth) == 1.0
  {
    assert Tokens(prediction) == Tokens(groundTruth);
    F1OfSameTokens(Tokens(prediction));
  }

  /* A worked example: three one-letter words. */

  /** A lower-case ASCII letter. */
  predicate IsLetter(c: char) {
    'a' <= c <= 'z'
  }

  /** Text of lower-case letters and spaces passes the first two steps unchanged. */
  lemma LettersClean(s: string)
    requires forall i :: 0 <= i < |s| ==> IsLetter(s[i]) || s[i] == ' '
    ensures Lower(s) == s && RemovePunc(Lower(s)) == s
  {
    LowerIdentity(s);
    SpaceIsClean();
    forall i | 0 <= i < |s| ensures !IsPunct(s[i]) {
      if s[i] != ' ' { LetterNotPunct(s[i]); }
    }
  }

  /** No letter is punctuation. */
  lemma LetterNotPunct(c: char)
    requires IsLetter(c)
    ensures !IsPunct(c)
  {
    assert forall i :: 0 <= i < |Punctuation| ==> !IsLetter(Punctuation[i]);
  }

  /** A one-letter word followed by the rest of the text. */
  lemma OneLetterWord(c: char, rest: string)
    requires IsLetter(c) && (rest == [] || rest[0] == ' ')
    ensures RemoveArticles([c] + rest) == (if c == 'a' then " " else [c]) + RemoveArticles(rest)
  {
    var s := [c] + rest;
    RunLengthIs(s, IsWordChar, 1);
    assert s[..1] == [c] && s[1..] == rest;
  }

  /** A leading space is kept. */
  lemma SpaceThen(rest: string)
    ensures RemoveArticles([' '] + rest) == [' '] + RemoveArticles(rest)
  {
    assert ([' '] + rest)[1..] == rest;
  }

  /** Three one-letter words: only a leading `a` is replaced. */
  lemma RemoveThree(x: char, y: char, z: char)
    requires IsLetter(x) && IsLetter(y) && IsLetter(z) && y != 'a' && z != 'a'
    ensures RemoveArticles([x, ' ', y, ' ', z]) == (if x == 'a' then [' '] else [x]) + [' ', y, ' ', z]
  {
    OneLetterWord(z, []);
    assert [z] + [] == [z];
    SpaceThen([z]);
    assert [' '] + [z] == [' ', z];
    OneLetterWord(y, [' ', z]);
    assert [y] + [' ', z] == [y, ' ', z];
    SpaceThen([y, ' ', z]);
    assert [' '] + [y, ' ', z] == [' ', y, ' ', z];
    OneLetterWord(x, [' ', y, ' ', z]);
    assert [x] + [' ', y, ' ', z] == [x, ' ', y, ' ', z];
  }

  /** Three one-letter words split and join as expected. */
  lemma SplitThree(x: char, y: char, z: char)
    requires IsLetter(x) && IsLetter(y) && IsLetter(z)
    ensures Split([x, ' ', y, ' ', z]) == [[x], [y], [z]]
    ensures Split([' ', ' ', y, ' ', z]) == [[y], [z]]
    ensures Join([[x], [y], [z]]) == [x, ' ', y, ' ', z]
    ensures Join([[y], [z]]) == [y, ' ', z]
  {
    var vs := [[y], [z]];
    assert vs[1..] == [[z]];
    assert Join(vs) == [y, ' ', z];
    assert IsToken(vs[0]) && IsToken(vs[1]);
    SplitJoin(vs);
    var ws := [[x], [y], [z]];
    assert ws[1..] == vs;
    assert Join(ws) == [x, ' ', y, ' ', z];
    assert IsToken(ws[0]);
    SplitJoin(ws);
    var t := [' ', ' ', y, ' ', z];
    assert t[1..][1..] == [y, ' ', z];
  }

  /** Normalising three one-letter words drops only a leading `a`. */
  lemma NormalizeThree(s: string, x: char, y: char, z: char)
    requires s == [x, ' ', y, ' ', z]
    requires IsLetter(x) && IsLetter(y) && IsLetter(z) && y != 'a' && z != 'a'
    ensures NormalizeAnswer(s) == if x == 'a' then [y, ' ', z] else s
  {
    LettersClean(s);
    assert NormalizeAnswer(s) == WhiteSpaceFix(RemoveArticles(s));
    RemoveThree(x, y, z);
    SplitThree(x, y, z);
  }

  /** The tokens of three one-letter words, a leading `a` dropped. */
  lemma TokensThree(s: string, x: char, y: char, z: char)
    requires s == [x, ' ', y, ' ', z]
    requires IsLetter(x) && IsLetter(y) && IsLetter(z) && y != 'a' && z != 'a'
    ensures Tokens(s) == (if x == 'a' then [] else [[x]]) + [[y], [z]]
  {
    NormalizeThree(s, x, y, z);
    SplitThree(x, y, z);
    if x == 'a' {
      assert Split([y, ' ', z]) == [[y], [z]] by { SplitTwo(y, z); }
    }
  }

  /** Two one-letter words split into two tokens. */
  lemma SplitTwo(y: char, z: char)
    requires IsLetter(y) && IsLetter(z)
    ensures Split([y, ' ', z]) == [[y], [z]]
  {
    var vs := [[y], [z]];
    assert vs[1..] == [[z]];
    assert Join(vs) == [y, ' ', z];
    assert IsToken(vs[0]) && IsToken(vs[1]);
    SplitJoin(vs);
  }

  /** The shared tokens of the example. */
  lemma CommonTwo(p: seq<string>, g: seq<string>)
    requires p == ["b", "c"] && g == ["b", "c", "d"]
    ensures CommonCount(p, g) == 2
  {
    assert multiset(p) * multiset(g) == multiset{"b", "c"};
  }

  /** The article of the prediction is dropped before counting: two of its two
      tokens are shared with the three of the reference, so the score is 4/5. */
  lemma ArticleDroppedExample(prediction: string, groundTruth: string)
    requires prediction == "a b c" && groundTruth == "b c d"
    ensures F1Score(prediction, groundTruth) == 0.8
  {
    TokensThree(prediction, 'a', 'b', 'c');
    TokensThree(groundTruth, 'b', 'c', 'd');
    var p, g := Tokens(prediction), Tokens(groundTruth);
    assert p == ["b", "c"] && g == ["b", "c", "d"];
    CommonTwo(p, g);
    F1OfTokensCases(p, g);
  }
}
