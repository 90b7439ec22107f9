/** Sequence helpers shared by the modules of this model: Python's `list.index`,
    reversal and the last-index idiom built on it, Python slicing, and
    subsequences. */
module Seqs {

  datatype Option<T> = None | Some(value: T)

  /** Python's `list.index(x)`: the first position of `s` that holds `x`.
      Python raises `ValueError` when `x` is absent; the callers in this model
      only use it where `x` occurs. */
  function IndexOf<T(==)>(s: seq<T>, x: T): (r: nat)
    requires x in s
    ensures r < |s| && s[r] == x
    ensures forall k :: 0 <= k < r ==> s[k] != x
  {
    if s[0] == x then 0 else 1 + IndexOf(s[1..], x)
  }

  /** The first position holding `x` is any position holding it with no `x` before it. */
  lemma IndexOfIs<T>(s: seq<T>, x: T, r: nat)
    requires r < |s| && s[r] == x
    requires forall k :: 0 <= k < r ==> s[k] != x
    ensures IndexOf(s, x) == r
  {
    var i := IndexOf(s, x);
    assert !(i < r) && !(r < i);
  }

  /** Python's `s[::-1]`. */
  function Reversed<T>(s: seq<T>): (r: seq<T>)
    ensures |r| == |s|
    ensures forall k :: 0 <= k < |s| ==> r[k] == s[|s| - 1 - k]
  {
    if s == [] then [] else [s[|s| - 1]] + Reversed(s[..|s| - 1])
  }

  /** The idiom `len(s) - 1 - s[::-1].index(x)`: the last position holding `x`. */
  function LastIndexOf<T(==)>(s: seq<T>, x: T): (r: nat)
    requires x in s
    ensures r < |s| && s[r] == x
    ensures forall k :: r < k < |s| ==> s[k] != x
  {
    var rev := Reversed(s);
    assert x in rev by {
      var i :| 0 <= i < |s| && s[i] == x;
      assert rev[|s| - 1 - i] == x;
    }
    var j := IndexOf(rev, x);
    assert forall k :: |s| - 1 - j < k < |s| ==> s[k] != x by {
      forall k | |s| - 1 - j < k < |s| ensures s[k] != x {
        assert rev[|s| - 1 - k] == s[k];
      }
    }
    |s| - 1 - j
  }

  /** The last position holding `x` is any position holding it with no `x` after it. */
  lemma LastIndexOfIs<T>(s: seq<T>, x: T, r: nat)
    requires r < |s| && s[r] == x
    requires forall k :: r < k < |s| ==> s[k] != x
    ensures LastIndexOf(s, x) == r
  {
    var i := LastIndexOf(s, x);
    assert !(i < r) && !(r < i);
  }

  /** How Python resolves one bound of a slice of a sequence of length `n`:
      a negative bound counts from the end, then the bound is clamped to [0, n]. */
  function SliceBound(i: int, n: nat): (r: nat)
    ensures r <= n
    ensures 0 <= i <= n ==> r == i
    ensures i > n ==> r == n
    ensures i < 0 <= i + n ==> r == i + n
    ensures i + n < 0 ==> r == 0
  {
    if i < 0 then (if i + n < 0 then 0 else i + n)
    else if i > n then n
    else i
  }

  /** Python's `s[i:j]`, with negative and out-of-range bounds. */
  function PySlice<T>(s: seq<T>, i: int, j: int): (r: seq<T>)
    ensures |r| <= |s|
    ensures 0 <= i <= j <= |s| ==> r == s[i..j]
    ensures 0 <= i + |s| && i <= j < 0 ==> r == s[i + |s|..j + |s|]
    ensures i < 0 <= i + |s| && 0 <= j <= |s| ==> r == if i + |s| <= j then s[i + |s|..j] else []
    ensures var lo, hi := SliceBound(i, |s|), SliceBound(j, |s|);
      (lo <= hi ==> r == s[lo..hi]) && (hi < lo ==> r == [])
  {
    var lo, hi := SliceBound(i, |s|), SliceBound(j, |s|);
    if lo <= hi then s[lo..hi] else []
  }

  /** `a` is what remains of `b` after deleting some of its elements:
      matched greedily from the back, the end where the loops of the
      source append. */
  predicate IsSubsequence<T(==)>(a: seq<T>, b: seq<T>)
    decreases |b|
  {
    if a == [] then true
    else if b == [] then false
    else if a[|a| - 1] == b[|b| - 1] then IsSubsequence(a[..|a| - 1], b[..|b| - 1])
    else IsSubsequence(a, b[..|b| - 1])
  }

  /** A subsequence stays one when the whole grows at the back, and when both
      grow by the same element. */
  lemma {:induction false} SubsequenceExtend<T>(a: seq<T>, b: seq<T>, x: T)
    requires IsSubsequence(a, b)
    ensures IsSubsequence(a, b + [x])
    ensures IsSubsequence(a + [x], b + [x])
    decreases |b|, 1
  {
    assert (b + [x])[..|b + [x]| - 1] == b;
    assert (a + [x])[..|a + [x]| - 1] == a;
    if a != [] && a[|a| - 1] == x {
      SubsequenceDropLast(a, b);
    }
  }

  /** Dropping the last element of a subsequence leaves a subsequence. */
  lemma {:induction false} SubsequenceDropLast<T>(a: seq<T>, b: seq<T>)
    requires a != [] && IsSubsequence(a, b)
    ensures IsSubsequence(a[..|a| - 1], b)
    decreases |b|, 0
  {
    var a', b' := a[..|a| - 1], b[..|b| - 1];
    assert b == b' + [b[|b| - 1]];
    if a[|a| - 1] == b[|b| - 1] {
      SubsequenceExtend(a', b', b[|b| - 1]);
    } else {
      SubsequenceDropLast(a, b');
      SubsequenceExtend(a', b', b[|b| - 1]);
    }
  }

  /** Elements of a subsequence are elements of the whole. */
  lemma {:induction false} SubsequenceMembers<T>(a: seq<T>, b: seq<T>)
    requires IsSubsequence(a, b)
    ensures forall x :: x in a ==> x in b
    decreases |b|
  {
    if a != [] && b != [] {
      if a[|a| - 1] == b[|b| - 1] {
        SubsequenceMembers(a[..|a| - 1], b[..|b| - 1]);
        assert a == a[..|a| - 1] + [a[|a| - 1]];
      } else {
        SubsequenceMembers(a, b[..|b| - 1]);
      }
    }
  }

  /** A finite sequence has no more distinct elements than positions. */
  lemma {:induction false} SetOfSeqBound<T>(s: seq<T>)
    ensures |set x | x in s| <= |s|
  {
    if s != [] {
      var front := s[..|s| - 1];
      SetOfSeqBound(front);
      assert (set x | x in s) == (set x | x in front) + {s[|s| - 1]} by {
        assert s == front + [s[|s| - 1]];
      }
    }
  }

  /** A subset of a finite set is no larger. */
  lemma {:induction false} SubsetCard<T>(a: set<T>, b: set<T>)
    requires a <= b
    ensures |a| <= |b|
    decreases |b|
  {
    if a != {} {
      var x :| x in a;
      SubsetCard(a - {x}, b - {x});
    }
  }

  /** A prefix is the shorter prefix and one more element. */
  lemma TakeStep<T>(s: seq<T>, n: nat)
    requires 0 < n <= |s|
    ensures s[..n] == s[..n - 1] + [s[n - 1]]
  {
  }

  /** A non-empty sequence is its front and its last element. */
  lemma LastSplit<T>(s: seq<T>)
    requires s != []
    ensures s == s[..|s| - 1] + [s[|s| - 1]]
  {
  }

  /** `[f(x) for x in s]` */
  function Map<T, U>(s: seq<T>, f: T -> U): (r: seq<U>)
    ensures |r| == |s|
  {
    if s == [] then [] else Map(s[..|s| - 1], f) + [f(s[|s| - 1])]
  }

  /** Mapping the identity changes nothing. */
  lemma {:induction false} MapIdentity<T>(s: seq<T>, f: T -> T)
    requires forall x :: f(x) == x
    ensures Map(s, f) == s
  {
    if s != [] {
      MapIdentity(s[..|s| - 1], f);
    }
  }

  /** `[f(x) for x in s if keep(x)]` */
  function FilterMap<T, U>(s: seq<T>, keep: T -> bool, f: T -> U): seq<U> {
    if s == [] then []
    else
      var front := FilterMap(s[..|s| - 1], keep, f);
      if keep(s[|s| - 1]) then front + [f(s[|s| - 1])] else front
  }

  /** A filtered map keeps the order and length bound of the map. */
  lemma {:induction false} FilterMapOrder<T, U>(s: seq<T>, keep: T -> bool, f: T -> U)
    ensures IsSubsequence(FilterMap(s, keep, f), Map(s, f))
    ensures |FilterMap(s, keep, f)| <= |s|
  {
    if s != [] {
      var front := s[..|s| - 1];
      FilterMapOrder(front, keep, f);
      SubsequenceExtend(FilterMap(front, keep, f), Map(front, f), f(s[|s| - 1]));
    }
  }

  /** Every element of a filtered map is the image of a kept element. */
  lemma {:induction false} FilterMapMembers<T, U>(s: seq<T>, keep: T -> bool, f: T -> U)
    ensures forall y :: y in FilterMap(s, keep, f) ==> exists x :: x in s && keep(x) && y == f(x)
  {
    if s != [] {
      var front := s[..|s| - 1];
      FilterMapMembers(front, keep, f);
      assert forall x :: x in front ==> x in s;
    }
  }

  /** Through an injective map, a filtered map holds the image of each kept
      element as often as the element occurs, and nothing else. */
  lemma {:induction false} FilterMapCounts<T, U>(s: seq<T>, keep: T -> bool, f: T -> U)
    requires forall x, y :: f(x) == f(y) ==> x == y
    ensures forall x :: multiset(FilterMap(s, keep, f))[f(x)] == if keep(x) then multiset(s)[x] else 0
  {
    if s != [] {
      var front, last := s[..|s| - 1], s[|s| - 1];
      FilterMapCounts(front, keep, f);
      assert s == front + [last];
    }
  }
}
