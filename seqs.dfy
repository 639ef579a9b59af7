/**
 * Sequence combinators for Python's list comprehensions over lists built left
 * to right: each is defined on the last element, so that a loop that appends
 * extends its value one step at a time.
 */
module Seqs {

  /** `[x for x in s if p(x)]`. */
  function Filter<T(==)>(s: seq<T>, p: T -> bool): (r: seq<T>)
    ensures |r| <= |s|
    ensures forall i :: 0 <= i < |r| ==> r[i] in s && p(r[i])
    ensures forall i :: 0 <= i < |s| && p(s[i]) ==> s[i] in r
    decreases |s|
  {
    if s == [] then []
    else Filter(s[..|s| - 1], p) + (if p(s[|s| - 1]) then [s[|s| - 1]] else [])
  }

  lemma {:induction false} FilterAppend<T>(a: seq<T>, b: seq<T>, p: T -> bool)
    ensures Filter(a + b, p) == Filter(a, p) + Filter(b, p)
    decreases |b|
  {
    if b == [] {
      assert a + b == a;
    } else {
      assert (a + b)[..|a + b| - 1] == a + b[..|b| - 1];
      FilterAppend(a, b[..|b| - 1], p);
    }
  }

  /** Extending a prefix of `s` by one element extends its filter by that element when it passes. */
  lemma FilterSnoc<T>(s: seq<T>, i: nat, p: T -> bool)
    requires i < |s|
    ensures Filter(s[..i + 1], p) == Filter(s[..i], p) + (if p(s[i]) then [s[i]] else [])
  {
    assert s[..i + 1][..i] == s[..i];
  }

  lemma FilterCons<T>(x: T, s: seq<T>, p: T -> bool)
    ensures Filter([x] + s, p) == (if p(x) then [x] else []) + Filter(s, p)
  {
    var head := if p(x) then [x] else [];
    assert Filter([x], p) == head by {
      assert [x][..0] == [];
      assert Filter([x][..0], p) == [];
      assert Filter([x], p) == [] + head;
    }
    FilterAppend([x], s, p);
  }

  /** An element that `extra` cannot meet keeps its place ahead of the rest. */
  lemma FilterPastOther<T>(y: T, t: seq<T>, u: seq<T>, extra: seq<T>, p: T -> bool)
    requires Filter(t, p) == extra + Filter(u, p)
    requires extra == [] || !p(y)
    ensures Filter([y] + t, p) == extra + Filter([y] + u, p)
  {
    FilterCons(y, t, p);
    FilterCons(y, u, p);
    var ft, fu := Filter(t, p), Filter(u, p);
    if p(y) {
      assert extra == [];
      assert ft == fu by {
        assert extra + fu == fu;
      }
      assert Filter([y] + t, p) == [y] + ft;
      assert Filter([y] + u, p) == [y] + fu;
      assert extra + ([y] + fu) == [y] + fu;
    } else {
      assert Filter([y] + t, p) == [] + ft;
      assert [] + ft == ft;
      assert Filter([y] + u, p) == [] + fu;
      assert [] + fu == fu;
    }
  }

  /** Keeping every element keeps the sequence. */
  lemma {:induction false} FilterAll<T>(s: seq<T>, p: T -> bool)
    requires forall i :: 0 <= i < |s| ==> p(s[i])
    ensures Filter(s, p) == s
    decreases |s|
  {
    if s != [] {
      FilterAll(s[..|s| - 1], p);
    }
  }

  /** `a` is `b` with some elements left out, order kept. */
  predicate IsSubseq<T(==)>(a: seq<T>, b: seq<T>)
    decreases |b|
  {
    if a == [] then true
    else if b == [] then false
    else (a[|a| - 1] == b[|b| - 1] && IsSubseq(a[..|a| - 1], b[..|b| - 1]))
         || IsSubseq(a, b[..|b| - 1])
  }

  lemma SubseqSnocBoth<T>(a: seq<T>, b: seq<T>, x: T)
    requires IsSubseq(a, b)
    ensures IsSubseq(a + [x], b + [x])
  {
    assert (a + [x])[..|a|] == a;
    assert (b + [x])[..|b|] == b;
  }

  lemma SubseqSnocRight<T>(a: seq<T>, b: seq<T>, x: T)
    requires IsSubseq(a, b)
    ensures IsSubseq(a, b + [x])
  {
    assert (b + [x])[..|b|] == b;
  }

  lemma {:induction false} SubseqRefl<T>(s: seq<T>)
    ensures IsSubseq(s, s)
    decreases |s|
  {
    if s != [] {
      SubseqRefl(s[..|s| - 1]);
    }
  }

  lemma {:induction false} SubseqMembers<T>(a: seq<T>, b: seq<T>)
    requires IsSubseq(a, b)
    ensures forall x :: x in a ==> x in b
    decreases |b|
  {
    if a != [] && b != [] {
      var a', b' := a[..|a| - 1], b[..|b| - 1];
      if a[|a| - 1] == b[|b| - 1] && IsSubseq(a', b') {
        SubseqMembers(a', b');
        assert a == a' + [a[|a| - 1]] && b == b' + [b[|b| - 1]];
      } else {
        SubseqMembers(a, b');
        assert b == b' + [b[|b| - 1]];
      }
    }
  }

  lemma {:induction false} FilterIsSubseq<T>(s: seq<T>, p: T -> bool)
    ensures IsSubseq(Filter(s, p), s)
    decreases |s|
  {
    if s != [] {
      var s' := s[..|s| - 1];
      FilterIsSubseq(s', p);
      assert s == s' + [s[|s| - 1]];
      if p(s[|s| - 1]) {
        SubseqSnocBoth(Filter(s', p), s', s[|s| - 1]);
      } else {
        assert Filter(s, p) == Filter(s', p);
        SubseqSnocRight(Filter(s', p), s', s[|s| - 1]);
      }
    }
  }

  /** Every element passes `p`, checked from the last one back. */
  predicate AllBack<T>(s: seq<T>, p: T -> bool)
    decreases |s|
  {
    s == [] || (AllBack(s[..|s| - 1], p) && p(s[|s| - 1]))
  }

  /** Extending a prefix of `s` by one element adds that element's test. */
  lemma AllBackSnoc<T>(s: seq<T>, i: nat, p: T -> bool)
    requires i < |s|
    ensures AllBack(s[..i + 1], p) == (AllBack(s[..i], p) && p(s[i]))
  {
    assert s[..i + 1][..i] == s[..i];
  }

  lemma {:induction false} AllBackEach<T>(s: seq<T>, p: T -> bool)
    ensures AllBack(s, p) <==> forall k :: 0 <= k < |s| ==> p(s[k])
    decreases |s|
  {
    if s != [] {
      var pre := s[..|s| - 1];
      AllBackEach(pre, p);
      assert forall k :: 0 <= k < |pre| ==> pre[k] == s[k];
    }
  }

  /** No element occurs twice. */
  predicate Distinct<T(==)>(s: seq<T>) {
    forall i, j :: 0 <= i < j < |s| ==> s[i] != s[j]
  }

  /** The distinct elements of `s` in order of first occurrence. */
  function Dedup<T(==)>(s: seq<T>): (r: seq<T>)
    ensures Distinct(r)
    ensures forall i :: 0 <= i < |r| ==> r[i] in s
    ensures forall i :: 0 <= i < |s| ==> s[i] in r
    decreases |s|
  {
    if s == [] then []
    else
      var d := Dedup(s[..|s| - 1]);
      if s[|s| - 1] in d then d else d + [s[|s| - 1]]
  }

  /** One more element: kept when new, dropped when already found. */
  lemma DedupSnoc<T>(s: seq<T>, x: T)
    ensures Dedup(s + [x]) == if x in Dedup(s) then Dedup(s) else Dedup(s) + [x]
  {
    assert (s + [x])[..|s|] == s;
  }

  /** Deduplication never reorders: it is a subsequence of its input... */
  lemma {:induction false} DedupIsSubseq<T>(s: seq<T>)
    ensures IsSubseq(Dedup(s), s)
    decreases |s|
  {
    if s != [] {
      var s' := s[..|s| - 1];
      DedupIsSubseq(s');
      assert s == s' + [s[|s| - 1]];
      if s[|s| - 1] in Dedup(s') {
        SubseqSnocRight(Dedup(s'), s', s[|s| - 1]);
      } else {
        SubseqSnocBoth(Dedup(s'), s', s[|s| - 1]);
      }
    }
  }

  /** The position of the first occurrence of `x` in `s` (`s.index(x)`). */
  function IndexOf<T(==)>(s: seq<T>, x: T): (i: nat)
    requires x in s
    ensures i < |s| && s[i] == x
    ensures forall k :: 0 <= k < i ==> s[k] != x
    decreases |s|
  {
    if s[0] == x then 0 else 1 + IndexOf(s[1..], x)
  }

  /** An element that occurs in a prefix is first found at the same place in the whole. */
  lemma IndexOfPrefix<T>(s: seq<T>, x: T)
    requires s != [] && x in s[..|s| - 1]
    ensures IndexOf(s, x) == IndexOf(s[..|s| - 1], x)
  {
    var pre := s[..|s| - 1];
    var i, j := IndexOf(s, x), IndexOf(pre, x);
    assert s[j] == x;
    assert pre[i] == x by {
      if j < i { assert false; }
    }
  }

  /**
   * ...and keeps the order of first occurrence: of two distinct elements,
   * the one listed first occurs first in `s`.
   */
  lemma {:induction false} DedupFirstSeen<T>(s: seq<T>)
    ensures forall i, j :: 0 <= i < j < |Dedup(s)| ==> IndexOf(s, Dedup(s)[i]) < IndexOf(s, Dedup(s)[j])
    decreases |s|
  {
    if s != [] {
      var pre, x := s[..|s| - 1], s[|s| - 1];
      var d := Dedup(pre);
      DedupFirstSeen(pre);
      forall i, j | 0 <= i < j < |Dedup(s)| ensures IndexOf(s, Dedup(s)[i]) < IndexOf(s, Dedup(s)[j]) {
        assert d[i] in pre;
        IndexOfPrefix(s, d[i]);
        if j < |d| {
          assert d[j] in pre;
          IndexOfPrefix(s, d[j]);
        } else {
          assert Dedup(s)[j] == x && x !in d;
          assert x !in pre;
          assert IndexOf(s, x) == |pre|;
        }
      }
    }
  }

  /** Concatenation of a list of lists. */
  function Concat<T>(ss: seq<seq<T>>): seq<T>
    decreases |ss|
  {
    if ss == [] then [] else Concat(ss[..|ss| - 1]) + ss[|ss| - 1]
  }

  lemma {:induction false} ConcatAppend<T>(a: seq<seq<T>>, b: seq<seq<T>>)
    ensures Concat(a + b) == Concat(a) + Concat(b)
    decreases |b|
  {
    if b == [] {
      assert a + b == a;
    } else {
      var b', x := b[..|b| - 1], b[|b| - 1];
      assert (a + b)[..|a + b| - 1] == a + b';
      assert (a + b)[|a + b| - 1] == x;
      ConcatAppend(a, b');
      assert Concat(a + b) == Concat(a + b') + x;
      assert Concat(b) == Concat(b') + x;
    }
  }
}
