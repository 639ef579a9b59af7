/**
 * Python's `str` operations as used by the backend, on `seq<char>`.
 * Character classes follow Python 3 on `str`: `IsSpace` is exactly the set of
 * characters for which `str.isspace()` holds (and which `\s` matches).
 */
module Strings {
  import Seqs

  // ---------------------------------------------------------------------------
  // Character classes
  // ---------------------------------------------------------------------------

  /** `str.isspace()` / regex `\s`. */
  predicate IsSpace(c: char) {
    || c == ' '
    || ('\t' <= c <= '\r')
    || ('\U{1C}' <= c <= '\U{1F}')
    || c == '\U{85}' || c == '\U{A0}' || c == '\U{1680}'
    || ('\U{2000}' <= c <= '\U{200A}')
    || c == '\U{2028}' || c == '\U{2029}' || c == '\U{202F}' || c == '\U{205F}'
    || c == '\U{3000}'
  }

  predicate IsNonSpace(c: char) { !IsSpace(c) }

  predicate IsNewline(c: char) { c == '\n' }

  predicate IsDigit(c: char) { '0' <= c <= '9' }

  predicate IsUpper(c: char) { 'A' <= c <= 'Z' }

  predicate IsAsciiLetter(c: char) { 'A' <= c <= 'Z' || 'a' <= c <= 'z' }

  /** The characters `[a-z0-9]`. */
  predicate IsLowerAlnum(c: char) { 'a' <= c <= 'z' || IsDigit(c) }

  /**
   * Regex `\w` on `str`: the characters for which `str.isalnum()` holds, and
   * `_`. Modelled for ASCII, the Latin-1 letters, the Latin-1 numerics `¹`,
   * `²`, `³`, `¼`, `½`, `¾`, and the Latin Extended-A/B block.
   */
  predicate IsWordChar(c: char) {
    || IsAsciiLetter(c) || IsDigit(c) || c == '_'
    || c == '\U{AA}' || c == '\U{B5}' || c == '\U{BA}'
    || c == '\U{B2}' || c == '\U{B3}' || c == '\U{B9}'
    || ('\U{BC}' <= c <= '\U{BE}')
    || ('\U{C0}' <= c <= '\U{24F}' && c != '\U{D7}' && c != '\U{F7}')
  }

  /** The Latin-1 capitals `À`-`Þ` other than `×`. */
  predicate IsLatin1Upper(c: char) {
    '\U{C0}' <= c <= '\U{DE}' && c != '\U{D7}'
  }

  /** `str.lower()` on one character: ASCII and Latin-1 capitals. */
  function LowerChar(c: char): (r: char)
    ensures IsUpper(c) ==> r == (c as int + 32) as char && 'a' <= r <= 'z'
    ensures IsLatin1Upper(c) ==> r == (c as int + 32) as char && '\U{E0}' <= r <= '\U{FE}'
    ensures !IsUpper(c) && !IsLatin1Upper(c) ==> r == c
  {
    if 'A' <= c <= 'Z' then (c as int + 32) as char
    else if '\U{C0}' <= c <= '\U{DE}' && c != '\U{D7}' then (c as int + 32) as char
    else c
  }

  function Lower(s: string): (r: string)
    ensures |r| == |s|
    ensures forall i :: 0 <= i < |s| ==> r[i] == LowerChar(s[i])
  {
    seq(|s|, i requires 0 <= i < |s| => LowerChar(s[i]))
  }

  // ---------------------------------------------------------------------------
  // strip
  // ---------------------------------------------------------------------------

  /** The end of the run of whitespace that starts at `i`. */
  function SpaceRunEnd(s: string, i: nat): (k: nat)
    requires i <= |s|
    ensures i <= k <= |s|
    ensures forall j :: i <= j < k ==> IsSpace(s[j])
    ensures k < |s| ==> !IsSpace(s[k])
    decreases |s| - i
  {
    if i < |s| && IsSpace(s[i]) then SpaceRunEnd(s, i + 1) else i
  }

  /** The start of the run of whitespace that ends at `j`, not going below `lo`. */
  function SpaceRunStart(s: string, lo: nat, j: nat): (k: nat)
    requires lo <= j <= |s|
    ensures lo <= k <= j
    ensures forall m :: k <= m < j ==> IsSpace(s[m])
    ensures k > lo ==> !IsSpace(s[k - 1])
    decreases j - lo
  {
    if j > lo && IsSpace(s[j - 1]) then SpaceRunStart(s, lo, j - 1) else j
  }

  /** `str.lstrip()`: the leading whitespace removed, and nothing else. */
  function TrimLeft(s: string): (r: string)
    ensures |r| <= |s|
    ensures r == s[|s| - |r|..]
    ensures forall i :: 0 <= i < |s| - |r| ==> IsSpace(s[i])
    ensures r != [] ==> !IsSpace(r[0])
  {
    s[SpaceRunEnd(s, 0)..]
  }

  /** Neither end is whitespace. */
  predicate IsStripped(s: string) {
    s == [] || (!IsSpace(s[0]) && !IsSpace(s[|s| - 1]))
  }

  /** `str.strip()`. */
  function Strip(s: string): (r: string)
    ensures IsStripped(r)
    ensures |r| <= |s|
  {
    var lo := SpaceRunEnd(s, 0);
    s[lo..SpaceRunStart(s, lo, |s|)]
  }

  /**
   * Strip returns the slice of its argument left once the whitespace at both
   * ends is removed, and empties only blank strings.
   */
  lemma StripSlice(s: string) returns (lo: nat)
    ensures lo + |Strip(s)| <= |s|
    ensures Strip(s) == s[lo..lo + |Strip(s)|]
    ensures forall i :: 0 <= i < lo ==> IsSpace(s[i])
    ensures forall i :: lo + |Strip(s)| <= i < |s| ==> IsSpace(s[i])
    ensures Strip(s) == [] <==> forall i :: 0 <= i < |s| ==> IsSpace(s[i])
  {
    lo := SpaceRunEnd(s, 0);
  }

  lemma StripOfStripped(s: string)
    requires IsStripped(s)
    ensures Strip(s) == s
  {
  }

  /** Stripping keeps every character property its argument has. */
  lemma StripKeeps(s: string, p: char -> bool)
    requires forall i :: 0 <= i < |s| ==> p(s[i])
    ensures forall i :: 0 <= i < |Strip(s)| ==> p(Strip(s)[i])
  {
    var lo := StripSlice(s);
    forall i | 0 <= i < |Strip(s)| ensures p(Strip(s)[i]) {
      assert Strip(s)[i] == s[lo + i];
    }
  }

  /** Gluing two stripped, non-empty strings around any separator stays stripped. */
  lemma StrippedGlue(a: string, sep: string, b: string)
    requires a != [] && b != [] && IsStripped(a) && IsStripped(b)
    ensures IsStripped(a + sep + b)
    ensures Strip(a + sep + b) == a + sep + b
  {
    var s := a + sep + b;
    assert s[0] == a[0];
    assert s[|s| - 1] == b[|b| - 1];
  }

  /**
   * Stripping `x + c` for a stripped, non-empty `c` removes only a prefix,
   * and that prefix lies within `x`.
   */
  lemma StripBeforeStripped(x: string, c: string)
    requires c != [] && IsStripped(c)
    ensures |c| <= |Strip(x + c)|
    ensures Strip(x + c) == (x + c)[|x + c| - |Strip(x + c)|..]
    ensures Strip(x + c)[|Strip(x + c)| - |c|..] == c
  {
    var s := x + c;
    var lo := SpaceRunEnd(s, 0);
    var hi := SpaceRunStart(s, lo, |s|);
    assert s[|s| - 1] == c[|c| - 1];
    assert !IsSpace(s[|s| - 1]);
    assert hi == |s|;
    assert s[|x|] == c[0];
    assert !IsSpace(s[|x|]);
    assert lo <= |x|;
    assert s[|x|..] == c;
  }

  /** `[p.strip() for p in parts if p and p.strip()]`. */
  function StrippedPieces(parts: seq<string>): (r: seq<string>)
    ensures |r| <= |parts|
    ensures forall k :: 0 <= k < |r| ==> r[k] != [] && IsStripped(r[k])
    decreases |parts|
  {
    if parts == [] then []
    else
      var q := Strip(parts[|parts| - 1]);
      StrippedPieces(parts[..|parts| - 1]) + (if q != [] then [q] else [])
  }

  /** Every part, stripped. */
  function StripAll(parts: seq<string>): (r: seq<string>)
    ensures |r| == |parts| && forall k :: 0 <= k < |parts| ==> r[k] == Strip(parts[k])
  {
    seq(|parts|, k requires 0 <= k < |parts| => Strip(parts[k]))
  }

  predicate NonEmpty(s: string) { s != [] }

  /** The pieces are the stripped parts, in order, with the blank ones dropped. */
  lemma {:induction false} StrippedPiecesFilter(parts: seq<string>)
    ensures StrippedPieces(parts) == Seqs.Filter(StripAll(parts), NonEmpty)
    decreases |parts|
  {
    if parts != [] {
      var pre := parts[..|parts| - 1];
      StrippedPiecesFilter(pre);
      assert StripAll(parts)[..|pre|] == StripAll(pre);
    }
  }

  /** The pieces keep a property of all characters. */
  lemma {:induction false} StrippedPiecesShape(parts: seq<string>, p: char -> bool)
    requires forall k, i :: 0 <= k < |parts| && 0 <= i < |parts[k]| ==> p(parts[k][i])
    ensures forall k, i :: 0 <= k < |StrippedPieces(parts)| && 0 <= i < |StrippedPieces(parts)[k]| ==>
      p(StrippedPieces(parts)[k][i])
    decreases |parts|
  {
    if parts != [] {
      var last := parts[|parts| - 1];
      StrippedPiecesShape(parts[..|parts| - 1], p);
      StripKeeps(last, p);
    }
  }

  // ---------------------------------------------------------------------------
  // Slicing helpers with Python's clamping semantics
  // ---------------------------------------------------------------------------

  /** `s[:n]` for `n >= 0`. */
  function Take(s: string, n: nat): (r: string)
    ensures r <= s && |r| == if n <= |s| then n else |s|
  {
    if n <= |s| then s[..n] else s
  }

  /** `s[-n:]` for `n > 0`: the last `n` characters, or all of them. */
  function Last(s: string, n: nat): (r: string)
    ensures |r| == (if n <= |s| then n else |s|)
    ensures r == s[|s| - |r|..]
  {
    if n <= |s| then s[|s| - n..] else s
  }

  /** `s.replace(a, b)` for single characters. */
  function ReplaceChar(s: string, a: char, b: char): (r: string)
    ensures |r| == |s|
    ensures forall i :: 0 <= i < |s| ==> r[i] == (if s[i] == a then b else s[i])
  {
    seq(|s|, i requires 0 <= i < |s| => if s[i] == a then b else s[i])
  }

  // ---------------------------------------------------------------------------
  // Runs of characters of one class
  // ---------------------------------------------------------------------------

  /** The longest prefix of `s` whose characters all satisfy `p`. */
  function TakeRun(s: string, p: char -> bool): (r: string)
    ensures r <= s
    ensures forall i :: 0 <= i < |r| ==> p(r[i])
    ensures |r| < |s| ==> !p(s[|r|])
    decreases |s|
  {
    if s != [] && p(s[0]) then [s[0]] + TakeRun(s[1..], p) else []
  }

  /** What follows the longest prefix of `p`-characters. */
  function DropRun(s: string, p: char -> bool): (r: string)
    ensures r == s[|TakeRun(s, p)|..]
    ensures s != [] && p(s[0]) ==> |r| < |s|
  {
    s[|TakeRun(s, p)|..]
  }

  /** The run and what follows it make up the string. */
  lemma TakeDropRun(s: string, p: char -> bool)
    ensures s == TakeRun(s, p) + DropRun(s, p)
  {
  }

  /** A prefix of `p`-characters followed by a non-`p` character is the whole run. */
  lemma {:induction false} TakeRunPrefix(a: string, b: string, p: char -> bool)
    requires forall i :: 0 <= i < |a| ==> p(a[i])
    requires b == [] || !p(b[0])
    ensures TakeRun(a + b, p) == a
    ensures DropRun(a + b, p) == b
    decreases |a|
  {
    if a == [] {
      assert a + b == b;
    } else {
      assert (a + b)[1..] == a[1..] + b;
      TakeRunPrefix(a[1..], b, p);
    }
  }

  /** The maximal runs of `p`-characters of `s`, in order. */
  function Runs(s: string, p: char -> bool): (r: seq<string>)
    ensures forall k :: 0 <= k < |r| ==> r[k] != []
    ensures forall k, i :: 0 <= k < |r| && 0 <= i < |r[k]| ==> p(r[k][i])
    decreases |s|
  {
    if s == [] then []
    else if !p(s[0]) then Runs(s[1..], p)
    else [TakeRun(s, p)] + Runs(DropRun(s, p), p)
  }

  /** A non-empty run of `p`-characters is one run. */
  lemma OneRun(w: string, p: char -> bool)
    requires w != [] && forall i :: 0 <= i < |w| ==> p(w[i])
    ensures Runs(w, p) == [w]
  {
    assert w + [] == w;
    TakeRunPrefix(w, [], p);
    assert Runs(w, p) == [w] + Runs([], p);
  }

  /** `gaps[0] + runs[0] + gaps[1] + ... + runs[n - 1] + gaps[n]`. */
  function Interleave(gaps: seq<string>, runs: seq<string>): string
    requires |gaps| == |runs| + 1
    decreases |runs|
  {
    if runs == [] then gaps[0] else gaps[0] + runs[0] + Interleave(gaps[1..], runs[1..])
  }

  /** Putting `x` in front of the first gap puts it in front of the whole. */
  lemma InterleaveFirst(x: string, g: seq<string>, rs: seq<string>)
    requires |g| == |rs| + 1
    ensures Interleave([x + g[0]] + g[1..], rs) == x + Interleave(g, rs)
  {
    var h := [x + g[0]] + g[1..];
    assert h[1..] == g[1..];
  }

  /** A run in front, after an empty gap. */
  lemma InterleaveRun(t: string, g: seq<string>, rs: seq<string>)
    requires |g| == |rs| + 1
    ensures Interleave([[]] + g, [t] + rs) == t + Interleave(g, rs)
  {
    assert ([[]] + g)[1..] == g;
    assert ([t] + rs)[1..] == rs;
  }

  /**
   * The runs are the maximal runs of `s`: `s` is the runs in order, with
   * gaps of other characters between them, every inner gap non-empty.
   */
  lemma {:induction false} RunsDecompose(s: string, p: char -> bool) returns (gaps: seq<string>)
    ensures |gaps| == |Runs(s, p)| + 1
    ensures Interleave(gaps, Runs(s, p)) == s
    ensures forall k, i :: 0 <= k < |gaps| && 0 <= i < |gaps[k]| ==> !p(gaps[k][i])
    ensures forall k :: 0 < k < |gaps| - 1 ==> gaps[k] != []
    ensures s != [] && !p(s[0]) ==> gaps[0] != []
    decreases |s|
  {
    if s == [] {
      gaps := [[]];
    } else if !p(s[0]) {
      var g := RunsDecompose(s[1..], p);
      gaps := GapFirst(s, p, g);
    } else {
      var d := DropRun(s, p);
      var g := RunsDecompose(d, p);
      gaps := GapRun(s, p, g);
    }
  }

  /** The step of `RunsDecompose` for a text that starts outside the class. */
  lemma GapFirst(s: string, p: char -> bool, g: seq<string>) returns (gaps: seq<string>)
    requires s != [] && !p(s[0])
    requires |g| == |Runs(s[1..], p)| + 1
    requires Interleave(g, Runs(s[1..], p)) == s[1..]
    requires forall k, i :: 0 <= k < |g| && 0 <= i < |g[k]| ==> !p(g[k][i])
    requires forall k :: 0 < k < |g| - 1 ==> g[k] != []
    ensures |gaps| == |Runs(s, p)| + 1
    ensures Interleave(gaps, Runs(s, p)) == s
    ensures forall k, i :: 0 <= k < |gaps| && 0 <= i < |gaps[k]| ==> !p(gaps[k][i])
    ensures forall k :: 0 < k < |gaps| - 1 ==> gaps[k] != []
    ensures gaps[0] != []
  {
    gaps := [[s[0]] + g[0]] + g[1..];
    InterleaveFirst([s[0]], g, Runs(s[1..], p));
    assert s == [s[0]] + s[1..];
    forall k, i | 0 <= k < |gaps| && 0 <= i < |gaps[k]| ensures !p(gaps[k][i]) {
      if k == 0 {
        if i > 0 { assert gaps[0][i] == g[0][i - 1]; }
      } else {
        assert gaps[k] == g[k];
      }
    }
    forall k | 0 < k < |gaps| - 1 ensures gaps[k] != [] {
      assert gaps[k] == g[k];
    }
  }

  /** The step of `RunsDecompose` for a text that starts with a run. */
  lemma GapRun(s: string, p: char -> bool, g: seq<string>) returns (gaps: seq<string>)
    requires s != [] && p(s[0])
    requires var d := DropRun(s, p);
      && |g| == |Runs(d, p)| + 1
      && Interleave(g, Runs(d, p)) == d
      && (forall k, i :: 0 <= k < |g| && 0 <= i < |g[k]| ==> !p(g[k][i]))
      && (forall k :: 0 < k < |g| - 1 ==> g[k] != [])
      && (d != [] && !p(d[0]) ==> g[0] != [])
    ensures |gaps| == |Runs(s, p)| + 1
    ensures Interleave(gaps, Runs(s, p)) == s
    ensures forall k, i :: 0 <= k < |gaps| && 0 <= i < |gaps[k]| ==> !p(gaps[k][i])
    ensures forall k :: 0 < k < |gaps| - 1 ==> gaps[k] != []
  {
    var t, d := TakeRun(s, p), DropRun(s, p);
    gaps := [[]] + g;
    InterleaveRun(t, g, Runs(d, p));
    assert s == t + d;
    assert d != [] ==> !p(d[0]) by {
      if d != [] { assert d[0] == s[|t|]; }
    }
    forall k, i | 0 <= k < |gaps| && 0 <= i < |gaps[k]| ensures !p(gaps[k][i]) {
      assert gaps[k] == g[k - 1];
    }
    forall k | 0 < k < |gaps| - 1 ensures gaps[k] != [] {
      assert gaps[k] == g[k - 1];
    }
  }

  /** `re.sub(P + "+", " ", s)` where `P` is the class `p`. */
  function Squash(s: string, p: char -> bool): (r: string)
    decreases |s|
  {
    if s == [] then []
    else if p(s[0]) then " " + Squash(DropRun(s, p), p)
    else [s[0]] + Squash(s[1..], p)
  }

  /** `str.split()`: the maximal runs of non-whitespace. */
  function SplitWhitespace(s: string): (r: seq<string>)
    ensures forall k :: 0 <= k < |r| ==> r[k] != []
    ensures forall k, i :: 0 <= k < |r| && 0 <= i < |r[k]| ==> !IsSpace(r[k][i])
  {
    Runs(s, IsNonSpace)
  }

  /**
   * The words are the maximal runs of non-whitespace, in order: `s` is the
   * words with whitespace gaps between them, every inner gap non-empty.
   */
  lemma SplitWhitespaceRuns(s: string) returns (gaps: seq<string>)
    ensures |gaps| == |SplitWhitespace(s)| + 1
    ensures Interleave(gaps, SplitWhitespace(s)) == s
    ensures forall k, i :: 0 <= k < |gaps| && 0 <= i < |gaps[k]| ==> IsSpace(gaps[k][i])
    ensures forall k :: 0 < k < |gaps| - 1 ==> gaps[k] != []
  {
    gaps := RunsDecompose(s, IsNonSpace);
  }

  // ---------------------------------------------------------------------------
  // split, splitlines, join
  // ---------------------------------------------------------------------------

  /**
   * `s.split(c)`: the pieces between the occurrences of `c`, none containing
   * `c`; joining them with `c` gives `s` back.
   */
  function Split(s: string, c: char): (r: seq<string>)
    ensures |r| >= 1
    ensures forall k :: 0 <= k < |r| ==> c !in r[k]
    ensures Join(r, [c]) == s
    decreases |s|
  {
    if s == [] then [""]
    else
      var rest := Split(s[1..], c);
      assert s == [s[0]] + s[1..];
      if s[0] == c then
        var r := [""] + rest;
        assert r[1..] == rest;
        r
      else
        var r := [[s[0]] + rest[0]] + rest[1..];
        assert |rest| > 1 ==> r[1..] == rest[1..] && Join(rest, [c]) == rest[0] + [c] + Join(rest[1..], [c]);
        r
  }

  /**
   * `s.splitlines()`, with `"\n"` as the only line boundary: no piece for the
   * empty string, and no empty piece after a final newline; joining the lines
   * with `"\n"` gives `s` back, but for a final newline.
   */
  function SplitLines(s: string): (r: seq<string>)
    ensures forall k :: 0 <= k < |r| ==> '\n' !in r[k]
    ensures s == [] ==> r == []
    ensures s != [] ==> Join(r, "\n") + (if s[|s| - 1] == '\n' then "\n" else "") == s
  {
    if s == [] then []
    else if s[|s| - 1] == '\n' then
      assert s == s[..|s| - 1] + "\n";
      Split(s[..|s| - 1], '\n')
    else Split(s, '\n')
  }

  /** `sep.join(xs)`. */
  function Join(xs: seq<string>, sep: string): string
    decreases |xs|
  {
    if xs == [] then ""
    else if |xs| == 1 then xs[0]
    else xs[0] + sep + Join(xs[1..], sep)
  }

  lemma {:induction false} JoinSnoc(xs: seq<string>, x: string, sep: string)
    requires xs != []
    ensures Join(xs + [x], sep) == Join(xs, sep) + sep + x
    decreases |xs|
  {
    if |xs| == 1 {
      assert xs + [x] == [xs[0], x];
    } else {
      assert (xs + [x])[1..] == xs[1..] + [x];
      JoinSnoc(xs[1..], x, sep);
    }
  }

  lemma {:induction false} JoinLength(xs: seq<string>, sep: string)
    requires xs != []
    ensures |Join(xs, sep)| >= |xs[0]|
    ensures |Join(xs, sep)| >= |xs[|xs| - 1]|
    decreases |xs|
  {
    if |xs| > 1 {
      JoinLength(xs[1..], sep);
    }
  }

  // ---------------------------------------------------------------------------
  // Substrings
  // ---------------------------------------------------------------------------

  /** Python's `a in b` on strings. */
  predicate IsSubstring(a: string, b: string)
    decreases |b|
  {
    a <= b || (b != [] && IsSubstring(a, b[1..]))
  }

  lemma {:induction false} SubstringAt(a: string, b: string, i: nat)
    requires i + |a| <= |b| && b[i..i + |a|] == a
    ensures IsSubstring(a, b)
    decreases i
  {
    if i > 0 {
      assert b[1..][i - 1..i - 1 + |a|] == a;
      SubstringAt(a, b[1..], i - 1);
    }
  }

  lemma {:induction false} SubstringIndex(a: string, b: string) returns (i: nat)
    requires IsSubstring(a, b)
    ensures i + |a| <= |b| && b[i..i + |a|] == a
    decreases |b|
  {
    if a <= b {
      i := 0;
    } else {
      var j := SubstringIndex(a, b[1..]);
      i := j + 1;
      assert b[i..i + |a|] == b[1..][j..j + |a|];
    }
  }
}
