/**
 * `chunk_text` of backend/rag/text_utils.py: a document becomes a list of
 * stripped chunks of about `chunk_size` characters. Paragraphs are packed
 * whole; a paragraph longer than the size is packed line by line; then every
 * chunk but the first is prefixed with the tail of the chunk before it.
 */
module Chunker {
  import opened Wrappers
  import opened Strings
  import opened Seqs

  // ---------------------------------------------------------------------------
  // Normalisation
  // ---------------------------------------------------------------------------

  predicate IsBreak(c: char) { c == '\r' || c == '\n' }

  predicate NotBreak(c: char) { !IsBreak(c) }

  predicate NotNewline(c: char) { c != '\n' }

  /** `s.replace("\r\n", "\n")`, scanning left to right. */
  function ReplaceCrLf(s: string): (r: string)
    ensures |r| <= |s|
    decreases |s|
  {
    if s == [] then []
    else if |s| >= 2 && s[0] == '\r' && s[1] == '\n' then "\n" + ReplaceCrLf(s[2..])
    else [s[0]] + ReplaceCrLf(s[1..])
  }

  /** `.replace("\r\n", "\n").replace("\r", "\n")`. */
  function UnifyLineEnds(s: string): string {
    ReplaceChar(ReplaceCrLf(s), '\r', '\n')
  }

  /** Replacing `"\r\n"` by `"\n"` changes line breaks only. */
  lemma {:induction false} ReplaceCrLfText(s: string)
    ensures Filter(ReplaceCrLf(s), NotBreak) == Filter(s, NotBreak)
    decreases |s|
  {
    if s != [] {
      if |s| >= 2 && s[0] == '\r' && s[1] == '\n' {
        ReplaceCrLfText(s[2..]);
        FilterCons('\n', ReplaceCrLf(s[2..]), NotBreak);
        assert s == [s[0]] + ([s[1]] + s[2..]);
        FilterCons(s[0], [s[1]] + s[2..], NotBreak);
        FilterCons(s[1], s[2..], NotBreak);
      } else {
        ReplaceCrLfText(s[1..]);
        FilterCons(s[0], ReplaceCrLf(s[1..]), NotBreak);
        assert s == [s[0]] + s[1..];
        FilterCons(s[0], s[1..], NotBreak);
      }
    }
  }

  /** Turning one character into another break character changes line breaks only. */
  lemma {:induction false} ReplaceBreakText(s: string)
    ensures Filter(ReplaceChar(s, '\r', '\n'), NotBreak) == Filter(s, NotBreak)
    decreases |s|
  {
    if s != [] {
      var s' := s[..|s| - 1];
      ReplaceBreakText(s');
      assert ReplaceChar(s, '\r', '\n')[..|s'|] == ReplaceChar(s', '\r', '\n');
    }
  }

  /** After both replacements no `'\r'` is left, and everything but line breaks is as it was. */
  lemma UnifyLineEndsMeaning(s: string)
    ensures '\r' !in UnifyLineEnds(s)
    ensures Filter(UnifyLineEnds(s), NotBreak) == Filter(s, NotBreak)
  {
    ReplaceCrLfText(s);
    ReplaceBreakText(ReplaceCrLf(s));
  }

  /**
   * Line ends read in one pass: a CRLF pair, a lone CR and an LF each become
   * exactly one `'\n'`, and every other character is kept.
   */
  function OnePassLineEnds(s: string): string
    decreases |s|
  {
    if s == [] then []
    else if s[0] == '\r' && |s| >= 2 && s[1] == '\n' then "\n" + OnePassLineEnds(s[2..])
    else if s[0] == '\r' then "\n" + OnePassLineEnds(s[1..])
    else [s[0]] + OnePassLineEnds(s[1..])
  }

  lemma ReplaceCharAppend(a: string, b: string, x: char, y: char)
    ensures ReplaceChar(a + b, x, y) == ReplaceChar(a, x, y) + ReplaceChar(b, x, y)
  {
  }

  /** The two replacements together put one `'\n'` at each line end: CRLF, lone CR or LF. */
  lemma {:induction false} UnifyLineEndsOnePass(s: string)
    ensures UnifyLineEnds(s) == OnePassLineEnds(s)
    decreases |s|
  {
    if s != [] {
      if |s| >= 2 && s[0] == '\r' && s[1] == '\n' {
        UnifyLineEndsOnePass(s[2..]);
        ReplaceCharAppend("\n", ReplaceCrLf(s[2..]), '\r', '\n');
      } else {
        UnifyLineEndsOnePass(s[1..]);
        ReplaceCharAppend([s[0]], ReplaceCrLf(s[1..]), '\r', '\n');
      }
    }
  }

  /** `re.sub(r"\n{3,}", "\n\n", s)`: each run of three or more newlines becomes two. */
  function CollapseBlankLines(s: string): (r: string)
    ensures s != [] && s[0] != '\n' ==> r != [] && r[0] == s[0]
    decreases |s|
  {
    if s == [] then []
    else if s[0] != '\n' then [s[0]] + CollapseBlankLines(s[1..])
    else
      var run := TakeRun(s, IsNewline);
      (if |run| >= 3 then "\n\n" else run) + CollapseBlankLines(DropRun(s, IsNewline))
  }

  /** No three newlines in a row. */
  predicate NoTripleBreak(s: string) {
    forall i :: 0 <= i && i + 2 < |s| ==> !(s[i] == '\n' && s[i + 1] == '\n' && s[i + 2] == '\n')
  }

  /** Collapsing leaves no run of three newlines. */
  lemma {:induction false} CollapseNoTriple(s: string)
    ensures NoTripleBreak(CollapseBlankLines(s))
    decreases |s|
  {
    if s != [] {
      if s[0] != '\n' {
        CollapseNoTriple(s[1..]);
        var b := CollapseBlankLines(s[1..]);
        var r := [s[0]] + b;
        forall i | 0 <= i && i + 2 < |r|
          ensures !(r[i] == '\n' && r[i + 1] == '\n' && r[i + 2] == '\n')
        {
          if i > 0 {
            assert r[i] == b[i - 1] && r[i + 1] == b[i] && r[i + 2] == b[i + 1];
          }
        }
      } else {
        var run := TakeRun(s, IsNewline);
        var rest := DropRun(s, IsNewline);
        CollapseNoTriple(rest);
        var a: string := if |run| >= 3 then "\n\n" else run;
        var b := CollapseBlankLines(rest);
        var r := a + b;
        assert rest != [] ==> rest[0] == s[|run|] && rest[0] != '\n';
        forall i | 0 <= i && i + 2 < |r|
          ensures !(r[i] == '\n' && r[i + 1] == '\n' && r[i + 2] == '\n')
        {
          if i >= |a| {
            assert r[i] == b[i - |a|] && r[i + 1] == b[i + 1 - |a|] && r[i + 2] == b[i + 2 - |a|];
          } else {
            // the window reaches the first character after the newlines
            assert r[|a|] == b[0] == rest[0];
          }
        }
      }
    }
  }

  /** A slice of a text without three newlines in a row has none either. */
  lemma SliceNoTriple(s: string, lo: nat, hi: nat)
    requires lo <= hi <= |s| && NoTripleBreak(s)
    ensures NoTripleBreak(s[lo..hi])
  {
    var t := s[lo..hi];
    forall i | 0 <= i && i + 2 < |t|
      ensures !(t[i] == '\n' && t[i + 1] == '\n' && t[i + 2] == '\n')
    {
      assert t[i] == s[lo + i] && t[i + 1] == s[lo + i + 1] && t[i + 2] == s[lo + i + 2];
    }
  }

  /** The text `chunk_text` cuts up: line ends unified, blank lines collapsed, stripped. */
  function Normalized(s: string): (t: string)
    ensures IsStripped(t) && '\r' !in t
  {
    var u := UnifyLineEnds(s);
    UnifyLineEndsMeaning(s);
    var t := Strip(CollapseBlankLines(u));
    assert '\r' !in t by { CollapseKeeps(u, '\r'); StripKeepsOut(CollapseBlankLines(u), '\r'); }
    t
  }

  /** Collapsing only removes newlines: a character other than `'\n'` it produces was there before. */
  lemma {:induction false} CollapseKeeps(s: string, x: char)
    requires x != '\n' && x !in s
    ensures x !in CollapseBlankLines(s)
    decreases |s|
  {
    if s != [] {
      if s[0] != '\n' {
        CollapseKeeps(s[1..], x);
      } else {
        var run := TakeRun(s, IsNewline);
        CollapseKeeps(DropRun(s, IsNewline), x);
        assert forall i :: 0 <= i < |run| ==> run[i] == '\n';
      }
    }
  }

  /** A run of newlines holds no other character. */
  lemma {:induction false} NewlinesFilterOut(w: string)
    requires forall i :: 0 <= i < |w| ==> w[i] == '\n'
    ensures Filter(w, NotNewline) == []
    decreases |w|
  {
    if w != [] {
      NewlinesFilterOut(w[..|w| - 1]);
    }
  }

  /** Collapsing keeps every character other than `'\n'`, in order, and never lengthens. */
  lemma {:induction false} CollapseKeepsText(s: string)
    ensures Filter(CollapseBlankLines(s), NotNewline) == Filter(s, NotNewline)
    ensures |CollapseBlankLines(s)| <= |s|
    decreases |s|
  {
    if s != [] {
      if s[0] != '\n' {
        CollapseKeepsText(s[1..]);
        CollapseKeepsChar(s);
      } else {
        CollapseKeepsText(DropRun(s, IsNewline));
        CollapseKeepsRun(s);
      }
    }
  }

  /** The step of `CollapseKeepsText` for a text that starts with another character. */
  lemma CollapseKeepsChar(s: string)
    requires s != [] && s[0] != '\n'
    requires Filter(CollapseBlankLines(s[1..]), NotNewline) == Filter(s[1..], NotNewline)
    requires |CollapseBlankLines(s[1..])| <= |s[1..]|
    ensures Filter(CollapseBlankLines(s), NotNewline) == Filter(s, NotNewline)
    ensures |CollapseBlankLines(s)| <= |s|
  {
    assert s == [s[0]] + s[1..];
    assert CollapseBlankLines(s) == [s[0]] + CollapseBlankLines(s[1..]);
    FilterCons(s[0], CollapseBlankLines(s[1..]), NotNewline);
    FilterCons(s[0], s[1..], NotNewline);
  }

  /** The step of `CollapseKeepsText` for a text that starts with a run of newlines. */
  lemma CollapseKeepsRun(s: string)
    requires s != [] && s[0] == '\n'
    requires var rest := DropRun(s, IsNewline);
      Filter(CollapseBlankLines(rest), NotNewline) == Filter(rest, NotNewline) &&
      |CollapseBlankLines(rest)| <= |rest|
    ensures Filter(CollapseBlankLines(s), NotNewline) == Filter(s, NotNewline)
    ensures |CollapseBlankLines(s)| <= |s|
  {
    var a := CollapseAtRun(s);
    TakeDropRun(s, IsNewline);
    NewlinesReplaced(TakeRun(s, IsNewline), a, DropRun(s, IsNewline), CollapseBlankLines(DropRun(s, IsNewline)));
  }

  /** A leading run of newlines becomes `a`: two newlines for three or more, else itself. */
  lemma CollapseAtRun(s: string) returns (a: string)
    requires s != [] && s[0] == '\n'
    ensures CollapseBlankLines(s) == a + CollapseBlankLines(DropRun(s, IsNewline))
    ensures |a| <= |TakeRun(s, IsNewline)| && forall i :: 0 <= i < |a| ==> a[i] == '\n'
  {
    var run := TakeRun(s, IsNewline);
    a := if |run| >= 3 then "\n\n" else run;
  }

  /** Newlines before `rest` replaced by no more newlines before `c`. */
  lemma NewlinesReplaced(run: string, a: string, rest: string, c: string)
    requires forall i :: 0 <= i < |run| ==> IsNewline(run[i])
    requires forall i :: 0 <= i < |a| ==> a[i] == '\n'
    requires |a| <= |run| && |c| <= |rest|
    requires Filter(c, NotNewline) == Filter(rest, NotNewline)
    ensures Filter(a + c, NotNewline) == Filter(run + rest, NotNewline)
    ensures |a + c| <= |run + rest|
  {
    NewlinesFilterOut(run);
    NewlinesFilterOut(a);
    FilterAppend(run, rest, NotNewline);
    FilterAppend(a, c, NotNewline);
  }

  /** A text with no run of three newlines is left as it is: only such runs shrink. */
  lemma {:induction false} CollapseFixes(s: string)
    requires NoTripleBreak(s)
    ensures CollapseBlankLines(s) == s
    decreases |s|
  {
    if s != [] {
      if s[0] != '\n' {
        SliceNoTriple(s, 1, |s|);
        CollapseFixes(s[1..]);
        assert s == [s[0]] + s[1..];
      } else {
        var run := TakeRun(s, IsNewline);
        var rest := DropRun(s, IsNewline);
        assert |s| >= 3 ==> !(s[0] == '\n' && s[1] == '\n' && s[2] == '\n');
        assert |run| < 3;
        SliceNoTriple(s, |run|, |s|);
        CollapseFixes(rest);
        assert s == run + rest;
      }
    }
  }

  /** Collapsing twice is collapsing once. */
  lemma CollapseIdempotent(s: string)
    ensures CollapseBlankLines(CollapseBlankLines(s)) == CollapseBlankLines(s)
  {
    CollapseNoTriple(s);
    CollapseFixes(CollapseBlankLines(s));
  }

  /** Stripping never brings in a character. */
  lemma StripKeepsOut(s: string, x: char)
    requires x !in s
    ensures x !in Strip(s)
  {
    var lo := StripSlice(s);
    assert Strip(s) == s[lo..lo + |Strip(s)|];
  }

  /** The normalised text has no run of three newlines. */
  lemma NormalizedNoTriple(s: string)
    ensures NoTripleBreak(Normalized(s))
  {
    var c := CollapseBlankLines(UnifyLineEnds(s));
    CollapseNoTriple(UnifyLineEnds(s));
    var lo := StripSlice(c);
    SliceNoTriple(c, lo, lo + |Strip(c)|);
  }

  // ---------------------------------------------------------------------------
  // Paragraphs
  // ---------------------------------------------------------------------------

  /**
   * `re.split(r"\n\n+", s)`: the pieces between the runs of two or more
   * newlines, the first match taken leftmost and longest.
   */
  function SplitParagraphs(s: string): (r: seq<string>)
    ensures |r| >= 1 && r[0] <= s
    decreases |s|
  {
    if |s| < 2 then [s]
    else if s[0] == '\n' && s[1] == '\n' then [""] + SplitParagraphs(DropRun(s, IsNewline))
    else
      var rest := SplitParagraphs(s[1..]);
      [[s[0]] + rest[0]] + rest[1..]
  }

  /** No two newlines in a row. */
  predicate NoBlankLine(s: string) {
    forall i :: 0 <= i && i + 1 < |s| ==> !(s[i] == '\n' && s[i + 1] == '\n')
  }

  /** Every piece is free of blank lines: the split cuts at each of them. */
  lemma {:induction false} ParagraphsHaveNoBreak(s: string)
    ensures forall k :: 0 <= k < |SplitParagraphs(s)| ==> NoBlankLine(SplitParagraphs(s)[k])
    decreases |s|
  {
    var r := SplitParagraphs(s);
    if |s| >= 2 {
      if s[0] == '\n' && s[1] == '\n' {
        ParagraphsHaveNoBreak(DropRun(s, IsNewline));
        assert r == [""] + SplitParagraphs(DropRun(s, IsNewline));
        forall k | 0 <= k < |r| ensures NoBlankLine(r[k]) {
          if k > 0 { assert r[k] == SplitParagraphs(DropRun(s, IsNewline))[k - 1]; }
        }
      } else {
        ParagraphsHaveNoBreak(s[1..]);
        var rest := SplitParagraphs(s[1..]);
        var first := [s[0]] + rest[0];
        assert r == [first] + rest[1..];
        assert NoBlankLine(first) by {
          forall i | 0 <= i && i + 1 < |first| ensures !(first[i] == '\n' && first[i + 1] == '\n') {
            if i == 0 {
              assert first[1] == rest[0][0] == s[1];
            } else {
              assert first[i] == rest[0][i - 1] && first[i + 1] == rest[0][i];
            }
          }
        }
        forall k | 0 <= k < |r| ensures NoBlankLine(r[k]) {
          if k > 0 { assert r[k] == rest[k]; }
        }
      }
    } else {
      assert r == [s];
    }
  }

  /** Without runs of three newlines, the split is undone by joining with a blank line. */
  lemma {:induction false} ParagraphsRoundTrip(s: string)
    requires NoTripleBreak(s)
    ensures Join(SplitParagraphs(s), "\n\n") == s
    decreases |s|, 1
  {
    if |s| >= 2 {
      if s[0] == '\n' && s[1] == '\n' {
        RoundTripAtBreak(s);
      } else {
        RoundTripAtChar(s);
      }
    }
  }

  /** A text that starts with a blank line: an empty first piece, then the rest. */
  lemma {:induction false} RoundTripAtBreak(s: string)
    requires NoTripleBreak(s) && |s| >= 2 && s[0] == '\n' && s[1] == '\n'
    ensures Join(SplitParagraphs(s), "\n\n") == s
    decreases |s|, 0
  {
    var rest := s[2..];
    assert s == "\n\n" + rest;
    assert rest == [] || rest[0] != '\n' by {
      if rest != [] { assert s[2] == rest[0]; }
    }
    TakeRunPrefix("\n\n", rest, IsNewline);
    assert DropRun(s, IsNewline) == rest;
    SliceNoTriple(s, 2, |s|);
    ParagraphsRoundTrip(rest);
    var ps := SplitParagraphs(rest);
    var r := [""] + ps;
    assert SplitParagraphs(s) == r;
    assert |r| >= 2 && r[0] == "" && r[1..] == ps;
    assert Join(r, "\n\n") == "" + "\n\n" + Join(ps, "\n\n");
  }

  /** A text that does not start with a blank line: its first character opens the first piece. */
  lemma {:induction false} RoundTripAtChar(s: string)
    requires NoTripleBreak(s) && |s| >= 2 && !(s[0] == '\n' && s[1] == '\n')
    ensures Join(SplitParagraphs(s), "\n\n") == s
    decreases |s|, 0
  {
    SliceNoTriple(s, 1, |s|);
    ParagraphsRoundTrip(s[1..]);
    var rest := SplitParagraphs(s[1..]);
    var r := [[s[0]] + rest[0]] + rest[1..];
    assert SplitParagraphs(s) == r;
    if |rest| > 1 {
      assert r[1..] == rest[1..];
      assert Join(r, "\n\n") == [s[0]] + rest[0] + "\n\n" + Join(rest[1..], "\n\n");
    }
    assert s == [s[0]] + s[1..];
  }

  /** The paragraphs of the normalised text, joined by blank lines, give that text back. */
  lemma NormalizedParagraphs(s: string)
    ensures Join(SplitParagraphs(Normalized(s)), "\n\n") == Normalized(s)
  {
    NormalizedNoTriple(s);
    ParagraphsRoundTrip(Normalized(s));
  }

  /** The paragraphs `chunk_text` packs: the stripped, non-blank pieces. */
  function Paragraphs(t: string): seq<string> {
    StrippedPieces(SplitParagraphs(t))
  }

  // ---------------------------------------------------------------------------
  // Effective parameters
  // ---------------------------------------------------------------------------

  /** `max(200, int(chunk_size))`. */
  function EffectiveSize(chunkSize: int): nat {
    if chunkSize < 200 then 200 else chunkSize
  }

  /**
   * `max(0, int(overlap))`, replaced by `max(0, chunk_size // 5)` when it
   * reaches the size (the size is positive, so `//` agrees with `/`).
   */
  function EffectiveOverlap(size: nat, overlap: int): nat {
    var o := if overlap < 0 then 0 else overlap;
    if o >= size then size / 5 else o
  }

  /** The size is at least 200 and the overlap stays below it. */
  lemma EffectiveParams(chunkSize: int, overlap: int)
    ensures var size := EffectiveSize(chunkSize);
      && 200 <= size
      && (chunkSize >= 200 ==> size == chunkSize)
      && var ov := EffectiveOverlap(size, overlap);
      && 0 <= ov < size
      && (0 <= overlap < size ==> ov == overlap)
      && (overlap <= 0 ==> ov == 0)
      && (overlap >= size ==> ov == size / 5)
      && (ov == 0 <==> overlap <= 0)
  {
  }

  // ---------------------------------------------------------------------------
  // Packing paragraphs and lines into base chunks
  // ---------------------------------------------------------------------------

  /**
   * The state of a packing loop: the chunks emitted so far (`base_chunks`)
   * and the open buffer (`cur` in the paragraph loop, `buf` in the line loop).
   */
  datatype Packing = Packing(chunks: seq<string>, open: string)

  /** `flush()`: emit the stripped buffer unless it is blank, and empty it. */
  function Flush(st: Packing): Packing {
    Packing(if st.open != [] && Strip(st.open) != [] then st.chunks + [Strip(st.open)] else st.chunks, [])
  }

  /** `[ln.strip() for ln in p.splitlines() if ln.strip()]`. */
  function Lines(p: string): seq<string> {
    StrippedPieces(SplitLines(p))
  }

  /** One turn of the line loop: a line that does not fit starts a new buffer. */
  function LineStep(st: Packing, ln: string, size: nat): Packing {
    if |st.open| + |ln| + 1 > size then
      Packing(if st.open != [] then st.chunks + [Strip(st.open)] else st.chunks, ln)
    else
      Packing(st.chunks, if st.open != [] then Strip(st.open + "\n" + ln) else ln)
  }

  /** The line loop over `lines`, from state `st`. */
  function LinePass(lines: seq<string>, st: Packing, size: nat): Packing
    decreases |lines|
  {
    if lines == [] then st
    else LineStep(LinePass(lines[..|lines| - 1], st, size), lines[|lines| - 1], size)
  }

  /** The `if buf:` after the line loop. */
  function CloseLines(st: Packing): seq<string> {
    if st.open != [] then st.chunks + [Strip(st.open)] else st.chunks
  }

  /** One turn of the paragraph loop. */
  function ParaStep(st: Packing, part: string, size: nat): Packing {
    var p := Strip(part);
    if p == [] then st
    else if |st.open| + |p| + 2 > size then
      var f := Flush(st);
      if |p| > size then Packing(CloseLines(LinePass(Lines(p), f, size)), [])
      else Packing(f.chunks, p)
    else Packing(st.chunks, if st.open != [] then Strip(st.open + "\n\n" + p) else p)
  }

  /** The paragraph loop over `parts`, from no chunks and an empty `cur`. */
  function PackParts(parts: seq<string>, size: nat): Packing
    decreases |parts|
  {
    if parts == [] then Packing([], [])
    else ParaStep(PackParts(parts[..|parts| - 1], size), parts[|parts| - 1], size)
  }

  /** `base_chunks` after the final `flush()` and the fallback for an empty result. */
  function BaseChunks(t: string, size: nat): seq<string> {
    var b := Flush(PackParts(SplitParagraphs(t), size)).chunks;
    if b == [] then [Take(t, size)] else b
  }

  // ---------------------------------------------------------------------------
  // Sliding overlap
  // ---------------------------------------------------------------------------

  /** The state of the overlap loop: `out` and `prev`. */
  datatype Carry = Carry(out: seq<string>, prev: string)

  /** `(prev[-overlap:] + "\n" + c).strip()`. */
  function Carried(prev: string, c: string, ov: nat): string {
    Strip(Last(prev, ov) + "\n" + c)
  }

  /** One turn of the overlap loop. */
  function SlideStep(st: Carry, chunk: string, ov: nat): Carry {
    var c := Strip(chunk);
    if c == [] then st
    else if st.prev != [] then Carry(st.out + [Carried(st.prev, c, ov)], c)
    else Carry(st.out + [c], c)
  }

  function SlidePass(base: seq<string>, ov: nat): Carry
    decreases |base|
  {
    if base == [] then Carry([], [])
    else SlideStep(SlidePass(base[..|base| - 1], ov), base[|base| - 1], ov)
  }

  predicate NonBlank(c: string) { Strip(c) != [] }

  /** `chunk_text(text, chunk_size, overlap)`; `None` stands for an argument that is not a `str`. */
  function ChunkSpec(text: Option<string>, chunkSize: int, overlap: int): seq<string> {
    if text.None? then []
    else
      var t := Normalized(text.value);
      if t == [] then []
      else
        var size := EffectiveSize(chunkSize);
        var ov := EffectiveOverlap(size, overlap);
        var base := BaseChunks(t, size);
        if ov == 0 then Filter(base, NonBlank) else SlidePass(base, ov).out
  }

  // ---------------------------------------------------------------------------
  // Shape of the base chunks
  // ---------------------------------------------------------------------------

  /** A base chunk: non-empty, stripped, and within the size unless it is a single line. */
  predicate ChunkOk(c: string, size: nat) {
    c != [] && IsStripped(c) && (|c| <= size || '\n' !in c)
  }

  predicate AllOk(cs: seq<string>, size: nat) {
    forall k :: 0 <= k < |cs| ==> ChunkOk(cs[k], size)
  }

  /** What the line list of a paragraph holds. */
  predicate LineOk(ln: string) {
    ln != [] && IsStripped(ln) && '\n' !in ln
  }

  /** The lines of a paragraph are non-empty, stripped and newline-free. */
  lemma LinesOk(p: string)
    ensures forall k :: 0 <= k < |Lines(p)| ==> LineOk(Lines(p)[k])
  {
    StrippedPiecesShape(SplitLines(p), NotNewline);
    forall k | 0 <= k < |Lines(p)| ensures '\n' !in Lines(p)[k] {
      assert forall i :: 0 <= i < |Lines(p)[k]| ==> NotNewline(Lines(p)[k][i]);
    }
  }

  /** The line loop keeps its buffer stripped, and non-empty once a line has been read. */
  lemma {:induction false} LinePassOpen(lines: seq<string>, st: Packing, size: nat)
    requires IsStripped(st.open)
    requires forall k :: 0 <= k < |lines| ==> LineOk(lines[k])
    ensures IsStripped(LinePass(lines, st, size).open)
    ensures lines != [] ==> LinePass(lines, st, size).open != []
    decreases |lines|
  {
    if lines != [] {
      var pre := LinePass(lines[..|lines| - 1], st, size);
      LinePassOpen(lines[..|lines| - 1], st, size);
      if pre.open != [] {
        StrippedGlue(pre.open, "\n", lines[|lines| - 1]);
      }
    }
  }

  /** The line buffer: empty, or a chunk as every base chunk is. */
  predicate LinesInv(st: Packing, size: nat) {
    AllOk(st.chunks, size) && (st.open == [] || ChunkOk(st.open, size))
  }

  lemma LineStepOk(st: Packing, ln: string, size: nat)
    requires LinesInv(st, size) && LineOk(ln)
    ensures LinesInv(LineStep(st, ln, size), size)
    ensures st.chunks <= LineStep(st, ln, size).chunks
  {
    if st.open != [] {
      StripOfStripped(st.open);
      StrippedGlue(st.open, "\n", ln);
    }
  }

  /** The line loop emits only good chunks and never drops one already emitted. */
  lemma {:induction false} LinePassOk(lines: seq<string>, st: Packing, size: nat)
    requires LinesInv(st, size)
    requires forall k :: 0 <= k < |lines| ==> LineOk(lines[k])
    ensures LinesInv(LinePass(lines, st, size), size)
    ensures st.chunks <= LinePass(lines, st, size).chunks
    decreases |lines|
  {
    if lines != [] {
      var pre := LinePass(lines[..|lines| - 1], st, size);
      LinePassOk(lines[..|lines| - 1], st, size);
      LineStepOk(pre, lines[|lines| - 1], size);
    }
  }

  /** The paragraph loop's state: good chunks, and a stripped `cur` within the size. */
  predicate PackInv(st: Packing, size: nat) {
    AllOk(st.chunks, size) && IsStripped(st.open) && |st.open| <= size
  }

  /** Something has been packed: a chunk emitted or `cur` non-empty. */
  predicate Live(st: Packing) {
    st.chunks != [] || st.open != []
  }

  /** A stripped paragraph that is not empty has at least one line. */
  lemma LinesNonEmpty(p: string)
    requires p != [] && IsStripped(p)
    ensures Lines(p) != []
  {
    assert p[|p| - 1] != '\n';
    var ls := SplitLines(p);
    assert ls == Split(p, '\n');
    assert ls[0] != [] && ls[0][0] == p[0];
    StrippedPiecesNonEmpty(ls, 0);
  }

  /** A piece with a non-space character survives `StrippedPieces`. */
  lemma {:induction false} StrippedPiecesNonEmpty(xs: seq<string>, k: nat)
    requires k < |xs| && xs[k] != [] && !IsSpace(xs[k][0])
    ensures StrippedPieces(xs) != []
    decreases |xs|
  {
    if k == |xs| - 1 {
      var _ := StripSlice(xs[k]);
    } else {
      StrippedPiecesNonEmpty(xs[..|xs| - 1], k);
    }
  }

  /** A paragraph longer than the size goes line by line into good chunks, at least one. */
  lemma LongParagraphOk(f: Packing, p: string, size: nat)
    requires AllOk(f.chunks, size) && f.open == []
    requires p != [] && IsStripped(p)
    ensures var r := CloseLines(LinePass(Lines(p), f, size));
      AllOk(r, size) && r != [] && f.chunks <= r
  {
    LinesOk(p);
    LinesNonEmpty(p);
    LinePassOk(Lines(p), f, size);
    LinePassOpen(Lines(p), f, size);
    StripOfStripped(LinePass(Lines(p), f, size).open);
  }

  lemma ParaStepOk(st: Packing, part: string, size: nat)
    requires PackInv(st, size)
    ensures PackInv(ParaStep(st, part, size), size)
    ensures Live(st) || Strip(part) != [] ==> Live(ParaStep(st, part, size))
  {
    var p := Strip(part);
    if p != [] {
      if st.open != [] {
        StripOfStripped(st.open);
      }
      if |st.open| + |p| + 2 > size {
        var f := Flush(st);
        assert AllOk(f.chunks, size);
        if |p| > size {
          LongParagraphOk(f, p, size);
        }
      } else if st.open != [] {
        StrippedGlue(st.open, "\n\n", p);
      }
    }
  }

  /** The paragraph loop keeps its invariant... */
  lemma {:induction false} PackPartsOk(parts: seq<string>, size: nat)
    ensures PackInv(PackParts(parts, size), size)
    decreases |parts|
  {
    if parts != [] {
      PackPartsOk(parts[..|parts| - 1], size);
      ParaStepOk(PackParts(parts[..|parts| - 1], size), parts[|parts| - 1], size);
    }
  }

  /** ...and has packed something once a non-blank part has gone by. */
  lemma {:induction false} PackPartsLive(parts: seq<string>, size: nat, k: nat)
    requires k < |parts| && Strip(parts[k]) != []
    ensures Live(PackParts(parts, size))
    decreases |parts|
  {
    var pre := parts[..|parts| - 1];
    PackPartsOk(pre, size);
    if k < |parts| - 1 {
      PackPartsLive(pre, size, k);
    }
    ParaStepOk(PackParts(pre, size), parts[|parts| - 1], size);
  }

  /** The first piece of a stripped, non-empty text starts with its first character. */
  lemma FirstParagraph(t: string)
    requires t != [] && IsStripped(t)
    ensures SplitParagraphs(t)[0] != [] && SplitParagraphs(t)[0][0] == t[0]
  {
  }

  /**
   * For a non-empty normalised text the fallback `[t[:chunk_size]]` is never
   * taken, and every base chunk is non-empty, stripped and within the size
   * unless it is one line longer than the size.
   */
  lemma BaseChunksOk(t: string, size: nat)
    requires t != [] && IsStripped(t)
    ensures BaseChunks(t, size) == Flush(PackParts(SplitParagraphs(t), size)).chunks
    ensures BaseChunks(t, size) != []
    ensures AllOk(BaseChunks(t, size), size)
  {
    var parts := SplitParagraphs(t);
    FirstParagraph(t);
    var _ := StripSlice(parts[0]);
    PackPartsLive(parts, size, 0);
    PackPartsOk(parts, size);
    var st := PackParts(parts, size);
    if st.open != [] {
      StripOfStripped(st.open);
    }
  }

  // ---------------------------------------------------------------------------
  // Nothing is lost, nothing is reordered
  // ---------------------------------------------------------------------------

  /** Gluing onto the last piece of a join is gluing onto the join. */
  lemma JoinGlue(xs: seq<string>, a: string, sep: string, b: string)
    ensures Join(xs + [a + sep + b], sep) == Join(xs + [a], sep) + sep + b
  {
    if xs == [] {
      assert xs + [a + sep + b] == [a + sep + b];
      assert xs + [a] == [a];
    } else {
      JoinSnoc(xs, a + sep + b, sep);
      JoinSnoc(xs, a, sep);
    }
  }

  /** All paragraphs fit the size. */
  predicate AllShort(ps: seq<string>, size: nat) {
    forall k :: 0 <= k < |ps| ==> |ps[k]| <= size
  }

  /**
   * The chunks and `cur` of the paragraph loop, joined by blank lines, are the
   * paragraphs `ps` read so far joined by blank lines; `cur` is empty only
   * before the first of them.
   */
  predicate Grouped(st: Packing, ps: seq<string>) {
    && (st.open == [] <==> ps == [])
    && (st.open == [] ==> st.chunks == [])
    && (st.open != [] ==> Join(st.chunks + [st.open], "\n\n") == Join(ps, "\n\n"))
  }

  /** A paragraph that fits the size is either glued to `cur` or starts the next `cur`. */
  lemma ParaStepJoin(st: Packing, ps: seq<string>, part: string, size: nat)
    requires PackInv(st, size) && Grouped(st, ps)
    requires |Strip(part)| <= size
    ensures Grouped(ParaStep(st, part, size), ps + (if Strip(part) != [] then [Strip(part)] else []))
  {
    var p := Strip(part);
    if p != [] {
      if st.open == [] {
        assert ps + [p] == [p];
      } else {
        StripOfStripped(st.open);
        if |st.open| + |p| + 2 > size {
          JoinSnoc(st.chunks + [st.open], p, "\n\n");
        } else {
          StrippedGlue(st.open, "\n\n", p);
          JoinGlue(st.chunks, st.open, "\n\n", p);
        }
        JoinSnoc(ps, p, "\n\n");
      }
    } else {
      assert ps + [] == ps;
    }
  }

  /**
   * When no paragraph is longer than the size, the paragraph loop only groups
   * consecutive paragraphs.
   */
  lemma {:induction false} PackPartsJoin(parts: seq<string>, size: nat)
    requires AllShort(StrippedPieces(parts), size)
    ensures Grouped(PackParts(parts, size), StrippedPieces(parts))
    decreases |parts|
  {
    if parts != [] {
      var pre := parts[..|parts| - 1];
      var ps := StrippedPieces(pre);
      var p := Strip(parts[|parts| - 1]);
      assert StrippedPieces(parts) == ps + (if p != [] then [p] else []);
      forall k | 0 <= k < |ps| ensures |ps[k]| <= size {
        assert ps[k] == StrippedPieces(parts)[k];
      }
      if p != [] {
        assert StrippedPieces(parts)[|ps|] == p;
      }
      PackPartsJoin(pre, size);
      PackPartsOk(pre, size);
      ParaStepJoin(PackParts(pre, size), ps, parts[|parts| - 1], size);
    }
  }

  /**
   * When every paragraph fits the size, the base chunks joined by blank lines
   * are exactly the paragraphs joined by blank lines: no paragraph is split,
   * none is lost, and the order is kept.
   */
  lemma ShortParagraphsKept(t: string, size: nat)
    requires t != [] && IsStripped(t)
    requires AllShort(Paragraphs(t), size)
    ensures Join(BaseChunks(t, size), "\n\n") == Join(Paragraphs(t), "\n\n")
  {
    BaseChunksOk(t, size);
    var parts := SplitParagraphs(t);
    PackPartsJoin(parts, size);
    PackPartsOk(parts, size);
    var st := PackParts(parts, size);
    if st.open != [] {
      StripOfStripped(st.open);
    }
  }

  /** A substring of `a` is a substring of anything `a` is glued to. */
  lemma SubstringExtend(q: string, a: string, b: string)
    requires IsSubstring(q, a)
    ensures IsSubstring(q, a + b) && IsSubstring(q, b + a)
  {
    var i := SubstringIndex(q, a);
    assert (a + b)[i..i + |q|] == q;
    SubstringAt(q, a + b, i);
    assert (b + a)[|b| + i..|b| + i + |q|] == q;
    SubstringAt(q, b + a, |b| + i);
  }

  /** `q` lies whole inside one of `cs`. */
  predicate Contained(q: string, cs: seq<string>) {
    exists c :: c in cs && IsSubstring(q, c)
  }

  /** Emitting more chunks keeps what was inside one. */
  lemma ContainedGrow(q: string, a: seq<string>, b: seq<string>)
    requires Contained(q, a) && a <= b
    ensures Contained(q, b)
  {
    var c :| c in a && IsSubstring(q, c);
    assert c in b;
  }

  /** Every paragraph of `ps` that fits the size lies whole inside an emitted chunk or inside `cur`. */
  predicate WholeIn(st: Packing, ps: seq<string>, size: nat) {
    forall q :: q in ps && q != [] && |q| <= size ==> Contained(q, st.chunks) || IsSubstring(q, st.open)
  }

  /** Every paragraph of `ps` that fits the size lies whole inside one of `cs`. */
  predicate AllContained(ps: seq<string>, cs: seq<string>, size: nat) {
    forall q :: q in ps && q != [] && |q| <= size ==> Contained(q, cs)
  }

  /** `flush()` moves what was inside `cur` into the emitted chunks. */
  lemma WholeAfterFlush(st: Packing, ps: seq<string>, size: nat)
    requires IsStripped(st.open) && WholeIn(st, ps, size)
    ensures AllContained(ps, Flush(st).chunks, size)
  {
    var f := Flush(st);
    if st.open != [] {
      StripOfStripped(st.open);
    }
    assert st.chunks <= f.chunks;
    forall q | q in ps && q != [] && |q| <= size ensures Contained(q, f.chunks) {
      if Contained(q, st.chunks) {
        ContainedGrow(q, st.chunks, f.chunks);
      } else {
        assert st.open in f.chunks;
      }
    }
  }

  /** Chunks emitted after the others leave the others in place. */
  lemma AllContainedGrow(ps: seq<string>, a: seq<string>, b: seq<string>, size: nat)
    requires AllContained(ps, a, size) && a <= b
    ensures AllContained(ps, b, size)
  {
    forall q | q in ps && q != [] && |q| <= size ensures Contained(q, b) {
      ContainedGrow(q, a, b);
    }
  }

  /** Gluing `p` to `cur` keeps `cur`'s paragraphs inside it and brings `p` in. */
  lemma WholeGlue(st: Packing, ps: seq<string>, p: string, size: nat)
    requires WholeIn(st, ps, size) && IsStripped(st.open)
    requires p != [] && IsStripped(p)
    ensures WholeIn(Packing(st.chunks, if st.open != [] then Strip(st.open + "\n\n" + p) else p), ps + [p], size)
  {
    assert IsSubstring(p, p);
    if st.open != [] {
      StrippedGlue(st.open, "\n\n", p);
      var g := st.open + ("\n\n" + p);
      assert Strip(st.open + "\n\n" + p) == g;
      forall q | q in ps && q != [] && |q| <= size && IsSubstring(q, st.open)
        ensures IsSubstring(q, g)
      {
        SubstringExtend(q, st.open, "\n\n" + p);
      }
      SubstringExtend(p, p, st.open + "\n\n");
      assert st.open + "\n\n" + p == g;
    }
  }

  /** A paragraph that fits the size is never cut, and what was whole stays whole. */
  lemma ParaStepWhole(st: Packing, ps: seq<string>, part: string, size: nat)
    requires PackInv(st, size) && WholeIn(st, ps, size)
    ensures WholeIn(ParaStep(st, part, size), ps + (if Strip(part) != [] then [Strip(part)] else []), size)
  {
    var p := Strip(part);
    if p == [] {
      assert ps + [] == ps;
    } else if |st.open| + |p| + 2 > size {
      var f := Flush(st);
      WholeAfterFlush(st, ps, size);
      if |p| > size {
        LongParagraphOk(f, p, size);
        AllContainedGrow(ps, f.chunks, CloseLines(LinePass(Lines(p), f, size)), size);
      } else {
        assert IsSubstring(p, p);
      }
    } else {
      WholeGlue(st, ps, p, size);
    }
  }

  /** The paragraph loop cuts no paragraph that fits the size. */
  lemma {:induction false} PackPartsWhole(parts: seq<string>, size: nat)
    ensures WholeIn(PackParts(parts, size), StrippedPieces(parts), size)
    decreases |parts|
  {
    if parts != [] {
      var pre := parts[..|parts| - 1];
      PackPartsWhole(pre, size);
      PackPartsOk(pre, size);
      ParaStepWhole(PackParts(pre, size), StrippedPieces(pre), parts[|parts| - 1], size);
    }
  }

  /**
   * Whatever the other paragraphs are, a paragraph that fits the size lies
   * whole inside one base chunk.
   */
  lemma ShortParagraphWhole(t: string, size: nat)
    requires t != [] && IsStripped(t)
    ensures forall q :: q in Paragraphs(t) && |q| <= size ==> Contained(q, BaseChunks(t, size))
  {
    var parts := SplitParagraphs(t);
    BaseChunksOk(t, size);
    PackPartsWhole(parts, size);
    PackPartsOk(parts, size);
    var st := PackParts(parts, size);
    var base := Flush(st).chunks;
    forall q | q in Paragraphs(t) && |q| <= size ensures Contained(q, base) {
      assert q != [];
      if Contained(q, st.chunks) {
        ContainedGrow(q, st.chunks, base);
      } else {
        assert IsSubstring(q, st.open) && st.open != [];
        StripOfStripped(st.open);
        assert st.open in base;
      }
    }
  }

  /** What a paragraph is packed as: itself when it fits the size, else its lines. */
  function Units(p: string, size: nat): seq<string> {
    if |p| <= size then [p] else Lines(p)
  }

  /** The units of the paragraphs `ps`, in order. */
  function AllUnits(ps: seq<string>, size: nat): seq<string>
    decreases |ps|
  {
    if ps == [] then [] else AllUnits(ps[..|ps| - 1], size) + Units(ps[|ps| - 1], size)
  }

  /** Each of `cs` is the non-empty group of `gs` beside it joined by `sep`. */
  predicate JoinsBy(cs: seq<string>, gs: seq<seq<string>>, sep: string) {
    |gs| == |cs| && forall k :: 0 <= k < |cs| ==> gs[k] != [] && cs[k] == Join(gs[k], sep)
  }

  /** Each of `cs` is its non-empty group joined by a blank line or by a newline. */
  predicate GroupsOf(cs: seq<string>, gs: seq<seq<string>>) {
    |gs| == |cs| && forall k :: 0 <= k < |cs| ==>
      gs[k] != [] && (cs[k] == Join(gs[k], "\n\n") || cs[k] == Join(gs[k], "\n"))
  }

  lemma JoinsBySnoc(cs: seq<string>, gs: seq<seq<string>>, sep: string, c: string, g: seq<string>)
    requires JoinsBy(cs, gs, sep) && g != [] && c == Join(g, sep)
    ensures JoinsBy(cs + [c], gs + [g], sep)
  {
  }

  lemma GroupsSnoc(cs: seq<string>, gs: seq<seq<string>>, c: string, g: seq<string>, sep: string)
    requires GroupsOf(cs, gs) && g != [] && c == Join(g, sep) && (sep == "\n\n" || sep == "\n")
    ensures GroupsOf(cs + [c], gs + [g])
  {
  }

  lemma GroupsAppend(cs: seq<string>, gs: seq<seq<string>>, ds: seq<string>, hs: seq<seq<string>>)
    requires GroupsOf(cs, gs) && JoinsBy(ds, hs, "\n")
    ensures GroupsOf(cs + ds, gs + hs)
  {
    forall k | 0 <= k < |cs + ds|
      ensures (gs + hs)[k] != [] && ((cs + ds)[k] == Join((gs + hs)[k], "\n\n") || (cs + ds)[k] == Join((gs + hs)[k], "\n"))
    {
      if k >= |cs| {
        assert (cs + ds)[k] == ds[k - |cs|] && (gs + hs)[k] == hs[k - |cs|];
      }
    }
  }

  /** The same string joined with one more item, when the item is glued on. */
  lemma ConcatSnoc<T>(gs: seq<seq<T>>, og: seq<T>, x: T)
    ensures Concat(gs) + (og + [x]) == (Concat(gs) + og) + [x]
  {
  }

  lemma ConcatThree<T>(a: seq<seq<T>>, b: seq<seq<T>>, x: seq<T>)
    ensures Concat(a + b + [x]) == Concat(a) + (Concat(b) + x)
  {
    ConcatAppend(a, b);
    assert (a + b + [x])[..|a + b|] == a + b;
  }

  /**
   * The line loop of a long paragraph, started with an empty buffer, only
   * appends; each chunk it appends, and its buffer, is a group of
   * consecutive lines joined by newlines, and the groups in order are the
   * lines: no line is split, none is lost, and the order is kept.
   */
  lemma {:induction false} LinePassGroups(lines: seq<string>, c0: seq<string>, size: nat)
    returns (lg: seq<seq<string>>, ob: seq<string>)
    requires forall k :: 0 <= k < |lines| ==> LineOk(lines[k])
    ensures var st := LinePass(lines, Packing(c0, []), size);
      && c0 <= st.chunks
      && JoinsBy(st.chunks[|c0|..], lg, "\n")
      && (st.open == [] <==> ob == [])
      && st.open == Join(ob, "\n")
      && Concat(lg) + ob == lines
    decreases |lines|
  {
    if lines == [] {
      lg, ob := [], [];
      return;
    }
    var pre := lines[..|lines| - 1];
    var ln := lines[|lines| - 1];
    assert lines == pre + [ln];
    var g, b := LinePassGroups(pre, c0, size);
    LinePassOpen(pre, Packing(c0, []), size);
    var st := LinePass(pre, Packing(c0, []), size);
    var added := st.chunks[|c0|..];
    if st.open == [] {
      lg, ob := g, [ln];
      assert Concat(g) == pre;
      if |st.open| + |ln| + 1 > size {
        assert LineStep(st, ln, size).chunks == st.chunks;
      }
    } else {
      StripOfStripped(st.open);
      if |st.open| + |ln| + 1 > size {
        lg, ob := g + [b], [ln];
        assert (st.chunks + [st.open])[|c0|..] == added + [st.open];
        JoinsBySnoc(added, g, "\n", st.open, b);
        assert Concat(g + [b]) == Concat(g) + b;
      } else {
        lg, ob := g, b + [ln];
        StrippedGlue(st.open, "\n", ln);
        JoinSnoc(b, ln, "\n");
        ConcatSnoc(g, b, ln);
      }
    }
  }

  /**
   * The paragraph loop's state against the units `us` read so far: the
   * emitted chunks are the groups `gs`, `cur` is the group `og` joined by
   * blank lines, and the groups followed by `og` are `us`.
   */
  predicate InGroups(st: Packing, gs: seq<seq<string>>, og: seq<string>, us: seq<string>) {
    && GroupsOf(st.chunks, gs)
    && (st.open == [] <==> og == [])
    && st.open == Join(og, "\n\n")
    && Concat(gs) + og == us
  }

  lemma AllUnitsSnoc(ps: seq<string>, p: string, size: nat)
    ensures AllUnits(ps + [p], size) == AllUnits(ps, size) + Units(p, size)
  {
    assert (ps + [p])[..|ps|] == ps;
  }

  /** `flush()` closes the open group. */
  lemma FlushGroups(st: Packing, gs: seq<seq<string>>, og: seq<string>, us: seq<string>)
    returns (gf: seq<seq<string>>)
    requires InGroups(st, gs, og, us) && IsStripped(st.open)
    ensures GroupsOf(Flush(st).chunks, gf) && Concat(gf) == us
  {
    if st.open != [] {
      StripOfStripped(st.open);
      gf := gs + [og];
      GroupsSnoc(st.chunks, gs, st.open, og, "\n\n");
    } else {
      gf := gs;
      assert Concat(gs) + [] == Concat(gs);
    }
  }

  /** A long paragraph adds groups of its lines after the flushed chunks. */
  lemma LongParagraphGroups(f: Packing, gf: seq<seq<string>>, p: string, size: nat)
    returns (g2: seq<seq<string>>)
    requires GroupsOf(f.chunks, gf) && f.open == []
    requires p != [] && IsStripped(p)
    ensures GroupsOf(CloseLines(LinePass(Lines(p), f, size)), g2)
    ensures Concat(g2) == Concat(gf) + Lines(p)
  {
    LinesOk(p);
    LinesNonEmpty(p);
    assert f == Packing(f.chunks, []);
    g2 := LinesGroups(f.chunks, gf, Lines(p), size);
  }

  lemma LinesGroups(c0: seq<string>, gf: seq<seq<string>>, lines: seq<string>, size: nat)
    returns (g2: seq<seq<string>>)
    requires GroupsOf(c0, gf)
    requires lines != [] && forall k :: 0 <= k < |lines| ==> LineOk(lines[k])
    ensures GroupsOf(CloseLines(LinePass(lines, Packing(c0, []), size)), g2)
    ensures Concat(g2) == Concat(gf) + lines
  {
    var lg, ob := LinePassGroups(lines, c0, size);
    LinePassOpen(lines, Packing(c0, []), size);
    var st := LinePass(lines, Packing(c0, []), size);
    var added := st.chunks[|c0|..];
    assert st.chunks == c0 + added;
    assert st.open != [] && ob != [];
    assert CloseLines(st) == st.chunks + [st.open] by {
      StripOfStripped(st.open);
    }
    assert GroupsOf(st.chunks, gf + lg) by {
      GroupsAppend(c0, gf, added, lg);
    }
    GroupsSnoc(st.chunks, gf + lg, st.open, ob, "\n");
    g2 := gf + lg + [ob];
    ConcatThree(gf, lg, ob);
  }

  /** One turn of the paragraph loop keeps the grouping, one paragraph further. */
  lemma ParaStepGroups(st: Packing, gs: seq<seq<string>>, og: seq<string>, ps: seq<string>, part: string, size: nat)
    returns (gs': seq<seq<string>>, og': seq<string>)
    requires PackInv(st, size) && InGroups(st, gs, og, AllUnits(ps, size))
    ensures var p := Strip(part);
      InGroups(ParaStep(st, part, size), gs', og', AllUnits(ps + (if p != [] then [p] else []), size))
  {
    var p := Strip(part);
    if p == [] {
      gs', og' := gs, og;
      assert ps + [] == ps;
      return;
    }
    AllUnitsSnoc(ps, p, size);
    if |st.open| + |p| + 2 > size {
      var gf := FlushGroups(st, gs, og, AllUnits(ps, size));
      var f := Flush(st);
      if |p| > size {
        gs' := LongParagraphGroups(f, gf, p, size);
        og' := [];
      } else {
        gs', og' := gf, [p];
      }
    } else {
      if st.open != [] {
        StripOfStripped(st.open);
        StrippedGlue(st.open, "\n\n", p);
        JoinSnoc(og, p, "\n\n");
        gs', og' := gs, og + [p];
        ConcatSnoc(gs, og, p);
      } else {
        gs', og' := gs, [p];
      }
    }
  }

  /** The paragraph loop keeps the grouping. */
  lemma {:induction false} PackPartsGroups(parts: seq<string>, size: nat)
    returns (gs: seq<seq<string>>, og: seq<string>)
    ensures InGroups(PackParts(parts, size), gs, og, AllUnits(StrippedPieces(parts), size))
    decreases |parts|
  {
    if parts == [] {
      gs, og := [], [];
      return;
    }
    var pre := parts[..|parts| - 1];
    var p := Strip(parts[|parts| - 1]);
    assert StrippedPieces(parts) == StrippedPieces(pre) + (if p != [] then [p] else []);
    var g, o := PackPartsGroups(pre, size);
    PackPartsOk(pre, size);
    gs, og := ParaStepGroups(PackParts(pre, size), g, o, StrippedPieces(pre), parts[|parts| - 1], size);
  }

  /**
   * Whatever the paragraphs, each base chunk is a run of consecutive units
   * (whole paragraphs joined by blank lines, or lines of one long paragraph
   * joined by newlines), and the runs in order are all the units: no
   * paragraph that fits is cut, no line is cut, nothing is lost and the order
   * is kept.
   */
  lemma BaseChunksGrouped(t: string, size: nat) returns (gs: seq<seq<string>>)
    requires t != [] && IsStripped(t)
    ensures GroupsOf(BaseChunks(t, size), gs)
    ensures Concat(gs) == AllUnits(Paragraphs(t), size)
  {
    BaseChunksOk(t, size);
    var parts := SplitParagraphs(t);
    var g, o := PackPartsGroups(parts, size);
    PackPartsOk(parts, size);
    gs := FlushGroups(PackParts(parts, size), g, o, AllUnits(Paragraphs(t), size));
  }

  // ---------------------------------------------------------------------------
  // The overlap
  // ---------------------------------------------------------------------------

  /** `a` is a suffix of `b`. */
  predicate IsSuffix(a: string, b: string) {
    |a| <= |b| && b[|b| - |a|..] == a
  }

  /**
   * Carrying the tail of `prev` over to a stripped chunk `c` keeps all of `c`
   * at the end, and what comes before it is the end of the carried tail.
   */
  lemma CarriedShape(prev: string, c: string, ov: nat)
    requires c != [] && IsStripped(c)
    ensures var x := Carried(prev, c, ov);
      && x != [] && IsStripped(x)
      && IsSuffix(c, x)
      && IsSuffix(x, Last(prev, ov) + "\n" + c)
  {
    StripBeforeStripped(Last(prev, ov) + "\n", c);
  }

  /**
   * On chunks that are non-empty and stripped, the overlap loop emits one
   * chunk per base chunk: the first as it is, each later one prefixed with
   * the tail of the base chunk before it (not of the chunk emitted before it).
   */
  lemma {:induction false} SlidePassShape(base: seq<string>, ov: nat)
    requires forall k :: 0 <= k < |base| ==> base[k] != [] && IsStripped(base[k])
    ensures var r := SlidePass(base, ov);
      && |r.out| == |base|
      && r.prev == (if base == [] then [] else base[|base| - 1])
      && (base != [] ==> r.out[0] == base[0])
      && forall i :: 1 <= i < |base| ==> r.out[i] == Carried(base[i - 1], base[i], ov)
    decreases |base|
  {
    if base != [] {
      var pre := base[..|base| - 1];
      SlidePassShape(pre, ov);
      SlideStepShape(SlidePass(pre, ov), base, ov);
    }
  }

  /** One step of the overlap loop, on the last chunk of `base`, keeps the shape `SlidePassShape` states. */
  lemma SlideStepShape(r: Carry, base: seq<string>, ov: nat)
    requires base != []
    requires forall k :: 0 <= k < |base| ==> base[k] != [] && IsStripped(base[k])
    requires var pre := base[..|base| - 1];
      && |r.out| == |pre|
      && r.prev == (if pre == [] then [] else pre[|pre| - 1])
      && (pre != [] ==> r.out[0] == pre[0])
      && forall i :: 1 <= i < |pre| ==> r.out[i] == Carried(pre[i - 1], pre[i], ov)
    ensures var r' := SlideStep(r, base[|base| - 1], ov);
      && |r'.out| == |base|
      && r'.prev == base[|base| - 1]
      && r'.out[0] == base[0]
      && forall i :: 1 <= i < |base| ==> r'.out[i] == Carried(base[i - 1], base[i], ov)
  {
    var pre := base[..|base| - 1];
    var c := base[|base| - 1];
    StripOfStripped(c);
    var out := SlideStep(r, c, ov).out;
    if pre == [] {
      assert out == [c];
    } else {
      assert r.prev == pre[|pre| - 1] && r.prev != [];
      assert out == r.out + [Carried(r.prev, c, ov)];
      assert out[0] == r.out[0];
    }
    forall i | 1 <= i < |base|
      ensures out[i] == Carried(base[i - 1], base[i], ov)
    {
      if i < |pre| {
        assert out[i] == r.out[i] && base[i] == pre[i] && base[i - 1] == pre[i - 1];
      } else {
        assert i == |r.out| && base[i - 1] == pre[|pre| - 1];
      }
    }
  }

  // ---------------------------------------------------------------------------
  // What chunk_text returns
  // ---------------------------------------------------------------------------

  /** With no overlap the chunks are exactly the base chunks. */
  lemma ZeroOverlapIsBase(s: string, chunkSize: int, overlap: int)
    requires Normalized(s) != [] && overlap <= 0
    ensures ChunkSpec(Some(s), chunkSize, overlap) == BaseChunks(Normalized(s), EffectiveSize(chunkSize))
  {
    var t := Normalized(s);
    var size := EffectiveSize(chunkSize);
    EffectiveParams(chunkSize, overlap);
    var base := BaseChunks(t, size);
    BaseChunksOk(t, size);
    forall k | 0 <= k < |base| ensures NonBlank(base[k]) {
      StripOfStripped(base[k]);
    }
    FilterAll(base, NonBlank);
  }

  /**
   * The overlap loop on non-empty, stripped chunks: the first is kept, and
   * each later chunk `i` ends with base chunk `i` whole, preceded by at most
   * `ov` characters from the end of base chunk `i - 1` and a newline.
   */
  lemma SlideSummary(base: seq<string>, ov: nat)
    requires base != []
    requires forall k :: 0 <= k < |base| ==> base[k] != [] && IsStripped(base[k])
    ensures var out := SlidePass(base, ov).out;
      && |out| == |base| && out[0] == base[0]
      && forall i :: 1 <= i < |out| ==>
           && out[i] == Carried(base[i - 1], base[i], ov)
           && IsSuffix(base[i], out[i])
           && IsSuffix(out[i], Last(base[i - 1], ov) + "\n" + base[i])
           && |out[i]| <= ov + 1 + |base[i]|
  {
    SlidePassShape(base, ov);
    var out := SlidePass(base, ov).out;
    forall i | 1 <= i < |out|
      ensures IsSuffix(base[i], out[i]) && IsSuffix(out[i], Last(base[i - 1], ov) + "\n" + base[i])
      ensures |out[i]| <= ov + 1 + |base[i]|
    {
      CarriedShape(base[i - 1], base[i], ov);
    }
  }

  /**
   * With a positive overlap there is one chunk per base chunk: the first is
   * the first base chunk, and each later one is base chunk `i` whole at the
   * end, preceded by at most `overlap` characters taken from the end of base
   * chunk `i - 1` (not of the chunk emitted before it) and a newline.
   */
  lemma SlidingOverlap(s: string, chunkSize: int, overlap: int)
    requires Normalized(s) != [] && overlap > 0
    ensures var size := EffectiveSize(chunkSize);
      var ov := EffectiveOverlap(size, overlap);
      var base := BaseChunks(Normalized(s), size);
      var out := ChunkSpec(Some(s), chunkSize, overlap);
      && |out| == |base| && out[0] == base[0]
      && forall i :: 1 <= i < |out| ==>
           && out[i] == Carried(base[i - 1], base[i], ov)
           && IsSuffix(base[i], out[i])
           && IsSuffix(out[i], Last(base[i - 1], ov) + "\n" + base[i])
           && |out[i]| <= ov + 1 + |base[i]|
  {
    var t := Normalized(s);
    var size := EffectiveSize(chunkSize);
    var ov := EffectiveOverlap(size, overlap);
    EffectiveParams(chunkSize, overlap);
    var base := BaseChunks(t, size);
    BaseChunksOk(t, size);
    assert ChunkSpec(Some(s), chunkSize, overlap) == SlidePass(base, ov).out;
    SlideSummary(base, ov);
  }

  /**
   * `chunk_text` returns no chunk exactly for a non-string or a blank text,
   * and every chunk it returns is non-empty and stripped.
   */
  lemma ChunksShape(text: Option<string>, chunkSize: int, overlap: int)
    ensures var out := ChunkSpec(text, chunkSize, overlap);
      && (out == [] <==> text.None? || Normalized(text.value) == [])
      && forall k :: 0 <= k < |out| ==> out[k] != [] && IsStripped(out[k])
  {
    var out := ChunkSpec(text, chunkSize, overlap);
    if text.Some? && Normalized(text.value) != [] {
      var s := text.value;
      var size := EffectiveSize(chunkSize);
      var base := BaseChunks(Normalized(s), size);
      BaseChunksOk(Normalized(s), size);
      if overlap <= 0 {
        ZeroOverlapIsBase(s, chunkSize, overlap);
        forall k | 0 <= k < |out| ensures out[k] != [] && IsStripped(out[k]) {
          assert out[k] == base[k] && ChunkOk(base[k], size);
        }
      } else {
        SlidingOverlap(s, chunkSize, overlap);
        var ov := EffectiveOverlap(size, overlap);
        forall k | 0 <= k < |out| ensures out[k] != [] && IsStripped(out[k]) {
          if k == 0 {
            assert out[0] == base[0] && ChunkOk(base[0], size);
          } else {
            assert IsSuffix(base[k], out[k]) && base[k] != [];
            assert out[k] == Carried(base[k - 1], base[k], ov);
          }
        }
      }
    }
  }

  /**
   * With no overlap every chunk is within the size unless it is a single
   * line longer than the size.
   */
  lemma ZeroOverlapBound(text: Option<string>, chunkSize: int, overlap: int)
    requires overlap <= 0
    ensures AllOk(ChunkSpec(text, chunkSize, overlap), EffectiveSize(chunkSize))
  {
    if text.Some? && Normalized(text.value) != [] {
      ZeroOverlapIsBase(text.value, chunkSize, overlap);
      BaseChunksOk(Normalized(text.value), EffectiveSize(chunkSize));
    }
  }

  // ---------------------------------------------------------------------------
  // The loops
  // ---------------------------------------------------------------------------

  /** The line loop of a paragraph longer than the size, and the `if buf:` after it. */
  method PackLines(lines: seq<string>, chunks: seq<string>, size: nat) returns (out: seq<string>)
    ensures out == CloseLines(LinePass(lines, Packing(chunks, []), size))
  {
    out := chunks;
    var buf: string := [];
    for j := 0 to |lines|
      invariant Packing(out, buf) == LinePass(lines[..j], Packing(chunks, []), size)
    {
      var ln := lines[j];
      if |buf| + |ln| + 1 > size {
        if buf != [] {
          out := out + [Strip(buf)];
        }
        buf := ln;
      } else {
        buf := if buf != [] then Strip(buf + "\n" + ln) else ln;
      }
      assert lines[..j + 1][..j] == lines[..j];
    }
    assert lines[..|lines|] == lines;
    if buf != [] {
      out := out + [Strip(buf)];
    }
  }

  /** The paragraph loop, and the final `flush()`. */
  method PackParagraphs(parts: seq<string>, size: nat) returns (base: seq<string>)
    ensures base == Flush(PackParts(parts, size)).chunks
  {
    base := [];
    var cur: string := [];
    for i := 0 to |parts|
      invariant Packing(base, cur) == PackParts(parts[..i], size)
    {
      var p := Strip(parts[i]);
      if p != [] {
        if |cur| + |p| + 2 > size {
          var f := Flush(Packing(base, cur));
          base, cur := f.chunks, f.open;
          if |p| > size {
            base := PackLines(Lines(p), base, size);
          } else {
            cur := p;
          }
        } else {
          cur := if cur != [] then Strip(cur + "\n\n" + p) else p;
        }
      }
      assert parts[..i + 1][..i] == parts[..i];
    }
    assert parts[..|parts|] == parts;
    var f := Flush(Packing(base, cur));
    base := f.chunks;
  }

  /** The overlap loop. */
  method SlideOverlap(base: seq<string>, ov: nat) returns (out: seq<string>)
    ensures out == SlidePass(base, ov).out
  {
    out := [];
    var prev: string := [];
    for i := 0 to |base|
      invariant Carry(out, prev) == SlidePass(base[..i], ov)
    {
      assert base[..i + 1][..i] == base[..i];
      ghost var next := SlideStep(Carry(out, prev), base[i], ov);
      assert SlidePass(base[..i + 1], ov) == next;
      var c := Strip(base[i]);
      if c != [] {
        if prev != [] {
          var prefix := Last(prev, ov);
          out := out + [Strip(prefix + "\n" + c)];
        } else {
          out := out + [c];
        }
        prev := c;
      }
      assert Carry(out, prev) == next;
    }
    assert base[..|base|] == base;
  }

  /** `chunk_text`. */
  method ChunkText(text: Option<string>, chunkSize: int, overlap: int) returns (chunks: seq<string>)
    ensures chunks == ChunkSpec(text, chunkSize, overlap)
    ensures chunks == [] <==> text.None? || Normalized(text.value) == []
    ensures forall k :: 0 <= k < |chunks| ==> chunks[k] != [] && IsStripped(chunks[k])
  {
    ChunksShape(text, chunkSize, overlap);
    if text.None? {
      return [];
    }
    var t := Normalized(text.value);
    if t == [] {
      return [];
    }
    var size := EffectiveSize(chunkSize);
    var ov := EffectiveOverlap(size, overlap);
    var parts := SplitParagraphs(t);
    var base := PackParagraphs(parts, size);
    if base == [] {
      base := [Take(t, size)];
    }
    if ov == 0 {
      return Filter(base, NonBlank);
    }
    chunks := SlideOverlap(base, ov);
  }
}
