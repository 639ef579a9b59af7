/**
 * Text folding and keyword extraction (`_fold`, `_tokens`, `_overlap_words`
 * in backend/app.py).
 */
module Normalize {
  import opened Strings

  // ---------------------------------------------------------------------------
  // _fold
  // ---------------------------------------------------------------------------

  /**
   * The accent-stripping step (NFKD, then dropping combining marks) for the
   * lower-case Latin-1 letters and the Latin-1 characters whose compatibility
   * decomposition is one ASCII character (`ª`, `º`, `¹`, `²`, `³`); every other
   * character is left as it is.
   */
  function StripAccent(c: char): (r: char)
    ensures c < '\U{80}' ==> r == c
    ensures '\U{E0}' <= c <= '\U{E5}' ==> r == 'a'
    ensures c == '\U{E7}' ==> r == 'c'
    ensures '\U{E8}' <= c <= '\U{EB}' ==> r == 'e'
    ensures '\U{EC}' <= c <= '\U{EF}' ==> r == 'i'
    ensures c == '\U{F1}' ==> r == 'n'
    ensures '\U{F2}' <= c <= '\U{F6}' ==> r == 'o'
    ensures '\U{F9}' <= c <= '\U{FC}' ==> r == 'u'
    ensures c == '\U{FD}' || c == '\U{FF}' ==> r == 'y'
    ensures c == '\U{AA}' ==> r == 'a'
    ensures c == '\U{BA}' ==> r == 'o'
    ensures c == '\U{B9}' ==> r == '1'
    ensures c == '\U{B2}' ==> r == '2'
    ensures c == '\U{B3}' ==> r == '3'
    ensures r == c || IsLowerAlnum(r)
  {
    if c == '\U{AA}' then 'a'
    else if c == '\U{BA}' then 'o'
    else if c == '\U{B9}' then '1'
    else if c == '\U{B2}' then '2'
    else if c == '\U{B3}' then '3'
    else if '\U{E0}' <= c <= '\U{E5}' then 'a'
    else if c == '\U{E7}' then 'c'
    else if '\U{E8}' <= c <= '\U{EB}' then 'e'
    else if '\U{EC}' <= c <= '\U{EF}' then 'i'
    else if c == '\U{F1}' then 'n'
    else if '\U{F2}' <= c <= '\U{F6}' then 'o'
    else if '\U{F9}' <= c <= '\U{FC}' then 'u'
    else if c == '\U{FD}' || c == '\U{FF}' then 'y'
    else c
  }

  /** `lower()` followed by the accent-stripping step, character by character. */
  function FoldChar(c: char): char {
    StripAccent(LowerChar(c))
  }

  /**
   * `unicodedata.combining(ch) != 0` on the Combining Diacritical Marks block:
   * every mark of U+0300-U+036F but the grapheme joiner U+034F, whose
   * combining class is 0.
   */
  predicate IsCombining(c: char) {
    '\U{300}' <= c <= '\U{36F}' && c != '\U{34F}'
  }

  /** Folding a character leaves a combining mark as it is and makes no new one. */
  lemma FoldCharCombining(c: char)
    ensures IsCombining(FoldChar(c)) <==> IsCombining(c)
    ensures IsCombining(c) ==> FoldChar(c) == c
  {
  }

  /** `lower()` and the accent-stripping step on every character, marks included. */
  function FoldEach(s: string): (r: string)
    ensures |r| == |s|
    ensures forall i :: 0 <= i < |s| ==> r[i] == FoldChar(s[i])
  {
    seq(|s|, i requires 0 <= i < |s| => FoldChar(s[i]))
  }

  /** `"".join(ch for ch in s if not unicodedata.combining(ch))`. */
  function DropMarks(s: string): (r: string)
    ensures |r| <= |s|
    ensures forall i :: 0 <= i < |r| ==> !IsCombining(r[i])
    decreases |s|
  {
    if s == [] then []
    else (if IsCombining(s[0]) then [] else [s[0]]) + DropMarks(s[1..])
  }

  lemma {:induction false} DropMarksAppend(a: string, b: string)
    ensures DropMarks(a + b) == DropMarks(a) + DropMarks(b)
    decreases |a|
  {
    if a == [] {
      assert a + b == b;
    } else {
      assert (a + b)[0] == a[0] && (a + b)[1..] == a[1..] + b;
      DropMarksAppend(a[1..], b);
    }
  }

  /** A text without marks is kept as it is. */
  lemma {:induction false} DropMarksNone(s: string)
    requires forall i :: 0 <= i < |s| ==> !IsCombining(s[i])
    ensures DropMarks(s) == s
    decreases |s|
  {
    if s != [] {
      assert forall i :: 0 <= i < |s| - 1 ==> s[1..][i] == s[i + 1];
      DropMarksNone(s[1..]);
    }
  }

  /**
   * The first three steps of `_fold`: `lower()`, NFKD, and the removal of the
   * combining marks. A mark is dropped, whether it was in the text or is what
   * is left of an accented letter; every other character is folded.
   */
  function FoldChars(s: string): (r: string)
    ensures |r| <= |s|
    ensures forall i :: 0 <= i < |r| ==> !IsCombining(r[i])
  {
    DropMarks(FoldEach(s))
  }

  /** Without marks in the text, the character step is `FoldChar` on every character. */
  lemma FoldCharsNoMarks(s: string)
    requires forall i :: 0 <= i < |s| ==> !IsCombining(s[i])
    ensures FoldChars(s) == FoldEach(s)
  {
    forall i | 0 <= i < |s| ensures !IsCombining(FoldEach(s)[i]) {
      FoldCharCombining(s[i]);
    }
    DropMarksNone(FoldEach(s));
  }

  lemma FoldCharsAppend(a: string, b: string)
    ensures FoldChars(a + b) == FoldChars(a) + FoldChars(b)
  {
    assert FoldEach(a + b) == FoldEach(a) + FoldEach(b);
    DropMarksAppend(FoldEach(a), FoldEach(b));
  }

  /** One character: a mark is dropped, anything else is folded. */
  lemma FoldCharsOne(c: char)
    ensures FoldChars([c]) == if IsCombining(c) then [] else [FoldChar(c)]
  {
    FoldCharCombining(c);
    assert FoldEach([c]) == [FoldChar(c)];
    assert [FoldChar(c)][1..] == [];
  }

  /** Combining marks in the text make no difference to the character step. */
  lemma {:induction false} FoldCharsIgnoresMarks(s: string)
    ensures FoldChars(s) == FoldChars(DropMarks(s))
    decreases |s|
  {
    if s != [] {
      var head: string := if IsCombining(s[0]) then [] else [s[0]];
      assert s == [s[0]] + s[1..];
      FoldCharsIgnoresMarks(s[1..]);
      FoldCharsAppend([s[0]], s[1..]);
      FoldCharsAppend(head, DropMarks(s[1..]));
      FoldCharsOne(s[0]);
      assert FoldChars([]) == [];
    }
  }

  /** One combining mark between two pieces of text is dropped. */
  lemma MarkDropped(a: string, m: char, b: string)
    requires IsCombining(m)
    ensures FoldChars(a + [m] + b) == FoldChars(a + b)
  {
    FoldCharsAppend(a + [m], b);
    FoldCharsAppend(a, [m]);
    FoldCharsAppend(a, b);
    FoldCharsOne(m);
  }

  /** Texts that agree character by character once folded give the same character step. */
  lemma FoldCharsAgree(x: string, y: string)
    requires |x| == |y| && forall i :: 0 <= i < |x| ==> FoldChar(x[i]) == FoldChar(y[i])
    ensures FoldChars(x) == FoldChars(y)
  {
    assert FoldEach(x) == FoldEach(y);
  }

  /** The class `[^a-z0-9\s]`. */
  predicate IsOther(c: char) {
    !IsLowerAlnum(c) && !IsSpace(c)
  }

  /**
   * `_fold`: lower-case, strip accents, squash the rest to single spaces,
   * strip. What it returns holds only `[a-z0-9 ]`, with single spaces and none
   * at either end.
   */
  function Fold(s: string): (r: string)
    ensures IsFolded(r)
  {
    if s == [] then []
    else
      var a := Squash(FoldChars(s), IsOther);
      FirstSubstitution(s);
      SecondSubstitution(a);
      StripFolded(Squash(a, IsSpace));
      Strip(Squash(a, IsSpace))
  }

  /** The characters `[a-z0-9 ]`. */
  predicate IsFoldedChar(c: char) {
    IsLowerAlnum(c) || c == ' '
  }

  /** The shape of folded text: `[a-z0-9 ]` only, single spaces, none at the ends. */
  predicate IsFolded(s: string) {
    && (forall i :: 0 <= i < |s| ==> IsFoldedChar(s[i]))
    && IsStripped(s)
    && NoDoubleSpace(s)
  }

  predicate NoDoubleSpace(s: string) {
    forall i :: 0 <= i < |s| - 1 ==> !(s[i] == ' ' && s[i + 1] == ' ')
  }

  /** The first character of a squashed string. */
  lemma SquashHead(s: string, p: char -> bool)
    requires s != []
    ensures Squash(s, p) != [] && Squash(s, p)[0] == if p(s[0]) then ' ' else s[0]
  {
  }

  /** A squashed character is the replacement space or a character outside the class. */
  lemma {:induction false} SquashKeeps(s: string, p: char -> bool, q: char -> bool)
    requires forall i :: 0 <= i < |s| ==> q(s[i]) || p(s[i])
    ensures forall i :: 0 <= i < |Squash(s, p)| ==> Squash(s, p)[i] == ' ' || (q(Squash(s, p)[i]) && !p(Squash(s, p)[i]))
    decreases |s|
  {
    if s != [] {
      if p(s[0]) {
        var d := DropRun(s, p);
        forall i | 0 <= i < |d| ensures q(d[i]) || p(d[i]) {
          assert d[i] == s[|TakeRun(s, p)| + i];
        }
        SquashKeeps(d, p, q);
      } else {
        SquashKeeps(s[1..], p, q);
      }
    }
  }

  /** When the replacement space is itself in the class, no two spaces end up adjacent. */
  lemma {:induction false} SquashNoDouble(s: string, p: char -> bool)
    requires p(' ')
    ensures NoDoubleSpace(Squash(s, p))
    decreases |s|
  {
    if s != [] {
      var r := Squash(s, p);
      if p(s[0]) {
        var d := DropRun(s, p);
        SquashNoDouble(d, p);
        if d != [] {
          assert !p(d[0]);
          SquashHead(d, p);
        }
        assert r == " " + Squash(d, p);
      } else {
        SquashNoDouble(s[1..], p);
        assert r == [s[0]] + Squash(s[1..], p);
      }
    }
  }

  /** Squashing a class that does not occur changes nothing. */
  lemma {:induction false} SquashAbsent(s: string, p: char -> bool)
    requires forall i :: 0 <= i < |s| ==> !p(s[i])
    ensures Squash(s, p) == s
    decreases |s|
  {
    if s != [] {
      SquashAbsent(s[1..], p);
    }
  }

  /** Squashing a class that only occurs as isolated spaces changes nothing. */
  lemma {:induction false} SquashSingles(s: string, p: char -> bool)
    requires forall i :: 0 <= i < |s| ==> p(s[i]) ==> s[i] == ' '
    requires forall i :: 0 <= i < |s| - 1 ==> !(p(s[i]) && p(s[i + 1]))
    ensures Squash(s, p) == s
    decreases |s|
  {
    if s != [] {
      if p(s[0]) {
        assert TakeRun(s, p) == [s[0]] by {
          if |s| > 1 {
            assert !p(s[1]);
            assert s[1..] != [] && !p(s[1..][0]);
          }
        }
        SquashSingles(s[1..], p);
      } else {
        SquashSingles(s[1..], p);
      }
    }
  }

  /** The character step and the first substitution leave only `[a-z0-9]` and whitespace. */
  lemma FirstSubstitution(s: string)
    ensures forall i :: 0 <= i < |Squash(FoldChars(s), IsOther)| ==>
      IsLowerAlnum(Squash(FoldChars(s), IsOther)[i]) || IsSpace(Squash(FoldChars(s), IsOther)[i])
  {
    SquashKeeps(FoldChars(s), IsOther, (ch: char) => IsLowerAlnum(ch) || IsSpace(ch));
  }

  /** The second substitution leaves only `[a-z0-9 ]`, with single spaces. */
  lemma SecondSubstitution(b: string)
    requires forall i :: 0 <= i < |b| ==> IsLowerAlnum(b[i]) || IsSpace(b[i])
    ensures forall i :: 0 <= i < |Squash(b, IsSpace)| ==>
      IsFoldedChar(Squash(b, IsSpace)[i])
    ensures NoDoubleSpace(Squash(b, IsSpace))
  {
    SquashKeeps(b, IsSpace, IsLowerAlnum);
    SquashNoDouble(b, IsSpace);
  }

  /** A slice of single-spaced text is single-spaced. */
  lemma SliceNoDouble(c: string, lo: nat, hi: nat)
    requires lo <= hi <= |c|
    requires NoDoubleSpace(c)
    ensures NoDoubleSpace(c[lo..hi])
  {
    var r := c[lo..hi];
    forall i | 0 <= i < |r| - 1 ensures !(r[i] == ' ' && r[i + 1] == ' ') {
      assert r[i] == c[lo + i] && r[i + 1] == c[lo + i + 1];
    }
  }

  /** Stripping keeps the alphabet and the single spacing. */
  lemma StripFolded(c: string)
    requires forall i :: 0 <= i < |c| ==> IsFoldedChar(c[i])
    requires NoDoubleSpace(c)
    ensures IsFolded(Strip(c))
  {
    StripKeeps(c, IsFoldedChar);
    var lo := StripSlice(c);
    SliceNoDouble(c, lo, lo + |Strip(c)|);
  }

  /** The character step leaves `[a-z0-9 ]` alone. */
  lemma FoldCharsOfFolded(w: string)
    requires forall i :: 0 <= i < |w| ==> IsFoldedChar(w[i])
    ensures FoldChars(w) == w
  {
    FoldCharsNoMarks(w);
  }

  /** Folded text is a fixed point of folding. */
  lemma FoldOfFolded(w: string)
    requires IsFolded(w)
    ensures Fold(w) == w
  {
    if w != [] {
      FoldCharsOfFolded(w);
      assert forall i :: 0 <= i < |w| ==> !IsOther(w[i]);
      SquashAbsent(w, IsOther);
      assert forall i :: 0 <= i < |w| ==> IsSpace(w[i]) ==> w[i] == ' ';
      SquashSingles(w, IsSpace);
      StripOfStripped(w);
    }
  }

  /** Folding is idempotent. */
  lemma FoldIdempotent(s: string)
    ensures Fold(Fold(s)) == Fold(s)
  {
    FoldOfFolded(Fold(s));
  }

  // ---------------------------------------------------------------------------
  // _tokens
  // ---------------------------------------------------------------------------

  /** `_STOPWORDS_FR`. */
  const Stopwords: set<string> := {
    "cest", "c", "est", "qui", "quoi", "que", "qu", "de", "des", "du", "la", "le", "les", "un", "une",
    "et", "ou", "a", "\U{E0}", "au", "aux", "dans", "sur", "pour", "par", "en", "ce", "cet", "cette",
    "ces", "mon", "ma", "mes", "ton", "ta", "tes", "son", "sa", "ses", "leur", "leurs", "avec", "sans",
    "plus", "moins", "d", "l", "y", "il", "elle", "on", "nous", "vous", "ils", "elles", "definir",
    "donne", "donner", "explique", "expliquer", "svp", "stp"
  }

  /** `_SHORT_KEEP`: short words kept despite the minimum keyword length. */
  const ShortKeep: set<string> := {"ia", "ml", "dl", "cv", "rag", "tel"}

  /** The filter `_tokens` applies to each folded word. */
  predicate IsKeyword(w: string, minLen: int) {
    w != [] && w !in Stopwords && (|w| >= minLen || w in ShortKeep)
  }

  /** The words of `ws` that pass the filter, collected left to right. */
  function KeywordsOf(ws: seq<string>, minLen: int): (r: set<string>)
    ensures forall w :: w in r <==> w in ws && IsKeyword(w, minLen)
    decreases |ws|
  {
    if ws == [] then {}
    else
      var w := ws[|ws| - 1];
      assert ws == ws[..|ws| - 1] + [w];
      KeywordsOf(ws[..|ws| - 1], minLen) + (if IsKeyword(w, minLen) then {w} else {})
  }

  lemma KeywordsOfStep(ws: seq<string>, i: nat, minLen: int)
    requires i < |ws|
    ensures KeywordsOf(ws[..i + 1], minLen)
      == KeywordsOf(ws[..i], minLen) + (if IsKeyword(ws[i], minLen) then {ws[i]} else {})
  {
    assert ws[..i + 1][..i] == ws[..i];
  }

  /** The keyword set of `text`: its folded words that pass the filter. */
  function Keywords(text: string, minLen: int): set<string> {
    KeywordsOf(SplitWhitespace(Fold(text)), minLen)
  }

  /** Every character of every maximal run is a character of the text. */
  lemma {:induction false} RunsKeep(s: string, p: char -> bool, q: char -> bool)
    requires forall i :: 0 <= i < |s| ==> q(s[i])
    ensures forall k, i :: 0 <= k < |Runs(s, p)| && 0 <= i < |Runs(s, p)[k]| ==> q(Runs(s, p)[k][i])
    decreases |s|
  {
    if s != [] {
      if !p(s[0]) {
        RunsKeep(s[1..], p, q);
      } else {
        var t := TakeRun(s, p);
        var d := DropRun(s, p);
        assert forall i :: 0 <= i < |t| ==> t[i] == s[i];
        assert forall i :: 0 <= i < |d| ==> d[i] == s[|t| + i];
        RunsKeep(d, p, q);
      }
    }
  }

  /** The words of folded text are non-empty and made of `[a-z0-9]`. */
  lemma FoldedWords(s: string)
    ensures forall k :: 0 <= k < |SplitWhitespace(Fold(s))| ==>
      var w := SplitWhitespace(Fold(s))[k];
      w != [] && forall i :: 0 <= i < |w| ==> IsLowerAlnum(w[i])
  {
    var f := Fold(s);
    RunsKeep(f, IsNonSpace, IsFoldedChar);
  }

  /** `_tokens`: the loop over the folded words, collecting those that pass the filter. */
  method Tokens(text: string, minLen: int) returns (toks: set<string>)
    ensures toks == Keywords(text, minLen)
  {
    var t := Fold(text);
    if t == [] {
      return {};
    }
    toks := {};
    var words := SplitWhitespace(t);
    for i := 0 to |words|
      invariant toks == KeywordsOf(words[..i], minLen)
    {
      var w := words[i];
      KeywordsOfStep(words, i, minLen);
      if w == [] {
        continue;
      }
      if w in Stopwords {
        continue;
      }
      if |w| < minLen && w !in ShortKeep {
        continue;
      }
      toks := toks + {w};
    }
    assert words[..|words|] == words;
  }

  /** Every keyword passes the filter and is made of `[a-z0-9]`. */
  lemma KeywordShape(text: string, minLen: int)
    ensures forall w :: w in Keywords(text, minLen) ==>
      IsKeyword(w, minLen) && forall i :: 0 <= i < |w| ==> IsLowerAlnum(w[i])
  {
    FoldedWords(text);
  }

  /** `str.lower` does nothing to a character it has lowered already. */
  lemma LowerCharTwice(c: char)
    ensures LowerChar(LowerChar(c)) == LowerChar(c)
  {
  }

  /**
   * Two texts that agree character by character once each character is
   * lower-cased and stripped of its accent have the same fold and the same
   * keywords.
   */
  lemma FoldAgrees(x: string, y: string, minLen: int)
    requires |x| == |y| && forall i :: 0 <= i < |x| ==> FoldChar(x[i]) == FoldChar(y[i])
    ensures Fold(x) == Fold(y)
    ensures Keywords(x, minLen) == Keywords(y, minLen)
  {
    FoldCharsAgree(x, y);
    FoldByChars(x, y, minLen);
  }

  /** The fold, and so the keywords, depend on the text only through the character step. */
  lemma FoldByChars(x: string, y: string, minLen: int)
    requires FoldChars(x) == FoldChars(y)
    ensures Fold(x) == Fold(y)
    ensures Keywords(x, minLen) == Keywords(y, minLen)
  {
    assert Strip([]) == [];
  }

  /** Combining marks already in the text are dropped: they neither split nor change a word. */
  lemma KeywordsIgnoreMarks(x: string, minLen: int)
    ensures Fold(x) == Fold(DropMarks(x))
    ensures Keywords(x, minLen) == Keywords(DropMarks(x), minLen)
  {
    FoldCharsIgnoresMarks(x);
    FoldByChars(x, DropMarks(x), minLen);
  }

  /** Keywords ignore case. */
  lemma KeywordsIgnoreCase(x: string, minLen: int)
    ensures Keywords(Lower(x), minLen) == Keywords(x, minLen)
  {
    forall i | 0 <= i < |x| ensures FoldChar(Lower(x)[i]) == FoldChar(x[i]) {
      LowerCharTwice(x[i]);
    }
    FoldAgrees(Lower(x), x, minLen);
  }

  /** Keywords ignore case and accents: `Télé` and `tele` give the same ones. */
  lemma KeywordsIgnoreAccents(minLen: int)
    ensures Keywords("T\U{E9}l\U{E9}", minLen) == Keywords("tele", minLen)
  {
    var x, y := "T\U{E9}l\U{E9}", "tele";
    assert FoldChar(x[0]) == 't' && FoldChar(x[1]) == 'e' && FoldChar(x[2]) == 'l' && FoldChar(x[3]) == 'e';
    FoldAgrees(x, y, minLen);
  }

  /**
   * Decomposed input, as NFD-encoded French arrives: `te\u0301le\u0301phone`
   * folds to `telephone` and has its keywords.
   */
  lemma KeywordsOfDecomposedText(x: string, y: string, minLen: int)
    requires x == "te\U{301}le\U{301}phone" && y == "telephone"
    ensures Fold(x) == Fold(y)
    ensures Keywords(x, minLen) == Keywords(y, minLen)
  {
    assert x == "te" + ['\U{301}'] + ("le" + ['\U{301}'] + "phone");
    assert y == "te" + ("le" + "phone");
    TwoMarksDropped("te", "le", "phone", '\U{301}', minLen);
  }

  /** Two combining marks inside a word are dropped, and the word stays whole. */
  lemma TwoMarksDropped(a: string, b: string, c: string, m: char, minLen: int)
    requires IsCombining(m)
    ensures Fold(a + [m] + (b + [m] + c)) == Fold(a + (b + c))
    ensures Keywords(a + [m] + (b + [m] + c), minLen) == Keywords(a + (b + c), minLen)
  {
    MarkDropped(a, m, b + [m] + c);
    MarkDropped(a + b, m, c);
    assert a + (b + [m] + c) == (a + b) + [m] + c;
    assert (a + b) + c == a + (b + c);
    FoldByChars(a + [m] + (b + [m] + c), a + (b + c), minLen);
  }

  /** Folding first does not change the keywords. */
  lemma KeywordsOfFolded(text: string, minLen: int)
    ensures Keywords(Fold(text), minLen) == Keywords(text, minLen)
  {
    FoldIdempotent(text);
  }

  // ---------------------------------------------------------------------------
  // _overlap_words
  // ---------------------------------------------------------------------------

  lemma SubsetCard(a: set<string>, b: set<string>)
    requires a <= b
    ensures |a| <= |b|
  {
    assert b == a + (b - a);
  }

  lemma SharedWitness(q: set<string>, d: set<string>)
    ensures q * d != {} <==> exists w :: w in q && w in d
  {
    if exists w :: w in q && w in d {
      var w :| w in q && w in d;
      assert w in q * d;
    }
  }

  /**
   * `_overlap_words`: the number of keywords the two sets share (its early
   * return for an empty side gives the same 0).
   */
  function Overlap(q: set<string>, d: set<string>): (r: nat)
    ensures r <= |q| && r <= |d|
  {
    SubsetCard(q * d, q);
    SubsetCard(q * d, d);
    |q * d|
  }

  /** The overlap is bounded by either side and is positive exactly when a keyword is shared. */
  lemma OverlapMeaning(q: set<string>, d: set<string>)
    ensures Overlap(q, d) > 0 <==> exists w :: w in q && w in d
    ensures q == {} || d == {} ==> Overlap(q, d) == 0
  {
    SharedWitness(q, d);
  }
}
