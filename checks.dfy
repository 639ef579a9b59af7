/**
 * The strict checks of backend/app.py on an answer: `_looks_like_refusal`,
 * `_split_sentences`, `_verbatim_ok` and `_extractive_answer_from_sources`.
 */
module Checks {
  import opened Strings
  import opened Seqs
  import opened Normalize
  import opened Hits

  /** `NO_ANSWER`, the one refusal the service ever returns. */
  const NoAnswer: string := "Je ne trouve pas la r\U{E9}ponse dans les documents fournis."

  // ---------------------------------------------------------------------------
  // _looks_like_refusal
  // ---------------------------------------------------------------------------

  /**
   * `p` occurs in `a` at `i` between word boundaries; for a phrase that starts
   * and ends with a word character this is `\b` + `p` + `\b` matching there.
   */
  predicate BoundedAt(a: string, p: string, i: nat) {
    && i + |p| <= |a|
    && a[i..i + |p|] == p
    && (i == 0 || !IsWordChar(a[i - 1]))
    && (i + |p| == |a| || !IsWordChar(a[i + |p|]))
  }

  /** `re.search(r"\b" + p + r"\b", a)`. */
  predicate ContainsPhrase(a: string, p: string) {
    exists i: nat :: i <= |a| && BoundedAt(a, p, i)
  }

  const NotFoundPhrase: string := "je ne trouve pas"

  const NotInDocsPhrase: string := "pas dans les documents"

  /**
   * The words `je n['’]ai pas trouv[ée]?` can match: straight or curly
   * apostrophe, and "trouv", "trouve" or "trouvé" (the optional letter is
   * tried first and dropped when no boundary follows it).
   */
  const NotFoundPastPhrases: seq<string> := [
    "je n'ai pas trouv", "je n'ai pas trouve", "je n'ai pas trouv\U{E9}",
    "je n\U{2019}ai pas trouv", "je n\U{2019}ai pas trouve", "je n\U{2019}ai pas trouv\U{E9}"
  ]

  /** `_REFUSAL_PATTERNS`, searched in the folded answer. */
  predicate MatchesRefusalPattern(a: string) {
    || ContainsPhrase(a, NotFoundPhrase)
    || (exists j :: 0 <= j < |NotFoundPastPhrases| && ContainsPhrase(a, NotFoundPastPhrases[j]))
    || ContainsPhrase(a, NotInDocsPhrase)
  }

  /**
   * `_looks_like_refusal`: the folded answer contains the folded `NO_ANSWER`
   * or one of the refusal phrases.
   */
  predicate LooksLikeRefusal(answer: string) {
    var a := Fold(answer);
    IsSubstring(Fold(NoAnswer), a) || MatchesRefusalPattern(a)
  }

  /** The service's own refusal is recognised as one. */
  lemma NoAnswerIsRefusal()
    ensures LooksLikeRefusal(NoAnswer)
  {
    var a := Fold(NoAnswer);
    assert a[0..|a|] == a;
    SubstringAt(a, a, 0);
  }

  /** Any answer that contains the refusal, folded, is one. */
  lemma ContainsNoAnswer(answer: string, i: nat)
    requires i + |Fold(NoAnswer)| <= |Fold(answer)|
    requires Fold(answer)[i..i + |Fold(NoAnswer)|] == Fold(NoAnswer)
    ensures LooksLikeRefusal(answer)
  {
    SubstringAt(Fold(NoAnswer), Fold(answer), i);
  }

  /**
   * The apostrophe pattern can never match: folding has already turned every
   * apostrophe into a space.
   */
  lemma PastPhraseNeverMatches(a: string, j: nat)
    requires IsFolded(a) && j < |NotFoundPastPhrases|
    ensures !ContainsPhrase(a, NotFoundPastPhrases[j])
  {
    var p := NotFoundPastPhrases[j];
    assert p[4] == '\'' || p[4] == '\U{2019}';
    forall i: nat | i <= |a| ensures !BoundedAt(a, p, i) {
    }
  }

  /**
   * So an answer looks like a refusal exactly when its folded form holds the
   * folded `NO_ANSWER`, "je ne trouve pas" or "pas dans les documents" as
   * whole words.
   */
  lemma RefusalPhrases(answer: string)
    ensures LooksLikeRefusal(answer) <==>
      var a := Fold(answer);
      IsSubstring(Fold(NoAnswer), a) || ContainsPhrase(a, NotFoundPhrase) || ContainsPhrase(a, NotInDocsPhrase)
  {
    forall j | 0 <= j < |NotFoundPastPhrases| ensures !ContainsPhrase(Fold(answer), NotFoundPastPhrases[j]) {
      PastPhraseNeverMatches(Fold(answer), j);
    }
  }

  /** A folded answer that is one of the phrases looks like a refusal. */
  lemma PhraseIsRefusal(answer: string)
    requires Fold(answer) == NotFoundPhrase || Fold(answer) == NotInDocsPhrase
    ensures LooksLikeRefusal(answer)
  {
    var a := Fold(answer);
    assert a[0..|a|] == a;
    assert BoundedAt(a, a, 0);
  }

  // ---------------------------------------------------------------------------
  // _split_sentences
  // ---------------------------------------------------------------------------

  /** The class `[.!?\n]`. */
  predicate IsSentenceEnd(c: char) {
    c == '.' || c == '!' || c == '?' || c == '\n'
  }

  predicate IsSentenceChar(c: char) {
    !IsSentenceEnd(c)
  }

  /**
   * `_split_sentences`: `re.split(r"[.!?\n]+", t)` cuts the stripped text at
   * each maximal run of sentence ends; its non-empty pieces are the maximal
   * runs of other characters.
   */
  function SplitSentences(text: string): seq<string> {
    var t := Strip(text);
    if t == [] then [] else StrippedPieces(Runs(t, IsSentenceChar))
  }

  /** Sentences are non-empty, stripped, and contain no sentence end. */
  lemma SentencesShape(text: string)
    ensures forall k :: 0 <= k < |SplitSentences(text)| ==>
      SplitSentences(text)[k] != [] && IsStripped(SplitSentences(text)[k])
    ensures forall k, i :: 0 <= k < |SplitSentences(text)| && 0 <= i < |SplitSentences(text)[k]| ==>
      !IsSentenceEnd(SplitSentences(text)[k][i])
  {
    var t := Strip(text);
    if t != [] {
      StrippedPiecesShape(Runs(t, IsSentenceChar), IsSentenceChar);
    }
  }

  /**
   * The sentences are the stripped text cut at every maximal run of sentence
   * ends: the text is the runs of other characters with gaps of sentence ends
   * between them, every inner gap non-empty, and the sentences are those runs
   * stripped, the blank ones left out.
   */
  lemma SentencesDecompose(text: string) returns (runs: seq<string>, gaps: seq<string>)
    ensures |gaps| == |runs| + 1
    ensures Interleave(gaps, runs) == Strip(text)
    ensures forall k, i :: 0 <= k < |gaps| && 0 <= i < |gaps[k]| ==> IsSentenceEnd(gaps[k][i])
    ensures forall k :: 0 < k < |gaps| - 1 ==> gaps[k] != []
    ensures forall k, i :: 0 <= k < |runs| && 0 <= i < |runs[k]| ==> !IsSentenceEnd(runs[k][i])
    ensures forall k :: 0 <= k < |runs| ==> runs[k] != []
    ensures SplitSentences(text) == Filter(StripAll(runs), NonEmpty)
  {
    var t := Strip(text);
    runs := Runs(t, IsSentenceChar);
    gaps := RunsDecompose(t, IsSentenceChar);
    StrippedPiecesFilter(runs);
    if t == [] {
      assert runs == [];
      assert StripAll(runs) == [];
    }
  }

  /** A text without sentence ends is one sentence, stripped, or none when blank. */
  lemma OneSentence(text: string)
    requires forall i :: 0 <= i < |text| ==> !IsSentenceEnd(text[i])
    ensures SplitSentences(text) == if Strip(text) == [] then [] else [Strip(text)]
  {
    var t := Strip(text);
    if t != [] {
      StripKeeps(text, IsSentenceChar);
      OneRun(t, IsSentenceChar);
      StripOfStripped(t);
      assert StrippedPieces([t]) == StrippedPieces([]) + [t];
    }
  }

  // ---------------------------------------------------------------------------
  // _verbatim_ok
  // ---------------------------------------------------------------------------

  /** `[(h.get("doc") or "") for h in hits]`. */
  function Docs(hits: seq<Hit>): (r: seq<string>)
    ensures |r| == |hits| && forall i :: 0 <= i < |hits| ==> r[i] == hits[i].doc
  {
    seq(|hits|, i requires 0 <= i < |hits| => hits[i].doc)
  }

  /** The folded text of all the hits, one per line. */
  function SourceText(hits: seq<Hit>): string {
    Fold(Join(Docs(hits), "\n"))
  }

  /** A sentence passes when it is short, folds to nothing, or occurs folded in the sources. */
  predicate SentenceGrounded(s: string, src: string, minChars: int) {
    |s| < minChars || Fold(s) == [] || IsSubstring(Fold(s), src)
  }

  function Grounded(src: string, minChars: int): string -> bool {
    s => SentenceGrounded(s, src, minChars)
  }

  /** Every sentence of `ss` passes, checked from the last one back. */
  predicate AllGrounded(ss: seq<string>, src: string, minChars: int) {
    AllBack(ss, Grounded(src, minChars))
  }

  lemma AllGroundedEach(ss: seq<string>, src: string, minChars: int)
    ensures AllGrounded(ss, src, minChars) <==> forall k :: 0 <= k < |ss| ==> SentenceGrounded(ss[k], src, minChars)
  {
    AllBackEach(ss, Grounded(src, minChars));
  }

  /**
   * `_verbatim_ok`: when the option is on, the sources are not empty once
   * folded and every sentence of the answer passes.
   */
  predicate Verbatim(answer: string, hits: seq<Hit>, verbatimOnly: bool, minChars: int) {
    !verbatimOnly || (SourceText(hits) != [] && AllGrounded(SplitSentences(answer), SourceText(hits), minChars))
  }

  /** `_verbatim_ok`, its sentence loop returning at the first sentence not found. */
  method VerbatimOk(answer: string, hits: seq<Hit>, verbatimOnly: bool, minChars: int) returns (ok: bool)
    ensures ok == Verbatim(answer, hits, verbatimOnly, minChars)
  {
    if !verbatimOnly {
      return true;
    }
    var src := Fold(Join(Docs(hits), "\n"));
    if src == [] {
      return false;
    }
    var ss := SplitSentences(answer);
    for k := 0 to |ss|
      invariant AllGrounded(ss[..k], src, minChars)
    {
      AllBackSnoc(ss, k, Grounded(src, minChars));
      var s := ss[k];
      assert Grounded(src, minChars)(s) == SentenceGrounded(s, src, minChars);
      if |s| < minChars {
        continue;
      }
      var sf := Fold(s);
      if sf != [] && !IsSubstring(sf, src) {
        NotAllGrounded(ss, k, src, minChars);
        return false;
      }
    }
    assert ss[..|ss|] == ss;
    return true;
  }

  /** One sentence that does not pass fails the whole answer. */
  lemma NotAllGrounded(ss: seq<string>, k: nat, src: string, minChars: int)
    requires k < |ss| && !SentenceGrounded(ss[k], src, minChars)
    ensures !AllGrounded(ss, src, minChars)
  {
    AllGroundedEach(ss, src, minChars);
  }

  /** With the option on, an answer passes exactly when every sentence of it passes. */
  lemma VerbatimEach(answer: string, hits: seq<Hit>, minChars: int)
    ensures Verbatim(answer, hits, true, minChars) <==>
      SourceText(hits) != [] &&
      forall k :: 0 <= k < |SplitSentences(answer)| ==> SentenceGrounded(SplitSentences(answer)[k], SourceText(hits), minChars)
  {
    AllGroundedEach(SplitSentences(answer), SourceText(hits), minChars);
  }

  /** Raising the minimum sentence length never rejects an answer that passed. */
  lemma VerbatimMonotone(answer: string, hits: seq<Hit>, minChars: int, minChars': int)
    requires minChars <= minChars'
    requires Verbatim(answer, hits, true, minChars)
    ensures Verbatim(answer, hits, true, minChars')
  {
    VerbatimEach(answer, hits, minChars);
    VerbatimEach(answer, hits, minChars');
  }

  /** With the option on, no retrieved text means no answer passes. */
  lemma VerbatimNeedsSources(answer: string, minChars: int)
    ensures !Verbatim(answer, [], true, minChars)
  {
    assert Join(Docs([]), "\n") == [];
  }

  /** An answer whose sentences are all shorter than the minimum passes whenever there is source text. */
  lemma VerbatimShortAnswer(answer: string, hits: seq<Hit>, minChars: int)
    requires SourceText(hits) != []
    requires |answer| < minChars
    ensures Verbatim(answer, hits, true, minChars)
  {
    var ss := SplitSentences(answer);
    forall k | 0 <= k < |ss| ensures |ss[k]| < minChars {
      SentenceLength(answer, k);
    }
    VerbatimEach(answer, hits, minChars);
  }

  /** No sentence is longer than the text it comes from. */
  lemma SentenceLength(text: string, k: nat)
    requires k < |SplitSentences(text)|
    ensures |SplitSentences(text)[k]| <= |text|
  {
    var t := Strip(text);
    RunsLength(t, IsSentenceChar);
    StrippedPiecesLength(Runs(t, IsSentenceChar), |t|);
  }

  lemma {:induction false} RunsLength(s: string, p: char -> bool)
    ensures forall k :: 0 <= k < |Runs(s, p)| ==> |Runs(s, p)[k]| <= |s|
    decreases |s|
  {
    if s != [] {
      if !p(s[0]) {
        RunsLength(s[1..], p);
      } else {
        RunsLength(DropRun(s, p), p);
      }
    }
  }

  lemma {:induction false} StrippedPiecesLength(parts: seq<string>, n: nat)
    requires forall k :: 0 <= k < |parts| ==> |parts[k]| <= n
    ensures forall k :: 0 <= k < |StrippedPieces(parts)| ==> |StrippedPieces(parts)[k]| <= n
    decreases |parts|
  {
    if parts != [] {
      StrippedPiecesLength(parts[..|parts| - 1], n);
    }
  }

  // ---------------------------------------------------------------------------
  // _extractive_answer_from_sources
  // ---------------------------------------------------------------------------

  /** The stripped, non-empty excerpts of `ss`, in order. */
  function ExcerptsOf(ss: seq<Source>): seq<string>
    decreases |ss|
  {
    if ss == [] then []
    else
      var ex := Strip(ss[|ss| - 1].excerpt);
      ExcerptsOf(ss[..|ss| - 1]) + (if ex != [] then [ex] else [])
  }

  /** `sources[: max(1, extractive_max)]`. */
  function Head(ss: seq<Source>, extractiveMax: int): (r: seq<Source>)
    ensures r <= ss
    ensures |r| == if Max(1, extractiveMax) <= |ss| then Max(1, extractiveMax) else |ss|
  {
    var n := Max(1, extractiveMax);
    if n <= |ss| then ss[..n] else ss
  }

  /** The extractive answer: the excerpts, a blank line between them, or `NO_ANSWER`. */
  function ExtractiveText(ss: seq<Source>, extractiveMax: int): string {
    var out := ExcerptsOf(Head(ss, extractiveMax));
    if out == [] then NoAnswer else Join(out, "\n\n")
  }

  /** `_extractive_answer_from_sources`. */
  method ExtractiveAnswer(sources: seq<Source>, extractiveMax: int) returns (answer: string)
    ensures answer == ExtractiveText(sources, extractiveMax)
  {
    var head := Head(sources, extractiveMax);
    var out: seq<string> := [];
    for i := 0 to |head|
      invariant out == ExcerptsOf(head[..i])
    {
      assert head[..i + 1][..i] == head[..i];
      var ex := Strip(head[i].excerpt);
      if ex != [] {
        out := out + [ex];
      }
    }
    assert head[..|head|] == head;
    if out == [] {
      return NoAnswer;
    }
    return Join(out, "\n\n");
  }

  /** Each excerpt kept is non-empty and stripped, and there are no more of them than sources. */
  lemma {:induction false} ExcerptsShape(ss: seq<Source>)
    ensures |ExcerptsOf(ss)| <= |ss|
    ensures forall k :: 0 <= k < |ExcerptsOf(ss)| ==> ExcerptsOf(ss)[k] != [] && IsStripped(ExcerptsOf(ss)[k])
    decreases |ss|
  {
    if ss != [] {
      ExcerptsShape(ss[..|ss| - 1]);
    }
  }

  /**
   * The excerpts kept are exactly the sources' stripped excerpts, in order,
   * the blank ones left out.
   */
  lemma {:induction false} ExcerptsInOrder(ss: seq<Source>)
    ensures ExcerptsOf(ss) == Filter(StrippedExcerpts(ss), NonEmpty)
    ensures IsSubseq(ExcerptsOf(ss), StrippedExcerpts(ss))
    decreases |ss|
  {
    if ss != [] {
      var pre := ss[..|ss| - 1];
      ExcerptsInOrder(pre);
      var ex := Strip(ss[|ss| - 1].excerpt);
      var se := StrippedExcerpts(ss);
      assert se == StrippedExcerpts(pre) + [ex];
      assert se[..|se| - 1] == StrippedExcerpts(pre) && se[|se| - 1] == ex;
      if ex != [] {
        SubseqSnocBoth(ExcerptsOf(pre), StrippedExcerpts(pre), ex);
      } else {
        assert ExcerptsOf(ss) == ExcerptsOf(pre);
        SubseqSnocRight(ExcerptsOf(pre), StrippedExcerpts(pre), ex);
      }
    }
  }

  /** No excerpt is kept exactly when every excerpt is blank. */
  lemma {:induction false} ExcerptsEmpty(ss: seq<Source>)
    ensures ExcerptsOf(ss) == [] <==> forall i :: 0 <= i < |ss| ==> Strip(ss[i].excerpt) == []
    decreases |ss|
  {
    if ss != [] {
      var pre := ss[..|ss| - 1];
      ExcerptsEmpty(pre);
      assert forall i :: 0 <= i < |pre| ==> pre[i] == ss[i];
    }
  }

  /** Every source's excerpt, stripped. */
  function StrippedExcerpts(ss: seq<Source>): (r: seq<string>)
    ensures |r| == |ss|
    ensures forall i :: 0 <= i < |ss| ==> r[i] == Strip(ss[i].excerpt)
    decreases |ss|
  {
    if ss == [] then [] else StrippedExcerpts(ss[..|ss| - 1]) + [Strip(ss[|ss| - 1].excerpt)]
  }

  /**
   * The extractive answer uses at most `max(1, extractive_max)` excerpts,
   * taken in order from the first sources, and is `NO_ANSWER` when they are
   * all blank.
   */
  lemma ExtractiveBounds(ss: seq<Source>, extractiveMax: int)
    ensures |ExcerptsOf(Head(ss, extractiveMax))| <= Max(1, extractiveMax)
    ensures IsSubseq(ExcerptsOf(Head(ss, extractiveMax)), StrippedExcerpts(Head(ss, extractiveMax)))
    ensures ExcerptsOf(Head(ss, extractiveMax)) == Filter(StrippedExcerpts(Head(ss, extractiveMax)), NonEmpty)
    ensures ExcerptsOf(Head(ss, extractiveMax)) == [] <==>
      forall i :: 0 <= i < |Head(ss, extractiveMax)| ==> Strip(Head(ss, extractiveMax)[i].excerpt) == []
    ensures ExcerptsOf(Head(ss, extractiveMax)) == [] ==> ExtractiveText(ss, extractiveMax) == NoAnswer
    ensures ExcerptsOf(Head(ss, extractiveMax)) != [] ==>
      ExtractiveText(ss, extractiveMax) == Join(ExcerptsOf(Head(ss, extractiveMax)), "\n\n")
  {
    ExcerptsShape(Head(ss, extractiveMax));
    ExcerptsInOrder(Head(ss, extractiveMax));
    ExcerptsEmpty(Head(ss, extractiveMax));
  }

  /** Two sources with excerpts and the default of two: both excerpts, a blank line between. */
  lemma ExtractiveTwo(a: Source, b: Source, c: Source)
    requires Strip(a.excerpt) != [] && Strip(b.excerpt) != []
    ensures ExtractiveText([a, b, c], 2) == Strip(a.excerpt) + "\n\n" + Strip(b.excerpt)
  {
    assert Head([a, b, c], 2) == [a, b];
    assert [a, b][..1] == [a];
    assert [a][..0] == [];
    assert ExcerptsOf([a]) == [Strip(a.excerpt)];
    assert ExcerptsOf([a, b]) == [Strip(a.excerpt)] + [Strip(b.excerpt)];
    assert Join([Strip(a.excerpt), Strip(b.excerpt)], "\n\n") == Strip(a.excerpt) + "\n\n" + Join([Strip(b.excerpt)], "\n\n");
  }
}
