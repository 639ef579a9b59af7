/**
 * The `/chat` route of backend/app.py: the retrieval budget, the lexical
 * proof gate, the trim, the exact-value and `KEY: value` shortcuts, the
 * extractive mode and the strict checks on a generated answer.
 *
 * The store's `query_top_k` and the language model's `chat_answer` are not
 * part of this model: what they return is an input (`retrieved`, `generated`).
 */
module Chat {
  import opened Wrappers
  import opened Strings
  import opened Seqs
  import opened Normalize
  import opened Hits
  import opened Keys
  import opened Checks

  /** The tuning read from the environment at start-up; the flags are on when nonzero. */
  datatype Config = Config(
    retrieveMult: int,
    retrieveMax: int,
    maxDistance: real,
    maxChunks: int,
    maxPerFile: int,
    maxContextChars: int,
    minOverlap: int,
    minKeywordLen: int,
    extractiveOnly: int,
    extractiveMax: int,
    verbatimOnly: int,
    verbatimMinChars: int)

  /** The values used when no variable is set. */
  const Defaults: Config := Config(8, 30, 0.0, 8, 3, 7000, 1, 4, 0, 2, 0, 20)

  /** What `/chat` answers: an HTTP 400 for a blank message, or an answer with its sources. */
  datatype ChatOutcome = MissingMessage | Reply(answer: string, sources: seq<Source>)

  /** The refusal: `NO_ANSWER` and no sources. */
  const Refusal: ChatOutcome := Reply(NoAnswer, [])

  // ---------------------------------------------------------------------------
  // Retrieval budget
  // ---------------------------------------------------------------------------

  /** `max(1, min(int(top_k or 5), 20))`: zero means the default of 5. */
  function FinalTopK(topK: int): (k: int)
    ensures 1 <= k <= 20
    ensures 1 <= topK <= 20 ==> k == topK
    ensures topK == 0 ==> k == 5
    ensures topK < 0 ==> k == 1
    ensures topK > 20 ==> k == 20
  {
    Max(1, Min(if topK == 0 then 5 else topK, 20))
  }

  /** `min(RETRIEVE_MAX, max(final_top_k * max(1, RETRIEVE_MULT), final_top_k))`. */
  function RetrieveK(finalK: int, cfg: Config): int {
    Min(cfg.retrieveMax, Max(finalK * Max(1, cfg.retrieveMult), finalK))
  }

  /**
   * The store is asked for at most `RETRIEVE_MAX` hits, and for at least the
   * final number when the ceiling allows it; with the defaults, 5 asks for 30
   * and 2 for 16.
   */
  lemma RetrieveKBounds(topK: int, cfg: Config)
    ensures RetrieveK(FinalTopK(topK), cfg) <= cfg.retrieveMax
    ensures cfg.retrieveMax >= FinalTopK(topK) ==> RetrieveK(FinalTopK(topK), cfg) >= FinalTopK(topK)
    ensures cfg.retrieveMax >= FinalTopK(topK) * Max(1, cfg.retrieveMult) ==>
      RetrieveK(FinalTopK(topK), cfg) == FinalTopK(topK) * Max(1, cfg.retrieveMult)
    ensures RetrieveK(FinalTopK(5), Defaults) == 30 && RetrieveK(FinalTopK(2), Defaults) == 16
  {
    var k := FinalTopK(topK);
    var m := Max(1, cfg.retrieveMult);
    assert k * m == k + k * (m - 1);
    assert k * (m - 1) >= 0;
  }

  // ---------------------------------------------------------------------------
  // The lexical proof gate
  // ---------------------------------------------------------------------------

  /** `_overlap_words(q_toks, _tokens(doc))` for one hit. */
  function HitOverlap(q: set<string>, h: Hit, minLen: int): nat {
    Overlap(q, Keywords(h.doc, minLen))
  }

  /** A hit with its overlap, the `_ov` field of `scored`. */
  datatype Scored = Scored(hit: Hit, ov: nat)

  function OverlapWith(q: set<string>, minLen: int): Hit -> nat {
    (h: Hit) => HitOverlap(q, h, minLen)
  }

  /** `scored` as a value: every hit with its score, here its overlap with the question. */
  function Score(hits: seq<Hit>, score: Hit -> nat): (r: seq<Scored>)
    ensures |r| == |hits|
    ensures forall i :: 0 <= i < |hits| ==> r[i] == Scored(hits[i], score(hits[i]))
    decreases |hits|
  {
    if hits == [] then []
    else
      var pre := hits[..|hits| - 1];
      assert forall i :: 0 <= i < |pre| ==> pre[i] == hits[i];
      Score(pre, score) + [Scored(hits[|hits| - 1], score(hits[|hits| - 1]))]
  }

  /** `best_ov` after the loop: the largest overlap, 0 for no hits. */
  function BestOverlap(scored: seq<Scored>): (best: nat)
    ensures forall i :: 0 <= i < |scored| ==> scored[i].ov <= best
    ensures best == 0 || exists i :: 0 <= i < |scored| && scored[i].ov == best
    decreases |scored|
  {
    if scored == [] then 0
    else
      var pre := scored[..|scored| - 1];
      var b := BestOverlap(pre);
      var ov := scored[|scored| - 1].ov;
      assert forall i :: 0 <= i < |pre| ==> pre[i] == scored[i];
      if ov > b then ov else b
  }

  /** The scoring loop of `chat`: every hit with its overlap, and the best one. */
  method ScoreHits(q: set<string>, hits: seq<Hit>, minLen: int) returns (scored: seq<Scored>, best: nat)
    ensures scored == Score(hits, OverlapWith(q, minLen))
    ensures best == BestOverlap(scored)
  {
    scored := [];
    best := 0;
    for i := 0 to |hits|
      invariant scored == Score(hits[..i], OverlapWith(q, minLen))
      invariant best == BestOverlap(scored)
    {
      var docToks := Tokens(hits[i].doc, minLen);
      var ov := Overlap(q, docToks);
      ScoreSnoc(hits, i, OverlapWith(q, minLen));
      BestSnoc(scored, Scored(hits[i], ov));
      scored := scored + [Scored(hits[i], ov)];
      if ov > best {
        best := ov;
      }
    }
    assert hits[..|hits|] == hits;
  }

  lemma BestSnoc(scored: seq<Scored>, s: Scored)
    ensures BestOverlap(scored + [s]) == if s.ov > BestOverlap(scored) then s.ov else BestOverlap(scored)
  {
    assert (scored + [s])[..|scored|] == scored;
  }

  lemma ScoreSnoc(hits: seq<Hit>, i: nat, score: Hit -> nat)
    requires i < |hits|
    ensures Score(hits[..i + 1], score) == Score(hits[..i], score) + [Scored(hits[i], score(hits[i]))]
  {
    assert hits[..i + 1][..i] == hits[..i];
  }

  /** `[h for h in scored if h.get("_ov", 0) > 0]`, with `_ov` removed again. */
  function Positive(scored: seq<Scored>): seq<Hit>
    decreases |scored|
  {
    if scored == [] then []
    else
      var s := scored[|scored| - 1];
      Positive(scored[..|scored| - 1]) + (if s.ov > 0 then [s.hit] else [])
  }

  /**
   * Keeping the scored hits with a positive score is filtering the hits by
   * any test that agrees with a positive score.
   */
  lemma {:induction false} PositiveFilter(hits: seq<Hit>, score: Hit -> nat, p: Hit -> bool)
    requires forall i :: 0 <= i < |hits| ==> (score(hits[i]) > 0 <==> p(hits[i]))
    ensures Positive(Score(hits, score)) == Filter(hits, p)
    decreases |hits|
  {
    if hits != [] {
      var n := |hits| - 1;
      var pre := Score(hits[..n], score);
      assert (pre + [Scored(hits[n], score(hits[n]))])[..n] == pre;
      PositiveFilter(hits[..n], score, p);
    }
  }

  function HasOverlap(q: set<string>, minLen: int): Hit -> bool {
    (h: Hit) => HitOverlap(q, h, minLen) > 0
  }

  /** The positive hits of `scored` are the hits sharing a keyword with the question. */
  lemma PositiveIsFilter(q: set<string>, hits: seq<Hit>, minLen: int)
    ensures Positive(Score(hits, OverlapWith(q, minLen))) == Filter(hits, HasOverlap(q, minLen))
  {
    PositiveFilter(hits, OverlapWith(q, minLen), HasOverlap(q, minLen));
  }

  // ---------------------------------------------------------------------------
  // Steps 1 to 4: from the retrieved hits to the trimmed evidence
  // ---------------------------------------------------------------------------

  /** `_apply_distance_threshold` as a value. */
  function WithinCeiling(hits: seq<Hit>, maxDistance: real): seq<Hit> {
    if maxDistance <= 0.0 then hits else Filter(hits, WithinBound(maxDistance))
  }

  /** The trim budget of `chat`: the chunk budget is also capped by the final top-k. */
  function ChatBudget(finalK: int, cfg: Config): Budget {
    Budget(Min(cfg.maxChunks, finalK), cfg.maxPerFile, cfg.maxContextChars)
  }

  /**
   * `hits_trimmed`, or nothing when `chat` refuses before it: no hit within
   * the distance ceiling, or no hit reaching `MIN_OVERLAP`.
   */
  function Evidence(question: string, retrieved: seq<Hit>, finalK: int, cfg: Config): seq<Hit> {
    var dist := WithinCeiling(retrieved, cfg.maxDistance);
    var q := Keywords(question, cfg.minKeywordLen);
    if dist == [] then []
    else if BestOverlap(Score(dist, OverlapWith(q, cfg.minKeywordLen))) < cfg.minOverlap then []
    else
      var sorted := SortByDistance(Filter(dist, HasOverlap(q, cfg.minKeywordLen)));
      TrimPass(sorted, ChatBudget(finalK, cfg)).kept
  }

  /** Steps 1 to 4 of `chat`, returning at the first refusal. */
  method GatherEvidence(question: string, retrieved: seq<Hit>, finalK: int, cfg: Config) returns (trimmed: seq<Hit>)
    ensures trimmed == Evidence(question, retrieved, finalK, cfg)
  {
    var dist := ApplyDistanceThreshold(retrieved, cfg.maxDistance);
    assert dist == WithinCeiling(retrieved, cfg.maxDistance);
    if dist == [] {
      return [];
    }
    var q := Tokens(question, cfg.minKeywordLen);
    var scored, best := ScoreHits(q, dist, cfg.minKeywordLen);
    if best < cfg.minOverlap {
      return [];
    }
    var positive := Positive(scored);
    PositiveIsFilter(q, dist, cfg.minKeywordLen);
    var sorted := SortByDistance(positive);
    trimmed := TrimHits(sorted, Min(cfg.maxChunks, finalK), cfg.maxPerFile, cfg.maxContextChars);
    assert Budget(Min(cfg.maxChunks, finalK), cfg.maxPerFile, cfg.maxContextChars) == ChatBudget(finalK, cfg);
  }

  /** What makes a hit admissible evidence for a question. */
  predicate Supported(h: Hit, question: string, cfg: Config) {
    && (cfg.maxDistance > 0.0 ==> WithinDistance(h, cfg.maxDistance))
    && HitOverlap(Keywords(question, cfg.minKeywordLen), h, cfg.minKeywordLen) > 0
    && Strip(h.doc) != []
  }

  /**
   * The evidence is made of retrieved hits only, each within the distance
   * ceiling, sharing a keyword with the question and not blank, and there is
   * no more of it than the chunk budget and the final top-k allow.
   */
  lemma EvidenceSupported(question: string, retrieved: seq<Hit>, finalK: int, cfg: Config)
    ensures forall h :: h in Evidence(question, retrieved, finalK, cfg) ==>
      h in retrieved && Supported(h, question, cfg)
    ensures |Evidence(question, retrieved, finalK, cfg)| <= Max(0, Min(cfg.maxChunks, finalK))
  {
    var dist := WithinCeiling(retrieved, cfg.maxDistance);
    var q := Keywords(question, cfg.minKeywordLen);
    if dist != [] && BestOverlap(Score(dist, OverlapWith(q, cfg.minKeywordLen))) >= cfg.minOverlap {
      var pos := Filter(dist, HasOverlap(q, cfg.minKeywordLen));
      KeptSupported(question, retrieved, cfg, pos, ChatBudget(finalK, cfg));
    }
  }

  /** The hits kept from the candidates are retrieved and supported, within the chunk budget. */
  lemma KeptSupported(question: string, retrieved: seq<Hit>, cfg: Config, pos: seq<Hit>, b: Budget)
    requires pos == Filter(WithinCeiling(retrieved, cfg.maxDistance), HasOverlap(Keywords(question, cfg.minKeywordLen), cfg.minKeywordLen))
    ensures forall h :: h in TrimPass(SortByDistance(pos), b).kept ==> h in retrieved && Supported(h, question, cfg)
    ensures |TrimPass(SortByDistance(pos), b).kept| <= Max(0, b.maxChunks)
  {
    var kept := TrimPass(SortByDistance(pos), b).kept;
    KeptFromCandidates(pos, b);
    TrimBudget(SortByDistance(pos), b);
    forall h | h in kept ensures h in retrieved && Supported(h, question, cfg) {
      var i :| 0 <= i < |kept| && kept[i] == h;
      CandidateSupported(question, retrieved, cfg, h);
    }
  }

  lemma KeptFromCandidates(pos: seq<Hit>, b: Budget)
    ensures forall i :: 0 <= i < |TrimPass(SortByDistance(pos), b).kept| ==>
      TrimPass(SortByDistance(pos), b).kept[i] in pos && Strip(TrimPass(SortByDistance(pos), b).kept[i].doc) != []
  {
    var sorted := SortByDistance(pos);
    TrimSubseq(sorted, b);
    SubseqMembers(TrimPass(sorted, b).kept, sorted);
    SortMembers(pos);
    TrimBudget(sorted, b);
  }

  /** A candidate of the overlap filter that is not blank is admissible evidence. */
  lemma CandidateSupported(question: string, retrieved: seq<Hit>, cfg: Config, h: Hit)
    requires h in Filter(WithinCeiling(retrieved, cfg.maxDistance), HasOverlap(Keywords(question, cfg.minKeywordLen), cfg.minKeywordLen))
    requires Strip(h.doc) != []
    ensures h in retrieved && Supported(h, question, cfg)
  {
    var dist := WithinCeiling(retrieved, cfg.maxDistance);
    var pos := Filter(dist, HasOverlap(Keywords(question, cfg.minKeywordLen), cfg.minKeywordLen));
    var j :| 0 <= j < |pos| && pos[j] == h;
    assert h in dist;
    if cfg.maxDistance > 0.0 {
      var k :| 0 <= k < |dist| && dist[k] == h;
      assert WithinBound(cfg.maxDistance)(h);
    }
  }

  /** When no retrieved hit within the ceiling reaches the minimum overlap, there is no evidence. */
  lemma LowOverlapNoEvidence(question: string, retrieved: seq<Hit>, finalK: int, cfg: Config)
    requires forall h :: h in WithinCeiling(retrieved, cfg.maxDistance) ==>
      HitOverlap(Keywords(question, cfg.minKeywordLen), h, cfg.minKeywordLen) < cfg.minOverlap
    ensures Evidence(question, retrieved, finalK, cfg) == []
  {
    var dist := WithinCeiling(retrieved, cfg.maxDistance);
    var q := Keywords(question, cfg.minKeywordLen);
    var b := BestOverlap(Score(dist, OverlapWith(q, cfg.minKeywordLen)));
    if dist != [] && b != 0 {
      var i :| 0 <= i < |dist| && Score(dist, OverlapWith(q, cfg.minKeywordLen))[i].ov == b;
      assert dist[i] in dist;
    } else if dist != [] {
      assert dist[0] in dist;
    }
  }

  // ---------------------------------------------------------------------------
  // Sources
  // ---------------------------------------------------------------------------

  /** The loop of `chat` that builds `sources` (alongside the prompt context, not modelled). */
  method BuildSources(trimmed: seq<Hit>) returns (sources: seq<Source>)
    ensures sources == SourcesOf(trimmed)
  {
    sources := [];
    for i := 0 to |trimmed|
      invariant sources == SourcesOf(trimmed[..i])
    {
      SourcesOfSnoc(trimmed[..i], trimmed[i]);
      assert trimmed[..i + 1] == trimmed[..i] + [trimmed[i]];
      sources := sources + [SourceOf(trimmed[i])];
    }
    assert trimmed[..|trimmed|] == trimmed;
  }

  lemma SourcesOfSnoc(hits: seq<Hit>, h: Hit)
    ensures SourcesOf(hits + [h]) == SourcesOf(hits) + [SourceOf(h)]
  {
  }

  function HasKey(key: string): Hit -> bool {
    (h: Hit) => key in Kv(h.doc).values
  }

  /** `filtered_sources`: the descriptors of the hits whose map has the key. */
  function KeySourcesOf(key: string, hits: seq<Hit>): seq<Source> {
    SourcesOf(Filter(hits, HasKey(key)))
  }

  /** The loop of `chat` that builds `filtered_sources`. */
  method KeySources(key: string, hits: seq<Hit>) returns (filtered: seq<Source>)
    ensures filtered == KeySourcesOf(key, hits)
  {
    filtered := [];
    for i := 0 to |hits|
      invariant filtered == SourcesOf(Filter(hits[..i], HasKey(key)))
    {
      FilterSnoc(hits, i, HasKey(key));
      var kv := ExtractKvPairs(hits[i].doc);
      assert HasKey(key)(hits[i]) == (key in kv.values);
      if key in kv.values {
        SourcesOfSnoc(Filter(hits[..i], HasKey(key)), hits[i]);
        filtered := filtered + [SourceOf(hits[i])];
      }
    }
    assert hits[..|hits|] == hits;
  }

  // ---------------------------------------------------------------------------
  // Steps 8 and 9, and the generated answer
  // ---------------------------------------------------------------------------

  /**
   * `(raw or "").strip() or NO_ANSWER`: never empty, and `NO_ANSWER` exactly
   * when the text is blank or is `NO_ANSWER` itself.
   */
  function AnswerText(raw: string): (r: string)
    ensures r != []
    ensures r == NoAnswer || r == Strip(raw)
    ensures r == NoAnswer <==> Strip(raw) == [] || Strip(raw) == NoAnswer
  {
    if Strip(raw) == [] then NoAnswer else Strip(raw)
  }

  /**
   * Steps 8 and 9: the replies `chat` gives without asking the model, or
   * None when it goes on to ask it.
   */
  function Shortcut(question: string, history: seq<ChatMsg>, trimmed: seq<Hit>, cfg: Config): Option<ChatOutcome> {
    var key := ResolveKey(question, history, trimmed);
    if IsExactRequest(question) && key.Some? && FindValue(key.value, trimmed).None? then Some(Refusal)
    else if key.Some? && FindValue(key.value, trimmed).Some? then
      Some(Reply(FindValue(key.value, trimmed).value, KeySourcesOf(key.value, trimmed)))
    else if cfg.extractiveOnly != 0 then
      var ans := ExtractiveText(SourcesOf(trimmed), cfg.extractiveMax);
      Some(if ans == NoAnswer then Refusal else Reply(ans, SourcesOf(trimmed)))
    else None
  }

  /** What `chat` replies once it has evidence, and whether it asks the model. */
  function Respond(question: string, history: seq<ChatMsg>, trimmed: seq<Hit>, raw: string, cfg: Config): (ChatOutcome, bool) {
    var shortcut := Shortcut(question, history, trimmed, cfg);
    if shortcut.Some? then (shortcut.value, false)
    else (PostChecked(AnswerText(raw), trimmed, cfg), true)
  }

  /** Steps 6 and 7: a generated answer that looks like a refusal, or is not verbatim, becomes the refusal. */
  function PostChecked(answer: string, trimmed: seq<Hit>, cfg: Config): ChatOutcome {
    if LooksLikeRefusal(answer) then Refusal
    else if !Verbatim(answer, trimmed, cfg.verbatimOnly != 0, cfg.verbatimMinChars) then Refusal
    else Reply(answer, SourcesOf(trimmed))
  }

  /** The part of `chat` after the trim. */
  method Answer(question: string, history: seq<ChatMsg>, trimmed: seq<Hit>, generated: Option<string>, cfg: Config)
    returns (outcome: ChatOutcome, consulted: bool)
    ensures (outcome, consulted) == Respond(question, history, trimmed, generated.GetOr(""), cfg)
  {
    var sources := BuildSources(trimmed);
    if IsExactRequest(question) {
      var key := ResolveRequestedKey(question, history, trimmed);
      if key.Some? {
        var val := FindValueForKey(key.value, trimmed);
        if val.None? {
          return Refusal, false;
        }
        var filtered := KeySources(key.value, trimmed);
        return Reply(val.value, filtered), false;
      }
    }
    var requested := ResolveRequestedKey(question, history, trimmed);
    if requested.Some? {
      var val := FindValueForKey(requested.value, trimmed);
      if val.Some? {
        var filtered := KeySources(requested.value, trimmed);
        return Reply(val.value, filtered), false;
      }
    }
    if cfg.extractiveOnly != 0 {
      var ans := ExtractiveAnswer(sources, cfg.extractiveMax);
      if ans == NoAnswer {
        return Refusal, false;
      }
      return Reply(ans, sources), false;
    }
    var stripped := Strip(generated.GetOr(""));
    var answer := if stripped == [] then NoAnswer else stripped;
    if LooksLikeRefusal(answer) {
      return Refusal, true;
    }
    var ok := VerbatimOk(answer, trimmed, cfg.verbatimOnly != 0, cfg.verbatimMinChars);
    if !ok {
      return Refusal, true;
    }
    return Reply(answer, sources), true;
  }

  // ---------------------------------------------------------------------------
  // chat
  // ---------------------------------------------------------------------------

  /** The reply of `chat`, and whether it asks the model. */
  function ChatSpec(message: string, topK: int, history: seq<ChatMsg>, retrieved: seq<Hit>, raw: string, cfg: Config): (ChatOutcome, bool) {
    var question := Strip(message);
    if question == [] then (MissingMessage, false)
    else
      var trimmed := Evidence(question, retrieved, FinalTopK(topK), cfg);
      if trimmed == [] then (Refusal, false)
      else Respond(question, history, trimmed, raw, cfg)
  }

  /** `chat`, given what the store retrieved and what the model would generate. */
  method Chat(message: string, topK: int, history: seq<ChatMsg>, retrieved: seq<Hit>, generated: Option<string>, cfg: Config)
    returns (outcome: ChatOutcome, consulted: bool)
    ensures (outcome, consulted) == ChatSpec(message, topK, history, retrieved, generated.GetOr(""), cfg)
  {
    var question := Strip(message);
    if question == [] {
      return MissingMessage, false;
    }
    var finalK := FinalTopK(topK);
    var trimmed := GatherEvidence(question, retrieved, finalK, cfg);
    if trimmed == [] {
      return Refusal, false;
    }
    outcome, consulted := Answer(question, history, trimmed, generated, cfg);
  }
}
