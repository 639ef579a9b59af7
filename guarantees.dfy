/**
 * What `/chat` promises over the whole pipeline: a blank message is the only
 * 400, an answer without sources is the refusal, every source is a retrieved
 * hit that passed the gates, the model's output matters only when the model
 * is asked, and a generated answer is passed on only once it survived the
 * post-checks.
 */
module Guarantees {
  import opened Wrappers
  import opened Strings
  import opened Seqs
  import opened Normalize
  import opened Hits
  import opened Keys
  import opened Checks
  import opened Chat

  /** Every descriptor is the descriptor of one of `hits`. */
  predicate SourcedFrom(sources: seq<Source>, hits: seq<Hit>) {
    forall s :: s in sources ==> exists h :: h in hits && s == SourceOf(h)
  }

  /** Every descriptor is that of a retrieved hit which is admissible evidence for the question. */
  predicate GroundedIn(sources: seq<Source>, retrieved: seq<Hit>, question: string, cfg: Config) {
    forall s :: s in sources ==> exists h :: h in retrieved && Supported(h, question, cfg) && s == SourceOf(h)
  }

  /**
   * `filtered_sources` holds a descriptor for each hit whose `KEY: value`
   * map has the key, and for no other hit.
   */
  lemma KeySourcesExact(key: string, hits: seq<Hit>)
    ensures forall s :: s in KeySourcesOf(key, hits) ==>
      exists h :: h in hits && key in Kv(h.doc).values && s == SourceOf(h)
    ensures forall h :: h in hits && key in Kv(h.doc).values ==> SourceOf(h) in KeySourcesOf(key, hits)
    ensures |KeySourcesOf(key, hits)| <= |hits|
  {
    SourcesOfFilter(hits, HasKey(key));
    assert forall h :: HasKey(key)(h) <==> key in Kv(h.doc).values;
  }

  /** The two kinds of sources `chat` can hand out: those of the key shortcut, or all of them. */
  lemma RespondCases(question: string, history: seq<ChatMsg>, trimmed: seq<Hit>, raw: string, cfg: Config)
    ensures
      var key := ResolveKey(question, history, trimmed);
      var o := Respond(question, history, trimmed, raw, cfg).0;
      if key.Some? && FindValue(key.value, trimmed).Some? then
        o == Reply(FindValue(key.value, trimmed).value, KeySourcesOf(key.value, trimmed))
      else
        o.Reply? && (o == Refusal || o.sources == SourcesOf(trimmed))
  {
  }

  /**
   * Once there is evidence, `chat` answers (never the 400), names evidence
   * hits only, no more of them than there is evidence, and an answer without
   * sources is the refusal.
   */
  lemma RespondShape(question: string, history: seq<ChatMsg>, trimmed: seq<Hit>, raw: string, cfg: Config)
    requires trimmed != []
    ensures Respond(question, history, trimmed, raw, cfg).0.Reply?
    ensures SourcedFrom(Respond(question, history, trimmed, raw, cfg).0.sources, trimmed)
    ensures |Respond(question, history, trimmed, raw, cfg).0.sources| <= |trimmed|
    ensures Respond(question, history, trimmed, raw, cfg).0.sources == [] ==>
      Respond(question, history, trimmed, raw, cfg).0.answer == NoAnswer
  {
    var key := ResolveKey(question, history, trimmed);
    var o := Respond(question, history, trimmed, raw, cfg).0;
    RespondCases(question, history, trimmed, raw, cfg);
    if key.Some? && FindValue(key.value, trimmed).Some? {
      KeySourcesExact(key.value, trimmed);
      var i := FindValueFirst(key.value, trimmed);
      assert trimmed[i] in trimmed;
      assert SourceOf(trimmed[i]) in o.sources;
    } else {
      SourcesOfMembers(trimmed);
    }
  }

  /** Only a message that is blank once stripped gets the "Missing message." error. */
  lemma MissingMessageIff(message: string, topK: int, history: seq<ChatMsg>, retrieved: seq<Hit>, raw: string, cfg: Config)
    ensures ChatSpec(message, topK, history, retrieved, raw, cfg).0 == MissingMessage <==> Strip(message) == []
  {
    var question := Strip(message);
    var trimmed := Evidence(question, retrieved, FinalTopK(topK), cfg);
    if question != [] && trimmed != [] {
      RespondShape(question, history, trimmed, raw, cfg);
    }
  }

  /** `chat` never hands out an answer without sources other than `NO_ANSWER`. */
  lemma NoSourcesNoAnswer(message: string, topK: int, history: seq<ChatMsg>, retrieved: seq<Hit>, raw: string, cfg: Config)
    ensures (ChatSpec(message, topK, history, retrieved, raw, cfg).0.Reply? &&
      ChatSpec(message, topK, history, retrieved, raw, cfg).0.sources == []) ==>
      ChatSpec(message, topK, history, retrieved, raw, cfg).0.answer == NoAnswer
  {
    var question := Strip(message);
    var trimmed := Evidence(question, retrieved, FinalTopK(topK), cfg);
    if question != [] && trimmed != [] {
      RespondShape(question, history, trimmed, raw, cfg);
    }
  }

  /**
   * Every source of a reply is a retrieved hit within the distance ceiling,
   * sharing a keyword with the question and not blank, and a reply has no
   * more sources than the chunk budget and the final top-k allow, so never
   * more than 20.
   */
  lemma RepliesGrounded(message: string, topK: int, history: seq<ChatMsg>, retrieved: seq<Hit>, raw: string, cfg: Config)
    ensures ChatSpec(message, topK, history, retrieved, raw, cfg).0.Reply? ==>
      GroundedIn(ChatSpec(message, topK, history, retrieved, raw, cfg).0.sources, retrieved, Strip(message), cfg)
    ensures ChatSpec(message, topK, history, retrieved, raw, cfg).0.Reply? ==>
      |ChatSpec(message, topK, history, retrieved, raw, cfg).0.sources| <= Max(0, Min(cfg.maxChunks, FinalTopK(topK))) <= 20
  {
    var question := Strip(message);
    if question != [] && Evidence(question, retrieved, FinalTopK(topK), cfg) != [] {
      RespondGrounded(question, history, retrieved, FinalTopK(topK), raw, cfg);
    }
  }

  /** `RepliesGrounded` once the evidence is gathered. */
  lemma RespondGrounded(question: string, history: seq<ChatMsg>, retrieved: seq<Hit>, finalK: int, raw: string, cfg: Config)
    requires Evidence(question, retrieved, finalK, cfg) != []
    ensures Respond(question, history, Evidence(question, retrieved, finalK, cfg), raw, cfg).0.Reply?
    ensures GroundedIn(Respond(question, history, Evidence(question, retrieved, finalK, cfg), raw, cfg).0.sources, retrieved, question, cfg)
    ensures |Respond(question, history, Evidence(question, retrieved, finalK, cfg), raw, cfg).0.sources| <= Max(0, Min(cfg.maxChunks, finalK))
  {
    var trimmed := Evidence(question, retrieved, finalK, cfg);
    RespondShape(question, history, trimmed, raw, cfg);
    EvidenceSupported(question, retrieved, finalK, cfg);
    var sources := Respond(question, history, trimmed, raw, cfg).0.sources;
    forall s | s in sources ensures exists h :: h in retrieved && Supported(h, question, cfg) && s == SourceOf(h) {
      var h :| h in trimmed && s == SourceOf(h);
    }
  }

  /** When no hit within the ceiling reaches `MIN_OVERLAP`, `chat` refuses without asking the model. */
  lemma LowOverlapRefuses(message: string, topK: int, history: seq<ChatMsg>, retrieved: seq<Hit>, raw: string, cfg: Config)
    requires Strip(message) != []
    requires forall h :: h in WithinCeiling(retrieved, cfg.maxDistance) ==>
      HitOverlap(Keywords(Strip(message), cfg.minKeywordLen), h, cfg.minKeywordLen) < cfg.minOverlap
    ensures ChatSpec(message, topK, history, retrieved, raw, cfg) == (Refusal, false)
  {
    LowOverlapNoEvidence(Strip(message), retrieved, FinalTopK(topK), cfg);
  }

  /** What the model would generate makes no difference to a reply given without asking it. */
  lemma UnconsultedIgnoresModel(message: string, topK: int, history: seq<ChatMsg>, retrieved: seq<Hit>, raw: string, raw': string, cfg: Config)
    requires !ChatSpec(message, topK, history, retrieved, raw, cfg).1
    ensures ChatSpec(message, topK, history, retrieved, raw, cfg) == ChatSpec(message, topK, history, retrieved, raw', cfg)
  {
  }

  /**
   * The model is asked only when there is evidence, no key shortcut applies
   * and the extractive mode is off; in particular an exact request naming a
   * key never reaches it.
   */
  lemma WhenConsulted(message: string, topK: int, history: seq<ChatMsg>, retrieved: seq<Hit>, raw: string, cfg: Config)
    ensures
      var question := Strip(message);
      var trimmed := Evidence(question, retrieved, FinalTopK(topK), cfg);
      var key := ResolveKey(question, history, trimmed);
      ChatSpec(message, topK, history, retrieved, raw, cfg).1 ==>
        && trimmed != []
        && (!IsExactRequest(question) || key.None?)
        && cfg.extractiveOnly == 0
        && (key.None? || FindValue(key.value, trimmed).None?)
  {
    var question := Strip(message);
    var trimmed := Evidence(question, retrieved, FinalTopK(topK), cfg);
    if question != [] && trimmed != [] {
      ShortcutCases(question, history, trimmed, cfg);
    }
  }

  /** When the shortcut of steps 8 and 9 does not apply. */
  lemma ShortcutCases(question: string, history: seq<ChatMsg>, trimmed: seq<Hit>, cfg: Config)
    ensures
      var key := ResolveKey(question, history, trimmed);
      Shortcut(question, history, trimmed, cfg).None? <==>
        && (!IsExactRequest(question) || key.None?)
        && cfg.extractiveOnly == 0
        && (key.None? || FindValue(key.value, trimmed).None?)
  {
  }

  /** An exact request whose key has no value in the evidence is refused without asking the model. */
  lemma ExactWithoutValueRefuses(message: string, topK: int, history: seq<ChatMsg>, retrieved: seq<Hit>, raw: string, cfg: Config)
    requires Strip(message) != [] && IsExactRequest(Strip(message))
    requires
      var trimmed := Evidence(Strip(message), retrieved, FinalTopK(topK), cfg);
      var key := ResolveKey(Strip(message), history, trimmed);
      key.Some? && FindValue(key.value, trimmed).None?
    ensures ChatSpec(message, topK, history, retrieved, raw, cfg) == (Refusal, false)
  {
  }

  /**
   * When the resolved key has a value in the evidence, that value is the
   * answer, read from the first evidence chunk whose map has the key, the
   * sources are the chunks having the key, and the model is not asked.
   */
  lemma KeyValueAnswer(message: string, topK: int, history: seq<ChatMsg>, retrieved: seq<Hit>, raw: string, cfg: Config)
    returns (j: nat)
    requires Strip(message) != []
    requires Evidence(Strip(message), retrieved, FinalTopK(topK), cfg) != []
    requires ResolveKey(Strip(message), history, Evidence(Strip(message), retrieved, FinalTopK(topK), cfg)).Some?
    requires
      var trimmed := Evidence(Strip(message), retrieved, FinalTopK(topK), cfg);
      FindValue(ResolveKey(Strip(message), history, trimmed).value, trimmed).Some?
    ensures
      var trimmed := Evidence(Strip(message), retrieved, FinalTopK(topK), cfg);
      var key := ResolveKey(Strip(message), history, trimmed).value;
      && j < |trimmed|
      && key in Kv(trimmed[j].doc).values
      && (forall i :: 0 <= i < j ==> key !in Kv(trimmed[i].doc).values)
      && ChatSpec(message, topK, history, retrieved, raw, cfg) == (Reply(Kv(trimmed[j].doc).values[key], KeySourcesOf(key, trimmed)), false)
  {
    var trimmed := Evidence(Strip(message), retrieved, FinalTopK(topK), cfg);
    var key := ResolveKey(Strip(message), history, trimmed).value;
    j := FindValueFirst(key, trimmed);
  }

  /**
   * A generated answer that is passed on is the stripped output of the
   * model, does not look like a refusal, passes the verbatim check when it
   * is on, and comes with the descriptors of all the evidence.
   */
  lemma PassedOnGenerated(message: string, topK: int, history: seq<ChatMsg>, retrieved: seq<Hit>, raw: string, cfg: Config)
    requires ChatSpec(message, topK, history, retrieved, raw, cfg).1
    ensures ChatSpec(message, topK, history, retrieved, raw, cfg).0.Reply?
    ensures
      var trimmed := Evidence(Strip(message), retrieved, FinalTopK(topK), cfg);
      var o := ChatSpec(message, topK, history, retrieved, raw, cfg).0;
      o.answer != NoAnswer ==>
        && o.answer == Strip(raw)
        && !LooksLikeRefusal(o.answer)
        && Verbatim(o.answer, trimmed, cfg.verbatimOnly != 0, cfg.verbatimMinChars)
        && o.sources == SourcesOf(trimmed)
  {
    var trimmed := Evidence(Strip(message), retrieved, FinalTopK(topK), cfg);
    RespondConsulted(Strip(message), history, trimmed, raw, cfg);
  }

  /** `PassedOnGenerated` once the evidence is gathered. */
  lemma RespondConsulted(question: string, history: seq<ChatMsg>, trimmed: seq<Hit>, raw: string, cfg: Config)
    requires Respond(question, history, trimmed, raw, cfg).1
    ensures Respond(question, history, trimmed, raw, cfg).0.Reply?
    ensures
      var o := Respond(question, history, trimmed, raw, cfg).0;
      o.answer != NoAnswer ==>
        && o.answer == Strip(raw)
        && !LooksLikeRefusal(o.answer)
        && Verbatim(o.answer, trimmed, cfg.verbatimOnly != 0, cfg.verbatimMinChars)
        && o.sources == SourcesOf(trimmed)
  {
    assert Respond(question, history, trimmed, raw, cfg).0 == PostChecked(AnswerText(raw), trimmed, cfg);
    PostCheckedPasses(AnswerText(raw), trimmed, cfg);
    NoAnswerIsRefusal();
  }

  /** The post-checks either refuse or pass the answer on unchanged, with all sources. */
  lemma PostCheckedPasses(answer: string, trimmed: seq<Hit>, cfg: Config)
    ensures PostChecked(answer, trimmed, cfg) == Refusal ||
      (&& PostChecked(answer, trimmed, cfg) == Reply(answer, SourcesOf(trimmed))
       && !LooksLikeRefusal(answer)
       && Verbatim(answer, trimmed, cfg.verbatimOnly != 0, cfg.verbatimMinChars))
    ensures LooksLikeRefusal(answer) ==> PostChecked(answer, trimmed, cfg) == Refusal
  {
  }
}
