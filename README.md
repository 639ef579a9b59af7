# Chat with your Docs: the grounding pipeline and the chunker, in Dafny

This project models the deterministic core of a local retrieval-augmented
"chat with your documents" service. It also states and proves properties of that model.

- **The `/chat` decision procedure of `backend/app.py`** (modules `Normalize`,
  `Hits`, `Keys`, `Checks`, `Chat`, `Guarantees`). Its inputs are:
  - the message, `top_k` and the history;
  - the hits the vector store returned;
  - the text the language model would generate;
  - the tuning values.

  `Chat.Chat` returns one of three results:
  - `MissingMessage`, the HTTP 400 for a blank message;
  - `Reply(answer, sources)`;
  - `Refusal`, which is `Reply(NO_ANSWER, [])`.

  It also returns whether the model would be asked at all. Its steps are:
  - the `top_k` clamp and the retrieval fan-out;
  - the distance ceiling;
  - the lexical proof gate, a keyword overlap between the question and each hit;
  - the stable "no distance last" sort;
  - the greedy budgeted trim;
  - the source descriptors;
  - the exact-value mode and the `KEY: value` shortcut, with the history-based key increment;
  - the extractive mode;
  - the two checks on a generated answer: refusal look-alike and verbatim sentences.
- **`chunk_text` of `backend/rag/text_utils.py`** (module `Chunker`). Its steps are:
  - line-ending normalisation and blank-line collapse;
  - greedy paragraph packing;
  - the line-by-line sub-split of long paragraphs;
  - the sliding character overlap.

Each loop of the source is a method proved equal to a specification function:
- `Tokens` (`_tokens`);
- `ApplyDistanceThreshold`;
- `TrimHits` (`_trim_hits`, with its `per_file` map);
- `ExtractKvPairs`, `KeysInHits`, `FindValueForKey`;
- `LatestHistoryKey`, `ResolveRequestedKey`;
- `VerbatimOk`, `ExtractiveAnswer`;
- `ScoreHits` (the scoring loop of `chat`), `BuildSources`, `KeySources`;
- `PackLines`, `PackParagraphs`, `SlideOverlap`, `ChunkText`.

The properties are lemmas about those functions. `wrappers.dfy`, `strings.dfy`
and `seqs.dfy` hold the Python string and list operations the core uses:
- `str.strip`, `str.split`, `str.splitlines` and `"sep".join`;
- substring search;
- regex character runs;
- list comprehensions with a filter;
- dict insertion order.

Some behaviour of the code differs from what its own comments and docstrings suggest, and the model follows the code:

- A chunk line `KEY:` followed only by spaces matches `KV_LINE_RE`
  (backend/app.py:145): `(.+?)` takes one of the spaces and `\s*$` the rest.
  `extract_kv_pairs` strips the captured text, so the value is `""`
  (`Keys.KvLineOfPair`). When that key is requested, `chat` answers with the
  empty string.
- The docstring of `_is_exact_request` (backend/app.py:228) gives
  `'TEL_001 ?'` as an example of an exact request. None of the three
  patterns of lines 235-244 accepts it (`Keys.KeyQuestionNotExact`).
- The `# fallback si rien` branch of `chunk_text` (backend/rag/text_utils.py:66-68)
  is never taken. An empty normalised text returns `[]` at line 18, and
  for every other text the paragraph pass emits at least one chunk
  (`Chunker.BaseChunksOk`).
- The comment at backend/rag/text_utils.py:45 announces a line split, then
  a character split as the fallback. The code makes no character split. A
  single line longer than `chunk_size` becomes one chunk as it is, so a
  chunk is within the size or is a single line (`Chunker.ZeroOverlapBound`,
  `Chunker.BaseChunksOk`).
- Only exact mode refuses when a resolved key has no value
  (backend/app.py:504-505). In normal mode the `if val is not None` test of
  line 532 fails, and `chat` goes on to the extractive mode or the model
  (`Guarantees.ShortcutCases`).
- A "second" phrase falls back to the second key of the hits
  (backend/app.py:197-199) in two cases. In the first, the history has no
  key. In the second, the history's latest key does not end in digits, so
  the `re.match(r"^(.*?)(\d+)$", ...)` of line 187 fails (`Keys.ResolveKey`,
  `Keys.ResolveRequestedKey`).

Specification functions that only compute (`Chat.ChatSpec`,
`Chunker.ChunkSpec`, `Hits.TrimPass`, ...) have no row of their own. The
method proved equal to each one, and the lemmas about it, are the rows that
state what it means.

## Model

| member | source | states |
|---|---|---|
| Normalize.StripAccent | backend/app.py:102-103 | each Latin-1 accented small letter becomes its base letter (`à`-`å` to `a`, `ç` to `c`, `è`-`ë` to `e`, `ì`-`ï` to `i`, `ñ` to `n`, `ò`-`ö` to `o`, `ù`-`ü` to `u`, `ý` and `ÿ` to `y`), `ª` `º` `¹` `²` `³` become `a` `o` `1` `2` `3`, ASCII is unchanged, and every result is the character itself or in `[a-z0-9]` |
| Normalize.FoldCharCombining | backend/app.py:101-103 | lower-casing and accent stripping leave a combining mark unchanged and never produce one |
| Normalize.FoldEach | backend/app.py:101-102 | lower-casing and accent stripping map the text character by character and keep its length |
| Normalize.DropMarks | backend/app.py:103 | dropping the combining marks never lengthens the text and leaves none |
| Normalize.DropMarksAppend | backend/app.py:103 | dropping the marks works piece by piece |
| Normalize.DropMarksNone | backend/app.py:103 | a text without combining marks is kept as it is |
| Normalize.FoldChars | backend/app.py:101-103 | after lower-casing, accent stripping and mark removal the text is no longer and holds no combining mark |
| Normalize.FoldCharsNoMarks | backend/app.py:101-103 | on a text without combining marks, the first three steps are `FoldChar` on each character, length kept |
| Normalize.FoldCharsAppend | backend/app.py:101-103 | the first three steps work piece by piece |
| Normalize.FoldCharsOne | backend/app.py:101-103 | one character: a combining mark is dropped, anything else is lower-cased and stripped of its accent |
| Normalize.FoldCharsIgnoresMarks | backend/app.py:101-103 | combining marks already present in the text (as in NFD input) make no difference to the first three steps |
| Normalize.MarkDropped | backend/app.py:103 | a combining mark between two pieces of text disappears, joining them |
| Normalize.FoldCharsAgree | backend/app.py:101-103 | texts of the same length that agree character by character once folded agree after the first three steps |
| Normalize.FirstSubstitution | backend/app.py:104 | after the first `re.sub`, every character is in `[a-z0-9]` or is whitespace |
| Normalize.SecondSubstitution | backend/app.py:105 | after the second `re.sub`, every character is in `[a-z0-9 ]` and no two spaces are adjacent |
| Normalize.SquashNoDouble | backend/app.py:105 | replacing every run of a class that contains the space by one space leaves no two adjacent spaces |
| Normalize.SquashKeeps | backend/app.py:104-105 | replacing runs of a class by a space leaves only spaces and characters of the other class |
| Normalize.SquashAbsent | backend/app.py:104-105 | a run substitution changes nothing in a text with no character of the class |
| Normalize.SquashSingles | backend/app.py:105 | collapsing whitespace runs changes nothing in a text whose whitespace is single spaces |
| Normalize.SquashHead | backend/app.py:104-105 | a run substitution keeps the first character, or turns it into the space |
| Normalize.StripFolded | backend/app.py:105 | stripping a text of `[a-z0-9 ]` with no double spaces gives a folded text |
| Normalize.FoldOfFolded | backend/app.py:98-106 | a folded text is its own fold |
| Normalize.FoldIdempotent | backend/app.py:98-106 | folding twice is folding once |
| Normalize.Fold | backend/app.py:98-106 | `_fold` output holds only `[a-z0-9 ]`, with no leading, trailing or doubled space |
| Normalize.FoldAgrees | backend/app.py:98-133 | two texts of the same length whose characters lower-case and lose their accents alike have the same fold and the same tokens |
| Normalize.FoldByChars | backend/app.py:98-133 | the fold and the tokens depend on the text only through lower-casing, accent stripping and mark removal |
| Normalize.KeywordsIgnoreMarks | backend/app.py:98-133 | removing the combining marks from a text first changes neither its fold nor its tokens |
| Normalize.TwoMarksDropped | backend/app.py:98-133 | two combining marks inside a word are dropped from the fold and the tokens, and the word stays whole |
| Normalize.KeywordsOfDecomposedText | backend/app.py:98-133 | the decomposed `te\u0301le\u0301phone` has the fold and tokens of `telephone` |
| Normalize.KeywordsIgnoreCase | backend/app.py:101-133 | lower-casing a text first does not change its tokens |
| Normalize.KeywordsIgnoreAccents | backend/app.py:101-133 | `Télé` and `tele` have the same tokens |
| Normalize.LowerCharTwice | backend/app.py:101 | lower-casing a character twice is lower-casing it once |
| Normalize.KeywordsOf | backend/app.py:124-132 | a word is a keyword of the list exactly when it occurs in it, is non-empty, is not a stopword, and is at least the minimum length or a short-keep word |
| Normalize.KeywordsOfStep | backend/app.py:125-132 | one more word adds that word to the keyword set if it qualifies, and adds nothing otherwise |
| Normalize.FoldedWords | backend/app.py:121-125 | every whitespace-split word of a fold is non-empty and made of `[a-z0-9]` |
| Normalize.Tokens | backend/app.py:120-133 | the accumulator loop of `_tokens` returns exactly the keyword set of the folded text |
| Normalize.KeywordShape | backend/app.py:120-133 | every token is in `[a-z0-9]`, non-empty and not a stopword, and is at least `MIN_KEYWORD_LEN` long unless it is in `_SHORT_KEEP` |
| Normalize.KeywordsOfFolded | backend/app.py:120-121 | tokenising the fold of a text gives the tokens of the text |
| Normalize.OverlapMeaning | backend/app.py:136-139 | the overlap is positive exactly when the two token sets share a word, and is 0 when either set is empty |
| Normalize.Overlap | backend/app.py:136-139 | the overlap is at most the size of either token set |
| Normalize.SharedWitness | backend/app.py:139 | two token sets intersect exactly when some word is in both |
| Hits.ApplyDistanceThreshold | backend/app.py:252-260 | a ceiling of zero or less returns the hits unchanged; otherwise the result keeps, in order, exactly the hits with no distance or a distance within the ceiling |
| Hits.DistanceFilterSound | backend/app.py:255-260 | the filtered hits are an order-preserving subsequence, each within the ceiling, and every hit within the ceiling survives |
| Hits.DistanceLeTotal | backend/app.py:469 | any two hits are comparable under the sort key, which puts no distance last |
| Hits.DistanceLeTrans | backend/app.py:469 | the sort key's order is transitive |
| Hits.Insert | backend/app.py:469 | inserting a hit adds exactly that hit to the multiset |
| Hits.InsertSorted | backend/app.py:469 | inserting into a distance-sorted list keeps it sorted |
| Hits.SortSorted | backend/app.py:469 | the sorted hits are in ascending distance, with the hits that have no distance last |
| Hits.SortPermutes | backend/app.py:469 | sorting is a permutation: the multiset of hits is unchanged |
| Hits.SortMembers | backend/app.py:469 | sorting keeps exactly the same hits |
| Hits.InsertStable | backend/app.py:469 | insertion puts the new hit before the others with an equal distance and keeps their order |
| Hits.SortStable | backend/app.py:469 | the sort is stable: hits with equal distances keep their relative order |
| Hits.TrimStoppedStays | backend/app.py:282-285 | once a budget has stopped the pass, later hits change nothing |
| Hits.TrimHits | backend/app.py:263-291 | the loop with its per-file counters and running total keeps exactly what the greedy pass keeps |
| Hits.KeptSnoc | backend/app.py:287-289 | keeping one more hit raises its file's counter by one and the running total by its stripped length |
| Hits.TrimSubseq | backend/app.py:273-287 | the kept hits are an order-preserving subsequence of the input |
| Hits.TrimBudget | backend/app.py:276-289 | at most `max_chunks` hits are kept, their stripped docs total at most `max_chars`, and each kept doc is non-blank |
| Hits.TrimPerFile | backend/app.py:280-288 | at most `max_per_file` kept hits come from any one file name, and a hit with no name counts as `"unknown"` |
| Hits.FullFileSkipped | backend/app.py:280-281 | a hit from a full file is skipped and the pass goes on to later files |
| Hits.CharBudgetStops | backend/app.py:284-285 | a hit over the character budget ends the pass, even when a later hit would fit |
| Hits.Excerpt | backend/app.py:491 | the excerpt has at most 300 characters and no newline, is stripped, and starts with the doc's first character when that is not a space |
| Hits.SourcesOf | backend/app.py:485-494 | one descriptor per trimmed hit, in order, built from that hit |
| Hits.SourcesOfMembers | backend/app.py:485-494 | every descriptor comes from one of the hits |
| Hits.SourcesOfFilter | backend/app.py:508-523 | the descriptors of the filtered hits come from hits that pass the filter, and there is one for each such hit |
| Keys.FirstKeyOf | backend/app.py:146 | there is no key exactly when no word is a key token, and any key found is a key token |
| Keys.FirstKeyIndex | backend/app.py:173-175 | the key found is the first word that is a key token |
| Keys.KvLine | backend/app.py:145 | a matched line yields a key token and a stripped value |
| Keys.KvLineOfPair | backend/app.py:145 | `KEY:` followed by a value matches with the stripped value, unless nothing follows the colon |
| Keys.ParsedTokenKeys | backend/app.py:145 | every key parsed from a line is a key token |
| Keys.ExtractKvPairs | backend/app.py:149-157 | the line loop builds exactly the dict of the lines' matches |
| Keys.KvKeys | backend/app.py:149-157 | the dict is well formed, and its keys are the distinct matched keys in first-seen order |
| Keys.KvKeysOfText | backend/app.py:149-157 | a chunk's dict is well formed, and its keys are the distinct key tokens of its lines in first-seen order |
| Keys.KvLastWins | backend/app.py:151-156 | a key's value is the one from its last matching line, and a key with no matching line is absent |
| Keys.AddNew | backend/app.py:164-166 | appending the unseen keys of one chunk extends the deduplicated list |
| Keys.KeysInHits | backend/app.py:160-167 | the loop returns the deduplicated keys of all hits, in first-seen order |
| Keys.AllKeysMembers | backend/app.py:162-166 | a key is listed exactly when some hit's dict has it |
| Keys.KeysInHitsSound | backend/app.py:160-167 | `keys_in_hits` has no repeats, lists the keys in the order of their first occurrence in the hits, and holds a key exactly when some hit's dict has it |
| Keys.AllKeysAreKeyTokens | backend/app.py:160-167 | every listed key is a key token |
| Keys.FindValue | backend/app.py:209-214 | there is no value exactly when no hit's dict holds the key |
| Keys.FindValueFirst | backend/app.py:209-214 | the value comes from the first hit whose dict holds the key |
| Keys.FindValueForKey | backend/app.py:209-214 | the loop with its early return computes the first-hit value |
| Keys.FirstValue | backend/app.py:209-214 | the first-hit lookup over any per-hit dict: no value exactly when no dict holds the key |
| Keys.FirstValueAt | backend/app.py:209-214 | a value found comes from a hit whose dict holds the key, and no earlier dict holds it |
| Keys.DigitRunStart | backend/app.py:187 | the trailing digit run starts after the last non-digit |
| Keys.Digit | backend/app.py:193 | the digit character of a value below ten has that value |
| Keys.Decimal | backend/app.py:193 | the decimal numeral of `n` is non-empty, all digits, has value `n`, has no leading zero, and is `"0"` for zero |
| Keys.ZerosValue | backend/app.py:193 | a run of zeros has value zero |
| Keys.LeadingZeros | backend/app.py:193 | leading zeros do not change a numeral's value |
| Keys.ZeroPad | backend/app.py:193 | zero padding to a width keeps the numeral's value, ends with the numeral, pads only with zeros, and is as long as the width or the numeral |
| Keys.Bump | backend/app.py:192-193 | `f"{n+1:0{len(num)}d}"`: the result is exactly as wide as the original or as the numeral of the value plus one, whichever is wider; it ends with that numeral and is padded in front with zeros only; its value is one more |
| Keys.Increment | backend/app.py:187-195 | a key can be incremented exactly when it ends in a digit |
| Keys.IncrementParts | backend/app.py:187-193 | the increment keeps the prefix before the maximal trailing digit run, and replaces the run by the numeral of its value plus one, zero-padded in front to exactly the run's width or the numeral's, whichever is wider |
| Keys.IncrementKeyToken | backend/app.py:187-193 | incrementing a key token gives a key token |
| Keys.DigitTailKeyToken | backend/app.py:187-193 | replacing the digit tail of a key token by digits keeps it a key token |
| Keys.IncrementExample1 | backend/app.py:187-193 | `TEL_001` becomes `TEL_002` |
| Keys.IncrementExample2 | backend/app.py:187-193 | `K999` becomes `K1000`: the width grows when the number needs it |
| Keys.IncrementExample3 | backend/app.py:187-193 | `TEL_A` has no trailing number and cannot be incremented |
| Keys.LastHistoryKey | backend/app.py:179-184 | the key found in the history is a key token |
| Keys.LatestHistoryKey | backend/app.py:179-184 | the backward loop over the history finds the first key of the latest message that has one |
| Keys.ResolveRequestedKey | backend/app.py:170-206 | the branches and loops compute the priority order: key in the message, history increment, second hit key, first hit key, none |
| Keys.ResolvedIsKeyToken | backend/app.py:170-206 | a resolved key is always a key token |
| Keys.ResolvedFromHits | backend/app.py:197-204 | with no key in the message or the history, a resolved key is one some hit's dict holds |
| Keys.OneWord | backend/app.py:146 | a run of word characters is one word |
| Keys.TwoWords | backend/app.py:146 | two runs of word characters separated by a space are two words |
| Keys.KeyTokenWords | backend/app.py:146 | a key token is one word |
| Keys.ExactRequestNamesKey | backend/app.py:226-246 | an exact request contains a key word, or is a verb followed by a key |
| Keys.KeyIsExactRequest | backend/app.py:234-236 | a message that is only a key is an exact request |
| Keys.TriggerThenKey | backend/app.py:238-240 | a trigger word followed by a key is an exact request |
| Keys.VerbThenWord | backend/app.py:242-244 | `donne`, `affiche` or `retourne` followed by a word of at least three key characters, in any case, is an exact request |
| Keys.VerbSpaceKey | backend/app.py:242-244 | a lower-case verb, a space and a key-shaped word satisfy the verb-led request pattern |
| Keys.KeyQuestionWords | backend/app.py:146 | the words of `TEL_001 ?` are just `TEL_001` |
| Keys.KeyLowerNotTrigger | backend/app.py:220-223 | `tel_001` is not a trigger word |
| Keys.KeyQuestionNoTrigger | backend/app.py:239 | `TEL_001 ?` holds no trigger word |
| Keys.KeyQuestionNoVerb | backend/app.py:243 | `TEL_001 ?` does not start with a verb |
| Keys.KeyQuestionNotExact | backend/app.py:226-246 | `TEL_001 ?` is not an exact request, although the docstring lists it as one |
| Checks.NoAnswerIsRefusal | backend/app.py:304-306 | the service's own `NO_ANSWER` looks like a refusal |
| Checks.ContainsNoAnswer | backend/app.py:305-307 | any answer whose fold contains the folded `NO_ANSWER` looks like a refusal |
| Checks.PastPhraseNeverMatches | backend/app.py:299 | the apostrophe pattern never matches a folded text |
| Checks.RefusalPhrases | backend/app.py:304-311 | an answer looks like a refusal exactly when its fold contains the folded `NO_ANSWER`, `je ne trouve pas` or `pas dans les documents` between word boundaries |
| Checks.PhraseIsRefusal | backend/app.py:297-310 | an answer that folds to one of the refusal phrases looks like a refusal |
| Checks.SentencesShape | backend/app.py:314-319 | every sentence is non-empty and stripped, and holds no `.`, `!`, `?` or newline |
| Checks.SentencesDecompose | backend/app.py:314-319 | the stripped text is the sentence-character runs interleaved with non-empty runs of `.`, `!`, `?` and newlines, and the sentences are exactly those runs stripped with the blank ones left out, in order |
| Checks.OneSentence | backend/app.py:314-319 | a text with no delimiter is one sentence, its strip, or none when blank |
| Checks.SentenceLength | backend/app.py:314-319 | no sentence is longer than the text |
| Checks.Docs | backend/app.py:330 | the docs of the hits, one per hit, in order |
| Checks.AllGroundedEach | backend/app.py:334-339 | all sentences pass exactly when each sentence is short, folds to nothing, or folds into the source text |
| Checks.VerbatimOk | backend/app.py:322-340 | the loop with its early return decides the verbatim condition |
| Checks.NotAllGrounded | backend/app.py:338-339 | one failing sentence fails the whole answer |
| Checks.VerbatimEach | backend/app.py:322-340 | with the check on, an answer passes exactly when the folded joined docs are non-empty and every long sentence folds into them |
| Checks.VerbatimMonotone | backend/app.py:335-336 | raising the minimum sentence length never makes a passing answer fail |
| Checks.VerbatimNeedsSources | backend/app.py:330-332 | with the check on, no answer passes without sources |
| Checks.VerbatimShortAnswer | backend/app.py:334-336 | an answer shorter than the minimum passes whenever there is source text |
| Checks.Head | backend/app.py:348 | the slice `sources[:max(1, EXTRACTIVE_MAX)]`: a prefix of that length, or all sources |
| Checks.ExtractiveAnswer | backend/app.py:343-354 | the loop computes the extractive answer |
| Checks.ExcerptsShape | backend/app.py:348-351 | at most one excerpt per source is kept, and each kept excerpt is non-empty and stripped |
| Checks.ExcerptsInOrder | backend/app.py:348-351 | the kept excerpts are exactly the sources' stripped excerpts with the empty ones filtered out, in source order |
| Checks.ExcerptsEmpty | backend/app.py:348-353 | no excerpt is kept exactly when every source's excerpt strips to nothing |
| Checks.StrippedExcerpts | backend/app.py:349 | one entry per source, the i-th being source i's excerpt stripped |
| Checks.ExtractiveBounds | backend/app.py:343-354 | at most `max(1, EXTRACTIVE_MAX)` excerpts, exactly the non-blank stripped excerpts of the first sources in order; none exactly when all those excerpts are blank, and then `NO_ANSWER`; otherwise their `"\n\n"` join |
| Checks.ExtractiveTwo | backend/app.py:343-354 | with the default of two, the first two non-blank excerpts are joined and the third source is ignored |
| Chat.FinalTopK | backend/app.py:429 | the clamp lies in 1 to 20, keeps values in range, and turns 0 into 5, negatives into 1 and larger values into 20 |
| Chat.RetrieveKBounds | backend/app.py:430 | the fan-out never exceeds `RETRIEVE_MAX`, reaches `top_k` and `top_k * RETRIEVE_MULT` when the maximum allows, and is 30 and 16 for `top_k` 5 and 2 with the defaults |
| Chat.Score | backend/app.py:447-454 | one score per hit, in order: the i-th entry is hit i with its score (its overlap with the question) |
| Chat.BestOverlap | backend/app.py:448 | the best overlap bounds every score and is zero or reached by some hit |
| Chat.ScoreHits | backend/app.py:445-456 | the scoring loop returns every hit's overlap and the best one |
| Chat.BestSnoc | backend/app.py:455-456 | the running maximum is updated only by a larger overlap |
| Chat.ScoreSnoc | backend/app.py:447-454 | scoring one more hit appends its score |
| Chat.PositiveFilter | backend/app.py:463 | keeping the positive scores keeps exactly the hits that satisfy a predicate with the same truth value, in order |
| Chat.PositiveIsFilter | backend/app.py:463 | the hits with overlap > 0 are the hits that share a keyword with the question, in order |
| Chat.GatherEvidence | backend/app.py:439-480 | steps 2 to 4 of `chat`: distance ceiling, gate, filter, sort, trim, with an empty result on each early refusal |
| Chat.EvidenceSupported | backend/app.py:439-477 | every trimmed hit was retrieved, is within the ceiling, has a keyword overlap with the question and a non-blank doc; there are at most `min(MAX_CHUNKS, top_k)` of them |
| Chat.KeptSupported | backend/app.py:463-477 | the hits the trim keeps from the positive candidates were retrieved, are admissible evidence, and are at most `max_chunks` |
| Chat.KeptFromCandidates | backend/app.py:463-477 | every trimmed hit is one of the positive candidates and has a non-blank doc |
| Chat.CandidateSupported | backend/app.py:439-463 | a positive candidate with a non-blank doc is admissible evidence |
| Chat.LowOverlapNoEvidence | backend/app.py:459-460 | when no hit within the ceiling reaches `MIN_OVERLAP`, nothing survives |
| Chat.BuildSources | backend/app.py:482-494 | the loop builds one descriptor per trimmed hit, in order |
| Chat.SourcesOfSnoc | backend/app.py:485-494 | one more hit appends its descriptor |
| Chat.KeySources | backend/app.py:508-523 | the loop keeps, in order, the descriptors of exactly the hits whose dict holds the key |
| Chat.AnswerText | backend/app.py:580 | `(raw or "").strip() or NO_ANSWER` is never empty; it is `NO_ANSWER` or the stripped text, and `NO_ANSWER` exactly when the text is blank or is `NO_ANSWER` itself |
| Chat.Answer | backend/app.py:499-590 | the part after the trim: exact mode, key shortcut, extractive mode, then the checks on the generated answer |
| Chat.Chat | backend/app.py:423-590 | the whole decision procedure, with the flag that says whether the model is asked |
| Guarantees.KeySourcesExact | backend/app.py:508-525 | a value answer cites exactly the trimmed hits that hold the key, and no more sources than hits |
| Guarantees.RespondCases | backend/app.py:499-590 | a found value is answered with its key's sources; every other reply is the refusal or cites all trimmed hits |
| Guarantees.RespondShape | backend/app.py:482-590 | with some trimmed hit there is always a reply, its sources come from the trimmed hits and are no more than they, and a reply without sources is `NO_ANSWER` |
| Guarantees.MissingMessageIff | backend/app.py:425-427 | the HTTP 400 is returned exactly for a blank message |
| Guarantees.NoSourcesNoAnswer | backend/app.py:423-590 | every reply with no sources is `NO_ANSWER` |
| Guarantees.RepliesGrounded | backend/app.py:423-590 | every cited source is a retrieved hit within the ceiling that shares a keyword with the question and has a non-blank doc, and at most `min(MAX_CHUNKS, top_k)` (at most 20) are cited |
| Guarantees.RespondGrounded | backend/app.py:482-590 | after a non-empty trim, the reply cites only admissible evidence, within the chunk budget |
| Guarantees.LowOverlapRefuses | backend/app.py:459-460 | when no hit reaches `MIN_OVERLAP`, the result is the refusal and the model is not asked |
| Guarantees.UnconsultedIgnoresModel | backend/app.py:499-579 | when the model is not asked, its text cannot change the result |
| Guarantees.WhenConsulted | backend/app.py:499-579 | the model is asked only when the trim is non-empty, the request is not an exact one with a key, extractive mode is off, and no resolved key has a value |
| Guarantees.ShortcutCases | backend/app.py:499-558 | no shortcut is taken exactly when the request is not an exact one with a key, extractive mode is off, and no resolved key has a value |
| Guarantees.ExactWithoutValueRefuses | backend/app.py:499-505 | an exact request whose resolved key has no value is refused without asking the model |
| Guarantees.KeyValueAnswer | backend/app.py:529-549 | a resolved key with a value is answered with the value of the first hit that holds it, with that key's sources, and the model is not asked |
| Guarantees.PassedOnGenerated | backend/app.py:579-590 | when the model is asked, every reply other than `NO_ANSWER` is the stripped generated text, passed both checks and cites all trimmed hits |
| Guarantees.RespondConsulted | backend/app.py:579-590 | the same, for the part after the trim |
| Guarantees.PostCheckedPasses | backend/app.py:583-590 | the checked result is the refusal, or the answer itself with all sources after passing both checks; a refusal look-alike is always refused |
| Strings.LowerChar | backend/app.py:101 | ASCII upper-case letters and the Latin-1 upper-case letters (`À`-`Þ` except `×`) become the lower-case letter 32 code points up; every other character is unchanged |
| Strings.Lower | backend/app.py:101 | `str.lower` lower-cases character by character and keeps the length |
| Strings.TrimLeft | backend/app.py:243 | the left strip is a suffix of the text that is empty or starts with a non-space, and every character removed is whitespace |
| Strings.Strip | backend/app.py:425 | `str.strip` gives a text with no leading or trailing whitespace, and never lengthens it |
| Strings.StripSlice | backend/app.py:425 | the strip is the slice of the text left once the leading and trailing whitespace are removed: everything before and after it is whitespace, and it is empty exactly when the text is all whitespace |
| Strings.StripOfStripped | backend/app.py:425 | stripping a stripped text changes nothing |
| Strings.StrippedGlue | backend/rag/text_utils.py:62 | gluing two non-blank stripped texts with a separator gives a stripped text |
| Strings.StripBeforeStripped | backend/rag/text_utils.py:82 | stripping a text that ends in a non-blank stripped chunk keeps that chunk as its suffix |
| Strings.StrippedPieces | backend/rag/text_utils.py:47 | `[p.strip() for p in xs if p.strip()]`: no more pieces than parts, each non-empty and stripped |
| Strings.StripAll | backend/rag/text_utils.py:47 | every part stripped, one result per part, in order |
| Strings.StrippedPiecesFilter | backend/rag/text_utils.py:47 | `[p.strip() for p in xs if p.strip()]` is every part stripped, with the empty results filtered out, in order |
| Strings.Take | backend/rag/text_utils.py:68 | `t[:n]`: a prefix of length `min(n, len(t))` |
| Strings.Last | backend/rag/text_utils.py:81 | `prev[-overlap:]`: a suffix of length `min(overlap, len(prev))` |
| Strings.ReplaceChar | backend/rag/text_utils.py:15 | `str.replace` for one character changes exactly those characters |
| Strings.SplitWhitespace | backend/app.py:125 | `str.split()` gives non-empty words without whitespace |
| Strings.Runs | backend/app.py:318 | the runs of a character class are non-empty and made of that class |
| Strings.RunsDecompose | backend/app.py:318 | the runs are the maximal runs of the class: the text is the runs interleaved with gaps of other characters, every inner gap non-empty |
| Strings.SplitWhitespaceRuns | backend/app.py:125 | the words of `str.split()` are the maximal runs of non-whitespace: the text is the words interleaved with whitespace gaps, every inner gap non-empty |
| Strings.SplitLines | backend/app.py:151 | no line holds a newline; an empty text has no lines; joining the lines with `\n`, plus a final newline when the text ends with one, gives the text back |
| Strings.Split | backend/app.py:151 | splitting at a character gives at least one piece, none holding that character, and joining the pieces with that character gives the text back |
| Strings.SubstringIndex | backend/app.py:306 | `x in a` for strings gives a position where `x` occurs |
| Seqs.Filter | backend/app.py:463 | a filtering comprehension keeps only elements that pass, and keeps every element that passes |
| Seqs.Dedup | backend/app.py:164-166 | the distinct elements have no repeats and the same members |
| Seqs.DedupSnoc | backend/app.py:165-166 | one more element is appended only if it is new |
| Seqs.DedupIsSubseq | backend/app.py:164-166 | the distinct elements are a subsequence of the input |
| Seqs.IndexOf | backend/app.py:165 | the position of the first occurrence of an element |
| Seqs.DedupFirstSeen | backend/app.py:164-166 | the distinct elements are in the order of their first occurrence in the input |
| Chunker.ReplaceCrLf | backend/rag/text_utils.py:15 | replacing `\r\n` never lengthens the text |
| Chunker.ReplaceCrLfText | backend/rag/text_utils.py:15 | replacing `\r\n` by `\n` keeps every character that is not a line break, in order |
| Chunker.ReplaceBreakText | backend/rag/text_utils.py:15 | replacing `\r` by `\n` keeps every character that is not a line break, in order |
| Chunker.UnifyLineEndsMeaning | backend/rag/text_utils.py:15 | after both replaces no `\r` is left, and the text outside line breaks is unchanged |
| Chunker.UnifyLineEndsOnePass | backend/rag/text_utils.py:15 | the two replaces equal a single left-to-right pass in which each CRLF pair, each lone CR and each LF becomes exactly one `\n` and every other character is kept |
| Chunker.CollapseBlankLines | backend/rag/text_utils.py:16 | collapsing newline runs keeps a first character that is not a newline |
| Chunker.CollapseNoTriple | backend/rag/text_utils.py:16 | after the collapse no three newlines are adjacent |
| Chunker.CollapseKeeps | backend/rag/text_utils.py:16 | the collapse introduces no character other than the newline |
| Chunker.CollapseKeepsText | backend/rag/text_utils.py:16 | the collapse keeps every character other than the newline, in order, and never lengthens the text |
| Chunker.CollapseAtRun | backend/rag/text_utils.py:16 | a leading run of newlines becomes two newlines when it has three or more, and stays as it is otherwise |
| Chunker.CollapseFixes | backend/rag/text_utils.py:16 | a text with no three newlines in a row is left unchanged: only runs of three or more shrink |
| Chunker.CollapseIdempotent | backend/rag/text_utils.py:16 | collapsing twice is collapsing once |
| Chunker.SliceNoTriple | backend/rag/text_utils.py:16 | a slice of a text without triple newlines has none |
| Chunker.StripKeepsOut | backend/rag/text_utils.py:16 | stripping introduces no character |
| Chunker.Normalized | backend/rag/text_utils.py:15-16 | the normalised text is stripped and holds no `\r` |
| Chunker.NormalizedNoTriple | backend/rag/text_utils.py:15-16 | the normalised text holds no three adjacent newlines |
| Chunker.SplitParagraphs | backend/rag/text_utils.py:26 | `re.split(r"\n\n+", t)` yields at least one part, and the first part is a prefix of the text |
| Chunker.ParagraphsRoundTrip | backend/rag/text_utils.py:26 | on a text without triple newlines, joining the parts with `"\n\n"` gives the text back |
| Chunker.ParagraphsHaveNoBreak | backend/rag/text_utils.py:26 | no part holds two newlines in a row: the split cuts at every blank line |
| Chunker.RoundTripAtBreak | backend/rag/text_utils.py:26 | the round trip for a text that starts with a blank line |
| Chunker.RoundTripAtChar | backend/rag/text_utils.py:26 | the round trip for a text that starts with a character of its first part |
| Chunker.NormalizedParagraphs | backend/rag/text_utils.py:15-26 | the paragraphs of the normalised text, joined with `"\n\n"`, give it back |
| Chunker.EffectiveParams | backend/rag/text_utils.py:20-23 | the size is at least 200 and kept when it is; 0 <= overlap < size; an overlap in range is kept, a non-positive one becomes 0 and one of at least the size becomes `size // 5`; the overlap is zero exactly when it was at most zero |
| Chunker.LinesOk | backend/rag/text_utils.py:47 | every line of a long paragraph is non-empty, stripped and holds no newline |
| Chunker.LinesNonEmpty | backend/rag/text_utils.py:47 | a non-blank paragraph has at least one line |
| Chunker.LinePassOpen | backend/rag/text_utils.py:49-55 | `buf` stays stripped, and is non-empty after at least one line |
| Chunker.LineStepOk | backend/rag/text_utils.py:50-55 | one line step keeps every chunk within the size or a single line, and only appends chunks |
| Chunker.LinePassOk | backend/rag/text_utils.py:49-56 | the line loop keeps every chunk within the size or a single line, and only appends chunks |
| Chunker.LongParagraphOk | backend/rag/text_utils.py:46-58 | a long paragraph yields at least one chunk, each within the size or a single line, appended after the existing ones |
| Chunker.ParaStepOk | backend/rag/text_utils.py:36-62 | one paragraph step keeps the chunks within bounds and `cur` stripped and within the size; it never loses the last non-blank text |
| Chunker.PackPartsOk | backend/rag/text_utils.py:36-62 | the paragraph loop keeps every chunk within the size or a single line, and `cur` stripped and within the size |
| Chunker.PackPartsLive | backend/rag/text_utils.py:36-64 | a non-blank paragraph leaves something to flush |
| Chunker.FirstParagraph | backend/rag/text_utils.py:26 | the first paragraph of a non-blank stripped text is non-empty and starts where the text does |
| Chunker.BaseChunksOk | backend/rag/text_utils.py:26-68 | a non-blank normalised text always gives at least one base chunk, so the fallback is never taken; every base chunk is non-empty, stripped, and within the size or a single line |
| Chunker.JoinGlue | backend/rag/text_utils.py:62 | gluing onto the last element before a join is the same as joining once more |
| Chunker.ParaStepJoin | backend/rag/text_utils.py:36-62 | while paragraphs fit, one step keeps the chunks and `cur`, joined with `"\n\n"`, equal to the paragraphs seen |
| Chunker.PackPartsJoin | backend/rag/text_utils.py:36-62 | when every paragraph fits, the chunks and `cur`, joined with `"\n\n"`, are the stripped paragraphs joined with `"\n\n"` |
| Chunker.ShortParagraphsKept | backend/rag/text_utils.py:26-64 | when every paragraph fits, joining the base chunks with `"\n\n"` gives the paragraphs joined the same way: nothing is lost and nothing reordered |
| Chunker.SubstringExtend | backend/rag/text_utils.py:62 | text containing a paragraph still contains it after gluing more text on either side |
| Chunker.ContainedGrow | backend/rag/text_utils.py:33 | a paragraph held by some chunk is still held after more chunks are appended |
| Chunker.AllContainedGrow | backend/rag/text_utils.py:33 | every held paragraph is still held after more chunks are appended |
| Chunker.WholeAfterFlush | backend/rag/text_utils.py:30-34 | after a flush, every short paragraph seen so far lies whole inside one chunk |
| Chunker.WholeGlue | backend/rag/text_utils.py:62 | gluing a paragraph onto `cur` keeps every short paragraph seen whole in a chunk or in `cur` |
| Chunker.ParaStepWhole | backend/rag/text_utils.py:36-62 | one paragraph step keeps every paragraph of at most the size whole, in a chunk or in `cur` |
| Chunker.PackPartsWhole | backend/rag/text_utils.py:36-62 | after the loop every paragraph of at most the size lies whole in a chunk or in `cur` |
| Chunker.ShortParagraphWhole | backend/rag/text_utils.py:26-64 | a paragraph of at most the chunk size is never split: it lies whole inside one base chunk |
| Chunker.LinePassGroups | backend/rag/text_utils.py:47-58 | the line loop only appends chunks; each new chunk and the last `buf` is a non-empty group of consecutive lines joined with `"\n"`, `buf` is empty exactly when there are no lines, and the groups in order are the lines |
| Chunker.LinesGroups | backend/rag/text_utils.py:47-58 | a long paragraph's lines, closed by the final append, add groups of consecutive lines after the existing chunks, and those groups in order are the lines |
| Chunker.LongParagraphGroups | backend/rag/text_utils.py:46-58 | a long paragraph adds chunks whose groups in order are its lines |
| Chunker.FlushGroups | backend/rag/text_utils.py:30-34 | `flush()` closes the open group: the groups of the chunks are then all the units read |
| Chunker.ParaStepGroups | backend/rag/text_utils.py:36-62 | one paragraph step keeps every chunk a group of consecutive units, `cur` the open group joined with `"\n\n"`, and the groups plus `cur` equal to the units of the paragraphs read |
| Chunker.PackPartsGroups | backend/rag/text_utils.py:36-62 | after the paragraph loop the chunks and `cur` are groups of consecutive units, and the groups plus `cur` are the units of all paragraphs |
| Chunker.BaseChunksGrouped | backend/rag/text_utils.py:26-64 | whatever the paragraphs, each base chunk is a non-empty group of consecutive units joined with `"\n\n"` or `"\n"`, where a unit is a paragraph that fits or one line of a longer one, and the groups in order are all the units: nothing is lost, nothing reordered, nothing that fits is cut |
| Chunker.CarriedShape | backend/rag/text_utils.py:81-82 | an overlapped chunk is non-empty and stripped, ends with its base chunk, and is a suffix of the previous tail, `"\n"` and the chunk |
| Chunker.SlidePassShape | backend/rag/text_utils.py:74-85 | one output per base chunk, and the first is the first base chunk; output `i > 0` carries the tail of base chunk `i-1`; `prev` ends as the last base chunk |
| Chunker.SlideStepShape | backend/rag/text_utils.py:77-85 | one more step of the overlap loop keeps that shape |
| Chunker.SlideSummary | backend/rag/text_utils.py:74-85 | one output per base chunk; output `i > 0` ends with base chunk `i`, comes from the tail of base chunk `i-1`, and is at most `overlap + 1` characters longer |
| Chunker.ZeroOverlapIsBase | backend/rag/text_utils.py:71-72 | with `overlap <= 0` the result is exactly the base chunks, in order |
| Chunker.ZeroOverlapBound | backend/rag/text_utils.py:42-72 | with `overlap <= 0` every returned chunk is within the effective size or is a single line |
| Chunker.SlidingOverlap | backend/rag/text_utils.py:70-85 | with `overlap > 0` the output has one chunk per base chunk; the first is unchanged; each later one is the strip of the previous base chunk's last `overlap` characters, `"\n"` and the chunk, so the prefix comes from the base chunk and not from the previous output |
| Chunker.ChunksShape | backend/rag/text_utils.py:11-85 | the result is empty exactly for a non-string or a text that normalises to nothing; every chunk is non-empty and stripped |
| Chunker.PackLines | backend/rag/text_utils.py:47-58 | the line loop over `buf` computes the line pass, closed by a final append |
| Chunker.PackParagraphs | backend/rag/text_utils.py:27-64 | the paragraph loop over `cur`, with `flush` and the line sub-split, computes the base chunks |
| Chunker.SlideOverlap | backend/rag/text_utils.py:74-87 | the overlap loop over `out` and `prev` computes the sliding pass |
| Chunker.ChunkText | backend/rag/text_utils.py:4-87 | `chunk_text` computes the chunk specification; its result is empty exactly for a non-string or a blank normalised text, and every chunk is non-empty and stripped |

## Left out

- The vector store (`backend/rag/store.py`) is not part of this model. What `query_top_k` returns is the input `retrieved`, and the `where` filter built from `selected_files` is not modelled.
- The language model client (`backend/rag/ollama_client.py`) is not part of this model. The text `chat_answer` would return is the input `generated`. `None` stands for no text, and `Chat.Chat` reports whether the call would be made.
- The prompt assembly of `chat` is not modelled: the system text, the history block and the context lines. It only feeds the model's input.
- The other endpoints are not modelled: upload, delete, document list, health and clear, with the upload's extension whitelist. They do file and index I/O. The file parsers in `backend/rag/parsers.py` are left out for the same reason.
- Reading the tuning from environment variables, with its `int()`/`float()` fallbacks, is not modelled. The values are the parameter `Chat.Config`, and their defaults are `Chat.Defaults`.
- `int(payload.top_k)` and `int(chunk_size)` are modelled on integers that are already ints. Pydantic's coercion of the request is not modelled.
- Distances are `Option<real>`. They are only compared, never computed with, so floating-point rounding and NaN are not modelled.
- Normalize.StripAccent: NFKD decomposition and combining-mark removal are modelled as a table for Latin-1 only. In Latin-1 the one gap is `¼`, `½` and `¾`. NFKD turns them into digit, fraction slash, digit, which `_fold` reads as `1 4`, `1 2` and `3 4`; the model leaves them as they are, and they become a space. Beyond Latin-1, letters that NFKD decomposes keep their base letter in the source but become a space in the model. Examples are the Latin Extended-A/B letters `ā`, `č`, `ě` and `ő`, fullwidth letters, ligatures such as `ﬁ`, and other superscripts. Letters with no decomposition (`ł`, `đ`, `ø`, `æ`, `ß`, other scripts) become a space in both. `_fold("m²")` is `m2` in both. Combining marks already present in the text (NFD input such as `te\u0301le\u0301phone`) are dropped as the source drops them when they are in the Combining Diacritical Marks block U+0300–U+036F. U+034F has combining class 0, so it is kept and becomes a space in both. Combining marks of other blocks are kept by the model and become a space, which splits the word where the source joins it. Those blocks are U+1AB0–U+1AFF, U+1DC0–U+1DFF, U+20D0–U+20FF, U+FE20–U+FE2F, and the marks of other scripts.
- `query_top_k` (backend/app.py:436) and `chat_answer` (backend/app.py:579) are called without a `try`. An error from the vector store or from Ollama (`raise_for_status` at backend/rag/ollama_client.py:13, for the `/api/generate` fallback) propagates out of `chat`, and FastAPI turns it into an HTTP 500. The model has no such outcome. Both calls are inputs that always succeed.
- Strings.Strip: its own contract states only that the result is stripped and no longer. The value, the slice between the leading and trailing whitespace, is stated by `Strings.StripSlice`.
- Strings.StrippedPieces: its own contract states only the shape of the pieces. Its value is stated by `Strings.StrippedPiecesFilter`.
- Strings.SplitWhitespace: its own contract states only the shape of the words. That they are the maximal non-whitespace runs, in order, is stated by `Strings.SplitWhitespaceRuns`.
- Chunker.CollapseBlankLines: its own contract states only the first character. Its meaning is stated by `Chunker.CollapseKeepsText` (other characters kept, in order), `Chunker.CollapseAtRun` (a run of three or more newlines becomes two), `Chunker.CollapseFixes` (nothing else changes) and `Chunker.CollapseNoTriple`.
- Chunker.SplitParagraphs: its own contract states only that there is a first part and that it is a prefix. The parts are characterised by `Chunker.ParagraphsRoundTrip` and `Chunker.ParagraphsHaveNoBreak`.
- Chunker.ShortParagraphsKept: it assumes every paragraph fits the size. The general case, with long paragraphs cut into lines, is `Chunker.BaseChunksGrouped`.
- Strings.LowerChar: `str.lower` is modelled for ASCII and the Latin-1 upper-case block only.
- Strings.IsWordChar: the regex `\w` used by `\b` is modelled for ASCII, the Latin-1 letters and numerics (`¹ ² ³ ¼ ½ ¾`, for which `str.isalnum()` holds), and the Latin Extended-A/B letters. Letters and digits of other blocks are not word characters in the model. Under `IGNORECASE`, Python also folds a few non-ASCII letters onto `[A-Z]` (the Kelvin sign, for one), which is not modelled.
- Strings.SplitLines: `str.splitlines` is modelled as splitting at `\n` only. Its other line boundaries (`\r`, `\x0b`, `\x0c`, `\x1c`-`\x1e`, `\x85`, `\u2028`, `\u2029`) are not separators. For `chunk_text` there is no gap from `\r`, because it has already been replaced by `\n`.
- A hit whose `meta` is missing or `None` is modelled as having neither file name nor chunk index. A `meta` dict whose `file_name` value is itself `None` keeps `None` in the source, which is not distinguished.
- Hits.SortByDistance: the in-place `list.sort` of `chat` is modelled as a stable insertion sort on sequences. Its in-place update and the deletion of the `_ov` key from each dict are not modelled; the scores are a separate sequence.
- The `HTTPException` for a missing message is the outcome `MissingMessage`. It is not an exception.
