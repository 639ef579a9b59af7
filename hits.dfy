/**
 * Retrieved hits and the post-processing of the retrieval result in
 * backend/app.py: the distance ceiling (`_apply_distance_threshold`), the
 * "None last" distance sort of `chat`, the budgeted trim (`_trim_hits`) and
 * the source descriptors returned to the client.
 */
module Hits {
  import opened Wrappers
  import opened Strings
  import opened Seqs

  /**
   * One retrieved chunk. `doc` is the chunk text (a missing or `None` doc is
   * the empty string, as `h.get("doc") or ""` reads it); `None` metadata
   * fields stand for keys absent from `meta`.
   */
  datatype Hit = Hit(doc: string, fileName: Option<string>, chunkIndex: Option<int>, distance: Option<real>)

  /** `meta.get("file_name", "unknown")`. */
  function FileOf(h: Hit): string {
    h.fileName.GetOr("unknown")
  }

  /** `meta.get("chunk_index", -1)`. */
  function ChunkOf(h: Hit): int {
    h.chunkIndex.GetOr(-1)
  }

  // ---------------------------------------------------------------------------
  // _apply_distance_threshold
  // ---------------------------------------------------------------------------

  /** A hit passes the ceiling when it has no distance or one at most `maxDistance`. */
  predicate WithinDistance(h: Hit, maxDistance: real) {
    h.distance.None? || h.distance.value <= maxDistance
  }

  function WithinBound(maxDistance: real): Hit -> bool {
    h => WithinDistance(h, maxDistance)
  }

  /** `_apply_distance_threshold`: a ceiling of zero or less disables the filter. */
  method ApplyDistanceThreshold(hits: seq<Hit>, maxDistance: real) returns (out: seq<Hit>)
    ensures maxDistance <= 0.0 ==> out == hits
    ensures maxDistance > 0.0 ==> out == Filter(hits, WithinBound(maxDistance))
  {
    if maxDistance <= 0.0 {
      return hits;
    }
    out := [];
    for i := 0 to |hits|
      invariant out == Filter(hits[..i], WithinBound(maxDistance))
    {
      var h := hits[i];
      assert hits[..i + 1][..i] == hits[..i];
      if h.distance.None? || h.distance.value <= maxDistance {
        out := out + [h];
      }
    }
    assert hits[..|hits|] == hits;
  }

  /**
   * With an active ceiling, the result keeps the order of the input, holds
   * only hits within the ceiling, and holds every such hit.
   */
  lemma DistanceFilterSound(hits: seq<Hit>, maxDistance: real)
    ensures IsSubseq(Filter(hits, WithinBound(maxDistance)), hits)
    ensures forall i :: 0 <= i < |Filter(hits, WithinBound(maxDistance))| ==>
      WithinDistance(Filter(hits, WithinBound(maxDistance))[i], maxDistance)
    ensures forall i :: 0 <= i < |hits| && WithinDistance(hits[i], maxDistance) ==>
      hits[i] in Filter(hits, WithinBound(maxDistance))
  {
    FilterIsSubseq(hits, WithinBound(maxDistance));
  }

  // ---------------------------------------------------------------------------
  // The distance sort of `chat`
  // ---------------------------------------------------------------------------

  /**
   * The order of the sort key `(distance is None, distance or 10**9)`: hits
   * with a distance come first, by ascending distance; hits without one come
   * last and are all equivalent.
   */
  predicate DistanceLe(a: Hit, b: Hit) {
    match (a.distance, b.distance)
    case (Some(x), Some(y)) => x <= y
    case (Some(_), None) => true
    case (None, Some(_)) => false
    case (None, None) => true
  }

  lemma DistanceLeTotal(a: Hit, b: Hit)
    ensures DistanceLe(a, b) || DistanceLe(b, a)
  {
  }

  /** Equal distances compare as less-or-equal. */
  lemma DistanceLeEqual(a: Hit, b: Hit)
    requires a.distance == b.distance
    ensures DistanceLe(a, b)
  {
  }

  lemma DistanceLeTrans(a: Hit, b: Hit, c: Hit)
    requires DistanceLe(a, b) && DistanceLe(b, c)
    ensures DistanceLe(a, c)
  {
  }

  predicate SortedByDistance(s: seq<Hit>) {
    forall i, j :: 0 <= i < j < |s| ==> DistanceLe(s[i], s[j])
  }

  /** Put `x` in front of the first element it does not come after. */
  function Insert(x: Hit, s: seq<Hit>): (r: seq<Hit>)
    ensures multiset(r) == multiset{x} + multiset(s)
    decreases |s|
  {
    if s == [] || DistanceLe(x, s[0]) then [x] + s
    else
      assert s == [s[0]] + s[1..];
      [s[0]] + Insert(x, s[1..])
  }

  /**
   * `list.sort` with the key above: a stable sort. As the sort is Python's
   * own, it is specified by the stable insertion sort, which orders equal
   * keys the same way.
   */
  function SortByDistance(s: seq<Hit>): seq<Hit>
    decreases |s|
  {
    if s == [] then [] else Insert(s[0], SortByDistance(s[1..]))
  }

  lemma {:induction false} InsertSorted(x: Hit, s: seq<Hit>)
    requires SortedByDistance(s)
    ensures SortedByDistance(Insert(x, s))
    decreases |s|
  {
    if s != [] && !DistanceLe(x, s[0]) {
      InsertSorted(x, s[1..]);
      var t := Insert(x, s[1..]);
      assert multiset(t) == multiset{x} + multiset(s[1..]);
      forall j | 0 <= j < |t| ensures DistanceLe(s[0], t[j]) {
        assert t[j] in multiset(t);
        if t[j] != x {
          assert t[j] in multiset(s[1..]);
          var k :| 0 <= k < |s[1..]| && s[1..][k] == t[j];
          assert s[k + 1] == t[j];
        }
      }
    } else if s != [] {
      forall j | 1 <= j < |s| + 1 ensures DistanceLe(x, ([x] + s)[j]) {
        DistanceLeTrans(x, s[0], s[j - 1]);
      }
    }
  }

  /** The sort orders by distance, None last... */
  lemma {:induction false} SortSorted(s: seq<Hit>)
    ensures SortedByDistance(SortByDistance(s))
    decreases |s|
  {
    if s != [] {
      SortSorted(s[1..]);
      InsertSorted(s[0], SortByDistance(s[1..]));
    }
  }

  /** ...keeps every hit, as often as it occurs... */
  lemma {:induction false} SortPermutes(s: seq<Hit>)
    ensures multiset(SortByDistance(s)) == multiset(s)
    decreases |s|
  {
    if s != [] {
      SortPermutes(s[1..]);
      assert s == [s[0]] + s[1..];
    }
  }

  /** Sorting neither adds nor loses a hit. */
  lemma SortMembers(s: seq<Hit>)
    ensures forall h :: h in SortByDistance(s) <==> h in s
  {
    SortPermutes(s);
    forall h ensures h in SortByDistance(s) <==> h in s {
      assert h in SortByDistance(s) <==> h in multiset(SortByDistance(s));
      assert h in s <==> h in multiset(s);
    }
  }

  function HasDistance(d: Option<real>): Hit -> bool {
    (h: Hit) => h.distance == d
  }

  lemma {:induction false} InsertStable(x: Hit, s: seq<Hit>, d: Option<real>)
    ensures Filter(Insert(x, s), HasDistance(d))
      == (if x.distance == d then [x] else []) + Filter(s, HasDistance(d))
    decreases |s|
  {
    var p := HasDistance(d);
    if s == [] || DistanceLe(x, s[0]) {
      assert Insert(x, s) == [x] + s;
      FilterCons(x, s, p);
    } else {
      assert Insert(x, s) == [s[0]] + Insert(x, s[1..]);
      if s[0].distance == x.distance {
        DistanceLeEqual(x, s[0]);
      }
      InsertStable(x, s[1..], d);
      FilterPastOther(s[0], Insert(x, s[1..]), s[1..], if x.distance == d then [x] else [], p);
      assert [s[0]] + s[1..] == s;
    }
  }

  /** ...and is stable: hits of equal distance keep their input order. */
  lemma {:induction false} SortStable(s: seq<Hit>, d: Option<real>)
    ensures Filter(SortByDistance(s), HasDistance(d)) == Filter(s, HasDistance(d))
    decreases |s|
  {
    if s != [] {
      SortStable(s[1..], d);
      InsertStable(s[0], SortByDistance(s[1..]), d);
      FilterCons(s[0], s[1..], HasDistance(d));
      assert s == [s[0]] + s[1..];
    }
  }

  // ---------------------------------------------------------------------------
  // _trim_hits
  // ---------------------------------------------------------------------------

  /** How many hits of `kept` belong to file `f`. */
  function CountFile(kept: seq<Hit>, f: string): nat
    decreases |kept|
  {
    if kept == [] then 0
    else CountFile(kept[..|kept| - 1], f) + (if FileOf(kept[|kept| - 1]) == f then 1 else 0)
  }

  /** The total length of the stripped docs of `kept`. */
  function DocChars(kept: seq<Hit>): nat
    decreases |kept|
  {
    if kept == [] then 0 else DocChars(kept[..|kept| - 1]) + |Strip(kept[|kept| - 1].doc)|
  }

  /** The budgets of `_trim_hits`. */
  datatype Budget = Budget(maxChunks: int, maxPerFile: int, maxChars: int)

  /** The state of the trimming pass: what is kept, and whether a budget stopped it. */
  datatype Trimmed = Trimmed(kept: seq<Hit>, stopped: bool)

  /** One iteration of the trimming loop. */
  function TrimStep(st: Trimmed, h: Hit, b: Budget): Trimmed {
    if st.stopped then st
    else
      var doc := Strip(h.doc);
      if doc == [] then st
      else if CountFile(st.kept, FileOf(h)) >= b.maxPerFile then st
      else if |st.kept| >= b.maxChunks then Trimmed(st.kept, true)
      else if DocChars(st.kept) + |doc| > b.maxChars then Trimmed(st.kept, true)
      else Trimmed(st.kept + [h], false)
  }

  /** The trimming pass over `hits`. */
  function TrimPass(hits: seq<Hit>, b: Budget): Trimmed
    decreases |hits|
  {
    if hits == [] then Trimmed([], false)
    else TrimStep(TrimPass(hits[..|hits| - 1], b), hits[|hits| - 1], b)
  }

  /** Once a budget stops the pass, the later hits are never looked at. */
  lemma {:induction false} TrimStoppedStays(hits: seq<Hit>, n: nat, b: Budget)
    requires n <= |hits|
    requires TrimPass(hits[..n], b).stopped
    ensures TrimPass(hits, b) == TrimPass(hits[..n], b)
    decreases |hits| - n
  {
    if n < |hits| {
      assert hits[..|hits| - 1][..n] == hits[..n];
      TrimStoppedStays(hits[..|hits| - 1], n, b);
    } else {
      assert hits[..n] == hits;
    }
  }

  /** Keeping one more hit adds one to its file's count and its stripped length to the total. */
  lemma KeptSnoc(kept: seq<Hit>, h: Hit)
    ensures DocChars(kept + [h]) == DocChars(kept) + |Strip(h.doc)|
    ensures forall f :: CountFile(kept + [h], f) == CountFile(kept, f) + (if FileOf(h) == f then 1 else 0)
  {
    assert (kept + [h])[..|kept|] == kept;
  }

  function Get(perFile: map<string, int>, f: string): int {
    if f in perFile then perFile[f] else 0
  }

  /**
   * `_trim_hits`: a forward pass with a per-file counter, the kept list and a
   * running character total. A full file is skipped; the chunk and character
   * budgets end the pass.
   */
  method TrimHits(hits: seq<Hit>, maxChunks: int, maxPerFile: int, maxChars: int) returns (kept: seq<Hit>)
    ensures kept == TrimPass(hits, Budget(maxChunks, maxPerFile, maxChars)).kept
  {
    var b := Budget(maxChunks, maxPerFile, maxChars);
    var perFile: map<string, int> := map[];
    kept := [];
    var total := 0;
    var i := 0;
    while i < |hits|
      invariant i <= |hits|
      invariant TrimPass(hits[..i], b) == Trimmed(kept, false)
      invariant total == DocChars(kept)
      invariant forall f :: Get(perFile, f) == CountFile(kept, f)
    {
      var h := hits[i];
      assert hits[..i + 1][..i] == hits[..i];
      ghost var next := TrimStep(Trimmed(kept, false), h, b);
      assert TrimPass(hits[..i + 1], b) == next;
      var fn := FileOf(h);
      var doc := Strip(h.doc);
      if doc == [] {
        assert next == Trimmed(kept, false);
        i := i + 1;
        continue;
      }
      if Get(perFile, fn) >= maxPerFile {
        assert next == Trimmed(kept, false);
        i := i + 1;
        continue;
      }
      if |kept| >= maxChunks {
        assert next == Trimmed(kept, true);
        TrimStoppedStays(hits, i + 1, b);
        return;
      }
      if total + |doc| > maxChars {
        assert next == Trimmed(kept, true);
        TrimStoppedStays(hits, i + 1, b);
        return;
      }
      assert next == Trimmed(kept + [h], false);
      KeptSnoc(kept, h);
      var perFile' := perFile[fn := Get(perFile, fn) + 1];
      forall f
        ensures Get(perFile', f) == CountFile(kept + [h], f)
      {
        assert Get(perFile', f) == Get(perFile, f) + (if fn == f then 1 else 0);
      }
      kept := kept + [h];
      perFile := perFile';
      total := total + |doc|;
      i := i + 1;
    }
    assert hits[..i] == hits;
  }

  function Max(a: int, b: int): int {
    if a < b then b else a
  }

  function Min(a: int, b: int): int {
    if a < b then a else b
  }

  /** The trimmed hits are an order-preserving subsequence of the input. */
  lemma {:induction false} TrimSubseq(hits: seq<Hit>, b: Budget)
    ensures IsSubseq(TrimPass(hits, b).kept, hits)
    decreases |hits|
  {
    if hits != [] {
      var pre := hits[..|hits| - 1];
      var h := hits[|hits| - 1];
      TrimSubseq(pre, b);
      var st := TrimPass(pre, b);
      assert hits == pre + [h];
      if TrimPass(hits, b).kept == st.kept {
        SubseqSnocRight(st.kept, pre, h);
      } else {
        SubseqSnocBoth(st.kept, pre, h);
      }
    }
  }

  /**
   * Each trimmed hit has a non-empty stripped doc, and the chunk and
   * character budgets hold.
   */
  lemma {:induction false} TrimBudget(hits: seq<Hit>, b: Budget)
    ensures |TrimPass(hits, b).kept| <= Max(0, b.maxChunks)
    ensures DocChars(TrimPass(hits, b).kept) <= Max(0, b.maxChars)
    ensures forall i :: 0 <= i < |TrimPass(hits, b).kept| ==> Strip(TrimPass(hits, b).kept[i].doc) != []
    decreases |hits|
  {
    if hits != [] {
      var pre := hits[..|hits| - 1];
      var h := hits[|hits| - 1];
      TrimBudget(pre, b);
      var st := TrimPass(pre, b);
      if TrimPass(hits, b).kept != st.kept {
        assert (st.kept + [h])[..|st.kept|] == st.kept;
      }
    }
  }

  /** No file has more than `maxPerFile` hits among the trimmed ones. */
  lemma {:induction false} TrimPerFile(hits: seq<Hit>, b: Budget, f: string)
    ensures CountFile(TrimPass(hits, b).kept, f) <= Max(0, b.maxPerFile)
    decreases |hits|
  {
    if hits != [] {
      var pre := hits[..|hits| - 1];
      TrimPerFile(pre, b, f);
      var st := TrimPass(pre, b);
      assert (st.kept + [hits[|hits| - 1]])[..|st.kept|] == st.kept;
    }
  }

  /** A full file does not stop the pass: a later hit of another file is still kept. */
  lemma FullFileSkipped()
    ensures TrimPass([Hit("a", Some("f"), None, None), Hit("b", Some("f"), None, None), Hit("c", Some("g"), None, None)],
                     Budget(8, 1, 7000)).kept
         == [Hit("a", Some("f"), None, None), Hit("c", Some("g"), None, None)]
  {
    var h1, h2, h3 := Hit("a", Some("f"), None, None), Hit("b", Some("f"), None, None), Hit("c", Some("g"), None, None);
    var hs := [h1, h2, h3];
    var b := Budget(8, 1, 7000);
    assert hs[..2][..1] == [h1] && hs[..2] == [h1, h2];
    assert [h1][..0] == [];
    assert Strip("a") == "a" && Strip("b") == "b" && Strip("c") == "c";
    assert TrimPass([h1], b) == Trimmed([h1], false);
    assert CountFile([h1], "f") == 1;
    assert TrimPass([h1, h2], b) == Trimmed([h1], false);
    assert CountFile([h1], "g") == 0;
  }

  /** The character budget ends the pass even when later hits would fit. */
  lemma CharBudgetStops()
    ensures TrimPass([Hit("abc", None, None, None), Hit("defg", None, None, None), Hit("h", None, None, None)],
                     Budget(8, 3, 5)).kept
         == [Hit("abc", None, None, None)]
  {
    var h1, h2, h3 := Hit("abc", None, None, None), Hit("defg", None, None, None), Hit("h", None, None, None);
    var hs := [h1, h2, h3];
    var b := Budget(8, 3, 5);
    assert hs[..2][..1] == [h1] && hs[..2] == [h1, h2];
    assert [h1][..0] == [];
    assert Strip("abc") == "abc" && Strip("defg") == "defg";
    assert TrimPass([h1], b) == Trimmed([h1], false);
    assert DocChars([h1]) == 3;
    assert TrimPass([h1, h2], b) == Trimmed([h1], true);
  }

  // ---------------------------------------------------------------------------
  // Source descriptors
  // ---------------------------------------------------------------------------

  /** What the client is shown of a hit. */
  datatype Source = Source(file: string, chunk: int, distance: Option<real>, excerpt: string)

  /** `doc[:300].replace("\n", " ").strip()`. */
  function Excerpt(doc: string): (r: string)
    ensures |r| <= 300 && IsStripped(r)
    ensures forall i :: 0 <= i < |r| ==> r[i] != '\n'
    ensures doc != [] && !IsSpace(doc[0]) ==> r != [] && r[0] == doc[0]
  {
    var t := ReplaceChar(Take(doc, 300), '\n', ' ');
    StripKeeps(t, IsNotNewline);
    Strip(t)
  }

  predicate IsNotNewline(c: char) {
    c != '\n'
  }

  function SourceOf(h: Hit): Source {
    Source(FileOf(h), ChunkOf(h), h.distance, Excerpt(h.doc))
  }

  /** One descriptor per hit, in order. */
  function SourcesOf(hits: seq<Hit>): (r: seq<Source>)
    ensures |r| == |hits|
    ensures forall i :: 0 <= i < |hits| ==> r[i] == SourceOf(hits[i])
  {
    seq(|hits|, i requires 0 <= i < |hits| => SourceOf(hits[i]))
  }

  /** Each descriptor is that of one of the hits. */
  lemma SourcesOfMembers(hits: seq<Hit>)
    ensures forall s :: s in SourcesOf(hits) ==> exists h :: h in hits && s == SourceOf(h)
  {
    forall s | s in SourcesOf(hits) ensures exists h :: h in hits && s == SourceOf(h) {
      var i :| 0 <= i < |hits| && SourcesOf(hits)[i] == s;
      assert hits[i] in hits;
    }
  }

  /** The descriptors of the hits passing a test are those of exactly the hits that pass it. */
  lemma SourcesOfFilter(hits: seq<Hit>, p: Hit -> bool)
    ensures forall s :: s in SourcesOf(Filter(hits, p)) ==> exists h :: h in hits && p(h) && s == SourceOf(h)
    ensures forall h :: h in hits && p(h) ==> SourceOf(h) in SourcesOf(Filter(hits, p))
    ensures |SourcesOf(Filter(hits, p))| <= |hits|
  {
    var f := Filter(hits, p);
    forall s | s in SourcesOf(f) ensures exists h :: h in hits && p(h) && s == SourceOf(h) {
      var i :| 0 <= i < |SourcesOf(f)| && SourcesOf(f)[i] == s;
      assert f[i] in hits && p(f[i]) && s == SourceOf(f[i]);
    }
    forall h | h in hits && p(h) ensures SourceOf(h) in SourcesOf(f) {
      var j :| 0 <= j < |hits| && hits[j] == h;
      var i :| 0 <= i < |f| && f[i] == h;
      assert SourcesOf(f)[i] == SourceOf(h);
    }
  }
}
