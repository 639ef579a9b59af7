/**
 * `KEY: value` handling in backend/app.py: the two key regexes
 * (`KV_LINE_RE`, `KEY_IN_TEXT_RE`), `extract_kv_pairs`, `keys_in_hits`,
 * `find_value_for_key`, `resolve_requested_key` and `_is_exact_request`.
 */
module Keys {
  import opened Wrappers
  import opened Strings
  import opened Seqs
  import opened Hits

  // ---------------------------------------------------------------------------
  // Key tokens and KEY_IN_TEXT_RE
  // ---------------------------------------------------------------------------

  /** The class `[A-Z0-9_]`. */
  predicate IsKeyChar(c: char) {
    IsUpper(c) || IsDigit(c) || c == '_'
  }

  /** A whole string matching `[A-Z][A-Z0-9_]{2,}`. */
  predicate IsKeyToken(w: string) {
    |w| >= 3 && IsUpper(w[0]) && forall i :: 0 <= i < |w| ==> IsKeyChar(w[i])
  }

  /** The words that `\b` delimits: the maximal runs of `\w` characters. */
  function Words(s: string): seq<string> {
    Runs(s, IsWordChar)
  }

  /** The first key token among `ws`. */
  function FirstKeyOf(ws: seq<string>): (r: Option<string>)
    ensures r.None? <==> forall i :: 0 <= i < |ws| ==> !IsKeyToken(ws[i])
    ensures r.Some? ==> IsKeyToken(r.value)
    decreases |ws|
  {
    if ws == [] then None
    else if IsKeyToken(ws[0]) then Some(ws[0])
    else
      assert forall i :: 1 <= i < |ws| ==> ws[i] == ws[1..][i - 1];
      FirstKeyOf(ws[1..])
  }

  /** The key found is a word, and no earlier word is a key. */
  lemma {:induction false} FirstKeyIndex(ws: seq<string>) returns (i: nat)
    requires FirstKeyOf(ws).Some?
    ensures i < |ws| && ws[i] == FirstKeyOf(ws).value
    ensures forall j :: 0 <= j < i ==> !IsKeyToken(ws[j])
    decreases |ws|
  {
    if IsKeyToken(ws[0]) {
      i := 0;
    } else {
      var i' := FirstKeyIndex(ws[1..]);
      i := i' + 1;
    }
  }

  /**
   * `KEY_IN_TEXT_RE.search(s)`: `\b([A-Z][A-Z0-9_]{2,})\b` can only start and
   * end at word boundaries, so it finds the first whole word that is a key.
   */
  function FirstKey(s: string): Option<string> {
    FirstKeyOf(Words(s))
  }

  // ---------------------------------------------------------------------------
  // KV_LINE_RE and extract_kv_pairs
  // ---------------------------------------------------------------------------

  /**
   * `KV_LINE_RE.match(line)`, `^\s*([A-Z][A-Z0-9_]{2,})\s*:\s*(.+?)\s*$`, as
   * the key and the stripped value. The key is the whole run of `[A-Z0-9_]`
   * after the leading whitespace (no shorter key can be followed by `\s` or
   * `:`), and `.+?` needs at least one character after the colon.
   */
  function KvLine(line: string): (r: Option<(string, string)>)
    ensures r.Some? ==> IsKeyToken(r.value.0) && IsStripped(r.value.1)
  {
    var s := TrimLeft(line);
    var key := TakeRun(s, IsKeyChar);
    var after := TrimLeft(DropRun(s, IsKeyChar));
    if IsKeyToken(key) && |after| >= 2 && after[0] == ':' then Some((key, Strip(after[1..])))
    else None
  }

  /**
   * A key, a colon and a value: the line matches exactly when something
   * follows the colon, and the value is what follows, stripped.
   */
  lemma KvLineOfPair(key: string, value: string)
    requires IsKeyToken(key)
    ensures KvLine(key + ":" + value) == if value == [] then None else Some((key, Strip(value)))
  {
    var line := key + ":" + value;
    assert line[0] == key[0];
    assert TrimLeft(line) == line;
    TakeRunPrefix(key, ":" + value, IsKeyChar);
    assert key + (":" + value) == line;
    assert TrimLeft(":" + value) == ":" + value;
    assert (":" + value)[1..] == value;
  }

  /** A line as `KV_LINE_RE` sees it: its key and value, or no match. */
  type Entry = Option<(string, string)>

  /** A Python dict: its keys in insertion order, and its entries. */
  datatype KvMap = KvMap(keys: seq<string>, values: map<string, string>)

  predicate WellFormed(m: KvMap) {
    && Distinct(m.keys)
    && (forall k :: k in m.values ==> k in m.keys)
    && (forall i :: 0 <= i < |m.keys| ==> m.keys[i] in m.values)
  }

  /** `out[key] = val`: a new key goes last, an existing one keeps its place. */
  function Put(m: KvMap, k: string, v: string): KvMap {
    if k in m.values then KvMap(m.keys, m.values[k := v])
    else KvMap(m.keys + [k], m.values[k := v])
  }

  /** Each line matched against `KV_LINE_RE`. */
  function ParseLines(lines: seq<string>): seq<Entry> {
    seq(|lines|, i requires 0 <= i < |lines| => KvLine(lines[i]))
  }

  /** The dict filled from the parsed lines, one at a time. */
  function KvOf(es: seq<Entry>): KvMap
    decreases |es|
  {
    if es == [] then KvMap([], map[])
    else
      var m := KvOf(es[..|es| - 1]);
      match es[|es| - 1]
      case None => m
      case Some((k, v)) => Put(m, k, v)
  }

  /** The `KEY: value` map of a chunk. */
  function Kv(text: string): KvMap {
    KvOf(ParseLines(SplitLines(text)))
  }

  /** `extract_kv_pairs`: the dict filled line by line. */
  method ExtractKvPairs(text: string) returns (m: KvMap)
    ensures m == Kv(text)
  {
    var lines := SplitLines(text);
    ghost var es := ParseLines(lines);
    m := KvMap([], map[]);
    for i := 0 to |lines|
      invariant m == KvOf(es[..i])
    {
      assert es[..i + 1][..i] == es[..i];
      var r := KvLine(lines[i]);
      assert r == es[i];
      if r.Some? {
        var (key, val) := r.value;
        m := Put(m, key, val);
      }
    }
    assert es[..|lines|] == es;
  }

  /** Every matched line has a key token. */
  predicate TokenKeys(es: seq<Entry>) {
    forall i :: 0 <= i < |es| && es[i].Some? ==> IsKeyToken(es[i].value.0)
  }

  lemma ParsedTokenKeys(lines: seq<string>)
    ensures TokenKeys(ParseLines(lines))
  {
  }

  /** The keys of the matching lines, in line order, repeats included. */
  function EntryKeys(es: seq<Entry>): seq<string>
    decreases |es|
  {
    if es == [] then []
    else
      var pre := EntryKeys(es[..|es| - 1]);
      match es[|es| - 1]
      case None => pre
      case Some((k, _)) => pre + [k]
  }

  /**
   * The map is a well-formed ordered dict whose keys are the distinct keys of
   * the matching lines in order of first occurrence, all of them key tokens
   * when the lines' keys are.
   */
  lemma {:induction false} KvKeys(es: seq<Entry>)
    ensures WellFormed(KvOf(es))
    ensures KvOf(es).keys == Dedup(EntryKeys(es))
    ensures TokenKeys(es) ==> forall i :: 0 <= i < |KvOf(es).keys| ==> IsKeyToken(KvOf(es).keys[i])
    decreases |es|
  {
    if es != [] {
      var pre := es[..|es| - 1];
      assert TokenKeys(es) ==> TokenKeys(pre) by {
        if TokenKeys(es) {
          forall i | 0 <= i < |pre| && pre[i].Some? ensures IsKeyToken(pre[i].value.0) {
            assert pre[i] == es[i];
          }
        }
      }
      KvKeys(pre);
      var m := KvOf(pre);
      var ks := EntryKeys(pre);
      match es[|es| - 1]
      case None =>
      case Some((k, v)) =>
        DedupSnoc(ks, k);
        if k !in m.values {
          forall i | 0 <= i < |m.keys| ensures m.keys[i] != k {
            assert m.keys[i] in m.values;
          }
        }
    }
  }

  /** The keys of a chunk's map are distinct key tokens, in order of first occurrence. */
  lemma KvKeysOfText(text: string)
    ensures WellFormed(Kv(text))
    ensures Kv(text).keys == Dedup(EntryKeys(ParseLines(SplitLines(text))))
    ensures forall i :: 0 <= i < |Kv(text).keys| ==> IsKeyToken(Kv(text).keys[i])
  {
    ParsedTokenKeys(SplitLines(text));
    KvKeys(ParseLines(SplitLines(text)));
  }

  /** The value on the last matching line with key `k`, if any. */
  function LastValue(es: seq<Entry>, k: string): Option<string>
    decreases |es|
  {
    if es == [] then None
    else
      match es[|es| - 1]
      case Some((k', v)) => if k' == k then Some(v) else LastValue(es[..|es| - 1], k)
      case None => LastValue(es[..|es| - 1], k)
  }

  /** A later line with the same key overwrites an earlier one. */
  lemma {:induction false} KvLastWins(es: seq<Entry>, k: string)
    ensures k in KvOf(es).values ==> LastValue(es, k) == Some(KvOf(es).values[k])
    ensures k !in KvOf(es).values ==> LastValue(es, k) == None
    decreases |es|
  {
    if es != [] {
      KvLastWins(es[..|es| - 1], k);
    }
  }

  // ---------------------------------------------------------------------------
  // keys_in_hits and find_value_for_key
  // ---------------------------------------------------------------------------

  /** The keys of every hit's map, hit after hit. */
  function AllKeys(hits: seq<Hit>): seq<string>
    decreases |hits|
  {
    if hits == [] then [] else AllKeys(hits[..|hits| - 1]) + Kv(hits[|hits| - 1].doc).keys
  }

  /** The inner loop of `keys_in_hits`: each key of one hit not yet found is appended. */
  method AddNew(found: seq<string>, pre: seq<string>, keys: seq<string>) returns (out: seq<string>)
    requires found == Dedup(pre)
    ensures out == Dedup(pre + keys)
  {
    out := found;
    assert pre + keys[..0] == pre;
    for j := 0 to |keys|
      invariant out == Dedup(pre + keys[..j])
    {
      assert pre + keys[..j + 1] == (pre + keys[..j]) + [keys[j]];
      DedupSnoc(pre + keys[..j], keys[j]);
      if keys[j] !in out {
        out := out + [keys[j]];
      }
    }
    assert keys[..|keys|] == keys;
  }

  /** `keys_in_hits`: the `found` list, appended to when a key is new. */
  method KeysInHits(hits: seq<Hit>) returns (found: seq<string>)
    ensures found == Dedup(AllKeys(hits))
  {
    found := [];
    for i := 0 to |hits|
      invariant found == Dedup(AllKeys(hits[..i]))
    {
      assert hits[..i + 1][..i] == hits[..i];
      var kv := ExtractKvPairs(hits[i].doc);
      found := AddNew(found, AllKeys(hits[..i]), kv.keys);
    }
    assert hits[..|hits|] == hits;
  }

  lemma {:induction false} AllKeysMembers(hits: seq<Hit>, k: string)
    ensures k in AllKeys(hits) <==> exists i :: 0 <= i < |hits| && k in Kv(hits[i].doc).values
    decreases |hits|
  {
    if hits != [] {
      var pre := hits[..|hits| - 1];
      AllKeysMembers(pre, k);
      KvKeysOfText(hits[|hits| - 1].doc);
      if exists i :: 0 <= i < |hits| && k in Kv(hits[i].doc).values {
        var i :| 0 <= i < |hits| && k in Kv(hits[i].doc).values;
        if i < |hits| - 1 {
          assert pre[i] == hits[i];
        }
      }
      if exists i :: 0 <= i < |pre| && k in Kv(pre[i].doc).values {
        var i :| 0 <= i < |pre| && k in Kv(pre[i].doc).values;
        assert hits[i] == pre[i];
      }
    }
  }

  /**
   * The keys of the hits, each once, in order of first appearance: a key is
   * listed exactly when some hit's map has it, and every listed key is a key
   * token.
   */
  lemma KeysInHitsSound(hits: seq<Hit>, k: string)
    ensures Distinct(Dedup(AllKeys(hits)))
    ensures IsSubseq(Dedup(AllKeys(hits)), AllKeys(hits))
    ensures forall i, j :: 0 <= i < j < |Dedup(AllKeys(hits))| ==>
      IndexOf(AllKeys(hits), Dedup(AllKeys(hits))[i]) < IndexOf(AllKeys(hits), Dedup(AllKeys(hits))[j])
    ensures k in Dedup(AllKeys(hits)) <==> exists i :: 0 <= i < |hits| && k in Kv(hits[i].doc).values
  {
    DedupIsSubseq(AllKeys(hits));
    DedupFirstSeen(AllKeys(hits));
    AllKeysMembers(hits, k);
  }

  lemma {:induction false} AllKeysAreKeyTokens(hits: seq<Hit>)
    ensures forall i :: 0 <= i < |AllKeys(hits)| ==> IsKeyToken(AllKeys(hits)[i])
    decreases |hits|
  {
    if hits != [] {
      AllKeysAreKeyTokens(hits[..|hits| - 1]);
      KvKeysOfText(hits[|hits| - 1].doc);
    }
  }

  /** The dict `extract_kv_pairs` builds from a hit's doc. */
  function DictOf(h: Hit): map<string, string> {
    Kv(h.doc).values
  }

  /** The value of `key` in the first hit whose dict has it. */
  function FirstValue(key: string, hits: seq<Hit>, dict: Hit -> map<string, string>): (r: Option<string>)
    ensures r.None? <==> forall i :: 0 <= i < |hits| ==> key !in dict(hits[i])
    decreases |hits|
  {
    if hits == [] then None
    else if key in dict(hits[0]) then Some(dict(hits[0])[key])
    else
      assert forall i :: 1 <= i < |hits| ==> hits[i] == hits[1..][i - 1];
      FirstValue(key, hits[1..], dict)
  }

  /** `FirstValue` on a non-empty list looks at its first hit, then at the rest. */
  lemma FirstValueStep(key: string, hits: seq<Hit>, dict: Hit -> map<string, string>)
    requires hits != []
    ensures FirstValue(key, hits, dict)
      == if key in dict(hits[0]) then Some(dict(hits[0])[key]) else FirstValue(key, hits[1..], dict)
  {
  }

  lemma {:induction false} FirstValueAt(key: string, hits: seq<Hit>, dict: Hit -> map<string, string>) returns (i: nat)
    requires FirstValue(key, hits, dict).Some?
    ensures i < |hits| && key in dict(hits[i])
    ensures FirstValue(key, hits, dict).value == dict(hits[i])[key]
    ensures forall j :: 0 <= j < i ==> key !in dict(hits[j])
    decreases |hits|
  {
    if key in dict(hits[0]) {
      i := 0;
    } else {
      var i' := FirstValueAt(key, hits[1..], dict);
      i := i' + 1;
    }
  }

  /** `find_value_for_key`: the value in the first hit whose map has the key. */
  function FindValue(key: string, hits: seq<Hit>): (r: Option<string>)
    ensures r.None? <==> forall i :: 0 <= i < |hits| ==> key !in Kv(hits[i].doc).values
  {
    FirstValue(key, hits, DictOf)
  }

  /** A found value comes from the first hit that has the key. */
  lemma FindValueFirst(key: string, hits: seq<Hit>) returns (i: nat)
    requires FindValue(key, hits).Some?
    ensures i < |hits| && key in Kv(hits[i].doc).values
    ensures FindValue(key, hits).value == Kv(hits[i].doc).values[key]
    ensures forall j :: 0 <= j < i ==> key !in Kv(hits[j].doc).values
  {
    i := FirstValueAt(key, hits, DictOf);
  }

  method FindValueForKey(key: string, hits: seq<Hit>) returns (r: Option<string>)
    ensures r == FindValue(key, hits)
  {
    for i := 0 to |hits|
      invariant FirstValue(key, hits[i..], DictOf) == FindValue(key, hits)
    {
      assert hits[i..][1..] == hits[i + 1..] && hits[i..][0] == hits[i];
      FirstValueStep(key, hits[i..], DictOf);
      var kv := ExtractKvPairs(hits[i].doc);
      assert kv.values == DictOf(hits[i]);
      if key in kv.values {
        return Some(kv.values[key]);
      }
    }
    return None;
  }

  // ---------------------------------------------------------------------------
  // The numeric increment of resolve_requested_key
  // ---------------------------------------------------------------------------

  /** The start of the run of digits that ends at `j`. */
  function DigitRunStart(s: string, j: nat): (k: nat)
    requires j <= |s|
    ensures k <= j
    ensures forall m :: k <= m < j ==> IsDigit(s[m])
    ensures k > 0 ==> !IsDigit(s[k - 1])
    decreases j
  {
    if j > 0 && IsDigit(s[j - 1]) then DigitRunStart(s, j - 1) else j
  }

  function DigitValue(c: char): nat {
    if IsDigit(c) then c as int - '0' as int else 0
  }

  /** `int(ds)` for a string of ASCII digits. */
  function DigitsValue(ds: string): nat
    decreases |ds|
  {
    if ds == [] then 0 else DigitsValue(ds[..|ds| - 1]) * 10 + DigitValue(ds[|ds| - 1])
  }

  function Digit(d: nat): (c: char)
    requires d < 10
    ensures IsDigit(c) && DigitValue(c) == d
  {
    ('0' as int + d) as char
  }

  /** `str(n)`: decimal digits without leading zeros, whose value is `n`. */
  function Decimal(n: nat): (r: string)
    ensures r != []
    ensures forall i :: 0 <= i < |r| ==> IsDigit(r[i])
    ensures DigitsValue(r) == n
    ensures n > 0 ==> r[0] != '0'
    ensures n == 0 ==> r == "0"
    decreases n
  {
    if n < 10 then [Digit(n)]
    else
      var d := Decimal(n / 10);
      assert (d + [Digit(n % 10)])[..|d|] == d;
      d + [Digit(n % 10)]
  }

  lemma {:induction false} ZerosValue(z: string)
    requires forall i :: 0 <= i < |z| ==> z[i] == '0'
    ensures DigitsValue(z) == 0
    decreases |z|
  {
    if z != [] {
      ZerosValue(z[..|z| - 1]);
    }
  }

  /** Zeros in front do not change a number. */
  lemma {:induction false} LeadingZeros(z: string, s: string)
    requires forall i :: 0 <= i < |z| ==> z[i] == '0'
    ensures DigitsValue(z + s) == DigitsValue(s)
    decreases |s|
  {
    if s == [] {
      assert z + s == z;
      ZerosValue(z);
    } else {
      assert (z + s)[..|z + s| - 1] == z + s[..|s| - 1];
      LeadingZeros(z, s[..|s| - 1]);
    }
  }

  /** `format(n, "0{w}d")` on the digits of `n`: zeros in front up to width `w`. */
  function ZeroPad(s: string, w: nat): (r: string)
    ensures |r| == if |s| >= w then |s| else w
    ensures r[|r| - |s|..] == s
    ensures forall i :: 0 <= i < |r| - |s| ==> r[i] == '0'
    ensures (forall i :: 0 <= i < |s| ==> IsDigit(s[i])) ==> forall i :: 0 <= i < |r| ==> IsDigit(r[i])
    ensures DigitsValue(r) == DigitsValue(s)
  {
    if |s| >= w then s
    else
      var z := seq(w - |s|, _ => '0');
      LeadingZeros(z, s);
      z + s
  }

  /**
   * The digits `ds` plus one, zero-padded to the width of `ds`: the numeral
   * of the successor, preceded by zeros up to that width, and wider only
   * when the numeral itself is.
   */
  function Bump(ds: string): (r: string)
    ensures var n := Decimal(DigitsValue(ds) + 1);
      && |r| == (if |n| <= |ds| then |ds| else |n|)
      && r[|r| - |n|..] == n
      && (forall i :: 0 <= i < |r| - |n| ==> r[i] == '0')
    ensures forall i :: 0 <= i < |r| ==> IsDigit(r[i])
    ensures DigitsValue(r) == DigitsValue(ds) + 1
  {
    ZeroPad(Decimal(DigitsValue(ds) + 1), |ds|)
  }

  /**
   * `re.match(r"^(.*?)(\d+)$", key)` and `f"{prefix}{n + 1:0{len(num)}d}"`:
   * the lazy prefix leaves the longest run of trailing digits, whose value is
   * incremented and zero-padded to the original width.
   */
  function Increment(key: string): (r: Option<string>)
    ensures r.None? <==> key == [] || !IsDigit(key[|key| - 1])
  {
    var i := DigitRunStart(key, |key|);
    if i == |key| then None else Some(key[..i] + Bump(key[i..]))
  }

  /**
   * The incremented key keeps the prefix before the trailing digits, and its
   * new digits count one more, zero-padded to the old width: as many as the
   * old ones unless the successor's numeral is wider, and then that numeral.
   */
  lemma IncrementParts(key: string) returns (i: nat, d: string)
    requires Increment(key).Some?
    ensures i < |key| && Increment(key).value == key[..i] + d
    ensures forall m :: i <= m < |key| ==> IsDigit(key[m])
    ensures i > 0 ==> !IsDigit(key[i - 1])
    ensures forall m :: 0 <= m < |d| ==> IsDigit(d[m])
    ensures var n := Decimal(DigitsValue(key[i..]) + 1);
      && |d| == (if |n| <= |key| - i then |key| - i else |n|)
      && d[|d| - |n|..] == n
      && (forall m :: 0 <= m < |d| - |n| ==> d[m] == '0')
    ensures |d| >= |key| - i
    ensures DigitsValue(d) == DigitsValue(key[i..]) + 1
  {
    i := DigitRunStart(key, |key|);
    d := Bump(key[i..]);
  }

  /** Incrementing a key token gives a key token. */
  lemma IncrementKeyToken(key: string)
    requires IsKeyToken(key) && Increment(key).Some?
    ensures IsKeyToken(Increment(key).value)
  {
    var i, d := IncrementParts(key);
    assert !IsDigit(key[0]);
    DigitTailKeyToken(key, i, d);
  }

  /** A key token keeps being one when digits replace its tail after the first character. */
  lemma DigitTailKeyToken(key: string, i: nat, d: string)
    requires IsKeyToken(key) && 0 < i <= |key|
    requires |d| >= |key| - i && forall m :: 0 <= m < |d| ==> IsDigit(d[m])
    ensures IsKeyToken(key[..i] + d)
  {
    var r := key[..i] + d;
    forall m | 0 <= m < |r| ensures IsKeyChar(r[m]) {
      if m < i {
        assert r[m] == key[m];
      } else {
        assert r[m] == d[m - i];
      }
    }
  }

  lemma IncrementExample1()
    ensures Increment("TEL_001") == Some("TEL_002")
  {
    assert DigitRunStart("TEL_001", 7) == 4;
    assert "TEL_001"[4..] == "001";
    assert "001"[..2] == "00" && "00"[..1] == "0" && "0"[..0] == [];
    assert DigitsValue("001") == 1;
    assert Decimal(2) == "2";
    assert ZeroPad("2", 3) == "002";
    assert Bump("001") == "002";
    assert "TEL_001"[..4] + "002" == "TEL_002";
  }

  lemma IncrementExample2()
    ensures Increment("K999") == Some("K1000")
  {
    assert DigitRunStart("K999", 4) == 1;
    assert "K999"[1..] == "999";
    assert "999"[..2] == "99" && "99"[..1] == "9" && "9"[..0] == [];
    assert DigitsValue("999") == 999;
    assert Decimal(1) == "1";
    assert Decimal(10) == "10";
    assert Decimal(100) == "100";
    assert Decimal(1000) == "1000";
    assert Bump("999") == "1000";
    assert "K999"[..1] + "1000" == "K1000";
  }

  lemma IncrementExample3()
    ensures Increment("TEL_A") == None
  {
  }

  // ---------------------------------------------------------------------------
  // resolve_requested_key
  // ---------------------------------------------------------------------------

  /** A message of the conversation history. */
  datatype ChatMsg = ChatMsg(role: string, content: string)

  /** The key of the latest history message that has one. */
  function LastHistoryKey(history: seq<ChatMsg>): (r: Option<string>)
    ensures r.Some? ==> IsKeyToken(r.value)
    decreases |history|
  {
    if history == [] then None
    else
      var k := FirstKey(history[|history| - 1].content);
      if k.Some? then k else LastHistoryKey(history[..|history| - 1])
  }

  /** The loop of `resolve_requested_key` over `reversed(history)`. */
  method LatestHistoryKey(history: seq<ChatMsg>) returns (k: Option<string>)
    ensures k == LastHistoryKey(history)
  {
    var j := |history|;
    assert history[..j] == history;
    while j > 0
      invariant 0 <= j <= |history|
      invariant LastHistoryKey(history) == LastHistoryKey(history[..j])
    {
      assert history[..j][..j - 1] == history[..j - 1];
      assert history[..j][j - 1] == history[j - 1];
      var km := FirstKey(history[j - 1].content);
      if km.Some? {
        return km;
      }
      j := j - 1;
    }
    return None;
  }

  const SecondPhrases: seq<string> := ["deuxi\U{E8}me", "2eme", "second", "2e", "le 2"]

  const FirstPhrases: seq<string> := ["premier", "1er", "first", "le 1"]

  /** `any(w in text for w in phrases)`. */
  predicate MentionsAny(text: string, phrases: seq<string>) {
    exists i :: 0 <= i < |phrases| && IsSubstring(phrases[i], text)
  }

  /**
   * `resolve_requested_key`, in priority order: a key in the message; after a
   * "second" phrase, the history's latest key with its number incremented,
   * then the second distinct key of the hits; after a "first" phrase, the
   * first distinct key of the hits.
   */
  function ResolveKey(message: string, history: seq<ChatMsg>, hits: seq<Hit>): Option<string> {
    var msg := Strip(message);
    var second := MentionsAny(Lower(msg), SecondPhrases);
    var last := LastHistoryKey(history);
    var ks := Dedup(AllKeys(hits));
    if FirstKey(msg).Some? then FirstKey(msg)
    else if second && last.Some? && Increment(last.value).Some? then Increment(last.value)
    else if second && |ks| >= 2 then Some(ks[1])
    else if MentionsAny(Lower(message), FirstPhrases) && |ks| >= 1 then Some(ks[0])
    else None
  }

  method ResolveRequestedKey(message: string, history: seq<ChatMsg>, hits: seq<Hit>) returns (r: Option<string>)
    ensures r == ResolveKey(message, history, hits)
  {
    var msg := Strip(message);
    var m := FirstKey(msg);
    if m.Some? {
      return m;
    }
    var lower := Lower(msg);
    if MentionsAny(lower, SecondPhrases) {
      var lastKey := LatestHistoryKey(history);
      if lastKey.Some? {
        var inc := Increment(lastKey.value);
        if inc.Some? {
          return inc;
        }
      }
      var ks := KeysInHits(hits);
      if |ks| >= 2 {
        return Some(ks[1]);
      }
    }
    if MentionsAny(Lower(message), FirstPhrases) {
      var ks := KeysInHits(hits);
      if |ks| >= 1 {
        return Some(ks[0]);
      }
    }
    return None;
  }

  /** Whatever it is resolved from, a resolved key is a key token. */
  lemma ResolvedIsKeyToken(message: string, history: seq<ChatMsg>, hits: seq<Hit>)
    ensures ResolveKey(message, history, hits).Some? ==> IsKeyToken(ResolveKey(message, history, hits).value)
  {
    var last := LastHistoryKey(history);
    if last.Some? && Increment(last.value).Some? {
      IncrementKeyToken(last.value);
    }
    AllKeysAreKeyTokens(hits);
    var ks := Dedup(AllKeys(hits));
    forall i | 0 <= i < |ks| ensures IsKeyToken(ks[i]) {
      var j :| 0 <= j < |AllKeys(hits)| && AllKeys(hits)[j] == ks[i];
    }
  }

  /** Without a key in the message or the history, a resolved key is a key of the hits. */
  lemma ResolvedFromHits(message: string, history: seq<ChatMsg>, hits: seq<Hit>)
    requires FirstKey(Strip(message)).None? && LastHistoryKey(history).None?
    ensures ResolveKey(message, history, hits).Some? ==>
      exists i :: 0 <= i < |hits| && ResolveKey(message, history, hits).value in Kv(hits[i].doc).values
  {
    var r := ResolveKey(message, history, hits);
    if r.Some? {
      KeysInHitsSound(hits, r.value);
    }
  }

  // ---------------------------------------------------------------------------
  // _is_exact_request
  // ---------------------------------------------------------------------------

  /** The words of `_EXACT_TRIGGER_RE`, matched ignoring case. */
  const Triggers: set<string> := {
    "exact", "exacte", "exactement", "uniquement", "seulement", "juste", "valeur", "retourne",
    "donne", "affiche", "output", "print"
  }

  /** `_EXACT_TRIGGER_RE.search(m)`: some whole word is a trigger, ignoring case. */
  predicate HasTrigger(m: string) {
    exists i :: 0 <= i < |Words(m)| && Lower(Words(m)[i]) in Triggers
  }

  /** `[A-Z0-9_]` under IGNORECASE. */
  predicate IsKeyCharNoCase(c: char) {
    IsAsciiLetter(c) || IsDigit(c) || c == '_'
  }

  const Verbs: seq<string> := ["donne", "affiche", "retourne"]

  /** `\s*\??\s*$`: only whitespace and at most one question mark. */
  predicate QuestionTail(t: string) {
    var u := TrimLeft(t);
    u == [] || (u[0] == '?' && TrimLeft(u[1..]) == [])
  }

  /** `verb\s+[A-Z][A-Z0-9_]{2,}\s*\??\s*$` under IGNORECASE, from the start of `s`. */
  predicate VerbThenKey(s: string, verb: string) {
    && |s| > |verb|
    && Lower(s[..|verb|]) == verb
    && IsSpace(s[|verb|])
    && var rest := TrimLeft(s[|verb|..]);
       var key := TakeRun(rest, IsKeyCharNoCase);
       |key| >= 3 && IsAsciiLetter(key[0]) && QuestionTail(DropRun(rest, IsKeyCharNoCase))
  }

  /** The third pattern of `_is_exact_request`. */
  predicate VerbKeyRequest(m: string) {
    exists i :: 0 <= i < |Verbs| && VerbThenKey(TrimLeft(m), Verbs[i])
  }

  /**
   * `_is_exact_request`: the stripped message is a key alone, or holds a key
   * and a trigger word, or is "donne/affiche/retourne KEY" with an optional
   * question mark.
   */
  predicate IsExactRequest(message: string) {
    var m := Strip(message);
    m != [] && (IsKeyToken(m) || (FirstKey(m).Some? && HasTrigger(m)) || VerbKeyRequest(m))
  }

  /** A run of word characters is one word. */
  lemma OneWord(w: string)
    requires w != [] && forall i :: 0 <= i < |w| ==> IsWordChar(w[i])
    ensures Words(w) == [w]
  {
    OneRun(w, IsWordChar);
  }

  /** Two words with a space between them. */
  lemma TwoWords(a: string, b: string)
    requires a != [] && forall i :: 0 <= i < |a| ==> IsWordChar(a[i])
    requires b != [] && forall i :: 0 <= i < |b| ==> IsWordChar(b[i])
    ensures Words(a + " " + b) == [a, b]
  {
    var s := a + " " + b;
    assert s == a + (" " + b);
    TakeRunPrefix(a, " " + b, IsWordChar);
    assert (" " + b)[1..] == b;
    OneWord(b);
    assert Runs(" " + b, IsWordChar) == [b];
    assert Runs(s, IsWordChar) == [a] + [b];
  }

  /** A key token is one word. */
  lemma KeyTokenWords(k: string)
    requires IsKeyToken(k)
    ensures Words(k) == [k]
  {
    OneWord(k);
  }

  /**
   * An exact request always names a key: one the key regex finds, or one
   * after a verb in any case.
   */
  lemma ExactRequestNamesKey(message: string)
    requires IsExactRequest(message)
    ensures FirstKey(Strip(message)).Some? || VerbKeyRequest(Strip(message))
  {
    var m := Strip(message);
    if IsKeyToken(m) {
      KeyTokenWords(m);
    }
  }

  /** A bare key is an exact request. */
  lemma KeyIsExactRequest(k: string)
    requires IsKeyToken(k)
    ensures IsExactRequest(k)
  {
    assert IsStripped(k);
    StripOfStripped(k);
  }

  /** A trigger word followed by a key is an exact request ("valeur TEL_001", "donne TEL_001"). */
  lemma TriggerThenKey(t: string, k: string)
    requires t in Triggers && forall i :: 0 <= i < |t| ==> 'a' <= t[i] <= 'z'
    requires IsKeyToken(k)
    ensures IsExactRequest(t + " " + k)
  {
    var m := t + " " + k;
    assert t != [];
    assert m[0] == t[0] && m[|m| - 1] == k[|k| - 1];
    StripOfStripped(m);
    TwoWords(t, k);
    assert !IsKeyToken(t);
    assert FirstKeyOf([t, k])== FirstKeyOf([k]) by {
      assert [t, k][1..] == [k];
    }
    assert FirstKeyOf([k]) == Some(k);
    assert Lower(t) == t;
    assert Words(m)[0] == t;
  }

  /** A lower-case verb, one space and a key-shaped word match the verb-led request pattern. */
  lemma VerbSpaceKey(v: string, w: string)
    requires Lower(v) == v
    requires |w| >= 3 && IsAsciiLetter(w[0]) && forall j :: 0 <= j < |w| ==> IsKeyCharNoCase(w[j])
    ensures VerbThenKey(v + " " + w, v)
  {
    var m := v + " " + w;
    assert m[..|v|] == v;
    assert m[|v|] == ' ';
    var rest := m[|v|..];
    assert rest == " " + w;
    assert SpaceRunEnd(rest, 1) == 1;
    assert TrimLeft(rest) == w;
    assert w + [] == w;
    TakeRunPrefix(w, [], IsKeyCharNoCase);
    assert QuestionTail([]);
  }

  /**
   * "donne", "affiche" or "retourne", a space and a word shaped like a key in
   * any case is an exact request ("Affiche abc_1").
   */
  lemma VerbThenWord(i: nat, w: string)
    requires i < |Verbs|
    requires |w| >= 3 && IsAsciiLetter(w[0]) && forall j :: 0 <= j < |w| ==> IsKeyCharNoCase(w[j])
    ensures IsExactRequest(Verbs[i] + " " + w)
  {
    var v := Verbs[i];
    var m := v + " " + w;
    VerbsLower();
    VerbSpaceKey(v, w);
    GlueStripped(v, w);
    StripOfStripped(m);
    assert TrimLeft(m) == m;
    assert VerbKeyRequest(m);
  }

  /** Each verb is lower case and starts with a letter. */
  lemma VerbsLower()
    ensures forall i :: 0 <= i < |Verbs| ==> Verbs[i] != [] && !IsSpace(Verbs[i][0]) && Lower(Verbs[i]) == Verbs[i]
  {
    assert Lower("donne") == "donne";
    assert Lower("affiche") == "affiche";
    assert Lower("retourne") == "retourne";
  }

  /** Two words glued by one space are stripped when the outer ends are not whitespace. */
  lemma GlueStripped(v: string, w: string)
    requires v != [] && !IsSpace(v[0])
    requires w != [] && !IsSpace(w[|w| - 1])
    ensures IsStripped(v + " " + w)
  {
    var m := v + " " + w;
    assert m[0] == v[0];
    assert m[|m| - 1] == w[|w| - 1];
  }

  lemma KeyQuestionWords()
    ensures Words("TEL_001 ?") == ["TEL_001"]
  {
    var m := "TEL_001 ?";
    assert m == "TEL_001" + " ?";
    TakeRunPrefix("TEL_001", " ?", IsWordChar);
    assert IsWordChar(m[0]);
    assert Runs(m, IsWordChar) == ["TEL_001"] + Runs(" ?", IsWordChar);
    assert " ?"[1..] == "?" && !IsWordChar(' ');
    assert Runs(" ?", IsWordChar) == Runs("?", IsWordChar);
    assert "?"[1..] == [] && !IsWordChar('?');
    assert Runs("?", IsWordChar) == [];
  }

  lemma KeyLowerNotTrigger()
    ensures Lower("TEL_001") !in Triggers
  {
    assert Lower("TEL_001")[0] == LowerChar('T') == 't';
  }

  lemma KeyQuestionNoTrigger()
    ensures !HasTrigger("TEL_001 ?")
  {
    var m := "TEL_001 ?";
    KeyQuestionWords();
    KeyLowerNotTrigger();
    forall i | 0 <= i < |Words(m)| ensures Lower(Words(m)[i]) !in Triggers {
      assert Words(m)[i] == "TEL_001";
    }
  }

  lemma KeyQuestionNoVerb()
    ensures !VerbKeyRequest("TEL_001 ?")
  {
    var m := "TEL_001 ?";
    assert TrimLeft(m) == m;
    forall i | 0 <= i < |Verbs| ensures !VerbThenKey(m, Verbs[i]) {
      assert Lower(m[..|Verbs[i]|])[0] == LowerChar('T') == 't';
    }
  }

  /**
   * A key and a question mark is not an exact request, although the
   * docstring of `_is_exact_request` gives 'TEL_001 ?' as one: no trigger
   * word, and the message does not start with a verb.
   */
  lemma KeyQuestionNotExact()
    ensures !IsExactRequest("TEL_001 ?")
  {
    var m := "TEL_001 ?";
    StripOfStripped(m);
    assert !IsKeyChar(m[7]);
    KeyQuestionNoTrigger();
    KeyQuestionNoVerb();
  }
}
