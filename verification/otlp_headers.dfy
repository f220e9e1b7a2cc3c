/**
  `parseHeaders` of the OTLP exporter bootstrap: it turns the header list of
  `OTEL_EXPORTER_OTLP_HEADERS`, a comma-separated list of `key=value`
  entries, into the key/value mapping handed to both exporters. It is a
  simplified reading of that format: entries are split on `,`, each entry
  on `=`, only the first two fields are kept and both are trimmed; there is
  no percent-decoding.
 */
module OtlpHeaders {
  import opened Wrappers
  import opened JsString

  /** What `parseHeaders` produces: `undefined` for a falsy (empty) list,
      the object built by `Object.fromEntries`, or the `TypeError` thrown by
      `v.trim()` when an entry has no `=` and `v` is `undefined`. */
  datatype HeaderResult = NoHeaders | Headers(pairs: map<string, string>) | TypeError

  type Entry = (string, string)

  /** A key or value as the parser can produce it: no `,`, no `=`, and no
      white space at either end. */
  predicate IsHeaderText(s: string) {
    ',' !in s && '=' !in s && IsTrimmed(s)
  }

  /* ---------------------------------------------------------------------
     One entry
     --------------------------------------------------------------------- */

  /** The trimmed `i`-th `=`-field of `kv` holds no `=`, and no `,` unless
      `kv` does. */
  lemma TrimmedField(kv: string, i: nat)
    requires i < |Split(kv, '=')|
    ensures '=' !in Trim(Split(kv, '=')[i])
    ensures ',' !in kv ==> ',' !in Trim(Split(kv, '=')[i])
  {
    var field := Split(kv, '=')[i];
    SplitPartsFree(kv, '=', i);
    if '=' in Trim(field) {
      TrimKeeps(field, '=');
    }
    if ',' in Trim(field) {
      TrimKeeps(field, ',');
      SplitKeeps(kv, '=', i, ',');
    }
  }

  /** One entry. `None` stands for the `TypeError`, which happens exactly
      when `kv` has no `=` (destructuring leaves `v` undefined). The key and
      value are trimmed, hold no `=`, and hold a `,` only if `kv` does. */
  function ParseEntry(kv: string): (r: Option<Entry>)
    ensures r.None? <==> '=' !in kv
    ensures r.Some? ==> IsTrimmed(r.value.0) && IsTrimmed(r.value.1)
    ensures r.Some? ==> '=' !in r.value.0 && '=' !in r.value.1
    ensures r.Some? && ',' !in kv ==> ',' !in r.value.0 && ',' !in r.value.1
  {
    var fields := Split(kv, '=');
    SplitMany(kv, '=');
    if |fields| < 2 then None
    else
      TrimmedField(kv, 0);
      TrimmedField(kv, 1);
      Some((Trim(fields[0]), Trim(fields[1])))
  }

  /** The fields of an entry: the key is the trimmed text before the first
      `=`, the value the trimmed text between the first and the second `=`;
      whatever follows a second `=` is dropped. Every `kv` holding a `=`
      can be written as `k + "=" + v + rest` with these side conditions. */
  lemma ParseEntryFields(k: string, v: string, rest: string)
    requires '=' !in k && '=' !in v
    requires rest == [] || rest[0] == '='
    ensures ParseEntry(k + "=" + v + rest) == Some((Trim(k), Trim(v)))
  {
    var kv := k + "=" + v + rest;
    assert kv == k + ['='] + (v + rest);
    SplitAround(k, '=', v + rest);
    SplitNoSeparator(k, '=');
    if rest == [] {
      assert v + rest == v;
      SplitNoSeparator(v, '=');
    } else {
      assert v + rest == v + ['='] + rest[1..];
      SplitAround(v, '=', rest[1..]);
      SplitNoSeparator(v, '=');
    }
    assert Split(kv, '=')[..2] == [k, v];
  }

  /* ---------------------------------------------------------------------
     All entries: mapping every segment
     --------------------------------------------------------------------- */

  /** `xs.map(parse)` where a call of `parse` may throw (`None`): the
      results in order, or `None` when some call throws, since the
      exception propagates out of `map`. */
  function MapOrThrow<A, B>(parse: A -> Option<B>, xs: seq<A>): (r: Option<seq<B>>)
    ensures r.None? <==> exists i :: 0 <= i < |xs| && parse(xs[i]).None?
    ensures r.Some? ==> |r.value| == |xs|
  {
    if xs == [] then Some([])
    else
      match parse(xs[0])
      case None => None
      case Some(y) =>
        match MapOrThrow(parse, xs[1..])
        case None =>
          assert exists i :: 0 <= i < |xs| && parse(xs[i]).None? by {
            var i :| 0 <= i < |xs[1..]| && parse(xs[1..][i]).None?;
            assert xs[i + 1] == xs[1..][i];
          }
          None
        case Some(ys) => Some([y] + ys)
  }

  /** `map` keeps the order: the `i`-th result is `parse` of the `i`-th
      element. */
  lemma {:induction false} MapOrThrowAt<A, B>(parse: A -> Option<B>, xs: seq<A>, i: nat)
    requires MapOrThrow(parse, xs).Some? && i < |xs|
    ensures parse(xs[i]) == Some(MapOrThrow(parse, xs).value[i])
  {
    if i > 0 {
      MapOrThrowAt(parse, xs[1..], i - 1);
      assert xs[1..][i - 1] == xs[i];
    }
  }

  /** `map` over elements that each parse: all the results, in order. */
  lemma {:induction false} MapOrThrowEach<A, B>(parse: A -> Option<B>, xs: seq<A>, ys: seq<B>)
    requires |xs| == |ys| && forall i :: 0 <= i < |xs| ==> parse(xs[i]) == Some(ys[i])
    ensures MapOrThrow(parse, xs) == Some(ys)
  {
    if xs != [] {
      assert forall i :: 0 <= i < |xs[1..]| ==> parse(xs[1..][i]) == Some(ys[1..][i]) by {
        forall i | 0 <= i < |xs[1..]| ensures parse(xs[1..][i]) == Some(ys[1..][i]) {
          assert xs[1..][i] == xs[i + 1] && ys[1..][i] == ys[i + 1];
        }
      }
      MapOrThrowEach(parse, xs[1..], ys[1..]);
      assert ys == [ys[0]] + ys[1..];
    }
  }

  /** Mapping two arrays in a row: a throw in either is a throw of the
      whole, otherwise the results follow each other. */
  lemma MapOrThrowAppend<A, B>(parse: A -> Option<B>, s: seq<A>, t: seq<A>)
    ensures MapOrThrow(parse, s + t) ==
      if MapOrThrow(parse, s).Some? && MapOrThrow(parse, t).Some? then
        Some(MapOrThrow(parse, s).value + MapOrThrow(parse, t).value)
      else None
  {
    if MapOrThrow(parse, s).Some? && MapOrThrow(parse, t).Some? {
      MapOrThrowAppendSome(parse, s, t);
    } else if MapOrThrow(parse, s).None? {
      var i :| 0 <= i < |s| && parse(s[i]).None?;
      assert (s + t)[i] == s[i];
    } else {
      var i :| 0 <= i < |t| && parse(t[i]).None?;
      assert (s + t)[|s| + i] == t[i];
    }
  }

  lemma {:induction false} MapOrThrowAppendSome<A, B>(parse: A -> Option<B>, s: seq<A>, t: seq<A>)
    requires MapOrThrow(parse, s).Some? && MapOrThrow(parse, t).Some?
    ensures MapOrThrow(parse, s + t) == Some(MapOrThrow(parse, s).value + MapOrThrow(parse, t).value)
  {
    var yt := MapOrThrow(parse, t).value;
    if s == [] {
      assert s + t == t;
      assert MapOrThrow(parse, s).value + yt == [] + yt == yt;
    } else {
      var y := parse(s[0]).value;
      var ys := MapOrThrow(parse, s[1..]).value;
      MapOrThrowAppendSome(parse, s[1..], t);
      var st := s + t;
      assert st[0] == s[0] && st[1..] == s[1..] + t;
      assert [y] + (ys + yt) == ([y] + ys) + yt;
    }
  }

  /** `headerStr.split(',').map(...)`: the entry of every segment, or
      `None` (the `TypeError`) exactly when some segment has no `=`. */
  function ParseEntries(segments: seq<string>): (r: Option<seq<Entry>>)
    ensures r.None? <==> exists i :: 0 <= i < |segments| && '=' !in segments[i]
    ensures r.Some? ==> |r.value| == |segments|
  {
    var r := MapOrThrow(ParseEntry, segments);
    assert r.None? ==> exists i :: 0 <= i < |segments| && '=' !in segments[i] by {
      if r.None? {
        var i :| 0 <= i < |segments| && ParseEntry(segments[i]).None?;
      }
    }
    assert (exists i :: 0 <= i < |segments| && '=' !in segments[i]) ==> r.None? by {
      if exists i :: 0 <= i < |segments| && '=' !in segments[i] {
        var i :| 0 <= i < |segments| && '=' !in segments[i];
        assert ParseEntry(segments[i]).None?;
      }
    }
    r
  }

  /* ---------------------------------------------------------------------
     Building the object from the entries
     --------------------------------------------------------------------- */

  /** The keys of a list of entries. */
  function KeysOf(entries: seq<Entry>): set<string> {
    if entries == [] then {} else KeysOf(entries[..|entries| - 1]) + {entries[|entries| - 1].0}
  }

  /** `Object.fromEntries(entries)`: the entries are stored one after the
      other into a fresh object, so its keys are those of the entries. */
  function FromEntries(entries: seq<Entry>): (m: map<string, string>)
    ensures m.Keys == KeysOf(entries)
  {
    if entries == [] then map[]
    else
      var last := entries[|entries| - 1];
      FromEntries(entries[..|entries| - 1])[last.0 := last.1]
  }

  /** Every key/value pair of the object is one of the entries. */
  lemma {:induction false} FromEntriesPairs(entries: seq<Entry>, k: string)
    requires k in FromEntries(entries)
    ensures (k, FromEntries(entries)[k]) in entries
  {
    var init, last := entries[..|entries| - 1], entries[|entries| - 1];
    if k != last.0 {
      FromEntriesPairs(init, k);
      var i :| 0 <= i < |init| && init[i] == (k, FromEntries(init)[k]);
      assert entries[i] == init[i];
    }
  }

  /** The value of the last entry with key `k`, looking from the end of
      the list; `None` when no entry has that key. */
  function LastValue(entries: seq<Entry>, k: string): Option<string> {
    if entries == [] then None
    else if entries[|entries| - 1].0 == k then Some(entries[|entries| - 1].1)
    else LastValue(entries[..|entries| - 1], k)
  }

  /** Later entries win: each key of the object holds the value of the last
      entry with that key, and the keys are exactly those some entry has. */
  lemma {:induction false} FromEntriesLastWins(entries: seq<Entry>, k: string)
    ensures k in FromEntries(entries) <==> LastValue(entries, k).Some?
    ensures k in FromEntries(entries) ==> FromEntries(entries)[k] == LastValue(entries, k).value
  {
    if entries != [] {
      FromEntriesLastWins(entries[..|entries| - 1], k);
    }
  }

  /** The object of two lists in a row: the later list's entries override
      the earlier list's. */
  lemma {:induction false} FromEntriesAppend(a: seq<Entry>, b: seq<Entry>)
    ensures FromEntries(a + b) == FromEntries(a) + FromEntries(b)
  {
    if b == [] {
      assert a + b == a;
    } else {
      var init, last := b[..|b| - 1], b[|b| - 1];
      assert (a + b)[..|a + b| - 1] == a + init;
      assert (a + b)[|a + b| - 1] == last;
      FromEntriesAppend(a, init);
      var ma, mi := FromEntries(a), FromEntries(init);
      assert (ma + mi)[last.0 := last.1] == ma + mi[last.0 := last.1];
    }
  }

  /* ---------------------------------------------------------------------
     The whole header list
     --------------------------------------------------------------------- */

  /** The parsed header list. A falsy (empty) list gives `undefined` rather
      than an empty mapping; a list with a segment lacking `=` fails with
      `TypeError`; otherwise every key and value is header text. */
  function ParseHeaders(headerStr: string): (r: HeaderResult)
    ensures r.NoHeaders? <==> headerStr == []
    ensures r.TypeError? <==>
      (headerStr != [] && exists i :: 0 <= i < |Split(headerStr, ',')| && '=' !in Split(headerStr, ',')[i])
    ensures r.Headers? ==> forall k :: k in r.pairs ==> IsHeaderText(k) && IsHeaderText(r.pairs[k])
  {
    if headerStr == [] then NoHeaders
    else
      var segments := Split(headerStr, ',');
      match ParseEntries(segments)
      case None =>
        assert exists i :: 0 <= i < |Split(headerStr, ',')| && '=' !in Split(headerStr, ',')[i];
        TypeError
      case Some(entries) =>
        HeaderTextEntries(headerStr, entries);
        Headers(FromEntries(entries))
  }

  /** The entries parsed from a header list hold header text only. */
  lemma HeaderTextEntries(headerStr: string, entries: seq<Entry>)
    requires ParseEntries(Split(headerStr, ',')) == Some(entries)
    ensures forall k :: k in FromEntries(entries) ==> IsHeaderText(k) && IsHeaderText(FromEntries(entries)[k])
  {
    var segments := Split(headerStr, ',');
    var m := FromEntries(entries);
    forall k | k in m ensures IsHeaderText(k) && IsHeaderText(m[k]) {
      FromEntriesPairs(entries, k);
      var i :| 0 <= i < |entries| && entries[i] == (k, m[k]);
      SplitPartsFree(headerStr, ',', i);
      MapOrThrowAt(ParseEntry, segments, i);
    }
  }

  /** The value a key ends up with is that of the last segment having it. */
  lemma ParseHeadersLookup(headerStr: string, k: string)
    requires ParseHeaders(headerStr).Headers?
    ensures ParseEntries(Split(headerStr, ',')).Some?
    ensures var entries := ParseEntries(Split(headerStr, ',')).value;
      && (k in ParseHeaders(headerStr).pairs <==> LastValue(entries, k).Some?)
      && (k in ParseHeaders(headerStr).pairs ==> ParseHeaders(headerStr).pairs[k] == LastValue(entries, k).value)
  {
    FromEntriesLastWins(ParseEntries(Split(headerStr, ',')).value, k);
  }

  /** A leading, trailing or doubled comma leaves an empty segment, which
      has no `=`, so the whole list fails with `TypeError`. */
  lemma EmptySegmentFails(a: string, b: string)
    ensures ParseHeaders(a + ",").TypeError?
    ensures ParseHeaders("," + b).TypeError?
    ensures ParseHeaders(a + ",," + b).TypeError?
  {
    EmptySegmentFailsTrailing(a);
    EmptySegmentFailsLeading(b);
    EmptySegmentFailsDoubled(a, b);
  }

  lemma EmptySegmentFailsTrailing(a: string)
    ensures ParseHeaders(a + ",").TypeError?
  {
    assert a + "," == a + [','] + [];
    SplitAround(a, ',', []);
    assert Split(a + ",", ',')[|Split(a, ',')|] == [];
  }

  lemma EmptySegmentFailsLeading(b: string)
    ensures ParseHeaders("," + b).TypeError?
  {
    assert "," + b == [] + [','] + b;
    SplitAround([], ',', b);
    assert Split("," + b, ',')[0] == [];
  }

  lemma EmptySegmentFailsDoubled(a: string, b: string)
    ensures ParseHeaders(a + ",," + b).TypeError?
  {
    assert a + ",," + b == a + [','] + ("," + b);
    SplitAround(a, ',', "," + b);
    assert "," + b == [] + [','] + b;
    SplitAround([], ',', b);
    assert Split(a + ",," + b, ',')[|Split(a, ',')|] == [];
  }

  /** Headers of two lists joined by a comma: an error in either part is an
      error of the whole, and otherwise the mappings are merged with the
      later part winning on a shared key. */
  function Merge(x: HeaderResult, y: HeaderResult): HeaderResult {
    match (x, y)
    case (Headers(p), Headers(q)) => Headers(p + q)
    case (NoHeaders, _) => y
    case (_, NoHeaders) => x
    case _ => TypeError
  }

  /** Later wins across a comma: parsing `a,b` is parsing `a` and `b` and
      merging the mappings with `b` overriding `a`. */
  lemma ParseHeadersConcat(a: string, b: string)
    requires a != [] && b != []
    ensures ParseHeaders(a + "," + b) == Merge(ParseHeaders(a), ParseHeaders(b))
  {
    assert a + "," + b == a + [','] + b;
    SplitAround(a, ',', b);
    MapOrThrowAppend(ParseEntry, Split(a, ','), Split(b, ','));
    if ParseEntries(Split(a, ',')).Some? && ParseEntries(Split(b, ',')).Some? {
      FromEntriesAppend(ParseEntries(Split(a, ',')).value, ParseEntries(Split(b, ',')).value);
    }
  }

  /** Two lists that each parse to an object parse, joined by a comma, to
      the second object laid over the first. */
  lemma MergeParsed(a: string, b: string, p: map<string, string>, q: map<string, string>)
    requires ParseHeaders(a) == Headers(p) && ParseHeaders(b) == Headers(q)
    ensures ParseHeaders(a + "," + b) == Headers(p + q)
  {
    ParseHeadersConcat(a, b);
  }

  /* ---------------------------------------------------------------------
     Round trip with the header-list format
     --------------------------------------------------------------------- */

  /** `k=v`: one entry of a header list. */
  function EntryText(e: Entry): string {
    e.0 + "=" + e.1
  }

  /** One `k=v` segment per entry. */
  function Segments(entries: seq<Entry>): seq<string> {
    seq(|entries|, i requires 0 <= i < |entries| => EntryText(entries[i]))
  }

  /** The header list that lists `entries` in order: the inverse of
      `ParseHeaders` on well-formed entries. */
  function Format(entries: seq<Entry>): string {
    Join(Segments(entries), ',')
  }

  /** Entries whose keys and values are all header text. */
  predicate WellFormedEntries(entries: seq<Entry>) {
    forall i :: 0 <= i < |entries| ==> IsHeaderText(entries[i].0) && IsHeaderText(entries[i].1)
  }

  /** Round trip of one entry: `k=v` parses back to `(k, v)` when both are
      header text. */
  lemma EntryRoundTrip(e: Entry)
    requires IsHeaderText(e.0) && IsHeaderText(e.1)
    ensures ParseEntry(EntryText(e)) == Some(e)
  {
    var (k, v) := e;
    assert EntryText(e) == k + "=" + v + [];
    ParseEntryFields(k, v, []);
    TrimTrimmed(k);
    TrimTrimmed(v);
  }

  /** Splitting a formatted list on `,` gives back its segments. */
  lemma SplitFormat(entries: seq<Entry>)
    requires entries != [] && WellFormedEntries(entries)
    ensures Format(entries) != [] && Split(Format(entries), ',') == Segments(entries)
  {
    var segments := Segments(entries);
    assert forall i :: 0 <= i < |segments| ==> ',' !in segments[i];
    SplitJoin(segments, ',');
    JoinKeeps(segments, ',', 0, '=');
  }

  /** Each formatted segment parses back to its entry. */
  lemma ParseSegments(entries: seq<Entry>)
    requires WellFormedEntries(entries)
    ensures ParseEntries(Segments(entries)) == Some(entries)
  {
    var segments := Segments(entries);
    forall i | 0 <= i < |segments| ensures ParseEntry(segments[i]) == Some(entries[i]) {
      EntryRoundTrip(entries[i]);
    }
    MapOrThrowEach(ParseEntry, segments, entries);
  }

  /** Round trip: formatting well-formed entries and parsing the list gives
      the mapping built from them; no entries format to the empty list,
      which parses to no headers at all. */
  lemma FormatParse(entries: seq<Entry>)
    requires WellFormedEntries(entries)
    ensures ParseHeaders(Format(entries)) == if entries == [] then NoHeaders else Headers(FromEntries(entries))
  {
    if entries != [] {
      SplitFormat(entries);
      ParseSegments(entries);
    } else {
      assert Format(entries) == [];
    }
  }

  /** A single well-formed entry parses to a one-key mapping. */
  lemma SingleEntry(k: string, v: string)
    requires IsHeaderText(k) && IsHeaderText(v)
    ensures ParseHeaders(k + "=" + v) == Headers(map[k := v])
  {
    var entries := [(k, v)];
    FormatParse(entries);
    assert Segments(entries) == [k + "=" + v];
    assert entries[..0] == [];
  }

  /** Two entries with the same key: the later value is the one kept. */
  lemma LaterDuplicateWins(k: string, v1: string, v2: string)
    requires IsHeaderText(k) && IsHeaderText(v1) && IsHeaderText(v2)
    ensures ParseHeaders(k + "=" + v1 + "," + k + "=" + v2) == Headers(map[k := v2])
  {
    var first, second := k + "=" + v1, k + "=" + v2;
    calc {
      ParseHeaders(k + "=" + v1 + "," + k + "=" + v2);
      { assert k + "=" + v1 + "," + k + "=" + v2 == first + "," + second; }
      ParseHeaders(first + "," + second);
      { ParseHeadersConcat(first, second); }
      Merge(ParseHeaders(first), ParseHeaders(second));
      { SingleEntry(k, v1); SingleEntry(k, v2); }
      Headers(map[k := v1] + map[k := v2]);
      { assert map[k := v1] + map[k := v2] == map[k := v2]; }
      Headers(map[k := v2]);
    }
  }

  /** A list of one segment holding a `=` and no `,` gives the one-key
      object of that segment's entry. */
  lemma OneSegment(kv: string, e: Entry)
    requires kv != [] && ',' !in kv && ParseEntry(kv) == Some(e)
    ensures ParseHeaders(kv) == Headers(map[e.0 := e.1])
  {
    SplitNoSeparator(kv, ',');
    MapOrThrowEach(ParseEntry, [kv], [e]);
    assert [e][..0] == [];
  }

  /** White space holds neither `,` nor `=`. */
  lemma WhiteSpaceFree(a: string)
    requires AllWhiteSpace(a)
    ensures ',' !in a && '=' !in a
  {
  }

  /** A one-entry list with white space around its key and its value gives
      the one-key object of the bare key and value; whatever follows a
      second `=` is dropped. */
  lemma PaddedEntryList(a1: string, k: string, b1: string, a2: string, v: string, b2: string, rest: string)
    requires AllWhiteSpace(a1) && AllWhiteSpace(b1) && AllWhiteSpace(a2) && AllWhiteSpace(b2)
    requires IsHeaderText(k) && IsHeaderText(v)
    requires ',' !in rest && (rest == [] || rest[0] == '=')
    ensures ParseHeaders(a1 + k + b1 + "=" + a2 + v + b2 + rest) == Headers(map[k := v])
  {
    WhiteSpaceFree(a1);
    WhiteSpaceFree(b1);
    WhiteSpaceFree(a2);
    WhiteSpaceFree(b2);
    var key, value := a1 + k + b1, a2 + v + b2;
    var kv := key + "=" + value + rest;
    assert kv == a1 + k + b1 + "=" + a2 + v + b2 + rest;
    assert '=' !in key && ',' !in key by {
      assert key == a1 + (k + b1);
    }
    assert '=' !in value && ',' !in value by {
      assert value == a2 + (v + b2);
    }
    assert ',' !in kv by {
      assert kv == key + ("=" + (value + rest));
    }
    ParseEntryFields(key, value, rest);
    TrimPadded(a1, k, b1);
    TrimPadded(a2, v, b2);
    OneSegment(kv, (k, v));
  }

  /** A list in the documented form, with white space around keys and
      values: both are trimmed. */
  lemma ExampleWithSpaces(list: string)
    requires list == "k1=v1, k2 = v2"
    ensures ParseHeaders(list) == Headers(map["k1" := "v1", "k2" := "v2"])
  {
    var first, second := "k1=v1", " k2 = v2";
    var both := map["k1" := "v1"] + map["k2" := "v2"];
    assert both == map["k1" := "v1", "k2" := "v2"];
    assert list == first + "," + second;
    assert ParseHeaders(first + "," + second) == Headers(both) by {
      ExamplePlain();
      ExampleSpaced();
      MergeParsed(first, second, map["k1" := "v1"], map["k2" := "v2"]);
    }
  }

  /** The first segment of the list above. */
  lemma ExamplePlain()
    ensures ParseHeaders("k1=v1") == Headers(map["k1" := "v1"])
  {
    assert "k1=v1" == [] + "k1" + [] + "=" + [] + "v1" + [] + [];
    PaddedEntryList([], "k1", [], [], "v1", [], []);
  }

  /** The second segment of the list above, spaces and all. */
  lemma ExampleSpaced()
    ensures ParseHeaders(" k2 = v2") == Headers(map["k2" := "v2"])
  {
    assert " k2 = v2" == " " + "k2" + " " + "=" + " " + "v2" + [] + [];
    PaddedEntryList(" ", "k2", " ", " ", "v2", [], []);
  }

  /** A value ending in `=`, as base64 padding does, loses everything from
      its first `=` on: `token=abc==` gives `{token: "abc"}`. */
  lemma ExamplePaddingDropped()
    ensures ParseHeaders("token=abc==") == Headers(map["token" := "abc"])
  {
    assert "token=abc==" == [] + "token" + [] + "=" + [] + "abc" + [] + "==";
    PaddedEntryList([], "token", [], [], "abc", [], "==");
  }

  /** Some key of a non-empty mapping. */
  ghost function SomeKey(m: map<string, string>): (k: string)
    requires m != map[]
    ensures k in m
  {
    var k :| k in m; k
  }

  /** Some ordering of the entries of `m`, one entry per key. */
  ghost function EntriesOf(m: map<string, string>): (entries: seq<Entry>)
    ensures forall i :: 0 <= i < |entries| ==> entries[i].0 in m && entries[i].1 == m[entries[i].0]
    decreases |m|
  {
    if m == map[] then []
    else
      var k := SomeKey(m);
      var rest := m - {k};
      assert |rest| < |m| by { assert rest.Keys == m.Keys - {k}; }
      var prev := EntriesOf(rest);
      var entries := prev + [(k, m[k])];
      assert forall i :: 0 <= i < |entries| ==> entries[i].0 in m && entries[i].1 == m[entries[i].0] by {
        forall i | 0 <= i < |entries| ensures entries[i].0 in m && entries[i].1 == m[entries[i].0] {
          if i < |prev| { assert entries[i] == prev[i]; }
        }
      }
      entries
  }

  /** The entries of `m` build `m` back. */
  lemma {:induction false} FromEntriesOf(m: map<string, string>)
    ensures FromEntries(EntriesOf(m)) == m
    decreases |m|
  {
    if m != map[] {
      var entries := EntriesOf(m);
      var k := SomeKey(m);
      var rest := m - {k};
      assert |rest| < |m| by { assert rest.Keys == m.Keys - {k}; }
      FromEntriesOf(rest);
      var prev := EntriesOf(rest);
      assert entries[..|entries| - 1] == prev && entries[|entries| - 1] == (k, m[k]);
      assert rest[k := m[k]] == m by {
        assert rest[k := m[k]].Keys == m.Keys;
      }
      calc {
        FromEntries(entries);
        FromEntries(prev)[k := m[k]];
        rest[k := m[k]];
        m;
      }
    }
  }

  /** A header list that lists the entries of `m`. */
  ghost function FormatMap(m: map<string, string>): string {
    Format(EntriesOf(m))
  }

  /** Round trip on mappings: a mapping whose keys and values are header
      text comes back from formatting and parsing; the empty mapping
      formats to the empty list, which parses to no headers. */
  lemma MappingRoundTrip(m: map<string, string>)
    requires forall k :: k in m ==> IsHeaderText(k) && IsHeaderText(m[k])
    ensures ParseHeaders(FormatMap(m)) == if m == map[] then NoHeaders else Headers(m)
  {
    var entries := EntriesOf(m);
    FormatParse(entries);
    FromEntriesOf(m);
    if m == map[] {
      assert entries == [];
    } else {
      assert entries != [];
    }
  }
}
