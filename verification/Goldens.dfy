/** Blessing stills into a golden file and holding later draws to it. */
module Goldens {
  import opened Text
  import opened JsonText
  import opened Json
  import opened Canonical
  import opened Chain
  import opened Verify
  import opened SegmentNames
  import opened SegmentLogs
  import opened PrettyJson
  import opened Still
  import L = LawfulLibraries

  /** A still's digest, JSON.parse of a file, and which texts are what a finite number prints as. */
  datatype Libraries = Libraries(sha: Bytes -> Str, parse: Bytes -> Option<Json>, numeral: Str -> bool)

  ghost predicate ReadsIndented(lib: Libraries, v: Json) {
    var q := lib.parse(Utf8(Pretty(v, 0)) + [NEWLINE]);
    q.Some? && Meaning(q.value) == Meaning(v)
  }

  /** Digests are 64 hex digits, numbers print as numbers do, parsed JSON is a JavaScript value, and indented JSON whose
      numbers are texts that numbers print as parses back up to key order. */
  ghost predicate Dependable(lib: Libraries) {
    && (forall x: Bytes :: IsHash(lib.sha(x))) && NumberTexts(lib.numeral)
    && (forall x: Bytes :: lib.parse(x).Some? ==> Valid(lib.parse(x).value) && NumeralsIn(lib.numeral, lib.parse(x).value))
    && (forall v: Json :: Valid(v) && Plain(v) && NumeralsIn(lib.numeral, v) ==> ReadsIndented(lib, v))
  }

  // ---- the golden

  /** A still's size, as decimal text, and its digest. */
  datatype GoldenRow = GoldenRow(width: Str, height: Str, sha256: Str)

  datatype StillGolden = StillGolden(host: Str, stills: seq<Keyed<GoldenRow>>)

  datatype GoldenFault = DoesNotParse | NamesNoHost | HoldsNoStills | NotARow(key: Str)

  datatype GoldenRead = Usable(golden: Option<StillGolden>) | Faulty(fault: GoldenFault)

  /** A number's text is that of a whole number above zero: digits, or an exponent too large to leave a fraction. */
  predicate PositiveWhole(t: Str) {
    t != [] && 0x31 <= t[0] <= 0x39 && (AllDigits(t) || exists i | 0 <= i < |t| :: t[i] == 0x2B)
  }

  predicate GoodSize(lib: Libraries, t: Str) {
    lib.numeral(t) && NumText(t) && PositiveWhole(t)
  }

  predicate GoodRow(lib: Libraries, r: GoldenRow) {
    GoodSize(lib, r.width) && GoodSize(lib, r.height) && IsHash(r.sha256)
  }

  /** Each key once, and rows that a golden may hold. */
  predicate Sound(lib: Libraries, ms: seq<Keyed<GoldenRow>>) {
    DistinctKeys(ms) && forall i | 0 <= i < |ms| :: GoodRow(lib, ms[i].value)
  }

  // ---- rows by key, in insertion order

  /** `ms[key] = value`: in its place, or at the end. */
  function Put<T>(ms: seq<Keyed<T>>, key: Str, value: T): seq<Keyed<T>> {
    if ms == [] then [Keyed(key, value)]
    else if ms[0].key == key then [Keyed(key, value)] + ms[1..]
    else [ms[0]] + Put(ms[1..], key, value)
  }

  /** `{ ...ms, ...over }`. */
  function Spread<T>(ms: seq<Keyed<T>>, over: seq<Keyed<T>>): seq<Keyed<T>>
    decreases |over|
  {
    if over == [] then ms else Spread(Put(ms, over[0].key, over[0].value), over[1..])
  }

  lemma {:induction false} PutAt<T>(ms: seq<Keyed<T>>, key: Str, value: T, k: Str)
    ensures ValueAt(Put(ms, key, value), k) == if k == key then Some(value) else ValueAt(ms, k)
  {
    if ms != [] && ms[0].key != key {
      PutAt(ms[1..], key, value, k);
    }
  }

  lemma {:induction false} AtKeyed<T>(ms: seq<Keyed<T>>, k: Str)
    ensures ValueAt(ms, k).Some? <==> HasKey(ms, k)
  {
    if ms != [] && ms[0].key != k {
      AtKeyed(ms[1..], k);
      assert HasKey(ms[1..], k) <==> HasKey(ms, k) by {
        assert forall i | 0 < i < |ms| :: ms[i] == ms[1..][i - 1];
      }
    }
  }

  lemma {:induction false} SpreadAt<T>(ms: seq<Keyed<T>>, over: seq<Keyed<T>>, k: Str)
    requires DistinctKeys(over)
    ensures ValueAt(Spread(ms, over), k) == if ValueAt(over, k).Some? then ValueAt(over, k) else ValueAt(ms, k)
    decreases |over|
  {
    if over != [] {
      SpreadAt(Put(ms, over[0].key, over[0].value), over[1..], k);
      PutAt(ms, over[0].key, over[0].value, k);
      AtKeyed(over[1..], k);
    }
  }

  lemma {:induction false} PutSound(lib: Libraries, ms: seq<Keyed<GoldenRow>>, key: Str, row: GoldenRow)
    requires Sound(lib, ms) && GoodRow(lib, row)
    ensures Sound(lib, Put(ms, key, row))
    ensures forall k :: HasKey(Put(ms, key, row), k) <==> k == key || HasKey(ms, k)
  {
    hide GoodRow;
    forall k ensures HasKey(Put(ms, key, row), k) <==> k == key || HasKey(ms, k) {
      PutAt(ms, key, row, k);
      AtKeyed(ms, k);
      AtKeyed(Put(ms, key, row), k);
    }
    if ms != [] && ms[0].key != key {
      PutSound(lib, ms[1..], key, row);
      var rest := Put(ms[1..], key, row);
      assert !HasKey(ms[1..], ms[0].key);
      assert !HasKey(rest, ms[0].key);
    }
  }

  lemma {:induction false} SpreadSound(lib: Libraries, ms: seq<Keyed<GoldenRow>>, over: seq<Keyed<GoldenRow>>)
    requires Sound(lib, ms) && forall i | 0 <= i < |over| :: GoodRow(lib, over[i].value)
    ensures Sound(lib, Spread(ms, over))
    decreases |over|
  {
    hide GoodRow, Sound;
    if over != [] {
      PutSound(lib, ms, over[0].key, over[0].value);
      SpreadSound(lib, Put(ms, over[0].key, over[0].value), over[1..]);
    }
  }

  // ---- reading and writing

  predicate PositiveInteger(v: Option<Json>) {
    v.Some? && v.value.Num? && PositiveWhole(v.value.text)
  }

  predicate HexDigest(v: Option<Json>) {
    v.Some? && v.value.String? && IsHash(v.value.s)
  }

  /** `isRow`. */
  predicate IsRow(v: Json) {
    PositiveInteger(Lookup(v, Lit("width"))) && PositiveInteger(Lookup(v, Lit("height"))) && HexDigest(Lookup(v, Lit("sha256")))
  }

  function RowOf(v: Json): GoldenRow
    requires IsRow(v)
  {
    GoldenRow(Lookup(v, Lit("width")).value.text, Lookup(v, Lit("height")).value.text, Lookup(v, Lit("sha256")).value.s)
  }

  predicate AllRows(ms: seq<Keyed<Json>>) {
    forall i | 0 <= i < |ms| :: IsRow(ms[i].value)
  }

  function FirstNotRow(ms: seq<Keyed<Json>>): Str
    requires !AllRows(ms)
  {
    if !IsRow(ms[0].value) then ms[0].key else FirstNotRow(ms[1..])
  }

  /** A faulty golden is said by the key of its first entry that is not a row. */
  lemma {:induction false} FirstNotRowExact(ms: seq<Keyed<Json>>, i: nat)
    requires i < |ms| && !IsRow(ms[i].value) && AllRows(ms[..i])
    ensures !AllRows(ms) && FirstNotRow(ms) == ms[i].key
  {
    hide IsRow;
    if i > 0 {
      assert ms[..i][0] == ms[0] && ms[1..][..i - 1] == ms[..i][1..];
      FirstNotRowExact(ms[1..], i - 1);
    }
  }

  function RowsOf(ms: seq<Keyed<Json>>): (rows: seq<Keyed<GoldenRow>>)
    requires AllRows(ms)
    ensures |rows| == |ms| && forall i | 0 <= i < |ms| :: rows[i] == Keyed(ms[i].key, RowOf(ms[i].value))
  {
    if ms == [] then [] else [Keyed(ms[0].key, RowOf(ms[0].value))] + RowsOf(ms[1..])
  }

  /** `readGolden`, of the file's bytes where there is a file. */
  function ReadGolden(lib: Libraries, file: Option<Bytes>): GoldenRead {
    if file.None? then Usable(None)
    else
      var parsed := lib.parse(file.value);
      if parsed.None? then Faulty(DoesNotParse)
      else
        var host, stills := Lookup(parsed.value, Lit("host")), Lookup(parsed.value, Lit("stills"));
        if host.None? || !host.value.String? then Faulty(NamesNoHost)
        else if stills.None? || !stills.value.Obj? then Faulty(HoldsNoStills)
        else if !AllRows(stills.value.members) then Faulty(NotARow(FirstNotRow(stills.value.members)))
        else Usable(Some(StillGolden(host.value.s, RowsOf(stills.value.members))))
  }

  predicate Names(lib: Libraries, x: Bytes, host: Str) {
    lib.parse(x).Some? && Lookup(lib.parse(x).value, Lit("host")) == Some(String(host))
  }

  predicate Holds(lib: Libraries, x: Bytes, ms: seq<Keyed<Json>>) {
    lib.parse(x).Some? && Lookup(lib.parse(x).value, Lit("stills")) == Some(Obj(ms))
  }

  ghost predicate NamesHost(lib: Libraries, x: Bytes) {
    exists h :: Names(lib, x, h)
  }

  ghost predicate HoldsObject(lib: Libraries, x: Bytes) {
    exists ms :: Holds(lib, x, ms)
  }

  ghost predicate HoldsRows(lib: Libraries, x: Bytes) {
    exists ms :: Holds(lib, x, ms) && AllRows(ms)
  }

  /** Each fault exactly: no JSON, else no host, else no stills, else an entry that is not a row. */
  lemma FaultExact(lib: Libraries, x: Bytes)
    ensures var r, parses := ReadGolden(lib, Some(x)), lib.parse(x).Some?;
      && (r == Faulty(DoesNotParse) <==> !parses)
      && (r == Faulty(NamesNoHost) <==> parses && !NamesHost(lib, x))
      && (r == Faulty(HoldsNoStills) <==> NamesHost(lib, x) && !HoldsObject(lib, x))
      && (r.Faulty? && r.fault.NotARow? <==> NamesHost(lib, x) && HoldsObject(lib, x) && !HoldsRows(lib, x))
      && (r.Usable? <==> NamesHost(lib, x) && HoldsRows(lib, x))
  {
    hide IsRow;
    var parsed := lib.parse(x);
    if parsed.Some? {
      var host, stills := Lookup(parsed.value, Lit("host")), Lookup(parsed.value, Lit("stills"));
      assert host.Some? && host.value.String? ==> Names(lib, x, host.value.s);
      assert stills.Some? && stills.value.Obj? ==> Holds(lib, x, stills.value.members);
    }
  }

  /** A file that names a host and holds these members is faulty for the first that is not a row, or their golden. */
  lemma HeldFault(lib: Libraries, x: Bytes, host: Str, ms: seq<Keyed<Json>>)
    requires Names(lib, x, host) && Holds(lib, x, ms)
    ensures forall i | 0 <= i < |ms| && !IsRow(ms[i].value) && AllRows(ms[..i]) :: ReadGolden(lib, Some(x)) == Faulty(NotARow(ms[i].key))
    ensures AllRows(ms) ==> ReadGolden(lib, Some(x)) == Usable(Some(StillGolden(host, RowsOf(ms))))
  {
    hide IsRow, FirstNotRow, RowsOf;
    forall i | 0 <= i < |ms| && !IsRow(ms[i].value) && AllRows(ms[..i])
      ensures ReadGolden(lib, Some(x)) == Faulty(NotARow(ms[i].key))
    {
      FirstNotRowExact(ms, i);
    }
  }

  function RowJson(r: GoldenRow): Json {
    Obj([Keyed(Lit("width"), Num(r.width)), Keyed(Lit("height"), Num(r.height)), Keyed(Lit("sha256"), String(r.sha256))])
  }

  function RowMembers(ms: seq<Keyed<GoldenRow>>): (r: seq<Keyed<Json>>)
    ensures |r| == |ms| && forall i | 0 <= i < |ms| :: r[i] == Keyed(ms[i].key, RowJson(ms[i].value))
  {
    if ms == [] then [] else [Keyed(ms[0].key, RowJson(ms[0].value))] + RowMembers(ms[1..])
  }

  function GoldenJson(g: StillGolden): Json {
    Obj([Keyed(Lit("host"), String(g.host)), Keyed(Lit("stills"), Obj(SortByKey(RowMembers(g.stills))))])
  }

  /** `goldenText`, as the file's bytes. */
  function GoldenFile(g: StillGolden): Bytes {
    Utf8(Pretty(GoldenJson(g), 0)) + [NEWLINE]
  }

  /** `blessedGolden`. */
  function BlessedGolden(previous: GoldenRead, host: Str, drawn: seq<Keyed<GoldenRow>>, filtered: bool): StillGolden {
    var merges := filtered && previous.Usable? && previous.golden.Some? && previous.golden.value.host == host;
    StillGolden(host, Spread(if merges then previous.golden.value.stills else [], drawn))
  }

  /** The row an earlier golden hands on. */
  function KeptRow(previous: GoldenRead, host: Str, filtered: bool, k: Str): Option<GoldenRow> {
    match previous
    case Usable(Some(g)) => if filtered && g.host == host then ValueAt(g.stills, k) else None
    case _ => None
  }

  /** A bless names its own host, and holds what the run drew; what it did not draw stays exactly in a filtered run, and
      then only from a golden that the same host blessed. */
  lemma BlessedExact(previous: GoldenRead, host: Str, drawn: seq<Keyed<GoldenRow>>, filtered: bool, k: Str)
    requires DistinctKeys(drawn)
    ensures var g, kept := BlessedGolden(previous, host, drawn, filtered), KeptRow(previous, host, filtered, k);
      g.host == host && ValueAt(g.stills, k) == if ValueAt(drawn, k).Some? then ValueAt(drawn, k) else kept
  {
    var merges := filtered && previous.Usable? && previous.golden.Some? && previous.golden.value.host == host;
    SpreadAt(if merges then previous.golden.value.stills else [], drawn, k);
  }

  // ---- reading back what was written

  /** A value that JSON text can say, its numbers printed as numbers are. */
  predicate Sayable(lib: Libraries, v: Json) {
    Valid(v) && Plain(v) && NumeralsIn(lib.numeral, v)
  }

  lemma ObjSayable(lib: Libraries, ms: seq<Keyed<Json>>)
    requires DistinctKeys(ms) && forall i | 0 <= i < |ms| :: Sayable(lib, ms[i].value)
    ensures Sayable(lib, Obj(ms))
  {
  }

  lemma RowJsonValid(lib: Libraries, r: GoldenRow)
    requires GoodRow(lib, r)
    ensures Sayable(lib, RowJson(r)) && IsRow(RowJson(r)) && RowOf(RowJson(r)) == r
  {
    hide PositiveWhole, NumText, IsHash;
    var ms := RowJson(r).members;
    assert ms[0].key[0] == 0x77 && ms[1].key[0] == 0x68 && ms[2].key[0] == 0x73;
    assert DistinctKeys(ms);
    assert Sayable(lib, ms[0].value) && Sayable(lib, ms[1].value) && Sayable(lib, ms[2].value);
    ObjSayable(lib, ms);
    LookupAt(ms, 0);
    LookupAt(ms, 1);
    LookupAt(ms, 2);
  }

  /** A value that means a good row reads as that row. */
  lemma SameRow(lib: Libraries, v: Json, r: GoldenRow)
    requires GoodRow(lib, r) && Meaning(v) == Meaning(RowJson(r))
    ensures IsRow(v) && RowOf(v) == r
  {
    var u := RowJson(r);
    RowJsonValid(lib, r);
    SameScalar(u, v, 0);
    SameScalar(u, v, 1);
    SameScalar(u, v, 2);
  }

  lemma {:induction false} RowMembersLookup(ms: seq<Keyed<GoldenRow>>, k: Str)
    ensures ValueAt(RowMembers(ms), k) == if ValueAt(ms, k).Some? then Some(RowJson(ValueAt(ms, k).value)) else None
  {
    if ms != [] && ms[0].key != k {
      RowMembersLookup(ms[1..], k);
    }
  }

  lemma {:induction false} RowsOfAt(ms: seq<Keyed<Json>>, k: Str)
    requires AllRows(ms)
    ensures ValueAt(RowsOf(ms), k) == if ValueAt(ms, k).Some? && IsRow(ValueAt(ms, k).value) then Some(RowOf(ValueAt(ms, k).value)) else None
    ensures ValueAt(ms, k).Some? ==> IsRow(ValueAt(ms, k).value)
  {
    hide IsRow, RowOf;
    if ms != [] && ms[0].key != k {
      RowsOfAt(ms[1..], k);
    }
  }

  lemma {:induction false} AtGood(lib: Libraries, ms: seq<Keyed<GoldenRow>>, k: Str)
    requires Sound(lib, ms) && ValueAt(ms, k).Some?
    ensures GoodRow(lib, ValueAt(ms, k).value)
  {
    hide GoodRow;
    if ms[0].key != k {
      AtGood(lib, ms[1..], k);
    }
  }

  lemma SortedDistinct<T>(ms: seq<Keyed<T>>)
    requires StrictlySorted(ms)
    ensures DistinctKeys(ms)
  {
    forall i, j | 0 <= i < j < |ms| ensures ms[i].key != ms[j].key {
      SortedSuffix(ms, i);
      SortedHead(ms[i..], j - i);
      BeforeNotSelf(ms[i].key);
    }
  }

  lemma RowMembersSayable(lib: Libraries, ms: seq<Keyed<GoldenRow>>)
    requires Sound(lib, ms)
    ensures DistinctKeys(RowMembers(ms)) && Sayable(lib, Obj(SortByKey(RowMembers(ms))))
  {
    hide Sayable, RowJson, GoodRow;
    var rs := RowMembers(ms);
    assert DistinctKeys(rs);
    SortSorted(rs);
    var sorted := SortByKey(rs);
    forall i | 0 <= i < |sorted| ensures Sayable(lib, sorted[i].value) {
      assert sorted[i] in rs;
      var j :| 0 <= j < |rs| && rs[j] == sorted[i];
      RowJsonValid(lib, ms[j].value);
    }
    SortedDistinct(sorted);
    ObjSayable(lib, sorted);
  }

  lemma GoldenSayable(lib: Libraries, g: StillGolden)
    requires Sound(lib, g.stills)
    ensures Sayable(lib, GoldenJson(g))
  {
    hide Sound;
    RowMembersSayable(lib, g.stills);
    var ms := GoldenJson(g).members;
    assert Lit("host")[0] != Lit("stills")[0];
    assert Sayable(lib, ms[0].value);
    ObjSayable(lib, ms);
  }

  lemma SameStill(lib: Libraries, ms: seq<Keyed<Json>>, rows: seq<Keyed<GoldenRow>>, k: Str)
    requires Sound(lib, rows) && Fields(ms) == Fields(RowMembers(rows))
    ensures ValueAt(ms, k).Some? <==> ValueAt(rows, k).Some?
    ensures ValueAt(rows, k).Some? ==> IsRow(ValueAt(ms, k).value) && RowOf(ValueAt(ms, k).value) == ValueAt(rows, k).value
  {
    hide IsRow, RowOf, GoodRow, Sound, RowJson;
    LookupFields(ms, k);
    LookupFields(RowMembers(rows), k);
    RowMembersLookup(rows, k);
    if ValueAt(rows, k).Some? {
      AtGood(lib, rows, k);
      SameRow(lib, ValueAt(ms, k).value, ValueAt(rows, k).value);
    }
  }

  /** The members of a value with the written stills' meaning are rows, and the same rows by key. */
  lemma SameStills(lib: Libraries, ms: seq<Keyed<Json>>, rows: seq<Keyed<GoldenRow>>)
    requires Sound(lib, rows) && DistinctKeys(ms) && Fields(ms) == Fields(RowMembers(rows))
    ensures AllRows(ms) && forall k :: ValueAt(RowsOf(ms), k) == ValueAt(rows, k)
  {
    hide IsRow, RowOf, GoodRow, Sound, DistinctKeys, RowJson;
    forall i | 0 <= i < |ms| ensures IsRow(ms[i].value) {
      LookupAt(ms, i);
      SameStill(lib, ms, rows, ms[i].key);
    }
    assert AllRows(ms);
    forall k ensures ValueAt(RowsOf(ms), k) == ValueAt(rows, k) {
      SameStill(lib, ms, rows, k);
      RowsOfAt(ms, k);
    }
  }

  lemma {:induction false} LookupValid(lib: Libraries, ms: seq<Keyed<Json>>, k: Str)
    requires Valid(Obj(ms)) && NumeralsIn(lib.numeral, Obj(ms))
    ensures ValueAt(ms, k).Some? ==> Valid(ValueAt(ms, k).value) && NumeralsIn(lib.numeral, ValueAt(ms, k).value)
  {
    if ms != [] && ms[0].key != k {
      LookupValid(lib, ms[1..], k);
    }
  }

  /** A value with the meaning of a written golden has its host, and stills with the same fields. */
  lemma SameGolden(lib: Libraries, g: StillGolden, v: Json)
    requires Valid(v) && NumeralsIn(lib.numeral, v) && Meaning(v) == Meaning(GoldenJson(g)) && Sound(lib, g.stills)
    ensures Lookup(v, Lit("host")) == Some(String(g.host))
    ensures var stills := Lookup(v, Lit("stills"));
      && stills.Some? && stills.value.Obj? && DistinctKeys(stills.value.members)
      && Fields(stills.value.members) == Fields(RowMembers(g.stills))
  {
    hide Sound, Valid, SortByKey;
    var u := GoldenJson(g);
    GoldenSayable(lib, g);
    var h, s := Lit("host"), Lit("stills");
    assert h[0] == 0x68 && s[0] == 0x73;
    assert DistinctKeys(u.members);
    SameScalar(u, v, 0);
    LookupAt(u.members, 1);
    LookupFields(u.members, s);
    LookupFields(v.members, s);
    RowMembersSayable(lib, g.stills);
    SortFields(RowMembers(g.stills));
    LookupValid(lib, v.members, s);
  }

  ghost predicate SameHeld(g: StillGolden, h: StillGolden) {
    g.host == h.host && forall k :: ValueAt(g.stills, k) == ValueAt(h.stills, k)
  }

  /** Reading a written golden gives the same host and the same row at every key. */
  lemma ReadWritten(lib: Libraries, g: StillGolden) returns (h: StillGolden)
    requires Dependable(lib) && Sound(lib, g.stills)
    ensures ReadGolden(lib, Some(GoldenFile(g))) == Usable(Some(h)) && SameHeld(g, h)
  {
    hide Sound, Valid, Plain, Pretty, Utf8, GoldenJson, IsRow, RowOf;
    GoldenSayable(lib, g);
    assert ReadsIndented(lib, GoldenJson(g));
    var v := lib.parse(GoldenFile(g)).value;
    SameGolden(lib, g, v);
    var ms := Lookup(v, Lit("stills")).value.members;
    SameStills(lib, ms, g.stills);
    h := StillGolden(g.host, RowsOf(ms));
  }

  lemma {:induction false} InsertKeeps<T>(m: Keyed<T>, ms: seq<Keyed<T>>, k: Str)
    requires forall i | 0 <= i < |ms| :: ms[i].key != m.key
    ensures ValueAt(Insert(m, ms), k) == if m.key == k then Some(m.value) else ValueAt(ms, k)
  {
    if ms != [] && Before(ms[0].key, m.key) {
      InsertKeeps(m, ms[1..], k);
    } else {
      assert ([m] + ms)[1..] == ms;
    }
  }

  lemma {:induction false} SortKeeps<T>(ms: seq<Keyed<T>>, k: Str)
    requires DistinctKeys(ms)
    ensures ValueAt(SortByKey(ms), k) == ValueAt(ms, k)
  {
    if ms != [] {
      SortKeeps(ms[1..], k);
      SortSorted(ms[1..]);
      var r := SortByKey(ms[1..]);
      forall i | 0 <= i < |r| ensures r[i].key != ms[0].key {
        assert r[i] in ms[1..];
      }
      InsertKeeps(ms[0], r, k);
    }
  }

  /** A sorted list has its least key first. */
  lemma LeastFirst<T>(us: seq<Keyed<T>>, vs: seq<Keyed<T>>)
    requires StrictlySorted(us) && StrictlySorted(vs) && us != []
    requires ValueAt(vs, us[0].key).Some?
    ensures vs != [] && (vs[0].key == us[0].key || Before(vs[0].key, us[0].key))
  {
    AtKeyed(vs, us[0].key);
    var j :| 0 <= j < |vs| && vs[j].key == us[0].key;
    if j > 0 {
      SortedHead(vs, j);
    }
  }

  lemma NotAfterFirst<T>(ms: seq<Keyed<T>>)
    requires StrictlySorted(ms) && ms != []
    ensures ValueAt(ms[1..], ms[0].key).None?
  {
    AtKeyed(ms[1..], ms[0].key);
    forall j | 0 <= j < |ms[1..]| ensures ms[1..][j].key != ms[0].key {
      SortedHead(ms, j + 1);
      BeforeNotSelf(ms[0].key);
    }
  }

  /** Sorted lists with the same value at every key are the same list. */
  lemma {:induction false} SortedSame<T>(us: seq<Keyed<T>>, vs: seq<Keyed<T>>)
    requires StrictlySorted(us) && StrictlySorted(vs) && forall k :: ValueAt(us, k) == ValueAt(vs, k)
    ensures us == vs
  {
    if us == [] {
      assert vs != [] ==> ValueAt(vs, vs[0].key).Some?;
    } else {
      var u := us[0].key;
      assert ValueAt(us, u).Some?;
      LeastFirst(us, vs);
      LeastFirst(vs, us);
      if vs[0].key != u {
        BeforeStrict(u, vs[0].key, u);
      }
      NotAfterFirst(us);
      NotAfterFirst(vs);
      forall k ensures ValueAt(us[1..], k) == ValueAt(vs[1..], k) {
        assert ValueAt(us, k) == ValueAt(vs, k);
      }
      SortedSame(us[1..], vs[1..]);
      assert us == [us[0]] + us[1..] && vs == [vs[0]] + vs[1..];
    }
  }

  /** Sound goldens are written as the same bytes exactly when they have one host and the same row at every key, in
      whatever order their rows came. */
  lemma SameFile(lib: Libraries, g: StillGolden, h: StillGolden)
    requires Dependable(lib) && Sound(lib, g.stills) && Sound(lib, h.stills)
    ensures GoldenFile(g) == GoldenFile(h) <==> SameHeld(g, h)
  {
    hide Dependable, GoodRow, ReadGolden, Pretty, Utf8, RowJson;
    if SameHeld(g, h) {
      var us, vs := RowMembers(g.stills), RowMembers(h.stills);
      SortSorted(us);
      SortSorted(vs);
      forall k ensures ValueAt(SortByKey(us), k) == ValueAt(SortByKey(vs), k) {
        SortKeeps(us, k);
        SortKeeps(vs, k);
        RowMembersLookup(g.stills, k);
        RowMembersLookup(h.stills, k);
        assert ValueAt(g.stills, k) == ValueAt(h.stills, k);
      }
      SortedSame(SortByKey(us), SortByKey(vs));
    }
    if GoldenFile(g) == GoldenFile(h) {
      var r := ReadWritten(lib, g);
      var s := ReadWritten(lib, h);
    }
  }

  lemma ParsedIsJson(lib: Libraries, x: Bytes)
    requires Dependable(lib) && lib.parse(x).Some?
    ensures Valid(lib.parse(x).value) && NumeralsIn(lib.numeral, lib.parse(x).value)
  {
  }

  lemma RowOfGood(lib: Libraries, v: Json)
    requires Valid(v) && NumeralsIn(lib.numeral, v) && IsRow(v)
    ensures GoodRow(lib, RowOf(v))
  {
    LookupValid(lib, v.members, Lit("width"));
    LookupValid(lib, v.members, Lit("height"));
  }

  lemma RowsSound(lib: Libraries, ms: seq<Keyed<Json>>)
    requires Valid(Obj(ms)) && NumeralsIn(lib.numeral, Obj(ms)) && AllRows(ms)
    ensures Sound(lib, RowsOf(ms))
  {
    hide IsRow, RowOf, GoodRow;
    forall i | 0 <= i < |ms| ensures GoodRow(lib, RowOf(ms[i].value)) {
      RowOfGood(lib, ms[i].value);
    }
  }

  /** What is read as a golden is sound: rows that are rows, each key once. */
  lemma ReadSound(lib: Libraries, file: Option<Bytes>)
    requires Dependable(lib)
    ensures var r := ReadGolden(lib, file); r.Usable? && r.golden.Some? ==> Sound(lib, r.golden.value.stills)
  {
    hide Dependable, Valid, NumeralsIn, IsRow, RowOf, GoodRow;
    var r := ReadGolden(lib, file);
    if r.Usable? && r.golden.Some? {
      var v := lib.parse(file.value).value;
      ParsedIsJson(lib, file.value);
      LookupValid(lib, v.members, Lit("stills"));
      RowsSound(lib, Lookup(v, Lit("stills")).value.members);
    }
  }

  // ---- the verdict

  datatype Theme = Day | Night

  function ThemeName(t: Theme): Str {
    if t.Day? then Lit("day") else Lit("night")
  }

  /** `stillKey`. */
  function StillKey(kind: Str, state: Str, theme: Theme): Str {
    kind + ([COLON] + (state + ([COLON] + ThemeName(theme))))
  }

  /** One state of a kind, drawn: twice, and the bare mat. */
  datatype Draw = Draw(kind: Str, state: Str, theme: Theme, frame: StillFrame, a: StillPixels, b: StillPixels, bare: StillPixels)

  function KeyOf(d: Draw): Str {
    StillKey(d.kind, d.state, d.theme)
  }

  function RowOfDraw(lib: Libraries, d: Draw): GoldenRow {
    GoldenRow(NatText(d.a.width), NatText(d.a.height), lib.sha(d.a.rgba))
  }

  datatype Verdict = Unsteady | Blank | PastReach | Blessed(row: GoldenRow) | GoldenInvalid(fault: GoldenFault) | Unblessed
    | Mismatch | Held

  /** `judgeStill`, of a measure. */
  function Judge(m: StillMeasure, key: Str, row: GoldenRow, golden: GoldenRead, bless: bool): Verdict {
    if m.unsteady > 0 then Unsteady
    else if m.drawn == 0 then Blank
    else if m.past > 0 then PastReach
    else if bless then Blessed(row)
    else if golden.Faulty? then GoldenInvalid(golden.fault)
    else if golden.golden.None? || ValueAt(golden.golden.value.stills, key).None? then Unblessed
    else if ValueAt(golden.golden.value.stills, key).value != row then Mismatch
    else Held
  }

  function JudgeDraw(lib: Libraries, d: Draw, golden: GoldenRead, bless: bool): Verdict {
    Judge(Measured(d.a, d.b, d.bare, d.frame), KeyOf(d), RowOfDraw(lib, d), golden, bless)
  }

  /** The still passes every check that is not about the golden. */
  predicate Passes(d: Draw) {
    var m := Measured(d.a, d.b, d.bare, d.frame);
    m.unsteady == 0 && m.drawn > 0 && m.past == 0
  }

  /** The row a golden holds a draw to. */
  function HeldTo(golden: GoldenRead, key: Str): Option<GoldenRow> {
    match golden
    case Usable(Some(g)) => ValueAt(g.stills, key)
    case _ => None
  }

  /** The verdicts, from outside: each refusal before any golden exactly on its own count; with the golden at fault or
      without a row at the key, exactly when the still passes and the golden is so; blessed with its own row
      exactly when it passes a blessing run; held exactly when the golden has its very row, mismatched exactly when it has
      another. */
  lemma JudgeExact(lib: Libraries, d: Draw, golden: GoldenRead, bless: bool)
    ensures var v, m := JudgeDraw(lib, d, golden, bless), Measured(d.a, d.b, d.bare, d.frame);
      && (v == Unsteady <==> m.unsteady > 0) && (v == Blank <==> m.unsteady == 0 && m.drawn == 0)
      && (v == PastReach <==> m.unsteady == 0 && m.drawn > 0 && m.past > 0) && (Passes(d) <==> m.unsteady == m.past == 0 < m.drawn)
      && (v == Blessed(RowOfDraw(lib, d)) <==> bless && Passes(d)) && (v.Blessed? ==> v.row == RowOfDraw(lib, d))
      && (v == Held <==> !bless && Passes(d) && HeldTo(golden, KeyOf(d)) == Some(RowOfDraw(lib, d)))
      && (v == Mismatch <==> !bless && Passes(d) && HeldTo(golden, KeyOf(d)).Some? && HeldTo(golden, KeyOf(d)) != Some(RowOfDraw(lib, d)))
      && (v == Unblessed <==> !bless && Passes(d) && golden.Usable? && HeldTo(golden, KeyOf(d)).None?)
      && (v.GoldenInvalid? <==> !bless && Passes(d) && golden.Faulty?) && (v.GoldenInvalid? ==> golden == Faulty(v.fault))
  {
    hide Measured;
  }

  // ---- the rows of a run

  /** The rows a blessing run holds after `draws`. */
  function WithRows(lib: Libraries, rows: seq<Keyed<GoldenRow>>, draws: seq<Draw>): seq<Keyed<GoldenRow>> {
    if draws == [] then rows
    else
      var before, d := WithRows(lib, rows, draws[..|draws| - 1]), draws[|draws| - 1];
      if Passes(d) then Put(before, KeyOf(d), RowOfDraw(lib, d)) else before
  }

  // ---- bless, then hold

  /** The row of the last passing draw at a key. */
  function LastRow(lib: Libraries, draws: seq<Draw>, k: Str): Option<GoldenRow> {
    if draws == [] then None
    else
      var d := draws[|draws| - 1];
      if Passes(d) && KeyOf(d) == k then Some(RowOfDraw(lib, d)) else LastRow(lib, draws[..|draws| - 1], k)
  }

  lemma {:induction false} NatTextPositive(n: nat)
    requires n > 0
    ensures 0x31 <= NatText(n)[0] <= 0x39 && NumText(NatText(n)) && PositiveWhole(NatText(n))
  {
    NatTextValue(n);
    if n >= 10 {
      NatTextPositive(n / 10);
    }
  }

  /** A still that passes has pixels, so its row is one that a golden may hold. */
  lemma PassingRowGood(lib: Libraries, d: Draw)
    requires Dependable(lib) && Passes(d)
    ensures GoodRow(lib, RowOfDraw(lib, d))
  {
    hide Moved, InBox, Valid, Plain, ReadsIndented;
    var w, h := d.a.width, d.a.height;
    assert w == 0 || h == 0 ==> Where(w, h, BoxedMoved(d.a, d.bare, d.frame)) == {};
    NatTextPositive(w);
    NatTextPositive(h);
  }

  lemma {:induction false} WithRowsSound(lib: Libraries, rows: seq<Keyed<GoldenRow>>, draws: seq<Draw>)
    requires Dependable(lib) && Sound(lib, rows)
    ensures Sound(lib, WithRows(lib, rows, draws))
  {
    hide Dependable, Passes, GoodRow, Sound;
    if draws != [] {
      var d := draws[|draws| - 1];
      WithRowsSound(lib, rows, draws[..|draws| - 1]);
      if Passes(d) {
        PassingRowGood(lib, d);
        PutSound(lib, WithRows(lib, rows, draws[..|draws| - 1]), KeyOf(d), RowOfDraw(lib, d));
      }
    }
  }

  lemma {:induction false} WithRowsAt(lib: Libraries, draws: seq<Draw>, k: Str)
    ensures ValueAt(WithRows(lib, [], draws), k) == LastRow(lib, draws, k)
  {
    hide Passes;
    if draws != [] {
      var d := draws[|draws| - 1];
      WithRowsAt(lib, draws[..|draws| - 1], k);
      PutAt(WithRows(lib, [], draws[..|draws| - 1]), KeyOf(d), RowOfDraw(lib, d), k);
    }
  }

  /** The bytes a blessing run leaves behind. */
  function RunFile(lib: Libraries, file: Option<Bytes>, host: Str, draws: seq<Draw>, filtered: bool): Bytes {
    GoldenFile(BlessedGolden(ReadGolden(lib, file), host, WithRows(lib, [], draws), filtered))
  }

  /** The rows of a golden that was read are sound. */
  predicate GoldenRows(lib: Libraries, r: GoldenRead) {
    r.Usable? && r.golden.Some? ==> Sound(lib, r.golden.value.stills)
  }

  /** A golden names this host, and holds at each key the last passing draw's row, or what is handed on of an earlier one. */
  ghost predicate Tells(lib: Libraries, previous: GoldenRead, host: Str, draws: seq<Draw>, filtered: bool, h: StillGolden) {
    h.host == host && forall k ::
      ValueAt(h.stills, k) == if LastRow(lib, draws, k).Some? then LastRow(lib, draws, k) else KeptRow(previous, host, filtered, k)
  }

  lemma BlessedReads(lib: Libraries, previous: GoldenRead, host: Str, draws: seq<Draw>, filtered: bool) returns (h: StillGolden)
    requires Dependable(lib) && GoldenRows(lib, previous)
    ensures var file := GoldenFile(BlessedGolden(previous, host, WithRows(lib, [], draws), filtered));
      ReadGolden(lib, Some(file)) == Usable(Some(h)) && Tells(lib, previous, host, draws, filtered, h)
  {
    hide ReadGolden, Dependable, GoodRow, WithRows, LastRow, GoldenFile;
    var drawn := WithRows(lib, [], draws);
    var g := BlessedGolden(previous, host, drawn, filtered);
    assert Sound(lib, []);
    WithRowsSound(lib, [], draws);
    SpreadSound(lib, if previous.Usable? && previous.golden.Some? then previous.golden.value.stills else [], drawn);
    SpreadSound(lib, [], drawn);
    assert Sound(lib, g.stills);
    h := ReadWritten(lib, g);
    forall k ensures ValueAt(h.stills, k) == if LastRow(lib, draws, k).Some? then LastRow(lib, draws, k)
                                             else KeptRow(previous, host, filtered, k) {
      BlessedExact(previous, host, drawn, filtered, k);
      WithRowsAt(lib, draws, k);
    }
  }

  /** Reading the golden a run blessed: this host, and at each key the last passing draw's row; at keys the run did not pass,
      nothing for a whole run, and for a filtered run what this host's golden held. */
  lemma BlessThenRead(lib: Libraries, file: Option<Bytes>, host: Str, draws: seq<Draw>, filtered: bool) returns (h: StillGolden)
    requires Dependable(lib)
    ensures ReadGolden(lib, Some(RunFile(lib, file, host, draws, filtered))) == Usable(Some(h))
    ensures Tells(lib, ReadGolden(lib, file), host, draws, filtered, h)
  {
    hide ReadGolden, Dependable, Sound, GoldenFile, Tells;
    ReadSound(lib, file);
    h := BlessedReads(lib, ReadGolden(lib, file), host, draws, filtered);
  }

  // ---- a run, kind after kind

  lemma {:induction false} WithRowsTwice(lib: Libraries, rows: seq<Keyed<GoldenRow>>, first: seq<Draw>, later: seq<Draw>)
    ensures WithRows(lib, WithRows(lib, rows, first), later) == WithRows(lib, rows, first + later)
  {
    hide Passes;
    if later == [] {
      assert first + later == first;
    } else {
      WithRowsTwice(lib, rows, first, later[..|later| - 1]);
      assert (first + later)[..|first + later| - 1] == first + later[..|later| - 1];
    }
  }

  /** A run of stills over one plugin: its golden as read at the start, and the rows it would bless. */
  class StillRun {
    const lib: Libraries
    const golden: GoldenRead
    const host: Str
    const bless: bool
    const filtered: bool
    var blessed: seq<Keyed<GoldenRow>>
    /** Every draw of the run so far, kind after kind. */
    ghost var drawn: seq<Draw>

    ghost predicate Valid()
      reads this
    {
      && blessed == (if bless then WithRows(lib, [], drawn) else [])
      && (Dependable(lib) ==> GoldenRows(lib, golden))
    }

    /** `openStills`. */
    constructor (lib: Libraries, file: Option<Bytes>, host: Str, bless: bool, filtered: bool)
      ensures Valid() && this.lib == lib && golden == ReadGolden(lib, file) && this.host == host
      ensures this.bless == bless && this.filtered == filtered && drawn == []
    {
      this.lib, this.host, this.bless, this.filtered := lib, host, bless, filtered;
      golden := ReadGolden(lib, file);
      blessed, drawn := [], [];
      if Dependable(lib) {
        ReadSound(lib, file);
      }
    }

    /** `kind`: every draw of one kind judged, and where the run blesses, the rows of those that pass. */
    method Kind(draws: seq<Draw>) returns (rows: seq<Verdict>)
      requires Valid()
      modifies this
      ensures Valid() && drawn == old(drawn) + draws
      ensures |rows| == |draws| && forall i | 0 <= i < |draws| :: rows[i] == JudgeDraw(lib, draws[i], golden, bless)
    {
      hide Measured, Judge, Passes, Put, RowOfDraw, KeyOf, ReadGolden;
      rows := [];
      for i := 0 to |draws|
        invariant drawn == old(drawn)
        invariant |rows| == i && forall j | 0 <= j < i :: rows[j] == JudgeDraw(lib, draws[j], golden, bless)
        invariant blessed == if bless then WithRows(lib, old(blessed), draws[..i]) else old(blessed)
      {
        var d := draws[i];
        var m := MeasureStill(d.a, d.b, d.bare, d.frame);
        var verdict := Judge(m, KeyOf(d), RowOfDraw(lib, d), golden, bless);
        JudgeExact(lib, d, golden, bless);
        rows := rows + [verdict];
        if verdict.Blessed? {
          blessed := Put(blessed, KeyOf(d), verdict.row);
        }
        assert draws[..i + 1][..i] == draws[..i];
      }
      assert draws[..|draws|] == draws;
      WithRowsTwice(lib, [], old(drawn), draws);
      drawn := drawn + draws;
    }

    /** `close`: where the run blesses, the golden's new bytes. They read back as this host's golden of all the run drew, of
        however many kinds. */
    method Close() returns (file: Option<Bytes>)
      requires Valid()
      ensures file.Some? <==> bless
      ensures bless && Dependable(lib) ==>
        exists h :: ReadGolden(lib, file) == Usable(Some(h)) && Tells(lib, golden, host, drawn, filtered, h)
      ensures forall earlier | bless && golden == ReadGolden(lib, earlier) :: file == Some(RunFile(lib, earlier, host, drawn, filtered))
    {
      hide ReadGolden, Dependable, GoldenRows, BlessedGolden, GoldenFile, Tells;
      file := if bless then Some(GoldenFile(BlessedGolden(golden, host, blessed, filtered))) else None;
      if bless && Dependable(lib) {
        ghost var h := BlessedReads(lib, golden, host, drawn, filtered);
      }
    }
  }

  lemma {:induction false} PassedHasRow(lib: Libraries, draws: seq<Draw>, d: Draw)
    requires d in draws && Passes(d)
    ensures LastRow(lib, draws, KeyOf(d)).Some?
  {
    hide Passes;
    var e := draws[|draws| - 1];
    if e != d {
      assert draws == draws[..|draws| - 1] + [e];
      PassedHasRow(lib, draws[..|draws| - 1], d);
    }
  }

  /** Bless, then hold: a still that passed is held to the golden exactly when the last passing draw at its key had its size
      and digest. */
  lemma HeldExact(lib: Libraries, file: Option<Bytes>, host: Str, draws: seq<Draw>, filtered: bool, d: Draw)
    requires Dependable(lib) && d in draws && Passes(d)
    ensures var again := ReadGolden(lib, Some(RunFile(lib, file, host, draws, filtered)));
      JudgeDraw(lib, d, again, false) == Held <==> LastRow(lib, draws, KeyOf(d)) == Some(RowOfDraw(lib, d))
  {
    hide ReadGolden, RunFile, Dependable, Measured, RowOfDraw, KeyOf;
    var h := BlessThenRead(lib, file, host, draws, filtered);
    PassedHasRow(lib, draws, d);
  }

  /** No two draws of the run share a kind, a state and a theme. */
  predicate DrawnOnce(draws: seq<Draw>) {
    forall i, j | 0 <= i < j < |draws| :: KeyOf(draws[i]) != KeyOf(draws[j])
  }

  lemma {:induction false} LastRowOnce(lib: Libraries, draws: seq<Draw>, i: nat)
    requires DrawnOnce(draws) && i < |draws| && Passes(draws[i])
    ensures LastRow(lib, draws, KeyOf(draws[i])) == Some(RowOfDraw(lib, draws[i]))
  {
    hide Passes, KeyOf, RowOfDraw;
    if i < |draws| - 1 {
      LastRowOnce(lib, draws[..|draws| - 1], i);
    }
  }

  /** Every still of a run passes again, from the same pixels, against the golden the run blessed. */
  lemma BlessThenHold(lib: Libraries, file: Option<Bytes>, host: Str, draws: seq<Draw>, filtered: bool, i: nat)
    requires Dependable(lib) && DrawnOnce(draws) && i < |draws|
    ensures var again := ReadGolden(lib, Some(RunFile(lib, file, host, draws, filtered)));
      JudgeDraw(lib, draws[i], again, false) == Held <==> JudgeDraw(lib, draws[i], ReadGolden(lib, file), true).Blessed?
  {
    hide ReadGolden, RunFile, Dependable, Measured, RowOfDraw, KeyOf, DrawnOnce;
    if Passes(draws[i]) {
      HeldExact(lib, file, host, draws, filtered, draws[i]);
      LastRowOnce(lib, draws, i);
    }
  }

  // ---- the keys

  lemma ThemeNames()
    ensures Free(Lit("day"), COLON) && Free(Lit("night"), COLON) && Lit("day")[0] != Lit("night")[0]
  {
  }

  /** Keys are equal exactly when the themes are and `kind:state` reads the same; with no colon in a state, exactly when all
      three parts agree. */
  lemma StillKeyExact(k: Str, s: Str, t: Theme, l: Str, r: Str, u: Theme)
    ensures StillKey(k, s, t) == StillKey(l, r, u) <==> t == u && k + ([COLON] + s) == l + ([COLON] + r)
    ensures Free(s, COLON) && Free(r, COLON) ==> (StillKey(k, s, t) == StillKey(l, r, u) <==> k == l && s == r && t == u)
  {
    hide Free;
    ThemeNames();
    var p, q := k + ([COLON] + s), l + ([COLON] + r);
    assert StillKey(k, s, t) == p + ([COLON] + ThemeName(t)) && StillKey(l, r, u) == q + ([COLON] + ThemeName(u));
    if StillKey(k, s, t) == StillKey(l, r, u) {
      LastSeparator(COLON, p, ThemeName(t), q, ThemeName(u));
    }
    if Free(s, COLON) && Free(r, COLON) && p == q {
      LastSeparator(COLON, k, s, l, r);
    }
  }

  /** The gap: with colons in a state's name two different stills share a key. */
  lemma StillKeysCollide()
    ensures StillKey(Lit("a"), Lit("b:c"), Day) == StillKey(Lit("a:b"), Lit("c"), Day) && Lit("a") != Lit("a:b")
  {
    assert Lit("a") + ([COLON] + Lit("b:c")) == Lit("a:b") + ([COLON] + Lit("c"));
    StillKeyExact(Lit("a"), Lit("b:c"), Day, Lit("a:b"), Lit("c"), Day);
  }

  // ---- the laws can be met

  ghost predicate PrintsIndented(x: Bytes, v: Json) {
    L.Sayable(v) && Utf8(Pretty(v, 0)) + [NEWLINE] == x
  }

  ghost function SourceOf(x: Bytes): (v: Json)
    requires exists v :: PrintsIndented(x, v)
    ensures PrintsIndented(x, v)
  {
    var v :| PrintsIndented(x, v); v
  }

  ghost function ParseIndented(x: Bytes): (r: Option<Json>)
    ensures r.Some? ==> L.Sayable(r.value)
  {
    if exists v :: PrintsIndented(x, v) then Some(SourceOf(x)) else None
  }

  ghost function Minimal(): Libraries {
    Libraries(_ => seq(64, _ => 0x30), x => ParseIndented(x), t => L.CountText(t))
  }

  lemma IndentedParses(v: Json)
    requires L.Sayable(v)
    ensures ReadsIndented(Minimal(), v)
  {
    var t := Utf8(Pretty(v, 0));
    assert PrintsIndented(t + [NEWLINE], v);
    var u := SourceOf(t + [NEWLINE]);
    assert Utf8(Pretty(u, 0)) == (t + [NEWLINE])[..|t|] == t;
    PrettyWellFormed(u, 0);
    PrettyWellFormed(v, 0);
    Utf8Injective(Pretty(u, 0), Pretty(v, 0));
    PrettyInjective(u, v);
  }

  lemma SayableSqueezes(v: Json)
    requires L.Sayable(v)
    ensures WellFormed(Pretty(v, 0)) && Squeeze(Pretty(v, 0), false) == Compact(v)
  {
    PrettyWellFormed(v, 0);
    SqueezePretty(v, 0);
    assert Squeeze(Pretty(v, 0) + [], false) == Compact(v) + Squeeze([], false);
    assert Pretty(v, 0) + [] == Pretty(v, 0) && Compact(v) + [] == Compact(v);
  }

  lemma MinusRefused()
    ensures ParseIndented([0x2D, NEWLINE]).None?
  {
    hide L.Sayable, Pretty, Utf8, Compact;
    var minus: Str := [0x2D];
    var file: Bytes := [0x2D, NEWLINE];
    Utf8Ascii(minus);
    forall v ensures !PrintsIndented(file, v) {
      if PrintsIndented(file, v) {
        assert Utf8(Pretty(v, 0)) == file[..1];
        SayableSqueezes(v);
        Utf8Injective(Pretty(v, 0), minus);
        assert minus + [] == minus;
        SqueezePlain(minus, []);
        L.NotMinus(v);
      }
    }
  }

  /** Unique decodability gives a parser that meets what is assumed of the libraries, and refuses a lone minus. */
  lemma DependableConsistent()
    ensures exists lib: Libraries :: Dependable(lib) && lib.parse([0x2D, NEWLINE]).None?
  {
    hide L.CountText;
    var lib := Minimal();
    forall v: Json | L.Sayable(v) ensures ReadsIndented(lib, v) {
      IndentedParses(v);
    }
    L.CountTexts();
    MinusRefused();
    assert Dependable(lib);
  }
}
