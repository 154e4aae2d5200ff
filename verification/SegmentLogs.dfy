/** What a segment file holds at any moment of a run, and what the verifier says of it. */
module SegmentLogs {
  import opened Text
  import opened JsonText
  import opened Json
  import opened Canonical
  import opened Chain
  import opened Verify
  import opened VerifyLaws
  import opened SegmentNames

  /** The libraries, the calendar a Date gives (None where it refuses the time), and the boot id in file names. */
  datatype Store = Store(p: Platform, civil: nat -> Option<YearMonth>, boot: Str)

  predicate PlainText(t: Str) {
    forall i | 0 <= i < |t| :: 0x20 <= t[i] < 0x80 && t[i] != QUOTE && t[i] != BACKSLASH
  }

  ghost predicate StoreOk(s: Store) {
    Lawful(s.p) && (forall t: nat :: s.civil(t).Some? ==> s.civil(t).value.Valid())
    && Dotless(s.boot) && |s.boot| <= 64 && PlainText(s.boot)
  }

  /** The history of one segment: the records acknowledged, at most one further record of which the first `cut` bytes
      were written before the segment was given up, and the time on its checkpoint once that is in place. */
  datatype SegmentLog = SegmentLog(ledger: Ledger, period: Str, acked: seq<Sealed>, extra: Option<Sealed>, cut: nat,
    closedAt: Option<Json>)

  // ---- contents

  /** The lines of `rs`, one after another. */
  function Written(rs: seq<Sealed>): Bytes {
    if rs == [] then [] else Written(rs[..|rs| - 1]) + Line(rs[|rs| - 1])
  }

  function AllRecords(e: SegmentLog): seq<Sealed> {
    if e.extra.Some? then e.acked + [e.extra.value] else e.acked
  }

  function Torn(e: SegmentLog): Bytes {
    if e.extra.Some? && e.cut <= |Line(e.extra.value)| then Line(e.extra.value)[..e.cut] else []
  }

  function Content(e: SegmentLog): Bytes {
    Written(e.acked) + Torn(e)
  }

  /** `r` is some base as the schema stored it, and that base routes to this ledger and period. */
  ghost predicate StoredAs(s: Store, j: Json, r: Sealed, ledger: Ledger, period: Str) {
    var b := s.p.persist(j);
    b.Some? && b.value.json == r.base && LedgerForAction(b.value.action) == ledger
    && s.civil(b.value.time).Some? && Period(s.civil(b.value.time).value) == period
  }

  ghost predicate Stored(s: Store, r: Sealed, ledger: Ledger, period: Str) {
    (exists j: Json :: StoredAs(s, j, r, ledger, period)) && Jsonable(r.base) && |Line(r)| <= MAX_AUDIT_RECORD_BYTES
  }

  ghost predicate AllStored(s: Store, rs: seq<Sealed>, ledger: Ledger, period: Str) {
    forall i {:trigger Stored(s, rs[i], ledger, period)} | 0 <= i < |rs| :: Stored(s, rs[i], ledger, period)
  }

  /** Every boot id a writer puts in its names is one a store may have. */
  lemma SafeBootIdFits(value: Str)
    ensures var boot := SafeBootId(value); Dotless(boot) && 1 <= |boot| <= 64 && PlainText(boot)
  {
    var boot := SafeBootId(value);
    assert forall i | 0 <= i < |boot| :: Safe(boot[i]);
  }

  /** What a clock can answer: a number, finite or not. */
  predicate ClockTime(p: Platform, t: Json) {
    t == NonFinite || (t.Num? && p.numeral(t.text))
  }

  ghost predicate EntryOk(s: Store, e: SegmentLog) {
    && Chained(s.p, AllRecords(e)) && AllStored(s, AllRecords(e), e.ledger, e.period)
    && (e.extra.Some? ==> e.cut <= |Line(e.extra.value)|) && (e.extra.None? ==> e.cut == 0)
    && (e.closedAt.Some? ==> e.extra.None? && e.acked != [] && ClockTime(s.p, e.closedAt.value))
    && PlainText(e.period) && |e.period| <= 64
  }

  // ---- the checkpoint

  function CheckpointKeys(): (keys: seq<Str>)
    ensures |keys| == 11
  {
    [Lit("v"), Lit("algorithm"), Lit("ledger"), Lit("period"), Lit("bootId"), Lit("records"), Lit("bytes"),
     Lit("firstHash"), Lit("lastHash"), Lit("fileSha256"), Lit("closedAt")]
  }

  function CheckpointValues(s: Store, ledger: Ledger, period: Str, records: nat, bytes: nat, firstHash: Option<Str>,
                            lastHash: Option<Str>, fileSha256: Str, closedAt: Json): seq<Json>
  {
    [Num(Lit("1")), String(Algorithm()), String(LedgerName(ledger)), String(period), String(s.boot), Num(NatText(records)),
     Num(NatText(bytes)), HashJson(firstHash), HashJson(lastHash), String(fileSha256), closedAt]
  }

  function CheckpointJson(s: Store, ledger: Ledger, period: Str, records: nat, bytes: nat, firstHash: Option<Str>,
                          lastHash: Option<Str>, fileSha256: Str, closedAt: Json): Json
  {
    var values := CheckpointValues(s, ledger, period, records, bytes, firstHash, lastHash, fileSha256, closedAt);
    Obj(seq(11, i requires 0 <= i < 11 => Keyed(CheckpointKeys()[i], values[i])))
  }

  function CheckpointFile(v: Json): Bytes {
    Utf8(Compact(v)) + [NEWLINE]
  }

  /** The checkpoint of a segment that holds `acked`. */
  function CheckpointOf(s: Store, ledger: Ledger, period: Str, acked: seq<Sealed>, closedAt: Json): Bytes {
    CheckpointFile(CheckpointJson(s, ledger, period, |acked|, |Written(acked)|, FirstHash(acked), LastHash(acked),
                                  s.p.sha256(Written(acked)), closedAt))
  }

  /** The content of a segment's checkpoint path. */
  function CheckpointContent(s: Store, e: SegmentLog): Option<Bytes> {
    if e.closedAt.Some? then Some(CheckpointOf(s, e.ledger, e.period, e.acked, e.closedAt.value)) else None
  }

  // ---- lines read back

  function Bodies(rs: seq<Sealed>): (ls: seq<Bytes>)
    ensures |ls| == |rs| && forall i | 0 <= i < |rs| :: ls[i] == LineBody(rs[i])
  {
    if rs == [] then [] else Bodies(rs[..|rs| - 1]) + [LineBody(rs[|rs| - 1])]
  }

  function ReadBackOne(p: Platform, r: Sealed): Sealed {
    if p.parse(LineBody(r)).Some? then Sealed(p.parse(LineBody(r)).value.base, r.previousHash, r.recordHash) else r
  }

  /** The records the verifier makes of the lines of `rs`. */
  function ReadBack(p: Platform, rs: seq<Sealed>): (qs: seq<Sealed>)
    ensures |qs| == |rs| && forall i | 0 <= i < |rs| :: qs[i] == ReadBackOne(p, rs[i])
  {
    if rs == [] then [] else ReadBack(p, rs[..|rs| - 1]) + [ReadBackOne(p, rs[|rs| - 1])]
  }

  lemma {:induction false} UnlinesSnoc(lines: seq<Bytes>, line: Bytes)
    ensures Unlines(lines + [line]) == Unlines(lines) + (line + [NEWLINE])
  {
    var all := lines + [line];
    if lines == [] {
      assert all[1..] == [];
    } else {
      assert all[1..] == lines[1..] + [line];
      UnlinesSnoc(lines[1..], line);
      assert lines[0] + ([NEWLINE] + (Unlines(lines[1..]) + (line + [NEWLINE])))
          == (lines[0] + ([NEWLINE] + Unlines(lines[1..]))) + (line + [NEWLINE]);
    }
  }

  lemma {:induction false} WrittenIsLines(rs: seq<Sealed>)
    ensures Written(rs) == Unlines(Bodies(rs))
  {
    if rs != [] {
      WrittenIsLines(rs[..|rs| - 1]);
      UnlinesSnoc(Bodies(rs[..|rs| - 1]), LineBody(rs[|rs| - 1]));
    }
  }

  lemma WrittenSnoc(rs: seq<Sealed>, r: Sealed)
    ensures Written(rs + [r]) == Written(rs) + Line(r)
  {
    assert (rs + [r])[..|rs|] == rs;
  }

  lemma StoredReadsBack(s: Store, r: Sealed, ledger: Ledger, period: Str, before: Option<Str>)
    requires Lawful(s.p) && Stored(s, r, ledger, period) && Linked(s.p, r, before) && (before.Some? ==> IsHash(before.value))
    ensures Storable(r.base) && Reads(s.p, LineBody(r), ReadBackOne(s.p, r))
    ensures SameBase(r, ReadBackOne(s.p, r)) && Linked(s.p, ReadBackOne(s.p, r), before)
  {
    hide LineBody, Meaning, CanonicalText;
    var j: Json :| StoredAs(s, j, r, ledger, period);
    assert Writable(r);
    assert ReadsBack(s.p, r);
    CanonicalExact(r.base, ReadBackOne(s.p, r).base);
  }

  /** Every record of a segment comes back from its line as itself, in the same chain. */
  lemma SegmentReadsBack(s: Store, rs: seq<Sealed>, ledger: Ledger, period: Str)
    requires Lawful(s.p) && Chained(s.p, rs) && AllStored(s, rs, ledger, period)
    ensures AllOneLine(Bodies(rs)) && AllRead(s.p, Bodies(rs), ReadBack(s.p, rs))
    ensures Chained(s.p, ReadBack(s.p, rs)) && SameHistory(rs, ReadBack(s.p, rs))
  {
    hide Stored, LineBody, Storable, ChainHash, Meaning;
    var qs := ReadBack(s.p, rs);
    forall i | 0 <= i < |rs|
      ensures OneLine(Bodies(rs)[i]) && Reads(s.p, Bodies(rs)[i], qs[i]) && SameBase(rs[i], qs[i])
      ensures Linked(s.p, qs[i], HashBefore(qs, i))
    {
      assert Stored(s, rs[i], ledger, period) && Linked(s.p, rs[i], HashBefore(rs, i));
      PreviousIsHash(s.p, rs, i);
      StoredReadsBack(s, rs[i], ledger, period, HashBefore(rs, i));
      LineBodyIsOneLine(rs[i]);
      assert HashBefore(qs, i) == HashBefore(rs, i);
    }
  }

  /** Good lines take the scanner to whatever follows them. */
  lemma {:induction false} GoodLinesReachTail(p: Platform, lines: seq<Bytes>, tail: Bytes, seen: seq<Sealed>, rs: seq<Sealed>)
    requires AllRead(p, lines, rs) && Chained(p, seen + rs)
    ensures CheckLines(p, lines, tail, seen) == CheckTail(tail, seen + rs)
    decreases |lines|
  {
    if lines == [] {
      assert seen + rs == seen;
    } else {
      assert rs == [rs[0]] + rs[1..];
      SplitChain(p, seen, rs[0], rs[1..]);
      AllReadCons(p, lines, rs);
      LineGood(p, lines[0], LastHash(seen), rs[0]);
      assert (seen + [rs[0]]) + rs[1..] == seen + rs;
      GoodLinesReachTail(p, lines[1..], tail, seen + [rs[0]], rs[1..]);
    }
  }

  lemma ScanOfWritten(s: Store, rs: seq<Sealed>, tail: Bytes, ledger: Ledger, period: Str)
    requires Lawful(s.p) && Chained(s.p, rs) && AllStored(s, rs, ledger, period) && OneLine(tail)
    ensures Scan(s.p, Written(rs) + tail, []) == CheckTail(tail, ReadBack(s.p, rs))
    ensures SameHistory(rs, ReadBack(s.p, rs))
  {
    SegmentReadsBack(s, rs, ledger, period);
    WrittenIsLines(rs);
    ScanIsCheckLines(s.p, Bodies(rs), tail, []);
    assert [] + ReadBack(s.p, rs) == ReadBack(s.p, rs);
    GoodLinesReachTail(s.p, Bodies(rs), tail, [], ReadBack(s.p, rs));
  }

  lemma AckedOk(s: Store, e: SegmentLog)
    requires EntryOk(s, e)
    ensures Chained(s.p, e.acked) && AllStored(s, e.acked, e.ledger, e.period)
  {
    var all := AllRecords(e);
    ChainedPrefix(s.p, all, |e.acked|);
    assert all[..|e.acked|] == e.acked;
    forall i | 0 <= i < |e.acked| ensures Stored(s, e.acked[i], e.ledger, e.period) {
      assert Stored(s, all[i], e.ledger, e.period);
    }
  }

  // ---- the checkpoint agrees

  lemma {:induction false} LookupFields(ms: seq<Keyed<Json>>, key: Str)
    ensures ValueAt(ms, key).Some? <==> key in Fields(ms)
    ensures key in Fields(ms) ==> Meaning(ValueAt(ms, key).value) == Fields(ms)[key]
  {
    if ms != [] && ms[0].key != key {
      LookupFields(ms[1..], key);
    }
  }

  lemma {:induction false} LookupAt(ms: seq<Keyed<Json>>, i: nat)
    requires DistinctKeys(ms) && i < |ms|
    ensures ValueAt(ms, ms[i].key) == Some(ms[i].value)
  {
    if i > 0 {
      LookupAt(ms[1..], i - 1);
    }
  }

  /** Reading a member of a value and of another with the same meaning gives the same scalar. */
  lemma SameScalar(u: Json, v: Json, i: nat)
    requires u.Obj? && DistinctKeys(u.members) && i < |u.members| && Meaning(u) == Meaning(v)
    requires u.members[i].value.Num? || u.members[i].value.String?
    ensures Lookup(v, u.members[i].key) == Some(u.members[i].value)
  {
    LookupAt(u.members, i);
    LookupFields(u.members, u.members[i].key);
    LookupFields(v.members, u.members[i].key);
  }

  lemma KeysDistinct()
    ensures forall i, j | 0 <= i < j < 11 :: CheckpointKeys()[i] != CheckpointKeys()[j]
  {
    forall i, j | 0 <= i < j < 11 ensures CheckpointKeys()[i] != CheckpointKeys()[j] {
      var k, l := CheckpointKeys()[i], CheckpointKeys()[j];
      assert |k| != |l| || k[0] != l[0];
    }
  }

  lemma AgreesByMeaning(s: Store, l: Ledger, t: Str, rs: seq<Sealed>, b: nat, d: Str, c: Json, v: Json)
    requires rs != []
    requires Meaning(v) == Meaning(CheckpointJson(s, l, t, |rs|, b, FirstHash(rs), LastHash(rs), d, c))
    ensures CheckpointAgrees(v, rs, b, d) && v.Obj?
  {
    var u := CheckpointJson(s, l, t, |rs|, b, FirstHash(rs), LastHash(rs), d, c);
    KeysDistinct();
    SameScalar(u, v, 0);
    SameScalar(u, v, 1);
    SameScalar(u, v, 5);
    SameScalar(u, v, 6);
    SameScalar(u, v, 7);
    SameScalar(u, v, 8);
    SameScalar(u, v, 9);
  }

  // ---- the checkpoint is small

  /** A short plain key: it prints in at most 12 units. */
  predicate SmallKey(k: Str) {
    PlainText(k) && |k| <= 10
  }

  /** A value that prints in at most 66 plain units. */
  predicate SmallScalar(v: Json) {
    match v
    case Num(t) => NumText(t) && |t| <= 32
    case String(t) => PlainText(t) && |t| <= 64
    case Null | NonFinite => true
    case _ => false
  }

  predicate SmallMember(k: Keyed<Json>) {
    SmallKey(k.key) && SmallScalar(k.value)
  }

  predicate Ascii(t: Str) {
    forall i | 0 <= i < |t| :: t[i] < 0x80
  }

  lemma PlainQuoted(t: Str)
    requires PlainText(t)
    ensures Ascii(Quote(t)) && |Quote(t)| == |t| + 2
  {
    PlainQuote(t);
  }

  lemma ScalarPrints(v: Json)
    requires SmallScalar(v)
    ensures Ascii(Compact(v)) && |Compact(v)| <= 66
  {
    if v.String? {
      PlainQuoted(v.s);
    }
  }

  lemma SmallValue(k: Keyed<Json>)
    requires SmallMember(k)
    ensures Ascii(Entry(Keyed(k.key, Compact(k.value)))) && |Entry(Keyed(k.key, Compact(k.value)))| <= 79
  {
    PlainQuoted(k.key);
    ScalarPrints(k.value);
  }

  lemma {:induction false} SmallMembers(ms: seq<Keyed<Json>>)
    requires forall i | 0 <= i < |ms| :: SmallMember(ms[i])
    ensures var t := Join(Entries(CompactMembers(ms)));
      |t| <= 80 * |ms| && Ascii(t)
  {
    if ms != [] {
      SmallMembers(ms[1..]);
      SmallValue(ms[0]);
      var ks := CompactMembers(ms);
      assert ks[1..] == CompactMembers(ms[1..]);
      assert Entries(ks)[1..] == Entries(ks[1..]);
      if |ms| == 1 {
        assert Entries(ks[1..]) == [];
      }
    }
  }

  lemma CountSmall(n: nat)
    requires ExactCount(n)
    ensures SmallScalar(Num(NatText(n)))
  {
    CountTextShort(n);
  }

  lemma FirstKeysSmall()
    ensures forall i | 0 <= i < 6 :: SmallKey(CheckpointKeys()[i])
  {
  }

  lemma LastKeysSmall()
    ensures forall i | 6 <= i < 11 :: SmallKey(CheckpointKeys()[i])
  {
  }

  lemma KeysSmall()
    ensures forall i | 0 <= i < 11 :: SmallKey(CheckpointKeys()[i])
  {
    hide CheckpointKeys, SmallKey;
    FirstKeysSmall();
    LastKeysSmall();
  }

  lemma LedgerNamePlain(l: Ledger)
    ensures PlainText(LedgerName(l)) && |LedgerName(l)| <= 11
  {
  }

  lemma HashPlain(h: Str)
    requires IsHash(h)
    ensures PlainText(h) && |h| == 64
  {
  }

  lemma ValuesSmall(s: Store, l: Ledger, t: Str, n: nat, b: nat, g: Str, h: Str, d: Str, c: Json)
    requires |s.boot| <= 64 && PlainText(s.boot) && |t| <= 64 && PlainText(t) && SmallScalar(c)
    requires IsHash(g) && IsHash(h) && IsHash(d) && ExactCount(n) && ExactCount(b)
    ensures forall i | 0 <= i < 11 :: SmallScalar(CheckpointValues(s, l, t, n, b, Some(g), Some(h), d, c)[i])
  {
    CountSmall(n);
    CountSmall(b);
    LedgerNamePlain(l);
    HashPlain(g);
    HashPlain(h);
    HashPlain(d);
  }

  lemma SmallObject(ms: seq<Keyed<Json>>)
    requires |ms| <= 100 && DistinctKeys(ms) && forall i | 0 <= i < |ms| :: SmallMember(ms[i])
    ensures |CheckpointFile(Obj(ms))| <= MAX_CHECKPOINT_BYTES && Valid(Obj(ms))
  {
    SmallMembers(ms);
    Utf8Ascii(Compact(Obj(ms)));
  }

  lemma CheckpointFits(s: Store, l: Ledger, t: Str, n: nat, b: nat, g: Str, h: Str, d: Str, c: Json)
    requires |s.boot| <= 64 && PlainText(s.boot) && |t| <= 64 && PlainText(t) && SmallScalar(c)
    requires IsHash(g) && IsHash(h) && IsHash(d) && ExactCount(n) && ExactCount(b)
    ensures var v := CheckpointJson(s, l, t, n, b, Some(g), Some(h), d, c);
      |CheckpointFile(v)| <= MAX_CHECKPOINT_BYTES && Valid(v)
  {
    KeysSmall();
    KeysDistinct();
    ValuesSmall(s, l, t, n, b, g, h, d, c);
    SmallObject(CheckpointJson(s, l, t, n, b, Some(g), Some(h), d, c).members);
  }

  lemma {:induction false} WrittenLength(rs: seq<Sealed>)
    ensures |rs| <= |Written(rs)|
  {
    if rs != [] {
      WrittenLength(rs[..|rs| - 1]);
    }
  }

  lemma {:induction false} SamePrintedMembers(us: seq<Keyed<Json>>, vs: seq<Keyed<Json>>)
    requires |us| == |vs|
    requires forall i | 0 <= i < |us| :: us[i].key == vs[i].key && Compact(us[i].value) == Compact(vs[i].value)
    ensures CompactMembers(us) == CompactMembers(vs)
  {
    if us != [] {
      SamePrintedMembers(us[1..], vs[1..]);
    }
  }

  /** A clock's time as JSON says it: a non-finite one prints as null. */
  function Printed(t: Json): Json {
    if t == NonFinite then Null else t
  }

  lemma ObjectPrint(us: seq<Keyed<Json>>, vs: seq<Keyed<Json>>)
    requires CompactMembers(us) == CompactMembers(vs)
    ensures Compact(Obj(us)) == Compact(Obj(vs))
  {
  }

  lemma PrintedValues(s: Store, l: Ledger, t: Str, n: nat, b: nat, g: Str, h: Str, d: Str, c: Json)
    requires ClockTime(s.p, c)
    ensures var u, v := CheckpointValues(s, l, t, n, b, Some(g), Some(h), d, c),
                        CheckpointValues(s, l, t, n, b, Some(g), Some(h), d, Printed(c));
      |u| == |v| == 11 && forall i | 0 <= i < 11 :: Compact(u[i]) == Compact(v[i]) && Plain(v[i])
  {
    hide NatText, Quote;
    var u, v := CheckpointValues(s, l, t, n, b, Some(g), Some(h), d, c),
                CheckpointValues(s, l, t, n, b, Some(g), Some(h), d, Printed(c));
    assert u[..10] == v[..10];
    forall i | 0 <= i < 11 ensures Compact(u[i]) == Compact(v[i]) {
      assert i < 10 ==> u[i] == u[..10][i] && v[i] == v[..10][i];
    }
  }

  lemma CheckpointPrinted(s: Store, l: Ledger, t: Str, n: nat, b: nat, g: Str, h: Str, d: Str, c: Json)
    requires ClockTime(s.p, c)
    ensures var u, v := CheckpointJson(s, l, t, n, b, Some(g), Some(h), d, c),
                        CheckpointJson(s, l, t, n, b, Some(g), Some(h), d, Printed(c));
      CheckpointFile(u) == CheckpointFile(v) && Plain(v)
  {
    hide CheckpointKeys, NatText, CheckpointValues, Compact, CompactMembers;
    var us := CheckpointJson(s, l, t, n, b, Some(g), Some(h), d, c).members;
    var vs := CheckpointJson(s, l, t, n, b, Some(g), Some(h), d, Printed(c)).members;
    PrintedValues(s, l, t, n, b, g, h, d, c);
    SamePrintedMembers(us, vs);
    ObjectPrint(us, vs);
  }

  /** Every number of a checkpoint is one that JavaScript prints. */
  lemma CheckpointNumerals(s: Store, l: Ledger, t: Str, n: nat, b: nat, g: Str, h: Str, d: Str, c: Json)
    requires NumberTexts(s.p.numeral) && ClockTime(s.p, c) && ExactCount(n) && ExactCount(b)
    ensures NumeralsIn(s.p.numeral, CheckpointJson(s, l, t, n, b, Some(g), Some(h), d, Printed(c)))
  {
    hide CheckpointKeys;
    var values := CheckpointValues(s, l, t, n, b, Some(g), Some(h), d, Printed(c));
    assert Lit("1") == NatText(1);
    forall i | 0 <= i < 11 ensures NumeralsIn(s.p.numeral, values[i]) {
    }
  }

  lemma AgreesWithSame(v: Json, rs: seq<Sealed>, qs: seq<Sealed>, b: nat, d: Str)
    requires CheckpointAgrees(v, rs, b, d) && SameHashes(rs, qs)
    ensures CheckpointAgrees(v, qs, b, d)
  {
    hide Lookup, NatText;
    assert FirstHash(qs) == FirstHash(rs) && LastHash(qs) == LastHash(rs);
  }

  lemma LawsOf(s: Store)
    requires StoreOk(s)
    ensures Lawful(s.p) && Hashes(s.p) && NumberTexts(s.p.numeral) && |s.boot| <= 64 && PlainText(s.boot)
  {
  }

  lemma CheckpointReads(s: Store, v: Json)
    requires Lawful(s.p) && Valid(v) && Plain(v) && NumeralsIn(s.p.numeral, v) && |CheckpointFile(v)| <= MAX_CHECKPOINT_BYTES
    ensures ReadsJson(s.p, v)
  {
  }

  lemma FiniteClock(s: Store, c: Json)
    requires NumberTexts(s.p.numeral) && ClockTime(s.p, c)
    ensures SmallScalar(Printed(c))
  {
  }

  lemma DigestIsHash(s: Store, bytes: Bytes)
    requires Hashes(s.p)
    ensures IsHash(s.p.sha256(bytes))
  {
  }

  /** The checkpoint a close writes is read, and agrees with the records it was written for. */
  lemma CheckpointStands(s: Store, e: SegmentLog)
    requires StoreOk(s) && EntryOk(s, e) && e.closedAt.Some? && ExactCount(|Written(e.acked)|)
    ensures var read := ReadSmallJson(s.p, CheckpointContent(s, e), MAX_CHECKPOINT_BYTES);
      read.Read? && read.value.Obj? && CheckpointAgrees(read.value, e.acked, |Written(e.acked)|, s.p.sha256(Written(e.acked)))
  {
    hide CheckpointAgrees, CheckpointJson, Chained, AllStored, Lawful, Hashes, NumberTexts, Utf8, Compact, Valid, Plain;
    hide NumeralsIn;
    LawsOf(s);
    var rs, b, d, c := e.acked, |Written(e.acked)|, s.p.sha256(Written(e.acked)), e.closedAt.value;
    var v := CheckpointJson(s, e.ledger, e.period, |rs|, b, FirstHash(rs), LastHash(rs), d, Printed(c));
    AckedOk(s, e);
    PreviousIsHash(s.p, rs, 1);
    PreviousIsHash(s.p, rs, |rs|);
    DigestIsHash(s, Written(rs));
    WrittenLength(rs);
    FiniteClock(s, c);
    CheckpointFits(s, e.ledger, e.period, |rs|, b, FirstHash(rs).value, LastHash(rs).value, d, Printed(c));
    CheckpointPrinted(s, e.ledger, e.period, |rs|, b, FirstHash(rs).value, LastHash(rs).value, d, c);
    CheckpointNumerals(s, e.ledger, e.period, |rs|, b, FirstHash(rs).value, LastHash(rs).value, d, c);
    CheckpointReads(s, v);
    AgreesByMeaning(s, e.ledger, e.period, rs, b, d, Printed(c), s.p.parseJson(CheckpointFile(v)).value);
  }

  /** The checkpoint a close writes is one the verifier reads and agrees with, beside the file it was written for. */
  lemma CheckpointAccepted(s: Store, e: SegmentLog, qs: seq<Sealed>)
    requires StoreOk(s) && EntryOk(s, e) && e.closedAt.Some? && SameHistory(e.acked, qs)
    requires ExactCount(|Written(e.acked)|)
    ensures var r := Conclude(s.p, Written(e.acked), CheckpointContent(s, e), qs);
      r.valid && r.checkpointed && r.records == qs
  {
    hide CheckpointAgrees, StoreOk, EntryOk, CheckpointContent, ReadSmallJson;
    CheckpointStands(s, e);
    var read := ReadSmallJson(s.p, CheckpointContent(s, e), MAX_CHECKPOINT_BYTES);
    AgreesWithSame(read.value, e.acked, qs, |Written(e.acked)|, s.p.sha256(Written(e.acked)));
  }

  /** The members of a checkpoint that the verifier compares. */
  predicate Compared(i: nat) {
    i == 0 || i == 1 || 5 <= i <= 9
  }

  /** A member of a value with an object's meaning has that member's meaning. */
  lemma SameMember(ms: seq<Keyed<Json>>, v: Json, i: nat)
    requires DistinctKeys(ms) && i < |ms| && Meaning(v) == Meaning(Obj(ms))
    ensures Lookup(v, ms[i].key).Some? && Meaning(Lookup(v, ms[i].key).value) == Meaning(ms[i].value)
  {
    LookupAt(ms, i);
    LookupFields(ms, ms[i].key);
    LookupFields(v.members, ms[i].key);
  }

  /** A checkpoint agrees with no records and file for which a compared member should have had another value. */
  lemma ReplacedDisagrees(s: Store, l: Ledger, t: Str, rs: seq<Sealed>, b: nat, d: Str, c: Json, i: nat, other: Json, v: Json)
    requires rs != [] && i < 11 && Compared(i)
    requires var u := CheckpointJson(s, l, t, |rs|, b, FirstHash(rs), LastHash(rs), d, c);
      Meaning(other) != Meaning(u.members[i].value)
      && Meaning(v) == Meaning(Obj(u.members[i := Keyed(u.members[i].key, other)]))
    ensures !CheckpointAgrees(v, rs, b, d)
  {
    hide Meaning, NatText;
    var u := CheckpointJson(s, l, t, |rs|, b, FirstHash(rs), LastHash(rs), d, c);
    var ms := u.members[i := Keyed(u.members[i].key, other)];
    KeysDistinct();
    assert forall j | 0 <= j < 11 :: ms[j].key == CheckpointKeys()[j];
    SameMember(ms, v, i);
  }

  /** The checkpoint of a closed segment with one compared member replaced. */
  function Tampered(s: Store, e: SegmentLog, i: nat, other: Json): Json
    requires e.closedAt.Some? && i < 11
  {
    var u := CheckpointJson(s, e.ledger, e.period, |e.acked|, |Written(e.acked)|, FirstHash(e.acked), LastHash(e.acked),
                            s.p.sha256(Written(e.acked)), Printed(e.closedAt.value));
    Obj(u.members[i := Keyed(u.members[i].key, other)])
  }

  lemma HashesBack(rs: seq<Sealed>, qs: seq<Sealed>)
    requires SameHistory(rs, qs)
    ensures SameHashes(qs, rs)
  {
  }

  lemma IsObject(v: Json, u: Json)
    requires u.Obj? && Meaning(v) == Meaning(u)
    ensures v.Obj?
  {
  }

  lemma RefusedUnlessAgreed(p: Platform, file: Bytes, checkpoint: Bytes, maxBytes: nat, rs: seq<Sealed>)
    requires |file| <= maxBytes && Scan(p, file, []) == Through(rs) && ReadableObject(p, checkpoint)
    requires !CheckpointAgrees(p.parseJson(checkpoint).value, rs, |file|, p.sha256(file))
    ensures !VerifySpec(p, Some(file), Some(checkpoint), maxBytes).valid
  {
    hide Scan, CheckpointAgrees;
  }

  lemma TamperedDisagrees(s: Store, e: SegmentLog, i: nat, other: Json, v: Json)
    requires e.closedAt.Some? && e.acked != [] && i < 11 && Compared(i) && Meaning(v) == Meaning(Tampered(s, e, i, other))
    requires Meaning(other) != Meaning(CheckpointValues(s, e.ledger, e.period, |e.acked|, |Written(e.acked)|, FirstHash(e.acked),
                                                        LastHash(e.acked), s.p.sha256(Written(e.acked)), Printed(e.closedAt.value))[i])
    ensures !CheckpointAgrees(v, e.acked, |Written(e.acked)|, s.p.sha256(Written(e.acked)))
  {
    hide CheckpointAgrees, Meaning, NatText;
    ReplacedDisagrees(s, e.ledger, e.period, e.acked, |Written(e.acked)|, s.p.sha256(Written(e.acked)), Printed(e.closedAt.value), i,
                      other, v);
  }

  /** A closed segment beside its own checkpoint with any one compared member replaced by another value is refused. */
  lemma TamperedRefused(s: Store, e: SegmentLog, i: nat, other: Json, maxBytes: nat)
    requires StoreOk(s) && EntryOk(s, e) && e.closedAt.Some? && |Written(e.acked)| <= maxBytes
    requires i < 11 && Compared(i) && SmallFile(Tampered(s, e, i, other))
    requires Valid(Tampered(s, e, i, other)) && Plain(Tampered(s, e, i, other)) && NumeralsIn(s.p.numeral, Tampered(s, e, i, other))
    requires Meaning(other) != Meaning(CheckpointValues(s, e.ledger, e.period, |e.acked|, |Written(e.acked)|, FirstHash(e.acked),
                                                        LastHash(e.acked), s.p.sha256(Written(e.acked)), Printed(e.closedAt.value))[i])
    ensures VerifySpec(s.p, Some(Written(e.acked)), Some(CheckpointFile(Tampered(s, e, i, other))), maxBytes).reason
      == Some(CheckpointMismatch)
  {
    hide CheckpointAgrees, CheckpointJson, Chained, AllStored, Lawful, Valid, Plain, NumeralsIn, Utf8, Compact, Scan;
    hide Meaning;
    LawsOf(s);
    var rs, b, d, c := e.acked, |Written(e.acked)|, s.p.sha256(Written(e.acked)), Printed(e.closedAt.value);
    var file := CheckpointFile(Tampered(s, e, i, other));
    AckedOk(s, e);
    ScanOfWritten(s, rs, [], e.ledger, e.period);
    assert Written(rs) + [] == Written(rs);
    CheckpointReads(s, Tampered(s, e, i, other));
    var v, qs := s.p.parseJson(file).value, ReadBack(s.p, rs);
    TamperedDisagrees(s, e, i, other, v);
    if CheckpointAgrees(v, qs, b, d) {
      HashesBack(rs, qs);
      AgreesWithSame(v, qs, rs, b, d);
    }
    IsObject(v, Tampered(s, e, i, other));
    CheckpointVerdicts(s.p, Written(rs), Some(file), maxBytes, qs);
    RefusedUnlessAgreed(s.p, Written(rs), file, maxBytes, qs);
  }

  // ---- the verdict

  /** `cut` bytes of a segment's content survive: at least the acknowledged lines. */
  predicate Survives(e: SegmentLog, cut: nat) {
    |Written(e.acked)| <= cut <= |Content(e)|
  }

  /** The verifier on what is left of a segment: with nothing of a further line, exactly the acknowledged records, and
      checkpointed exactly when the close finished; with the whole of one further line, that record too; otherwise a
      partial line. */
  ghost predicate VerdictIs(e: SegmentLog, cut: nat, r: IntegrityResult) {
    var torn := cut - |Written(e.acked)|;
    if torn == 0 then r.valid && SameHistory(e.acked, r.records) && (r.checkpointed <==> e.closedAt.Some?)
    else if e.extra.Some? && torn == |Line(e.extra.value)| then
      r.valid && SameHistory(e.acked + [e.extra.value], r.records) && !r.checkpointed
    else !r.valid && r.reason == Some(PartialLine)
  }

  lemma CleanVerdict(s: Store, e: SegmentLog, maxBytes: nat)
    requires StoreOk(s) && EntryOk(s, e) && |Written(e.acked)| <= maxBytes && ExactCount(maxBytes)
    ensures VerdictIs(e, |Written(e.acked)|, VerifySpec(s.p, Some(Written(e.acked)), CheckpointContent(s, e), maxBytes))
  {
    hide Lawful, Scan, CheckpointOf;
    AckedOk(s, e);
    ScanOfWritten(s, e.acked, [], e.ledger, e.period);
    assert Written(e.acked) + [] == Written(e.acked);
    if e.closedAt.Some? {
      CheckpointAccepted(s, e, ReadBack(s.p, e.acked));
    }
  }

  lemma StoredIsOneLine(s: Store, r: Sealed, ledger: Ledger, period: Str)
    requires Lawful(s.p) && Stored(s, r, ledger, period)
    ensures |Line(r)| <= MAX_AUDIT_RECORD_BYTES && forall i | 0 <= i < |LineBody(r)| :: LineBody(r)[i] != NEWLINE
  {
    var j: Json :| StoredAs(s, j, r, ledger, period);
    LineBodyIsOneLine(r);
  }

  lemma TornVerdict(s: Store, e: SegmentLog, cut: nat, maxBytes: nat)
    requires StoreOk(s) && EntryOk(s, e) && e.extra.Some? && |Written(e.acked)| < cut <= |Content(e)| <= maxBytes
    ensures VerdictIs(e, cut, VerifySpec(s.p, Some(Content(e)[..cut]), None, maxBytes))
  {
    hide Stored, Utf8, CheckLine, Lawful, Scan;
    var x, w := e.extra.value, Written(e.acked);
    var torn := cut - |w|;
    var all := AllRecords(e);
    assert Content(e)[..cut] == w + Line(x)[..torn];
    if torn == |Line(x)| {
      assert Line(x)[..torn] == Line(x);
      WrittenSnoc(e.acked, x);
      ScanOfWritten(s, all, [], e.ledger, e.period);
      assert Written(all) + [] == w + Line(x)[..torn];
    } else {
      AckedOk(s, e);
      assert Stored(s, all[|e.acked|], e.ledger, e.period);
      StoredIsOneLine(s, x, e.ledger, e.period);
      assert Line(x)[..torn] == LineBody(x)[..torn];
      assert forall i | 0 <= i < torn :: Line(x)[..torn][i] == LineBody(x)[i];
      ScanOfWritten(s, e.acked, Line(x)[..torn], e.ledger, e.period);
    }
  }

  /** Crash consistency of one segment: whatever prefix of its content a crash or a power cut leaves beyond the synced
      bytes, the verifier answers as `VerdictIs` says. It never reports a broken chain, a bad record or a long line. */
  lemma SegmentVerdict(s: Store, e: SegmentLog, cut: nat, maxBytes: nat)
    requires StoreOk(s) && EntryOk(s, e) && Survives(e, cut) && |Content(e)| <= maxBytes && ExactCount(maxBytes)
    ensures VerdictIs(e, cut, VerifySpec(s.p, Some(Content(e)[..cut]), CheckpointContent(s, e), maxBytes))
  {
    if cut == |Written(e.acked)| {
      assert Content(e)[..cut] == Written(e.acked);
      CleanVerdict(s, e, maxBytes);
    } else {
      TornVerdict(s, e, cut, maxBytes);
    }
  }
}
