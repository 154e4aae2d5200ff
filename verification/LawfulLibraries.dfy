/** The laws assumed of the libraries can be met: unique decodability of JSON text gives a parser that satisfies them. */
module LawfulLibraries {
  import opened Text
  import opened JsonText
  import opened Json
  import opened Chain
  import opened SegmentNames

  /** The numerals of the exact counts: the fewest a platform may have. */
  ghost predicate CountText(t: Str) {
    exists n: nat :: ExactCount(n) && t == NatText(n)
  }

  ghost predicate Sayable(v: Json) {
    Valid(v) && Plain(v) && NumeralsIn(t => CountText(t), v)
  }

  ghost predicate Decodes(bytes: Bytes, r: Sealed) {
    Storable(r.base) && Sayable(r.base) && LineBody(r) == bytes
  }

  ghost function LineSource(bytes: Bytes): (r: Sealed)
    requires exists r :: Decodes(bytes, r)
    ensures Decodes(bytes, r)
  {
    var r :| Decodes(bytes, r); r
  }

  /** The record a line was printed from, where it was printed from one. */
  ghost function ParseLine(bytes: Bytes): Option<Parsed> {
    if exists r :: Decodes(bytes, r) then
      var r := LineSource(bytes);
      Some(Parsed(r.base, Some(Integrity(r.previousHash, r.recordHash))))
    else None
  }

  ghost predicate Prints(bytes: Bytes, v: Json) {
    Sayable(v) && Utf8(Compact(v)) + [NEWLINE] == bytes
  }

  ghost function FileSource(bytes: Bytes): (v: Json)
    requires exists v :: Prints(bytes, v)
    ensures Prints(bytes, v)
  {
    var v :| Prints(bytes, v); v
  }

  ghost function ParseFile(bytes: Bytes): Option<Json> {
    if exists v :: Prints(bytes, v) then Some(FileSource(bytes)) else None
  }

  function SomeHash(bytes: Bytes): Str {
    seq(64, _ => 0x30)
  }

  ghost function Accept(j: Json): Option<Base> {
    if Storable(j) && Sayable(j) then Some(Base(j, [], 0)) else None
  }

  ghost function APlatform(): Platform {
    Platform(SomeHash, j => Accept(j), b => ParseLine(b), b => ParseFile(b), t => CountText(t))
  }

  lemma {:induction false} PlainJsonable(v: Json)
    requires Plain(v)
    ensures Jsonable(v)
  {
    match v
    case Arr(items) =>
      forall i | 0 <= i < |items| ensures Jsonable(items[i]) { PlainJsonable(items[i]); }
    case Obj(ms) =>
      forall i | 0 <= i < |ms| ensures Jsonable(ms[i].value) { PlainJsonable(ms[i].value); }
    case _ =>
  }

  /** JSON text as bytes determines the value. */
  lemma PrintedInjective(u: Json, v: Json)
    requires Valid(u) && Plain(u) && Valid(v) && Plain(v) && Utf8(Compact(u)) == Utf8(Compact(v))
    ensures u == v
  {
    CompactClean(u);
    CompactClean(v);
    Utf8Injective(Compact(u), Compact(v));
    CompactInjective(u, v);
  }

  lemma RecordPlain(r: Sealed)
    requires Storable(r.base) && Plain(r.base)
    ensures Plain(RecordJson(r.base, r.previousHash, r.recordHash))
  {
    assert Plain(IntegrityJson(r.previousHash, r.recordHash));
  }

  /** A line determines its record: base, previous hash and hash. */
  lemma LineInjective(q: Sealed, r: Sealed)
    requires Storable(q.base) && Plain(q.base) && Storable(r.base) && Plain(r.base) && LineBody(q) == LineBody(r)
    ensures q == r
  {
    RecordJsonValid(q);
    RecordJsonValid(r);
    RecordPlain(q);
    RecordPlain(r);
    var u, v := RecordJson(q.base, q.previousHash, q.recordHash), RecordJson(r.base, r.previousHash, r.recordHash);
    PrintedInjective(u, v);
    var m, n := u.members, v.members;
    assert m[..|m| - 1] == q.base.members && n[..|n| - 1] == r.base.members;
    var a, b := m[|m| - 1].value.members, n[|n| - 1].value.members;
    assert a[1].value == b[1].value && a[2].value == b[2].value;
  }

  lemma LineParses(r: Sealed)
    requires Storable(r.base) && Sayable(r.base)
    ensures ReadsBack(APlatform(), r)
  {
    assert Decodes(LineBody(r), r);
    LineInjective(LineSource(LineBody(r)), r);
  }

  lemma FileParses(v: Json)
    requires Sayable(v)
    ensures ReadsJson(APlatform(), v)
  {
    var bytes := Utf8(Compact(v)) + [NEWLINE];
    assert Prints(bytes, v);
    var u := FileSource(bytes);
    assert Utf8(Compact(u)) == bytes[..|bytes| - 1] && Utf8(Compact(v)) == bytes[..|bytes| - 1];
    PrintedInjective(u, v);
  }

  lemma CountTexts()
    ensures NumberTexts(t => CountText(t))
  {
    hide NatText;
    forall t: Str | CountText(t) ensures NumText(t) && |t| <= 32 {
      var n: nat :| ExactCount(n) && t == NatText(n);
      CountTextShort(n);
    }
  }

  lemma MinusIsNoCount(n: nat)
    ensures NatText(n) != [0x2D]
  {
    var minus: Str := [0x2D];
    NatTextValue(n);
    assert minus[0] == 0x2D;
  }

  lemma NotMinus(v: Json)
    requires Sayable(v)
    ensures Compact(v) != [0x2D]
  {
    hide NatText;
    if v.Num? {
      var n: nat :| ExactCount(n) && v.text == NatText(n);
      MinusIsNoCount(n);
    } else {
      Starts(v);
    }
  }

  lemma SayableClean(v: Json)
    requires Sayable(v)
    ensures WellFormed(Compact(v))
  {
    CompactClean(v);
  }

  /** A file that holds a minus and nothing else is not read, as no parser of JSON reads it. */
  lemma MinusRefused()
    ensures ParseFile([0x2D, NEWLINE]).None?
  {
    hide Sayable, Compact, Utf8;
    var minus: Str := [0x2D];
    var file: Bytes := [0x2D, NEWLINE];
    Utf8Ascii(minus);
    forall v ensures !Prints(file, v) {
      if Prints(file, v) {
        assert Utf8(Compact(v)) == file[..1];
        SayableClean(v);
        Utf8Injective(Compact(v), minus);
        NotMinus(v);
      }
    }
  }

  /** Nothing the other modules assume of the libraries is contradictory, and none of it asks a parser to read a text that
      is no number: a platform that refuses a lone minus meets it all. */
  lemma LawsConsistent()
    ensures exists p: Platform :: Lawful(p) && p.parseJson([0x2D, NEWLINE]).None?
  {
    var p := APlatform();
    forall j: Json, r: Sealed | p.persist(j).Some? && r.base == p.persist(j).value.json && Writable(r)
      ensures ReadsBack(p, r)
    {
      LineParses(r);
    }
    forall x: Bytes | p.parse(x).Some? ensures ParsedValue(p, p.parse(x).value.base) {
      PlainJsonable(p.parse(x).value.base);
    }
    forall x: Bytes | p.parseJson(x).Some? ensures ParsedValue(p, p.parseJson(x).value) {
      PlainJsonable(p.parseJson(x).value);
    }
    forall v: Json | Valid(v) && Plain(v) && NumeralsIn(p.numeral, v) && SmallFile(v) ensures ReadsJson(p, v) {
      FileParses(v);
    }
    CountTexts();
    MinusRefused();
    assert Lawful(p);
  }
}
