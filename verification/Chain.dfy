/** The hash chain of an audit segment, and the line a record is written as. */
module Chain {
  import opened Text
  import opened JsonText
  import opened Json
  import opened Canonical

  /** A SHA-256 digest in lowercase hex. */
  predicate IsHash(h: Str) {
    |h| == 64 && forall i | 0 <= i < 64 :: 0x30 <= h[i] < 0x3A || 0x61 <= h[i] < 0x67
  }

  datatype Integrity = Integrity(previousHash: Option<Str>, recordHash: Str)

  /** A record as the schema reads it back: its integrity member apart. */
  datatype Parsed = Parsed(base: Json, integrity: Option<Integrity>)

  /** A record base after the schema, with the two members the ledger routes by. */
  datatype Base = Base(json: Json, action: Str, time: nat)

  /** A record with its place in the chain. */
  datatype Sealed = Sealed(base: Json, previousHash: Option<Str>, recordHash: Str)

  /** What the store takes from libraries: the SHA-256 digest as hex, the schema applied to a base before it is stored
      (None where it throws), the decoding, parse and schema of one stored line, the parse of a small JSON file, and which
      texts are what a finite number prints as. A `Json` with another text in it is no JavaScript value. */
  datatype Platform = Platform(
    sha256: Bytes -> Str,
    persist: Json -> Option<Base>,
    parse: Bytes -> Option<Parsed>,
    parseJson: Bytes -> Option<Json>,
    numeral: Str -> bool)

  // ---- hashing one record

  function Tag(): Str { Lit("vibefield-audit-v1") + [0] }

  function HashText(h: Option<Str>): Str {
    if h.Some? then h.value else []
  }

  /** The bytes hashed for a record: four updates of one digest. */
  function Preimage(text: Str, previous: Option<Str>): Bytes {
    Utf8(Tag()) + (Utf8(HashText(previous)) + (Utf8([0]) + Utf8(text)))
  }

  /** `auditChainHash`, or None where the canonical form throws. */
  function ChainHash(p: Platform, base: Json, previous: Option<Str>): Option<Str> {
    var text := CanonicalAuditJson(base);
    if text.None? then None else Some(p.sha256(Preimage(text.value, previous)))
  }

  /** The four parts cannot be moved into one another: the bytes determine the previous hash and the text. */
  lemma PreimageUnique(s: Str, g: Option<Str>, t: Str, h: Option<Str>)
    requires Clean(s) && Clean(t)
    requires (g.Some? ==> IsHash(g.value)) && (h.Some? ==> IsHash(h.value))
    requires Preimage(s, g) == Preimage(t, h)
    ensures s == t && g == h
  {
    hide Utf8, Tag;
    var a, b := HashText(g), HashText(h);
    Utf8Ascii(a);
    Utf8Ascii(b);
    Utf8Ascii([0]);
    var x, y := [0] + Utf8(s), [0] + Utf8(t);
    assert a + x == Preimage(s, g)[|Utf8(Tag())|..] && b + y == Preimage(t, h)[|Utf8(Tag())|..];
    assert (a + x)[0] == if g.Some? then a[0] else 0;
    assert (b + y)[0] == if h.Some? then b[0] else 0;
    assert g.Some? <==> h.Some?;
    assert a == (a + x)[..|a|] && b == (b + y)[..|b|];
    assert x == (a + x)[|a|..] && y == (b + y)[|b|..];
    assert Utf8(s) == x[1..] && Utf8(t) == y[1..];
    Utf8Injective(s, t);
  }

  // ---- chains

  /** The hash the record at `i` must name as its predecessor's. */
  function HashBefore(rs: seq<Sealed>, i: nat): Option<Str>
    requires i <= |rs|
  {
    if i == 0 then None else Some(rs[i - 1].recordHash)
  }

  function FirstHash(rs: seq<Sealed>): Option<Str> {
    if rs == [] then None else Some(rs[0].recordHash)
  }

  function LastHash(rs: seq<Sealed>): Option<Str> {
    HashBefore(rs, |rs|)
  }

  /** `r` names `before` as its predecessor's hash, and its own hash is the one that makes. */
  predicate Linked(p: Platform, r: Sealed, before: Option<Str>) {
    r.previousHash == before && ChainHash(p, r.base, before) == Some(r.recordHash)
  }

  predicate Chained(p: Platform, rs: seq<Sealed>) {
    forall i {:trigger Linked(p, rs[i], HashBefore(rs, i))} | 0 <= i < |rs| :: Linked(p, rs[i], HashBefore(rs, i))
  }

  ghost predicate Hashes(p: Platform) {
    forall x: Bytes :: IsHash(p.sha256(x))
  }

  /** The bytes that were hashed for a record of a chain. */
  function HashedBytes(r: Sealed): Bytes {
    var text := CanonicalAuditJson(r.base);
    if text.None? then [] else Preimage(text.value, r.previousHash)
  }

  predicate NotColliding(p: Platform, r: Sealed, s: Sealed) {
    p.sha256(HashedBytes(r)) == p.sha256(HashedBytes(s)) ==> HashedBytes(r) == HashedBytes(s)
  }

  /** No record of one chain and record of the other are a SHA-256 collision. */
  predicate NoCollision(p: Platform, a: seq<Sealed>, b: seq<Sealed>) {
    forall i, j {:trigger NotColliding(p, a[i], b[j])} | 0 <= i < |a| && 0 <= j < |b| :: NotColliding(p, a[i], b[j])
  }

  predicate ValidRecords(rs: seq<Sealed>) {
    forall i {:trigger Valid(rs[i].base)} | 0 <= i < |rs| :: Valid(rs[i].base)
  }

  ghost predicate SameBase(r: Sealed, s: Sealed) {
    Meaning(r.base) == Meaning(s.base)
  }

  ghost predicate SameBases(a: seq<Sealed>, b: seq<Sealed>) {
    |a| == |b| && forall i {:trigger SameBase(a[i], b[i])} | 0 <= i < |a| :: SameBase(a[i], b[i])
  }

  predicate SameHashes(a: seq<Sealed>, b: seq<Sealed>) {
    |a| == |b| && forall i | 0 <= i < |a| ::
      a[i].previousHash == b[i].previousHash && a[i].recordHash == b[i].recordHash
  }

  /** Two chains record the same things in the same order, whatever the key order of each record. */
  ghost predicate SameHistory(a: seq<Sealed>, b: seq<Sealed>) {
    SameBases(a, b) && SameHashes(a, b)
  }

  lemma ChainedPrefix(p: Platform, rs: seq<Sealed>, n: nat)
    requires Chained(p, rs) && n <= |rs|
    ensures Chained(p, rs[..n])
  {
    forall i | 0 <= i < n ensures Linked(p, rs[..n][i], HashBefore(rs[..n], i)) {
      assert rs[..n][i] == rs[i] && HashBefore(rs[..n], i) == HashBefore(rs, i);
    }
  }

  lemma ChainedSnoc(p: Platform, rs: seq<Sealed>, r: Sealed)
    requires Chained(p, rs) && Linked(p, r, LastHash(rs))
    ensures Chained(p, rs + [r]) && LastHash(rs + [r]) == Some(r.recordHash)
  {
    var all := rs + [r];
    forall i | 0 <= i < |all| ensures Linked(p, all[i], HashBefore(all, i)) {
      if i < |rs| {
        assert all[i] == rs[i] && HashBefore(all, i) == HashBefore(rs, i);
      } else {
        assert HashBefore(all, i) == LastHash(rs);
      }
    }
  }

  /** Records at the ends of two chains, with one hash between them: the same record over the same predecessor. */
  lemma SameRecord(p: Platform, a: Sealed, b: Sealed)
    requires Hashes(p) && Valid(a.base) && Valid(b.base)
    requires a.previousHash.Some? ==> IsHash(a.previousHash.value)
    requires b.previousHash.Some? ==> IsHash(b.previousHash.value)
    requires Linked(p, a, a.previousHash) && Linked(p, b, b.previousHash) && a.recordHash == b.recordHash
    requires NotColliding(p, a, b)
    ensures SameBase(a, b) && a.previousHash == b.previousHash
  {
    CanonicalClean(a.base);
    CanonicalClean(b.base);
    PreimageUnique(CanonicalText(a.base), a.previousHash, CanonicalText(b.base), b.previousHash);
    CanonicalExact(a.base, b.base);
  }

  lemma PreviousIsHash(p: Platform, rs: seq<Sealed>, i: nat)
    requires Hashes(p) && Chained(p, rs) && i <= |rs|
    ensures HashBefore(rs, i).Some? ==> IsHash(HashBefore(rs, i).value)
  {
    if i > 0 {
      assert Linked(p, rs[i - 1], HashBefore(rs, i - 1));
    }
  }

  lemma NoCollisionPrefix(p: Platform, a: seq<Sealed>, b: seq<Sealed>, m: nat, n: nat)
    requires NoCollision(p, a, b) && m <= |a| && n <= |b|
    ensures NoCollision(p, a[..m], b[..n])
  {
    assert forall i | 0 <= i < m :: a[..m][i] == a[i];
    assert forall i | 0 <= i < n :: b[..n][i] == b[i];
  }

  lemma SameHistorySnoc(a: seq<Sealed>, b: seq<Sealed>)
    requires a != [] && b != [] && SameHistory(a[..|a| - 1], b[..|b| - 1])
    requires SameHistory([a[|a| - 1]], [b[|b| - 1]])
    ensures SameHistory(a, b)
  {
    var m := |a| - 1;
    assert |a[..m]| == |b[..|b| - 1]|;
    forall i | 0 <= i < |a|
      ensures SameBase(a[i], b[i]) && a[i].previousHash == b[i].previousHash && a[i].recordHash == b[i].recordHash
    {
      if i < m {
        assert a[i] == a[..m][i] && b[i] == b[..m][i];
      } else {
        assert a[i] == [a[m]][0] && b[i] == [b[m]][0];
      }
    }
  }

  lemma LastRecordsAgree(p: Platform, a: seq<Sealed>, b: seq<Sealed>)
    requires Hashes(p) && Chained(p, a) && Chained(p, b) && ValidRecords(a) && ValidRecords(b)
    requires NoCollision(p, a, b) && LastHash(a) == LastHash(b) && a != [] && b != []
    ensures SameHistory([a[|a| - 1]], [b[|b| - 1]]) && HashBefore(a, |a| - 1) == HashBefore(b, |b| - 1)
  {
    hide ChainHash, HashedBytes, SameBase, Valid;
    PreviousIsHash(p, a, |a| - 1);
    PreviousIsHash(p, b, |b| - 1);
    assert Linked(p, a[|a| - 1], HashBefore(a, |a| - 1)) && Linked(p, b[|b| - 1], HashBefore(b, |b| - 1));
    assert NotColliding(p, a[|a| - 1], b[|b| - 1]);
    SameRecord(p, a[|a| - 1], b[|b| - 1]);
  }

  /** The last hash binds the whole chain: unless SHA-256 collides on two of the hashed records, one last hash has one
      history behind it, of one length. */
  lemma {:induction false} LastHashBinds(p: Platform, a: seq<Sealed>, b: seq<Sealed>)
    requires Hashes(p) && Chained(p, a) && Chained(p, b) && ValidRecords(a) && ValidRecords(b)
    requires NoCollision(p, a, b) && LastHash(a) == LastHash(b)
    ensures SameHistory(a, b)
  {
    hide ChainHash, HashedBytes, SameBase, Valid;
    if a != [] && b != [] {
      var m, n := |a| - 1, |b| - 1;
      LastRecordsAgree(p, a, b);
      ChainedPrefix(p, a, m);
      ChainedPrefix(p, b, n);
      NoCollisionPrefix(p, a, b, m, n);
      assert ValidRecords(a[..m]) && ValidRecords(b[..n]);
      assert LastHash(a[..m]) == HashBefore(a, m) && LastHash(b[..n]) == HashBefore(b, n);
      LastHashBinds(p, a[..m], b[..n]);
      SameHistorySnoc(a, b);
    }
  }

  lemma SameBaseSameHash(p: Platform, a: Sealed, b: Sealed, before: Option<Str>)
    requires Linked(p, a, before) && Linked(p, b, before) && Valid(a.base) && Valid(b.base)
    requires SameBase(a, b)
    ensures a.previousHash == b.previousHash && a.recordHash == b.recordHash
  {
    CanonicalExact(a.base, b.base);
  }

  /** The chain depends on what was recorded only, never on the order of a record's keys. */
  lemma {:induction false} HistoryDetermines(p: Platform, a: seq<Sealed>, b: seq<Sealed>)
    requires Chained(p, a) && Chained(p, b) && ValidRecords(a) && ValidRecords(b) && SameBases(a, b)
    ensures SameHistory(a, b) && LastHash(a) == LastHash(b)
  {
    hide ChainHash, SameBase, Valid;
    if a != [] {
      var m := |a| - 1;
      ChainedPrefix(p, a, m);
      ChainedPrefix(p, b, m);
      assert SameBases(a[..m], b[..m]);
      HistoryDetermines(p, a[..m], b[..m]);
      assert LastHash(a[..m]) == HashBefore(a, m) && LastHash(b[..m]) == HashBefore(b, m);
      assert Linked(p, a[m], HashBefore(a, m)) && Linked(p, b[m], HashBefore(a, m));
      SameBaseSameHash(p, a[m], b[m], HashBefore(a, m));
      SameHistorySnoc(a, b);
    }
  }

  // ---- lines

  const NEWLINE: byte := 0x0A
  const MAX_AUDIT_RECORD_BYTES: nat := 16 * 1024
  const MAX_CHECKPOINT_BYTES: nat := 8 * 1024

  function Algorithm(): Str { Lit("sha256-chain-v1") }

  function IntegrityKey(): Str { Lit("integrity") }

  function HashJson(h: Option<Str>): Json {
    if h.Some? then String(h.value) else Null
  }

  function IntegrityJson(previous: Option<Str>, hash: Str): Json {
    Obj([Keyed(Lit("algorithm"), String(Algorithm())), Keyed(Lit("previousHash"), HashJson(previous)),
         Keyed(Lit("recordHash"), String(hash))])
  }

  /** The object written: the base's members, then its integrity. */
  function RecordJson(base: Json, previous: Option<Str>, hash: Str): Json {
    var ms := if base.Obj? then base.members else [];
    Obj(ms + [Keyed(IntegrityKey(), IntegrityJson(previous, hash))])
  }

  /** A line without its newline. */
  function LineBody(r: Sealed): Bytes {
    Utf8(Compact(RecordJson(r.base, r.previousHash, r.recordHash)))
  }

  function Line(r: Sealed): Bytes {
    LineBody(r) + [NEWLINE]
  }

  /** A base the writer stores: an object JavaScript can hold, without an integrity member of its own. */
  predicate Storable(base: Json) {
    base.Obj? && Valid(base) && !HasKey(base.members, IntegrityKey())
  }

  lemma RecordJsonValid(r: Sealed)
    requires Storable(r.base)
    ensures Valid(RecordJson(r.base, r.previousHash, r.recordHash))
  {
    var three := IntegrityJson(r.previousHash, r.recordHash).members;
    assert three[0].key[0] != three[1].key[0] && three[0].key[0] != three[2].key[0] && three[1].key[0] != three[2].key[0];
    assert Valid(IntegrityJson(r.previousHash, r.recordHash));
  }

  /** A line's body holds no newline, so it is one line however its strings read. */
  lemma LineBodyIsOneLine(r: Sealed)
    requires Storable(r.base)
    ensures NEWLINE !in LineBody(r)
  {
    RecordJsonValid(r);
    CompactClean(RecordJson(r.base, r.previousHash, r.recordHash));
    Utf8KeepsAscii(Compact(RecordJson(r.base, r.previousHash, r.recordHash)), NEWLINE);
  }

  // ---- what the libraries promise

  /** The line of `r` reads back as `r`, up to key order. */
  ghost predicate ReadsBack(p: Platform, r: Sealed) {
    var q := p.parse(LineBody(r));
    && q.Some? && q.value.integrity == Some(Integrity(r.previousHash, r.recordHash))
    && Meaning(q.value.base) == Meaning(r.base)
  }

  predicate HashesWellFormed(r: Sealed) {
    IsHash(r.recordHash) && (r.previousHash.Some? ==> IsHash(r.previousHash.value))
  }

  /** A record that the writer may write. */
  predicate Writable(r: Sealed) {
    Jsonable(r.base) && HashesWellFormed(r) && |Line(r)| <= MAX_AUDIT_RECORD_BYTES
  }

  predicate SmallFile(v: Json) {
    |Utf8(Compact(v)) + [NEWLINE]| <= MAX_CHECKPOINT_BYTES
  }

  ghost predicate ReadsJson(p: Platform, v: Json) {
    var q := p.parseJson(Utf8(Compact(v)) + [NEWLINE]);
    q.Some? && Meaning(q.value) == Meaning(v)
  }

  predicate ParsedValue(p: Platform, v: Json) {
    Valid(v) && Jsonable(v) && NumeralsIn(p.numeral, v)
  }

  /** What is parsed is JSON, and a JavaScript value. */
  ghost predicate ParsesJson(p: Platform) {
    && (forall x: Bytes :: p.parse(x).Some? ==> ParsedValue(p, p.parse(x).value.base))
    && (forall x: Bytes :: p.parseJson(x).Some? ==> ParsedValue(p, p.parseJson(x).value))
  }

  /** The laws of the libraries: digests are 64 hex digits; numbers print as numbers do; a stored base is an object the
      schema accepts again, so its line, where it is within the cap, parses back to it up to key order; and a small printed
      JSON file parses back, where its numbers are texts that numbers print as. */
  ghost predicate Lawful(p: Platform) {
    && Hashes(p) && NumberTexts(p.numeral) && ParsesJson(p)
    && (forall j: Json :: p.persist(j).Some? ==>
          Storable(p.persist(j).value.json) && NumeralsIn(p.numeral, p.persist(j).value.json))
    && (forall j: Json, r: Sealed :: p.persist(j).Some? && r.base == p.persist(j).value.json && Writable(r) ==> ReadsBack(p, r))
    && (forall v: Json :: Valid(v) && Plain(v) && NumeralsIn(p.numeral, v) && SmallFile(v) ==> ReadsJson(p, v))
  }
}
