/** What a verdict of the segment verifier tells: it binds the whole history, and what a truncated file gives away. */
module VerifyLaws {
  import opened Text
  import opened Json
  import opened Canonical
  import opened Chain
  import opened Verify

  /** `file` is whole lines that read as `rs`, in a chain. */
  ghost predicate Holds(p: Platform, file: Bytes, lines: seq<Bytes>, rs: seq<Sealed>) {
    AllOneLine(lines) && file == Unlines(lines) && AllRead(p, lines, rs) && Chained(p, rs)
  }

  lemma ScanWhole(p: Platform, file: Bytes, lines: seq<Bytes>, rs: seq<Sealed>)
    requires Holds(p, file, lines, rs)
    ensures Scan(p, file, []) == Through(rs)
  {
    assert file == Unlines(lines) + [];
    ScanIsCheckLines(p, lines, [], []);
    assert [] + rs == rs;
    ThroughExact(p, lines, [], [], rs);
  }

  lemma ThroughHolds(p: Platform, file: Bytes, rs: seq<Sealed>) returns (lines: seq<Bytes>)
    requires Scan(p, file, []) == Through(rs)
    ensures Holds(p, file, lines, rs)
  {
    var split := SplitLines(file);
    lines := split.0;
    ScanIsCheckLines(p, lines, split.1, []);
    assert [] + rs == rs;
    ThroughExact(p, lines, split.1, [], rs);
    assert Unlines(lines) + [] == Unlines(lines);
  }

  /** The accepted files, from outside the scanner: without a checkpoint beside it, a file under the cap is valid exactly
      when it is a sequence of newline-ended lines, each within the record cap and parsing to a record, whose records
      form one chain from no predecessor. */
  lemma ValidExact(p: Platform, file: Bytes, maxBytes: nat, rs: seq<Sealed>)
    requires |file| <= maxBytes
    ensures var r := VerifySpec(p, Some(file), None, maxBytes);
      (r.valid && r.records == rs) <==> exists lines :: Holds(p, file, lines, rs)
  {
    var r := VerifySpec(p, Some(file), None, maxBytes);
    if r.valid && r.records == rs {
      var lines := ThroughHolds(p, file, rs);
    }
    if exists lines :: Holds(p, file, lines, rs) {
      var lines :| Holds(p, file, lines, rs);
      ScanWhole(p, file, lines, rs);
    }
  }

  // ---- the refused files

  /** What is wrong with a line after the hash `previous`. */
  ghost predicate Fails(p: Platform, raw: Bytes, previous: Option<Str>, reason: Reason) {
    match reason
    case OversizedLine => |raw| > MAX_AUDIT_RECORD_BYTES
    case InvalidRecord => |raw| <= MAX_AUDIT_RECORD_BYTES && forall r: Sealed :: !Reads(p, raw, r)
    case BrokenChain => exists r: Sealed :: Reads(p, raw, r) && !Linked(p, r, previous)
    case _ => false
  }

  /** What is wrong with the bytes after the last newline. */
  predicate TailFails(tail: Bytes, reason: Reason) {
    match reason
    case OversizedLine => |tail| > MAX_AUDIT_RECORD_BYTES
    case PartialLine => 0 < |tail| <= MAX_AUDIT_RECORD_BYTES
    case _ => false
  }

  /** The record a line within the cap reads as, where it parses. */
  function ReadAs(p: Platform, raw: Bytes): Option<Sealed> {
    if |raw| > MAX_AUDIT_RECORD_BYTES || p.parse(raw).None? || p.parse(raw).value.integrity.None? then None
    else
      var q := p.parse(raw).value;
      Some(Sealed(q.base, q.integrity.value.previousHash, q.integrity.value.recordHash))
  }

  lemma ReadsExact(p: Platform, raw: Bytes, r: Sealed)
    ensures Reads(p, raw, r) <==> ReadAs(p, raw) == Some(r)
  {
  }

  lemma ParsedJsonable(p: Platform, raw: Bytes)
    requires ParsesJson(p)
    ensures p.parse(raw).Some? ==> Jsonable(p.parse(raw).value.base)
  {
  }

  lemma CheckedAs(p: Platform, raw: Bytes, previous: Option<Str>)
    requires ParsesJson(p)
    ensures ReadAs(p, raw).None? ==>
      CheckLine(p, raw, previous) == Bad(if |raw| > MAX_AUDIT_RECORD_BYTES then OversizedLine else InvalidRecord)
    ensures ReadAs(p, raw).Some? && !Linked(p, ReadAs(p, raw).value, previous) ==> CheckLine(p, raw, previous) == Bad(BrokenChain)
    ensures ReadAs(p, raw).Some? && Linked(p, ReadAs(p, raw).value, previous) ==> CheckLine(p, raw, previous).Good?
  {
    hide CanonicalText, ParsesJson;
    ParsedJsonable(p, raw);
  }

  lemma LineBad(p: Platform, raw: Bytes, previous: Option<Str>, reason: Reason)
    requires ParsesJson(p)
    ensures CheckLine(p, raw, previous) == Bad(reason) <==> Fails(p, raw, previous, reason)
  {
    hide ParsesJson, CheckLine, Linked, Reads;
    CheckedAs(p, raw, previous);
    forall r: Sealed ensures Reads(p, raw, r) <==> ReadAs(p, raw) == Some(r) {
      ReadsExact(p, raw, r);
    }
    if ReadAs(p, raw).Some? {
      assert Reads(p, raw, ReadAs(p, raw).value);
    }
  }

  /** The first `n` lines read as `rs` in a chain after `seen`, and what comes next fails for `reason`. */
  ghost predicate StopsAt(p: Platform, lines: seq<Bytes>, tail: Bytes, seen: seq<Sealed>, n: nat, rs: seq<Sealed>, reason: Reason) {
    && n <= |lines| && AllRead(p, lines[..n], rs) && Chained(p, seen + rs)
    && if n < |lines| then Fails(p, lines[n], LastHash(seen + rs), reason) else TailFails(tail, reason)
  }

  lemma {:induction false} StoppedStops(p: Platform, lines: seq<Bytes>, tail: Bytes, seen: seq<Sealed>, reason: Reason)
    returns (n: nat, rs: seq<Sealed>)
    requires ParsesJson(p) && Chained(p, seen) && CheckLines(p, lines, tail, seen) == Stopped(reason)
    ensures StopsAt(p, lines, tail, seen, n, rs, reason)
    decreases |lines|
  {
    hide ParsesJson, Reads, Linked, CheckLine, Fails;
    n, rs := 0, [];
    assert seen + [] == seen;
    if lines != [] {
      var check := CheckLine(p, lines[0], LastHash(seen));
      if check.Bad? {
        LineBad(p, lines[0], LastHash(seen), reason);
      } else {
        LineGood(p, lines[0], LastHash(seen), check.record);
        ChainedSnoc(p, seen, check.record);
        n, rs := StoppedStops(p, lines[1..], tail, seen + [check.record], reason);
        n, rs := n + 1, [check.record] + rs;
        assert lines[..n][1..] == lines[1..][..n - 1];
        AllReadCons(p, lines[..n], rs);
        assert (seen + [check.record]) + rs[1..] == seen + rs;
      }
    }
  }

  lemma {:induction false} StopsStopped(p: Platform, lines: seq<Bytes>, tail: Bytes, seen: seq<Sealed>, n: nat, rs: seq<Sealed>,
                                        reason: Reason)
    requires ParsesJson(p) && StopsAt(p, lines, tail, seen, n, rs, reason)
    ensures CheckLines(p, lines, tail, seen) == Stopped(reason)
    decreases |lines|
  {
    hide ParsesJson, Reads, Linked, CheckLine, Fails, ChainHash;
    if n == 0 {
      assert seen + rs == seen;
      if lines != [] {
        LineBad(p, lines[0], LastHash(seen), reason);
      }
    } else {
      assert rs == [rs[0]] + rs[1..];
      SplitChain(p, seen, rs[0], rs[1..]);
      AllReadCons(p, lines[..n], rs);
      LineGood(p, lines[0], LastHash(seen), rs[0]);
      assert (seen + [rs[0]]) + rs[1..] == seen + rs;
      assert lines[..n][1..] == lines[1..][..n - 1];
      StopsStopped(p, lines[1..], tail, seen + [rs[0]], n - 1, rs[1..], reason);
    }
  }

  lemma ReasonOfScan(p: Platform, file: Bytes, maxBytes: nat, reason: Reason)
    requires |file| <= maxBytes
    ensures VerifySpec(p, Some(file), None, maxBytes).reason == Some(reason) <==> Scan(p, file, []) == Stopped(reason)
  {
    hide Scan;
  }

  /** The refused files, with the reason: a file of these lines and this tail is refused for `reason` exactly when, after
      some lines that read and chain, the next line, or else the tail, fails for that reason. */
  lemma RefusedExact(p: Platform, lines: seq<Bytes>, tail: Bytes, maxBytes: nat, reason: Reason)
    requires ParsesJson(p) && AllOneLine(lines) && OneLine(tail) && |Unlines(lines) + tail| <= maxBytes
    ensures VerifySpec(p, Some(Unlines(lines) + tail), None, maxBytes).reason == Some(reason)
      <==> exists n: nat, rs :: StopsAt(p, lines, tail, [], n, rs, reason)
  {
    hide ParsesJson, StopsAt, CheckLines, Scan, VerifySpec;
    ReasonOfScan(p, Unlines(lines) + tail, maxBytes, reason);
    ScanIsCheckLines(p, lines, tail, []);
    if CheckLines(p, lines, tail, []) == Stopped(reason) {
      var n, rs := StoppedStops(p, lines, tail, [], reason);
    }
    if exists n: nat, rs :: StopsAt(p, lines, tail, [], n, rs, reason) {
      var n: nat, rs :| StopsAt(p, lines, tail, [], n, rs, reason);
      StopsStopped(p, lines, tail, [], n, rs, reason);
    }
  }

  // ---- how much of a file is read

  /** A line refused the file, or bytes too many for a line: more than its end is wrong with it. */
  predicate Condemned(s: Scanned) {
    s.Stopped? && s.reason != PartialLine
  }

  /** What the first line, or the tail, does to the verdict and to the decision. */
  lemma ScanStep(p: Platform, bytes: Bytes, seen: seq<Sealed>)
    ensures var n := IndexOf(bytes, NEWLINE);
      if n == |bytes| then
        Scan(p, bytes, seen) == CheckTail(bytes, seen) && Decision(p, bytes, seen) == Smaller(n, MAX_AUDIT_RECORD_BYTES + 1)
      else
        match CheckLine(p, bytes[..n], LastHash(seen))
        case Bad(reason) => Scan(p, bytes, seen) == Stopped(reason) && Decision(p, bytes, seen) == Smaller(n, MAX_AUDIT_RECORD_BYTES) + 1
        case Good(record) =>
          && Scan(p, bytes, seen) == Scan(p, bytes[n + 1..], seen + [record])
          && Decision(p, bytes, seen) == n + 1 + Decision(p, bytes[n + 1..], seen + [record])
  {
    hide ChainHash;
  }

  lemma NoNewline(bytes: Bytes)
    requires forall i | 0 <= i < |bytes| :: bytes[i] != NEWLINE
    ensures IndexOf(bytes, NEWLINE) == |bytes|
  {
  }

  lemma CutHasNewline(bytes: Bytes, n: nat, k: nat)
    requires n == IndexOf(bytes, NEWLINE) < k <= |bytes|
    ensures IndexOf(bytes[..k], NEWLINE) == n && bytes[..k][..n] == bytes[..n] && bytes[..k][n + 1..] == bytes[n + 1..][..k - n - 1]
  {
    assert forall i | 0 <= i <= n :: bytes[..k][i] == bytes[i];
  }

  lemma BadIsCondemned(p: Platform, raw: Bytes, previous: Option<Str>)
    ensures CheckLine(p, raw, previous).Bad? ==> CheckLine(p, raw, previous).reason != PartialLine
    ensures |raw| > MAX_AUDIT_RECORD_BYTES ==> CheckLine(p, raw, previous) == Bad(OversizedLine)
  {
  }

  /** What settles a verdict: a file cut to its first `k` bytes is condemned exactly when the file is and `k` reaches its
      decision, and then for the same reason. */
  lemma {:induction false} DecisionExact(p: Platform, bytes: Bytes, seen: seq<Sealed>, k: nat)
    requires k <= |bytes|
    ensures Condemned(Scan(p, bytes[..k], seen)) <==> Condemned(Scan(p, bytes, seen)) && k >= Decision(p, bytes, seen)
    ensures Condemned(Scan(p, bytes[..k], seen)) ==> Scan(p, bytes[..k], seen) == Scan(p, bytes, seen)
    decreases |bytes|
  {
    hide ChainHash, CheckLine, Scan, Decision, IndexOf;
    var n, cut := IndexOf(bytes, NEWLINE), bytes[..k];
    ScanStep(p, bytes, seen);
    if n < |bytes| && n < k {
      CutHasNewline(bytes, n, k);
      ScanStep(p, cut, seen);
      var check := CheckLine(p, bytes[..n], LastHash(seen));
      BadIsCondemned(p, bytes[..n], LastHash(seen));
      if check.Good? {
        DecisionExact(p, bytes[n + 1..], seen + [check.record], k - n - 1);
      }
    } else {
      NoNewline(cut);
      ScanStep(p, cut, seen);
      if n < |bytes| {
        BadIsCondemned(p, bytes[..n], LastHash(seen));
      }
    }
  }

  /** A file that is not condemned is read to its end. */
  lemma {:induction false} ReadToEnd(p: Platform, bytes: Bytes, seen: seq<Sealed>)
    requires !Condemned(Scan(p, bytes, seen))
    ensures Decision(p, bytes, seen) == |bytes|
    decreases |bytes|
  {
    hide ChainHash, CheckLine, Scan, Decision, IndexOf;
    var n := IndexOf(bytes, NEWLINE);
    ScanStep(p, bytes, seen);
    if n < |bytes| {
      BadIsCondemned(p, bytes[..n], LastHash(seen));
      ReadToEnd(p, bytes[n + 1..], seen + [CheckLine(p, bytes[..n], LastHash(seen)).record]);
    }
  }

  /** The same answer but for `bytes`. */
  predicate SameVerdict(r: IntegrityResult, s: IntegrityResult) {
    r.(bytes := 0) == s.(bytes := 0)
  }

  /** The verdict does not depend on how reads split the file, unless they end before it is settled; nor do the `bytes` of
      an answer, unless a line refused the file: then they are where the first read ends at or beyond the decision. */
  lemma ReadExact(p: Platform, file: Bytes, checkpoint: Option<Bytes>, maxBytes: nat, disk: nat -> ReadResult, at: nat)
    requires |file| <= maxBytes && FirstBoundary(disk, |file|, 0, Decision(p, file, []), at)
    ensures var r, s := VerifyRead(p, Some(file), checkpoint, maxBytes, disk), VerifySpec(p, Some(file), checkpoint, maxBytes);
      SameVerdict(r, s) && r.bytes == if Scan(p, file, []).Stopped? then StoppedAt(Scan(p, file, []).reason, at) else |file|
  {
    hide Scan, Decision, CheckpointAgrees, FirstBoundary;
    ReachedExact(disk, |file|, 0, Decision(p, file, []), at);
  }

  /** Reads that end before the verdict is settled: by coming back empty at a place they reach, which reads as a partial
      line, or by throwing there. */
  lemma ReadsStuck(p: Platform, file: Bytes, checkpoint: Option<Bytes>, maxBytes: nat, disk: nat -> ReadResult, at: nat)
    requires |file| <= maxBytes && Reaches(disk, |file|, 0, at) && at < Decision(p, file, [])
    ensures disk(at) == Got(0) ==> VerifyRead(p, Some(file), checkpoint, maxBytes, disk) == Invalid(PartialLine, at)
    ensures disk(at) == Threw ==> VerifyRead(p, Some(file), checkpoint, maxBytes, disk) == Invalid(UnsafeFile, 0)
  {
    hide Scan, Decision, CheckpointAgrees, Reaches;
    StuckExact(disk, |file|, 0, Decision(p, file, []), at);
  }

  /** Two ways to split a file that a line refuses give the same answer exactly when their first reads to end at or beyond
      the decision end at the same place. */
  lemma SplitsAgree(p: Platform, file: Bytes, checkpoint: Option<Bytes>, maxBytes: nat, d: nat -> ReadResult,
                    e: nat -> ReadResult, at: nat, other: nat)
    requires |file| <= maxBytes && Condemned(Scan(p, file, [])) && Scan(p, file, []).reason != UnsafeFile
    requires ReadTo(d, |file|, 0, Decision(p, file, [])) == Reached(at)
    requires ReadTo(e, |file|, 0, Decision(p, file, [])) == Reached(other)
    ensures VerifyRead(p, Some(file), checkpoint, maxBytes, d) == VerifyRead(p, Some(file), checkpoint, maxBytes, e)
      <==> at == other
  {
    hide Scan, Decision, CheckpointAgrees, ReadTo;
  }

  /** A disk that gives `n` bytes a read. */
  function InReadsOf(n: nat): nat -> ReadResult {
    _ => Got(n)
  }

  lemma FirstRead(n: nat, size: nat, target: nat)
    requires 0 < target <= n <= size <= CHUNK_BYTES
    ensures ReadTo(InReadsOf(n), size, 0, target) == Reached(n)
  {
    assert Received(InReadsOf(n), size, 0) == n;
    assert ReadTo(InReadsOf(n), size, n, target) == Reached(n);
  }

  /** One long line, read in two ways, gives two different `bytes`. */
  lemma BytesDependOnReads(p: Platform, checkpoint: Option<Bytes>, maxBytes: nat)
    requires MAX_AUDIT_RECORD_BYTES + 2 <= maxBytes
    ensures exists file: Bytes, d: nat, e: nat ::
      VerifyRead(p, Some(file), checkpoint, maxBytes, InReadsOf(d)) == Invalid(OversizedLine, MAX_AUDIT_RECORD_BYTES + 1)
      && VerifyRead(p, Some(file), checkpoint, maxBytes, InReadsOf(e)) == Invalid(OversizedLine, MAX_AUDIT_RECORD_BYTES + 2)
  {
    hide Scan, Decision, CheckpointAgrees, IndexOf, ReadTo;
    var long := MAX_AUDIT_RECORD_BYTES + 2;
    var file: Bytes := seq(long, _ => 0x61);
    NoNewline(file);
    OversizedEitherWay(p, file, [], []);
    assert file + [] == file;
    FirstRead(MAX_AUDIT_RECORD_BYTES + 1, long, MAX_AUDIT_RECORD_BYTES + 1);
    FirstRead(long, long, MAX_AUDIT_RECORD_BYTES + 1);
    assert VerifyRead(p, Some(file), checkpoint, maxBytes, InReadsOf(MAX_AUDIT_RECORD_BYTES + 1))
      == Invalid(OversizedLine, MAX_AUDIT_RECORD_BYTES + 1);
    assert VerifyRead(p, Some(file), checkpoint, maxBytes, InReadsOf(long)) == Invalid(OversizedLine, long);
  }

  lemma ReadRecordsValid(p: Platform, lines: seq<Bytes>, rs: seq<Sealed>)
    requires ParsesJson(p) && AllRead(p, lines, rs)
    ensures ValidRecords(rs)
  {
    forall i | 0 <= i < |rs| ensures Valid(rs[i].base) {
      assert Reads(p, lines[i], rs[i]);
    }
  }

  lemma AcceptedChain(p: Platform, f: Bytes, c: Option<Bytes>, maxBytes: nat)
    requires Hashes(p) && ParsesJson(p) && VerifySpec(p, Some(f), c, maxBytes).valid
    ensures var r := VerifySpec(p, Some(f), c, maxBytes);
      Chained(p, r.records) && ValidRecords(r.records) && r.lastHash == LastHash(r.records) && Hashes(p)
  {
    hide Scan, CheckLine, CheckpointAgrees;
    var rs := VerifySpec(p, Some(f), c, maxBytes).records;
    var lines := ThroughHolds(p, f, rs);
    ReadRecordsValid(p, lines, rs);
  }

  lemma OneHash(p: Platform, a: seq<Sealed>, b: seq<Sealed>)
    requires Hashes(p) && Chained(p, a) && Chained(p, b) && ValidRecords(a) && ValidRecords(b) && NoCollision(p, a, b)
    ensures LastHash(a) == LastHash(b) <==> SameHistory(a, b)
  {
    if LastHash(a) == LastHash(b) {
      LastHashBinds(p, a, b);
    } else if SameHistory(a, b) {
      HistoryDetermines(p, a, b);
    }
  }

  /** Two files the verifier accepts with one last hash hold the same records in the same order, up to the key order
      inside a record, unless two of the records hashed are a SHA-256 collision. */
  lemma OneLastHashOneHistory(p: Platform, f: Bytes, g: Bytes, c: Option<Bytes>, d: Option<Bytes>, maxBytes: nat)
    requires Hashes(p) && ParsesJson(p)
    requires VerifySpec(p, Some(f), c, maxBytes).valid && VerifySpec(p, Some(g), d, maxBytes).valid
    requires NoCollision(p, VerifySpec(p, Some(f), c, maxBytes).records, VerifySpec(p, Some(g), d, maxBytes).records)
    ensures var r, s := VerifySpec(p, Some(f), c, maxBytes), VerifySpec(p, Some(g), d, maxBytes);
      r.lastHash == s.lastHash <==> SameHistory(r.records, s.records)
  {
    AcceptedChain(p, f, c, maxBytes);
    AcceptedChain(p, g, d, maxBytes);
    OneHash(p, VerifySpec(p, Some(f), c, maxBytes).records, VerifySpec(p, Some(g), d, maxBytes).records);
  }

  // ---- truncation

  lemma AllReadPrefix(p: Platform, lines: seq<Bytes>, rs: seq<Sealed>, n: nat)
    requires AllRead(p, lines, rs) && n <= |rs|
    ensures AllRead(p, lines[..n], rs[..n])
  {
    forall i | 0 <= i < n ensures Reads(p, lines[..n][i], rs[..n][i]) {
      assert Reads(p, lines[i], rs[i]);
    }
  }

  lemma {:induction false} UnlinesPrefix(lines: seq<Bytes>, n: nat)
    requires n <= |lines|
    ensures |Unlines(lines[..n])| <= |Unlines(lines)|
    ensures Unlines(lines) == Unlines(lines[..n]) + Unlines(lines[n..])
  {
    if n > 0 {
      UnlinesPrefix(lines[1..], n - 1);
      assert lines[..n][1..] == lines[1..][..n - 1] && lines[1..][n - 1..] == lines[n..];
      assert lines[0] + ([NEWLINE] + (Unlines(lines[1..][..n - 1]) + Unlines(lines[n..])))
          == (lines[0] + ([NEWLINE] + Unlines(lines[1..][..n - 1]))) + Unlines(lines[n..]);
    } else {
      assert lines[..0] == [] && lines[0..] == lines;
    }
  }

  lemma {:induction false} NatTextInjective(m: nat, n: nat)
    requires NatText(m) == NatText(n)
    ensures m == n
  {
    var s, t := NatText(m), NatText(n);
    assert s[|s| - 1] == Digit(m % 10) && t[|t| - 1] == Digit(n % 10);
    assert (m >= 10 <==> |s| > 1) && (n >= 10 <==> |t| > 1);
    if m >= 10 {
      assert s[..|s| - 1] == NatText(m / 10) && t[..|t| - 1] == NatText(n / 10);
      NatTextInjective(m / 10, n / 10);
    }
  }

  /** A checkpoint value agrees with one record count, one size, one digest, one first hash and one last hash. */
  lemma CheckpointPins(v: Json, rs: seq<Sealed>, b: nat, d: Str, rs': seq<Sealed>, b': nat, d': Str)
    requires CheckpointAgrees(v, rs, b, d) && CheckpointAgrees(v, rs', b', d')
    ensures |rs| == |rs'| && b == b' && d == d'
    ensures rs != [] ==> rs[0].recordHash == rs'[0].recordHash && rs[|rs| - 1].recordHash == rs'[|rs| - 1].recordHash
  {
    NatTextInjective(|rs|, |rs'|);
    NatTextInjective(b, b');
  }

  /** What a good answer says beside its records: the first one's hash and the last one's, or none without records, and the
      file's size. */
  lemma AnswerExact(p: Platform, file: Bytes, checkpoint: Option<Bytes>, maxBytes: nat, disk: nat -> ReadResult)
    requires VerifyRead(p, Some(file), checkpoint, maxBytes, disk).valid
    ensures var r := VerifyRead(p, Some(file), checkpoint, maxBytes, disk);
      && r.reason.None? && r.bytes == |file|
      && (r.records == [] ==> r.firstHash.None? && r.lastHash.None?)
      && (r.records != [] ==> r.firstHash == Some(r.records[0].recordHash))
      && (r.records != [] ==> r.lastHash == Some(r.records[|r.records| - 1].recordHash))
  {
    hide Scan, Decision, CheckpointAgrees, ReadTo;
  }

  /** Bytes that are read as a JSON object or array. */
  predicate ReadableObject(p: Platform, checkpoint: Bytes) {
    |checkpoint| <= MAX_CHECKPOINT_BYTES && p.parseJson(checkpoint).Some?
    && (p.parseJson(checkpoint).value.Obj? || p.parseJson(checkpoint).value.Arr?)
  }

  /** What the checkpoint path decides of a file whose lines are all good: nothing there leaves it valid, what is too large,
      does not parse or is no object is an invalid checkpoint. */
  lemma CheckpointVerdicts(p: Platform, file: Bytes, checkpoint: Option<Bytes>, maxBytes: nat, rs: seq<Sealed>)
    requires |file| <= maxBytes && Scan(p, file, []) == Through(rs)
    ensures var r := VerifySpec(p, Some(file), checkpoint, maxBytes);
      && (checkpoint.None? ==> r.valid && !r.checkpointed)
      && (checkpoint.Some? ==> r.valid == r.checkpointed)
      && (r.reason == Some(InvalidCheckpoint) <==> checkpoint.Some? && !ReadableObject(p, checkpoint.value))
      && (r.reason == Some(CheckpointMismatch) <==> checkpoint.Some? && ReadableObject(p, checkpoint.value) && !r.valid)
  {
    hide Scan, CheckpointAgrees, Decision;
  }

  lemma WithoutCheckpoint(p: Platform, file: Bytes, maxBytes: nat, rs: seq<Sealed>)
    requires |file| <= maxBytes && Scan(p, file, []) == Through(rs)
    ensures var r := VerifySpec(p, Some(file), None, maxBytes); r.valid && r.records == rs && !r.checkpointed
  {
  }

  lemma Checkpointed(p: Platform, file: Bytes, checkpoint: Bytes, maxBytes: nat, rs: seq<Sealed>)
    requires |file| <= maxBytes && Scan(p, file, []) == Through(rs)
    ensures var r := VerifySpec(p, Some(file), Some(checkpoint), maxBytes);
      && (r.checkpointed <==> r.valid)
      && (r.valid ==> r.records == rs)
      && match ReadSmallJson(p, Some(checkpoint), MAX_CHECKPOINT_BYTES)
         case Read(v) => (r.checkpointed ==> CheckpointAgrees(v, rs, |file|, p.sha256(file)))
           && ((v.Obj? || v.Arr?) && !r.checkpointed ==> r.reason == Some(CheckpointMismatch))
           && (r.checkpointed ==> v.Obj? || v.Arr?)
         case _ => !r.checkpointed
  {
  }

  /** Cutting a valid file after any of its records goes unnoticed where no checkpoint is, and is refused, for every
      proper cut, beside the checkpoint the whole file agrees with. */
  lemma TruncationNeedsCheckpoint(p: Platform, lines: seq<Bytes>, rs: seq<Sealed>, n: nat, checkpoint: Bytes, maxBytes: nat)
    requires Holds(p, Unlines(lines), lines, rs) && n <= |rs| && |Unlines(lines)| <= maxBytes
    ensures var cut := VerifySpec(p, Some(Unlines(lines[..n])), None, maxBytes);
      cut.valid && cut.records == rs[..n] && !cut.checkpointed
    ensures VerifySpec(p, Some(Unlines(lines)), Some(checkpoint), maxBytes).checkpointed && n < |rs|
      ==> VerifySpec(p, Some(Unlines(lines[..n])), Some(checkpoint), maxBytes).reason == Some(CheckpointMismatch)
  {
    hide Scan, VerifySpec, CheckpointAgrees, Reads, Linked;
    AllReadPrefix(p, lines, rs, n);
    ChainedPrefix(p, rs, n);
    UnlinesPrefix(lines, n);
    ScanWhole(p, Unlines(lines), lines, rs);
    ScanWhole(p, Unlines(lines[..n]), lines[..n], rs[..n]);
    WithoutCheckpoint(p, Unlines(lines[..n]), maxBytes, rs[..n]);
    Checkpointed(p, Unlines(lines), checkpoint, maxBytes, rs);
    Checkpointed(p, Unlines(lines[..n]), checkpoint, maxBytes, rs[..n]);
    var whole := VerifySpec(p, Some(Unlines(lines)), Some(checkpoint), maxBytes);
    var cut := VerifySpec(p, Some(Unlines(lines[..n])), Some(checkpoint), maxBytes);
    if whole.checkpointed && cut.checkpointed {
      var v := ReadSmallJson(p, Some(checkpoint), MAX_CHECKPOINT_BYTES).value;
      CheckpointPins(v, rs, |Unlines(lines)|, p.sha256(Unlines(lines)), rs[..n], |Unlines(lines[..n])|, p.sha256(Unlines(lines[..n])));
    }
  }

  /** Two files accepted beside one checkpoint are the same bytes, or a SHA-256 collision. */
  lemma CheckpointPinsFile(p: Platform, f: Bytes, g: Bytes, checkpoint: Bytes, maxBytes: nat)
    requires VerifySpec(p, Some(f), Some(checkpoint), maxBytes).checkpointed
    requires VerifySpec(p, Some(g), Some(checkpoint), maxBytes).checkpointed
    ensures |f| == |g| && p.sha256(f) == p.sha256(g)
    ensures |VerifySpec(p, Some(f), Some(checkpoint), maxBytes).records| == |VerifySpec(p, Some(g), Some(checkpoint), maxBytes).records|
  {
    var rs, ss := Scan(p, f, []).records, Scan(p, g, []).records;
    Checkpointed(p, f, checkpoint, maxBytes, rs);
    Checkpointed(p, g, checkpoint, maxBytes, ss);
    CheckpointPins(ReadSmallJson(p, Some(checkpoint), MAX_CHECKPOINT_BYTES).value, rs, |f|, p.sha256(f), ss, |g|, p.sha256(g));
  }
}
