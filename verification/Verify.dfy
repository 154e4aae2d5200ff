/** The segment verifier: a chunked line scanner that recomputes the chain, proved equal to one pass over the lines. */
module Verify {
  import opened Text
  import opened Json
  import opened Chain

  const CHUNK_BYTES: nat := 64 * 1024

  datatype Reason = UnsafeFile | ScanCap | OversizedLine | PartialLine | InvalidRecord | BrokenChain
    | InvalidCheckpoint | CheckpointMismatch

  datatype IntegrityResult = IntegrityResult(valid: bool, checkpointed: bool, records: seq<Sealed>, bytes: nat,
    firstHash: Option<Str>, lastHash: Option<Str>, reason: Option<Reason>)

  function Invalid(reason: Reason, bytes: nat): IntegrityResult {
    IntegrityResult(false, false, [], bytes, None, None, Some(reason))
  }

  // ---- one line, one pass

  datatype LineCheck = Bad(reason: Reason) | Good(record: Sealed)

  /** The verdict on one line, after the hash `previous`. A record whose canonical form throws ends in the outer catch. */
  function CheckLine(p: Platform, raw: Bytes, previous: Option<Str>): LineCheck {
    if |raw| > MAX_AUDIT_RECORD_BYTES then Bad(OversizedLine)
    else if p.parse(raw).None? || p.parse(raw).value.integrity.None? then Bad(InvalidRecord)
    else
      var q := p.parse(raw).value;
      var expected := ChainHash(p, q.base, previous);
      if expected.None? then Bad(UnsafeFile)
      else if q.integrity.value.previousHash != previous || q.integrity.value.recordHash != expected.value then Bad(BrokenChain)
      else Good(Sealed(q.base, previous, expected.value))
  }

  function IndexOf(s: Bytes, b: byte): (n: nat)
    ensures n <= |s| && (n < |s| ==> s[n] == b) && forall i | 0 <= i < n :: s[i] != b
  {
    if s == [] || s[0] == b then 0 else 1 + IndexOf(s[1..], b)
  }

  datatype Scanned = Stopped(reason: Reason) | Through(records: seq<Sealed>)

  function CheckTail(tail: Bytes, seen: seq<Sealed>): Scanned {
    if |tail| > MAX_AUDIT_RECORD_BYTES then Stopped(OversizedLine)
    else if tail != [] then Stopped(PartialLine)
    else Through(seen)
  }

  /** One pass over what is left of a file, after the records `seen`. */
  function Scan(p: Platform, bytes: Bytes, seen: seq<Sealed>): Scanned
    decreases |bytes|
  {
    var n := IndexOf(bytes, NEWLINE);
    if n == |bytes| then CheckTail(bytes, seen)
    else
      match CheckLine(p, bytes[..n], LastHash(seen))
      case Bad(reason) => Stopped(reason)
      case Good(record) => Scan(p, bytes[n + 1..], seen + [record])
  }

  /** How many bytes of a file settle its verdict: up to the newline of the first bad line, or one more than the cap of a
      long one, or all of them. */
  function Decision(p: Platform, bytes: Bytes, seen: seq<Sealed>): (k: nat)
    ensures k <= |bytes|
    decreases |bytes|
  {
    var n := IndexOf(bytes, NEWLINE);
    if n > MAX_AUDIT_RECORD_BYTES then MAX_AUDIT_RECORD_BYTES + 1
    else if n == |bytes| then n
    else
      match CheckLine(p, bytes[..n], LastHash(seen))
      case Bad(_) => n + 1
      case Good(record) => n + 1 + Decision(p, bytes[n + 1..], seen + [record])
  }

  // ---- split on newline, check each line in order

  function Unlines(lines: seq<Bytes>): Bytes {
    if lines == [] then [] else lines[0] + ([NEWLINE] + Unlines(lines[1..]))
  }

  predicate OneLine(line: Bytes) {
    forall i | 0 <= i < |line| :: line[i] != NEWLINE
  }

  predicate AllOneLine(lines: seq<Bytes>) {
    forall i | 0 <= i < |lines| :: OneLine(lines[i])
  }

  function CheckLines(p: Platform, lines: seq<Bytes>, tail: Bytes, seen: seq<Sealed>): Scanned {
    if lines == [] then CheckTail(tail, seen)
    else
      match CheckLine(p, lines[0], LastHash(seen))
      case Bad(reason) => Stopped(reason)
      case Good(record) => CheckLines(p, lines[1..], tail, seen + [record])
  }

  lemma SplitFirst(bytes: Bytes, n: nat, lines: seq<Bytes>, tail: Bytes)
    requires n < |bytes| && bytes[n] == NEWLINE && bytes[n + 1..] == Unlines(lines) + tail
    ensures bytes == Unlines([bytes[..n]] + lines) + tail
  {
    assert bytes == bytes[..n] + ([NEWLINE] + bytes[n + 1..]);
    assert ([bytes[..n]] + lines)[1..] == lines;
    assert bytes[..n] + ([NEWLINE] + (Unlines(lines) + tail)) == (bytes[..n] + ([NEWLINE] + Unlines(lines))) + tail;
  }

  /** The lines a file ends with newlines, and the bytes after its last one. */
  function SplitLines(bytes: Bytes): (r: (seq<Bytes>, Bytes))
    ensures bytes == Unlines(r.0) + r.1 && AllOneLine(r.0) && OneLine(r.1)
    decreases |bytes|
  {
    var n := IndexOf(bytes, NEWLINE);
    if n == |bytes| then ([], bytes)
    else
      var rest := SplitLines(bytes[n + 1..]);
      SplitFirst(bytes, n, rest.0, rest.1);
      ([bytes[..n]] + rest.0, rest.1)
  }

  lemma FirstNewline(line: Bytes, rest: Bytes)
    requires OneLine(line)
    ensures IndexOf(line + ([NEWLINE] + rest), NEWLINE) == |line|
  {
    var all := line + ([NEWLINE] + rest);
    var n := IndexOf(all, NEWLINE);
    assert all[|line|] == NEWLINE;
    assert forall i | 0 <= i < |line| :: all[i] == line[i];
  }

  /** The pass over the bytes is the check of the lines, for any file: no line is seen twice, skipped or joined. */
  lemma {:induction false} ScanIsCheckLines(p: Platform, lines: seq<Bytes>, tail: Bytes, seen: seq<Sealed>)
    requires AllOneLine(lines) && OneLine(tail)
    ensures Scan(p, Unlines(lines) + tail, seen) == CheckLines(p, lines, tail, seen)
    decreases |lines|
  {
    var bytes := Unlines(lines) + tail;
    if lines == [] {
      assert bytes == tail;
      assert IndexOf(tail, NEWLINE) == |tail|;
    } else {
      var rest := Unlines(lines[1..]) + tail;
      assert bytes == lines[0] + ([NEWLINE] + rest);
      assert OneLine(lines[0]);
      FirstNewline(lines[0], rest);
      assert bytes[..|lines[0]|] == lines[0] && bytes[|lines[0]| + 1..] == rest;
      match CheckLine(p, lines[0], LastHash(seen))
      case Bad(_) =>
      case Good(record) => ScanIsCheckLines(p, lines[1..], tail, seen + [record]);
    }
  }

  /** `raw` is within the cap and parses to exactly the record `r`. */
  predicate Reads(p: Platform, raw: Bytes, r: Sealed) {
    |raw| <= MAX_AUDIT_RECORD_BYTES
    && p.parse(raw) == Some(Parsed(r.base, Some(Integrity(r.previousHash, r.recordHash))))
  }

  predicate AllRead(p: Platform, lines: seq<Bytes>, rs: seq<Sealed>) {
    |rs| == |lines| && forall i {:trigger Reads(p, lines[i], rs[i])} | 0 <= i < |lines| :: Reads(p, lines[i], rs[i])
  }

  lemma LineGood(p: Platform, raw: Bytes, previous: Option<Str>, r: Sealed)
    ensures CheckLine(p, raw, previous) == Good(r) <==> Reads(p, raw, r) && Linked(p, r, previous)
  {
    hide ChainHash;
  }

  lemma SplitChain(p: Platform, seen: seq<Sealed>, r: Sealed, rs: seq<Sealed>)
    requires Chained(p, seen + ([r] + rs))
    ensures Linked(p, r, LastHash(seen))
  {
    var all := seen + ([r] + rs);
    assert Linked(p, all[|seen|], HashBefore(all, |seen|));
    assert HashBefore(all, |seen|) == LastHash(seen);
  }

  /** A file gets through exactly when nothing follows its last newline, every line is within the cap and parses, and
      the records read chain. */
  lemma {:induction false} ThroughExact(p: Platform, lines: seq<Bytes>, tail: Bytes, seen: seq<Sealed>, rs: seq<Sealed>)
    requires Chained(p, seen)
    ensures CheckLines(p, lines, tail, seen) == Through(seen + rs)
      <==> tail == [] && AllRead(p, lines, rs) && Chained(p, seen + rs)
    decreases |lines|
  {
    if lines == [] {
      assert rs == [] ==> seen + rs == seen;
      assert seen + rs == seen ==> |rs| == 0;
    } else {
      ThroughCons(p, lines, tail, seen, rs);
    }
  }

  lemma AllReadCons(p: Platform, lines: seq<Bytes>, rs: seq<Sealed>)
    requires lines != [] && rs != []
    ensures AllRead(p, lines, rs) <==> Reads(p, lines[0], rs[0]) && AllRead(p, lines[1..], rs[1..])
  {
    if AllRead(p, lines, rs) {
      assert Reads(p, lines[0], rs[0]);
      forall i | 0 <= i < |lines[1..]| ensures Reads(p, lines[1..][i], rs[1..][i]) {
        assert Reads(p, lines[i + 1], rs[i + 1]);
      }
    }
    if Reads(p, lines[0], rs[0]) && AllRead(p, lines[1..], rs[1..]) {
      forall i | 0 <= i < |lines| ensures Reads(p, lines[i], rs[i]) {
        if i > 0 {
          assert Reads(p, lines[1..][i - 1], rs[1..][i - 1]);
        }
      }
    }
  }

  lemma {:induction false} ThroughStarts(p: Platform, lines: seq<Bytes>, tail: Bytes, seen: seq<Sealed>)
    ensures CheckLines(p, lines, tail, seen).Through? ==> seen <= CheckLines(p, lines, tail, seen).records
    decreases |lines|
  {
    if lines != [] {
      match CheckLine(p, lines[0], LastHash(seen))
      case Bad(_) =>
      case Good(record) => ThroughStarts(p, lines[1..], tail, seen + [record]);
    }
  }

  lemma {:induction false} ThroughCons(p: Platform, lines: seq<Bytes>, tail: Bytes, seen: seq<Sealed>, rs: seq<Sealed>)
    requires Chained(p, seen) && lines != []
    ensures CheckLines(p, lines, tail, seen) == Through(seen + rs)
      <==> tail == [] && AllRead(p, lines, rs) && Chained(p, seen + rs)
    decreases |lines|, 0
  {
    hide Reads, ChainHash, Linked, CheckLine;
    var check := CheckLine(p, lines[0], LastHash(seen));
    if check.Good? {
      LineGood(p, lines[0], LastHash(seen), check.record);
      ChainedSnoc(p, seen, check.record);
      ThroughStarts(p, lines[1..], tail, seen + [check.record]);
      if rs != [] && rs[0] == check.record {
        ThroughExact(p, lines[1..], tail, seen + [check.record], rs[1..]);
        assert seen + [check.record] + rs[1..] == seen + rs;
        AllReadCons(p, lines, rs);
      }
    }
    if rs != [] {
      assert rs == [rs[0]] + rs[1..];
      LineGood(p, lines[0], LastHash(seen), rs[0]);
      if Chained(p, seen + rs) {
        SplitChain(p, seen, rs[0], rs[1..]);
      }
      AllReadCons(p, lines, rs);
    }
    assert check.Good? && CheckLines(p, lines, tail, seen) == Through(seen + rs) ==> rs != [] && rs[0] == check.record by {
      if check.Good? && CheckLines(p, lines, tail, seen) == Through(seen + rs) {
        assert seen + [check.record] <= seen + rs;
        assert (seen + rs)[|seen|] == (seen + [check.record])[|seen|];
      }
    }
  }

  // ---- the checkpoint

  /** `value[key]` of a JSON object or array; no key asked for here is an array's. */
  function Lookup(v: Json, key: Str): Option<Json> {
    if v.Obj? then ValueAt(v.members, key) else None
  }

  datatype SmallJson = Absent | NotReadable | Read(value: Json)

  function ReadSmallJson(p: Platform, content: Option<Bytes>, maxBytes: nat): SmallJson {
    if content.None? then Absent
    else if |content.value| > maxBytes || p.parseJson(content.value).None? then NotReadable
    else Read(p.parseJson(content.value).value)
  }

  predicate CheckpointAgrees(v: Json, records: seq<Sealed>, bytes: nat, fileSha256: Str) {
    && Lookup(v, Lit("v")) == Some(Num(Lit("1")))
    && Lookup(v, Lit("algorithm")) == Some(String(Algorithm()))
    && Lookup(v, Lit("records")) == Some(Num(NatText(|records|)))
    && Lookup(v, Lit("bytes")) == Some(Num(NatText(bytes)))
    && Lookup(v, Lit("firstHash")) == Some(HashJson(FirstHash(records)))
    && Lookup(v, Lit("lastHash")) == Some(HashJson(LastHash(records)))
    && Lookup(v, Lit("fileSha256")) == Some(String(fileSha256))
  }

  function Conclude(p: Platform, file: Bytes, checkpoint: Option<Bytes>, records: seq<Sealed>): IntegrityResult {
    var ok := IntegrityResult(true, false, records, |file|, FirstHash(records), LastHash(records), None);
    match ReadSmallJson(p, checkpoint, MAX_CHECKPOINT_BYTES)
    case Absent => ok
    case NotReadable => Invalid(InvalidCheckpoint, |file|)
    case Read(v) =>
      if !v.Obj? && !v.Arr? then Invalid(InvalidCheckpoint, |file|)
      else if !CheckpointAgrees(v, records, |file|, p.sha256(file)) then Invalid(CheckpointMismatch, |file|)
      else ok.(checkpointed := true)
  }

  /** The `bytes` of a refusal that comes at a position: none where it comes from the outer catch. */
  function StoppedAt(reason: Reason, position: nat): nat {
    if reason == UnsafeFile then 0 else position
  }

  /** What the verifier says of a segment file (None where it cannot be opened as a regular file) beside the content of
      its checkpoint path, having read no further than it must. */
  function VerifySpec(p: Platform, file: Option<Bytes>, checkpoint: Option<Bytes>, maxBytes: nat): IntegrityResult {
    if file.None? then Invalid(UnsafeFile, 0)
    else if |file.value| > maxBytes then Invalid(ScanCap, |file.value|)
    else
      match Scan(p, file.value, [])
      case Stopped(reason) => Invalid(reason, StoppedAt(reason, Decision(p, file.value, [])))
      case Through(records) => Conclude(p, file.value, checkpoint, records)
  }

  // ---- reading in chunks

  datatype ReadResult = Got(n: nat) | Threw

  /** How far reading from one position on comes: to a target, to a read that came back empty, or to one that threw. */
  datatype Reading = Reached(at: nat) | CutShort(at: nat) | Failed(at: nat)

  function Smaller(m: nat, n: nat): nat { if m < n then m else n }

  /** How many bytes a read at `position` brings, of the chunk asked. */
  function Received(disk: nat -> ReadResult, size: nat, position: nat): nat
    requires position < size && disk(position).Got?
  {
    Smaller(disk(position).n, Smaller(CHUNK_BYTES, size - position))
  }

  /** Reads one after another until `target` bytes are there. */
  function ReadTo(disk: nat -> ReadResult, size: nat, position: nat, target: nat): Reading
    requires position <= size
    decreases size - position
  {
    if position >= target then Reached(position)
    else if position == size then CutShort(position)
    else if disk(position).Threw? then Failed(position)
    else if Received(disk, size, position) == 0 then CutShort(position)
    else ReadTo(disk, size, position + Received(disk, size, position), target)
  }

  /** Reads from `position` on, one after another, end at `k`. */
  predicate Reaches(disk: nat -> ReadResult, size: nat, position: nat, k: nat)
    requires position <= size
    decreases size - position
  {
    position == k
    || (position < size && disk(position).Got? && Received(disk, size, position) > 0
        && Reaches(disk, size, position + Received(disk, size, position), k))
  }

  lemma {:induction false} ReachesBeyond(disk: nat -> ReadResult, size: nat, position: nat, k: nat)
    requires position <= size && Reaches(disk, size, position, k)
    ensures position <= k <= size
    decreases size - position
  {
    if position != k {
      ReachesBeyond(disk, size, position + Received(disk, size, position), k);
    }
  }

  /** `k` is the first place from `target` on where a read ends. */
  predicate FirstBoundary(disk: nat -> ReadResult, size: nat, position: nat, target: nat, k: nat)
    requires position <= size
  {
    Reaches(disk, size, position, k) && target <= k && forall j | target <= j < k :: !Reaches(disk, size, position, j)
  }

  lemma BoundaryHere(disk: nat -> ReadResult, size: nat, position: nat, target: nat, k: nat)
    requires target <= position <= size
    ensures FirstBoundary(disk, size, position, target, k) <==> k == position
  {
    assert Reaches(disk, size, position, position);
    if Reaches(disk, size, position, k) {
      ReachesBeyond(disk, size, position, k);
    }
    forall j | target <= j < position ensures !Reaches(disk, size, position, j) {
      if Reaches(disk, size, position, j) {
        ReachesBeyond(disk, size, position, j);
      }
    }
  }

  lemma ReachesNext(disk: nat -> ReadResult, size: nat, position: nat, k: nat)
    requires position < size && position != k && disk(position).Got? && Received(disk, size, position) > 0
    ensures Reaches(disk, size, position, k) == Reaches(disk, size, position + Received(disk, size, position), k)
  {
  }

  lemma BoundaryNext(disk: nat -> ReadResult, size: nat, position: nat, target: nat, k: nat)
    requires position < size && position < target && disk(position).Got? && Received(disk, size, position) > 0
    ensures FirstBoundary(disk, size, position, target, k)
      <==> FirstBoundary(disk, size, position + Received(disk, size, position), target, k)
  {
    hide Reaches;
    var next := position + Received(disk, size, position);
    if target <= k {
      ReachesNext(disk, size, position, k);
      forall j | target <= j < k ensures Reaches(disk, size, position, j) == Reaches(disk, size, next, j) {
        ReachesNext(disk, size, position, j);
      }
      assert forall j | target <= j < k :: !Reaches(disk, size, next, j) ==> !Reaches(disk, size, position, j);
      if FirstBoundary(disk, size, position, target, k) {
        forall j | target <= j < k ensures !Reaches(disk, size, next, j) {
          assert !Reaches(disk, size, position, j);
        }
      }
    }
  }

  lemma NoBoundary(disk: nat -> ReadResult, size: nat, position: nat, target: nat, k: nat)
    requires position <= size && position < target
    requires position == size || disk(position).Threw? || Received(disk, size, position) == 0
    ensures !FirstBoundary(disk, size, position, target, k)
  {
  }

  /** Reading stops at the first place where a read ends at or beyond the target. */
  lemma {:induction false} ReachedExact(disk: nat -> ReadResult, size: nat, position: nat, target: nat, k: nat)
    requires position <= size
    ensures ReadTo(disk, size, position, target) == Reached(k) <==> FirstBoundary(disk, size, position, target, k)
    decreases size - position
  {
    hide FirstBoundary, Reaches;
    if position >= target {
      BoundaryHere(disk, size, position, target, k);
    } else if position < size && disk(position).Got? && Received(disk, size, position) > 0 {
      ReachedExact(disk, size, position + Received(disk, size, position), target, k);
      BoundaryNext(disk, size, position, target, k);
    } else {
      NoBoundary(disk, size, position, target, k);
    }
  }

  /** Reading is cut short exactly by an empty read before the target, and fails exactly by one that throws there; in both
      cases at a place that the reads before it reach. */
  lemma {:induction false} StuckExact(disk: nat -> ReadResult, size: nat, position: nat, target: nat, k: nat)
    requires position <= size && target <= size
    ensures ReadTo(disk, size, position, target) == CutShort(k)
      <==> Reaches(disk, size, position, k) && k < target && disk(k) == Got(0)
    ensures ReadTo(disk, size, position, target) == Failed(k)
      <==> Reaches(disk, size, position, k) && k < target && disk(k) == Threw
    decreases size - position
  {
    if Reaches(disk, size, position, k) {
      ReachesBeyond(disk, size, position, k);
    }
    if position < target && disk(position).Got? && Received(disk, size, position) > 0 {
      StuckExact(disk, size, position + Received(disk, size, position), target, k);
    }
  }

  datatype ScanOutcome = Refused(reason: Reason, at: nat) | Completed(records: seq<Sealed>, hashed: Bytes)

  /** What the read loop gives: the verdict of one pass, from where enough is read for it, unless reading ends before. */
  function ScanRead(p: Platform, file: Bytes, disk: nat -> ReadResult): ScanOutcome {
    match ReadTo(disk, |file|, 0, Decision(p, file, []))
    case Failed(_) => Refused(UnsafeFile, 0)
    case CutShort(at) => Refused(PartialLine, at)
    case Reached(at) =>
      match Scan(p, file, [])
      case Stopped(reason) => Refused(reason, StoppedAt(reason, at))
      case Through(records) => Completed(records, file)
  }

  /** What the verifier says of a file as `disk` gives it out. */
  function VerifyRead(p: Platform, file: Option<Bytes>, checkpoint: Option<Bytes>, maxBytes: nat, disk: nat -> ReadResult)
    : IntegrityResult
  {
    if file.None? then Invalid(UnsafeFile, 0)
    else if |file.value| > maxBytes then Invalid(ScanCap, |file.value|)
    else
      match ScanRead(p, file.value, disk)
      case Refused(reason, at) => Invalid(reason, at)
      case Completed(records, _) => Conclude(p, file.value, checkpoint, records)
  }

  // ---- the chunked scanner

  /** A newline seen in the bytes at hand is the first newline of everything still to come, so the line before it can
      be judged now. */
  lemma LineInFront(p: Platform, combined: Bytes, rest: Bytes, seen: seq<Sealed>)
    requires IndexOf(combined, NEWLINE) < |combined|
    ensures var n := IndexOf(combined, NEWLINE);
      match CheckLine(p, combined[..n], LastHash(seen))
      case Bad(reason) => Scan(p, combined + rest, seen) == Stopped(reason) && Decision(p, combined + rest, seen) <= n + 1
      case Good(record) =>
        && Scan(p, combined + rest, seen) == Scan(p, combined[n + 1..] + rest, seen + [record])
        && Decision(p, combined + rest, seen) == n + 1 + Decision(p, combined[n + 1..] + rest, seen + [record])
  {
    var n := IndexOf(combined, NEWLINE);
    var all := combined + rest;
    assert forall i | 0 <= i <= n :: all[i] == combined[i];
    assert IndexOf(all, NEWLINE) == n;
    assert all[..n] == combined[..n] && all[n + 1..] == combined[n + 1..] + rest;
  }

  /** Bytes beyond the cap without a newline are an oversized line, whatever the rest of the file turns out to be: the
      test made before the newline is seen agrees with the test made after. */
  lemma OversizedEitherWay(p: Platform, combined: Bytes, rest: Bytes, seen: seq<Sealed>)
    requires IndexOf(combined, NEWLINE) == |combined| && |combined| > MAX_AUDIT_RECORD_BYTES
    ensures Scan(p, combined + rest, seen) == Stopped(OversizedLine)
    ensures Decision(p, combined + rest, seen) == MAX_AUDIT_RECORD_BYTES + 1
  {
    assert forall i | 0 <= i < |combined| :: (combined + rest)[i] == combined[i];
  }

  /** Bytes within the cap without a newline settle nothing while bytes are still to come. */
  lemma Undecided(p: Platform, pending: Bytes, rest: Bytes, seen: seq<Sealed>)
    requires IndexOf(pending, NEWLINE) == |pending| <= MAX_AUDIT_RECORD_BYTES
    ensures rest != [] ==> Decision(p, pending + rest, seen) > |pending|
    ensures rest == [] ==> Decision(p, pending + rest, seen) == |pending|
  {
    var all := pending + rest;
    assert forall i | 0 <= i < |pending| :: all[i] == pending[i];
    assert IndexOf(all, NEWLINE) >= |pending|;
  }

  /** The lines inside the bytes at hand: the records they add and the bytes left over, or why reading stops. */
  method DrainLines(p: Platform, bytes: Bytes, before: seq<Sealed>, ghost rest: Bytes)
    returns (stop: Option<Reason>, records: seq<Sealed>, left: Bytes)
    ensures stop.Some? ==> Scan(p, bytes + rest, before) == Stopped(stop.value) && Decision(p, bytes + rest, before) <= |bytes|
    ensures stop.None? ==> Scan(p, bytes + rest, before) == Scan(p, left + rest, records)
    ensures stop.None? ==> IndexOf(left, NEWLINE) == |left| <= |bytes|
    ensures stop.None? ==> Decision(p, bytes + rest, before) == |bytes| - |left| + Decision(p, left + rest, records)
  {
    hide CheckLine, ChainHash, Scan, IndexOf, Decision;
    records := before;
    left := bytes;
    ghost var goal, needed := Scan(p, bytes + rest, before), Decision(p, bytes + rest, before);
    var newline := IndexOf(left, NEWLINE);
    while newline < |left|
      invariant newline == IndexOf(left, NEWLINE) && |left| <= |bytes|
      invariant goal == Scan(p, left + rest, records) && needed == |bytes| - |left| + Decision(p, left + rest, records)
      decreases |left|
    {
      LineInFront(p, left, rest, records);
      var check := CheckLine(p, left[..newline], LastHash(records));
      if check.Bad? {
        return Some(check.reason), records, left;
      }
      records := records + [check.record];
      left := left[newline + 1..];
      newline := IndexOf(left, NEWLINE);
    }
    return None, records, left;
  }

  lemma NextChunk(file: Bytes, position: nat, n: nat, pending: Bytes)
    requires position + n <= |file|
    ensures pending + file[position..] == (pending + file[position..position + n]) + file[position + n..]
    ensures file[..position] + file[position..position + n] == file[..position + n]
  {
  }

  lemma AtEnd(p: Platform, pending: Bytes, rest: Bytes, records: seq<Sealed>)
    requires IndexOf(pending, NEWLINE) == |pending| && rest == []
    ensures Scan(p, pending + rest, records) == CheckTail(pending, records)
  {
    assert pending + rest == pending;
  }

  /** The read loop of `verifyAuditSegment`. `disk(k)` is what the filesystem answers to a read at position k, at most
      the chunk asked. */
  method ScanFile(p: Platform, file: Bytes, disk: nat -> ReadResult) returns (r: ScanOutcome)
    ensures r == ScanRead(p, file, disk)
  {
    hide CheckLine, ChainHash, Scan, IndexOf, Decision;
    var size := |file|;
    var records: seq<Sealed> := [];
    var hashed: Bytes := [];
    var pending: Bytes := [];
    var position := 0;
    ghost var goal, rest, target := Scan(p, file, []), file, Decision(p, file, []);
    assert pending + rest == file;
    while position < size
      invariant position <= size && hashed == file[..position] && rest == file[position..]
      invariant IndexOf(pending, NEWLINE) == |pending| <= Smaller(MAX_AUDIT_RECORD_BYTES, position)
      invariant goal == Scan(p, pending + rest, records)
      invariant target == position - |pending| + Decision(p, pending + rest, records)
      invariant ReadTo(disk, size, 0, target) == ReadTo(disk, size, position, target)
    {
      Undecided(p, pending, rest, records);
      var length := if size - position < CHUNK_BYTES then size - position else CHUNK_BYTES;
      if disk(position).Threw? {
        return Refused(UnsafeFile, 0);
      }
      var bytesRead := if disk(position).n < length then disk(position).n else length;
      if bytesRead == 0 {
        return Refused(PartialLine, position);
      }
      var received := file[position..position + bytesRead];
      NextChunk(file, position, bytesRead, pending);
      hashed := hashed + received;
      position := position + bytesRead;
      rest := file[position..];
      var stop: Option<Reason>;
      stop, records, pending := DrainLines(p, pending + received, records, rest);
      if stop.Some? {
        return Refused(stop.value, StoppedAt(stop.value, position));
      }
      if |pending| > MAX_AUDIT_RECORD_BYTES {
        OversizedEitherWay(p, pending, rest, records);
        return Refused(OversizedLine, position);
      }
    }
    AtEnd(p, pending, rest, records);
    Undecided(p, pending, rest, records);
    if |pending| > 0 {
      return Refused(PartialLine, size);
    }
    return Completed(records, hashed);
  }

  /** `verifyAuditSegment`, whatever the chunks. */
  method VerifyAuditSegment(p: Platform, file: Option<Bytes>, checkpoint: Option<Bytes>, maxBytes: nat,
                            disk: nat -> ReadResult)
    returns (r: IntegrityResult)
    ensures r == VerifyRead(p, file, checkpoint, maxBytes, disk)
  {
    if file.None? {
      return Invalid(UnsafeFile, 0);
    }
    if |file.value| > maxBytes {
      return Invalid(ScanCap, |file.value|);
    }
    var outcome := ScanFile(p, file.value, disk);
    match outcome
    case Refused(reason, at) => return Invalid(reason, at);
    case Completed(records, hashed) => return Conclude(p, hashed, checkpoint, records);
  }
}
