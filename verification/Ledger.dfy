/** The audit ledger writer: hash-chained records appended to exclusive segment files. */
module AuditLedger {
  import opened Text
  import opened Json
  import opened Chain
  import opened Verify
  import opened VerifyLaws
  import opened SegmentNames
  import opened SegmentLogs
  import opened Disk

  datatype WriterError = WriterClosed | BaseRejected | TimeRejected | NotJson | RecordTooLarge | RootFailed | OpenFailed
    | NamesExhausted | WriteFailed | SyncFailed | CloseFailed | CheckpointFailed

  datatype Result<+T> = Ok(value: T) | Err(error: WriterError)

  const NAME_ATTEMPTS: nat := 10_000

  /** A record an append answered, and the segment it went to. */
  datatype Ack = Ack(path: Str, record: Sealed)

  function AckedAt(acks: seq<Ack>, path: Str): seq<Sealed> {
    if acks == [] then []
    else
      var before := AckedAt(acks[..|acks| - 1], path);
      if acks[|acks| - 1].path == path then before + [acks[|acks| - 1].record] else before
  }

  /** What an append may answer though no step of the disk failed. */
  predicate Unforced(e: WriterError) {
    e.WriterClosed? || e.BaseRejected? || e.TimeRejected? || e.NotJson? || e.RecordTooLarge? || e.NamesExhausted?
  }

  // ---- a log and the files it describes

  predicate CheckpointInPlace(s: Store, files: map<Str, Bytes>, synced: map<Str, nat>, path: Str, e: SegmentLog) {
    var c := CheckpointPath(path);
    if e.closedAt.None? then c !in files
    else c in files && c in synced && Some(files[c]) == CheckpointContent(s, e) && synced[c] == |files[c]|
  }

  ghost predicate EntryOnDisk(s: Store, files: map<Str, Bytes>, synced: map<Str, nat>, path: Str, e: SegmentLog) {
    && IsSegmentPath(path) && path in files && path in synced
    && files[path] == Content(e) && |Written(e.acked)| <= synced[path] <= |files[path]|
    && EntryOk(s, e) && CheckpointInPlace(s, files, synced, path, e)
  }

  ghost predicate LogOnDisk(s: Store, files: map<Str, Bytes>, synced: map<Str, nat>, log: map<Str, SegmentLog>) {
    forall path {:trigger EntryOnDisk(s, files, synced, path, log[path])} | path in log ::
      EntryOnDisk(s, files, synced, path, log[path])
  }

  lemma EntryAt(s: Store, files: map<Str, Bytes>, synced: map<Str, nat>, log: map<Str, SegmentLog>, path: Str)
    requires LogOnDisk(s, files, synced, log) && path in log
    ensures EntryOnDisk(s, files, synced, path, log[path])
  {
    assert EntryOnDisk(s, files, synced, path, log[path]);
  }

  /** No checkpoint, and no partial one, stands beside a segment that is not there. */
  ghost predicate NoOrphans(files: map<Str, Bytes>) {
    forall path {:trigger CheckpointPath(path)} {:trigger PartialPath(path)} |
      IsSegmentPath(path) && (CheckpointPath(path) in files || PartialPath(path) in files) :: path in files
  }

  predicate SameAt<T(==)>(m: map<Str, T>, n: map<Str, T>, q: Str) {
    (q in m <==> q in n) && (q in m ==> m[q] == n[q])
  }

  /** Nothing changed but a segment, its checkpoint and its partial checkpoint. */
  ghost predicate OnlyAround(files: map<Str, Bytes>, synced: map<Str, nat>, files': map<Str, Bytes>, synced': map<Str, nat>, at: Str) {
    forall q {:trigger SameAt(files, files', q)} {:trigger SameAt(synced, synced', q)} |
      q != at && q != CheckpointPath(at) && q != PartialPath(at) :: SameAt(files, files', q) && SameAt(synced, synced', q)
  }

  lemma OtherEntry(s: Store, files: map<Str, Bytes>, synced: map<Str, nat>, files': map<Str, Bytes>, synced': map<Str, nat>,
                   at: Str, path: Str, e: SegmentLog)
    requires OnlyAround(files, synced, files', synced', at) && IsSegmentPath(at) && path != at
    requires EntryOnDisk(s, files, synced, path, e)
    ensures EntryOnDisk(s, files', synced', path, e)
  {
    PathKinds(path, at);
    PathKinds(at, path);
    var c := CheckpointPath(path);
    assert SameAt(files, files', path) && SameAt(synced, synced', path);
    assert SameAt(files, files', c) && SameAt(synced, synced', c);
  }

  /** A change around one segment keeps the others. */
  lemma LogOthers(s: Store, files: map<Str, Bytes>, synced: map<Str, nat>, files': map<Str, Bytes>, synced': map<Str, nat>,
                  log: map<Str, SegmentLog>, at: Str)
    requires OnlyAround(files, synced, files', synced', at) && LogOnDisk(s, files, synced, log) && IsSegmentPath(at)
    ensures LogOnDisk(s, files', synced', log - {at})
  {
    var rest := log - {at};
    forall path | path in rest ensures EntryOnDisk(s, files', synced', path, rest[path]) {
      assert EntryOnDisk(s, files, synced, path, log[path]);
      OtherEntry(s, files, synced, files', synced', at, path, log[path]);
    }
  }

  /** Only the entry of the segment that changed has to be shown again. */
  lemma LogFrame(s: Store, files: map<Str, Bytes>, synced: map<Str, nat>, files': map<Str, Bytes>, synced': map<Str, nat>,
                 log: map<Str, SegmentLog>, at: Str, e: SegmentLog)
    requires OnlyAround(files, synced, files', synced', at) && LogOnDisk(s, files, synced, log)
    requires EntryOnDisk(s, files', synced', at, e)
    ensures LogOnDisk(s, files', synced', log[at := e])
  {
    LogOthers(s, files, synced, files', synced', log, at);
    var rest, log' := log - {at}, log[at := e];
    forall path | path in log' ensures EntryOnDisk(s, files', synced', path, log'[path]) {
      if path != at {
        assert EntryOnDisk(s, files', synced', path, rest[path]);
      }
    }
  }

  lemma OrphansFrame(files: map<Str, Bytes>, synced: map<Str, nat>, files': map<Str, Bytes>, synced': map<Str, nat>, at: Str)
    requires OnlyAround(files, synced, files', synced', at) && NoOrphans(files) && IsSegmentPath(at) && at in files'
    ensures NoOrphans(files')
  {
    forall path | IsSegmentPath(path) && (CheckpointPath(path) in files' || PartialPath(path) in files')
      ensures path in files'
    {
      PathKinds(path, at);
      PathKinds(at, path);
      if path != at {
        assert SameAt(files, files', path) && SameAt(files, files', CheckpointPath(path));
        assert SameAt(files, files', PartialPath(path));
      }
    }
  }

  /** What every step keeps, with `open` the paths of the open segments: a segment once given up or closed is never
      written again, a new one never takes over a file that was there, nothing acknowledged is forgotten, no segment file
      is removed, nor one of another writer changed, and a new segment file is logged or empty. */
  ghost predicate Advanced(log: map<Str, SegmentLog>, log': map<Str, SegmentLog>, open: set<Str>, open': set<Str>,
                           files: map<Str, Bytes>, files': map<Str, Bytes>)
  {
    && (forall q | q in log && q !in open :: q in log' && log'[q] == log[q])
    && (forall q | q in log :: q in log' && log[q].acked <= log'[q].acked)
    && (forall q | q in log' && q !in log :: q !in files && IsSegmentPath(q))
    && (forall q | q in open' :: q in open || q !in log)
    && (forall q | q in files && IsSegmentPath(q) :: q in files' && (q !in log ==> files'[q] == files[q]))
    && (forall q | q in files' && IsSegmentPath(q) && q !in files :: q in log' || files'[q] == [])
  }

  lemma AdvancedTwice(log: map<Str, SegmentLog>, log': map<Str, SegmentLog>, log'': map<Str, SegmentLog>, open: set<Str>,
                      open': set<Str>, open'': set<Str>, files: map<Str, Bytes>, files': map<Str, Bytes>, files'': map<Str, Bytes>)
    requires Advanced(log, log', open, open', files, files') && Advanced(log', log'', open', open'', files', files'')
    ensures Advanced(log, log'', open, open'', files, files'')
  {
  }

  lemma AdvancedNothing(log: map<Str, SegmentLog>, open: set<Str>, files: map<Str, Bytes>, files': map<Str, Bytes>)
    requires forall q | q in files && IsSegmentPath(q) :: q in files' && files'[q] == files[q]
    requires forall q | q in files' && IsSegmentPath(q) && q !in files :: files'[q] == []
    ensures Advanced(log, log, open, open, files, files')
  {
  }

  lemma AdvancedOpened(log: map<Str, SegmentLog>, open: set<Str>, open': set<Str>, files: map<Str, Bytes>, path: Str, e: SegmentLog)
    requires path !in log && path !in files && IsSegmentPath(path) && open' <= open + {path}
    ensures Advanced(log, log[path := e], open, open', files, files[path := []])
  {
  }

  /** After a close the entry is as it was, or has its checkpoint in place; a clean close of a segment with records
      always has it. */
  ghost predicate Finished(before: map<Str, SegmentLog>, after: map<Str, SegmentLog>, path: Str, now: Json, ok: bool) {
    && path in before && path in after && after == before[path := after[path]]
    && (after[path] == before[path] || after[path] == before[path].(closedAt := Some(now)))
    && (ok && before[path].acked != [] ==> after[path].closedAt == Some(now))
  }

  lemma FinishedAdvances(log: map<Str, SegmentLog>, log': map<Str, SegmentLog>, open: set<Str>, open': set<Str>,
                         files: map<Str, Bytes>, files': map<Str, Bytes>, path: Str, now: Json, ok: bool)
    requires Finished(log, log', path, now, ok) && path in open && open' <= open
    requires forall q | IsSegmentPath(q) :: SameAt(files, files', q)
    ensures Advanced(log, log', open, open', files, files')
  {
    assert forall q | IsSegmentPath(q) && (q in files || q in files') :: SameAt(files, files', q);
  }

  lemma FinishedSame(log: map<Str, SegmentLog>, path: Str, now: Json, ok: bool)
    requires path in log && (ok ==> log[path].acked == [])
    ensures Finished(log, log, path, now, ok)
  {
  }

  // ---- the writer

  /** An open entry: nothing torn, no checkpoint. */
  predicate IsOpen(e: SegmentLog) {
    e.extra.None? && e.cut == 0 && e.closedAt.None?
  }

  class Segment {
    const ledger: Ledger
    const period: Str
    const path: Str
    /** What the running file hash was fed. */
    var hashed: Bytes
    var firstHash: Option<Str>
    var lastHash: Option<Str>
    var records: nat
    var bytes: nat

    constructor (ledger: Ledger, period: Str, path: Str)
      ensures this.ledger == ledger && this.period == period && this.path == path
      ensures Describes(SegmentLog(ledger, period, [], None, 0, None))
    {
      this.ledger, this.period, this.path := ledger, period, path;
      hashed, firstHash, lastHash, records, bytes := [], None, None, 0, 0;
    }

    /** The fields all describe the acknowledged prefix of an open segment. */
    predicate Describes(e: SegmentLog)
      reads this
    {
      && ledger == e.ledger && period == e.period && e.extra.None? && e.cut == 0 && e.closedAt.None?
      && hashed == Written(e.acked) && bytes == |Written(e.acked)| && records == |e.acked|
      && firstHash == FirstHash(e.acked) && lastHash == LastHash(e.acked)
    }

    lemma DescribesOpen(e: SegmentLog)
      requires Describes(e)
      ensures IsOpen(e) && lastHash == LastHash(e.acked) && ledger == e.ledger && period == e.period
    {
    }

    /** The record's line is on disk: the fields move past it. */
    method Add(record: Sealed, ghost e: SegmentLog)
      requires Describes(e)
      modifies this
      ensures Describes(e.(acked := e.acked + [record])) && lastHash == Some(record.recordHash)
    {
      hide Line;
      WrittenSnoc(e.acked, record);
      hashed := hashed + Line(record);
      firstHash := if firstHash.None? then Some(record.recordHash) else firstHash;
      lastHash := Some(record.recordHash);
      records := records + 1;
      bytes := bytes + |Line(record)|;
    }

    /** The checkpoint these fields make. */
    function Checkpoint(s: Store, closedAt: Json): Bytes
      reads this
    {
      CheckpointFile(CheckpointJson(s, ledger, period, records, bytes, firstHash, lastHash, s.p.sha256(hashed), closedAt))
    }

    lemma CheckpointDescribes(s: Store, e: SegmentLog, closedAt: Json)
      requires Describes(e)
      ensures Checkpoint(s, closedAt) == CheckpointOf(s, e.ledger, e.period, e.acked, closedAt)
      ensures IsOpen(e) && records == |e.acked|
    {
    }
  }

  ghost function PathsOf(segments: map<Ledger, Segment>): set<Str> {
    set l | l in segments :: segments[l].path
  }

  /** The open segment of `l` is logged under its path, and its fields describe its entry. */
  ghost predicate Open(s: Segment, log: map<Str, SegmentLog>, l: Ledger)
    reads s
  {
    s.ledger == l && s.path in log && s.Describes(log[s.path])
  }

  lemma PathsApart(segments: map<Ledger, Segment>, log: map<Str, SegmentLog>, k: Ledger)
    requires k in segments && forall l | l in segments :: Open(segments[l], log, l)
    ensures segments[k].path in log && segments[k].Describes(log[segments[k].path])
    ensures forall l | l in segments && l != k :: segments[l] != segments[k] && segments[l].path != segments[k].path
  {
    assert Open(segments[k], log, k);
    forall l | l in segments && l != k ensures segments[l] != segments[k] && segments[l].path != segments[k].path {
      assert Open(segments[l], log, l);
    }
  }

  /** The log holds exactly what was acknowledged, path by path in order. */
  ghost predicate AcksOk(log: map<Str, SegmentLog>, acks: seq<Ack>) {
    && (forall path {:trigger AckedAt(acks, path)} | path in log :: log[path].acked == AckedAt(acks, path))
    && (forall i | 0 <= i < |acks| :: acks[i].path in log)
  }

  lemma LogSynced(s: Store, files: map<Str, Bytes>, synced: map<Str, nat>, synced': map<Str, nat>,
                  log: map<Str, SegmentLog>, path: Str)
    requires LogOnDisk(s, files, synced, log) && path in log && path in files && NoOrphans(files)
    requires synced' == synced || synced' == synced[path := |files[path]|]
    ensures LogOnDisk(s, files, synced', log)
  {
    PathKinds(path, path);
    assert EntryOnDisk(s, files, synced, path, log[path]);
    LogFrame(s, files, synced, files, synced', log, path, log[path]);
    assert log[path := log[path]] == log;
  }

  lemma EntryCheckpointed(s: Store, files: map<Str, Bytes>, synced: map<Str, nat>, files': map<Str, Bytes>,
                          synced': map<Str, nat>, log: map<Str, SegmentLog>, path: Str, now: Json, placed: bool)
    requires LogOnDisk(s, files, synced, log) && NoOrphans(files) && path in log && IsOpen(log[path])
    requires log[path].acked != [] && ClockTime(s.p, now)
    requires forall q | q != CheckpointPath(path) && q != PartialPath(path) :: SameAt(files, files', q) && SameAt(synced, synced', q)
    requires !placed ==> CheckpointPath(path) !in files'
    requires placed ==> CheckpointPath(path) in files' && CheckpointPath(path) in synced'
    requires placed ==> synced'[CheckpointPath(path)] == |files'[CheckpointPath(path)]|
    requires placed ==> files'[CheckpointPath(path)] == CheckpointOf(s, log[path].ledger, log[path].period, log[path].acked, now)
    ensures var e := log[path];
      LogOnDisk(s, files', synced', log[path := if placed then e.(closedAt := Some(now)) else e]) && NoOrphans(files')
  {
    hide CheckpointOf, Chained, AllStored, CheckpointPath, PartialPath;
    var e := log[path];
    var e' := if placed then e.(closedAt := Some(now)) else e;
    PathKinds(path, path);
    EntryAt(s, files, synced, log, path);
    assert SameAt(files, files', path) && SameAt(synced, synced', path);
    assert OnlyAround(files, synced, files', synced', path);
    assert EntryOk(s, e') && Content(e') == Content(e);
    LogFrame(s, files, synced, files', synced', log, path, e');
    OrphansFrame(files, synced, files', synced', path);
  }

  // ---- what an append and a close promise

  /** The ledger and period that the stored form of a base belongs to, where it has one. */
  function RouteOf(s: Store, base: Json): Option<(Ledger, Str)> {
    var b := s.p.persist(base);
    if b.None? || s.civil(b.value.time).None? then None
    else Some((LedgerForAction(b.value.action), Period(s.civil(b.value.time).value)))
  }

  predicate RoutesTo(s: Store, base: Json, ledger: Ledger, period: Str) {
    RouteOf(s, base) == Some((ledger, period))
  }

  /** A ledger's open segment, as far as the next append depends on it. */
  datatype Tip = Tip(period: Str, lastHash: Option<Str>)

  /** The hash that an append to a ledger's period chains to. */
  function LinkTo(tips: map<Ledger, Tip>, ledger: Ledger, period: Str): Option<Str> {
    if ledger in tips && tips[ledger].period == period then tips[ledger].lastHash else None
  }

  /** The tips after an append to a ledger's period where no step failed: an answered record; or the one that was, or a new
      segment, where the record was refused; or none, where no name was left. */
  function NextTips(tips: map<Ledger, Tip>, ledger: Ledger, period: Str, r: Result<Sealed>): map<Ledger, Tip> {
    if r.Err? && r.error == NamesExhausted then tips - {ledger}
    else tips[ledger := Tip(period, if r.Ok? then Some(r.value.recordHash) else LinkTo(tips, ledger, period))]
  }

  /** The tips after an append where no step failed. */
  function AppendTips(s: Store, tips: map<Ledger, Tip>, base: Json, r: Result<Sealed>): map<Ledger, Tip> {
    var route := RouteOf(s, base);
    if route.None? || r == Err(WriterClosed) then tips else NextTips(tips, route.value.0, route.value.1, r)
  }

  lemma PutLess<K, V>(m: map<K, V>, k: K, v: V)
    ensures m[k := v] - {k} == m - {k} && m - {k} - {k} == m - {k}
  {
  }

  /** At most the ledger a base routes to changed. */
  predicate OtherLedgersKept<T(==)>(s: Store, base: Json, m: map<Ledger, T>, m': map<Ledger, T>) {
    var route := RouteOf(s, base);
    if route.None? then m' == m else m' - {route.value.0} == m - {route.value.0}
  }

  lemma NothingAppended<T>(s: Store, base: Json, m: map<Ledger, T>, tips: map<Ledger, Tip>, r: Result<Sealed>)
    ensures OtherLedgersKept(s, base, m, m)
    ensures RouteOf(s, base).None? || r == Err(WriterClosed) ==> AppendTips(s, tips, base, r) == tips
  {
  }

  lemma RoutedAppended<T>(s: Store, base: Json, ledger: Ledger, period: Str, m: map<Ledger, T>, m': map<Ledger, T>,
                          tips: map<Ledger, Tip>, tips': map<Ledger, Tip>, r: Result<Sealed>)
    requires RoutesTo(s, base, ledger, period) && m' - {ledger} == m - {ledger} && tips' - {ledger} == tips - {ledger}
    requires r != Err(WriterClosed)
    ensures OtherLedgersKept(s, base, m, m') && OtherLedgersKept(s, base, tips, tips')
    ensures AppendTips(s, tips, base, r) == NextTips(tips, ledger, period, r)
  {
  }

  /** The record names the hash its ledger and period had come to, and its segment stays open, at its path. */
  ghost predicate ChainsOn(s: Store, base: Json, r: Sealed, tips: map<Ledger, Tip>, segments: map<Ledger, Segment>, path: Str) {
    var route := RouteOf(s, base);
    && route.Some? && r.previousHash == LinkTo(tips, route.value.0, route.value.1)
    && route.value.0 in segments && segments[route.value.0].path == path
  }

  /** The record an append answers is the stored form of its base, in a segment of that base's ledger and period. */
  ghost predicate Routed(s: Store, base: Json, r: Sealed, log: map<Str, SegmentLog>, path: Str) {
    var b := s.p.persist(base);
    && b.Some? && s.civil(b.value.time).Some? && r.base == b.value.json && path in log
    && log[path].ledger == LedgerForAction(b.value.action) && log[path].period == Period(s.civil(b.value.time).value)
  }

  ghost predicate HasCheckpoint(log: map<Str, SegmentLog>, path: Str) {
    path in log && (log[path].acked != [] ==> log[path].closedAt.Some?)
  }

  /** No segment is lost without its checkpoint: what is logged was given up or closed before, is open, or holds no records
      or has its checkpoint. */
  ghost predicate Settled(log: map<Str, SegmentLog>, log': map<Str, SegmentLog>, open: set<Str>, open': set<Str>) {
    forall q | q in log' :: (q in log && q !in open) || q in open' || HasCheckpoint(log', q)
  }

  lemma SettledTwice(log: map<Str, SegmentLog>, log': map<Str, SegmentLog>, log'': map<Str, SegmentLog>, open: set<Str>,
                     open': set<Str>, open'': set<Str>, files': map<Str, Bytes>, files'': map<Str, Bytes>)
    requires Settled(log, log', open, open') && Settled(log', log'', open', open'')
    requires Advanced(log', log'', open', open'', files', files'')
    ensures Settled(log, log'', open, open'')
  {
  }

  lemma SettledKept(log: map<Str, SegmentLog>, log': map<Str, SegmentLog>, open: set<Str>)
    requires log'.Keys == log.Keys
    ensures Settled(log, log', open, open)
  {
  }

  lemma SettledClosed(log: map<Str, SegmentLog>, log': map<Str, SegmentLog>, open: set<Str>, path: Str, now: Json)
    requires Finished(log, log', path, now, true) && path in open
    ensures Settled(log, log', open, open - {path})
  {
  }

  lemma SettledOpened(log: map<Str, SegmentLog>, open: set<Str>, path: Str, e: SegmentLog)
    ensures Settled(log, log[path := e], open, open + {path})
  {
  }

  /** The segments of `were` that left `open` and hold records, but have no checkpoint. */
  ghost function Missing(log: map<Str, SegmentLog>, were: map<Ledger, Segment>, open: map<Ledger, Segment>): set<Ledger> {
    set l | l in were && l !in open && !HasCheckpoint(log, were[l].path)
  }

  lemma NoneMissing(log: map<Str, SegmentLog>, were: map<Ledger, Segment>)
    ensures Missing(log, were, were) == {}
  {
  }

  lemma OneMoreMissing(log: map<Str, SegmentLog>, log': map<Str, SegmentLog>, were: map<Ledger, Segment>,
                       open: map<Ledger, Segment>, l: Ledger, now: Json, ok: bool)
    requires l in open && l in were && open[l] == were[l] && Finished(log, log', open[l].path, now, ok)
    ensures |Missing(log', were, open - {l})| <= |Missing(log, were, open)| + if ok then 0 else 1
  {
    var before, after := Missing(log, were, open), Missing(log', were, open - {l});
    assert after <= if ok then before else before + {l};
    SubsetSize(after, if ok then before else before + {l});
  }

  predicate SameIn(m: map<(Ledger, Str), nat>, n: map<(Ledger, Str), nat>, k: (Ledger, Str)) {
    (k in m <==> k in n) && (k in m ==> m[k] == n[k])
  }

  /** Which name a search took: the first that no file had, remembered for the next search. */
  ghost predicate FirstFree(files: map<Str, Bytes>, boot: Str, ledger: Ledger, period: Str, first: nat, path: Str, next: nat) {
    && first < next <= first + NAME_ATTEMPTS && path == SegmentPath(ledger, period, boot, next - 1) && path !in files
    && forall n | first <= n < next - 1 :: SegmentPath(ledger, period, boot, n) in files
  }

  lemma CalendarMonth(s: Store, time: nat)
    requires StoreOk(s) && s.civil(time).Some?
    ensures s.civil(time).value.Valid()
  {
  }

  lemma RecordStored(s: Store, base: Json, r: Sealed, before: Option<Str>)
    requires s.p.persist(base).Some? && r.base == s.p.persist(base).value.json
    requires s.civil(s.p.persist(base).value.time).Some?
    requires ChainHash(s.p, r.base, before) == Some(r.recordHash) && r.previousHash == before
    requires |Line(r)| <= MAX_AUDIT_RECORD_BYTES
    ensures Linked(s.p, r, before)
    ensures Stored(s, r, LedgerForAction(s.p.persist(base).value.action), Period(s.civil(s.p.persist(base).value.time).value))
  {
    hide Line, Period, LedgerForAction, Preimage;
    assert Jsonable(r.base);
    hide ChainHash, Jsonable;
    assert StoredAs(s, base, r, LedgerForAction(s.p.persist(base).value.action), Period(s.civil(s.p.persist(base).value.time).value));
  }

  // ---- how one segment's entry moves

  /** Only the entry of `path` moved, and no acknowledged record left it. */
  ghost predicate Moved(log: map<Str, SegmentLog>, log': map<Str, SegmentLog>, path: Str) {
    && path in log && path in log' && log' == log[path := log'[path]] && log[path].acked <= log'[path].acked
    && log'[path].ledger == log[path].ledger && log'[path].period == log[path].period
  }

  lemma MovedAdvances(log: map<Str, SegmentLog>, log': map<Str, SegmentLog>, open: set<Str>, open': set<Str>,
                      files: map<Str, Bytes>, files': map<Str, Bytes>, path: Str)
    requires Moved(log, log', path) && path in open && open' <= open
    requires files' == files[path := if path in files' then files'[path] else []] && path in files
    ensures Advanced(log, log', open, open', files, files')
    ensures path in log' && log'[path].ledger == log[path].ledger && log'[path].period == log[path].period
  {
  }

  lemma MovedKeys(log: map<Str, SegmentLog>, log': map<Str, SegmentLog>, path: Str)
    requires Moved(log, log', path)
    ensures log'.Keys == log.Keys
  {
  }

  lemma EntryPath(s: Store, files: map<Str, Bytes>, synced: map<Str, nat>, log: map<Str, SegmentLog>, path: Str)
    requires LogOnDisk(s, files, synced, log) && path in log
    ensures path in files && IsSegmentPath(path)
  {
    EntryAt(s, files, synced, log, path);
  }

  lemma NothingLanded(files: map<Str, Bytes>, path: Str, line: Bytes)
    requires path in files
    ensures files == files[path := files[path] + line[..0]]
  {
    assert files[path] + line[..0] == files[path];
  }

  lemma AckedAtSnoc(acks: seq<Ack>, a: Ack, path: Str)
    ensures AckedAt(acks + [a], path) == if a.path == path then AckedAt(acks, path) + [a.record] else AckedAt(acks, path)
  {
    assert (acks + [a])[..|acks|] == acks;
  }

  lemma AcksSnoc(log: map<Str, SegmentLog>, acks: seq<Ack>, path: Str, r: Sealed)
    requires AcksOk(log, acks) && path in log
    ensures AcksOk(log[path := log[path].(acked := log[path].acked + [r])], acks + [Ack(path, r)])
  {
    var log', acks' := log[path := log[path].(acked := log[path].acked + [r])], acks + [Ack(path, r)];
    forall q | q in log' ensures log'[q].acked == AckedAt(acks', q) {
      AckedAtSnoc(acks, Ack(path, r), q);
    }
  }

  function Fresh(ledger: Ledger, period: Str): SegmentLog {
    SegmentLog(ledger, period, [], None, 0, None)
  }

  lemma FileCreated(s: Store, files: map<Str, Bytes>, synced: map<Str, nat>, log: map<Str, SegmentLog>, path: Str,
                    ledger: Ledger, period: Str)
    requires LogOnDisk(s, files, synced, log) && NoOrphans(files) && IsSegmentPath(path) && path !in files
    requires PlainText(period) && |period| <= 64
    ensures path !in log && LogOnDisk(s, files[path := []], synced[path := 0], log)
    ensures LogOnDisk(s, files[path := []], synced[path := 0], log[path := Fresh(ledger, period)])
    ensures NoOrphans(files[path := []])
  {
    var files', synced' := files[path := []], synced[path := 0];
    PathKinds(path, path);
    assert path in log ==> EntryOnDisk(s, files, synced, path, log[path]);
    assert OnlyAround(files, synced, files', synced', path);
    LogOthers(s, files, synced, files', synced', log, path);
    assert log - {path} == log;
    assert CheckpointPath(path) !in files;
    assert EntryOnDisk(s, files', synced', path, Fresh(ledger, period));
    LogFrame(s, files, synced, files', synced', log, path, Fresh(ledger, period));
    OrphansFrame(files, synced, files', synced', path);
  }

  lemma NextRecordOk(s: Store, e: SegmentLog, r: Sealed)
    requires EntryOk(s, e) && IsOpen(e) && Linked(s.p, r, LastHash(e.acked)) && Stored(s, r, e.ledger, e.period)
    ensures EntryOk(s, e.(acked := e.acked + [r]))
    ensures forall cut: nat | cut <= |Line(r)| :: EntryOk(s, e.(extra := Some(r), cut := cut))
  {
    ChainedSnoc(s.p, e.acked, r);
    var all := e.acked + [r];
    forall i | 0 <= i < |all| ensures Stored(s, all[i], e.ledger, e.period) {
      assert i < |e.acked| ==> Stored(s, AllRecords(e)[i], e.ledger, e.period);
    }
  }

  /** A write that stopped part of the way, or a line that could not be synced: the segment keeps what landed. */
  lemma EntryTorn(s: Store, files: map<Str, Bytes>, synced: map<Str, nat>, log: map<Str, SegmentLog>, path: Str,
                  r: Sealed, landed: nat, files': map<Str, Bytes>)
    requires LogOnDisk(s, files, synced, log) && NoOrphans(files) && path in log && path in files && IsOpen(log[path])
    requires Linked(s.p, r, LastHash(log[path].acked)) && Stored(s, r, log[path].ledger, log[path].period)
    requires landed <= |Line(r)| && files' == files[path := files[path] + Line(r)[..landed]]
    ensures LogOnDisk(s, files', synced, log[path := log[path].(extra := Some(r), cut := landed)]) && NoOrphans(files')
  {
    hide CheckpointContent, EntryOk, Stored, Linked, Line, CheckpointPath, PartialPath, IsSegmentPath;
    var e := log[path];
    PathKinds(path, path);
    assert EntryOnDisk(s, files, synced, path, e);
    NextRecordOk(s, e, r);
    var e' := e.(extra := Some(r), cut := landed);
    assert Content(e) == Written(e.acked);
    assert EntryOnDisk(s, files', synced, path, e');
    assert OnlyAround(files, synced, files', synced, path);
    LogFrame(s, files, synced, files', synced, log, path, e');
    OrphansFrame(files, synced, files', synced, path);
  }

  /** A line written and synced: the record is acknowledged. */
  lemma EntryAcked(s: Store, files: map<Str, Bytes>, synced: map<Str, nat>, log: map<Str, SegmentLog>, path: Str, r: Sealed,
                   files': map<Str, Bytes>, synced': map<Str, nat>)
    requires LogOnDisk(s, files, synced, log) && NoOrphans(files) && path in log && path in files && IsOpen(log[path])
    requires Linked(s.p, r, LastHash(log[path].acked)) && Stored(s, r, log[path].ledger, log[path].period)
    requires files' == files[path := files[path] + Line(r)] && synced' == synced[path := |files'[path]|]
    ensures LogOnDisk(s, files', synced', log[path := log[path].(acked := log[path].acked + [r])]) && NoOrphans(files')
  {
    hide CheckpointContent, EntryOk, Stored, Linked, Line, CheckpointPath, PartialPath, IsSegmentPath;
    var e := log[path];
    PathKinds(path, path);
    assert EntryOnDisk(s, files, synced, path, e);
    NextRecordOk(s, e, r);
    WrittenSnoc(e.acked, r);
    var e' := e.(acked := e.acked + [r]);
    assert Content(e) == Written(e.acked) && Content(e') == Written(e'.acked);
    assert EntryOnDisk(s, files', synced', path, e');
    assert OnlyAround(files, synced, files', synced', path);
    LogFrame(s, files, synced, files', synced', log, path, e');
    OrphansFrame(files, synced, files', synced', path);
  }

  lemma {:induction false} AckedAtNone(acks: seq<Ack>, path: Str)
    requires forall i | 0 <= i < |acks| :: acks[i].path != path
    ensures AckedAt(acks, path) == []
  {
    if acks != [] {
      AckedAtNone(acks[..|acks| - 1], path);
    }
  }

  lemma PeriodPlain(ym: YearMonth)
    requires ym.Valid()
    ensures PlainText(Period(ym)) && |Period(ym)| <= 64 && Dotless(Period(ym))
  {
    PeriodShape(ym);
    NatTextValue(ym.year);
    NatTextValue(ym.month);
    PadStartValue(NatText(ym.year), 4);
    PadStartValue(NatText(ym.year), 6);
    PadStartValue(NatText(ym.month), 2);
  }

  /** No partial checkpoint stands beside an open segment, so its close can make one. */
  ghost predicate NoPartials(segments: map<Ledger, Segment>, files: map<Str, Bytes>) {
    forall l | l in segments :: PartialPath(segments[l].path) !in files
  }

  lemma NewHasNoPartial(files: map<Str, Bytes>, path: Str)
    requires NoOrphans(files) && IsSegmentPath(path) && path !in files
    ensures PartialPath(path) !in files[path := []]
  {
    PathKinds(path, path);
    assert PartialPath(path) !in files;
  }

  lemma PartialsAt(segments: map<Ledger, Segment>, files: map<Str, Bytes>, l: Ledger)
    requires NoPartials(segments, files) && l in segments
    ensures PartialPath(segments[l].path) !in files && NoPartials(segments - {l}, files)
  {
  }

  lemma PartialsAdd(segments: map<Ledger, Segment>, files: map<Str, Bytes>, l: Ledger, s: Segment)
    requires NoPartials(segments, files) && PartialPath(s.path) !in files
    ensures NoPartials(segments[l := s], files)
  {
  }

  /** To write a segment file makes no partial checkpoint. */
  lemma PartialsKept(segments: map<Ledger, Segment>, files: map<Str, Bytes>, path: Str, content: Bytes)
    requires NoPartials(segments, files) && IsSegmentPath(path)
    ensures NoPartials(segments, files[path := content])
  {
    forall l | l in segments ensures PartialPath(segments[l].path) !in files[path := content] {
      PathKinds(path, segments[l].path);
    }
  }

  /** Closing one segment puts no partial checkpoint beside another. */
  lemma PartialsFrame(segments: map<Ledger, Segment>, files: map<Str, Bytes>, files': map<Str, Bytes>, at: Str)
    requires NoPartials(segments, files) && forall l | l in segments :: segments[l].path != at
    requires forall q | q != CheckpointPath(at) && q != PartialPath(at) :: SameAt(files, files', q)
    ensures NoPartials(segments, files')
  {
    forall l | l in segments ensures PartialPath(segments[l].path) !in files' {
      PathKinds(segments[l].path, at);
      PathKinds(at, segments[l].path);
      assert SameAt(files, files', PartialPath(segments[l].path));
    }
  }

  /** What sealing the stored form of a base after a hash answers, where no step of the disk fails. */
  function SealAnswer(s: Store, json: Json, last: Option<Str>): Result<Sealed> {
    var hash := ChainHash(s.p, json, last);
    if hash.None? then Err(NotJson)
    else
      var record := Sealed(json, last, hash.value);
      if |Line(record)| > MAX_AUDIT_RECORD_BYTES then Err(RecordTooLarge) else Ok(record)
  }

  lemma PathsOfLess(segments: map<Ledger, Segment>, k: Ledger)
    requires k in segments && forall l | l in segments && l != k :: segments[l].path != segments[k].path
    ensures PathsOf(segments - {k}) == PathsOf(segments) - {segments[k].path} && segments[k].path in PathsOf(segments)
  {
    var rest := segments - {k};
    forall q | q in PathsOf(segments) && q != segments[k].path ensures q in PathsOf(rest) {
      var l :| l in segments && segments[l].path == q;
      assert l in rest;
    }
  }

  lemma PathsOfMore(segments: map<Ledger, Segment>, k: Ledger, s: Segment)
    requires k !in segments
    ensures PathsOf(segments[k := s]) == PathsOf(segments) + {s.path}
  {
    var more := segments[k := s];
    assert more[k].path in PathsOf(more);
    forall q | q in PathsOf(segments) ensures q in PathsOf(more) {
      var l :| l in segments && segments[l].path == q;
      assert more[l].path == q;
    }
  }

  class AuditLedgerWriter {
    const store: Store
    const disk: Disk
    var segments: map<Ledger, Segment>
    var sequences: map<(Ledger, Str), nat>
    var rootReady: bool
    var closed: bool
    /** Every segment this writer opened, and every record it acknowledged. */
    ghost var log: map<Str, SegmentLog>
    ghost var acks: seq<Ack>

    /** The log tells these files, and the open segments are logged and described. */
    ghost predicate Consistent(files: map<Str, Bytes>, synced: map<Str, nat>)
      reads this`segments, this`log, this`acks, segments.Values
    {
      && LogOnDisk(store, files, synced, log) && NoOrphans(files) && NoPartials(segments, files)
      && (forall l | l in segments :: Open(segments[l], log, l))
      && AcksOk(log, acks)
    }

    ghost predicate Valid()
      reads this`segments, this`log, this`acks, disk`files, disk`synced, segments.Values
    {
      StoreOk(store) && disk.Valid() && Consistent(disk.files, disk.synced)
    }

    /** What holds between calls: besides, a closed writer has no open segment. */
    ghost predicate Invariant()
      reads this, disk`files, disk`synced, segments.Values
    {
      Valid() && (closed ==> segments == map[])
    }

    constructor (store: Store, disk: Disk)
      requires StoreOk(store) && disk.Valid() && NoOrphans(disk.files)
      ensures Invariant() && this.store == store && this.disk == disk && !closed && log == map[] && acks == []
    {
      this.store, this.disk := store, disk;
      segments, sequences, rootReady, closed := map[], map[], false, false;
      log, acks := map[], [];
    }

    // ---- what an append answers on a disk that does not fail

    function FirstSequence(ledger: Ledger, period: Str): nat
      reads this`sequences
    {
      if (ledger, period) in sequences then sequences[(ledger, period)] else 0
    }

    /** The ledger's open segment is of this period. */
    predicate Serves(ledger: Ledger, period: Str)
      reads this`segments
    {
      ledger in segments && segments[ledger].period == period
    }

    ghost predicate TakenIn(files: map<Str, Bytes>, ledger: Ledger, period: Str)
      reads this`sequences
    {
      forall n | FirstSequence(ledger, period) <= n < FirstSequence(ledger, period) + NAME_ATTEMPTS ::
        SegmentPath(ledger, period, store.boot, n) in files
    }

    /** The open segments, as far as the next appends depend on them. */
    ghost function Tips(): map<Ledger, Tip>
      reads this`segments, segments.Values
    {
      map l | l in segments :: Tip(segments[l].period, segments[l].lastHash)
    }

    lemma LinkedTip(ledger: Ledger)
      requires ledger in segments
      ensures LinkTo(Tips(), ledger, segments[ledger].period) == segments[ledger].lastHash && ledger in Tips()
      ensures Tips()[ledger] == Tip(segments[ledger].period, segments[ledger].lastHash)
    {
    }

    lemma Unlinked(ledger: Ledger, period: Str)
      requires !Serves(ledger, period)
      ensures LinkTo(Tips(), ledger, period).None?
    {
    }

    lemma NoTips()
      requires segments == map[]
      ensures Tips() == map[] && PathsOf(segments) == {}
    {
    }

    /** The other open segments end where they ended. */
    twostate predicate OthersKept(ledger: Ledger)
      reads this`segments, segments.Values
    {
      && segments - {ledger} == old(segments) - {ledger}
      && forall l | l in old(segments) && l != ledger ::
        l in segments && segments[l] == old(segments)[l] && segments[l].lastHash == old(segments[l].lastHash)
    }

    twostate lemma TipPut(ledger: Ledger)
      requires OthersKept(ledger) && ledger in segments
      ensures Tips() == old(Tips())[ledger := Tip(segments[ledger].period, segments[ledger].lastHash)]
      ensures Tips() - {ledger} == old(Tips()) - {ledger}
    {
      forall l | l in segments && l != ledger ensures l in old(segments) && segments[l] == old(segments)[l] {
        assert l in segments - {ledger};
      }
      forall l | l in old(segments) && l != ledger ensures l in segments {
        assert l in old(segments) - {ledger};
      }
    }

    twostate lemma TipDropped(ledger: Ledger)
      requires OthersKept(ledger) && ledger !in segments
      ensures Tips() == old(Tips()) - {ledger} && Tips() - {ledger} == old(Tips()) - {ledger}
    {
      forall l | l in segments ensures l in old(segments) && segments[l] == old(segments)[l] {
        assert l in segments - {ledger};
      }
      forall l | l in old(segments) && l != ledger ensures l in segments {
        assert l in old(segments) - {ledger};
      }
    }

    /** A file stands at every name the search would try. */
    ghost predicate NamesTaken(ledger: Ledger, period: Str)
      reads this`sequences, disk`files
    {
      TakenIn(disk.files, ledger, period)
    }

    ghost function RoutedAnswer(ledger: Ledger, period: Str, json: Json): Result<Sealed>
      reads this`segments, this`sequences, disk`files, segments.Values
    {
      if !Serves(ledger, period) && NamesTaken(ledger, period) then Err(NamesExhausted)
      else SealAnswer(store, json, LinkTo(Tips(), ledger, period))
    }

    /** The answer of an append where no step of the disk fails. */
    ghost function Answer(base: Json): (r: Result<Sealed>)
      reads this, disk`files, segments.Values
      ensures r.Err? ==> Unforced(r.error)
    {
      var persisted := store.p.persist(base);
      if closed then Err(WriterClosed)
      else if persisted.None? then Err(BaseRejected)
      else if store.civil(persisted.value.time).None? then Err(TimeRejected)
      else
        var ledger, period := LedgerForAction(persisted.value.action), Period(store.civil(persisted.value.time).value);
        RoutedAnswer(ledger, period, persisted.value.json)
    }

    // ---- writing

    /** `writeAll`: writes until the whole line is out, or a write fails or makes no progress. */
    method WriteAll(path: Str, line: Bytes) returns (ok: bool, ghost landed: nat)
      requires disk.Valid() && path in disk.files
      modifies disk
      ensures disk.Valid() && landed <= |line| && (ok ==> landed == |line|)
      ensures disk.failures >= old(disk.failures) && (ok <==> disk.failures == old(disk.failures))
      ensures disk.files == old(disk.files)[path := old(disk.files)[path] + line[..landed]]
      ensures disk.synced == old(disk.synced)
    {
      var offset := 0;
      assert disk.files[path] + line[..0] == disk.files[path];
      assert disk.files[path := disk.files[path]] == disk.files;
      while offset < |line|
        invariant offset <= |line| && disk.Valid() && disk.synced == old(disk.synced) && disk.failures == old(disk.failures)
        invariant disk.files == old(disk.files)[path := old(disk.files)[path] + line[..offset]]
      {
        var written: Option<nat>;
        ghost var n: nat;
        written, n := disk.Append(path, line[offset..]);
        assert line[..offset] + line[offset..][..n] == line[..offset + n];
        assert old(disk.files)[path] + line[..offset + n] == (old(disk.files)[path] + line[..offset]) + line[offset..][..n];
        if written.None? || written.value == 0 {
          return false, offset + n;
        }
        offset := offset + written.value;
      }
      assert line[..offset] == line;
      return true, offset;
    }

    /** A new file with `content`, synced. */
    method WritePartial(partial: Str, content: Bytes) returns (ok: bool)
      requires disk.Valid()
      modifies disk
      ensures disk.Valid()
      ensures ok ==> partial in disk.files && disk.files[partial] == content && disk.synced[partial] == |content|
      ensures disk.failures >= old(disk.failures)
      ensures ok <==> disk.failures == old(disk.failures) && partial !in old(disk.files)
      ensures forall q | q != partial :: SameAt(old(disk.files), disk.files, q) && SameAt(old(disk.synced), disk.synced, q)
    {
      var created := disk.Create(partial);
      if created != Created {
        return false;
      }
      ok := disk.Step();
      if ok {
        ghost var landed: nat;
        ok, landed := WriteAll(partial, content);
        assert ok ==> [] + content[..landed] == content;
      }
      if ok {
        ok := disk.Sync(partial);
      }
    }

    /** The checkpoint: written beside its path, synced, then renamed onto it. */
    method WriteCheckpoint(path: Str, content: Bytes) returns (ok: bool, ghost placed: bool)
      requires disk.Valid() && CheckpointPath(path) !in disk.files
      modifies disk
      ensures disk.Valid() && (ok ==> placed)
      ensures disk.failures >= old(disk.failures)
      ensures ok <==> disk.failures == old(disk.failures) && PartialPath(path) !in old(disk.files)
      ensures !placed ==> CheckpointPath(path) !in disk.files
      ensures placed ==> CheckpointPath(path) in disk.files
      ensures placed ==> disk.files[CheckpointPath(path)] == content && disk.synced[CheckpointPath(path)] == |content|
      ensures forall q | q != CheckpointPath(path) && q != PartialPath(path) ::
        SameAt(old(disk.files), disk.files, q) && SameAt(old(disk.synced), disk.synced, q)
    {
      var partial := PartialPath(path);
      PathKinds(path, path);
      placed := false;
      ok := disk.Step();
      if ok {
        ok := WritePartial(partial, content);
      }
      assert SameAt(old(disk.files), disk.files, CheckpointPath(path));
      ghost var files, synced := disk.files, disk.synced;
      if ok {
        ok := disk.Step();
      }
      if ok {
        ok := disk.Rename(partial, CheckpointPath(path));
        placed := ok;
      }
      if ok {
        ok := disk.Step();
      }
      if !ok {
        disk.Unlink(partial);
      }
      forall q | q != CheckpointPath(path) && q != partial
        ensures SameAt(old(disk.files), disk.files, q) && SameAt(old(disk.synced), disk.synced, q)
      {
        assert SameAt(old(disk.files), files, q) && SameAt(old(disk.synced), synced, q);
      }
    }

    // ---- closing

    lemma HasGoodStore()
      requires Valid()
      ensures StoreOk(store)
    {
    }

    lemma LogTells()
      requires Valid()
      ensures StoreOk(store) && LogOnDisk(store, disk.files, disk.synced, log)
      ensures forall path | path in log :: log[path].acked == AckedAt(acks, path)
    {
      hide LogOnDisk, StoreOk, NoOrphans, NoPartials, Open;
    }

    lemma PathsDiffer(k: Ledger)
      requires Valid() && k in segments
      ensures segments[k].path in log && segments[k].path in PathsOf(segments) && segments[k].Describes(log[segments[k].path])
      ensures log[segments[k].path].ledger == k && log[segments[k].path].period == segments[k].period
      ensures forall l | l in segments && l != k :: segments[l].path != segments[k].path
    {
      PathsApart(segments, log, k);
    }

    /** Syncs and closes a file, closing it again where that failed. */
    method StopFile(path: Str) returns (ok: bool)
      requires disk.Valid() && path in disk.files
      modifies disk`synced, disk`failures
      ensures disk.Valid() && disk.failures >= old(disk.failures) && (ok <==> disk.failures == old(disk.failures))
      ensures disk.synced == old(disk.synced) || disk.synced == old(disk.synced)[path := |disk.files[path]|]
    {
      ok := disk.Step();
      if ok {
        ok := disk.Sync(path);
      }
      if ok {
        ok := disk.Step();
      }
      if !ok {
        var again := disk.Step();
      }
    }

    /** Takes the segment out of the map, then syncs and closes its file. */
    method StopSegment(ledger: Ledger) returns (ok: bool)
      requires Valid() && ledger in segments
      modifies this`segments, disk`synced, disk`failures
      ensures Valid() && segments == old(segments) - {ledger}
      ensures disk.failures >= old(disk.failures) && (ok <==> disk.failures == old(disk.failures))
    {
      hide LogOnDisk, StoreOk, NoOrphans, NoPartials, PartialPath, Open, AcksOk, EntryOnDisk;
      var path := segments[ledger].path;
      PathsDiffer(ledger);
      EntryAt(store, disk.files, disk.synced, log, path);
      PartialsAt(segments, disk.files, ledger);
      segments := segments - {ledger};
      ok := StopFile(path);
      LogSynced(store, old(disk.files), old(disk.synced), disk.synced, log, path);
    }

    /** Writes the checkpoint of a stopped segment that holds records. */
    method CheckpointSegment(segment: Segment, now: Json) returns (ok: bool)
      requires Valid() && ClockTime(store.p, now) && segment.path in log && segment.Describes(log[segment.path]) && segment.records > 0
      requires forall l | l in segments :: segments[l].path != segment.path
      requires PartialPath(segment.path) !in disk.files
      modifies this`log, disk
      ensures disk.failures >= old(disk.failures) && (ok <==> disk.failures == old(disk.failures))
      ensures Valid() && Finished(old(log), log, segment.path, now, ok)
      ensures forall q | IsSegmentPath(q) :: SameAt(old(disk.files), disk.files, q)
    {
      hide LogOnDisk, StoreOk, NoOrphans, NoPartials, PartialPath, Segment.Describes, AckedAt, CheckpointOf, Written;
      hide EntryOk;
      ghost var path, e := segment.path, log[segment.path];
      EntryAt(store, disk.files, disk.synced, log, path);
      var content := segment.Checkpoint(store, now);
      segment.CheckpointDescribes(store, e, now);
      ghost var placed: bool;
      ok, placed := WriteCheckpoint(segment.path, content);
      ghost var e' := if placed then e.(closedAt := Some(now)) else e;
      EntryCheckpointed(store, old(disk.files), old(disk.synced), disk.files, disk.synced, log, path, now, placed);
      log := log[path := e'];
      forall q | IsSegmentPath(q) ensures SameAt(old(disk.files), disk.files, q) {
        PathKinds(q, path);
      }
      PartialsFrame(segments, old(disk.files), disk.files, path);
    }

    method CloseSegment(ledger: Ledger, now: Json) returns (r: Result<()>)
      requires Valid() && ledger in segments && ClockTime(store.p, now)
      modifies this`segments, this`log, disk
      ensures Valid() && segments == old(segments) - {ledger} && (r.Err? ==> r.error != WriterClosed && r.error != NamesExhausted)
      ensures disk.failures >= old(disk.failures) && (r.Ok? <==> disk.failures == old(disk.failures))
      ensures Finished(old(log), log, old(segments)[ledger].path, now, r.Ok?)
      ensures forall q | IsSegmentPath(q) :: SameAt(old(disk.files), disk.files, q)
    {
      hide LogOnDisk, StoreOk, NoOrphans, NoPartials, PartialPath, AcksOk, Open;
      var segment := segments[ledger];
      PathsDiffer(ledger);
      PartialsAt(segments, disk.files, ledger);
      var ok := StopSegment(ledger);
      if ok && segment.records > 0 {
        ok := CheckpointSegment(segment, now);
        return if ok then Ok(()) else Err(CheckpointFailed);
      }
      FinishedSame(log, segment.path, now, ok);
      return if ok then Ok(()) else Err(CloseFailed);
    }

    // ---- appending

    method EnsureRoot() returns (ok: bool)
      requires Valid()
      modifies this`rootReady, disk`failures
      ensures Valid() && (ok ==> rootReady)
      ensures disk.failures >= old(disk.failures) && (ok <==> disk.failures == old(disk.failures))
    {
      hide LogOnDisk, StoreOk, NoOrphans, NoPartials, PartialPath;
      if rootReady {
        return true;
      }
      ok := disk.Step();
      rootReady := ok;
    }

    /** Private mode, sync, directory sync of a new empty file. */
    method SettleNewFile(path: Str) returns (ok: bool)
      requires Valid() && path in disk.files && disk.files[path] == []
      modifies disk
      ensures Valid() && disk.files == old(disk.files) && disk.synced == old(disk.synced)
      ensures disk.failures >= old(disk.failures) && (ok <==> disk.failures == old(disk.failures))
    {
      hide AuditLedgerWriter.Consistent, StoreOk;
      assert disk.synced[path := 0] == disk.synced;
      ok := disk.Step();
      if ok {
        ok := disk.Sync(path);
      }
      if ok {
        ok := disk.Step();
      }
    }

    /** The new segment becomes its ledger's open one. */
    method AdmitSegment(segment: Segment)
      requires Valid() && segment.ledger !in segments && segment.path !in log
      requires segment.Describes(Fresh(segment.ledger, segment.period)) && segment !in segments.Values
      requires LogOnDisk(store, disk.files, disk.synced, log[segment.path := Fresh(segment.ledger, segment.period)])
      requires PartialPath(segment.path) !in disk.files
      modifies this`segments, this`log
      ensures Valid() && segments == old(segments)[segment.ledger := segment]
      ensures log == old(log)[segment.path := Fresh(segment.ledger, segment.period)]
    {
      hide LogOnDisk, StoreOk, NoOrphans, NoPartials, PartialPath, Segment.Describes;
      AckedAtNone(acks, segment.path);
      PartialsAdd(segments, disk.files, segment.ledger, segment);
      segments := segments[segment.ledger := segment];
      log := log[segment.path := Fresh(segment.ledger, segment.period)];
    }

    /** A file just created, settled and made the ledger's open segment. */
    method StartSegment(ledger: Ledger, period: Str, path: Str) returns (r: Result<Segment>)
      requires Valid() && ledger !in segments && path in disk.files && disk.files[path] == [] && path !in log
      requires LogOnDisk(store, disk.files, disk.synced, log[path := Fresh(ledger, period)]) && PartialPath(path) !in disk.files
      modifies this`segments, this`log, disk
      ensures Valid() && disk.files == old(disk.files) && (r.Err? ==> r.error == SyncFailed)
      ensures disk.failures >= old(disk.failures) && (r.Ok? <==> disk.failures == old(disk.failures))
      ensures r.Err? ==> segments == old(segments) && log == old(log)
      ensures r.Ok? ==> fresh(r.value) && segments == old(segments)[ledger := r.value] && r.value.lastHash.None?
      ensures r.Ok? ==> r.value.period == period && r.value.path == path && log == old(log)[path := Fresh(ledger, period)]
    {
      hide LogOnDisk, StoreOk, NoOrphans, NoPartials, PartialPath, Open, AcksOk;
      var ok := SettleNewFile(path);
      if !ok {
        return Err(SyncFailed);
      }
      var segment := new Segment(ledger, period, path);
      AdmitSegment(segment);
      return Ok(segment);
    }

    /** The hook before an open, then the exclusive create. */
    method CreateFile(path: Str) returns (r: CreateResult)
      requires disk.Valid()
      modifies disk
      ensures disk.Valid() && disk.failures >= old(disk.failures) && (r == CreateFailed <==> disk.failures != old(disk.failures))
      ensures r == AlreadyExists ==> path in old(disk.files)
      ensures r == Created ==> path !in old(disk.files)
      ensures r == Created ==> disk.files == old(disk.files)[path := []] && disk.synced == old(disk.synced)[path := 0]
      ensures r != Created ==> disk.files == old(disk.files) && disk.synced == old(disk.synced)
    {
      var ok := disk.Step();
      if !ok {
        return CreateFailed;
      }
      r := disk.Create(path);
    }

    /** One attempt at a name: None where a file has it. */
    method TryName(ledger: Ledger, period: Str, sequence: nat) returns (r: Option<Result<Segment>>)
      requires Valid() && ledger !in segments && PlainText(period) && |period| <= 64
      modifies this`segments, this`log, disk
      ensures Valid() && (r.Some? && r.value.Err? ==> r.value.error != WriterClosed && r.value.error != NamesExhausted)
      ensures Advanced(old(log), log, PathsOf(old(segments)), PathsOf(segments), old(disk.files), disk.files)
      ensures disk.failures >= old(disk.failures)
      ensures r.Some? && r.value.Err? <==> disk.failures != old(disk.failures)
      ensures r.Some? && r.value.Ok? ==> SegmentPath(ledger, period, store.boot, sequence) !in old(disk.files)
      ensures r.Some? && r.value.Ok? ==> r.value.value.lastHash.None?
      ensures r.Some? && r.value.Ok? ==> fresh(r.value.value) && segments == old(segments)[ledger := r.value.value]
      ensures r.Some? && r.value.Ok? ==> r.value.value.period == period
      ensures r.Some? && r.value.Ok? ==> log == old(log)[r.value.value.path := Fresh(ledger, period)]
      ensures r.Some? && r.value.Ok? ==> r.value.value.path == SegmentPath(ledger, period, store.boot, sequence)
      ensures r.None? || r.value.Err? ==> segments == old(segments) && log == old(log)
      ensures r.None? ==> SegmentPath(ledger, period, store.boot, sequence) in old(disk.files) && disk.files == old(disk.files)
    {
      hide SegmentPath, LogOnDisk, IsSegmentPath, StoreOk, NoOrphans, NoPartials, PartialPath, Advanced, Open, AcksOk;
      var path := SegmentPath(ledger, period, store.boot, sequence);
      SegmentPathIs(ledger, period, store.boot, sequence);
      AdvancedNothing(log, PathsOf(segments), disk.files, disk.files);
      var created := CreateFile(path);
      if created == AlreadyExists {
        return None;
      }
      if created == CreateFailed {
        return Some(Err(OpenFailed));
      }
      NewHasNoPartial(old(disk.files), path);
      PartialsKept(segments, old(disk.files), path, []);
      FileCreated(store, old(disk.files), old(disk.synced), log, path, ledger, period);
      AdvancedNothing(log, PathsOf(segments), old(disk.files), disk.files);
      var started := StartSegment(ledger, period, path);
      if started.Ok? {
        AdvancedOpened(old(log), PathsOf(old(segments)), PathsOf(segments), old(disk.files), path, Fresh(ledger, period));
      }
      return Some(started);
    }

    method Remember(ledger: Ledger, period: Str, next: nat)
      requires Valid()
      modifies this`sequences
      ensures Valid() && sequences == old(sequences)[(ledger, period) := next]
    {
      hide LogOnDisk, StoreOk, NoOrphans, NoPartials, PartialPath;
      sequences := sequences[(ledger, period) := next];
    }

    /** A new segment under the first name from the remembered sequence on that no file has. */
    method OpenSegment(ledger: Ledger, period: Str) returns (r: Result<Segment>)
      requires Valid() && ledger !in segments && PlainText(period) && |period| <= 64
      modifies this`segments, this`sequences, this`log, disk
      ensures Valid() && (r.Err? ==> r.error != WriterClosed)
      ensures Advanced(old(log), log, PathsOf(old(segments)), PathsOf(segments), old(disk.files), disk.files)
      ensures r.Err? ==> segments == old(segments) && log == old(log) && sequences == old(sequences)
      ensures r.Ok? ==> log == old(log)[r.value.path := Fresh(ledger, period)]
      ensures r.Ok? ==> fresh(r.value) && segments == old(segments)[ledger := r.value] && r.value.period == period
      ensures r.Ok? ==> r.value.lastHash.None? && !old(NamesTaken(ledger, period))
      ensures r.Ok? ==>
        FirstFree(old(disk.files), store.boot, ledger, period, old(FirstSequence(ledger, period)), r.value.path, FirstSequence(ledger, period))
      ensures forall k | k != (ledger, period) :: SameIn(sequences, old(sequences), k)
      ensures r == Err(NamesExhausted) ==> old(NamesTaken(ledger, period))
      ensures disk.failures >= old(disk.failures)
      ensures disk.failures != old(disk.failures) <==> r.Err? && r.error != NamesExhausted
      ensures disk.failures == old(disk.failures) ==> Settled(old(log), log, PathsOf(old(segments)), PathsOf(segments))
    {
      hide AuditLedgerWriter.Valid, SegmentPath, LogOnDisk, Advanced, StoreOk, NoOrphans, NoPartials, PartialPath, Open;
      hide AcksOk, Settled, PathsOf;
      var first := FirstSequence(ledger, period);
      var attempts := 0;
      AdvancedNothing(log, PathsOf(segments), disk.files, disk.files);
      while attempts < NAME_ATTEMPTS
        invariant attempts <= NAME_ATTEMPTS && Valid() && disk.files == old(disk.files) && disk.failures == old(disk.failures)
        invariant segments == old(segments) && sequences == old(sequences) && log == old(log)
        invariant forall n | first <= n < first + attempts :: SegmentPath(ledger, period, store.boot, n) in old(disk.files)
      {
        var tried := TryName(ledger, period, first + attempts);
        if tried.Some? {
          if tried.value.Ok? {
            SettledOpened(old(log), PathsOf(old(segments)), tried.value.value.path, Fresh(ledger, period));
            PathsOfMore(old(segments), ledger, tried.value.value);
            Remember(ledger, period, first + attempts + 1);
          }
          return tried.value;
        }
        attempts := attempts + 1;
      }
      SettledKept(log, log, PathsOf(segments));
      return Err(NamesExhausted);
    }

    /** Closes the open segment of a ledger, where it has one. */
    method Retire(ledger: Ledger, now: Json) returns (r: Result<()>)
      requires Valid() && ClockTime(store.p, now)
      modifies this`segments, this`log, disk
      ensures Valid() && segments == old(segments) - {ledger} && (r.Err? ==> r.error != WriterClosed)
      ensures disk.failures >= old(disk.failures) && (r.Ok? <==> disk.failures == old(disk.failures))
      ensures r.Err? ==> r.error != NamesExhausted
      ensures r.Ok? ==> Settled(old(log), log, PathsOf(old(segments)), PathsOf(segments))
      ensures ledger in old(segments) ==> Finished(old(log), log, old(segments)[ledger].path, now, r.Ok?)
      ensures forall q | IsSegmentPath(q) :: SameAt(old(disk.files), disk.files, q)
      ensures Advanced(old(log), log, PathsOf(old(segments)), PathsOf(segments), old(disk.files), disk.files)
    {
      hide LogOnDisk, StoreOk, NoOrphans, NoPartials, PartialPath, AcksOk, Advanced, Open, Finished, Settled, PathsOf;
      if ledger !in segments {
        AdvancedNothing(log, PathsOf(segments), disk.files, disk.files);
        SettledKept(log, log, PathsOf(segments));
        assert segments == segments - {ledger};
        return Ok(());
      }
      PathsDiffer(ledger);
      ghost var path := segments[ledger].path;
      PathsOfLess(segments, ledger);
      r := CloseSegment(ledger, now);
      if r.Ok? {
        SettledClosed(old(log), log, PathsOf(old(segments)), path, now);
      }
      FinishedAdvances(old(log), log, PathsOf(old(segments)), PathsOf(segments), old(disk.files), disk.files, path, now, r.Ok?);
    }

    /** Closing a segment leaves the names of segments as they were. */
    lemma SameNames(ledger: Ledger, period: Str, files: map<Str, Bytes>)
      requires forall q | IsSegmentPath(q) :: SameAt(files, disk.files, q)
      ensures NamesTaken(ledger, period) <==> TakenIn(files, ledger, period)
    {
      hide SegmentPath, IsSegmentPath;
      var first := FirstSequence(ledger, period);
      forall n | first <= n < first + NAME_ATTEMPTS
        ensures SegmentPath(ledger, period, store.boot, n) in disk.files <==> SegmentPath(ledger, period, store.boot, n) in files
      {
        SegmentPathIs(ledger, period, store.boot, n);
        assert SameAt(files, disk.files, SegmentPath(ledger, period, store.boot, n));
      }
    }

    /** Closes the ledger's segment of another period, where it has one, and opens one of this. */
    method Rotate(ledger: Ledger, period: Str, now: Json) returns (r: Result<Segment>)
      requires Valid() && PlainText(period) && |period| <= 64 && ClockTime(store.p, now) && !Serves(ledger, period)
      modifies this`segments, this`sequences, this`log, disk
      ensures Valid() && (r.Err? ==> r.error != WriterClosed)
      ensures r.Ok? ==> ledger in segments && segments[ledger] == r.value && r.value.period == period && r.value.lastHash.None?
      ensures disk.failures >= old(disk.failures)
      ensures disk.failures == old(disk.failures) ==> r.Ok? || (r == Err(NamesExhausted) && old(NamesTaken(ledger, period)))
      ensures r.Ok? ==> disk.failures == old(disk.failures) && !old(NamesTaken(ledger, period))
      ensures segments == if r.Ok? then old(segments)[ledger := r.value] else old(segments) - {ledger}
      ensures r.Ok? ==> fresh(r.value)
      ensures disk.failures == old(disk.failures) ==> Settled(old(log), log, PathsOf(old(segments)), PathsOf(segments))
      ensures Advanced(old(log), log, PathsOf(old(segments)), PathsOf(segments), old(disk.files), disk.files)
    {
      hide AuditLedgerWriter.Valid, Advanced, PlainText, ClockTime, Finished, Settled, PathsOf;
      var retired := Retire(ledger, now);
      if retired.Err? {
        return Err(retired.error);
      }
      ghost var mid, open, files := log, PathsOf(segments), disk.files;
      SameNames(ledger, period, old(disk.files));
      r := OpenSegment(ledger, period);
      if disk.failures == old(disk.failures) {
        SettledTwice(old(log), mid, log, PathsOf(old(segments)), open, PathsOf(segments), files, disk.files);
      }
      AdvancedTwice(old(log), mid, log, PathsOf(old(segments)), open, PathsOf(segments), old(disk.files), files, disk.files);
    }

    /** The open segment of a ledger for a period: the current one, or, after closing one of another period, a new one. */
    method SegmentFor(ledger: Ledger, period: Str, now: Json) returns (r: Result<Segment>)
      requires Valid() && PlainText(period) && |period| <= 64 && ClockTime(store.p, now)
      modifies this`segments, this`sequences, this`log, this`rootReady, disk
      ensures Valid() && (r.Err? ==> r.error != WriterClosed)
      ensures r.Ok? ==> ledger in segments && segments[ledger] == r.value && r.value.period == period
      ensures disk.failures >= old(disk.failures)
      ensures disk.failures == old(disk.failures) ==>
        r.Ok? || (r == Err(NamesExhausted) && !old(Serves(ledger, period)) && old(NamesTaken(ledger, period)))
      ensures r.Ok? ==> disk.failures == old(disk.failures) && (old(Serves(ledger, period)) || !old(NamesTaken(ledger, period)))
      ensures r.Ok? ==> r.value.lastHash == LinkTo(old(Tips()), ledger, period)
      ensures r.Ok? ==> segments == old(segments)[ledger := r.value]
      ensures r.Ok? ==> if old(Serves(ledger, period)) then r.value == old(segments)[ledger] else fresh(r.value)
      ensures r.Err? ==> segments == old(segments) || segments == old(segments) - {ledger}
      ensures r == Err(NamesExhausted) ==> Tips() == old(Tips()) - {ledger}
      ensures r.Ok? ==> Tips() == old(Tips())[ledger := Tip(period, LinkTo(old(Tips()), ledger, period))]
      ensures Tips() - {ledger} == old(Tips()) - {ledger}
      ensures disk.failures == old(disk.failures) ==> Settled(old(log), log, PathsOf(old(segments)), PathsOf(segments))
      ensures Advanced(old(log), log, PathsOf(old(segments)), PathsOf(segments), old(disk.files), disk.files)
    {
      hide AuditLedgerWriter.Valid, LogOnDisk, StoreOk, NoOrphans, NoPartials, PartialPath, Open, AcksOk, Advanced, Settled;
      hide PathsOf, AuditLedgerWriter.Tips, Finished;
      hide PlainText, ClockTime, AuditLedgerWriter.NamesTaken;
      SettledKept(log, log, PathsOf(segments));
      AdvancedNothing(log, PathsOf(segments), disk.files, disk.files);
      var ok := EnsureRoot();
      if !ok {
        return Err(RootFailed);
      }
      if ledger in segments && segments[ledger].period == period {
        assert segments == segments[ledger := segments[ledger]];
        TipPut(ledger);
        LinkedTip(ledger);
        return Ok(segments[ledger]);
      }
      Unlinked(ledger, period);
      r := Rotate(ledger, period, now);
      if r.Ok? {
        TipPut(ledger);
      } else {
        TipDropped(ledger);
      }
    }

    /** Gives the ledger's segment up: it leaves the map, its file is closed and kept as it is. */
    method Abandon(ledger: Ledger)
      requires ledger in segments
      modifies this`segments, disk`failures
      ensures segments == old(segments) - {ledger} && disk.failures >= old(disk.failures)
    {
      segments := segments - {ledger};
      var ignored := disk.Step();
    }

    /** A failed write or sync: the segment keeps the `landed` bytes of the record's line, and is given up. */
    method GiveUp(ledger: Ledger, record: Sealed, ghost landed: nat, ghost files: map<Str, Bytes>)
      requires StoreOk(store) && disk.Valid() && Consistent(files, disk.synced)
      requires ledger in segments && segments[ledger].path in files
      requires Linked(store.p, record, segments[ledger].lastHash)
      requires Stored(store, record, ledger, segments[ledger].period) && landed <= |Line(record)|
      requires disk.files == files[segments[ledger].path := files[segments[ledger].path] + Line(record)[..landed]]
      modifies this`segments, this`log, disk`failures
      ensures Valid() && segments == old(segments) - {ledger} && disk.failures >= old(disk.failures)
      ensures Moved(old(log), log, old(segments)[ledger].path)
    {
      hide StoreOk, LogOnDisk, NoOrphans, NoPartials, PartialPath, Segment.Describes, AckedAt, Linked, Stored;
      ghost var path, e := segments[ledger].path, log[segments[ledger].path];
      PathsApart(segments, log, ledger);
      segments[ledger].DescribesOpen(e);
      EntryTorn(store, files, disk.synced, log, path, record, landed, disk.files);
      EntryPath(store, files, disk.synced, log, path);
      PartialsKept(segments, files, path, disk.files[path]);
      PartialsAt(segments, disk.files, ledger);
      Abandon(ledger);
      log := log[path := e.(extra := Some(record), cut := landed)];
    }

    /** The segment's fields after its record is on disk. */
    method Acknowledge(ledger: Ledger, segment: Segment, record: Sealed, ghost files: map<Str, Bytes>, ghost synced: map<Str, nat>)
      requires StoreOk(store) && disk.Valid() && Consistent(files, synced)
      requires ledger in segments && segments[ledger] == segment && segment.path in files
      requires Linked(store.p, record, segment.lastHash) && Stored(store, record, ledger, segment.period)
      requires disk.files == files[segment.path := files[segment.path] + Line(record)]
      requires disk.synced == synced[segment.path := |disk.files[segment.path]|]
      modifies segment, this`log, this`acks
      ensures Valid() && acks == old(acks) + [Ack(segment.path, record)] && segment.lastHash == Some(record.recordHash)
      ensures Moved(old(log), log, segment.path)
    {
      hide StoreOk, LogOnDisk, NoOrphans, NoPartials, PartialPath, Linked, Stored, Written, Line, Segment.Describes, AcksOk;
      ghost var path, e := segment.path, log[segment.path];
      PathsApart(segments, log, ledger);
      segment.DescribesOpen(e);
      EntryAcked(store, files, synced, log, path, record, disk.files, disk.synced);
      EntryPath(store, files, synced, log, path);
      PartialsKept(segments, files, path, disk.files[path]);
      segment.Add(record, e);
      log := log[path := e.(acked := e.acked + [record])];
      acks := acks + [Ack(path, record)];
      AcksSnoc(old(log), old(acks), path, record);
    }

    /** Writes a line at the end of a file and syncs it, or says which of the two failed. */
    method WriteSynced(path: Str, line: Bytes) returns (error: Option<WriterError>, ghost landed: nat)
      requires disk.Valid() && path in disk.files
      modifies disk
      ensures disk.Valid() && landed <= |line| && (error.None? ==> landed == |line|)
      ensures error.Some? ==> error.value == WriteFailed || error.value == SyncFailed
      ensures disk.failures >= old(disk.failures) && (error.None? <==> disk.failures == old(disk.failures))
      ensures disk.files == old(disk.files)[path := old(disk.files)[path] + line[..landed]]
      ensures disk.synced == if error.None? then old(disk.synced)[path := |disk.files[path]|] else old(disk.synced)
    {
      landed := 0;
      var ok := disk.Step();
      if ok {
        ok, landed := WriteAll(path, line);
      } else {
        NothingLanded(disk.files, path, line);
      }
      if !ok {
        return Some(WriteFailed), landed;
      }
      ok := disk.Step();
      if ok {
        ok := disk.Sync(path);
      }
      return if ok then None else Some(SyncFailed), landed;
    }

    /** Writes and syncs one record's line; a failure gives the segment up. */
    method WriteRecord(ledger: Ledger, record: Sealed) returns (r: Result<Sealed>)
      requires Valid() && ledger in segments
      requires Linked(store.p, record, segments[ledger].lastHash) && Stored(store, record, ledger, segments[ledger].period)
      modifies this`segments, this`log, this`acks, disk, segments[ledger]
      ensures Valid() && (r.Ok? ==> r.value == record) && (r.Err? ==> r.error == WriteFailed || r.error == SyncFailed)
      ensures disk.failures >= old(disk.failures) && (r.Ok? <==> disk.failures == old(disk.failures))
      ensures acks == if r.Ok? then old(acks) + [Ack(old(segments)[ledger].path, record)] else old(acks)
      ensures segments == if r.Ok? then old(segments) else old(segments) - {ledger}
      ensures r.Ok? ==> log.Keys == old(log).Keys
      ensures Tips() == if r.Ok? then old(Tips())[ledger := Tip(old(segments)[ledger].period, Some(record.recordHash))]
                        else old(Tips()) - {ledger}
      ensures Advanced(old(log), log, PathsOf(old(segments)), PathsOf(segments), old(disk.files), disk.files)
      ensures old(segments)[ledger].path in log
      ensures log[old(segments)[ledger].path].ledger == ledger && log[old(segments)[ledger].path].period == old(segments)[ledger].period
    {
      hide StoreOk, LogOnDisk, NoOrphans, NoPartials, PartialPath, Open, AcksOk, Linked, Stored, Line, Advanced, Moved;
      hide AuditLedgerWriter.Tips;
      var path := segments[ledger].path;
      PathsDiffer(ledger);
      EntryPath(store, disk.files, disk.synced, log, path);
      ghost var files, synced := disk.files, disk.synced;
      var line := Line(record);
      var error: Option<WriterError>;
      ghost var landed: nat;
      error, landed := WriteSynced(path, line);
      if error.Some? {
        GiveUp(ledger, record, landed, files);
        MovedAdvances(old(log), log, PathsOf(old(segments)), PathsOf(segments), files, disk.files, path);
        TipDropped(ledger);
        return Err(error.value);
      }
      assert line[..landed] == line;
      Acknowledge(ledger, segments[ledger], record, files, synced);
      MovedKeys(old(log), log, path);
      MovedAdvances(old(log), log, PathsOf(old(segments)), PathsOf(segments), files, disk.files, path);
      TipPut(ledger);
      return Ok(record);
    }

    /** Chains the stored form of a base to the open segment it routes to, and writes it. */
    method AppendTo(ledger: Ledger, period: Str, base: Json) returns (r: Result<Sealed>)
      requires Valid() && RoutesTo(store, base, ledger, period) && ledger in segments && segments[ledger].period == period
      modifies this`segments, this`log, this`acks, disk, segments[ledger]
      ensures Valid() && (r.Err? ==> r.error != WriterClosed && r.error != NamesExhausted && acks == old(acks))
      ensures disk.failures >= old(disk.failures) && (r.Ok? ==> disk.failures == old(disk.failures))
      ensures disk.failures == old(disk.failures) ==>
        r == SealAnswer(store, store.p.persist(base).value.json, LinkTo(old(Tips()), ledger, period))
      ensures Advanced(old(log), log, PathsOf(old(segments)), PathsOf(segments), old(disk.files), disk.files)
      ensures segments == if disk.failures == old(disk.failures) then old(segments) else old(segments) - {ledger}
      ensures r.Ok? ==> Tips() == old(Tips())[ledger := Tip(period, Some(r.value.recordHash))]
      ensures r.Err? && disk.failures == old(disk.failures) ==> Tips() == old(Tips())
      ensures Tips() - {ledger} == old(Tips()) - {ledger}
      ensures disk.failures == old(disk.failures) ==> Settled(old(log), log, PathsOf(old(segments)), PathsOf(segments))
      ensures r.Ok? ==> acks == old(acks) + [Ack(old(segments)[ledger].path, r.value)]
      ensures r.Ok? ==> r.value.previousHash == LinkTo(old(Tips()), ledger, period)
      ensures r.Ok? ==> Routed(store, base, r.value, log, old(segments)[ledger].path)
    {
      hide AuditLedgerWriter.Valid, StoreOk, LogOnDisk, NoOrphans, NoPartials, PartialPath, Open, AcksOk, Linked, Stored;
      hide Line, Advanced, ChainHash, AuditLedgerWriter.Tips, Settled, PathsOf;
      SettledKept(log, log, PathsOf(segments));
      LinkedTip(ledger);
      AdvancedNothing(log, PathsOf(segments), disk.files, disk.files);
      var persisted := store.p.persist(base).value.json;
      var last := segments[ledger].lastHash;
      var recordHash := ChainHash(store.p, persisted, last);
      if recordHash.None? {
        return Err(NotJson);
      }
      var record := Sealed(persisted, last, recordHash.value);
      if |Line(record)| > MAX_AUDIT_RECORD_BYTES {
        return Err(RecordTooLarge);
      }
      RecordStored(store, base, record, last);
      r := WriteRecord(ledger, record);
      if r.Ok? {
        SettledKept(old(log), log, PathsOf(segments));
      }
    }

    /** An append to the ledger and period its base routes to. */
    method AppendRouted(ledger: Ledger, period: Str, base: Json, now: Json) returns (r: Result<Sealed>)
      requires Valid() && ClockTime(store.p, now) && PlainText(period) && |period| <= 64
      requires RoutesTo(store, base, ledger, period)
      modifies this`segments, this`sequences, this`log, this`acks, this`rootReady, disk, segments.Values
      ensures Valid() && (r.Err? ==> r.error != WriterClosed && acks == old(acks))
      ensures disk.failures >= old(disk.failures) && (r.Ok? ==> disk.failures == old(disk.failures))
      ensures disk.failures == old(disk.failures) ==> r == old(RoutedAnswer(ledger, period, store.p.persist(base).value.json))
      ensures Advanced(old(log), log, PathsOf(old(segments)), PathsOf(segments), old(disk.files), disk.files)
      ensures forall l | l in segments :: segments[l] in old(segments).Values || fresh(segments[l])
      ensures segments - {ledger} == old(segments) - {ledger} && Tips() - {ledger} == old(Tips()) - {ledger}
      ensures disk.failures == old(disk.failures) ==> Tips() == NextTips(old(Tips()), ledger, period, r)
      ensures disk.failures == old(disk.failures) ==> Settled(old(log), log, PathsOf(old(segments)), PathsOf(segments))
      ensures r.Ok? ==> |acks| == |old(acks)| + 1 && acks[..|old(acks)|] == old(acks) && acks[|old(acks)|].record == r.value
      ensures r.Ok? ==> Routed(store, base, r.value, log, acks[|old(acks)|].path)
      ensures r.Ok? ==> ChainsOn(store, base, r.value, old(Tips()), segments, acks[|old(acks)|].path)
    {
      hide AuditLedgerWriter.Valid, Advanced, Routed, SealAnswer, AuditLedgerWriter.NamesTaken, AuditLedgerWriter.Tips;
      hide Settled, PathsOf;
      hide ClockTime, PlainText, Period, LedgerForAction;
      var got := SegmentFor(ledger, period, now);
      if got.Err? {
        return Err(got.error);
      }
      ghost var mid, open, files := log, segments, disk.files;
      PutLess(old(segments), ledger, got.value);
      r := AppendTo(ledger, period, base);
      if disk.failures == old(disk.failures) {
        SettledTwice(old(log), mid, log, PathsOf(old(segments)), PathsOf(open), PathsOf(segments), files, disk.files);
      }
      AdvancedTwice(old(log), mid, log, PathsOf(old(segments)), PathsOf(open), PathsOf(segments), old(disk.files), files, disk.files);
    }

    /** `append`: one record, after the last acknowledged one of its ledger and period, on disk and synced; or an error,
        and nothing acknowledged. */
    method Append(base: Json, now: Json) returns (r: Result<Sealed>)
      requires Invariant() && ClockTime(store.p, now)
      modifies this, disk, segments.Values
      ensures Invariant() && closed == old(closed)
      ensures Advanced(old(log), log, PathsOf(old(segments)), PathsOf(segments), old(disk.files), disk.files)
      ensures forall l | l in segments :: segments[l] in old(segments).Values || fresh(segments[l])
      ensures OtherLedgersKept(store, base, old(segments), segments) && OtherLedgersKept(store, base, old(Tips()), Tips())
      ensures disk.failures == old(disk.failures) ==> Tips() == AppendTips(store, old(Tips()), base, r)
      ensures disk.failures == old(disk.failures) ==> Settled(old(log), log, PathsOf(old(segments)), PathsOf(segments))
      ensures r.Err? ==> acks == old(acks)
      ensures r == Err(WriterClosed) <==> old(closed)
      ensures disk.failures >= old(disk.failures) && (r.Ok? ==> disk.failures == old(disk.failures))
      ensures disk.failures == old(disk.failures) ==> r == old(Answer(base))
      ensures old(closed) ==> log == old(log) && disk.files == old(disk.files)
      ensures r.Ok? ==> |acks| == |old(acks)| + 1 && acks[..|old(acks)|] == old(acks) && acks[|old(acks)|].record == r.value
      ensures r.Ok? ==> Routed(store, base, r.value, log, acks[|old(acks)|].path)
      ensures r.Ok? ==> ChainsOn(store, base, r.value, old(Tips()), segments, acks[|old(acks)|].path)
    {
      hide AuditLedgerWriter.Valid, StoreOk, LogOnDisk, NoOrphans, NoPartials, PartialPath, Open, AcksOk, Advanced, Routed;
      hide AuditLedgerWriter.Tips, AuditLedgerWriter.RoutedAnswer;
      hide ChainsOn, NextTips, Settled, PathsOf, Period, LedgerForAction, ClockTime, PlainText, SealAnswer, OtherLedgersKept;
      hide AppendTips;
      SettledKept(log, log, PathsOf(segments));
      AdvancedNothing(log, PathsOf(segments), disk.files, disk.files);
      ghost var tips := Tips();
      NothingAppended(store, base, segments, tips, Err(WriterClosed));
      NothingAppended(store, base, tips, tips, Err(BaseRejected));
      NothingAppended(store, base, tips, tips, Err(TimeRejected));
      if closed {
        return Err(WriterClosed);
      }
      var persisted := store.p.persist(base);
      if persisted.None? {
        return Err(BaseRejected);
      }
      var ym := store.civil(persisted.value.time);
      if ym.None? {
        return Err(TimeRejected);
      }
      HasGoodStore();
      CalendarMonth(store, persisted.value.time);
      PeriodPlain(ym.value);
      var ledger, period := LedgerForAction(persisted.value.action), Period(ym.value);
      r := AppendRouted(ledger, period, base, now);
      RoutedAppended(store, base, ledger, period, old(segments), segments, tips, Tips(), r);
    }

    /** `close`: closes every open segment, and reports the first failure after trying them all. */
    method Close(clock: Ledger -> Json) returns (r: Result<()>)
      requires Invariant() && forall l :: ClockTime(store.p, clock(l))
      modifies this, disk
      ensures Invariant() && closed && acks == old(acks)
      ensures disk.failures >= old(disk.failures) && (r.Ok? <==> disk.failures == old(disk.failures))
      ensures Advanced(old(log), log, PathsOf(old(segments)), PathsOf(segments), old(disk.files), disk.files)
      ensures old(closed) ==> log == old(log) && disk.files == old(disk.files)
      ensures |Missing(log, old(segments), map[])| <= disk.failures - old(disk.failures)
      ensures disk.failures == old(disk.failures) ==> Settled(old(log), log, PathsOf(old(segments)), PathsOf(segments))
    {
      hide AuditLedgerWriter.Valid, StoreOk, LogOnDisk, NoOrphans, NoPartials, PartialPath, Open, AcksOk, Advanced, Finished;
      hide HasCheckpoint, Missing, ClockTime, Settled, PathsOf;
      SettledKept(log, log, PathsOf(segments));
      AdvancedNothing(log, PathsOf(segments), disk.files, disk.files);
      NoneMissing(log, segments);
      if closed {
        return Ok(());
      }
      closed := true;
      r := Ok(());
      while segments != map[]
        invariant Valid() && closed && acks == old(acks)
        invariant disk.failures >= old(disk.failures) && (r.Ok? <==> disk.failures == old(disk.failures))
        invariant forall l | l in segments :: l in old(segments) && segments[l] == old(segments)[l]
        invariant Advanced(old(log), log, PathsOf(old(segments)), PathsOf(segments), old(disk.files), disk.files)
        invariant |Missing(log, old(segments), segments)| <= disk.failures - old(disk.failures)
        invariant disk.failures == old(disk.failures) ==> Settled(old(log), log, PathsOf(old(segments)), PathsOf(segments))
        decreases segments.Keys
      {
        var l :| l in segments;
        ghost var mid, open, files := log, segments, disk.files;
        var one := Retire(l, clock(l));
        AdvancedTwice(old(log), mid, log, PathsOf(old(segments)), PathsOf(open), PathsOf(segments), old(disk.files), files, disk.files);
        OneMoreMissing(mid, log, old(segments), open, l, clock(l), one.Ok?);
        if disk.failures == old(disk.failures) {
          SettledTwice(old(log), mid, log, PathsOf(old(segments)), PathsOf(open), PathsOf(segments), files, disk.files);
        }
        if one.Err? && r.Ok? {
          r := one;
        }
      }
    }
  }
}
