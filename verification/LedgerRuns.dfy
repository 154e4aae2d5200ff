/** Whole runs of the audit ledger: what is on disk after any sequence of calls with any failures. */
module LedgerRuns {
  import opened Text
  import opened Json
  import opened Chain
  import opened Verify
  import opened SegmentNames
  import opened SegmentLogs
  import opened Disk
  import opened AuditLedger

  /** One call on a writer; calls are serial. */
  datatype Call = AppendCall(base: Json, now: Json) | CloseCall(clock: Ledger -> Json)

  ghost predicate CallOk(p: Platform, c: Call) {
    match c
    case AppendCall(_, now) => ClockTime(p, now)
    case CloseCall(clock) => forall l :: ClockTime(p, clock(l))
  }

  function CheckpointAt(files: map<Str, Bytes>, path: Str): Option<Bytes> {
    if CheckpointPath(path) in files then Some(files[CheckpointPath(path)]) else None
  }

  /** Crash consistency: cut any segment file anywhere at or beyond its synced bytes, and the verifier, with the
      checkpoint that is there, answers as `VerdictIs` says. */
  ghost predicate Recoverable(s: Store, files: map<Str, Bytes>, synced: map<Str, nat>, log: map<Str, SegmentLog>) {
    forall path, cut: nat, maxBytes: nat |
      path in log && path in files && path in synced && synced[path] <= cut <= |files[path]| <= maxBytes && ExactCount(maxBytes) ::
      VerdictIs(log[path], cut, VerifySpec(s.p, Some(files[path][..cut]), CheckpointAt(files, path), maxBytes))
  }

  lemma LogRecoverable(s: Store, files: map<Str, Bytes>, synced: map<Str, nat>, log: map<Str, SegmentLog>)
    requires StoreOk(s) && LogOnDisk(s, files, synced, log)
    ensures Recoverable(s, files, synced, log)
  {
    hide VerifySpec, VerdictIs, CheckpointOf, Lawful;
    forall path, cut: nat, maxBytes: nat |
      path in log && path in files && path in synced && synced[path] <= cut <= |files[path]| <= maxBytes && ExactCount(maxBytes)
      ensures VerdictIs(log[path], cut, VerifySpec(s.p, Some(files[path][..cut]), CheckpointAt(files, path), maxBytes))
    {
      EntryAt(s, files, synced, log, path);
      SegmentVerdict(s, log[path], cut, maxBytes);
      assert CheckpointAt(files, path) == CheckpointContent(s, log[path]);
    }
  }

  /** Every segment that was opened in a run, or open at its start, and holds records is accepted with its checkpoint. */
  ghost predicate AllCheckpointed(s: Store, files: map<Str, Bytes>, before: map<Str, SegmentLog>, open: set<Str>,
                                  log: map<Str, SegmentLog>)
  {
    forall path, maxBytes: nat |
      path in log && (path !in before || path in open) && log[path].acked != [] && path in files
      && |files[path]| <= maxBytes && ExactCount(maxBytes) ::
      VerifySpec(s.p, Some(files[path]), CheckpointAt(files, path), maxBytes).checkpointed
  }

  lemma SettledCheckpointed(s: Store, files: map<Str, Bytes>, synced: map<Str, nat>, before: map<Str, SegmentLog>, open: set<Str>,
                            log: map<Str, SegmentLog>)
    requires StoreOk(s) && LogOnDisk(s, files, synced, log) && Settled(before, log, open, {})
    ensures AllCheckpointed(s, files, before, open, log)
  {
    hide VerifySpec, Lawful, LogOnDisk;
    forall path, maxBytes: nat |
      path in log && (path !in before || path in open) && log[path].acked != [] && path in files
      && |files[path]| <= maxBytes && ExactCount(maxBytes)
      ensures VerifySpec(s.p, Some(files[path]), CheckpointAt(files, path), maxBytes).checkpointed
    {
      EntryAt(s, files, synced, log, path);
      SegmentVerdict(s, log[path], |files[path]|, maxBytes);
      assert files[path] == Content(log[path])[..|files[path]|] && CheckpointAt(files, path) == CheckpointContent(s, log[path]);
    }
  }

  // ---- the answers of a run

  /** The answer of each call: an append's, or none of a close. */
  type Replies = seq<Option<Result<Sealed>>>

  function Answered(replies: Replies): seq<Sealed> {
    if replies == [] then []
    else
      var before, last := Answered(replies[..|replies| - 1]), replies[|replies| - 1];
      if last.Some? && last.value.Ok? then before + [last.value.value] else before
  }

  function RecordsOf(acks: seq<Ack>): (rs: seq<Sealed>)
    ensures |rs| == |acks|
  {
    if acks == [] then [] else RecordsOf(acks[..|acks| - 1]) + [acks[|acks| - 1].record]
  }

  lemma OneMoreAnswer(replies: Replies, r: Result<Sealed>, acks: seq<Ack>, acks': seq<Ack>, start: nat)
    requires start <= |acks| && RecordsOf(acks)[start..] == Answered(replies)
    requires if r.Ok? then |acks'| == |acks| + 1 && acks'[..|acks|] == acks && acks'[|acks|].record == r.value else acks' == acks
    ensures start <= |acks'| && RecordsOf(acks')[start..] == Answered(replies + [Some(r)])
  {
    assert (replies + [Some(r)])[..|replies|] == replies;
    if r.Ok? {
      assert acks'[..|acks'| - 1] == acks && acks'[|acks'| - 1].record == r.value;
      assert RecordsOf(acks') == RecordsOf(acks) + [r.value];
      assert (RecordsOf(acks) + [r.value])[start..] == RecordsOf(acks)[start..] + [r.value];
    }
  }

  lemma NoAnswer(replies: Replies)
    ensures Answered(replies + [None]) == Answered(replies)
  {
    assert (replies + [None])[..|replies|] == replies;
  }

  /** What one answered call makes of the open segments' last hashes. */
  function TipsNext(s: Store, tips: map<Ledger, Tip>, call: Call, reply: Option<Result<Sealed>>): map<Ledger, Tip> {
    if call.CloseCall? then map[]
    else if reply.None? then tips
    else AppendTips(s, tips, call.base, reply.value)
  }

  /** What the answers of a run without failures say is open after it. */
  function TipsAfter(s: Store, calls: seq<Call>, replies: Replies, start: map<Ledger, Tip>): map<Ledger, Tip>
    requires |calls| == |replies|
  {
    if calls == [] then start
    else
      var n := |calls| - 1;
      TipsNext(s, TipsAfter(s, calls[..n], replies[..n], start), calls[n], replies[n])
  }

  lemma TipsAfterNext(s: Store, calls: seq<Call>, replies: Replies, start: map<Ledger, Tip>, call: Call, reply: Option<Result<Sealed>>)
    requires |calls| == |replies|
    ensures TipsAfter(s, calls + [call], replies + [reply], start) == TipsNext(s, TipsAfter(s, calls, replies, start), call, reply)
  {
    hide TipsNext;
    assert (calls + [call])[..|calls|] == calls && (replies + [reply])[..|calls|] == replies;
  }

  /** An answered append names the hash that the answers before it have its ledger and period at. */
  predicate Follows(s: Store, calls: seq<Call>, replies: Replies, start: map<Ledger, Tip>, j: nat)
    requires |calls| == |replies| && j < |calls|
  {
    calls[j].AppendCall? && replies[j].Some? && replies[j].value.Ok? ==>
      var route := RouteOf(s, calls[j].base);
      route.Some?
      && replies[j].value.value.previousHash == LinkTo(TipsAfter(s, calls[..j], replies[..j], start), route.value.0, route.value.1)
  }

  predicate AllFollow(s: Store, calls: seq<Call>, replies: Replies, start: map<Ledger, Tip>)
    requires |calls| == |replies|
  {
    forall j {:trigger Follows(s, calls, replies, start, j)} | 0 <= j < |calls| :: Follows(s, calls, replies, start, j)
  }

  lemma OneMoreFollows(s: Store, calls: seq<Call>, replies: Replies, start: map<Ledger, Tip>, call: Call, reply: Option<Result<Sealed>>)
    requires |calls| == |replies| && AllFollow(s, calls, replies, start)
    requires call.AppendCall? && reply.Some? && reply.value.Ok? ==>
      RouteOf(s, call.base).Some? && reply.value.value.previousHash
        == LinkTo(TipsAfter(s, calls, replies, start), RouteOf(s, call.base).value.0, RouteOf(s, call.base).value.1)
    ensures AllFollow(s, calls + [call], replies + [reply], start)
  {
    hide TipsAfter, RouteOf, LinkTo, TipsNext;
    var calls', replies' := calls + [call], replies + [reply];
    forall j | 0 <= j < |calls'| ensures Follows(s, calls', replies', start, j) {
      if j < |calls| {
        assert Follows(s, calls, replies, start, j);
        assert calls'[..j] == calls[..j] && replies'[..j] == replies[..j];
      } else {
        assert calls'[..j] == calls && replies'[..j] == replies;
      }
    }
  }

  /** A call that leaves a ledger at a period as it is: an append elsewhere, or one refused there. */
  predicate Leaves(s: Store, call: Call, reply: Option<Result<Sealed>>, ledger: Ledger, period: Str) {
    && call.AppendCall? && reply.Some?
    && var route := RouteOf(s, call.base);
    route.None? || route.value.0 != ledger || reply.value == Err(WriterClosed)
    || (route.value.1 == period && reply.value.Err? && reply.value.error != NamesExhausted)
  }

  lemma {:induction false} TipStays(s: Store, calls: seq<Call>, replies: Replies, start: map<Ledger, Tip>, i: nat, ledger: Ledger,
                                    period: Str)
    requires |calls| == |replies| && i < |calls| && calls[i].AppendCall? && RoutesTo(s, calls[i].base, ledger, period)
    requires replies[i].Some? && replies[i].value.Ok?
    requires forall k | i < k < |calls| :: Leaves(s, calls[k], replies[k], ledger, period)
    ensures var tips := TipsAfter(s, calls, replies, start);
      ledger in tips && tips[ledger] == Tip(period, Some(replies[i].value.value.recordHash))
    decreases |calls|
  {
    hide RouteOf, Period, LedgerForAction;
    var n := |calls| - 1;
    if i < n {
      TipStays(s, calls[..n], replies[..n], start, i, ledger, period);
      assert Leaves(s, calls[n], replies[n], ledger, period);
    }
  }

  /** Read off the answers alone: of two answered appends to one ledger and period with nothing between them that touches
      that ledger and period, and no close, the second names the first's hash. */
  lemma NextNamesLast(s: Store, calls: seq<Call>, replies: Replies, start: map<Ledger, Tip>, i: nat, j: nat, ledger: Ledger,
                      period: Str)
    requires |calls| == |replies| && i < j < |calls| && AllFollow(s, calls, replies, start)
    requires calls[i].AppendCall? && RoutesTo(s, calls[i].base, ledger, period) && replies[i].Some? && replies[i].value.Ok?
    requires calls[j].AppendCall? && RoutesTo(s, calls[j].base, ledger, period) && replies[j].Some? && replies[j].value.Ok?
    requires forall k | i < k < j :: Leaves(s, calls[k], replies[k], ledger, period)
    ensures replies[j].value.value.previousHash == Some(replies[i].value.value.recordHash)
  {
    hide TipsAfter, Leaves;
    TipStays(s, calls[..j], replies[..j], start, i, ledger, period);
    assert Follows(s, calls, replies, start, j);
  }

  lemma NewFilesLogged(log: map<Str, SegmentLog>, log': map<Str, SegmentLog>, open: set<Str>, open': set<Str>,
                       files: map<Str, Bytes>, files': map<Str, Bytes>)
    requires Advanced(log, log', open, open', files, files')
    ensures forall path | path in files' && IsSegmentPath(path) && path !in files :: path in log' || files'[path] == []
  {
  }

  /** No append erred for a step of the disk. */
  predicate NoForcedError(replies: Replies) {
    forall i | 0 <= i < |replies| && replies[i].Some? && replies[i].value.Err? :: Unforced(replies[i].value.error)
  }

  lemma NoErrorOfClose(replies: Replies)
    requires NoForcedError(replies)
    ensures NoForcedError(replies + [None])
  {
  }

  lemma OneMoreUnforced(replies: Replies, r: Result<Sealed>)
    requires NoForcedError(replies) && (r.Err? ==> Unforced(r.error))
    ensures NoForcedError(replies + [Some(r)])
  {
  }

  lemma ChainedOn(s: Store, base: Json, r: Result<Sealed>, tips: map<Ledger, Tip>, segments: map<Ledger, Segment>, acks: seq<Ack>, n: nat)
    requires r.Ok? ==> n < |acks| && ChainsOn(s, base, r.value, tips, segments, acks[n].path)
    ensures r.Ok? ==>
      RouteOf(s, base).Some? && r.value.previousHash == LinkTo(tips, RouteOf(s, base).value.0, RouteOf(s, base).value.1)
  {
  }

  lemma RunStarts(s: Store, start: map<Ledger, Tip>, acks: seq<Ack>)
    ensures AllFollow(s, [], [], start) && TipsAfter(s, [], [], start) == start && NoForcedError([])
    ensures RecordsOf(acks)[|acks|..] == Answered([])
  {
  }

  // ---- whole runs

  /** Any serial run, with a failure at any step of any call. Every segment the writer ever opened is recoverable; the
      log holds, path by path and in order, exactly the records that were answered; the files of other writers, and
      segments given up or closed before, are as they were, and a new segment file outside the log is empty. Where no
      step of the disk failed, an append erred for a cause of its own, every answered record names the last answered one of
      its ledger and period, and once the writer is closed every segment of the run has its checkpoint. */
  method Run(w: AuditLedgerWriter, calls: seq<Call>) returns (replies: Replies)
    requires w.Invariant() && forall i | 0 <= i < |calls| :: CallOk(w.store.p, calls[i])
    modifies w, w.disk, w.segments.Values
    ensures w.Invariant() && Recoverable(w.store, w.disk.files, w.disk.synced, w.log)
    ensures |replies| == |calls| && forall i | 0 <= i < |calls| :: replies[i].Some? <==> calls[i].AppendCall?
    ensures |w.acks| >= |old(w.acks)| && RecordsOf(w.acks)[|old(w.acks)|..] == Answered(replies)
    ensures forall path | path in w.log :: w.log[path].acked == AckedAt(w.acks, path)
    ensures Advanced(old(w.log), w.log, PathsOf(old(w.segments)), PathsOf(w.segments), old(w.disk.files), w.disk.files)
    ensures forall path | path in w.disk.files && IsSegmentPath(path) && path !in old(w.disk.files) ::
      path in w.log || w.disk.files[path] == []
    ensures w.disk.failures == old(w.disk.failures) ==> NoForcedError(replies) && AllFollow(w.store, calls, replies, old(w.Tips()))
    ensures w.disk.failures == old(w.disk.failures) ==> Settled(old(w.log), w.log, PathsOf(old(w.segments)), PathsOf(w.segments))
    ensures w.disk.failures == old(w.disk.failures) && w.closed ==>
      AllCheckpointed(w.store, w.disk.files, old(w.log), PathsOf(old(w.segments)), w.log)
  {
    hide LogOnDisk, NoOrphans, NoPartials, StoreOk, Advanced, Open, Settled, AllFollow, PathsOf, NoForcedError;
    hide AllCheckpointed;
    hide AuditLedgerWriter.Valid, AuditLedgerWriter.Answer, AuditLedgerWriter.Tips, Unforced, Recoverable, IsSegmentPath;
    hide TipsAfter, AppendTips, ChainsOn, OtherLedgersKept, Routed, Answered, RecordsOf, Missing;
    replies := [];
    ghost var start := w.Tips();
    RunStarts(w.store, start, w.acks);
    AdvancedNothing(w.log, PathsOf(w.segments), w.disk.files, w.disk.files);
    SettledKept(w.log, w.log, PathsOf(w.segments));
    for i := 0 to |calls|
      invariant w.Invariant() && |w.acks| >= |old(w.acks)| && |replies| == i
      invariant forall j | 0 <= j < i :: replies[j].Some? <==> calls[j].AppendCall?
      invariant RecordsOf(w.acks)[|old(w.acks)|..] == Answered(replies)
      invariant w.disk.failures >= old(w.disk.failures)
      invariant w.disk.failures == old(w.disk.failures) ==>
        NoForcedError(replies) && AllFollow(w.store, calls[..i], replies, start) && w.Tips() == TipsAfter(w.store, calls[..i], replies, start)
      invariant w.disk.failures == old(w.disk.failures) ==>
        Settled(old(w.log), w.log, PathsOf(old(w.segments)), PathsOf(w.segments))
      invariant forall s | s in w.segments.Values :: s in old(w.segments).Values || fresh(s)
      invariant Advanced(old(w.log), w.log, PathsOf(old(w.segments)), PathsOf(w.segments), old(w.disk.files), w.disk.files)
    {
      ghost var mid, open, files, acks := w.log, w.segments, w.disk.files, w.acks;
      ghost var tips, failures := w.Tips(), w.disk.failures;
      ghost var before := replies;
      assert calls[..i + 1] == calls[..i] + [calls[i]];
      match calls[i] {
        case AppendCall(base, now) =>
          ghost var expected := w.Answer(base);
          var r := w.Append(base, now);
          assert forall s | s in w.segments.Values :: s in open.Values || fresh(s);
          OneMoreAnswer(replies, r, acks, w.acks, |old(w.acks)|);
          replies := replies + [Some(r)];
          if w.disk.failures == old(w.disk.failures) {
            OneMoreUnforced(before, r);
            ChainedOn(w.store, base, r, tips, w.segments, w.acks, |acks|);
          }
        case CloseCall(clock) =>
          var closed := w.Close(clock);
          w.NoTips();
          NoAnswer(replies);
          replies := replies + [None];
          if w.disk.failures == old(w.disk.failures) {
            NoErrorOfClose(before);
          }
      }
      if w.disk.failures == old(w.disk.failures) {
        TipsAfterNext(w.store, calls[..i], before, start, calls[i], replies[i]);
        OneMoreFollows(w.store, calls[..i], before, start, calls[i], replies[i]);
        SettledTwice(old(w.log), mid, w.log, PathsOf(old(w.segments)), PathsOf(open), PathsOf(w.segments), files, w.disk.files);
      }
      AdvancedTwice(old(w.log), mid, w.log, PathsOf(old(w.segments)), PathsOf(open), PathsOf(w.segments), old(w.disk.files), files,
                    w.disk.files);
    }
    assert calls[..|calls|] == calls;
    NewFilesLogged(old(w.log), w.log, PathsOf(old(w.segments)), PathsOf(w.segments), old(w.disk.files), w.disk.files);
    w.LogTells();
    LogRecoverable(w.store, w.disk.files, w.disk.synced, w.log);
    if w.closed {
      w.NoTips();
      if w.disk.failures == old(w.disk.failures) {
        SettledCheckpointed(w.store, w.disk.files, w.disk.synced, old(w.log), PathsOf(old(w.segments)), w.log);
      }
    }
  }
}
