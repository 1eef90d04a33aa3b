/** What every run of the capture worker keeps. */
module SourceWorkerSafety {
  import opened SourceWorker
  import opened Wrappers

  ghost predicate Leased(w: Worker, f: nat) {
    exists i :: 0 <= i < |w.leases| && w.leases[i].active && w.leases[i].frame == f
  }

  /** The leases name distinct frames of the open context, each under the sequence it was sent
      under, and no sequence is in use that has not been passed by the counter. */
  ghost predicate LeasesOk(w: Worker) {
    && |w.leases| == MAX_IN_FLIGHT
    && (forall i :: 0 <= i < |w.leases| && w.leases[i].active ==> LeaseOk(w, w.leases[i]))
    && (forall i, j :: 0 <= i < j < |w.leases| && w.leases[i].active && w.leases[j].active ==>
          w.leases[i].frame != w.leases[j].frame)
  }

  ghost predicate LeaseOk(w: Worker, l: Lease) {
    && l.frame < |w.frames|
    && w.frames[l.frame] == Frame(w.ctx, [], Some(l.sequence))
    && l.sequence < w.counter
  }

  /** A frame is leased, or has been handed back once, to its own context; each successfully sent
      frame has a sequence of its own, later frames later ones. */
  ghost predicate LedgerOk(w: Worker) {
    && (forall f :: 0 <= f < |w.frames| ==> FrameOk(w, f))
    && (forall f, g :: 0 <= f < g < |w.frames| && w.frames[f].sent.Some? && w.frames[g].sent.Some? ==>
          w.frames[f].sent.value < w.frames[g].sent.value)
  }

  ghost predicate FrameOk(w: Worker, f: nat)
    requires f < |w.frames|
  {
    && 1 <= w.frames[f].owner <= w.contexts
    && (w.frames[f].handedTo == [w.frames[f].owner] || Leased(w, f))
    && (w.frames[f].sent.Some? ==> w.frames[f].sent.value < w.counter)
  }

  /** A sent frame goes back to a context that is still open only after its acknowledgement. */
  ghost predicate AcksOk(w: Worker) {
    forall f :: 0 <= f < |w.frames| && w.frames[f].sent.Some? && w.frames[f].handedTo != [] ==>
      w.frames[f].owner == w.ctx ==> w.frames[f].sent.value in w.acked
  }

  /** The device is closed exactly while recovering. */
  ghost predicate DeviceOk(w: Worker) {
    && w.ctx <= w.contexts
    && (w.ctx == 0 <==> w.recovering)
    && (w.recoverTimer ==> w.recovering)
    && (w.recovering && !w.shuttingDown ==> w.recoverTimer)
  }

  ghost predicate BooksOk(w: Worker) {
    var s := w.stats;
    && s.attempts == s.ok + s.timeouts + s.nosig + s.errors
    && s.lastCounter <= w.counter
    && s.ok == (w.counter - s.lastCounter) + s.noFd + s.split + s.leaseFull + s.wouldBlock + s.sendErrors
    && s.leaseFull == 0
  }

  ghost predicate Inv(w: Worker) {
    LeasesOk(w) && LedgerOk(w) && AcksOk(w) && DeviceOk(w) && BooksOk(w)
  }

  // ---------------------------------------------------------------- giving frames back

  lemma ReleaseKeepsLedger(w: Worker, i: nat)
    requires LeasesOk(w) && LedgerOk(w) && w.ctx != 0
    ensures LeasesOk(ReleaseIndex(w, i)) && LedgerOk(ReleaseIndex(w, i))
  {
    if i < |w.leases| && w.leases[i].active {
      var t, f := ReleaseIndex(w, i), w.leases[i].frame;
      assert LeaseOk(w, w.leases[i]);
      forall j | 0 <= j < |t.leases| && t.leases[j].active ensures LeaseOk(t, t.leases[j]) {
        assert LeaseOk(w, w.leases[j]);
      }
      forall g | 0 <= g < |t.frames| ensures FrameOk(t, g) {
        assert FrameOk(w, g);
        if g != f && Leased(w, g) {
          var j :| 0 <= j < |w.leases| && w.leases[j].active && w.leases[j].frame == g;
          assert t.leases[j].active;
        }
      }
    }
  }

  /** Releasing one lease changes no frame's sequence or owner, and no frame but its own. */
  lemma ReleaseTouchesOne(w: Worker, i: nat)
    requires LeasesOk(w)
    ensures var t := ReleaseIndex(w, i);
            && t == w.(leases := t.leases, frames := t.frames)
            && |t.leases| == |w.leases| && |t.frames| == |w.frames|
            && (forall g :: 0 <= g < |w.frames| ==>
                  && t.frames[g].sent == w.frames[g].sent && t.frames[g].owner == w.frames[g].owner
                  && (t.frames[g] == w.frames[g] || (i < |w.leases| && w.leases[i].active && g == w.leases[i].frame)))
            && (forall j :: 0 <= j < |w.leases| ==> t.leases[j] == if j == i then t.leases[j] else w.leases[j])
            && (i < |w.leases| ==> !t.leases[i].active)
  {
  }

  lemma {:induction false} ReleaseBelowKeepsLedger(w: Worker, n: nat)
    requires LeasesOk(w) && LedgerOk(w) && w.ctx != 0 && n <= |w.leases|
    ensures var t := ReleaseBelow(w, n);
            && LeasesOk(t) && LedgerOk(t) && |t.frames| == |w.frames|
            && (forall j :: 0 <= j < n ==> !t.leases[j].active)
  {
    if n > 0 {
      ReleaseBelowKeepsLedger(w, n - 1);
      var t := ReleaseBelow(w, n - 1);
      ReleaseKeepsLedger(t, n - 1);
      ReleaseTouchesOne(t, n - 1);
    }
  }

  /** Closing hands every leased frame back; nothing is leased any more. */
  lemma CloseKeepsLedger(w: Worker)
    requires LeasesOk(w) && LedgerOk(w) && (w.ctx == 0 ==> NothingLeased(w))
    ensures var t := CloseCurrent(w);
            && LeasesOk(t) && LedgerOk(t) && AcksOk(t) && NothingLeased(t) && t.ctx == 0
            && t == w.(leases := t.leases, frames := t.frames, ctx := 0)
  {
    if w.ctx != 0 {
      ReleaseBelowKeepsLedger(w, |w.leases|);
      var t := ReleaseBelow(w, |w.leases|);
      var u := CloseCurrent(w);
      assert NothingLeased(u);
      forall f | 0 <= f < |u.frames| ensures FrameOk(u, f) { assert FrameOk(t, f); }
    }
    OwnersAreContexts(CloseCurrent(w));
  }

  lemma OwnersAreContexts(w: Worker)
    requires LedgerOk(w)
    ensures forall f :: 0 <= f < |w.frames| ==> 1 <= w.frames[f].owner <= w.contexts
  {
    forall f | 0 <= f < |w.frames| ensures 1 <= w.frames[f].owner <= w.contexts { assert FrameOk(w, f); }
  }

  lemma ClosedMeansIdle(w: Worker)
    requires LeasesOk(w) && LedgerOk(w) && w.ctx == 0
    ensures NothingLeased(w)
  {
    OwnersAreContexts(w);
    forall i | 0 <= i < |w.leases| ensures !w.leases[i].active {
      var l := w.leases[i];
      assert l.active ==> LeaseOk(w, l);
    }
  }

  ghost predicate NothingLeased(w: Worker) {
    forall i :: 0 <= i < |w.leases| ==> !w.leases[i].active
  }

  // ---------------------------------------------------------------- restart and recovery

  /** Between contexts the ledger does not depend on which context is open. */
  lemma IdleLedger(w: Worker, t: Worker)
    requires LeasesOk(w) && LedgerOk(w) && NothingLeased(w)
    requires t.leases == w.leases && t.frames == w.frames && t.counter == w.counter
    requires w.contexts <= t.contexts && (t.ctx == 0 || t.ctx > w.contexts)
    ensures LeasesOk(t) && LedgerOk(t) && AcksOk(t) && NothingLeased(t)
  {
    forall f | 0 <= f < |t.frames| ensures FrameOk(t, f) { assert FrameOk(w, f); }
    OwnersAreContexts(w);
  }

  lemma RecoveryKeepsInv(w: Worker)
    requires LeasesOk(w) && LedgerOk(w) && !w.recovering && !w.shuttingDown && w.ctx <= w.contexts
    requires w.ctx == 0 ==> NothingLeased(w)
    requires !w.recoverTimer
    ensures Inv(BeginRecovery(w))
  {
    var t := w.(recovering := true, nosigRun := 0, lowWindows := 0,
                stableCount := 0, stableWidth := 0, stableHeight := 0);
    assert forall f :: 0 <= f < |w.frames| ==> FrameOk(w, f);
    assert forall i :: 0 <= i < |w.leases| && w.leases[i].active ==> LeaseOk(w, w.leases[i]);
    SameLedger(w, t);
    CloseKeepsLedger(t);
    IdleLedger(CloseCurrent(t), BeginRecovery(w));
  }

  /** The ledger reads the leases, the frames, the context and the counter only. */
  lemma SameLedger(w: Worker, t: Worker)
    requires LeasesOk(w) && LedgerOk(w)
    requires t.leases == w.leases && t.frames == w.frames && t.ctx == w.ctx
    requires w.counter <= t.counter && w.contexts <= t.contexts
    ensures LeasesOk(t) && LedgerOk(t)
    ensures AcksOk(w) && w.acked <= t.acked ==> AcksOk(t)
  {
    forall f | 0 <= f < |t.frames| ensures FrameOk(t, f) {
      assert FrameOk(w, f);
      if Leased(w, f) { assert Leased(t, f); }
    }
    forall i | 0 <= i < |t.leases| && t.leases[i].active ensures LeaseOk(t, t.leases[i]) {
      assert LeaseOk(w, w.leases[i]);
    }
  }

  lemma RestartKeepsInv(w: Worker, opens: bool)
    requires Inv(w)
    ensures Inv(RestartNow(w, opens))
  {
    if !w.recovering && !w.shuttingDown {
      CloseKeepsLedger(w);
      var t := OpenStart(CloseCurrent(w), opens);
      IdleLedger(CloseCurrent(w), t);
      if opens {
        IdleLedger(CloseCurrent(w), ResetStats(t));
      } else {
        RecoveryKeepsInv(t);
      }
    }
  }

  lemma RecoverTimerKeepsInv(w: Worker, signal: Signal, opens: bool)
    requires Inv(w) && w.recoverTimer
    ensures Inv(OnRecoverTimer(w, signal, opens))
  {
    var t := OnRecoverTimer(w, signal, opens);
    ClosedMeansIdle(w);
    IdleLedger(w, t);
  }

  // ---------------------------------------------------------------- frames and acknowledgements

  lemma ReleaseMessageKeepsInv(w: Worker, sequence: nat)
    requires Inv(w)
    ensures Inv(Do(w, ReleaseMessage(sequence)))
  {
    var i := FindFrom(w.leases, sequence, 0);
    var t := Do(w, ReleaseMessage(sequence));
    if i < |w.leases| {
      assert LeaseOk(w, w.leases[i]);
      if w.ctx == 0 { ClosedMeansIdle(w); }
      var u := w.(stats := w.stats.(acks := w.stats.acks + 1));
      SameLedger(w, u);
      ReleaseKeepsLedger(u, i);
      ReleaseTouchesOne(u, i);
      SameLedger(ReleaseIndex(u, i), t);
    } else {
      SameLedger(w, t);
    }
  }

  /** A frame that joins the ledger and goes straight back leaves everything else alone. */
  lemma UnkeptFrameKeepsInv(w: Worker, t: Worker)
    requires LeasesOk(w) && LedgerOk(w) && AcksOk(w) && DeviceOk(w) && w.ctx != 0
    requires t.frames == w.frames + [Frame(w.ctx, [w.ctx], None)]
    requires |t.leases| == |w.leases|
    requires forall i :: 0 <= i < |w.leases| ==>
               t.leases[i] == w.leases[i] || (!t.leases[i].active && !w.leases[i].active)
    requires t.ctx == w.ctx && t.contexts == w.contexts && t.counter == w.counter && t.acked == w.acked
    ensures LeasesOk(t) && LedgerOk(t) && AcksOk(t)
  {
    forall f | 0 <= f < |t.frames| ensures FrameOk(t, f) {
      if f < |w.frames| {
        assert FrameOk(w, f);
        if Leased(w, f) {
          var i :| 0 <= i < |w.leases| && w.leases[i].active && w.leases[i].frame == f;
          assert t.leases[i].active && t.leases[i].frame == f;
        }
      }
    }
    forall i | 0 <= i < |t.leases| && t.leases[i].active ensures LeaseOk(t, t.leases[i]) {
      assert LeaseOk(w, w.leases[i]);
    }
  }

  /** A frame that is leased and sent takes the counter's sequence, and the counter moves on. */
  lemma SentFrameKeepsInv(w: Worker, i: nat, t: Worker)
    requires LeasesOk(w) && LedgerOk(w) && AcksOk(w) && DeviceOk(w) && w.ctx != 0
    requires i < |w.leases| && !w.leases[i].active
    requires t.frames == w.frames + [Frame(w.ctx, [], Some(w.counter))]
    requires t.leases == w.leases[i := Lease(true, w.counter, |w.frames|)]
    requires t.ctx == w.ctx && t.contexts == w.contexts && t.counter == w.counter + 1 && t.acked == w.acked
    ensures LeasesOk(t) && LedgerOk(t) && AcksOk(t)
  {
    forall j | 0 <= j < |t.leases| && t.leases[j].active ensures LeaseOk(t, t.leases[j]) {
      if j != i { assert LeaseOk(w, w.leases[j]); }
    }
    assert forall j :: 0 <= j < |w.leases| && w.leases[j].active ==> LeaseOk(w, w.leases[j]);
    forall f | 0 <= f < |t.frames| ensures FrameOk(t, f) {
      if f < |w.frames| {
        assert FrameOk(w, f);
        if Leased(w, f) {
          var j :| 0 <= j < |w.leases| && w.leases[j].active && w.leases[j].frame == f;
          assert t.leases[j].active && t.leases[j].frame == f;
        }
      } else {
        assert t.leases[i].active && t.leases[i].frame == f;
      }
    }
    forall f | 0 <= f < |w.frames| ensures w.frames[f].sent.Some? ==> w.frames[f].sent.value < w.counter {
      assert FrameOk(w, f);
    }
  }

  // What OnFrame comes to, outcome by outcome.

  function Unkept(w: Worker, drop: nat, stats: Stats): Worker {
    w.(frames := w.frames + [Frame(w.ctx, [w.ctx], None)], nosigRun := 0, dropped := w.dropped + drop, stats := stats)
  }

  lemma NotSendable(w: Worker, hasFd: bool, splitPlanes: bool, send: SendResult)
    requires w.ctx != 0 && (!hasFd || splitPlanes)
    ensures OnFrame(w, hasFd, splitPlanes, send) ==
            if !hasFd then Unkept(w, 0, w.stats.(ok := w.stats.ok + 1, noFd := w.stats.noFd + 1))
            else Unkept(w, 1, w.stats.(ok := w.stats.ok + 1, split := w.stats.split + 1))
  {
    assert [] + [w.ctx] == [w.ctx];
    var t := OnFrame(w, hasFd, splitPlanes, send);
    assert t.frames == w.frames + [Frame(w.ctx, [w.ctx], None)];
  }

  lemma SentOne(w: Worker, i: nat)
    requires w.ctx != 0 && i == FreeFrom(w.leases, 0) && i < |w.leases|
    ensures OnFrame(w, true, false, Sent) ==
            w.(frames := w.frames + [Frame(w.ctx, [], Some(w.counter))], nosigRun := 0, counter := w.counter + 1,
               leases := w.leases[i := Lease(true, w.counter, |w.frames|)], stats := w.stats.(ok := w.stats.ok + 1))
  {
    var t := OnFrame(w, true, false, Sent);
    assert t.frames == w.frames + [Frame(w.ctx, [], Some(w.counter))];
  }

  /** A lease whose frame could not be sent is taken back, and the frame with it. */
  lemma TakenBack(w: Worker, t: Worker, i: nat)
    requires w.ctx != 0 && i < |w.leases| && w.frames != []
    requires t == w.(leases := w.leases[i := Lease(true, w.counter, |w.frames| - 1)],
                     dropped := t.dropped, stats := t.stats)
    requires w.frames[|w.frames| - 1] == Frame(w.ctx, [], None)
    ensures ReleaseIndex(t, i) ==
            w.(leases := w.leases[i := NO_LEASE], dropped := t.dropped, stats := t.stats,
               frames := w.frames[..|w.frames| - 1] + [Frame(w.ctx, [w.ctx], None)])
  {
    assert [] + [w.ctx] == [w.ctx];
    assert t.leases[i := NO_LEASE] == w.leases[i := NO_LEASE];
  }

  lemma NotSent(w: Worker, i: nat, send: SendResult)
    requires w.ctx != 0 && i == FreeFrom(w.leases, 0) && i < |w.leases| && !send.Sent?
    ensures OnFrame(w, true, false, send) ==
            Unkept(w, if send.BrokenPipe? then 0 else 1,
                   if send.WouldBlock? then w.stats.(ok := w.stats.ok + 1, wouldBlock := w.stats.wouldBlock + 1)
                   else w.stats.(ok := w.stats.ok + 1, sendErrors := w.stats.sendErrors + 1)).(
              leases := w.leases[i := NO_LEASE])
  {
    var u := CountAcquired(w);
    var t := NoteSendFailure(u.(leases := u.leases[i := Lease(true, u.counter, |w.frames|)]), send);
    assert OnFrame(w, true, false, send) == ReleaseIndex(t, i);
    TakenBack(u, t, i);
    assert u.frames[..|w.frames|] == w.frames;
  }

  /** What a frame acquired does to the counters, and to the frames and leases. */
  ghost predicate FrameCounted(w: Worker, t: Worker) {
    && t.stats.leaseFull == w.stats.leaseFull && t.stats.ok == w.stats.ok + 1 && t.counter >= w.counter
    && t.counter + t.stats.noFd + t.stats.split + t.stats.wouldBlock + t.stats.sendErrors ==
       w.counter + w.stats.noFd + w.stats.split + w.stats.wouldBlock + w.stats.sendErrors + 1
    && t.stats.attempts == w.stats.attempts && t.stats.lastCounter == w.stats.lastCounter
    && t.stats.timeouts == w.stats.timeouts && t.stats.nosig == w.stats.nosig && t.stats.errors == w.stats.errors
  }

  ghost predicate FrameMoved(w: Worker, t: Worker, sent: bool, i: nat)
    requires i < |w.leases|
  {
    && t.ctx == w.ctx && t.contexts == w.contexts && t.acked == w.acked && |t.leases| == |w.leases|
    && t.recovering == w.recovering && t.recoverTimer == w.recoverTimer && t.shuttingDown == w.shuttingDown
    && (if sent
        then && t.frames == w.frames + [Frame(w.ctx, [], Some(w.counter))] && t.counter == w.counter + 1
             && t.leases == w.leases[i := Lease(true, w.counter, |w.frames|)]
        else && t.frames == w.frames + [Frame(w.ctx, [w.ctx], None)] && t.counter == w.counter
             && (t.leases == w.leases || t.leases == w.leases[i := NO_LEASE]))
  }

  lemma FrameOutcome(w: Worker, hasFd: bool, splitPlanes: bool, send: SendResult)
    requires w.ctx != 0 && LeaseCount(w.leases) < |w.leases|
    ensures var t, i := OnFrame(w, hasFd, splitPlanes, send), FreeFrom(w.leases, 0);
            i < |w.leases| && FrameCounted(w, t) && FrameMoved(w, t, hasFd && !splitPlanes && send.Sent?, i)
  {
    var i := FreeFrom(w.leases, 0);
    if !hasFd || splitPlanes {
      NotSendable(w, hasFd, splitPlanes, send);
    } else if send.Sent? {
      SentOne(w, i);
    } else {
      NotSent(w, i, send);
    }
  }

  lemma FrameKeepsInv(w: Worker, hasFd: bool, splitPlanes: bool, send: SendResult)
    requires LeasesOk(w) && LedgerOk(w) && AcksOk(w) && DeviceOk(w) && w.ctx != 0
    requires LeaseCount(w.leases) < MAX_IN_FLIGHT
    ensures var t := OnFrame(w, hasFd, splitPlanes, send);
            LeasesOk(t) && LedgerOk(t) && AcksOk(t) && DeviceOk(t)
  {
    var t := OnFrame(w, hasFd, splitPlanes, send);
    FrameOutcome(w, hasFd, splitPlanes, send);
    if hasFd && !splitPlanes && send.Sent? {
      SentFrameKeepsInv(w, FreeFrom(w.leases, 0), t);
    } else {
      UnkeptFrameKeepsInv(w, t);
    }
  }

  lemma FrameTimerKeepsInv(w: Worker, acquired: Acquired, send: SendResult)
    requires Inv(w)
    ensures Inv(OnFrameTimer(w, acquired, send))
  {
    if w.recovering || LeaseCount(w.leases) >= MAX_IN_FLIGHT {
      EmptyHandedKeepsInv(w, acquired, send);
    } else {
      match acquired
      case Got(hasFd, splitPlanes) => GotKeepsInv(w, hasFd, splitPlanes, send);
      case NoSignal => NoSignalKeepsInv(w, send);
      case Timeout => EmptyHandedKeepsInv(w, acquired, send);
      case Failed => EmptyHandedKeepsInv(w, acquired, send);
    }
  }

  lemma EmptyHandedKeepsInv(w: Worker, acquired: Acquired, send: SendResult)
    requires Inv(w)
    requires w.recovering || LeaseCount(w.leases) >= MAX_IN_FLIGHT || acquired.Timeout? || acquired.Failed?
    ensures Inv(OnFrameTimer(w, acquired, send))
  {
    SameLedger(w, OnFrameTimer(w, acquired, send));
  }

  lemma GotKeepsInv(w: Worker, hasFd: bool, splitPlanes: bool, send: SendResult)
    requires Inv(w) && !w.recovering && LeaseCount(w.leases) < MAX_IN_FLIGHT
    ensures Inv(OnFrameTimer(w, Got(hasFd, splitPlanes), send))
  {
    if !w.shuttingDown {
      var u := CountAttempt(w);
      SameLedger(w, u);
      FrameKeepsInv(u, hasFd, splitPlanes, send);
      FrameOutcome(u, hasFd, splitPlanes, send);
      FrameKeepsBooks(w, OnFrame(u, hasFd, splitPlanes, send));
    }
  }

  lemma FrameKeepsBooks(w: Worker, t: Worker)
    requires BooksOk(w)
    requires t.stats.leaseFull == w.stats.leaseFull && t.stats.ok == w.stats.ok + 1
    requires t.counter >= w.counter
    requires t.counter + t.stats.noFd + t.stats.split + t.stats.wouldBlock + t.stats.sendErrors ==
             w.counter + w.stats.noFd + w.stats.split + w.stats.wouldBlock + w.stats.sendErrors + 1
    requires t.stats.attempts == w.stats.attempts + 1 && t.stats.lastCounter == w.stats.lastCounter
    requires t.stats.timeouts == w.stats.timeouts && t.stats.nosig == w.stats.nosig && t.stats.errors == w.stats.errors
    ensures BooksOk(t)
  {
  }

  lemma NoSignalKeepsInv(w: Worker, send: SendResult)
    requires Inv(w) && !w.recovering && LeaseCount(w.leases) < MAX_IN_FLIGHT
    ensures Inv(OnFrameTimer(w, NoSignal, send))
  {
    if !w.shuttingDown {
      var u := CountAttempt(w);
      var v := u.(stats := u.stats.(nosig := u.stats.nosig + 1), nosigRun := u.nosigRun + 1);
      SameLedger(w, v);
      RecoveryKeepsInv(v);
    }
  }

  // ---------------------------------------------------------------- every run

  lemma DoKeepsInv(w: Worker, e: Event)
    requires Inv(w)
    ensures Inv(Do(w, e))
  {
    match e
    case FrameTimer(acquired, send) => FrameTimerKeepsInv(w, acquired, send);
    case EventTimer(event) =>
      if !w.shuttingDown && !w.recovering && (event.SourceChange? || event.SignalGone?) { RecoveryKeepsInv(w); }
    case StatsTimer(lowFps, opens) => StatsTimerKeepsInv(w, lowFps, opens);
    case RecoverTimer(signal, opens) => if w.recoverTimer { RecoverTimerKeepsInv(w, signal, opens); }
    case ReleaseMessage(sequence) => ReleaseMessageKeepsInv(w, sequence);
    case ShutdownMessage => SameLedger(w, Do(w, e));
  }

  lemma StatsTimerKeepsInv(w: Worker, lowFps: bool, opens: bool)
    requires Inv(w)
    ensures Inv(OnStatsTimer(w, lowFps, opens))
  {
    var t := w.(lowWindows := w.lowWindows + 1);
    SameLedger(w, t);
    SameLedger(w, ResetStats(t));
    SameLedger(w, ResetStats(w.(lowWindows := 0)));
    RestartKeepsInv(t, opens);
  }

  lemma {:induction false} RunKeepsInv(w: Worker, events: seq<Event>)
    requires Inv(w)
    ensures Inv(Run(w, events))
  {
    if events != [] {
      RunKeepsInv(w, events[..|events| - 1]);
      DoKeepsInv(Run(w, events[..|events| - 1]), events[|events| - 1]);
    }
  }

  ghost predicate Reachable(w: Worker) {
    exists events :: Reaches(events, w)
  }

  ghost predicate Reaches(events: seq<Event>, w: Worker) {
    w == Run(STARTED, events)
  }

  lemma ReachableIsInv(w: Worker)
    requires Reachable(w)
    ensures Inv(w)
  {
    var events :| Reaches(events, w);
    RunKeepsInv(STARTED, events);
  }

  /** Over every run: a device frame is still leased or has gone back to the driver exactly once,
      and only to the context it came from; never both. */
  lemma EveryFrameGoesHomeOnce(w: Worker, f: nat)
    requires Reachable(w) && f < |w.frames|
    ensures var frame := w.frames[f];
            if Leased(w, f) then frame.handedTo == [] && frame.owner == w.ctx
            else frame.handedTo == [frame.owner]
  {
    ReachableIsInv(w);
    assert FrameOk(w, f);
    if Leased(w, f) {
      var i :| 0 <= i < |w.leases| && w.leases[i].active && w.leases[i].frame == f;
      assert LeaseOk(w, w.leases[i]);
    }
  }

  /** Over every run: while its context stays open, a frame that was sent goes back to the driver
      only after its own sequence was acknowledged. */
  lemma NotBackBeforeItsAck(w: Worker, f: nat)
    requires Reachable(w) && f < |w.frames|
    ensures var frame := w.frames[f];
            frame.sent.Some? && frame.owner == w.ctx && frame.handedTo != [] ==> frame.sent.value in w.acked
  {
    ReachableIsInv(w);
  }

  /** Over every run: active sequences are distinct and below the counter. */
  lemma ActiveSequencesDistinct(w: Worker)
    requires Reachable(w)
    ensures (forall i :: 0 <= i < |w.leases| && w.leases[i].active ==> w.leases[i].sequence < w.counter)
            && (forall i, j :: 0 <= i < j < |w.leases| && w.leases[i].active && w.leases[j].active ==>
                  w.leases[i].sequence != w.leases[j].sequence)
  {
    ReachableIsInv(w);
    forall i | 0 <= i < |w.leases| && w.leases[i].active ensures LeaseOk(w, w.leases[i]) {}
  }

  ghost predicate Advances(w: Worker, t: Worker) {
    w.counter <= t.counter <= w.counter + 1 && |w.frames| <= |t.frames| <= |w.frames| + 1
  }

  lemma GotAdvances(w: Worker, hasFd: bool, splitPlanes: bool, send: SendResult)
    requires Inv(w)
    ensures Advances(w, OnFrameTimer(w, Got(hasFd, splitPlanes), send))
  {
    if !w.shuttingDown && w.ctx != 0 && LeaseCount(w.leases) < MAX_IN_FLIGHT {
      FrameOutcome(CountAttempt(w), hasFd, splitPlanes, send);
    }
  }

  lemma NoFrameAdvances(w: Worker, acquired: Acquired, send: SendResult)
    requires !acquired.Got?
    ensures Advances(w, OnFrameTimer(w, acquired, send))
  {
  }

  lemma OtherAdvances(w: Worker, e: Event)
    requires !e.FrameTimer?
    ensures Advances(w, Do(w, e))
  {
  }

  lemma CounterNeverGoesBack(w: Worker, e: Event)
    requires Inv(w)
    ensures w.counter <= Do(w, e).counter <= w.counter + 1
    ensures |w.frames| <= |Do(w, e).frames| <= |w.frames| + 1
  {
    var t := Do(w, e);
    if e.FrameTimer? {
      assert t == OnFrameTimer(w, e.acquired, e.send);
      match e.acquired {
        case Got(hasFd, splitPlanes) => GotAdvances(w, hasFd, splitPlanes, e.send);
        case _ => NoFrameAdvances(w, e.acquired, e.send);
      }
    } else {
      OtherAdvances(w, e);
    }
    assert Advances(w, t);
  }

  lemma OthersStayLeased(w: Worker, t: Worker, i: nat, f: nat)
    requires |t.leases| == |w.leases| && i < |w.leases| && !t.leases[i].active && w.leases[i].frame != f
    requires forall j :: 0 <= j < |w.leases| && j != i ==> t.leases[j] == w.leases[j]
    ensures Leased(t, f) <==> Leased(w, f)
  {
    if Leased(w, f) {
      var j :| 0 <= j < |w.leases| && w.leases[j].active && w.leases[j].frame == f;
      assert t.leases[j].active && t.leases[j].frame == f;
    }
    if Leased(t, f) {
      var j :| 0 <= j < |t.leases| && t.leases[j].active && t.leases[j].frame == f;
      assert w.leases[j].active && w.leases[j].frame == f;
    }
  }

  /** A release message, however late, frees no lease but the one its sequence was sent for, and
      none at all once that lease is gone: in particular no frame sent after it. */
  lemma LateAckFreesNoOther(w: Worker, sequence: nat, f: nat)
    requires Inv(w) && f < |w.frames| && w.frames[f].sent != Some(sequence)
    ensures var t := Do(w, ReleaseMessage(sequence));
            f < |t.frames| && t.frames[f] == w.frames[f] && (Leased(t, f) <==> Leased(w, f))
  {
    var i := FindFrom(w.leases, sequence, 0);
    var t := Do(w, ReleaseMessage(sequence));
    if i < |w.leases| {
      assert LeaseOk(w, w.leases[i]);
      ReleaseTouchesOne(w.(stats := w.stats.(acks := w.stats.acks + 1)), i);
      OthersStayLeased(w, t, i, f);
    } else {
      assert t.leases == w.leases;
    }
  }

  /** The branch that finds the table full after the depth was checked is never taken. */
  lemma LeaseTableNeverFull(w: Worker)
    requires Reachable(w)
    ensures w.stats.leaseFull == 0
    ensures |w.leases| == 16 && (LeaseCount(w.leases) < 16 ==> FreeFrom(w.leases, 0) < 16)
  {
    ReachableIsInv(w);
  }

  /** In every statistics window the acquisitions add up, and so do the frames acquired. */
  lemma StatsAddUp(w: Worker)
    requires Reachable(w)
    ensures var s := w.stats; var sent := w.counter - s.lastCounter;
            && s.attempts == s.ok + s.timeouts + s.nosig + s.errors
            && s.ok == sent + s.noFd + s.split + s.leaseFull + s.wouldBlock + s.sendErrors
  {
    ReachableIsInv(w);
  }

  /** Between callbacks the device is closed exactly when recovering, and then nothing is leased. */
  lemma ClosedExactlyWhenRecovering(w: Worker)
    requires Reachable(w)
    ensures w.ctx == 0 <==> w.recovering
    ensures w.ctx == 0 ==> NothingLeased(w)
    ensures w.recovering && !w.shuttingDown ==> w.recoverTimer
  {
    ReachableIsInv(w);
    if w.ctx == 0 { ClosedMeansIdle(w); }
  }
}
