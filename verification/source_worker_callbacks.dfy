/** The worker's callbacks as they update its state in place, each proved to make exactly the
    transition that SourceWorkerSafety, SourceWorkerRecovery and SourceWorkerMeaning reason about. */
module SourceWorkerCallbacks {
  import opened SourceWorker
  import opened Wrappers

  class Capture {
    var leases: array<Lease>
    var ctx: nat
    var contexts: nat
    var counter: nat
    var dropped: nat
    var recovering: bool
    var recoverTimer: bool
    var shuttingDown: bool
    var nosigRun: nat
    var lowWindows: nat
    var stableWidth: nat
    var stableHeight: nat
    var stableCount: nat
    var stats: Stats
    var frames: seq<Frame>         // the driver's record of the frames it has given out
    ghost var acked: set<nat>

    ghost function Snapshot(): Worker
      reads this, leases
    {
      Worker(leases[..], ctx, contexts, counter, dropped, recovering, recoverTimer, shuttingDown,
             nosigRun, lowWindows, stableWidth, stableHeight, stableCount, stats, frames, acked)
    }

    constructor ()
      ensures Snapshot() == STARTED && fresh(leases)
    {
      leases := new Lease[MAX_IN_FLIGHT](_ => NO_LEASE);
      ctx, contexts, counter, dropped := 1, 1, 0, 0;
      recovering, recoverTimer, shuttingDown := false, false, false;
      nosigRun, lowWindows, stableWidth, stableHeight, stableCount := 0, 0, 0, 0, 0;
      stats := Stats(0, 0, 0, 0, 0, 0, 0, 0, 0, 0, 0, 0, 0, 0);
      frames, acked := [], {};
      new;
      assert leases[..] == NoLeases(MAX_IN_FLIGHT);
    }

    method CountLeases() returns (count: nat)
      ensures count == LeaseCount(leases[..])
    {
      count := 0;
      var i := 0;
      while i < leases.Length
        invariant i <= leases.Length
        invariant count + ActiveFrom(leases[..], i) == LeaseCount(leases[..])
      {
        if leases[i].active { count := count + 1; }
        i := i + 1;
      }
    }

    /** The first free place takes the lease; its index is returned, or the length if none is free. */
    method StoreLease(sequence: nat, frame: nat) returns (i: nat)
      modifies leases
      ensures i == FreeFrom(old(leases[..]), 0)
      ensures leases[..] ==
              if i < leases.Length then old(leases[..])[i := Lease(true, sequence, frame)] else old(leases[..])
    {
      i := 0;
      while i < leases.Length
        invariant i <= leases.Length
        invariant leases[..] == old(leases[..]) && FreeFrom(leases[..], i) == FreeFrom(leases[..], 0)
      {
        if !leases[i].active {
          leases[i] := Lease(true, sequence, frame);
          return;
        }
        i := i + 1;
      }
    }

    /** The driver takes a frame back. */
    method GiveBack(f: nat)
      modifies `frames
      ensures Snapshot() == HandBack(old(Snapshot()), f)
    {
      if f < |frames| { frames := frames[f := frames[f].(handedTo := frames[f].handedTo + [ctx])]; }
    }

    method ReleaseLease(idx: nat)
      modifies `frames, leases
      ensures Snapshot() == ReleaseIndex(old(Snapshot()), idx)
    {
      if idx >= leases.Length { return; }
      if !leases[idx].active { return; }
      if ctx != 0 { GiveBack(leases[idx].frame); }
      leases[idx] := NO_LEASE;
      assert leases[..] == old(leases[..])[idx := NO_LEASE];
    }

    method ReleaseBySequence(sequence: nat)
      modifies `stats, `frames, leases
      ensures Snapshot() == ReleaseSequence(old(Snapshot()), sequence)
    {
      var i := 0;
      while i < leases.Length
        invariant i <= leases.Length && Snapshot() == old(Snapshot())
        invariant FindFrom(leases[..], sequence, i) == FindFrom(leases[..], sequence, 0)
      {
        if leases[i].active && leases[i].sequence == sequence {
          stats := stats.(acks := stats.acks + 1);
          ReleaseLease(i);
          return;
        }
        i := i + 1;
      }
      stats := stats.(unknownAcks := stats.unknownAcks + 1);
    }

    method ReleaseAll()
      modifies `frames, leases
      ensures Snapshot() == ReleaseBelow(old(Snapshot()), leases.Length)
    {
      var i := 0;
      while i < leases.Length
        invariant i <= leases.Length
        invariant Snapshot() == ReleaseBelow(old(Snapshot()), i)
      {
        ReleaseLease(i);
        i := i + 1;
      }
    }

    method ResetWindow()
      modifies `stats
      ensures Snapshot() == ResetStats(old(Snapshot()))
    {
      stats := Stats(counter, 0, 0, 0, 0, 0, 0, 0, 0, 0, 0, 0, 0, 0);
    }

    method CloseDevice()
      modifies `ctx, `frames, leases
      ensures Snapshot() == CloseCurrent(old(Snapshot()))
    {
      if ctx == 0 { return; }
      ReleaseAll();
      ctx := 0;
    }

    method OpenDevice(opens: bool)
      modifies `ctx, `contexts, `nosigRun, `lowWindows
      ensures Snapshot() == OpenStart(old(Snapshot()), opens)
    {
      if !opens {
        ctx := 0;
        return;
      }
      contexts := contexts + 1;
      ctx := contexts;
      nosigRun, lowWindows := 0, 0;
    }

    method Recover()
      modifies this, leases
      ensures leases == old(leases) && Snapshot() == BeginRecovery(old(Snapshot()))
    {
      if recovering || shuttingDown { return; }
      ghost var w := Snapshot();
      recovering := true;
      nosigRun, lowWindows := 0, 0;
      stableCount, stableWidth, stableHeight := 0, 0, 0;
      assert Snapshot() == w.(recovering := true, nosigRun := 0, lowWindows := 0,
                              stableCount := 0, stableWidth := 0, stableHeight := 0);
      CloseDevice();
      ResetWindow();
      if !recoverTimer { recoverTimer := true; }
    }

    method Restart(opens: bool)
      modifies this, leases
      ensures leases == old(leases) && Snapshot() == RestartNow(old(Snapshot()), opens)
    {
      if recovering || shuttingDown { return; }
      CloseDevice();
      OpenDevice(opens);
      if !opens {
        Recover();
        return;
      }
      ResetWindow();
    }

    method RecordReading(signal: Signal)
      modifies `stableWidth, `stableHeight, `stableCount
      ensures Snapshot() == NoteReading(old(Snapshot()), signal)
    {
      if signal.NoSignalInfo? {
        stableWidth, stableHeight, stableCount := 0, 0, 0;
      } else if signal.width == stableWidth && signal.height == stableHeight {
        stableCount := stableCount + 1;
      } else {
        stableWidth, stableHeight, stableCount := signal.width, signal.height, 1;
      }
    }

    method RecoverTimeout(signal: Signal, opens: bool)
      modifies this
      ensures leases == old(leases) && Snapshot() == OnRecoverTimer(old(Snapshot()), signal, opens)
    {
      if shuttingDown {
        recoverTimer := false;
        return;
      }
      RecordReading(signal);
      if signal.NoSignalInfo? || stableCount < STABILITY_CHECK_COUNT { return; }
      OpenDevice(opens);
      if !opens {
        stableCount := 0;
        return;
      }
      recovering := false;
      recoverTimer := false;
      ResetWindow();
    }

    method RecordSent(f: nat)
      modifies `counter, `frames
      ensures Snapshot() == MarkSent(old(Snapshot()), f)
    {
      if f < |frames| { frames := frames[f := frames[f].(sent := Some(counter))]; }
      counter := counter + 1;
    }

    method CountSendFailure(send: SendResult)
      requires !send.Sent?
      modifies `stats, `dropped
      ensures Snapshot() == NoteSendFailure(old(Snapshot()), send)
    {
      match send
      case WouldBlock =>
        stats := stats.(wouldBlock := stats.wouldBlock + 1);
        dropped := dropped + 1;
      case BrokenPipe =>
        stats := stats.(sendErrors := stats.sendErrors + 1);
      case SendFailed =>
        stats := stats.(sendErrors := stats.sendErrors + 1);
        dropped := dropped + 1;
    }

    method RefuseFull(f: nat)
      modifies `dropped, `stats, `frames
      ensures var w := old(Snapshot());
              Snapshot() == HandBack(w.(stats := w.stats.(leaseFull := w.stats.leaseFull + 1),
                                        dropped := w.dropped + 1), f)
    {
      ghost var w := Snapshot();
      stats := stats.(leaseFull := stats.leaseFull + 1);
      dropped := dropped + 1;
      assert Snapshot() == w.(stats := stats, dropped := dropped);
      GiveBack(f);
    }

    method LendFrame(f: nat, send: SendResult)
      modifies `counter, `dropped, `stats, `frames, leases
      ensures Snapshot() == Lend(old(Snapshot()), f, send)
    {
      ghost var w := Snapshot();
      var i := StoreLease(counter, f);
      if i == leases.Length {
        assert Snapshot() == w;
        RefuseFull(f);
        return;
      }
      assert Snapshot() == w.(leases := w.leases[i := Lease(true, w.counter, f)]);
      if send.Sent? {
        RecordSent(f);
      } else {
        CountSendFailure(send);
        ReleaseLease(i);
      }
    }

    method Acquire() returns (f: nat)
      modifies `nosigRun, `stats, `frames
      ensures f == old(|frames|) && Snapshot() == CountAcquired(old(Snapshot()))
    {
      f := |frames|;
      frames := frames + [Frame(ctx, [], None)];
      stats := stats.(ok := stats.ok + 1);
      nosigRun := 0;
    }

    method RefuseNoFd(f: nat)
      modifies `stats, `frames
      ensures var w := old(Snapshot());
              Snapshot() == HandBack(w.(stats := w.stats.(noFd := w.stats.noFd + 1)), f)
    {
      ghost var w := Snapshot();
      stats := stats.(noFd := stats.noFd + 1);
      assert Snapshot() == w.(stats := stats);
      GiveBack(f);
    }

    method RefuseSplit(f: nat)
      modifies `dropped, `stats, `frames
      ensures var w := old(Snapshot());
              Snapshot() == HandBack(w.(stats := w.stats.(split := w.stats.split + 1), dropped := w.dropped + 1), f)
    {
      ghost var w := Snapshot();
      stats := stats.(split := stats.split + 1);
      dropped := dropped + 1;
      assert Snapshot() == w.(stats := stats, dropped := dropped);
      GiveBack(f);
    }

    method TakeFrame(hasFd: bool, splitPlanes: bool, send: SendResult)
      modifies `nosigRun, `counter, `dropped, `stats, `frames, leases
      ensures Snapshot() == OnFrame(old(Snapshot()), hasFd, splitPlanes, send)
    {
      var f := Acquire();
      if !hasFd {
        RefuseNoFd(f);
      } else if splitPlanes {
        RefuseSplit(f);
      } else {
        LendFrame(f, send);
      }
    }

    method SignalMissing()
      modifies this, leases
      ensures leases == old(leases) && Snapshot() == OnNoSignal(old(Snapshot()))
    {
      stats := stats.(nosig := stats.nosig + 1);
      nosigRun := nosigRun + 1;
      if nosigRun >= NOSIG_RECOVER_THRESHOLD { Recover(); }
    }

    method BeginAttempt()
      modifies `stats
      ensures Snapshot() == CountAttempt(old(Snapshot()))
    {
      stats := stats.(attempts := stats.attempts + 1);
    }

    method AfterNoFrame(acquired: Acquired)
      requires !acquired.Got?
      modifies this, leases
      ensures leases == old(leases)
      ensures var t := old(Snapshot());
              Snapshot() == match acquired
                            case Timeout => t.(stats := t.stats.(timeouts := t.stats.timeouts + 1), nosigRun := 0)
                            case NoSignal => OnNoSignal(t)
                            case Failed => t.(stats := t.stats.(errors := t.stats.errors + 1))
    {
      match acquired
      case Timeout =>
        stats := stats.(timeouts := stats.timeouts + 1);
        nosigRun := 0;
      case NoSignal => SignalMissing();
      case Failed => stats := stats.(errors := stats.errors + 1);
    }

    method TryFrame(acquired: Acquired, send: SendResult)
      modifies this, leases
      ensures leases == old(leases) && Snapshot() == Attempt(old(Snapshot()), acquired, send)
    {
      BeginAttempt();
      match acquired
      case Got(hasFd, splitPlanes) => TakeFrame(hasFd, splitPlanes, send);
      case _ => AfterNoFrame(acquired);
    }

    method FrameTimeout(acquired: Acquired, send: SendResult)
      modifies this, leases
      ensures leases == old(leases) && Snapshot() == OnFrameTimer(old(Snapshot()), acquired, send)
    {
      if shuttingDown || recovering || ctx == 0 { return; }
      var count := CountLeases();
      if count >= MAX_IN_FLIGHT {
        stats := stats.(noLease := stats.noLease + 1);
        return;
      }
      TryFrame(acquired, send);
    }

    method EventTimeout(event: DeviceEvent)
      modifies this, leases
      ensures leases == old(leases) && Snapshot() == OnEventTimer(old(Snapshot()), event)
    {
      if shuttingDown || recovering || ctx == 0 { return; }
      if event.SourceChange? || event.SignalGone? { Recover(); }
    }

    method NoteWindow(slow: bool)
      modifies `lowWindows
      ensures var w := old(Snapshot()); Snapshot() == w.(lowWindows := if slow then w.lowWindows + 1 else 0)
    {
      if slow { lowWindows := lowWindows + 1; } else { lowWindows := 0; }
    }

    method StatsTimeout(lowFps: bool, opens: bool)
      modifies this, leases
      ensures leases == old(leases) && Snapshot() == OnStatsTimer(old(Snapshot()), lowFps, opens)
    {
      if shuttingDown { return; }
      var count := CountLeases();
      var slow := lowFps && count < MAX_IN_FLIGHT / 2 && stats.wouldBlock == 0 && stats.sendErrors == 0 &&
                  stats.leaseFull == 0;
      NoteWindow(slow);
      if slow && lowWindows >= LOW_FPS_RECOVER_WINDOWS {
        Restart(opens);
      } else {
        ResetWindow();
      }
    }

    method ControlMessage(e: Event)
      requires e.ReleaseMessage? || e.ShutdownMessage?
      modifies this, leases
      ensures leases == old(leases) && Snapshot() == Do(old(Snapshot()), e)
    {
      if e.ReleaseMessage? {
        ReleaseBySequence(e.sequence);
        acked := acked + {e.sequence};
      } else {
        shuttingDown := true;
      }
    }
  }
}
