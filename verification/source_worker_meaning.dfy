/** What the worker's callbacks mean for the device frames, and what begins a recovery or a restart. */
module SourceWorkerMeaning {
  import opened SourceWorker
  import opened SourceWorkerSafety
  import opened Wrappers

  // ---------------------------------------------------------------- handing everything back

  ghost predicate LeasedBelow(w: Worker, f: nat, n: nat)
    requires n <= |w.leases|
  {
    exists i :: 0 <= i < n && w.leases[i].active && w.leases[i].frame == f
  }

  /** Each leased frame has gone back to the context it came from, once; the others are as before. */
  ghost predicate HandedBack(w: Worker, t: Worker) {
    && |t.frames| == |w.frames|
    && NothingLeased(t)
    && forall f :: 0 <= f < |w.frames| ==>
         t.frames[f] == if Leased(w, f) then Frame(w.ctx, [w.ctx], w.frames[f].sent) else w.frames[f]
  }

  lemma {:induction false} ReleasedBelow(w: Worker, n: nat)
    requires LeasesOk(w) && w.ctx != 0 && n <= |w.leases|
    ensures var t := ReleaseBelow(w, n);
            && (forall f :: 0 <= f < |w.frames| ==>
                  t.frames[f] == if LeasedBelow(w, f, n) then Frame(w.ctx, [w.ctx], w.frames[f].sent) else w.frames[f])
            && (forall i :: 0 <= i < |w.leases| ==>
                  t.leases[i] == if i < n && w.leases[i].active then NO_LEASE else w.leases[i])
  {
    if n > 0 {
      ReleasedBelow(w, n - 1);
      var u, l := ReleaseBelow(w, n - 1), w.leases[n - 1];
      assert u.leases[n - 1] == l;
      if l.active {
        assert LeaseOk(w, l) && !LeasedBelow(w, l.frame, n - 1);
        assert [] + [w.ctx] == [w.ctx];
      }
      forall f | 0 <= f < |w.frames|
        ensures LeasedBelow(w, f, n) <==> LeasedBelow(w, f, n - 1) || (l.active && l.frame == f)
      {}
    }
  }

  lemma CloseHandsEverythingBack(w: Worker)
    requires LeasesOk(w) && LedgerOk(w)
    ensures HandedBack(w, CloseCurrent(w)) && CloseCurrent(w).ctx == 0
  {
    if w.ctx == 0 {
      ClosedMeansIdle(w);
    } else {
      ReleasedBelow(w, |w.leases|);
      assert forall f :: 0 <= f < |w.frames| ==> (Leased(w, f) <==> LeasedBelow(w, f, |w.leases|));
    }
  }

  /** The close at the worker's exit: every frame the driver ever gave out has then gone back to it
      exactly once, to the context it came from. */
  lemma EverythingHomeAtExit(w: Worker, f: nat)
    requires Reachable(w) && f < |w.frames|
    ensures var t := CloseCurrent(w); t.ctx == 0 && t.frames[f].handedTo == [w.frames[f].owner]
  {
    ReachableIsInv(w);
    EveryFrameGoesHomeOnce(w, f);
    CloseHandsEverythingBack(w);
  }

  predicate FreshWindow(w: Worker) { w.stats == Stats(w.counter, 0, 0, 0, 0, 0, 0, 0, 0, 0, 0, 0, 0, 0) }

  /** A recovery closes the device with everything handed back, keeps the counter, starts the
      statistics over and leaves the timer armed; a second one changes nothing. */
  lemma RecoveryHandsEverythingBack(w: Worker)
    requires Inv(w)
    ensures var t := BeginRecovery(w);
            && (w.recovering || w.shuttingDown ==> t == w)
            && (!w.recovering && !w.shuttingDown ==>
                  && HandedBack(w, t) && t.ctx == 0 && t.recovering && t.recoverTimer
                  && t.counter == w.counter && FreshWindow(t))
            && BeginRecovery(t) == t
  {
    var t := w.(recovering := true, nosigRun := 0, lowWindows := 0,
                stableCount := 0, stableWidth := 0, stableHeight := 0);
    SameLedger(w, t);
    CloseHandsEverythingBack(t);
    assert forall f :: 0 <= f < |w.frames| ==> (Leased(w, f) <==> Leased(t, f));
  }

  /** A restart hands everything back and leaves a context never used before, or else a recovery. */
  lemma RestartHandsEverythingBack(w: Worker, opens: bool)
    requires Inv(w) && !w.recovering && !w.shuttingDown
    ensures var t := RestartNow(w, opens);
            && HandedBack(w, t) && t.counter == w.counter && FreshWindow(t)
            && (if opens then !t.recovering && t.ctx == t.contexts == w.contexts + 1
                else t.recovering && t.recoverTimer && t.ctx == 0 && t.contexts == w.contexts)
  {
    CloseHandsEverythingBack(w);
  }

  // ---------------------------------------------------------------- one frame

  predicate Attempts(w: Worker, e: Event) {
    e.FrameTimer? && !w.shuttingDown && !w.recovering && LeaseCount(w.leases) < 16
  }

  function Failures(w: Worker): nat {
    w.stats.noFd + w.stats.split + w.stats.wouldBlock + w.stats.sendErrors
  }

  /** A frame acquired was leased and sent under the next sequence, or went straight back and was
      counted as one failure; no other frame or lease notices. */
  lemma AcquiredFrameHasOneOutcome(w: Worker, hasFd: bool, splitPlanes: bool, send: SendResult)
    requires Inv(w) && Attempts(w, FrameTimer(Got(hasFd, splitPlanes), send))
    ensures var t, f := Do(w, FrameTimer(Got(hasFd, splitPlanes), send)), |w.frames|;
            && |t.frames| == f + 1 && t.frames[..f] == w.frames
            && (forall g :: 0 <= g < f ==> (Leased(t, g) <==> Leased(w, g)))
            && (if hasFd && !splitPlanes && send.Sent?
                then t.frames[f] == Frame(w.ctx, [], Some(w.counter)) && Leased(t, f) &&
                     t.counter == w.counter + 1 && Failures(t) == Failures(w)
                else t.frames[f] == Frame(w.ctx, [w.ctx], None) && !Leased(t, f) &&
                     t.counter == w.counter && Failures(t) == Failures(w) + 1)
  {
    var u := CountAttempt(w);
    FrameOutcome(u, hasFd, splitPlanes, send);
    var i, t := FreeFrom(w.leases, 0), OnFrame(u, hasFd, splitPlanes, send);
    forall k | 0 <= k < |w.leases| && w.leases[k].active ensures w.leases[k].frame < |w.frames| {
      assert LeaseOk(w, w.leases[k]);
    }
    if hasFd && !splitPlanes && send.Sent? { assert t.leases[i].active && t.leases[i].frame == |w.frames|; }
    SameLeased(w, t, i);
  }

  lemma SameLeased(w: Worker, t: Worker, i: nat)
    requires |t.leases| == |w.leases|
    requires i < |w.leases| ==> !w.leases[i].active && (t.leases[i].active ==> t.leases[i].frame == |w.frames|)
    requires forall k :: 0 <= k < |w.leases| && k != i ==>
               t.leases[k] == w.leases[k] || (!t.leases[k].active && !w.leases[k].active)
    ensures forall g :: 0 <= g < |w.frames| ==> (Leased(t, g) <==> Leased(w, g))
    ensures (i < |w.leases| ==> !t.leases[i].active) &&
            (forall k :: 0 <= k < |w.leases| && w.leases[k].active ==> w.leases[k].frame < |w.frames|) ==>
              !Leased(t, |w.frames|)
  {
    forall g | 0 <= g < |w.frames| ensures Leased(t, g) <==> Leased(w, g) {
      if Leased(w, g) {
        var k :| 0 <= k < |w.leases| && w.leases[k].active && w.leases[k].frame == g;
        assert t.leases[k].active && t.leases[k].frame == g;
      }
      if Leased(t, g) {
        var k :| 0 <= k < |t.leases| && t.leases[k].active && t.leases[k].frame == g;
        assert w.leases[k].active && w.leases[k].frame == g;
      }
    }
  }

  /** The release message for a leased frame hands it back. */
  lemma AckFreesItsLease(w: Worker, f: nat)
    requires Inv(w) && f < |w.frames| && Leased(w, f)
    ensures w.frames[f].sent.Some?
    ensures var t := Do(w, ReleaseMessage(w.frames[f].sent.value));
            !Leased(t, f) && f < |t.frames| && t.frames[f].handedTo == [w.ctx]
  {
    var k :| 0 <= k < |w.leases| && w.leases[k].active && w.leases[k].frame == f;
    assert LeaseOk(w, w.leases[k]);
    var sequence := w.frames[f].sent.value;
    var i := FindFrom(w.leases, sequence, 0);
    assert i <= k && LeaseOk(w, w.leases[i]);
    assert FrameOk(w, f) && FrameOk(w, w.leases[i].frame);
    assert w.leases[i].frame == f;
    var t := Do(w, ReleaseMessage(sequence));
    ReleaseTouchesOne(w.(stats := w.stats.(acks := w.stats.acks + 1)), i);
    assert [] + [w.ctx] == [w.ctx];
    forall j | 0 <= j < |t.leases| && t.leases[j].active ensures t.leases[j].frame != f {
      assert j != i && t.leases[j] == w.leases[j];
    }
  }

  /** A release message is counted as an acknowledgement if some active lease has its sequence, and as
      unknown otherwise; then no lease and no frame changes. */
  lemma ReleaseMessagesAreCounted(w: Worker, sequence: nat)
    ensures var t := Do(w, ReleaseMessage(sequence));
            && sequence in t.acked
            && if exists i :: 0 <= i < |w.leases| && w.leases[i].active && w.leases[i].sequence == sequence
               then t.stats.acks == w.stats.acks + 1 && t.stats.unknownAcks == w.stats.unknownAcks
               else && t.stats.acks == w.stats.acks && t.stats.unknownAcks == w.stats.unknownAcks + 1
                    && t.leases == w.leases && t.frames == w.frames
  {
  }

  /** The recovery timer that fires while shutting down opens nothing and does not fire again. */
  lemma ShutdownDisarmsTheTimer(w: Worker, signal: Signal, opens: bool)
    requires w.shuttingDown && w.recoverTimer
    ensures Do(w, RecoverTimer(signal, opens)) == w.(recoverTimer := false)
  {
  }

  /** The leases counted are the active ones. */
  lemma {:induction false} CountsTheActive(leases: seq<Lease>, i: nat)
    requires i <= |leases|
    ensures ActiveFrom(leases, i) == |set k | i <= k < |leases| && leases[k].active|
    decreases |leases| - i
  {
    if i < |leases| {
      CountsTheActive(leases, i + 1);
      var rest := set k | i + 1 <= k < |leases| && leases[k].active;
      assert (set k | i <= k < |leases| && leases[k].active) == if leases[i].active then {i} + rest else rest;
    }
  }

  /** With 16 frames in flight nothing is acquired; the occasion is counted and nothing else changes. */
  lemma NothingIsAcquiredWhenFull(w: Worker, acquired: Acquired, send: SendResult)
    requires Inv(w) && !w.shuttingDown && !w.recovering
    requires |set k | 0 <= k < |w.leases| && w.leases[k].active| >= 16
    ensures Do(w, FrameTimer(acquired, send)) == w.(stats := w.stats.(noLease := w.stats.noLease + 1))
  {
    CountsTheActive(w.leases, 0);
  }

  /** Once the shutdown message came, whatever comes after it: nothing is acquired, no context is opened and
      no recovery begins. */
  lemma {:induction false} ShutdownIsFinal(w: Worker, events: seq<Event>)
    ensures var s, t := Do(w, ShutdownMessage), Run(Do(w, ShutdownMessage), events);
            && s == w.(shuttingDown := true)
            && t.shuttingDown && |t.frames| == |w.frames| && t.contexts == w.contexts && t.ctx == w.ctx
            && t.recovering == w.recovering && t.counter == w.counter
  {
    if events != [] {
      var n := |events| - 1;
      ShutdownIsFinal(w, events[..n]);
      ShutdownStep(Run(Do(w, ShutdownMessage), events[..n]), events[n]);
    }
  }

  lemma ShutdownStep(w: Worker, e: Event)
    requires w.shuttingDown
    ensures var t := Do(w, e);
            && t.shuttingDown && |t.frames| == |w.frames| && t.contexts == w.contexts && t.ctx == w.ctx
            && t.recovering == w.recovering && t.counter == w.counter
  {
  }

  // ---------------------------------------------------------------- what begins a recovery or a restart

  predicate SlowWindow(w: Worker, e: Event) {
    && e.StatsTimer? && e.lowFps && LeaseCount(w.leases) < 8
    && w.stats.wouldBlock == w.stats.sendErrors == w.stats.leaseFull == 0
  }

  /** A recovery begins or a context is opened. */
  predicate StartsOver(w: Worker, t: Worker) {
    (t.recovering && !w.recovering) || t.contexts > w.contexts
  }

  /** The acquisitions without a signal since the last frame, timeout, open or recovery. */
  ghost function Silence(events: seq<Event>): nat {
    if events == [] then 0
    else
      var w, e := Run(STARTED, events[..|events| - 1]), events[|events| - 1];
      var n := Silence(events[..|events| - 1]);
      if StartsOver(w, Do(w, e)) || (Attempts(w, e) && (e.acquired.Got? || e.acquired.Timeout?)) then 0
      else if Attempts(w, e) && e.acquired.NoSignal? then n + 1
      else n
  }

  /** The slow windows in a row since the last other window, open or recovery. */
  ghost function SlowRun(events: seq<Event>): nat {
    if events == [] then 0
    else
      var w, e := Run(STARTED, events[..|events| - 1]), events[|events| - 1];
      var n := SlowRun(events[..|events| - 1]);
      if StartsOver(w, Do(w, e)) then 0
      else if !e.StatsTimer? || w.shuttingDown then n
      else if SlowWindow(w, e) then n + 1
      else 0
  }

  /** What one callback does to the runs, and which ones begin a recovery or a restart. */
  ghost predicate RunsStep(w: Worker, e: Event, t: Worker) {
    && t.nosigRun == (if StartsOver(w, t) || (Attempts(w, e) && (e.acquired.Got? || e.acquired.Timeout?)) then 0
                      else if Attempts(w, e) && e.acquired.NoSignal? then w.nosigRun + 1
                      else w.nosigRun)
    && t.lowWindows == (if StartsOver(w, t) then 0
                        else if !e.StatsTimer? || w.shuttingDown then w.lowWindows
                        else if SlowWindow(w, e) then w.lowWindows + 1
                        else 0)
    && (!w.recovering ==> (t.recovering <==> BeginsRecovery(w, e, w.nosigRun, w.lowWindows)))
    && (!w.recovering ==> (t.contexts > w.contexts <==> Restarts(w, e, w.lowWindows)))
  }

  /** A source change or a lost signal is reported, or this is the 120th acquisition in a row without a
      signal, or the fourth slow window in a row after which the device does not reopen. */
  predicate BeginsRecovery(w: Worker, e: Event, silence: nat, slow: nat) {
    && !w.shuttingDown
    && (|| (e.EventTimer? && (e.event.SourceChange? || e.event.SignalGone?))
        || (Attempts(w, e) && e.acquired.NoSignal? && silence + 1 >= 120)
        || (SlowWindow(w, e) && slow + 1 >= 4 && !e.opens))
  }

  predicate Restarts(w: Worker, e: Event, slow: nat) {
    !w.shuttingDown && SlowWindow(w, e) && slow + 1 >= 4 && e.opens
  }

  lemma GotStep(w: Worker, hasFd: bool, splitPlanes: bool, send: SendResult)
    requires Inv(w)
    ensures RunsStep(w, FrameTimer(Got(hasFd, splitPlanes), send), OnFrameTimer(w, Got(hasFd, splitPlanes), send))
  {
  }

  lemma NoFrameStep(w: Worker, acquired: Acquired, send: SendResult)
    requires Inv(w) && !acquired.Got?
    ensures RunsStep(w, FrameTimer(acquired, send), OnFrameTimer(w, acquired, send))
  {
  }

  lemma StatsStep(w: Worker, lowFps: bool, opens: bool)
    requires Inv(w)
    ensures RunsStep(w, StatsTimer(lowFps, opens), OnStatsTimer(w, lowFps, opens))
  {
  }

  lemma OtherStep(w: Worker, e: Event)
    requires Inv(w) && !e.FrameTimer? && !e.StatsTimer?
    ensures RunsStep(w, e, Do(w, e))
  {
  }

  lemma DoRunsStep(w: Worker, e: Event)
    requires Inv(w)
    ensures RunsStep(w, e, Do(w, e))
  {
    match e
    case FrameTimer(acquired, send) =>
      assert Do(w, e) == OnFrameTimer(w, acquired, send);
      match acquired {
        case Got(hasFd, splitPlanes) => GotStep(w, hasFd, splitPlanes, send);
        case _ => NoFrameStep(w, acquired, send);
      }
    case StatsTimer(lowFps, opens) =>
      assert Do(w, e) == OnStatsTimer(w, lowFps, opens);
      StatsStep(w, lowFps, opens);
    case _ => OtherStep(w, e);
  }

  /** The two fields are the lengths of those runs. */
  lemma {:induction false} FieldsCountTheRuns(events: seq<Event>)
    ensures var w := Run(STARTED, events); w.nosigRun == Silence(events) && w.lowWindows == SlowRun(events)
  {
    if events != [] {
      var n := |events| - 1;
      FieldsCountTheRuns(events[..n]);
      RunKeepsInv(STARTED, events[..n]);
      DoRunsStep(Run(STARTED, events[..n]), events[n]);
    }
  }

  /** Over every run: outside a recovery, which callbacks begin one and which restart the device, in
      terms of the callbacks since the last acquired frame, other window, open or recovery. */
  lemma RecoveryAndRestartIff(events: seq<Event>, e: Event)
    requires !Run(STARTED, events).recovering
    ensures var w := Run(STARTED, events);
            && (Do(w, e).recovering <==> BeginsRecovery(w, e, Silence(events), SlowRun(events)))
            && (Do(w, e).contexts > w.contexts <==> Restarts(w, e, SlowRun(events)))
  {
    RunKeepsInv(STARTED, events);
    FieldsCountTheRuns(events);
    DoRunsStep(Run(STARTED, events), e);
  }
}
