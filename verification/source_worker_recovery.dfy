/** When a recovering worker reopens its device. */
module SourceWorkerRecovery {
  import opened SourceWorker
  import opened SourceWorkerSafety

  ghost predicate LastThreeAgree(r: seq<Signal>) {
    |r| >= 3 && r[|r| - 1].Size? && r[|r| - 2] == r[|r| - 1] && r[|r| - 3] == r[|r| - 1]
  }

  /** The signal readings since the recovery began, or since the last attempt to reopen. */
  ghost function Readings(events: seq<Event>): seq<Signal> {
    if events == [] then []
    else After(Run(STARTED, events[..|events| - 1]), Readings(events[..|events| - 1]), events[|events| - 1])
  }

  ghost function After(w: Worker, r: seq<Signal>, e: Event): seq<Signal> {
    if !w.recovering then []
    else if !(e.RecoverTimer? && w.recoverTimer && !w.shuttingDown) then r
    else if LastThreeAgree(r + [e.signal]) then []
    else r + [e.signal]
  }

  /** The stable count is the length of the run of equal readings that ends the readings. */
  ghost predicate CountsTheRun(w: Worker, r: seq<Signal>) {
    && w.stableCount < STABILITY_CHECK_COUNT && w.stableCount <= |r|
    && (forall k :: |r| - w.stableCount <= k < |r| ==> r[k] == Size(w.stableWidth, w.stableHeight))
    && (w.stableCount < |r| ==> r[|r| - 1 - w.stableCount] != Size(w.stableWidth, w.stableHeight))
    && (w.stableCount == 0 && r != [] ==> r[|r| - 1] == NoSignalInfo)
  }

  lemma TimerKeepsTheRun(w: Worker, r: seq<Signal>, signal: Signal, opens: bool)
    requires Inv(w) && w.recovering && w.recoverTimer && !w.shuttingDown && CountsTheRun(w, r)
    ensures var t := OnRecoverTimer(w, signal, opens); var q := r + [signal];
            && (LastThreeAgree(q) ==> t.recovering == !opens && (t.recovering ==> t.stableCount == 0))
            && (!LastThreeAgree(q) ==> t.recovering && CountsTheRun(t, q))
  {
    var n := |r|;
    if w.stableCount >= 1 { assert r[n - 1] == Size(w.stableWidth, w.stableHeight); }
    if w.stableCount == 2 { assert r[n - 2] == Size(w.stableWidth, w.stableHeight); }
  }

  lemma OthersKeepTheRun(w: Worker, e: Event)
    requires Inv(w) && w.recovering
    requires e.RecoverTimer? ==> !w.recoverTimer || w.shuttingDown
    ensures var t := Do(w, e);
            t.recovering && t.stableCount == w.stableCount &&
            t.stableWidth == w.stableWidth && t.stableHeight == w.stableHeight
  {
  }

  lemma NewRecoveryStartsOver(w: Worker, e: Event)
    requires Inv(w) && !w.recovering
    ensures Do(w, e).recovering ==> Do(w, e).stableCount == 0
  {
  }

  lemma StepCountsReadings(w: Worker, r: seq<Signal>, e: Event)
    requires Inv(w) && (w.recovering ==> CountsTheRun(w, r))
    ensures Do(w, e).recovering ==> CountsTheRun(Do(w, e), After(w, r, e))
  {
    if !w.recovering {
      NewRecoveryStartsOver(w, e);
    } else if e.RecoverTimer? && w.recoverTimer && !w.shuttingDown {
      TimerKeepsTheRun(w, r, e.signal, e.opens);
    } else {
      OthersKeepTheRun(w, e);
    }
  }

  lemma {:induction false} RunCountsReadings(events: seq<Event>)
    ensures var w := Run(STARTED, events);
            Inv(w) && (w.recovering ==> CountsTheRun(w, Readings(events)))
  {
    RunKeepsInv(STARTED, events);
    if events != [] {
      var before, e := events[..|events| - 1], events[|events| - 1];
      RunCountsReadings(before);
      StepCountsReadings(Run(STARTED, before), Readings(before), e);
    }
  }

  /** After any run: a recovery timer reopens the device exactly when this reading and the two
      before it show the same signal (counted from the start of the recovery, or from the last
      attempt) and the driver lets it. */
  lemma ReopensAfterThreeEqualReadings(events: seq<Event>, signal: Signal, opens: bool)
    requires var w := Run(STARTED, events); w.recovering && !w.shuttingDown
    ensures var w := Run(STARTED, events);
            Do(w, RecoverTimer(signal, opens)).ctx != 0 <==>
            opens && LastThreeAgree(Readings(events) + [signal])
  {
    RunCountsReadings(events);
    var w := Run(STARTED, events);
    TimerKeepsTheRun(w, Readings(events), signal, opens);
    RecoverTimerKeepsInv(w, signal, opens);
  }

  /** Nothing but that timer ends a recovery. */
  lemma OnlyTheTimerReopens(w: Worker, e: Event)
    requires Inv(w) && w.recovering && !Do(w, e).recovering
    ensures e.RecoverTimer? && w.recoverTimer && !w.shuttingDown && e.opens && e.signal.Size?
  {
  }
}
