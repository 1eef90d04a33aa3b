/** The whole way of a lent frame: worker, video channel, the server's ring and compositor, and
    the acknowledgement back, which can be delayed, overtaken or lost. */
module LeaseProtocol {
  import opened SourceWorker
  import opened Wrappers
  import opened SourceWorkerSafety
  import FrameSlot

  datatype System = System(
    worker: Worker,
    video: seq<nat>,             // sent and not yet received by the server
    slot: FrameSlot.Slot,        // the server's ring, which releases what it drops
    compositor: multiset<nat>,   // taken by the compositor and not yet released
    acks: multiset<nat>,         // released by the server, the acknowledgement under way
    arrived: multiset<nat>,      // acknowledgements the worker has read
    lost: multiset<nat>)         // video messages and acknowledgements that went missing

  /** The server's frame object for a sequence number, and the sequence number in it. */
  function Object(sequence: nat, timestamp: nat): FrameSlot.Entry {
    FrameSlot.Entry(sequence + 1, timestamp)
  }

  function SequenceOf(e: FrameSlot.Entry): nat {
    if e.frame == FrameSlot.NULL then 0 else e.frame - 1
  }

  function Sequences(es: seq<FrameSlot.Entry>): (r: seq<nat>)
    ensures |r| == |es| && forall i :: 0 <= i < |es| ==> r[i] == SequenceOf(es[i])
  {
    seq(|es|, i requires 0 <= i < |es| => SequenceOf(es[i]))
  }

  datatype Step =
    | WorkerStep(e: Event)                 // any callback but a release message
    | Receive(timestamp: nat)              // the server receives the next frame and publishes it
    | VideoLost
    | Ring(op: FrameSlot.Op)               // take, take_oldest or flush
    | CompositorRelease(sequence: nat)
    | AckArrives(sequence: nat)
    | AckLost(sequence: nat)

  /** What an operation on the ring makes the server release. */
  function Dropped(s: FrameSlot.Slot, op: FrameSlot.Op): seq<nat> {
    var before, after := s.released, FrameSlot.Do(s, op).released;
    if |before| <= |after| then Sequences(after[|before|..]) else []
  }

  /** What an operation on the ring hands to the compositor. */
  function Taken(s: FrameSlot.Slot, op: FrameSlot.Op): seq<nat> {
    if s.window == [] then []
    else if op.Take? then [SequenceOf(s.window[|s.window| - 1])]
    else if op.TakeOldest? then [SequenceOf(s.window[0])]
    else []
  }

  function OnRing(s: System, op: FrameSlot.Op): System {
    s.(slot := FrameSlot.Do(s.slot, op), acks := s.acks + multiset(Dropped(s.slot, op)),
       compositor := s.compositor + multiset(Taken(s.slot, op)))
  }

  function Do(s: System, step: Step): System {
    match step
    case WorkerStep(e) =>
      if e.ReleaseMessage? then s
      else
        var t := SourceWorker.Do(s.worker, e);
        s.(worker := t, video := if t.counter > s.worker.counter then s.video + [s.worker.counter] else s.video)
    case Receive(timestamp) =>
      if s.video == [] then s
      else OnRing(s.(video := s.video[1..]), FrameSlot.Publish(Object(s.video[0], timestamp)))
    case VideoLost =>
      if s.video == [] then s else s.(video := s.video[1..], lost := s.lost + multiset{s.video[0]})
    case Ring(op) =>
      if op.Take? || op.TakeOldest? || op.Flush? then OnRing(s, op) else s
    case CompositorRelease(sequence) =>
      if sequence in s.compositor
      then s.(compositor := s.compositor - multiset{sequence}, acks := s.acks + multiset{sequence})
      else s
    case AckArrives(sequence) =>
      if sequence in s.acks
      then s.(acks := s.acks - multiset{sequence}, arrived := s.arrived + multiset{sequence},
              worker := SourceWorker.Do(s.worker, ReleaseMessage(sequence)))
      else s
    case AckLost(sequence) =>
      if sequence in s.acks
      then s.(acks := s.acks - multiset{sequence}, lost := s.lost + multiset{sequence})
      else s
  }

  function Run(s: System, steps: seq<Step>): System {
    if steps == [] then s else Do(Run(s, steps[..|steps| - 1]), steps[|steps| - 1])
  }

  const INIT: System :=
    System(STARTED, [], FrameSlot.INIT.(releases := true), multiset{}, multiset{}, multiset{}, multiset{})

  // ---------------------------------------------------------------- where every sequence is

  /** How often a sequence number is to be found in the system. */
  function Copies(s: System, n: nat): nat {
    multiset(s.video)[n] + multiset(Sequences(s.slot.window))[n] + s.compositor[n] +
    s.acks[n] + s.arrived[n] + s.lost[n]
  }

  ghost predicate Conserved(s: System) {
    forall n: nat :: Copies(s, n) == if n < s.worker.counter then 1 else 0
  }

  ghost predicate AckedOk(s: System) {
    && (forall k :: k in s.worker.acked <==> k in s.arrived)
    && BackIfAcked(s.worker)
  }

  /** A frame whose sequence was acknowledged is with its driver again. */
  ghost predicate BackIfAcked(w: Worker) {
    forall f :: 0 <= f < |w.frames| && w.frames[f].sent.Some? && w.frames[f].sent.value in w.acked ==>
      w.frames[f].handedTo != []
  }

  ghost predicate SystemInv(s: System) {
    && Inv(s.worker)
    && s.slot.releases
    && Conserved(s)
    && AckedOk(s)
  }

  // ---------------------------------------------------------------- the ring moves, it does not copy

  lemma {:induction false} DropManyMoves(s: FrameSlot.Slot, n: nat)
    requires s.releases && n <= |s.window|
    ensures FrameSlot.DropMany(s, n).released == s.released + s.window[..n]
  {
    if n > 0 {
      DropManyMoves(s, n - 1);
      assert s.window[..n] == s.window[..n - 1] + [s.window[n - 1]];
    }
  }

  lemma TakeMoves(s: FrameSlot.Slot, op: FrameSlot.Op)
    requires s.releases && (op.Take? || op.TakeOldest? || op.Flush?)
    ensures FrameSlot.Do(s, op).releases
    ensures Sequences(s.window) == Dropped(s, op) + (Taken(s, op) + Sequences(FrameSlot.Do(s, op).window))
  {
    var n, t := |s.window|, FrameSlot.Do(s, op);
    var k := if op.Flush? then n else if n == 0 || op.TakeOldest? then 0 else n - 1;
    if op.Take? || op.Flush? { DropManyMoves(s, k); }
    assert t.released[|s.released|..] == s.window[..k];
  }

  lemma PublishMoves(s: FrameSlot.Slot, sequence: nat, timestamp: nat)
    requires s.releases
    ensures var op := FrameSlot.Publish(Object(sequence, timestamp)); var t := FrameSlot.Do(s, op);
            && t.releases && Taken(s, op) == []
            && Sequences(s.window) + [sequence] == Dropped(s, op) + Sequences(t.window)
  {
    var op := FrameSlot.Publish(Object(sequence, timestamp));
    var t := FrameSlot.Do(s, op);
    var k := if |s.window| == FrameSlot.RING_SIZE then 1 else 0;
    assert t.released[|s.released|..] == s.window[..k];
  }

  lemma CountConcat(a: seq<nat>, b: seq<nat>, n: nat)
    ensures multiset(a + b)[n] == multiset(a)[n] + multiset(b)[n]
  {
    assert multiset(a + b) == multiset(a) + multiset(b);
  }

  // ---------------------------------------------------------------- every step conserves

  /** The worker's frames keep the sequence they were sent under, and stay back once they are back;
      a new one is sent under the counter, if at all. */
  ghost predicate Grows(w: Worker, t: Worker) {
    && |w.frames| <= |t.frames|
    && (forall f :: 0 <= f < |w.frames| ==>
          t.frames[f].sent == w.frames[f].sent && (w.frames[f].handedTo != [] ==> t.frames[f].handedTo != []))
    && (forall f :: |w.frames| <= f < |t.frames| ==> t.frames[f].sent in {None, Some(w.counter)})
    && t.acked == w.acked
  }

  lemma {:induction false} ReleaseBelowGrows(w: Worker, n: nat)
    ensures Grows(w, ReleaseBelow(w, n))
  {
    if n > 0 {
      ReleaseBelowGrows(w, n - 1);
    }
  }

  lemma CloseGrows(w: Worker)
    ensures Grows(w, CloseCurrent(w)) && CloseCurrent(w).counter == w.counter
  {
    ReleaseBelowGrows(w, |w.leases|);
  }

  lemma RecoveryGrows(w: Worker)
    ensures Grows(w, BeginRecovery(w)) && BeginRecovery(w).counter == w.counter
  {
    CloseGrows(w.(recovering := true, nosigRun := 0, lowWindows := 0,
                  stableCount := 0, stableWidth := 0, stableHeight := 0));
  }

  lemma RestartGrows(w: Worker, opens: bool)
    ensures Grows(w, RestartNow(w, opens)) && RestartNow(w, opens).counter == w.counter
  {
    CloseGrows(w);
    RecoveryGrows(OpenStart(CloseCurrent(w), opens));
  }

  lemma FrameGrows(w: Worker, hasFd: bool, splitPlanes: bool, send: SendResult)
    requires LeasesOk(w)
    ensures Grows(w, OnFrame(w, hasFd, splitPlanes, send))
  {
    if hasFd && !splitPlanes { LendGrows(CountAcquired(w), |w.frames|, send); }
  }

  /** Lending touches the newest frame only. */
  lemma LendGrows(w: Worker, f: nat, send: SendResult)
    requires |w.frames| == f + 1
    ensures var t := Lend(w, f, send);
            && |t.frames| == |w.frames| && t.acked == w.acked
            && t.frames[..f] == w.frames[..f]
            && t.frames[f].sent in {w.frames[f].sent, Some(w.counter)}
  {
    var i := FreeFrom(w.leases, 0);
    if i < |w.leases| {
      var u := w.(leases := w.leases[i := Lease(true, w.counter, f)]);
      assert u.leases[i].frame == f;
    }
  }

  lemma GrowsFrom(w: Worker, t: Worker, u: Worker)
    requires t.frames == w.frames && t.acked == w.acked && t.counter == w.counter && Grows(t, u)
    ensures Grows(w, u)
  {
  }

  lemma GotGrows(w: Worker, hasFd: bool, splitPlanes: bool, send: SendResult)
    requires LeasesOk(w)
    ensures Grows(w, Attempt(w, Got(hasFd, splitPlanes), send))
  {
    var t := CountAttempt(w);
    var u := OnFrame(t, hasFd, splitPlanes, send);
    assert Attempt(w, Got(hasFd, splitPlanes), send) == u;
    FrameGrows(t, hasFd, splitPlanes, send);
    GrowsFrom(w, t, u);
  }

  lemma NoSignalGrows(w: Worker, send: SendResult)
    ensures Grows(w, Attempt(w, NoSignal, send))
  {
    var t := CountAttempt(w);
    var u := t.(stats := t.stats.(nosig := t.stats.nosig + 1), nosigRun := t.nosigRun + 1);
    var v := OnNoSignal(t);
    assert Attempt(w, NoSignal, send) == v;
    RecoveryGrows(u);
    GrowsFrom(w, u, v);
  }

  lemma AttemptGrows(w: Worker, acquired: Acquired, send: SendResult)
    requires LeasesOk(w)
    ensures Grows(w, Attempt(w, acquired, send))
  {
    match acquired
    case Got(hasFd, splitPlanes) => GotGrows(w, hasFd, splitPlanes, send);
    case NoSignal => NoSignalGrows(w, send);
    case Timeout =>
    case Failed =>
  }

  lemma WorkerGrows(w: Worker, e: Event)
    requires Inv(w) && !e.ReleaseMessage?
    ensures Grows(w, SourceWorker.Do(w, e))
  {
    match e
    case FrameTimer(acquired, send) => AttemptGrows(w, acquired, send);
    case EventTimer(event) => RecoveryGrows(w);
    case StatsTimer(lowFps, opens) => RestartGrows(w.(lowWindows := w.lowWindows + 1), opens);
    case RecoverTimer(signal, opens) =>
    case ShutdownMessage =>
  }

  lemma RingKeepsCopies(s: System, op: FrameSlot.Op, n: nat)
    requires s.slot.releases && (op.Take? || op.TakeOldest? || op.Flush?)
    ensures Copies(OnRing(s, op), n) == Copies(s, n) && OnRing(s, op).slot.releases
  {
    TakeMoves(s.slot, op);
    var rest := Sequences(FrameSlot.Do(s.slot, op).window);
    CountConcat(Dropped(s.slot, op), Taken(s.slot, op) + rest, n);
    CountConcat(Taken(s.slot, op), rest, n);
  }

  lemma ReceiveKeepsCopies(s: System, timestamp: nat, n: nat)
    requires s.slot.releases && s.video != []
    ensures Copies(Do(s, Receive(timestamp)), n) == Copies(s, n) && Do(s, Receive(timestamp)).slot.releases
  {
    var op := FrameSlot.Publish(Object(s.video[0], timestamp));
    PublishMoves(s.slot, s.video[0], timestamp);
    CountConcat(Sequences(s.slot.window), [s.video[0]], n);
    CountConcat(Dropped(s.slot, op), Sequences(FrameSlot.Do(s.slot, op).window), n);
    HeadCounts(s.video, n);
  }

  lemma HeadCounts(v: seq<nat>, n: nat)
    requires v != []
    ensures multiset(v)[n] == multiset([v[0]])[n] + multiset(v[1..])[n]
  {
    assert v == [v[0]] + v[1..];
  }

  /** Every step moves one sequence number from place to place; sending makes the next one. */
  lemma StepKeepsCopies(s: System, step: Step, n: nat)
    requires s.slot.releases && s.worker.counter <= Do(s, step).worker.counter <= s.worker.counter + 1
    requires !step.WorkerStep? ==> Do(s, step).worker.counter == s.worker.counter
    ensures Do(s, step).slot.releases
    ensures Copies(Do(s, step), n) ==
            Copies(s, n) + if n == s.worker.counter < Do(s, step).worker.counter then 1 else 0
  {
    match step
    case WorkerStep(e) => WorkerStepCopies(s, e, n);
    case Receive(timestamp) => if s.video != [] { ReceiveKeepsCopies(s, timestamp, n); }
    case VideoLost => if s.video != [] { HeadCounts(s.video, n); }
    case Ring(op) => if op.Take? || op.TakeOldest? || op.Flush? { RingKeepsCopies(s, op, n); }
    case CompositorRelease(sequence) =>
    case AckArrives(sequence) => AckCopies(s, sequence, n);
    case AckLost(sequence) =>
  }

  lemma WorkerStepCopies(s: System, e: Event, n: nat)
    requires s.worker.counter <= Do(s, WorkerStep(e)).worker.counter <= s.worker.counter + 1
    ensures var t := Do(s, WorkerStep(e));
            t.slot == s.slot && Copies(t, n) == Copies(s, n) + if n == s.worker.counter < t.worker.counter then 1 else 0
  {
    var t := Do(s, WorkerStep(e));
    var more := if t.worker.counter > s.worker.counter then s.video + [s.worker.counter] else s.video;
    assert t == s.(worker := t.worker, video := more);
    CountConcat(s.video, [s.worker.counter], n);
  }

  lemma AckCopies(s: System, sequence: nat, n: nat)
    ensures var t := Do(s, AckArrives(sequence)); t.slot == s.slot && Copies(t, n) == Copies(s, n)
  {
    var t := Do(s, AckArrives(sequence));
    assert sequence in s.acks ==>
      t == s.(worker := t.worker, acks := s.acks - multiset{sequence}, arrived := s.arrived + multiset{sequence});
  }

  lemma StepConserves(s: System, step: Step)
    requires Inv(s.worker) && s.slot.releases && Conserved(s)
    ensures Inv(Do(s, step).worker) && Do(s, step).slot.releases && Conserved(Do(s, step))
  {
    var t := Do(s, step);
    if step.WorkerStep? {
      DoKeepsInv(s.worker, step.e);
      CounterNeverGoesBack(s.worker, step.e);
    } else if step.AckArrives? {
      DoKeepsInv(s.worker, ReleaseMessage(step.sequence));
      AckLeavesCounter(s.worker, step.sequence);
    }
    assert t.slot.releases by { StepKeepsCopies(s, step, 0); }
    forall n: nat ensures Copies(t, n) == if n < t.worker.counter then 1 else 0 {
      StepKeepsCopies(s, step, n);
    }
  }

  lemma AckLeavesCounter(w: Worker, sequence: nat)
    ensures SourceWorker.Do(w, ReleaseMessage(sequence)).counter == w.counter
  {
  }

  lemma WorkerStepKeepsAcked(s: System, e: Event)
    requires SystemInv(s) && !e.ReleaseMessage?
    ensures AckedOk(Do(s, WorkerStep(e)))
  {
    WorkerGrows(s.worker, e);
    assert Copies(s, s.worker.counter) == 0;
  }

  /** The acknowledgement that arrives brings its frame back, if its lease is still there. */
  lemma AckKeepsAcked(s: System, sequence: nat)
    requires SystemInv(s) && sequence in s.acks
    ensures AckedOk(Do(s, AckArrives(sequence)))
  {
    var w, t := s.worker, Do(s, AckArrives(sequence));
    forall f | 0 <= f < |t.worker.frames| && t.worker.frames[f].sent.Some? &&
               t.worker.frames[f].sent.value in t.worker.acked
      ensures t.worker.frames[f].handedTo != []
    {
      AckBringsBack(w, sequence, f);
    }
  }

  lemma AckBringsBack(w: Worker, sequence: nat, f: nat)
    requires Inv(w) && BackIfAcked(w) && f < |w.frames|
    ensures var t := SourceWorker.Do(w, ReleaseMessage(sequence));
            && f < |t.frames| && t.frames[f].sent == w.frames[f].sent
            && (w.frames[f].handedTo != [] ==> t.frames[f].handedTo != [])
            && (w.frames[f].sent == Some(sequence) ==> t.frames[f].handedTo != [])
  {
    var i := FindFrom(w.leases, sequence, 0);
    assert FrameOk(w, f);
    if Leased(w, f) {
      var j :| 0 <= j < |w.leases| && w.leases[j].active && w.leases[j].frame == f;
      assert LeaseOk(w, w.leases[j]);
    }
    if i < |w.leases| { assert LeaseOk(w, w.leases[i]); }
  }

  lemma DoKeeps(s: System, step: Step)
    requires SystemInv(s)
    ensures SystemInv(Do(s, step))
  {
    StepConserves(s, step);
    if step.WorkerStep? && !step.e.ReleaseMessage? {
      WorkerStepKeepsAcked(s, step.e);
    } else if step.AckArrives? && step.sequence in s.acks {
      AckKeepsAcked(s, step.sequence);
    } else {
      assert Do(s, step).worker == s.worker && Do(s, step).arrived == s.arrived;
    }
  }

  lemma {:induction false} RunKeeps(steps: seq<Step>)
    ensures SystemInv(Run(INIT, steps))
  {
    if steps != [] {
      RunKeeps(steps[..|steps| - 1]);
      DoKeeps(Run(INIT, steps[..|steps| - 1]), steps[|steps| - 1]);
    }
  }

  // ---------------------------------------------------------------- main results

  ghost predicate Reachable(s: System) {
    exists steps :: Reaches(steps, s)
  }

  ghost predicate Reaches(steps: seq<Step>, s: System) {
    s == Run(INIT, steps)
  }

  lemma ReachableIsInv(s: System)
    requires Reachable(s)
    ensures SystemInv(s)
  {
    var steps :| Reaches(steps, s);
    RunKeeps(steps);
  }

  /** Over every run: each sequence ever sent is in exactly one place - on its way, in the ring,
      at the compositor, in an acknowledgement, acknowledged, or in a lost message - so the server
      releases it at most once. */
  lemma EverySequenceInOnePlace(s: System, sequence: nat)
    requires Reachable(s)
    ensures Copies(s, sequence) == if sequence < s.worker.counter then 1 else 0
  {
    ReachableIsInv(s);
  }

  ghost predicate AtServer(s: System, sequence: nat) {
    sequence in s.video || sequence in Sequences(s.slot.window) || sequence in s.compositor
  }

  /** Over every run: as long as its context is open, a frame that was sent is lent out until its
      own acknowledgement has arrived, and is back from then on.  So it is never back while the
      message is on its way or the server still holds the frame. */
  lemma BackExactlyWhenAcknowledged(s: System, f: nat)
    requires Reachable(s) && f < |s.worker.frames|
    requires s.worker.frames[f].sent.Some? && s.worker.frames[f].owner == s.worker.ctx
    ensures var frame := s.worker.frames[f];
            && (frame.handedTo != [] <==> frame.sent.value in s.arrived)
            && (AtServer(s, frame.sent.value) ==> frame.handedTo == [] && Leased(s.worker, f))
  {
    ReachableIsInv(s);
    var n := s.worker.frames[f].sent.value;
    assert FrameOk(s.worker, f);
    assert Copies(s, n) == 1;
    if AtServer(s, n) { AtServerCounts(s, n); }
  }

  lemma AtServerCounts(s: System, n: nat)
    requires AtServer(s, n) && Copies(s, n) == 1
    ensures n !in s.arrived
  {
    assert n in multiset(s.video) || n in multiset(Sequences(s.slot.window)) || n in s.compositor;
  }

  /** Over every run: every lent frame is accounted for.  A lease outlives its frame's way through
      the system only if a message was lost. */
  lemma LeasesAreAccountedFor(s: System, i: nat)
    requires Reachable(s) && i < |s.worker.leases| && s.worker.leases[i].active
    ensures var n := s.worker.leases[i].sequence;
            AtServer(s, n) || n in s.acks || n in s.lost
  {
    ReachableIsInv(s);
    var l := s.worker.leases[i];
    assert LeaseOk(s.worker, l);
    assert Copies(s, l.sequence) == 1;
    assert l.sequence !in s.arrived;
    assert l.sequence in multiset(s.video) ==> l.sequence in s.video;
    assert l.sequence in multiset(Sequences(s.slot.window)) ==> l.sequence in Sequences(s.slot.window);
  }

  /** Over every run, whatever is lost or late: each device frame goes back to its driver at most
      once, and only to the context it came from. */
  lemma HandedBackAtMostOnce(s: System, f: nat)
    requires Reachable(s) && f < |s.worker.frames|
    ensures var frame := s.worker.frames[f];
            frame.handedTo == [] || frame.handedTo == [frame.owner]
  {
    ReachableIsInv(s);
    var w := s.worker;
    assert FrameOk(w, f);
    if Leased(w, f) {
      var i :| 0 <= i < |w.leases| && w.leases[i].active && w.leases[i].frame == f;
      assert LeaseOk(w, w.leases[i]);
    }
  }
}
