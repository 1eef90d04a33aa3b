/** What each step of the way does with a sequence, and that whatever is not lost can come home. */
module LeaseDelivery {
  import opened LeaseProtocol
  import SourceWorker
  import SourceWorkerSafety
  import opened Wrappers
  import FrameSlot

  // ---------------------------------------------------------------- one step

  /** A callback of the worker takes place in the system too; if it sent a frame, that is on its way. */
  lemma SentGoesOnItsWay(s: System, e: SourceWorker.Event)
    requires !e.ReleaseMessage?
    ensures var t, w := Do(s, WorkerStep(e)), SourceWorker.Do(s.worker, e);
            && t.worker == w && t.slot == s.slot
            && t.video == (if w.counter > s.worker.counter then s.video + [s.worker.counter] else s.video)
  {
  }

  /** A message received becomes the newest frame of the ring, and the oldest of four is acknowledged. */
  lemma ReceivedJoinsTheRing(s: System, timestamp: nat)
    requires SystemInv(s) && s.video != []
    ensures var t, w := Do(s, Receive(timestamp)), s.slot.window;
            && t.video == s.video[1..] && t.compositor == s.compositor && t.arrived == s.arrived && t.lost == s.lost
            && t.slot.window == (if |w| == 4 then w[1..] else w) + [Object(s.video[0], timestamp)]
            && t.acks == s.acks + multiset(Sequences(if |w| == 4 then w[..1] else []))
  {
    var w := s.slot.window;
    PublishMoves(s.slot, s.video[0], timestamp);
    var op := FrameSlot.Publish(Object(s.video[0], timestamp));
    assert Sequences(if |w| == 4 then w[..1] else []) == Dropped(s.slot, op);
  }

  lemma LostIsNoted(s: System)
    requires s.video != []
    ensures var t := Do(s, VideoLost); t.video == s.video[1..] && t.lost == s.lost + multiset{s.video[0]}
  {
  }

  /** take gives the compositor the newest frame and acknowledges the others. */
  lemma TakeGivesTheNewest(s: System)
    requires SystemInv(s) && s.slot.window != []
    ensures var t, w, n := Do(s, Ring(FrameSlot.Take)), s.slot.window, |s.slot.window| - 1;
            && t.slot.window == [] && t.compositor == s.compositor + multiset{SequenceOf(w[n])}
            && t.acks == s.acks + multiset(Sequences(w[..n]))
  {
    var w, n := s.slot.window, |s.slot.window| - 1;
    TakeMoves(s.slot, FrameSlot.Take);
    assert Sequences(w)[..n] == Dropped(s.slot, FrameSlot.Take) == Sequences(w[..n]);
  }

  /** take_oldest gives it the oldest and keeps the others. */
  lemma TakeOldestGivesTheOldest(s: System)
    requires SystemInv(s) && s.slot.window != []
    ensures var t, w := Do(s, Ring(FrameSlot.TakeOldest)), s.slot.window;
            && t.slot.window == w[1..] && t.compositor == s.compositor + multiset{SequenceOf(w[0])} && t.acks == s.acks
  {
    var w := s.slot.window;
    TakeMoves(s.slot, FrameSlot.TakeOldest);
    assert Dropped(s.slot, FrameSlot.TakeOldest) == [];
  }

  /** flush acknowledges all of them. */
  lemma FlushAcknowledges(s: System)
    requires SystemInv(s)
    ensures var t := Do(s, Ring(FrameSlot.Flush));
            && t.slot.window == [] && t.compositor == s.compositor
            && t.acks == s.acks + multiset(Sequences(s.slot.window))
  {
    TakeMoves(s.slot, FrameSlot.Flush);
    var t := FrameSlot.Do(s.slot, FrameSlot.Flush);
    assert t.window == [] && Taken(s.slot, FrameSlot.Flush) == [];
    assert Sequences(s.slot.window) == Dropped(s.slot, FrameSlot.Flush);
  }

  // ---------------------------------------------------------------- coming home

  /** Nothing is lost and the worker does nothing but read acknowledgements. */
  predicate Passes(steps: seq<Step>) {
    forall i :: 0 <= i < |steps| ==>
      steps[i].Receive? || steps[i].Ring? || steps[i].CompositorRelease? || steps[i].AckArrives?
  }

  /** The state after these steps. */
  function Onward(s: System, steps: seq<Step>): System
    decreases |steps|
  {
    if steps == [] then s else Onward(Do(s, steps[0]), steps[1..])
  }

  lemma OneMore(s: System, step: Step, t: System, rest: seq<Step>)
    requires t == Do(s, step)
    ensures Onward(s, [step] + rest) == Onward(t, rest)
  {
    assert ([step] + rest)[1..] == rest;
  }

  lemma AckArrivesNow(s: System, n: nat)
    requires n in s.acks
    ensures n in Onward(s, [AckArrives(n)]).arrived
  {
    var t := Do(s, AckArrives(n));
    OneMore(s, AckArrives(n), t, []);
    assert [AckArrives(n)] + [] == [AckArrives(n)];
  }

  /** From an acknowledgement, the compositor and the ring. */
  lemma FromServerHome(s: System, n: nat) returns (steps: seq<Step>)
    requires SystemInv(s) && (n in s.acks || n in s.compositor || n in Sequences(s.slot.window))
    ensures Passes(steps) && n in Onward(s, steps).arrived
  {
    steps := [AckArrives(n)];
    if n in s.acks {
      AckArrivesNow(s, n);
    } else if n in s.compositor {
      var t := Do(s, CompositorRelease(n));
      AckArrivesNow(t, n);
      OneMore(s, CompositorRelease(n), t, steps);
      steps := [CompositorRelease(n)] + steps;
    } else {
      var t := Do(s, Ring(FrameSlot.Flush));
      FlushAcknowledges(s);
      assert n in multiset(Sequences(s.slot.window));
      AckArrivesNow(t, n);
      OneMore(s, Ring(FrameSlot.Flush), t, steps);
      steps := [Ring(FrameSlot.Flush)] + steps;
    }
  }

  lemma FirstReceived(s: System, t: System)
    requires SystemInv(s) && s.video != [] && t == Do(s, Receive(0))
    ensures SystemInv(t) && t.video == s.video[1..] && s.video[0] in Sequences(t.slot.window)
  {
    ReceivedJoinsTheRing(s, 0);
    DoKeeps(s, Receive(0));
    var w := t.slot.window;
    assert Sequences(w)[|w| - 1] == s.video[0];
  }

  /** From the way to the server: first the messages before it are received, then it is. */
  lemma {:induction false} FromVideoHome(s: System, n: nat, i: nat) returns (steps: seq<Step>)
    requires SystemInv(s) && i < |s.video| && s.video[i] == n
    ensures Passes(steps) && n in Onward(s, steps).arrived
    decreases i
  {
    var t := Do(s, Receive(0));
    FirstReceived(s, t);
    var rest: seq<Step>;
    if i == 0 { rest := FromServerHome(t, n); } else { rest := FromVideoHome(t, n, i - 1); }
    OneMore(s, Receive(0), t, rest);
    steps := [Receive(0)] + rest;
  }

  lemma AckKeepsSent(w: SourceWorker.Worker, sequence: nat, f: nat)
    requires f < |w.frames|
    ensures var t := SourceWorker.Do(w, SourceWorker.ReleaseMessage(sequence));
            |t.frames| == |w.frames| && t.frames[f].sent == w.frames[f].sent
  {
  }

  lemma StepKeepsSent(s: System, step: Step, f: nat)
    requires f < |s.worker.frames| && !step.WorkerStep?
    ensures var t := Do(s, step).worker; |t.frames| == |s.worker.frames| && t.frames[f].sent == s.worker.frames[f].sent
  {
    if step.AckArrives? && step.sequence in s.acks {
      AckKeepsSent(s.worker, step.sequence, f);
    } else {
      assert Do(s, step).worker == s.worker;
    }
  }

  lemma {:induction false} SentStays(s: System, steps: seq<Step>, f: nat)
    requires SystemInv(s) && Passes(steps) && f < |s.worker.frames|
    ensures var t := Onward(s, steps);
            && SystemInv(t) && |t.worker.frames| == |s.worker.frames|
            && t.worker.frames[f].sent == s.worker.frames[f].sent
    decreases |steps|
  {
    if steps != [] {
      DoKeeps(s, steps[0]);
      StepKeepsSent(s, steps[0], f);
      SentStays(Do(s, steps[0]), steps[1..], f);
    }
  }

  /** In every state a run can reach: a sequence that was sent and not lost can come home without another
      thing happening on the worker's side, so nothing on the way is ever stuck; its frame is then back
      with the driver. */
  lemma WhatIsNotLostComesHome(s: System, f: nat) returns (steps: seq<Step>)
    requires Reachable(s) && f < |s.worker.frames| && s.worker.frames[f].sent.Some?
    requires s.worker.frames[f].sent.value !in s.lost
    ensures Passes(steps) && s.worker.frames[f].sent.value in Onward(s, steps).arrived
    ensures var t := Onward(s, steps); f < |t.worker.frames| && t.worker.frames[f].handedTo != []
  {
    var n := s.worker.frames[f].sent.value;
    ReachableIsInv(s);
    assert SourceWorkerSafety.FrameOk(s.worker, f);
    assert Copies(s, n) == 1;
    if n in s.arrived {
      steps := [];
    } else if n in s.acks || n in s.compositor || n in Sequences(s.slot.window) {
      steps := FromServerHome(s, n);
    } else {
      assert n in multiset(s.video);
      var i :| 0 <= i < |s.video| && s.video[i] == n;
      steps := FromVideoHome(s, n, i);
    }
    SentStays(s, steps, f);
  }
}
