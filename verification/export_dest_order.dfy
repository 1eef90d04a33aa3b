/** When a destination's consumer gets its frames in the order they were submitted. A poll reads the
    fences one by one, so it may see any of them signalled. */
module ExportDestOrder {
  import opened Counting
  import opened ExportDest
  import opened ExportDestSafety

  /** Consumed in order, and nothing outstanding will have to come too late. */
  ghost predicate InOrderSoFar(r: Ring)
    requires |r.slots| == SLOT_COUNT
  {
    && Increasing(r.consumed)
    && forall i, k :: 0 <= i < |r.consumed| && 0 <= k < SLOT_COUNT && Outstanding(r.slots[k]) ==>
         r.consumed[i] < r.slots[k].frame
  }

  /** The poll can hand this slot's frame out. */
  predicate Seen(slot: Slot, signalled: bool) {
    slot.state.Ready? || (slot.state.Submitted? && signalled)
  }

  predicate OlderThanWaiting(frame: nat, slots: seq<Slot>, view: seq<bool>)
    requires |slots| == |view| == SLOT_COUNT
  {
    forall k :: 0 <= k < SLOT_COUNT && slots[k].state.Submitted? && !view[k] ==> frame < slots[k].frame
  }

  /** Nothing can be handed out, or some frame that can is older than every one seen unsignalled. */
  predicate PollInOrder(slots: seq<Slot>, view: seq<bool>)
    requires |slots| == |view| == SLOT_COUNT
  {
    (exists i :: 0 <= i < SLOT_COUNT && Seen(slots[i], view[i])) ==>
      exists i :: 0 <= i < SLOT_COUNT && Seen(slots[i], view[i]) && OlderThanWaiting(slots[i].frame, slots, view)
  }

  /** A poll keeps the order exactly if it meets the condition on what it sees. */
  lemma PollKeepsOrderIff(r: Ring, view: seq<bool>)
    requires |r.slots| == |view| == SLOT_COUNT && BooksOk(r)
    ensures InOrderSoFar(Acquire(r, view)) <==> InOrderSoFar(r) && PollInOrder(r.slots, view)
  {
    var polled := Poll(r.slots, view);
    var b := Best(polled);
    forall k | 0 <= k < SLOT_COUNT
      ensures polled[k].frame == r.slots[k].frame && (Outstanding(polled[k]) <==> Outstanding(r.slots[k]))
      ensures polled[k].state.Ready? <==> Seen(r.slots[k], view[k])
      ensures Outstanding(r.slots[k]) && !Seen(r.slots[k], view[k]) ==> r.slots[k].state.Submitted? && !view[k]
    {}
    if b < SLOT_COUNT {
      BestIsOldest(r, view, polled, b);
      TakingKeepsOrderIff(r.(slots := polled), b);
    }
  }

  lemma BestIsOldest(r: Ring, view: seq<bool>, polled: seq<Slot>, b: nat)
    requires |r.slots| == |view| == SLOT_COUNT && BooksOk(r)
    requires polled == Poll(r.slots, view) && b == Best(polled) < SLOT_COUNT
    ensures PollInOrder(r.slots, view) <==>
            forall k :: 0 <= k < SLOT_COUNT && k != b && Outstanding(polled[k]) ==> polled[b].frame < polled[k].frame
  {
    forall k | 0 <= k < SLOT_COUNT
      ensures polled[k].frame == r.slots[k].frame && (polled[k].state.Ready? <==> Seen(r.slots[k], view[k]))
      ensures r.slots[k].state.Submitted? && !view[k] <==> polled[k].state.Submitted?
      ensures k != b && polled[k].state.Ready? ==> polled[b].frame < polled[k].frame
    {
      assert Outstanding(r.slots[b]);
    }
    assert Seen(r.slots[b], view[b]);
    if PollInOrder(r.slots, view) {
      var i :| 0 <= i < SLOT_COUNT && Seen(r.slots[i], view[i]) && OlderThanWaiting(r.slots[i].frame, r.slots, view);
      assert polled[b].frame <= polled[i].frame;
    }
    if forall k :: 0 <= k < SLOT_COUNT && k != b && Outstanding(polled[k]) ==> polled[b].frame < polled[k].frame {
      assert OlderThanWaiting(r.slots[b].frame, r.slots, view);
    }
  }

  lemma TakingKeepsOrderIff(p: Ring, b: nat)
    requires |p.slots| == SLOT_COUNT && b < SLOT_COUNT && Outstanding(p.slots[b])
    ensures InOrderSoFar(p.(slots := p.slots[b := p.slots[b].(state := InUse, held := true)],
                            consumed := p.consumed + [p.slots[b].frame])) <==>
            && InOrderSoFar(p)
            && forall k :: 0 <= k < SLOT_COUNT && k != b && Outstanding(p.slots[k]) ==>
                 p.slots[b].frame < p.slots[k].frame
  {
    var f := p.slots[b].frame;
    var t := p.(slots := p.slots[b := p.slots[b].(state := InUse, held := true)], consumed := p.consumed + [f]);
    forall k | 0 <= k < SLOT_COUNT && k != b ensures t.slots[k] == p.slots[k] {}
    assert t.consumed[|p.consumed|] == f;
    forall i | 0 <= i < |p.consumed| ensures t.consumed[i] == p.consumed[i] {}
  }

  // ---------------------------------------------------------------- the other steps

  /** The same frames are outstanding, but for a submitted one newer than all before. */
  ghost predicate SameOrNewer(r: Ring, t: Ring)
    requires |r.slots| == |t.slots| == SLOT_COUNT
  {
    && t.consumed == r.consumed
    && forall k :: 0 <= k < SLOT_COUNT ==> SlotSameOrNewer(r.slots[k], t.slots[k], r.lastFrame)
  }

  ghost predicate SlotSameOrNewer(x: Slot, y: Slot, last: nat) {
    && (Outstanding(x) ==> y.state == x.state && y.frame == x.frame)
    && (Outstanding(y) && !Outstanding(x) ==> y.state.Submitted? && y.frame > last)
  }

  lemma NewerKeepsOrder(r: Ring, t: Ring)
    requires |r.slots| == |t.slots| == SLOT_COUNT && BooksOk(r) && SameOrNewer(r, t)
    ensures InOrderSoFar(t) <==> InOrderSoFar(r)
  {
    forall k | 0 <= k < SLOT_COUNT ensures SlotSameOrNewer(r.slots[k], t.slots[k], r.lastFrame) {}
  }

  predicate PollsOf(s: System, step: Step, d: nat)
    requires Shape(s)
  {
    Allowed(s, step) && step.AcquireReady? && step.dest == d
  }

  lemma OtherStepsSameOrNewer(s: System, step: Step, d: nat)
    requires Inv(s) && d < DEST_COUNT && !PollsOf(s, step, d)
    ensures SameOrNewer(s.rings[d], Do(s, step).rings[d])
  {
    if Allowed(s, step) {
      match step
      case Submit(dest, target, frame, accepted) => SubmitIsNewer(s, dest, target, frame, accepted, d);
      case AcquireReady(dest, view) =>
      case Release(dest, j) => assert SlotOk(s.rings[dest].slots[j]);
      case Retire(target) => RetireIsNewer(s, target, d);
    }
  }

  lemma RetireIsNewer(s: System, target: nat, d: nat)
    requires Inv(s) && target < TARGET_COUNT && d < DEST_COUNT
    ensures SameOrNewer(s.rings[d], RetireTarget(s, target).rings[d])
  {
    forall k | 0 <= k < SLOT_COUNT
      ensures SlotSameOrNewer(s.rings[d].slots[k], RetireTarget(s, target).rings[d].slots[k], s.rings[d].lastFrame)
    {
      assert SlotOk(s.rings[d].slots[k]);
      RetireTouches(s, target, d, k);
    }
  }

  lemma SubmitIsNewer(s: System, dest: nat, target: nat, frame: nat, accepted: bool, d: nat)
    requires Inv(s) && d < DEST_COUNT && Allowed(s, Submit(dest, target, frame, accepted))
    ensures SameOrNewer(s.rings[d], Do(s, Submit(dest, target, frame, accepted)).rings[d])
  {
    var t := Do(s, Submit(dest, target, frame, accepted));
    forall k | 0 <= k < SLOT_COUNT
      ensures SlotSameOrNewer(s.rings[d].slots[k], t.rings[d].slots[k], s.rings[d].lastFrame)
    {
      SubmittedSlot(s, dest, target, frame, accepted, d, k);
    }
  }

  lemma SubmittedSlot(s: System, dest: nat, target: nat, frame: nat, accepted: bool, d: nat, k: nat)
    requires Inv(s) && d < DEST_COUNT && k < SLOT_COUNT && Allowed(s, Submit(dest, target, frame, accepted))
    ensures SlotSameOrNewer(s.rings[d].slots[k], Do(s, Submit(dest, target, frame, accepted)).rings[d].slots[k],
                            s.rings[d].lastFrame)
  {
    assert SlotOk(s.rings[d].slots[k]);
    if d == dest && k == FreeSlot(s.rings[dest]) {
      FilledSlot(s, dest, target, frame, accepted);
    } else {
      SubmitTouches(s, dest, target, frame, accepted, d, k);
    }
  }

  lemma FilledSlot(s: System, dest: nat, target: nat, frame: nat, accepted: bool)
    requires Shape(s) && Allowed(s, Submit(dest, target, frame, accepted)) && FreeSlot(s.rings[dest]) < SLOT_COUNT
    ensures var k := FreeSlot(s.rings[dest]);
            var y := Do(s, Submit(dest, target, frame, accepted)).rings[dest].slots[k];
            if accepted then y.state.Submitted? && y.frame == frame else y.state.Free?
  {
  }

  // ---------------------------------------------------------------- whole runs

  /** The poll of destination d in this step, if it is one, meets the condition. */
  ghost predicate PollOk(s: System, step: Step, d: nat)
    requires Shape(s) && d < DEST_COUNT
  {
    PollsOf(s, step, d) ==> PollInOrder(s.rings[d].slots, step.view)
  }

  ghost predicate PollsInOrder(steps: seq<Step>, d: nat)
    requires d < DEST_COUNT
  {
    forall n :: 0 <= n < |steps| ==> PollOkAt(steps, n, d)
  }

  ghost predicate PollOkAt(steps: seq<Step>, n: nat, d: nat)
    requires n < |steps| && d < DEST_COUNT
  {
    PollOk(Run(Init(), steps[..n]), steps[n], d)
  }

  lemma StepKeepsOrderIff(s: System, step: Step, d: nat)
    requires Inv(s) && d < DEST_COUNT
    ensures InOrderSoFar(Do(s, step).rings[d]) <==> InOrderSoFar(s.rings[d]) && PollOk(s, step, d)
  {
    if PollsOf(s, step, d) {
      PollKeepsOrderIff(s.rings[d], step.view);
    } else {
      OtherStepsSameOrNewer(s, step, d);
      NewerKeepsOrder(s.rings[d], Do(s, step).rings[d]);
    }
  }

  lemma PollsSplit(steps: seq<Step>, d: nat)
    requires d < DEST_COUNT && steps != []
    ensures var n := |steps| - 1;
            PollsInOrder(steps, d) <==> PollsInOrder(steps[..n], d) && PollOkAt(steps, n, d)
  {
    var n := |steps| - 1;
    forall m | 0 <= m < n ensures PollOkAt(steps[..n], m, d) <==> PollOkAt(steps, m, d) {
      assert steps[..n][..m] == steps[..m] && steps[..n][m] == steps[m];
    }
  }

  /** Over every run, whatever its polls see: the frames of a destination are consumed in order, with
      none outstanding that is older than a consumed one, exactly if every poll met the condition. */
  lemma {:induction false} InOrderIffPollsAre(steps: seq<Step>, d: nat)
    requires d < DEST_COUNT
    ensures InOrderSoFar(Run(Init(), steps).rings[d]) <==> PollsInOrder(steps, d)
  {
    if steps != [] {
      var n := |steps| - 1;
      var s := Run(Init(), steps[..n]);
      InOrderIffPollsAre(steps[..n], d);
      PollsSplit(steps, d);
      RunKeepsInv(steps[..n]);
      StepKeepsOrderIff(s, steps[n], d);
    }
  }

  /** Once nothing is outstanding, the consumed frames increase exactly if every poll met the
      condition; while something is, they increase if every poll did. */
  lemma ConsumedInOrderIff(steps: seq<Step>, d: nat)
    requires d < DEST_COUNT
    ensures var r := Run(Init(), steps).rings[d];
            && (PollsInOrder(steps, d) ==> Increasing(r.consumed))
            && ((forall k :: 0 <= k < SLOT_COUNT ==> !Outstanding(r.slots[k])) ==>
                  (Increasing(r.consumed) <==> PollsInOrder(steps, d)))
  {
    InOrderIffPollsAre(steps, d);
  }

  // ---------------------------------------------------------------- fences in order

  /** The fences signal in submission order, and none signals while the poll goes round. */
  ghost predicate Watermark(slots: seq<Slot>, view: seq<bool>) {
    exists signalled :: view == View(slots, signalled)
  }

  ghost predicate WatermarkPolls(steps: seq<Step>, d: nat)
    requires d < DEST_COUNT
  {
    forall n :: 0 <= n < |steps| ==> WatermarkAt(steps, n, d)
  }

  ghost predicate WatermarkAt(steps: seq<Step>, n: nat, d: nat)
    requires n < |steps| && d < DEST_COUNT
  {
    var s := Run(Init(), steps[..n]);
    PollsOf(s, steps[n], d) ==> Watermark(s.rings[d].slots, steps[n].view)
  }

  ghost predicate ReadyFirst(r: Ring)
    requires |r.slots| == SLOT_COUNT
  {
    forall i, k :: 0 <= i < SLOT_COUNT && 0 <= k < SLOT_COUNT && r.slots[i].state.Ready? && r.slots[k].state.Submitted?
      ==> r.slots[i].frame < r.slots[k].frame
  }

  lemma WatermarkPollIsInOrder(r: Ring, view: seq<bool>)
    requires |r.slots| == |view| == SLOT_COUNT && ReadyFirst(r) && Watermark(r.slots, view)
    ensures PollInOrder(r.slots, view) && ReadyFirst(Acquire(r, view))
  {
    var signalled :| view == View(r.slots, signalled);
    forall i | 0 <= i < SLOT_COUNT && Seen(r.slots[i], view[i])
      ensures OlderThanWaiting(r.slots[i].frame, r.slots, view)
    {}
    var polled := Poll(r.slots, view);
    assert ReadyFirst(r.(slots := polled));
  }

  lemma NewerKeepsReadyFirst(r: Ring, t: Ring)
    requires |r.slots| == |t.slots| == SLOT_COUNT && BooksOk(r) && SameOrNewer(r, t) && ReadyFirst(r)
    ensures ReadyFirst(t)
  {
    forall k | 0 <= k < SLOT_COUNT ensures SlotSameOrNewer(r.slots[k], t.slots[k], r.lastFrame) {}
  }

  lemma WatermarkBefore(steps: seq<Step>, d: nat, n: nat)
    requires d < DEST_COUNT && WatermarkPolls(steps, d) && n <= |steps|
    ensures WatermarkPolls(steps[..n], d)
  {
    forall m | 0 <= m < n ensures WatermarkAt(steps[..n], m, d) {
      assert steps[..n][..m] == steps[..m] && WatermarkAt(steps, m, d);
    }
  }

  lemma WatermarkStep(s: System, step: Step, d: nat)
    requires Inv(s) && d < DEST_COUNT && ReadyFirst(s.rings[d])
    requires PollsOf(s, step, d) ==> Watermark(s.rings[d].slots, step.view)
    ensures PollOk(s, step, d) && ReadyFirst(Do(s, step).rings[d])
  {
    if PollsOf(s, step, d) {
      WatermarkPollIsInOrder(s.rings[d], step.view);
    } else {
      OtherStepsSameOrNewer(s, step, d);
      NewerKeepsReadyFirst(s.rings[d], Do(s, step).rings[d]);
    }
  }

  lemma {:induction false} RunKeepsReadyFirst(steps: seq<Step>, d: nat)
    requires d < DEST_COUNT && WatermarkPolls(steps, d)
    ensures ReadyFirst(Run(Init(), steps).rings[d])
  {
    if steps != [] {
      var n := |steps| - 1;
      WatermarkBefore(steps, d, n);
      RunKeepsReadyFirst(steps[..n], d);
      RunKeepsInv(steps[..n]);
      assert WatermarkAt(steps, n, d);
      WatermarkStep(Run(Init(), steps[..n]), steps[n], d);
    }
  }

  /** If each poll sees exactly the fences up to some frame signalled, every poll meets the condition. */
  lemma WatermarkPollsAreInOrder(steps: seq<Step>, d: nat)
    requires d < DEST_COUNT && WatermarkPolls(steps, d)
    ensures PollsInOrder(steps, d)
  {
    forall n | 0 <= n < |steps| ensures PollOkAt(steps, n, d) {
      WatermarkBefore(steps, d, n);
      RunKeepsReadyFirst(steps[..n], d);
      RunKeepsInv(steps[..n]);
      assert WatermarkAt(steps, n, d);
      WatermarkStep(Run(Init(), steps[..n]), steps[n], d);
    }
  }

  // ---------------------------------------------------------------- a poll that fails

  function TwoSubmits(): seq<Step> { [Submit(0, 0, 1, true), Submit(0, 1, 2, true)] }

  function OnlySecond(): (view: seq<bool>)
    ensures |view| == SLOT_COUNT && forall i :: 0 <= i < SLOT_COUNT ==> view[i] == (i == 1)
  { seq(SLOT_COUNT, i => i == 1) }

  function All(): (view: seq<bool>)
    ensures |view| == SLOT_COUNT && forall i :: 0 <= i < SLOT_COUNT ==> view[i]
  { seq(SLOT_COUNT, _ => true) }

  function LaterFenceFirst(): seq<Step> {
    TwoSubmits() + [AcquireReady(0, OnlySecond()), AcquireReady(0, All())]
  }

  lemma TwoSubmitted()
    ensures var s := Run(Init(), TwoSubmits());
            && s.rings[0].consumed == []
            && s.rings[0].slots[0].state.Submitted? && s.rings[0].slots[0].frame == 1
            && s.rings[0].slots[1].state.Submitted? && s.rings[0].slots[1].frame == 2
            && forall k :: 2 <= k < SLOT_COUNT ==> s.rings[0].slots[k].state.Free?
  {
    var a := Do(Init(), Submit(0, 0, 1, true));
    var b := Do(a, Submit(0, 1, 2, true));
    FreeAt(Init().rings[0]);
    FreeAt(a.rings[0]);
    assert TwoSubmits()[..1] == [Submit(0, 0, 1, true)] && TwoSubmits()[..1][..0] == [];
    assert Run(Init(), TwoSubmits()[..1]) == a;
    assert Run(Init(), TwoSubmits()) == b;
  }

  lemma FreeAt(r: Ring)
    requires |r.slots| == SLOT_COUNT && r.submitIdx < SLOT_COUNT && r.slots[r.submitIdx].state.Free?
    ensures FreeSlot(r) == r.submitIdx
  {
    assert (r.submitIdx + (SLOT_COUNT - |r.slots|)) % SLOT_COUNT == r.submitIdx;
  }

  lemma TwoPollsTake(r: Ring)
    requires |r.slots| == SLOT_COUNT && r.consumed == []
    requires r.slots[0].state.Submitted? && r.slots[0].frame == 1
    requires r.slots[1].state.Submitted? && r.slots[1].frame == 2
    requires forall k :: 2 <= k < SLOT_COUNT ==> r.slots[k].state.Free?
    ensures Acquire(Acquire(r, OnlySecond()), All()).consumed == [2, 1]
  {
    PollTakes(r, OnlySecond(), 1);
    PollTakes(Acquire(r, OnlySecond()), All(), 0);
  }

  lemma LaterFenceFirstConsumes()
    ensures Run(Init(), LaterFenceFirst()).rings[0].consumed == [2, 1]
  {
    TwoSubmitted();
    TwoPollsTake(Run(Init(), TwoSubmits()).rings[0]);
    RunTwoPolls(TwoSubmits(), OnlySecond(), All());
  }

  /** Two frames go out; the first poll sees the second one's fence signalled but not the first's, the
      next poll sees both: the consumer gets frame 2 and then frame 1. */
  lemma OutOfOrderWhenALaterFenceIsSeenFirst()
    ensures Run(Init(), LaterFenceFirst()).rings[0].consumed == [2, 1] && !PollsInOrder(LaterFenceFirst(), 0)
  {
    LaterFenceFirstConsumes();
    ConsumedInOrderIff(LaterFenceFirst(), 0);
    assert !Increasing([2, 1]) by { assert [2, 1][0] > [2, 1][1]; }
  }

  lemma RunTwoPolls(steps: seq<Step>, first: seq<bool>, second: seq<bool>)
    requires |first| == |second| == SLOT_COUNT
    ensures Run(Init(), steps + [AcquireReady(0, first), AcquireReady(0, second)]).rings[0] ==
            Acquire(Acquire(Run(Init(), steps).rings[0], first), second)
  {
    var all := steps + [AcquireReady(0, first), AcquireReady(0, second)];
    var n := |steps|;
    assert all[..n + 1] == steps + [AcquireReady(0, first)] && all[..n + 1][..n] == steps;
    assert Run(Init(), all[..n + 1]) == Do(Run(Init(), steps), AcquireReady(0, first));
  }

  lemma PollTakes(r: Ring, view: seq<bool>, k: nat)
    requires |r.slots| == |view| == SLOT_COUNT && k < SLOT_COUNT && Seen(r.slots[k], view[k])
    requires forall i :: 0 <= i < SLOT_COUNT && i != k ==> !Seen(r.slots[i], view[i])
    ensures Acquire(r, view).consumed == r.consumed + [r.slots[k].frame]
    ensures forall i :: 0 <= i < SLOT_COUNT && i != k ==> Acquire(r, view).slots[i] == r.slots[i]
    ensures Acquire(r, view).slots[k].state.InUse?
  {
    var polled := Poll(r.slots, view);
    assert polled[k].state.Ready? && Best(polled) == k;
  }
}
