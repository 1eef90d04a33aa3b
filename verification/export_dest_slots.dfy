/** Which slot a submission takes, and when it is dropped for want of one. */
module ExportDestSlots {
  import opened ExportDest

  predicate IsFree(r: Ring, k: nat)
    requires |r.slots| == SLOT_COUNT && k < SLOT_COUNT
  {
    r.slots[k].state.Free?
  }

  /** All eight slots are taken. */
  predicate AllTaken(r: Ring)
    requires |r.slots| == SLOT_COUNT
  {
    forall k :: 0 <= k < 8 ==> !IsFree(r, k)
  }

  /** The slot i places behind submitIdx, going round. */
  function Place(r: Ring, i: nat): (k: nat)
    ensures k < 8
  {
    (r.submitIdx + i) % 8
  }

  /** Slot k is free, and no slot from submitIdx up to it is, going round. */
  predicate FirstFreeIs(r: Ring, k: nat)
    requires |r.slots| == SLOT_COUNT
  {
    exists i: nat | i < 8 ::
      k == Place(r, i) && IsFree(r, k) && forall j: nat | j < i :: !IsFree(r, Place(r, j))
  }

  lemma EachHasAPlace(r: Ring, k: nat)
    requires k < SLOT_COUNT
    ensures exists i: nat | i < SLOT_COUNT :: Place(r, i) == k
  {
    var i := (k + SLOT_COUNT - r.submitIdx % SLOT_COUNT) % SLOT_COUNT;
    assert Place(r, i) == k;
  }

  lemma {:induction false} FirstFreeFrom(r: Ring, left: nat)
    requires |r.slots| == SLOT_COUNT && left <= SLOT_COUNT
    requires forall j: nat | j < SLOT_COUNT - left :: !IsFree(r, Place(r, j))
    ensures var k := FirstFree(r.slots, r.submitIdx, left);
            if k == SLOT_COUNT then forall j: nat | j < SLOT_COUNT :: !IsFree(r, Place(r, j)) else FirstFreeIs(r, k)
    decreases left
  {
    if left > 0 {
      var k := Place(r, SLOT_COUNT - left);
      if !IsFree(r, k) { FirstFreeFrom(r, left - 1); }
    }
  }

  /** The search finds no slot if and only if none is free; otherwise it finds the first one going round. */
  lemma FreeSlotIsFirst(r: Ring)
    requires |r.slots| == SLOT_COUNT
    ensures FreeSlot(r) == SLOT_COUNT <==> AllTaken(r)
    ensures FreeSlot(r) < SLOT_COUNT ==> FirstFreeIs(r, FreeSlot(r))
  {
    FirstFreeFrom(r, SLOT_COUNT);
    if FreeSlot(r) == SLOT_COUNT {
      forall k | 0 <= k < SLOT_COUNT ensures !IsFree(r, k) { EachHasAPlace(r, k); }
    }
  }

  // ---------------------------------------------------------------- submissions

  /** The step is a submission to destination d that is dropped. */
  predicate DropsNow(s: System, step: Step, d: nat)
    requires Shape(s) && d < DEST_COUNT
  {
    Allowed(s, step) && step.Submit? && step.dest == d && AllTaken(s.rings[d])
  }

  lemma RetireDropsNothing(s: System, target: nat, d: nat)
    requires Shape(s) && target < TARGET_COUNT && d < DEST_COUNT
    ensures var r, t := s.rings[d], RetireTarget(s, target).rings[d];
            t.dropped == r.dropped && t.submitIdx == r.submitIdx && t.consumed == r.consumed
  {
  }

  /** A step drops a frame of d, and counts it, if and only if it is a submission that finds all eight
      slots of d taken. */
  lemma DroppedIff(s: System, step: Step, d: nat)
    requires Shape(s) && d < DEST_COUNT
    ensures Do(s, step).rings[d].dropped == s.rings[d].dropped + if DropsNow(s, step, d) then 1 else 0
  {
    FreeSlotIsFirst(s.rings[d]);
    if Allowed(s, step) {
      match step
      case Submit(dest, target, _, _) => RetireDropsNothing(s, target, d);
      case AcquireReady(dest, view) =>
      case Release(dest, k) =>
      case Retire(target) => RetireDropsNothing(s, target, d);
    }
  }

  /** How many submissions of the run found all eight slots of d taken. */
  function Drops(steps: seq<Step>, d: nat): nat
    requires d < DEST_COUNT
  {
    if steps == [] then 0
    else
      var before := steps[..|steps| - 1];
      Drops(before, d) + if DropsNow(Run(Init(), before), steps[|steps| - 1], d) then 1 else 0
  }

  /** Over every run: the frames dropped are the submissions that found all eight slots taken. */
  lemma {:induction false} RunDropsExactlyWhenFull(steps: seq<Step>, d: nat)
    requires d < DEST_COUNT
    ensures Run(Init(), steps).rings[d].dropped == Drops(steps, d)
  {
    if steps != [] {
      var before := steps[..|steps| - 1];
      RunDropsExactlyWhenFull(before, d);
      DroppedIff(Run(Init(), before), steps[|steps| - 1], d);
    }
  }

  /** Slot k of the destination was taken for the frame, or given back if the GPU queue refused it; the
      next search starts behind it. */
  predicate Takes(s: System, t: System, dest: nat, k: nat, target: nat, frame: nat, accepted: bool)
    requires Shape(s) && Shape(t) && dest < DEST_COUNT && target < TARGET_COUNT && k < SLOT_COUNT
  {
    && t.rings[dest].submitIdx == (k + 1) % 8 && t.rings[dest].consumed == s.rings[dest].consumed
    && if accepted
       then && t.targets == s.targets[target := At(dest, k)]
            && t.rings[dest].slots[k].state.Submitted? && t.rings[dest].slots[k].frame == frame
            && !t.rings[dest].slots[k].pendingFree
       else t.targets == s.targets && t.rings[dest].slots == s.rings[dest].slots
  }

  lemma AcceptedTakes(s: System, dest: nat, k: nat, target: nat, frame: nat)
    requires Shape(s) && dest < DEST_COUNT && target < TARGET_COUNT && k < SLOT_COUNT
    ensures Takes(s, Attach(Claim(s, dest, k), dest, k, target, frame), dest, k, target, frame, true)
  {
    var c := Claim(s, dest, k);
    RetireDropsNothing(c, target, dest);
    assert RetireTarget(c, target).targets[target := At(dest, k)] == c.targets[target := At(dest, k)];
  }

  lemma RefusedTakes(s: System, dest: nat, k: nat, target: nat, frame: nat)
    requires Shape(s) && dest < DEST_COUNT && target < TARGET_COUNT && k < SLOT_COUNT && IsFree(s.rings[dest], k)
    ensures var c := Claim(s, dest, k);
            Takes(s, SetSlot(c, dest, k, c.rings[dest].slots[k].(state := Free)), dest, k, target, frame, false)
  {
    var c := Claim(s, dest, k);
    var t := SetSlot(c, dest, k, c.rings[dest].slots[k].(state := Free));
    assert t.rings[dest].slots == s.rings[dest].slots;
  }

  /** A submission that finds a free slot takes the first one going round. */
  lemma SubmissionTakesTheFirstFree(s: System, dest: nat, target: nat, frame: nat, accepted: bool)
    returns (k: nat)
    requires Shape(s) && Allowed(s, Submit(dest, target, frame, accepted)) && !AllTaken(s.rings[dest])
    ensures k < SLOT_COUNT && FirstFreeIs(s.rings[dest], k)
    ensures Takes(s, Do(s, Submit(dest, target, frame, accepted)), dest, k, target, frame, accepted)
  {
    k := FreeSlot(s.rings[dest]);
    FreeSlotIsFirst(s.rings[dest]);
    if accepted { AcceptedTakes(s, dest, k, target, frame); } else { RefusedTakes(s, dest, k, target, frame); }
  }
}
