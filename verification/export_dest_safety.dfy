/** What every run over the export slots keeps. */
module ExportDestSafety {
  import opened Counting
  import opened ExportDest

  /** How many render targets point at a slot. */
  function CountAt(targets: seq<Target>, a: Target): nat {
    if targets == [] then 0 else CountAt(targets[..|targets| - 1], a) + One(targets[|targets| - 1] == a)
  }

  lemma {:induction false} CountUpdate(targets: seq<Target>, t: nat, x: Target, a: Target)
    requires t < |targets|
    ensures CountAt(targets[t := x], a) + One(targets[t] == a) == CountAt(targets, a) + One(x == a)
  {
    var n := |targets| - 1;
    if t == n {
      assert targets[t := x][..n] == targets[..n];
    } else {
      CountUpdate(targets[..n], t, x, a);
      assert targets[t := x][..n] == targets[..n][t := x];
    }
  }

  lemma {:induction false} CountPointing(targets: seq<Target>, t: nat)
    requires t < |targets|
    ensures CountAt(targets, targets[t]) > 0
  {
    if t < |targets| - 1 { CountPointing(targets[..|targets| - 1], t); }
  }

  ghost predicate SlotOk(x: Slot) {
    && (x.state.Free? ==> x.refs == 0 && !x.held)
    && (x.held ==> x.state.InUse? && !x.pendingFree)
    && (x.state.InUse? ==> x.held || (x.pendingFree && x.refs > 0))
    && (x.state.Submitted? || x.state.Ready? ==> !x.pendingFree)
  }

  ghost predicate RefsOk(s: System)
    requires Shape(s)
  {
    forall d, k :: 0 <= d < DEST_COUNT && 0 <= k < SLOT_COUNT ==>
      s.rings[d].slots[k].refs == CountAt(s.targets, At(d, k))
  }

  /** Every slot but k of ring d, which is being filled. */
  ghost predicate SlotsOkBut(s: System, d: int, k: int)
    requires Shape(s)
  {
    forall e, j :: 0 <= e < DEST_COUNT && 0 <= j < SLOT_COUNT && !(e == d && j == k) ==> SlotOk(s.rings[e].slots[j])
  }

  predicate Outstanding(x: Slot) { x.state.Submitted? || x.state.Ready? }

  /** No frame is outstanding twice, or outstanding and consumed. */
  ghost predicate BooksOk(r: Ring)
    requires |r.slots| == SLOT_COUNT
  {
    && (forall k :: 0 <= k < SLOT_COUNT && Outstanding(r.slots[k]) ==> r.slots[k].frame <= r.lastFrame)
    && (forall j, k :: 0 <= j < k < SLOT_COUNT && Outstanding(r.slots[j]) && Outstanding(r.slots[k]) ==>
          r.slots[j].frame != r.slots[k].frame)
    && (forall i :: 0 <= i < |r.consumed| ==> r.consumed[i] <= r.lastFrame)
    && (forall i, k :: 0 <= i < |r.consumed| && 0 <= k < SLOT_COUNT && Outstanding(r.slots[k]) ==>
          r.consumed[i] != r.slots[k].frame)
  }

  ghost predicate Inv(s: System) {
    && Shape(s) && RefsOk(s) && SlotsOkBut(s, -1, -1)
    && forall d :: 0 <= d < DEST_COUNT ==> BooksOk(s.rings[d])
  }

  // ---------------------------------------------------------------- retiring

  lemma RetireKeepsRefs(s: System, target: nat)
    requires Shape(s) && RefsOk(s) && target < TARGET_COUNT
    ensures RefsOk(RetireTarget(s, target))
  {
    var a, t := s.targets[target], RetireTarget(s, target);
    if a.At? {
      CountPointing(s.targets, target);
      forall d, k | 0 <= d < DEST_COUNT && 0 <= k < SLOT_COUNT
        ensures t.rings[d].slots[k].refs == CountAt(t.targets, At(d, k))
      {
        CountUpdate(s.targets, target, NoSlot, At(d, k));
      }
    }
  }

  lemma RetireKeepsSlots(s: System, target: nat, d: int, k: int)
    requires Shape(s) && RefsOk(s) && SlotsOkBut(s, d, k) && target < TARGET_COUNT
    requires s.targets[target].At? ==> !(s.targets[target].dest == d && s.targets[target].slot == k)
    ensures SlotsOkBut(RetireTarget(s, target), d, k)
  {
    var a := s.targets[target];
    if a.At? {
      CountPointing(s.targets, target);
      assert SlotOk(s.rings[a.dest].slots[a.slot]);
    }
  }

  /** Retiring frees a slot only if it was out of use: what is outstanding stays so. */
  lemma RetireKeepsBooks(s: System, target: nat, d: nat)
    requires Shape(s) && target < TARGET_COUNT && d < DEST_COUNT && BooksOk(s.rings[d])
    requires var a := s.targets[target];
             a.At? ==> !(Outstanding(s.rings[a.dest].slots[a.slot]) && s.rings[a.dest].slots[a.slot].pendingFree)
    ensures BooksOk(RetireTarget(s, target).rings[d])
  {
    var r, t := s.rings[d], RetireTarget(s, target).rings[d];
    SameOutstanding(r, t);
  }

  lemma SameOutstanding(r: Ring, t: Ring)
    requires |r.slots| == |t.slots| == SLOT_COUNT && BooksOk(r)
    requires t.lastFrame == r.lastFrame && t.consumed == r.consumed
    requires forall k :: 0 <= k < SLOT_COUNT ==>
               || (t.slots[k].state == r.slots[k].state && t.slots[k].frame == r.slots[k].frame)
               || !Outstanding(t.slots[k])
    ensures BooksOk(t)
  {
  }

  lemma RetireKeepsInv(s: System, target: nat)
    requires Inv(s) && target < TARGET_COUNT
    ensures Inv(RetireTarget(s, target))
  {
    RetireKeepsRefs(s, target);
    RetireKeepsSlots(s, target, -1, -1);
    var a := s.targets[target];
    if a.At? { assert SlotOk(s.rings[a.dest].slots[a.slot]); }
    forall d | 0 <= d < DEST_COUNT ensures BooksOk(RetireTarget(s, target).rings[d]) { RetireKeepsBooks(s, target, d); }
  }

  // ---------------------------------------------------------------- consuming

  lemma AcquireKeepsBooks(r: Ring, view: seq<bool>)
    requires |r.slots| == |view| == SLOT_COUNT && BooksOk(r)
    ensures BooksOk(Acquire(r, view))
  {
    var polled := Poll(r.slots, view);
    var p, b := r.(slots := polled), Best(polled);
    PollKeepsBooks(r, view);
    if b < SLOT_COUNT { TakeKeepsBooks(p, b); }
  }

  lemma PollKeepsBooks(r: Ring, view: seq<bool>)
    requires |r.slots| == |view| == SLOT_COUNT && BooksOk(r)
    ensures BooksOk(r.(slots := Poll(r.slots, view)))
  {
    var p := Poll(r.slots, view);
    forall k | 0 <= k < SLOT_COUNT
      ensures p[k].frame == r.slots[k].frame && (Outstanding(p[k]) <==> Outstanding(r.slots[k]))
    {}
  }

  lemma TakeKeepsBooks(p: Ring, b: nat)
    requires |p.slots| == SLOT_COUNT && BooksOk(p) && b < SLOT_COUNT && p.slots[b].state.Ready?
    ensures BooksOk(p.(slots := p.slots[b := p.slots[b].(state := InUse, held := true)],
                       consumed := p.consumed + [p.slots[b].frame]))
  {
    assert Outstanding(p.slots[b]);
  }

  lemma AcquireKeepsInv(s: System, dest: nat, view: seq<bool>)
    requires Inv(s) && dest < DEST_COUNT && |view| == SLOT_COUNT
    ensures Inv(Do(s, AcquireReady(dest, view)))
  {
    var r, t := s.rings[dest], Do(s, AcquireReady(dest, view));
    AcquireKeepsBooks(r, view);
    AcquireKeepsSlots(r, view);
    forall k | 0 <= k < SLOT_COUNT
      ensures SlotOk(t.rings[dest].slots[k]) && t.rings[dest].slots[k].refs == r.slots[k].refs
    {
      assert SlotOk(r.slots[k]);
    }
  }

  lemma AcquireKeepsSlots(r: Ring, view: seq<bool>)
    requires |r.slots| == |view| == SLOT_COUNT
    ensures forall k :: 0 <= k < SLOT_COUNT ==>
              var x := Acquire(r, view).slots[k];
              x.refs == r.slots[k].refs && (SlotOk(r.slots[k]) ==> SlotOk(x))
  {
  }

  lemma ReleaseKeepsInv(s: System, dest: nat, k: nat)
    requires Inv(s) && dest < DEST_COUNT && k < SLOT_COUNT && s.rings[dest].slots[k].held
    ensures Inv(Do(s, Release(dest, k)))
  {
    var t := Do(s, Release(dest, k));
    assert SlotOk(s.rings[dest].slots[k]);
    SameOutstanding(s.rings[dest], t.rings[dest]);
  }

  // ---------------------------------------------------------------- submitting

  /** The slot claimed was free: no render target points at it. */
  lemma FreeSlotIsUnreferenced(s: System, dest: nat, k: nat, target: nat)
    requires Inv(s) && dest < DEST_COUNT && k < SLOT_COUNT && s.rings[dest].slots[k].state.Free?
    requires target < TARGET_COUNT
    ensures s.rings[dest].slots[k].refs == 0 && s.targets[target] != At(dest, k)
  {
    assert SlotOk(s.rings[dest].slots[k]);
    CountPointing(s.targets, target);
  }

  lemma ClaimKeeps(s: System, dest: nat, k: nat)
    requires Inv(s) && dest < DEST_COUNT && k < SLOT_COUNT && s.rings[dest].slots[k].state.Free?
    ensures var t := Claim(s, dest, k);
            && RefsOk(t) && SlotsOkBut(t, dest, k) && t.targets == s.targets
            && (forall d :: 0 <= d < DEST_COUNT ==> BooksOk(t.rings[d]) && t.rings[d].lastFrame == s.rings[d].lastFrame)
            && t.rings[dest].slots[k] == s.rings[dest].slots[k].(state := InUse)
  {
    SameOutstanding(s.rings[dest], Claim(s, dest, k).rings[dest]);
  }

  lemma RefuseKeepsInv(s: System, dest: nat, k: nat)
    requires Inv(s) && dest < DEST_COUNT && k < SLOT_COUNT && s.rings[dest].slots[k].state.Free?
    ensures var t := Claim(s, dest, k); Inv(SetSlot(t, dest, k, t.rings[dest].slots[k].(state := Free)))
  {
    var t := Claim(s, dest, k);
    var slots := t.rings[dest].slots[k := t.rings[dest].slots[k].(state := Free)];
    assert slots == s.rings[dest].slots;
    var r := t.rings[dest].(slots := slots);
    assert t.rings[dest := r] == s.rings[dest := r];
    SameSlotsKeepInv(s, dest, r);
  }

  lemma SameSlotsKeepInv(s: System, dest: nat, r: Ring)
    requires Inv(s) && dest < DEST_COUNT && r.slots == s.rings[dest].slots && r.lastFrame == s.rings[dest].lastFrame
    requires r.consumed == s.rings[dest].consumed
    ensures Inv(s.(rings := s.rings[dest := r]))
  {
    SameOutstanding(s.rings[dest], r);
  }

  lemma PointKeepsRefs(u: System, dest: nat, k: nat, target: nat, r: Ring)
    requires Shape(u) && RefsOk(u) && dest < DEST_COUNT && k < SLOT_COUNT && target < TARGET_COUNT
    requires u.targets[target].NoSlot? && |r.slots| == SLOT_COUNT
    requires forall j :: 0 <= j < SLOT_COUNT ==> r.slots[j].refs == u.rings[dest].slots[j].refs + One(j == k)
    ensures RefsOk(u.(rings := u.rings[dest := r], targets := u.targets[target := At(dest, k)]))
  {
    var t := u.(rings := u.rings[dest := r], targets := u.targets[target := At(dest, k)]);
    forall d, j | 0 <= d < DEST_COUNT && 0 <= j < SLOT_COUNT
      ensures t.rings[d].slots[j].refs == CountAt(t.targets, At(d, j))
    {
      CountUpdate(u.targets, target, At(dest, k), At(d, j));
    }
  }

  lemma NewestKeepsBooks(r: Ring, k: nat, x: Slot, frame: nat)
    requires |r.slots| == SLOT_COUNT && BooksOk(r) && k < SLOT_COUNT && frame > r.lastFrame
    requires x.state.Submitted? && x.frame == frame
    ensures BooksOk(r.(lastFrame := frame, slots := r.slots[k := x]))
  {
  }

  lemma AttachKeepsInv(t: System, dest: nat, k: nat, target: nat, frame: nat)
    requires Shape(t) && RefsOk(t) && SlotsOkBut(t, dest, k)
    requires forall d :: 0 <= d < DEST_COUNT ==> BooksOk(t.rings[d])
    requires dest < DEST_COUNT && k < SLOT_COUNT && target < TARGET_COUNT && frame > t.rings[dest].lastFrame
    requires t.targets[target] != At(dest, k)
    requires var x := t.rings[dest].slots[k]; x.state.InUse? && !x.held
    ensures Inv(Attach(t, dest, k, target, frame))
  {
    var u := RetireTarget(t, target);
    RetireKeepsRefs(t, target);
    RetireKeepsSlots(t, target, dest, k);
    var a := t.targets[target];
    if a.At? { assert SlotOk(t.rings[a.dest].slots[a.slot]); }
    forall d | 0 <= d < DEST_COUNT ensures BooksOk(u.rings[d]) { RetireKeepsBooks(t, target, d); }
    RetireLeaves(t, target, dest, k);
    FillKeepsInv(u, dest, k, target, frame);
  }

  lemma RetireLeaves(t: System, target: nat, dest: nat, k: nat)
    requires Shape(t) && target < TARGET_COUNT && dest < DEST_COUNT && k < SLOT_COUNT
    ensures RetireTarget(t, target).targets[target].NoSlot?
    ensures RetireTarget(t, target).rings[dest].lastFrame == t.rings[dest].lastFrame
    ensures t.targets[target] != At(dest, k) ==>
              RetireTarget(t, target).rings[dest].slots[k] == t.rings[dest].slots[k]
  {
  }

  lemma FillKeepsInv(u: System, dest: nat, k: nat, target: nat, frame: nat)
    requires Shape(u) && RefsOk(u) && SlotsOkBut(u, dest, k)
    requires forall d :: 0 <= d < DEST_COUNT ==> BooksOk(u.rings[d])
    requires dest < DEST_COUNT && k < SLOT_COUNT && target < TARGET_COUNT && frame > u.rings[dest].lastFrame
    requires u.targets[target].NoSlot?
    requires var x := u.rings[dest].slots[k]; x.state.InUse? && !x.held
    ensures Inv(Fill(u, dest, k, target, frame))
  {
    var x := u.rings[dest].slots[k];
    var y := MarkSubmitted(x.(refs := x.refs + 1), frame);
    var r := u.rings[dest].(lastFrame := frame, slots := u.rings[dest].slots[k := y]);
    PointKeepsRefs(u, dest, k, target, r);
    NewestKeepsBooks(u.rings[dest], k, y, frame);
    assert SlotOk(y);
  }

  lemma SubmitKeepsInv(s: System, dest: nat, target: nat, frame: nat, accepted: bool)
    requires Inv(s) && dest < DEST_COUNT && target < TARGET_COUNT && frame > s.rings[dest].lastFrame
    ensures Inv(SubmitTo(s, dest, target, frame, accepted))
  {
    var k, t := FreeSlot(s.rings[dest]), SubmitTo(s, dest, target, frame, accepted);
    if k == SLOT_COUNT {
      assert t == s.(rings := s.rings[dest := s.rings[dest].(dropped := s.rings[dest].dropped + 1)]);
      FullKeepsInv(s, dest);
    } else if accepted {
      assert t == Attach(Claim(s, dest, k), dest, k, target, frame);
      AcceptKeepsInv(s, dest, k, target, frame);
    } else {
      assert t == SetSlot(Claim(s, dest, k), dest, k, Claim(s, dest, k).rings[dest].slots[k].(state := Free));
      RefuseKeepsInv(s, dest, k);
    }
  }

  lemma AcceptKeepsInv(s: System, dest: nat, k: nat, target: nat, frame: nat)
    requires Inv(s) && dest < DEST_COUNT && k < SLOT_COUNT && s.rings[dest].slots[k].state.Free?
    requires target < TARGET_COUNT && frame > s.rings[dest].lastFrame
    ensures Inv(Attach(Claim(s, dest, k), dest, k, target, frame))
  {
    ClaimKeeps(s, dest, k);
    FreeSlotIsUnreferenced(s, dest, k, target);
    assert SlotOk(s.rings[dest].slots[k]);
    AttachKeepsInv(Claim(s, dest, k), dest, k, target, frame);
  }

  lemma FullKeepsInv(s: System, dest: nat)
    requires Inv(s) && dest < DEST_COUNT
    ensures Inv(s.(rings := s.rings[dest := s.rings[dest].(dropped := s.rings[dest].dropped + 1)]))
  {
    SameSlotsKeepInv(s, dest, s.rings[dest].(dropped := s.rings[dest].dropped + 1));
  }

  lemma DoKeepsInv(s: System, step: Step)
    requires Inv(s)
    ensures Inv(Do(s, step))
  {
    if Allowed(s, step) {
      match step
      case Submit(dest, target, frame, accepted) => SubmitKeepsInv(s, dest, target, frame, accepted);
      case AcquireReady(dest, view) => AcquireKeepsInv(s, dest, view);
      case Release(dest, k) => ReleaseKeepsInv(s, dest, k);
      case Retire(target) => RetireKeepsInv(s, target);
    }
  }

  lemma InitIsInv()
    ensures Inv(Init())
  {
    forall d, k | 0 <= d < DEST_COUNT && 0 <= k < SLOT_COUNT ensures CountAt(Init().targets, At(d, k)) == 0 {
      NobodyPoints(Init().targets, At(d, k));
    }
  }

  lemma {:induction false} NobodyPoints(targets: seq<Target>, a: Target)
    requires forall t :: 0 <= t < |targets| ==> targets[t] != a
    ensures CountAt(targets, a) == 0
  {
    if targets != [] { NobodyPoints(targets[..|targets| - 1], a); }
  }

  lemma {:induction false} RunKeepsInv(steps: seq<Step>)
    ensures Inv(Run(Init(), steps))
  {
    if steps == [] {
      InitIsInv();
    } else {
      RunKeepsInv(steps[..|steps| - 1]);
      DoKeepsInv(Run(Init(), steps[..|steps| - 1]), steps[|steps| - 1]);
    }
  }

  // ---------------------------------------------------------------- main results

  ghost predicate Reachable(s: System) {
    exists steps :: Reaches(steps, s)
  }

  ghost predicate Reaches(steps: seq<Step>, s: System) {
    s == Run(Init(), steps)
  }

  lemma ReachableIsInv(s: System)
    requires Reachable(s)
    ensures Inv(s)
  {
    var steps :| Reaches(steps, s);
    RunKeepsInv(steps);
  }

  /** Over every run: a slot's reference count is the number of render targets that point at it, and
      a free slot has none. */
  lemma RefsCountTargets(s: System, d: nat, k: nat)
    requires Shape(s) && Reachable(s) && d < DEST_COUNT && k < SLOT_COUNT
    ensures var x := s.rings[d].slots[k];
            && x.refs == CountAt(s.targets, At(d, k))
            && (x.state.Free? ==> x.refs == 0)
  {
    ReachableIsInv(s);
    assert SlotOk(s.rings[d].slots[k]);
  }

  /** A release frees the slot at once exactly if no render target points at it any more. */
  lemma ReleaseFreesIff(s: System, d: nat, k: nat)
    requires Inv(s) && d < DEST_COUNT && k < SLOT_COUNT && s.rings[d].slots[k].held
    ensures var x := Do(s, Release(d, k)).rings[d].slots[k];
            && !x.held
            && (if CountAt(s.targets, At(d, k)) == 0 then x.state.Free? else x.state.InUse?)
  {
  }

  /** A slot released while render targets still pointed at it stays out of use until, and becomes
      free with, the step after which none does. */
  lemma FreedByTheLastRetire(s: System, step: Step, d: nat, k: nat)
    requires Inv(s) && d < DEST_COUNT && k < SLOT_COUNT
    requires s.rings[d].slots[k].state.InUse? && !s.rings[d].slots[k].held
    ensures var t := Do(s, step); var x := t.rings[d].slots[k];
            !x.held && if CountAt(t.targets, At(d, k)) == 0 then x.state.Free? else x.state.InUse?
  {
    DoKeepsInv(s, step);
    var t := Do(s, step);
    assert SlotOk(t.rings[d].slots[k]);
    IdleInUse(s, step, d, k);
  }

  lemma IdleInUse(s: System, step: Step, d: nat, k: nat)
    requires Inv(s) && d < DEST_COUNT && k < SLOT_COUNT
    requires s.rings[d].slots[k].state.InUse? && !s.rings[d].slots[k].held
    ensures var x := Do(s, step).rings[d].slots[k]; !x.held && (x.state.InUse? || x.state.Free?)
  {
    InUseSlotStep(s, step, d, k);
  }

  /** While a consumer holds a slot, nothing but its own release changes the slot's frame or state. */
  lemma HeldSlotIsLeftAlone(s: System, step: Step, d: nat, k: nat)
    requires Inv(s) && d < DEST_COUNT && k < SLOT_COUNT
    requires s.rings[d].slots[k].held && step != Release(d, k)
    ensures var x, y := s.rings[d].slots[k], Do(s, step).rings[d].slots[k];
            y.held && y.state == x.state && y.frame == x.frame
  {
    assert SlotOk(s.rings[d].slots[k]);
    InUseSlotStep(s, step, d, k);
  }

  /** Nothing but its own release, or a render target's retiring, touches a slot in use. */
  lemma InUseSlotStep(s: System, step: Step, d: nat, k: nat)
    requires Shape(s) && d < DEST_COUNT && k < SLOT_COUNT && s.rings[d].slots[k].state.InUse?
    requires step != Release(d, k) || !s.rings[d].slots[k].held
    ensures var x, y := s.rings[d].slots[k], Do(s, step).rings[d].slots[k]; y == x || y == Retired(x)
  {
    if Allowed(s, step) {
      match step
      case Submit(dest, target, frame, accepted) => SubmitTouches(s, dest, target, frame, accepted, d, k);
      case AcquireReady(dest, view) => if dest == d { AcquireTouches(s.rings[dest], view, k); }
      case Release(dest, j) =>
      case Retire(target) => RetireTouches(s, target, d, k);
    }
  }

  lemma SubmitTouches(s: System, dest: nat, target: nat, frame: nat, accepted: bool, d: nat, k: nat)
    requires Shape(s) && Allowed(s, Submit(dest, target, frame, accepted)) && d < DEST_COUNT && k < SLOT_COUNT
    requires d != dest || k != FreeSlot(s.rings[dest])
    ensures var x, y := s.rings[d].slots[k], Do(s, Submit(dest, target, frame, accepted)).rings[d].slots[k];
            y == x || y == Retired(x)
  {
    var j := FreeSlot(s.rings[dest]);
    if j < SLOT_COUNT && accepted {
      var t := Claim(s, dest, j);
      RetireTouches(t, target, d, k);
      FillTouches(RetireTarget(t, target), dest, j, target, frame, d, k);
      FillTouches(t, dest, j, target, frame, d, k);
    }
  }

  lemma FillTouches(u: System, dest: nat, j: nat, target: nat, frame: nat, d: nat, k: nat)
    requires Shape(u) && dest < DEST_COUNT && j < SLOT_COUNT && target < TARGET_COUNT
    requires d < DEST_COUNT && k < SLOT_COUNT
    ensures d != dest || k != j ==> Fill(u, dest, j, target, frame).rings[d].slots[k] == u.rings[d].slots[k]
  {
  }

  lemma AcquireTouches(r: Ring, view: seq<bool>, k: nat)
    requires |r.slots| == |view| == SLOT_COUNT && k < SLOT_COUNT && r.slots[k].state.InUse?
    ensures Acquire(r, view).slots[k] == r.slots[k]
  {
  }

  lemma RetireTouches(s: System, target: nat, d: nat, k: nat)
    requires Shape(s) && target < TARGET_COUNT && d < DEST_COUNT && k < SLOT_COUNT
    ensures var x, y := s.rings[d].slots[k], RetireTarget(s, target).rings[d].slots[k]; y == x || y == Retired(x)
  {
  }
}
