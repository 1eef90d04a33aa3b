/** The eight export slots of each destination, the render targets that still sample from them, and
    the deferred freeing of a slot its consumer is done with before the GPU is.  Each operation is one
    step here; ExportDestRaces takes them apart. */
module ExportDest {
  const SLOT_COUNT: nat := 8
  const DEST_COUNT: nat := 2
  const TARGET_COUNT: nat := 8

  datatype SlotState = Free | Submitted | Ready | InUse

  datatype Slot = Slot(
    state: SlotState, frame: nat, refs: nat, pendingFree: bool,
    held: bool)                    // a consumer acquired it and has not released it

  datatype Ring = Ring(
    slots: seq<Slot>, submitIdx: nat,
    lastFrame: nat,                // the last frame submitted, 0 before any
    consumed: seq<nat>, dropped: nat)

  /** The slot a render target's latest export went to. */
  datatype Target = NoSlot | At(dest: nat, slot: nat)

  datatype System = System(rings: seq<Ring>, targets: seq<Target>)

  // ---------------------------------------------------------------- one ring

  /** The first free of the last `left` slots, going round the ring from `start`; SLOT_COUNT if none. */
  function FirstFree(slots: seq<Slot>, start: nat, left: nat): (r: nat)
    requires |slots| == SLOT_COUNT && left <= SLOT_COUNT
    ensures r <= SLOT_COUNT && (r < SLOT_COUNT ==> slots[r].state.Free?)
    decreases left
  {
    if left == 0 then SLOT_COUNT
    else
      var idx := (start + (SLOT_COUNT - left)) % SLOT_COUNT;
      if slots[idx].state.Free? then idx else FirstFree(slots, start, left - 1)
  }

  function FreeSlot(r: Ring): (k: nat)
    requires |r.slots| == SLOT_COUNT
    ensures k <= SLOT_COUNT && (k < SLOT_COUNT ==> r.slots[k].state.Free?)
  {
    FirstFree(r.slots, r.submitIdx, |r.slots|)
  }

  /** What the poll makes of a slot whose fence it sees signalled or not. */
  function Polled(slot: Slot, signalled: bool): Slot {
    if slot.state.Submitted? && signalled then slot.(state := Ready) else slot
  }

  function PollBelow(slots: seq<Slot>, view: seq<bool>, n: nat): (r: seq<Slot>)
    requires |slots| == |view| == SLOT_COUNT && n <= SLOT_COUNT
    ensures |r| == SLOT_COUNT
    ensures forall i :: 0 <= i < SLOT_COUNT ==> r[i] == if i < n then Polled(slots[i], view[i]) else slots[i]
  {
    if n == 0 then slots else PollBelow(slots, view, n - 1)[n - 1 := Polled(slots[n - 1], view[n - 1])]
  }

  /** `view[i]`: slot i's fence as the poll sees it. */
  function Poll(slots: seq<Slot>, view: seq<bool>): (r: seq<Slot>)
    requires |slots| == |view| == SLOT_COUNT
    ensures |r| == SLOT_COUNT && forall i :: 0 <= i < SLOT_COUNT ==> r[i] == Polled(slots[i], view[i])
  {
    PollBelow(slots, view, |slots|)
  }

  function BestBelow(slots: seq<Slot>, n: nat): (b: nat)
    requires |slots| == SLOT_COUNT && n <= SLOT_COUNT
    ensures b == SLOT_COUNT || (b < n && slots[b].state.Ready?)
    ensures forall i :: 0 <= i < n && slots[i].state.Ready? ==> b < n && slots[b].frame <= slots[i].frame
  {
    if n == 0 then SLOT_COUNT
    else
      var b := BestBelow(slots, n - 1);
      if slots[n - 1].state.Ready? && (b == SLOT_COUNT || slots[n - 1].frame < slots[b].frame) then n - 1 else b
  }

  /** The ready slot with the lowest frame number; SLOT_COUNT if none is ready. */
  function Best(slots: seq<Slot>): (b: nat)
    requires |slots| == SLOT_COUNT
    ensures b <= SLOT_COUNT && (b < SLOT_COUNT ==> slots[b].state.Ready?)
    ensures forall i :: 0 <= i < SLOT_COUNT && slots[i].state.Ready? ==>
              b < SLOT_COUNT && slots[b].frame <= slots[i].frame
  {
    BestBelow(slots, |slots|)
  }

  function Acquire(r: Ring, view: seq<bool>): Ring
    requires |r.slots| == |view| == SLOT_COUNT
  {
    var polled := Poll(r.slots, view);
    var b := Best(polled);
    if b == SLOT_COUNT then r.(slots := polled)
    else r.(slots := polled[b := polled[b].(state := InUse, held := true)],
            consumed := r.consumed + [polled[b].frame])
  }

  function Released(slot: Slot): Slot {
    if slot.refs == 0 then slot.(state := Free, held := false)
    else slot.(state := InUse, pendingFree := true, held := false)
  }

  /** One render target no longer waits for the slot; the last one frees it if it was released. */
  function Retired(slot: Slot): Slot {
    var refs := if slot.refs > 0 then slot.refs - 1 else 0;
    if refs == 0 && slot.pendingFree then slot.(refs := refs, state := Free) else slot.(refs := refs)
  }

  function MarkSubmitted(slot: Slot, frame: nat): Slot {
    slot.(frame := frame, pendingFree := false, state := Submitted)
  }

  // ---------------------------------------------------------------- rings and render targets

  datatype Step =
    | Submit(dest: nat, target: nat, frame: nat, accepted: bool)   // whether the GPU queue takes it
    | AcquireReady(dest: nat, view: seq<bool>)     // which fences the poll sees signalled
    | Release(dest: nat, slot: nat)
    | Retire(target: nat)

  predicate Shape(s: System) {
    && |s.rings| == DEST_COUNT && |s.targets| == TARGET_COUNT
    && (forall d :: 0 <= d < DEST_COUNT ==> |s.rings[d].slots| == SLOT_COUNT)
    && (forall t :: 0 <= t < TARGET_COUNT ==>
          s.targets[t].At? ==> s.targets[t].dest < DEST_COUNT && s.targets[t].slot < SLOT_COUNT)
  }

  function SetSlot(s: System, dest: nat, k: nat, slot: Slot): System
    requires Shape(s) && dest < DEST_COUNT && k < SLOT_COUNT
  {
    s.(rings := s.rings[dest := s.rings[dest].(slots := s.rings[dest].slots[k := slot])])
  }

  /** The retire step of the compositor, and of a submission that replaces a target's slot. */
  function RetireTarget(s: System, target: nat): (t: System)
    requires Shape(s) && target < TARGET_COUNT
    ensures Shape(t)
  {
    if s.targets[target].NoSlot? then s
    else
      var a := s.targets[target];
      SetSlot(s, a.dest, a.slot, Retired(s.rings[a.dest].slots[a.slot])).(targets := s.targets[target := NoSlot])
  }

  function Claim(s: System, dest: nat, k: nat): (t: System)
    requires Shape(s) && dest < DEST_COUNT && k < SLOT_COUNT
    ensures Shape(t)
  {
    var r := s.rings[dest];
    s.(rings := s.rings[dest := r.(slots := r.slots[k := r.slots[k].(state := InUse)],
                                   submitIdx := (k + 1) % SLOT_COUNT)])
  }

  /** The export of a frame went out: its slot is noted with the render target it samples. */
  function Attach(s: System, dest: nat, k: nat, target: nat, frame: nat): (t: System)
    requires Shape(s) && dest < DEST_COUNT && k < SLOT_COUNT && target < TARGET_COUNT
    ensures Shape(t)
  {
    var u := if s.targets[target].At? && s.targets[target] != At(dest, k) then RetireTarget(s, target) else s;
    Fill(u, dest, k, target, frame)
  }

  function Fill(s: System, dest: nat, k: nat, target: nat, frame: nat): (t: System)
    requires Shape(s) && dest < DEST_COUNT && k < SLOT_COUNT && target < TARGET_COUNT
    ensures Shape(t)
  {
    var r := s.rings[dest];
    var slot := MarkSubmitted(r.slots[k].(refs := r.slots[k].refs + 1), frame);
    s.(rings := s.rings[dest := r.(lastFrame := frame, slots := r.slots[k := slot])],
       targets := s.targets[target := At(dest, k)])
  }

  function SubmitTo(s: System, dest: nat, target: nat, frame: nat, accepted: bool): (t: System)
    requires Shape(s) && dest < DEST_COUNT && target < TARGET_COUNT
    ensures Shape(t)
  {
    var r := s.rings[dest];
    var k := FreeSlot(r);
    if k == SLOT_COUNT then s.(rings := s.rings[dest := r.(dropped := r.dropped + 1)])
    else
      var t := Claim(s, dest, k);
      if accepted then Attach(t, dest, k, target, frame)
      else SetSlot(t, dest, k, t.rings[dest].slots[k].(state := Free))
  }

  /** What a poll sees if the fences have signalled up to a frame, and do not change meanwhile. */
  function View(slots: seq<Slot>, signalled: nat): (view: seq<bool>)
    ensures |view| == |slots| && forall i :: 0 <= i < |slots| ==> view[i] == (slots[i].frame <= signalled)
  {
    seq(|slots|, i requires 0 <= i < |slots| => slots[i].frame <= signalled)
  }

  /** Each destination is given its frames in increasing order; a consumer releases what it holds. */
  predicate Allowed(s: System, step: Step)
    requires Shape(s)
  {
    match step
    case Submit(dest, target, frame, _) =>
      dest < DEST_COUNT && target < TARGET_COUNT && frame > s.rings[dest].lastFrame
    case AcquireReady(dest, view) => dest < DEST_COUNT && |view| == SLOT_COUNT
    case Release(dest, k) => dest < DEST_COUNT && k < SLOT_COUNT && s.rings[dest].slots[k].held
    case Retire(target) => target < TARGET_COUNT
  }

  function Do(s: System, step: Step): (t: System)
    requires Shape(s)
    ensures Shape(t)
  {
    if !Allowed(s, step) then s
    else match step
      case Submit(dest, target, frame, accepted) => SubmitTo(s, dest, target, frame, accepted)
      case AcquireReady(dest, view) => s.(rings := s.rings[dest := Acquire(s.rings[dest], view)])
      case Release(dest, k) => SetSlot(s, dest, k, Released(s.rings[dest].slots[k]))
      case Retire(target) => RetireTarget(s, target)
  }

  function Run(s: System, steps: seq<Step>): (t: System)
    requires Shape(s)
    ensures Shape(t)
  {
    if steps == [] then s else Do(Run(s, steps[..|steps| - 1]), steps[|steps| - 1])
  }

  const BLANK_SLOT := Slot(Free, 0, 0, false, false)

  function BlankRing(): (r: Ring)
    ensures |r.slots| == SLOT_COUNT && forall k :: 0 <= k < SLOT_COUNT ==> r.slots[k] == BLANK_SLOT
  {
    Ring(seq(SLOT_COUNT, _ => BLANK_SLOT), 0, 0, [], 0)
  }

  function Init(): (s: System)
    ensures Shape(s)
  {
    System([BlankRing(), BlankRing()], seq(TARGET_COUNT, _ => NoSlot))
  }
}
