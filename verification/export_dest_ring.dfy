/** The slot operations of one destination as they update its slots in place. */
module ExportDestRing {
  import opened ExportDest
  import opened ExportDestSlots

  /** How many of the first n slots wait for their fence. */
  function WaitingBelow(slots: seq<Slot>, n: nat): nat
    requires n <= |slots|
  {
    if n == 0 then 0 else WaitingBelow(slots, n - 1) + if slots[n - 1].state.Submitted? then 1 else 0
  }

  lemma {:induction false} SameBelow(slots: seq<Slot>, after: seq<Slot>, n: nat)
    requires n <= |slots| == |after| && forall i :: 0 <= i < n ==> slots[i] == after[i]
    ensures WaitingBelow(slots, n) == WaitingBelow(after, n)
  {
    if n > 0 { SameBelow(slots, after, n - 1); }
  }

  class Destination {
    const slots: array<Slot>
    var submitIdx: nat
    var lastFrame: nat
    var consumed: seq<nat>
    var dropped: nat
    var backlog: nat

    ghost predicate Valid()
    {
      slots.Length == SLOT_COUNT
    }

    ghost function State(): Ring
      reads this, slots
    {
      Ring(slots[..], submitIdx, lastFrame, consumed, dropped)
    }

    constructor ()
      ensures Valid() && State() == BlankRing() && fresh(slots)
    {
      slots := new Slot[SLOT_COUNT](_ => BLANK_SLOT);
      submitIdx, lastFrame, consumed, dropped, backlog := 0, 0, [], 0, 0;
      new;
      assert slots[..] == BlankRing().slots;
    }

    method FindFree() returns (k: nat)
      requires Valid()
      ensures k == FreeSlot(State())
    {
      var left: nat := slots.Length;
      while left > 0
        invariant left <= slots.Length && FirstFree(slots[..], submitIdx, left) == FreeSlot(State())
      {
        k := (submitIdx + (SLOT_COUNT - left)) % SLOT_COUNT;
        if slots[k].state.Free? { return; }
        left := left - 1;
      }
      k := SLOT_COUNT;
    }

    /** The first free slot from submitIdx on is claimed; if there is none the frame is dropped. */
    method AcquireSlot() returns (k: nat)
      requires Valid()
      modifies `submitIdx, `dropped, `backlog, slots
      ensures k == FreeSlot(old(State())) && (k == SLOT_COUNT <==> AllTaken(old(State())))
      ensures k < SLOT_COUNT ==> FirstFreeIs(old(State()), k)
      ensures backlog == if k == SLOT_COUNT then SLOT_COUNT else old(backlog)
      ensures var r := old(State());
              State() == if k == SLOT_COUNT then r.(dropped := r.dropped + 1)
                         else r.(slots := r.slots[k := r.slots[k].(state := InUse)], submitIdx := (k + 1) % SLOT_COUNT)
    {
      k := FindFree();
      FreeSlotIsFirst(State());
      if k == SLOT_COUNT {
        dropped := dropped + 1;
        backlog := SLOT_COUNT;
      } else {
        slots[k] := slots[k].(state := InUse);
        submitIdx := (k + 1) % SLOT_COUNT;
        assert slots[..] == old(slots[..])[k := old(slots[..])[k].(state := InUse)];
      }
    }

    method SlotMarkSubmitted(k: nat, frame: nat)
      requires Valid() && k < SLOT_COUNT
      modifies slots
      ensures slots[..] == old(slots[..])[k := MarkSubmitted(old(slots[k]), frame)]
    {
      slots[k] := slots[k].(frame := frame);
      slots[k] := slots[k].(pendingFree := false);
      slots[k] := slots[k].(state := Submitted);
    }

    method PollReady(k: nat, signalled: bool) returns (ready: bool)
      requires Valid() && k < SLOT_COUNT
      modifies slots
      ensures slots[..] == old(slots[..])[k := Polled(old(slots[k]), signalled)]
      ensures ready == slots[k].state.Ready?
    {
      if !slots[k].state.Submitted? { return slots[k].state.Ready?; }
      if signalled {
        slots[k] := slots[k].(state := Ready);
        return true;
      }
      return false;
    }

    method PollAll(view: seq<bool>)
      requires Valid() && |view| == SLOT_COUNT
      modifies `backlog, slots
      ensures slots[..] == Poll(old(slots[..]), view) && backlog == WaitingBelow(slots[..], SLOT_COUNT)
    {
      var waiting := 0;
      for i := 0 to slots.Length
        invariant slots[..] == PollBelow(old(slots[..]), view, i) && waiting == WaitingBelow(slots[..], i)
      {
        ghost var before := slots[..];
        if slots[i].state.Submitted? {
          var ready := PollReady(i, view[i]);
          if !ready { waiting := waiting + 1; }
        }
        SameBelow(before, slots[..], i);
      }
      backlog := waiting;
    }

    method FindBest() returns (b: nat)
      requires Valid()
      ensures b == Best(slots[..])
    {
      b := SLOT_COUNT;
      for i := 0 to slots.Length
        invariant b == BestBelow(slots[..], i)
      {
        if slots[i].state.Ready? {
          if b == SLOT_COUNT || slots[i].frame < slots[b].frame { b := i; }
        }
      }
    }

    /** Poll every submitted slot, then hand out the ready one with the lowest frame number. */
    method AcquireReadySlot(view: seq<bool>) returns (b: nat)
      requires Valid() && |view| == SLOT_COUNT
      modifies `backlog, `consumed, slots
      ensures State() == Acquire(old(State()), view) && b == Best(Poll(old(slots[..]), view))
      ensures backlog == WaitingBelow(Poll(old(slots[..]), view), SLOT_COUNT)
    {
      PollAll(view);
      b := FindBest();
      if b < SLOT_COUNT {
        ghost var polled := slots[..];
        slots[b] := slots[b].(state := InUse, held := true);
        consumed := consumed + [slots[b].frame];
        assert slots[..] == polled[b := polled[b].(state := InUse, held := true)];
      }
    }

    method ReleaseSlot(k: nat)
      requires Valid() && k < SLOT_COUNT
      modifies slots
      ensures slots[..] == old(slots[..])[k := Released(old(slots[k]))]
      ensures !slots[k].held && (slots[k].state.Free? <==> old(slots[k]).refs == 0)
      ensures !slots[k].state.Free? ==> slots[k].state.InUse? && slots[k].pendingFree
    {
      if slots[k].refs == 0 {
        slots[k] := slots[k].(state := Free, held := false);
      } else {
        slots[k] := slots[k].(pendingFree := true);
        slots[k] := slots[k].(state := InUse, held := false);
      }
    }

    /** What the compositor does to the slot a render target waited for. */
    method RetireSlot(k: nat)
      requires Valid() && k < SLOT_COUNT
      modifies slots
      ensures slots[..] == old(slots[..])[k := Retired(old(slots[k]))]
      ensures var was := old(slots[k]);
              slots[k].state.Free? <==> was.state.Free? || (was.refs <= 1 && was.pendingFree)
    {
      var refs := slots[k].refs;
      if refs > 0 {
        refs := refs - 1;
        slots[k] := slots[k].(refs := refs);
      }
      if refs == 0 && slots[k].pendingFree { slots[k] := slots[k].(state := Free); }
    }
  }
}
