/** One canvas entry's pending releases as they are stored: four parallel arrays, compacted in place. */
module PendingReleasesRows {
  import opened PendingReleases

  const NULL: nat := 0             // frames are numbered from 1
  const CLEARED := Item(NULL, 0, -1, 0)

  /** The first n items that four parallel arrays hold. */
  ghost function Zip(f: seq<nat>, s: seq<nat>, x: seq<int>, i: seq<nat>, n: nat): (r: seq<Item>)
    requires n <= |f| && n <= |s| && n <= |x| && n <= |i|
    ensures |r| == n && forall k :: 0 <= k < n ==> r[k] == Item(f[k], s[k], x[k], i[k])
  {
    if n == 0 then [] else Zip(f, s, x, i, n - 1) + [Item(f[n - 1], s[n - 1], x[n - 1], i[n - 1])]
  }

  class Row {
    const frames: array<nat>
    const slots: array<nat>
    const importIdxs: array<int>
    const inodes: array<nat>
    var count: nat
    var released: seq<nat>

    ghost predicate Shape()
      reads this
    {
      && frames.Length == MAX_ITEMS && slots.Length == MAX_ITEMS
      && importIdxs.Length == MAX_ITEMS && inodes.Length == MAX_ITEMS
      && frames != slots && frames != inodes && slots != inodes
      && count <= MAX_ITEMS
    }

    /** All 32 places. */
    ghost function Places(): (r: seq<Item>)
      requires Shape()
      reads this, frames, slots, importIdxs, inodes
      ensures |r| == MAX_ITEMS
    {
      Zip(frames[..], slots[..], importIdxs[..], inodes[..], MAX_ITEMS)
    }

    /** Beyond the count every array is cleared. */
    ghost predicate Valid()
      reads this, frames, slots, importIdxs, inodes
    {
      Shape() && forall k :: count <= k < MAX_ITEMS ==> Places()[k] == CLEARED
    }

    ghost function Items(): (r: seq<Item>)
      requires Shape()
      reads this, frames, slots, importIdxs, inodes
      ensures |r| == count
    {
      Places()[..count]
    }

    constructor ()
      ensures Valid() && Items() == [] && released == []
      ensures fresh(frames) && fresh(slots) && fresh(importIdxs) && fresh(inodes)
    {
      frames := new nat[MAX_ITEMS](_ => NULL);
      slots := new nat[MAX_ITEMS](_ => 0);
      importIdxs := new int[MAX_ITEMS](_ => -1);
      inodes := new nat[MAX_ITEMS](_ => 0);
      count, released := 0, [];
    }

    method Store(k: nat, x: Item)
      requires Shape() && k < MAX_ITEMS
      modifies frames, slots, importIdxs, inodes
      ensures Places() == old(Places())[k := x]
    {
      frames[k] := x.frame;
      slots[k] := x.slot;
      importIdxs[k] := x.importIdx;
      inodes[k] := x.inode;
    }

    method MoveDown(kept: nat, i: nat)
      requires Shape() && kept <= i < MAX_ITEMS
      modifies frames, slots, importIdxs, inodes
      ensures Places() == old(Places())[kept := old(Places())[i]]
    {
      if kept != i { Store(kept, Item(frames[i], slots[i], importIdxs[i], inodes[i])); }
    }

    method IsKept(i: nat, active: seq<bool>, force: bool) returns (keep: bool)
      requires Shape() && i < count
      ensures keep == Keeps(Items(), i, active, force)
    {
      keep := !force && i < |active| && slots[i] < MAX_ITEMS && 0 <= importIdxs[i] < CACHE_SIZE && active[i];
    }

    method ClearFrame(k: nat)
      requires Shape() && k < MAX_ITEMS
      modifies frames
      ensures Places() == old(Places())[k := old(Places())[k].(frame := NULL)]
    {
      frames[k] := NULL;
    }

    /** The compaction loop: what stays moves down, what goes is released, in order. */
    method Compact(active: seq<bool>, force: bool) returns (kept: nat)
      requires Valid()
      modifies `released, frames, slots, importIdxs, inodes
      ensures kept <= count && Places()[..kept] == Kept(old(Items()), count, active, force)
      ensures forall k :: count <= k < MAX_ITEMS ==> Places()[k] == CLEARED
      ensures released == old(released) + Gone(old(Items()), count, active, force)
    {
      ghost var items := Items();
      kept := 0;
      for i := 0 to count
        invariant Compacted(Places(), items, i, kept, active, force)
        invariant released == old(released) + Gone(items, i, active, force)
      {
        var keep := IsKept(i, active, force);
        ghost var places := Places();
        assert Items()[i] == places[i] == items[i];
        if keep {
          MoveDown(kept, i);
          MovingCompacts(places, items, i, kept, active, force);
          kept := kept + 1;
        } else {
          released := released + [frames[i]];
          ClearFrame(i);
          ClearingCompacts(places, items, i, kept, active, force);
        }
      }
    }

    method ReleasePending(active: seq<bool>, force: bool)
      requires Valid()
      modifies `count, `released, frames, slots, importIdxs, inodes
      ensures Valid() && Items() == Kept(old(Items()), old(count), active, force)
      ensures released == old(released) + Gone(old(Items()), old(count), active, force)
    {
      ghost var want := Kept(Items(), count, active, force);
      var kept := Compact(active, force);
      for i := kept to count
        invariant Places()[..kept] == want
        invariant forall k :: kept <= k < i || count <= k < MAX_ITEMS ==> Places()[k] == CLEARED
        modifies frames, slots, importIdxs, inodes
      {
        Store(i, CLEARED);
      }
      count := kept;
    }

    /** Finished frames go first, then the batch is appended; what does not fit is released at once. */
    method AttachBatch(batch: seq<Item>, active: seq<bool>)
      requires Valid()
      modifies `count, `released, frames, slots, importIdxs, inodes
      ensures Valid()
      ensures var k := Kept(old(Items()), old(count), active, false); var n := Room(|k|, |batch|);
              && Items() == k + batch[..n]
              && released == old(released) + Gone(old(Items()), old(count), active, false) + Frames(batch[n..])
    {
      ReleasePending(active, false);
      Append(batch);
    }

    method Append(batch: seq<Item>)
      requires Valid()
      modifies `count, `released, frames, slots, importIdxs, inodes
      ensures Valid()
      ensures var n := Room(old(count), |batch|);
              Items() == old(Items()) + batch[..n] && released == old(released) + Frames(batch[n..])
    {
      ghost var items, n := Items(), Room(count, |batch|);
      var start := count;
      for i := 0 to |batch|
        invariant Places()[..start + Stored(i, n)] == items + batch[..Stored(i, n)]
        invariant forall k :: start + Stored(i, n) <= k < MAX_ITEMS ==> Places()[k] == CLEARED
        invariant released == old(released) + Frames(batch[Stored(i, n)..i])
        modifies `released, frames, slots, importIdxs, inodes
      {
        if start + i >= MAX_ITEMS {
          released := released + [batch[i].frame];
          FramesGrow(batch, n, i);
        } else {
          Store(start + i, batch[i]);
          ItemsGrow(items, batch, i);
        }
      }
      var total := start + |batch|;
      count := if total > MAX_ITEMS then MAX_ITEMS else total;
    }
  }

  /** How many of the first i of a batch went into one of its n places. */
  ghost function Stored(i: nat, n: nat): nat { if i < n then i else n }

  /** The places after i turns of the compaction loop over `items`. */
  ghost predicate Compacted(places: seq<Item>, items: seq<Item>, i: nat, kept: nat, active: seq<bool>, force: bool)
    requires i <= |items| <= |places| == MAX_ITEMS
  {
    && kept <= i && places[..kept] == Kept(items, i, active, force)
    && (forall k :: i <= k < |items| ==> places[k] == items[k])
    && (forall k :: |items| <= k < MAX_ITEMS ==> places[k] == CLEARED)
  }

  lemma MovingCompacts(places: seq<Item>, items: seq<Item>, i: nat, kept: nat, active: seq<bool>, force: bool)
    requires i < |items| <= |places| == MAX_ITEMS && Compacted(places, items, i, kept, active, force)
    requires Keeps(items, i, active, force)
    ensures Compacted(places[kept := places[i]], items, i + 1, kept + 1, active, force)
  {
    var t := places[kept := places[i]];
    assert t[..kept + 1] == places[..kept] + [items[i]];
  }

  lemma ClearingCompacts(places: seq<Item>, items: seq<Item>, i: nat, kept: nat, active: seq<bool>, force: bool)
    requires i < |items| <= |places| == MAX_ITEMS && Compacted(places, items, i, kept, active, force)
    requires !Keeps(items, i, active, force)
    ensures Compacted(places[i := places[i].(frame := NULL)], items, i + 1, kept, active, force)
  {
    assert places[i := places[i].(frame := NULL)][..kept] == places[..kept];
  }

  lemma FramesGrow(batch: seq<Item>, n: nat, i: nat)
    requires n <= i < |batch|
    ensures Frames(batch[n..i + 1]) == Frames(batch[n..i]) + [batch[i].frame]
  {
    assert batch[n..i + 1] == batch[n..i] + [batch[i]];
  }

  lemma ItemsGrow(items: seq<Item>, batch: seq<Item>, i: nat)
    requires i < |batch|
    ensures items + batch[..i + 1] == (items + batch[..i]) + [batch[i]]
  {
  }
}
