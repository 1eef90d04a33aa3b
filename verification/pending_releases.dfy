/** Source frames the compositor has sampled: each waits with the native canvas entry it was drawn
    into until the GPU is done with it, then goes back to its source. */
module PendingReleases {
  import opened Counting

  const MAX_ITEMS: nat := 32
  const ENTRIES: nat := 16
  const CACHE_SIZE: int := 16

  /** A frame taken from a slot, numbered from 1 in the order taken, and the import it was read by. */
  datatype Item = Item(frame: nat, slot: nat, importIdx: int, inode: nat)

  /** pending_source_import_still_active: `active` is what the compositor's cache answers. */
  predicate StillActive(x: Item, active: bool) {
    x.slot < MAX_ITEMS && 0 <= x.importIdx < CACHE_SIZE && active
  }

  predicate Keeps(items: seq<Item>, i: nat, active: seq<bool>, force: bool)
    requires i < |items|
  {
    !force && i < |active| && StillActive(items[i], active[i])
  }

  /** The first n pending items that stay, and the frames of those that go, in order. */
  function Kept(items: seq<Item>, n: nat, active: seq<bool>, force: bool): (r: seq<Item>)
    requires n <= |items|
    ensures |r| <= n
  {
    if n == 0 then []
    else if Keeps(items, n - 1, active, force)
    then Kept(items, n - 1, active, force) + [items[n - 1]]
    else Kept(items, n - 1, active, force)
  }

  function Gone(items: seq<Item>, n: nat, active: seq<bool>, force: bool): seq<nat>
    requires n <= |items|
  {
    if n == 0 then []
    else if Keeps(items, n - 1, active, force)
    then Gone(items, n - 1, active, force)
    else Gone(items, n - 1, active, force) + [items[n - 1].frame]
  }

  function Frames(items: seq<Item>): (r: seq<nat>)
    ensures |r| == |items| && forall i :: 0 <= i < |items| ==> r[i] == items[i].frame
  {
    seq(|items|, i requires 0 <= i < |items| => items[i].frame)
  }

  /** How many of a batch find room beside k pending ones. */
  function Room(k: nat, batch: nat): (n: nat)
    ensures n <= batch && (k <= MAX_ITEMS ==> k + n <= MAX_ITEMS)
  {
    if k + batch <= MAX_ITEMS then batch else if k <= MAX_ITEMS then MAX_ITEMS - k else 0
  }

  // ---------------------------------------------------------------- the compositor's passes

  datatype Compositor = Compositor(
    native: bool,                  // whether the native canvas is in use
    rows: seq<seq<Item>>,          // pending, by canvas entry
    batch: seq<Item>,              // taken in this pass
    first: nat,                    // the first frame this pass could take
    next: nat,                     // the next frame to be taken
    released: seq<nat>)

  datatype Upload = BadFd | UploadFailed | Uploaded(slot: nat, importIdx: int, inode: nat)

  datatype Step =
    | TakeFrame(upload: Upload)
    | Rendered(entry: int, active: seq<bool>)    // the entry submitted; anything else if it failed
    | FenceSignalled(entry: int, active: seq<bool>)
    | Stop

  function Drain(c: Compositor, entry: nat, active: seq<bool>, force: bool): Compositor {
    if entry >= |c.rows| then c
    else
      var items := c.rows[entry];
      c.(rows := c.rows[entry := Kept(items, |items|, active, force)],
         released := c.released + Gone(items, |items|, active, force))
  }

  /** The entry's own finished frames go first; what does not fit is released at once. */
  function Attach(c: Compositor, entry: nat, active: seq<bool>): Compositor
    requires entry < |c.rows|
  {
    var t := Drain(c, entry, active, false);
    var n := Room(|t.rows[entry]|, |c.batch|);
    t.(rows := t.rows[entry := t.rows[entry] + c.batch[..n]], batch := [],
       released := t.released + Frames(c.batch[n..]))
  }

  function DrainAll(c: Compositor, n: nat): Compositor {
    if n == 0 then c else Drain(DrainAll(c, n - 1), n - 1, [], true)
  }

  function Do(c: Compositor, step: Step): Compositor {
    match step
    case TakeFrame(upload) =>
      var t := c.(next := c.next + 1);
      if upload.Uploaded? && c.native && |c.batch| < MAX_ITEMS
      then t.(batch := c.batch + [Item(c.next, upload.slot, upload.importIdx, upload.inode)])
      else t.(released := c.released + [c.next])
    case Rendered(entry, active) =>
      (if 0 <= entry < |c.rows| then Attach(c, entry, active)
       else c.(batch := [], released := c.released + Frames(c.batch))).(first := c.next)
    case FenceSignalled(entry, active) => if entry >= 0 then Drain(c, entry, active, false) else c
    case Stop => if c.batch == [] then DrainAll(c, |c.rows|) else c        // only between passes
  }

  function NoRows(n: nat): (rows: seq<seq<Item>>)
    ensures |rows| == n && forall i :: 0 <= i < n ==> rows[i] == []
  {
    if n == 0 then [] else NoRows(n - 1) + [[]]
  }

  function Start(native: bool): Compositor { Compositor(native, NoRows(ENTRIES), [], 1, 1, []) }

  function Run(native: bool, steps: seq<Step>): Compositor {
    if steps == [] then Start(native) else Do(Run(native, steps[..|steps| - 1]), steps[|steps| - 1])
  }

  // ---------------------------------------------------------------- where a frame is

  function CountItems(s: seq<Item>, f: nat): nat {
    if s == [] then 0 else CountItems(s[..|s| - 1], f) + One(s[|s| - 1].frame == f)
  }

  function CountRows(rows: seq<seq<Item>>, f: nat): nat {
    if rows == [] then 0 else CountRows(rows[..|rows| - 1], f) + CountItems(rows[|rows| - 1], f)
  }

  function Copies(c: Compositor, f: nat): nat {
    CountRows(c.rows, f) + CountItems(c.batch, f) + Count(c.released, f)
  }

  lemma {:induction false} CountItemsConcat(a: seq<Item>, b: seq<Item>, f: nat)
    ensures CountItems(a + b, f) == CountItems(a, f) + CountItems(b, f)
  {
    if b == [] {
      assert a + b == a;
    } else {
      CountItemsConcat(a, b[..|b| - 1], f);
      assert (a + b)[..|a + b| - 1] == a + b[..|b| - 1];
    }
  }

  lemma {:induction false} CountFrames(s: seq<Item>, f: nat)
    ensures Count(Frames(s), f) == CountItems(s, f)
  {
    if s != [] {
      CountFrames(s[..|s| - 1], f);
      assert Frames(s)[..|s| - 1] == Frames(s[..|s| - 1]);
    }
  }

  lemma {:induction false} CountRowsUpdate(rows: seq<seq<Item>>, entry: nat, row: seq<Item>, f: nat)
    requires entry < |rows|
    ensures CountRows(rows[entry := row], f) + CountItems(rows[entry], f) == CountRows(rows, f) + CountItems(row, f)
  {
    var n := |rows| - 1;
    var t := rows[entry := row];
    if entry == n {
      assert t[..n] == rows[..n];
    } else {
      CountRowsUpdate(rows[..n], entry, row, f);
      assert t[..n] == rows[..n][entry := row];
    }
  }

  /** Compaction splits the pending frames into those kept and those released. */
  lemma {:induction false} CompactionSplits(items: seq<Item>, n: nat, active: seq<bool>, force: bool, f: nat)
    requires n <= |items|
    ensures CountItems(Kept(items, n, active, force), f) + Count(Gone(items, n, active, force), f) ==
            CountItems(items[..n], f)
  {
    if n > 0 {
      CompactionSplits(items, n - 1, active, force, f);
      assert items[..n][..n - 1] == items[..n - 1];
      var k, g := Kept(items, n - 1, active, force), Gone(items, n - 1, active, force);
      assert (k + [items[n - 1]])[..|k|] == k;
      assert (g + [items[n - 1].frame])[..|g|] == g;
    }
  }

  // ---------------------------------------------------------------- every pass conserves

  ghost predicate InOrder(s: seq<Item>) {
    forall i, j :: 0 <= i < j < |s| ==> s[i].frame < s[j].frame
  }

  ghost predicate Within(s: seq<Item>, low: nat, high: nat) {
    forall i :: 0 <= i < |s| ==> low <= s[i].frame < high
  }

  ghost predicate RowOk(c: Compositor, row: seq<Item>) {
    |row| <= MAX_ITEMS && InOrder(row) && Within(row, 1, c.first)
  }

  ghost predicate Inv(c: Compositor) {
    && |c.rows| == ENTRIES && 1 <= c.first <= c.next
    && (forall e :: 0 <= e < |c.rows| ==> RowOk(c, c.rows[e]))
    && |c.batch| <= MAX_ITEMS && InOrder(c.batch) && Within(c.batch, c.first, c.next)
    && Conserved(c)
  }

  ghost predicate Conserved(c: Compositor) {
    forall f: nat :: Copies(c, f) == One(1 <= f < c.next)
  }

  lemma {:induction false} KeptInOrder(items: seq<Item>, n: nat, active: seq<bool>, force: bool, low: nat, high: nat)
    requires n <= |items| && InOrder(items) && Within(items, low, high)
    ensures var k := Kept(items, n, active, force);
            && InOrder(k) && Within(k, low, high)
            && (n < |items| ==> forall i :: 0 <= i < |k| ==> k[i].frame < items[n].frame)
  {
    if n > 0 { KeptInOrder(items, n - 1, active, force, low, high); }
  }

  lemma DrainKeepsInv(c: Compositor, entry: nat, active: seq<bool>, force: bool)
    requires Inv(c)
    ensures Inv(Drain(c, entry, active, force))
  {
    if entry < |c.rows| {
      var items, t := c.rows[entry], Drain(c, entry, active, force);
      assert RowOk(c, items);
      KeptInOrder(items, |items|, active, force, 1, c.first);
      assert RowOk(t, t.rows[entry]);
      forall e | 0 <= e < |t.rows| ensures RowOk(t, t.rows[e]) { assert RowOk(c, c.rows[e]); }
      forall f: nat ensures Copies(t, f) == One(1 <= f < t.next) {
        DrainCopies(c, entry, active, force, f);
        assert Copies(c, f) == One(1 <= f < c.next);
      }
    }
  }

  lemma DrainCopies(c: Compositor, entry: nat, active: seq<bool>, force: bool, f: nat)
    requires entry < |c.rows|
    ensures Copies(Drain(c, entry, active, force), f) == Copies(c, f)
  {
    var items := c.rows[entry];
    var kept, gone := Kept(items, |items|, active, force), Gone(items, |items|, active, force);
    CompactionSplits(items, |items|, active, force, f);
    assert items[..|items|] == items;
    CountRowsUpdate(c.rows, entry, kept, f);
    CountConcat(c.released, gone, f);
  }

  /** The part of attaching that follows the draining. */
  lemma AppendCopies(c: Compositor, entry: nat, n: nat, t: Compositor, f: nat)
    requires entry < |c.rows| && n <= |c.batch|
    requires t == c.(rows := c.rows[entry := c.rows[entry] + c.batch[..n]], batch := [],
                     released := c.released + Frames(c.batch[n..]))
    ensures Copies(t, f) == Copies(c, f)
  {
    CountRowsUpdate(c.rows, entry, c.rows[entry] + c.batch[..n], f);
    CountItemsConcat(c.rows[entry], c.batch[..n], f);
    assert c.batch == c.batch[..n] + c.batch[n..];
    CountItemsConcat(c.batch[..n], c.batch[n..], f);
    CountFrames(c.batch[n..], f);
    CountConcat(c.released, Frames(c.batch[n..]), f);
  }

  lemma AttachKeepsInv(c: Compositor, entry: nat, active: seq<bool>)
    requires Inv(c) && entry < |c.rows|
    ensures Inv(Attach(c, entry, active).(first := c.next))
  {
    DrainKeepsInv(c, entry, active, false);
    var d, t := Drain(c, entry, active, false), Attach(c, entry, active);
    var n := Room(|d.rows[entry]|, |d.batch|);
    assert RowOk(d, d.rows[entry]);
    var u := t.(first := c.next);
    assert t.next == d.next && t.rows == d.rows[entry := d.rows[entry] + d.batch[..n]];
    forall e | 0 <= e < |u.rows| ensures RowOk(u, u.rows[e]) { assert RowOk(d, d.rows[e]); }
    forall f: nat ensures Copies(u, f) == One(1 <= f < u.next) {
      AppendCopies(d, entry, n, t, f);
      assert Copies(d, f) == One(1 <= f < d.next);
    }
  }

  lemma FailedKeepsInv(c: Compositor)
    requires Inv(c)
    ensures Inv(c.(batch := [], released := c.released + Frames(c.batch), first := c.next))
  {
    var t := c.(batch := [], released := c.released + Frames(c.batch), first := c.next);
    forall e | 0 <= e < |t.rows| ensures RowOk(t, t.rows[e]) { assert RowOk(c, c.rows[e]); }
    forall f: nat ensures Copies(t, f) == One(1 <= f < t.next) {
      CountFrames(c.batch, f);
      CountConcat(c.released, Frames(c.batch), f);
      assert Copies(c, f) == One(1 <= f < c.next);
    }
  }

  lemma TakeKeepsInv(c: Compositor, upload: Upload)
    requires Inv(c)
    ensures Inv(Do(c, TakeFrame(upload)))
  {
    var t := Do(c, TakeFrame(upload));
    forall e | 0 <= e < |t.rows| ensures RowOk(t, t.rows[e]) { assert RowOk(c, c.rows[e]); }
    forall f: nat ensures Copies(t, f) == One(1 <= f < t.next) {
      assert Copies(c, f) == One(1 <= f < c.next);
      TakeCopies(c, upload, f);
    }
  }

  lemma TakeCopies(c: Compositor, upload: Upload, f: nat)
    ensures Copies(Do(c, TakeFrame(upload)), f) == Copies(c, f) + One(f == c.next)
  {
    var t := Do(c, TakeFrame(upload));
    if t.batch == c.batch {
      assert t.released[..|c.released|] == c.released;
    } else {
      assert t.batch[..|c.batch|] == c.batch;
    }
  }

  lemma {:induction false} DrainAllKeepsInv(c: Compositor, n: nat)
    requires Inv(c) && n <= |c.rows|
    ensures var t := DrainAll(c, n);
            && Inv(t) && t.batch == c.batch && t.next == c.next
            && forall e :: 0 <= e < n ==> t.rows[e] == []
  {
    if n > 0 {
      DrainAllKeepsInv(c, n - 1);
      var t := DrainAll(c, n - 1);
      DrainKeepsInv(t, n - 1, [], true);
      ForcedReleasesAll(t.rows[n - 1], |t.rows[n - 1]|, []);
    }
  }

  /** A forced drain releases every frame in its order, whatever the cache answers. */
  lemma {:induction false} ForcedReleasesAll(items: seq<Item>, n: nat, active: seq<bool>)
    requires n <= |items|
    ensures Kept(items, n, active, true) == [] && Gone(items, n, active, true) == Frames(items[..n])
  {
    if n > 0 {
      ForcedReleasesAll(items, n - 1, active);
      assert Frames(items[..n]) == Frames(items[..n - 1]) + [items[n - 1].frame];
    }
  }

  lemma {:induction false} RunKeepsInv(native: bool, steps: seq<Step>)
    ensures Inv(Run(native, steps))
  {
    if steps == [] {
      StartIsInv(native);
    } else {
      var before, step := steps[..|steps| - 1], steps[|steps| - 1];
      RunKeepsInv(native, before);
      DoKeepsInv(Run(native, before), step);
    }
  }

  lemma DoKeepsInv(c: Compositor, step: Step)
    requires Inv(c)
    ensures Inv(Do(c, step))
  {
    match step
    case TakeFrame(upload) => TakeKeepsInv(c, upload);
    case Rendered(entry, active) =>
      if 0 <= entry < |c.rows| { AttachKeepsInv(c, entry, active); } else { FailedKeepsInv(c); }
    case FenceSignalled(entry, active) => if entry >= 0 { DrainKeepsInv(c, entry, active, false); }
    case Stop => if c.batch == [] { DrainAllKeepsInv(c, |c.rows|); }
  }

  lemma {:induction false} NoRowsEmpty(n: nat, f: nat)
    ensures CountRows(NoRows(n), f) == 0
  {
    if n > 0 {
      NoRowsEmpty(n - 1, f);
      assert NoRows(n)[..n - 1] == NoRows(n - 1);
    }
  }

  lemma StartIsInv(native: bool)
    ensures Inv(Start(native))
  {
    forall f: nat ensures Copies(Start(native), f) == 0 { NoRowsEmpty(ENTRIES, f); }
  }

  lemma {:induction false} EmptyRows(rows: seq<seq<Item>>, f: nat)
    requires forall e :: 0 <= e < |rows| ==> rows[e] == []
    ensures CountRows(rows, f) == 0
  {
    if rows != [] { EmptyRows(rows[..|rows| - 1], f); }
  }

  // ---------------------------------------------------------------- main results

  /** Over every run of uploads, renders, failed renders, signalled fences and overflows: each frame
      taken from a slot is pending in one place, or was released exactly once. */
  lemma EveryFrameOnce(native: bool, steps: seq<Step>, f: nat)
    ensures var c := Run(native, steps);
            CountRows(c.rows, f) + CountItems(c.batch, f) + Count(c.released, f) == One(1 <= f < c.next)
  {
    RunKeepsInv(native, steps);
    var c := Run(native, steps);
    assert Copies(c, f) == One(1 <= f < c.next);
  }

  /** No entry ever holds more than its 32 frames, and each holds them in the order taken. */
  lemma EntriesInOrder(native: bool, steps: seq<Step>, e: nat)
    requires e < 16
    ensures var c := Run(native, steps);
            |c.rows| == 16 && |c.rows[e]| <= 32 && InOrder(c.rows[e])
  {
    RunKeepsInv(native, steps);
    var c := Run(native, steps);
    assert RowOk(c, c.rows[e]);
  }

  lemma StopReleasesAll(c: Compositor, f: nat)
    requires Inv(c) && c.batch == []
    ensures Count(Do(c, Stop).released, f) == One(1 <= f < c.next) && Do(c, Stop).next == c.next
  {
    DrainAllKeepsInv(c, |c.rows|);
    var t := Do(c, Stop);
    EmptyRows(t.rows, f);
    assert Copies(t, f) == One(1 <= f < t.next);
  }

  /** Once the thread stops between passes, every frame it ever took has been released, once. */
  lemma AllReleasedAtStop(native: bool, steps: seq<Step>, f: nat)
    requires Run(native, steps).batch == []
    ensures var c := Do(Run(native, steps), Stop);
            Count(c.released, f) == One(1 <= f < c.next)
  {
    RunKeepsInv(native, steps);
    StopReleasesAll(Run(native, steps), f);
  }
}
