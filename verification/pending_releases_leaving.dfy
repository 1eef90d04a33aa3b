/** Which frames a step of the compositor gives back, and for what reason. */
module PendingReleasesLeaving {
  import opened Counting
  import opened PendingReleases

  /** Item i was drawn by one of the 32 scene items, through one of the 16 imports of its cache, and the
      cache answers that this import is the active one. */
  predicate InUse(items: seq<Item>, i: nat, active: seq<bool>)
    requires i < |items|
  {
    items[i].slot < 32 && 0 <= items[i].importIdx < 16 && i < |active| && active[i]
  }

  /** How many of the first n items are in use. */
  function InUseBelow(items: seq<Item>, n: nat, active: seq<bool>): nat
    requires n <= |items|
  {
    if n == 0 then 0 else InUseBelow(items, n - 1, active) + if InUse(items, n - 1, active) then 1 else 0
  }

  /** Item i waits for f and is no longer being read through its import. */
  ghost predicate Finished(items: seq<Item>, active: seq<bool>, f: nat) {
    exists i :: 0 <= i < |items| && items[i].frame == f && !InUse(items, i, active)
  }

  /** f is in the batch at place n or behind. */
  ghost predicate InBatchFrom(batch: seq<Item>, n: int, f: nat) {
    exists i :: 0 <= i && n <= i < |batch| && batch[i].frame == f
  }

  /** Before its entry is drained a frame leaves only if its import has finished, if it was not
      uploaded, no native canvas is in use or the batch is full, if the render failed, if the entry has
      no room for it, or if the thread stops. */
  ghost predicate Leaves(c: Compositor, step: Step, f: nat) {
    match step
    case TakeFrame(upload) =>
      f == c.next && (!upload.Uploaded? || !c.native || |c.batch| >= MAX_ITEMS)
    case Rendered(entry, active) =>
      if 0 <= entry < |c.rows| then
        var items := c.rows[entry];
        || Finished(items, active, f)
        || InBatchFrom(c.batch, 32 - InUseBelow(items, |items|, active), f)
      else InBatchFrom(c.batch, 0, f)
    case FenceSignalled(entry, active) => 0 <= entry < |c.rows| && Finished(c.rows[entry], active, f)
    case Stop => c.batch == [] && CountRows(c.rows, f) > 0
  }

  lemma {:induction false} GoneIff(items: seq<Item>, n: nat, active: seq<bool>, f: nat)
    requires n <= |items|
    ensures Count(Gone(items, n, active, false), f) > 0 <==>
            exists i :: 0 <= i < n && items[i].frame == f && !InUse(items, i, active)
  {
    if n > 0 {
      GoneIff(items, n - 1, active, f);
      if !Keeps(items, n - 1, active, false) {
        var g := Gone(items, n - 1, active, false);
        assert (g + [items[n - 1].frame])[..|g|] == g;
      }
    }
  }

  lemma {:induction false} KeptAreCounted(items: seq<Item>, n: nat, active: seq<bool>)
    requires n <= |items|
    ensures |Kept(items, n, active, false)| == InUseBelow(items, n, active)
  {
    if n > 0 { KeptAreCounted(items, n - 1, active); }
  }

  lemma {:induction false} FramesIff(items: seq<Item>, f: nat)
    ensures Count(Frames(items), f) > 0 <==> InBatchFrom(items, 0, f)
  {
    if items != [] {
      var n := |items| - 1;
      FramesIff(items[..n], f);
      assert Frames(items)[..n] == Frames(items[..n]);
      assert forall i :: 0 <= i < n ==> items[..n][i] == items[i];
      if InBatchFrom(items, 0, f) && items[n].frame != f {
        var i :| 0 <= i < |items| && items[i].frame == f;
        assert items[..n][i].frame == f;
      }
    }
  }

  lemma TailIff(batch: seq<Item>, n: nat, f: nat)
    requires n <= |batch|
    ensures Count(Frames(batch[n..]), f) > 0 <==> InBatchFrom(batch, n, f)
  {
    FramesIff(batch[n..], f);
    assert forall i :: n <= i < |batch| ==> batch[n..][i - n] == batch[i];
    if InBatchFrom(batch, n, f) {
      var i :| n <= i < |batch| && batch[i].frame == f;
      assert batch[n..][i - n].frame == f;
    }
  }

  /** Over every state a run can reach: a step gives a frame back exactly for one of those reasons. */
  lemma LeavesOnlyFor(c: Compositor, step: Step, f: nat)
    requires Inv(c)
    ensures Count(Do(c, step).released, f) > Count(c.released, f) <==> Leaves(c, step, f)
  {
    match step
    case TakeFrame(upload) => assert (c.released + [c.next])[..|c.released|] == c.released;
    case Rendered(entry, active) => RenderLeavesOnlyFor(c, entry, active, f);
    case FenceSignalled(entry, active) =>
      if 0 <= entry < |c.rows| {
        var items := c.rows[entry];
        GoneIff(items, |items|, active, f);
        CountConcat(c.released, Gone(items, |items|, active, false), f);
      }
    case Stop => StopLeavesOnlyFor(c, f);
  }

  lemma RenderLeavesOnlyFor(c: Compositor, entry: int, active: seq<bool>, f: nat)
    requires Inv(c)
    ensures Count(Do(c, Rendered(entry, active)).released, f) > Count(c.released, f) <==>
            Leaves(c, Rendered(entry, active), f)
  {
    if 0 <= entry < |c.rows| {
      var items := c.rows[entry];
      var gone, n := Gone(items, |items|, active, false), Room(|Kept(items, |items|, active, false)|, |c.batch|);
      GoneIff(items, |items|, active, f);
      KeptAreCounted(items, |items|, active);
      TailIff(c.batch, n, f);
      CountConcat(c.released, gone, f);
      CountConcat(c.released + gone, Frames(c.batch[n..]), f);
    } else {
      FramesIff(c.batch, f);
      CountConcat(c.released, Frames(c.batch), f);
    }
  }

  lemma StopLeavesOnlyFor(c: Compositor, f: nat)
    requires Inv(c)
    ensures Count(Do(c, Stop).released, f) > Count(c.released, f) <==> Leaves(c, Stop, f)
  {
    if c.batch == [] {
      StopReleasesAll(c, f);
      assert Copies(c, f) == One(1 <= f < c.next);
    }
  }

  // ---------------------------------------------------------------- where each frame goes

  /** What is in use stays, what is not goes, each in its order. */
  lemma {:induction false} SplitAt(items: seq<Item>, n: nat, active: seq<bool>, i: nat)
    requires i < n <= |items|
    ensures var kept, gone := Kept(items, n, active, false), Gone(items, n, active, false);
            var k := InUseBelow(items, i, active);
            && |kept| == InUseBelow(items, n, active) && |kept| + |gone| == n && k <= i
            && (InUse(items, i, active) ==> k < |kept| && kept[k] == items[i])
            && (!InUse(items, i, active) ==> i - k < |gone| && gone[i - k] == items[i].frame)
  {
    SplitLengths(items, i, active);
    SplitLengths(items, n, active);
    if i < n - 1 {
      SplitAt(items, n - 1, active, i);
    } else {
      SplitLengths(items, n - 1, active);
    }
  }

  lemma {:induction false} SplitLengths(items: seq<Item>, n: nat, active: seq<bool>)
    requires n <= |items|
    ensures |Kept(items, n, active, false)| == InUseBelow(items, n, active)
    ensures |Gone(items, n, active, false)| == n - InUseBelow(items, n, active)
  {
    if n > 0 { SplitLengths(items, n - 1, active); }
  }

  /** Draining an entry comes first in both steps that drain one. */
  lemma DrainedFirst(c: Compositor, step: Step, entry: nat, active: seq<bool>, d: Compositor, t: Compositor)
    requires entry < |c.rows| && d == Drain(c, entry, active, false) && t == Do(c, step)
    requires step == FenceSignalled(entry, active) || step == Rendered(entry, active)
    ensures |t.rows| == |d.rows| == |c.rows| && d.rows[entry] <= t.rows[entry] && d.released <= t.released
    ensures forall e :: 0 <= e < |c.rows| && e != entry ==> t.rows[e] == c.rows[e]
  {
  }

  lemma DrainSplits(c: Compositor, entry: nat, active: seq<bool>, d: Compositor, i: nat, k: nat)
    requires entry < |c.rows| && i < |c.rows[entry]| && d == Drain(c, entry, active, false)
    requires k == InUseBelow(c.rows[entry], i, active)
    ensures |d.rows| == |c.rows| && k <= i && |c.released| <= |d.released|
    ensures InUse(c.rows[entry], i, active) ==> k < |d.rows[entry]| && d.rows[entry][k] == c.rows[entry][i]
    ensures !InUse(c.rows[entry], i, active) ==>
              |c.released| + (i - k) < |d.released| && d.released[|c.released| + (i - k)] == c.rows[entry][i].frame
  {
    SplitAt(c.rows[entry], |c.rows[entry]|, active, i);
  }

  /** When an entry is drained, because its fence signalled or to attach a batch, pending frame i of the
      entry stays if it is in use and is released if it is not, each behind those before it of its kind;
      the other entries stay as they are. */
  lemma StaysIffInUse(c: Compositor, step: Step, entry: nat, active: seq<bool>, i: nat)
    requires entry < |c.rows| && i < |c.rows[entry]|
    requires step == FenceSignalled(entry, active) || step == Rendered(entry, active)
    ensures var items, t, k := c.rows[entry], Do(c, step), InUseBelow(c.rows[entry], i, active);
            && |t.rows| == |c.rows| && k <= i && |c.released| <= |t.released|
            && (InUse(items, i, active) ==> k < |t.rows[entry]| && t.rows[entry][k] == items[i])
            && (!InUse(items, i, active) ==>
                  |c.released| + (i - k) < |t.released| && t.released[|c.released| + (i - k)] == items[i].frame)
            && forall e :: 0 <= e < |c.rows| && e != entry ==> t.rows[e] == c.rows[e]
  {
    var d := Drain(c, entry, active, false);
    DrainSplits(c, entry, active, d, i, InUseBelow(c.rows[entry], i, active));
    DrainedFirst(c, step, entry, active, d, Do(c, step));
  }

  /** Behind what stayed the batch is attached in its order; from the place past the 32nd on its frames
      are released. */
  lemma BatchIsAttached(c: Compositor, entry: nat, active: seq<bool>, i: nat)
    requires entry < |c.rows| && |c.rows[entry]| <= 32 && i < |c.batch|
    ensures var n, t := |c.rows[entry]|, Do(c, Rendered(entry, active));
            var m := InUseBelow(c.rows[entry], n, active);
            && m <= n && |t.rows| == |c.rows| && t.batch == []
            && (m + i < 32 ==> m + i < |t.rows[entry]| && t.rows[entry][m + i] == c.batch[i])
            && (m + i >= 32 ==> var at := |c.released| + (n - m) + (m + i - 32);
                                at < |t.released| && t.released[at] == c.batch[i].frame)
  {
    SplitLengths(c.rows[entry], |c.rows[entry]|, active);
  }

  // ---------------------------------------------------------------- what is noted of a frame

  /** The uploads of a run: frame f is the one of upload f, counted from 1. */
  function Uploads(steps: seq<Step>): seq<Upload> {
    if steps == [] then []
    else
      var before, step := Uploads(steps[..|steps| - 1]), steps[|steps| - 1];
      if step.TakeFrame? then before + [step.upload] else before
  }

  ghost predicate AsUploaded(uploads: seq<Upload>, s: seq<Item>) {
    forall i :: 0 <= i < |s| ==>
      1 <= s[i].frame <= |uploads| && uploads[s[i].frame - 1] == Uploaded(s[i].slot, s[i].importIdx, s[i].inode)
  }

  ghost predicate AllAsUploaded(uploads: seq<Upload>, c: Compositor) {
    && c.next == |uploads| + 1 && AsUploaded(uploads, c.batch)
    && forall e :: 0 <= e < |c.rows| ==> AsUploaded(uploads, c.rows[e])
  }

  lemma {:induction false} KeptAsUploaded(uploads: seq<Upload>, items: seq<Item>, n: nat, active: seq<bool>,
                                          force: bool)
    requires n <= |items| && AsUploaded(uploads, items)
    ensures AsUploaded(uploads, Kept(items, n, active, force))
  {
    if n > 0 { KeptAsUploaded(uploads, items, n - 1, active, force); }
  }

  lemma DrainAsUploaded(uploads: seq<Upload>, c: Compositor, entry: nat, active: seq<bool>, force: bool)
    requires AllAsUploaded(uploads, c)
    ensures AllAsUploaded(uploads, Drain(c, entry, active, force))
  {
    if entry < |c.rows| { KeptAsUploaded(uploads, c.rows[entry], |c.rows[entry]|, active, force); }
  }

  lemma AttachAsUploaded(uploads: seq<Upload>, c: Compositor, entry: nat, active: seq<bool>)
    requires AllAsUploaded(uploads, c) && entry < |c.rows|
    ensures AllAsUploaded(uploads, Attach(c, entry, active))
  {
    DrainAsUploaded(uploads, c, entry, active, false);
    var d := Drain(c, entry, active, false);
    var row := d.rows[entry] + c.batch[..Room(|d.rows[entry]|, |c.batch|)];
    assert AsUploaded(uploads, d.rows[entry]);
    assert AsUploaded(uploads, row);
  }

  lemma {:induction false} DrainAllAsUploaded(uploads: seq<Upload>, c: Compositor, n: nat)
    requires AllAsUploaded(uploads, c)
    ensures AllAsUploaded(uploads, DrainAll(c, n))
  {
    if n > 0 {
      DrainAllAsUploaded(uploads, c, n - 1);
      DrainAsUploaded(uploads, DrainAll(c, n - 1), n - 1, [], true);
    }
  }

  lemma TakeAsUploaded(uploads: seq<Upload>, c: Compositor, upload: Upload)
    requires AllAsUploaded(uploads, c)
    ensures AllAsUploaded(uploads + [upload], Do(c, TakeFrame(upload)))
  {
    var more, t := uploads + [upload], Do(c, TakeFrame(upload));
    forall e | 0 <= e < |t.rows| ensures AsUploaded(more, t.rows[e]) {
      assert AsUploaded(uploads, c.rows[e]);
      LaterUploads(uploads, more, c.rows[e]);
    }
    LaterUploads(uploads, more, c.batch);
  }

  lemma LaterUploads(uploads: seq<Upload>, more: seq<Upload>, s: seq<Item>)
    requires AsUploaded(uploads, s) && uploads <= more
    ensures AsUploaded(more, s)
  {
  }

  lemma StepAsUploaded(uploads: seq<Upload>, c: Compositor, step: Step)
    requires AllAsUploaded(uploads, c)
    ensures AllAsUploaded(if step.TakeFrame? then uploads + [step.upload] else uploads, Do(c, step))
  {
    match step
    case TakeFrame(upload) => TakeAsUploaded(uploads, c, upload);
    case Rendered(entry, active) => if 0 <= entry < |c.rows| { AttachAsUploaded(uploads, c, entry, active); }
    case FenceSignalled(entry, active) => if entry >= 0 { DrainAsUploaded(uploads, c, entry, active, false); }
    case Stop => DrainAllAsUploaded(uploads, c, |c.rows|);
  }

  /** Over every run: what is noted of a frame that waits is what its upload said, slot, import and inode. */
  lemma {:induction false} PendingIsAsUploaded(native: bool, steps: seq<Step>)
    ensures AllAsUploaded(Uploads(steps), Run(native, steps))
  {
    if steps != [] {
      var n := |steps| - 1;
      PendingIsAsUploaded(native, steps[..n]);
      StepAsUploaded(Uploads(steps[..n]), Run(native, steps[..n]), steps[n]);
    }
  }
}
