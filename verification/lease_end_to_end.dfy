/** The lease protocol with the compositor's real pending arrays in place of its bag of sequences. */
module LeaseEndToEnd {
  import opened Counting
  import opened SourceWorker
  import opened SourceWorkerSafety
  import L = LeaseProtocol
  import P = PendingReleases
  import FrameSlot
  import opened Wrappers

  /** `taken[k]` is the sequence of the compositor's frame k + 1. */
  datatype Whole = Whole(sys: L.System, comp: P.Compositor, taken: seq<nat>)

  datatype Step =
    | Outside(outer: L.Step)                           // neither a take nor a release of the compositor's
    | Take(oldest: bool, upload: P.Upload)
    | Pass(inner: P.Step)                              // anything the compositor does but take

  /** The compositor releases its frame f. */
  function ReleaseOne(sys: L.System, taken: seq<nat>, f: nat): L.System {
    if 1 <= f <= |taken| then L.Do(sys, L.CompositorRelease(taken[f - 1])) else sys
  }

  function Forward(sys: L.System, taken: seq<nat>, frames: seq<nat>): L.System {
    if frames == [] then sys
    else ReleaseOne(Forward(sys, taken, frames[..|frames| - 1]), taken, frames[|frames| - 1])
  }

  /** The compositor makes a step; what it newly releases goes to the server. */
  function StepCompositor(w: Whole, step: P.Step): Whole {
    var c := P.Do(w.comp, step);
    var more := if |w.comp.released| <= |c.released| then c.released[|w.comp.released|..] else [];
    w.(comp := c, sys := Forward(w.sys, w.taken, more))
  }

  function TakeOp(oldest: bool): FrameSlot.Op { if oldest then FrameSlot.TakeOldest else FrameSlot.Take }

  function Do(w: Whole, step: Step): Whole {
    match step
    case Outside(s) =>
      if s.CompositorRelease? || (s.Ring? && !s.op.Flush?) then w else w.(sys := L.Do(w.sys, s))
    case Take(oldest, upload) =>
      var got := L.Taken(w.sys.slot, TakeOp(oldest));
      if got == [] then w
      else StepCompositor(w.(sys := L.Do(w.sys, L.Ring(TakeOp(oldest))), taken := w.taken + got), P.TakeFrame(upload))
    case Pass(s) => if s.TakeFrame? then w else StepCompositor(w, s)
  }

  function Run(native: bool, steps: seq<Step>): Whole {
    if steps == [] then Whole(L.INIT, P.Start(native), [])
    else Do(Run(native, steps[..|steps| - 1]), steps[|steps| - 1])
  }

  // ---------------------------------------------------------------- the bag and the arrays

  function Gone(sys: L.System): multiset<nat> { sys.acks + sys.arrived + sys.lost }

  /** The bag holds exactly the taken sequences whose frame is not among `done`; the others have been
      released. */
  ghost predicate Tied(bag: multiset<nat>, gone: multiset<nat>, taken: seq<nat>, done: seq<nat>) {
    && (forall j, k :: 0 <= j < k < |taken| ==> taken[j] != taken[k])
    && (forall k :: 0 <= k < |taken| ==> taken[k] in bag || taken[k] in gone)
    && (forall k :: 0 <= k < |taken| ==> (taken[k] in bag <==> Count(done, k + 1) == 0))
    && (forall n :: n in bag ==> n in taken)
  }

  ghost predicate WholeInv(w: Whole) {
    && L.Reachable(w.sys) && P.Inv(w.comp) && w.comp.next == |w.taken| + 1
    && Tied(w.sys.compositor, Gone(w.sys), w.taken, w.comp.released)
  }

  lemma ReachNext(s: L.System, step: L.Step)
    requires L.Reachable(s)
    ensures L.Reachable(L.Do(s, step))
  {
    var steps :| L.Reaches(steps, s);
    assert (steps + [step])[..|steps|] == steps;
    assert L.Reaches(steps + [step], L.Do(s, step));
  }

  lemma TiedRelease(bag: multiset<nat>, gone: multiset<nat>, taken: seq<nat>, done: seq<nat>, f: nat)
    requires Tied(bag, gone, taken, done) && 1 <= f <= |taken| && Count(done, f) == 0 && bag[taken[f - 1]] <= 1
    ensures taken[f - 1] in bag
    ensures Tied(bag - multiset{taken[f - 1]}, gone + multiset{taken[f - 1]}, taken, done + [f])
  {
    var n := taken[f - 1];
    var less := bag - multiset{n};
    forall k | 0 <= k < |taken| ensures taken[k] in less <==> Count(done + [f], k + 1) == 0 {
      CountPush(done, f, k + 1);
      assert k != f - 1 ==> taken[k] != n;
    }
  }

  lemma InBagOnce(sys: L.System, n: nat)
    requires L.Reachable(sys)
    ensures sys.compositor[n] <= 1
  {
    L.EverySequenceInOnePlace(sys, n);
  }

  lemma ReleaseOneIs(sys: L.System, taken: seq<nat>, f: nat)
    requires 1 <= f <= |taken| && taken[f - 1] in sys.compositor
    ensures var t, n := ReleaseOne(sys, taken, f), taken[f - 1];
            && t == sys.(compositor := sys.compositor - multiset{n}, acks := sys.acks + multiset{n})
            && Gone(t) == Gone(sys) + multiset{n}
  {
  }

  /** A frame released for the first time is in the bag, and goes from there to the acknowledgements. */
  lemma ReleaseOneMoves(sys: L.System, taken: seq<nat>, done: seq<nat>, f: nat)
    requires L.Reachable(sys) && Tied(sys.compositor, Gone(sys), taken, done)
    requires 1 <= f <= |taken| && Count(done, f) == 0
    ensures var t, n := ReleaseOne(sys, taken, f), taken[f - 1];
            && n in sys.compositor
            && t == sys.(compositor := sys.compositor - multiset{n}, acks := sys.acks + multiset{n})
            && Tied(t.compositor, Gone(t), taken, done + [f])
  {
    InBagOnce(sys, taken[f - 1]);
    TiedRelease(sys.compositor, Gone(sys), taken, done, f);
    ReleaseOneIs(sys, taken, f);
  }

  ghost predicate OnceEach(frames: seq<nat>, last: nat) {
    forall f: nat :: Count(frames, f) <= One(1 <= f <= last)
  }

  lemma OnceBefore(before: seq<nat>, f: nat, last: nat)
    requires OnceEach(before + [f], last)
    ensures OnceEach(before, last) && 1 <= f <= last && Count(before, f) == 0
  {
    forall g: nat ensures Count(before, g) <= One(1 <= g <= last) { CountPush(before, f, g); }
    CountPush(before, f, f);
    assert Count(before + [f], f) <= One(1 <= f <= last);
  }

  ghost predicate TiedSystem(sys: L.System, taken: seq<nat>, done: seq<nat>) {
    L.Reachable(sys) && Tied(sys.compositor, Gone(sys), taken, done)
  }

  lemma {:induction false} ForwardKeepsTied(sys: L.System, taken: seq<nat>, done: seq<nat>, more: seq<nat>)
    requires TiedSystem(sys, taken, done) && OnceEach(done + more, |taken|)
    ensures TiedSystem(Forward(sys, taken, more), taken, done + more)
  {
    if more == [] {
      assert done + more == done && Forward(sys, taken, more) == sys;
    } else {
      var n := |more| - 1;
      var u, before, f := Forward(sys, taken, more[..n]), done + more[..n], more[n];
      assert before + [f] == done + more;
      OnceBefore(before, f, |taken|);
      ForwardKeepsTied(sys, taken, done, more[..n]);
      ForwardOne(u, taken, before, f);
      ForwardLast(sys, taken, more);
    }
  }

  lemma ForwardLast(sys: L.System, taken: seq<nat>, more: seq<nat>)
    requires more != []
    ensures var n := |more| - 1; Forward(sys, taken, more) == ReleaseOne(Forward(sys, taken, more[..n]), taken, more[n])
  {
  }

  lemma ForwardOne(sys: L.System, taken: seq<nat>, done: seq<nat>, f: nat)
    requires TiedSystem(sys, taken, done) && 1 <= f <= |taken| && Count(done, f) == 0
    ensures TiedSystem(ReleaseOne(sys, taken, f), taken, done + [f])
  {
    ReleaseOneMoves(sys, taken, done, f);
    ReachNext(sys, L.CompositorRelease(taken[f - 1]));
  }

  // ---------------------------------------------------------------- every step

  lemma ReleasedGrows(c: P.Compositor, step: P.Step)
    ensures |c.released| <= |P.Do(c, step).released| && P.Do(c, step).released[..|c.released|] == c.released
  {
    if step.Stop? { DrainAllGrows(c, |c.rows|); }
  }

  lemma {:induction false} DrainAllGrows(c: P.Compositor, n: nat)
    ensures var t := P.DrainAll(c, n); |c.released| <= |t.released| && t.released[..|c.released|] == c.released
  {
    if n > 0 { DrainAllGrows(c, n - 1); }
  }

  lemma NextGrows(c: P.Compositor, step: P.Step)
    ensures P.Do(c, step).next == c.next + One(step.TakeFrame?)
  {
    if step.Stop? { DrainAllNext(c, |c.rows|); }
  }

  lemma {:induction false} DrainAllNext(c: P.Compositor, n: nat)
    ensures P.DrainAll(c, n).next == c.next
  {
    if n > 0 { DrainAllNext(c, n - 1); }
  }

  lemma StepCompositorKeeps(w: Whole, step: P.Step)
    requires L.Reachable(w.sys) && P.Inv(w.comp) && Tied(w.sys.compositor, Gone(w.sys), w.taken, w.comp.released)
    requires |w.taken| + 1 == w.comp.next + One(step.TakeFrame?)
    ensures WholeInv(StepCompositor(w, step))
  {
    var c, done := P.Do(w.comp, step), w.comp.released;
    P.DoKeepsInv(w.comp, step);
    ReleasedGrows(w.comp, step);
    NextGrows(w.comp, step);
    var more := c.released[|done|..];
    assert c.released == done + more;
    forall f: nat ensures Count(c.released, f) <= One(1 <= f <= |w.taken|) {
      assert P.Copies(c, f) == One(1 <= f < c.next);
    }
    ForwardKeepsTied(w.sys, w.taken, done, more);
  }

  /** What is not the compositor's leaves its bag alone and forgets no sequence behind it. */
  lemma OutsideLeavesBag(s: L.System, step: L.Step)
    requires !step.CompositorRelease? && (step.Ring? ==> step.op.Flush?)
    ensures var t := L.Do(s, step); t.compositor == s.compositor && Gone(s) <= Gone(t)
  {
    match step
    case Receive(timestamp) =>
      if s.video != [] {
        RingLeavesBag(s.(video := s.video[1..]), FrameSlot.Publish(L.Object(s.video[0], timestamp)));
      }
    case Ring(op) => RingLeavesBag(s, op);
    case WorkerStep(e) =>
    case _ => MessageLeavesBag(s, step);
  }

  lemma MessageLeavesBag(s: L.System, step: L.Step)
    requires step.VideoLost? || step.AckArrives? || step.AckLost?
    ensures var t := L.Do(s, step); t.compositor == s.compositor && Gone(s) <= Gone(t)
  {
  }

  lemma RingLeavesBag(s: L.System, op: FrameSlot.Op)
    requires op.Publish? || op.Flush?
    ensures var t := L.OnRing(s, op); t.compositor == s.compositor && Gone(s) <= Gone(t)
  {
  }

  lemma TiedGrows(bag: multiset<nat>, gone: multiset<nat>, more: multiset<nat>, taken: seq<nat>, done: seq<nat>)
    requires Tied(bag, gone, taken, done) && gone <= more
    ensures Tied(bag, more, taken, done)
  {
    forall n | n in gone ensures n in more { assert gone[n] <= more[n]; }
  }

  lemma TiedTake(bag: multiset<nat>, gone: multiset<nat>, taken: seq<nat>, done: seq<nat>, n: nat)
    requires Tied(bag, gone, taken, done) && n !in bag && n !in gone && Count(done, |taken| + 1) == 0
    ensures Tied(bag + multiset{n}, gone, taken + [n], done)
  {
    var more := taken + [n];
    forall k | 0 <= k < |taken| ensures more[k] == taken[k] && taken[k] != n {}
    assert more[|taken|] == n;
  }

  lemma RingTakes(s: L.System, oldest: bool)
    requires L.Taken(s.slot, TakeOp(oldest)) != []
    ensures var got, t := L.Taken(s.slot, TakeOp(oldest)), L.Do(s, L.Ring(TakeOp(oldest)));
            && got == [got[0]] && got[0] in L.Sequences(s.slot.window)
            && t.compositor == s.compositor + multiset{got[0]} && Gone(s) <= Gone(t)
  {
    var got := L.Taken(s.slot, TakeOp(oldest));
    var i := if oldest then 0 else |s.slot.window| - 1;
    assert L.Sequences(s.slot.window)[i] == got[0];
  }

  lemma InRingIsNotBehind(s: L.System, n: nat)
    requires L.Reachable(s) && n in L.Sequences(s.slot.window)
    ensures n !in s.compositor && n !in Gone(s)
  {
    L.EverySequenceInOnePlace(s, n);
    assert multiset(L.Sequences(s.slot.window))[n] > 0;
  }

  /** A sequence taken from the ring was never taken before. */
  lemma TakeKeepsTied(w: Whole, oldest: bool)
    requires WholeInv(w) && L.Taken(w.sys.slot, TakeOp(oldest)) != []
    ensures var got, t := L.Taken(w.sys.slot, TakeOp(oldest)), L.Do(w.sys, L.Ring(TakeOp(oldest)));
            |got| == 1 && Tied(t.compositor, Gone(t), w.taken + got, w.comp.released)
  {
    var s, got, t := w.sys, L.Taken(w.sys.slot, TakeOp(oldest)), L.Do(w.sys, L.Ring(TakeOp(oldest)));
    RingTakes(s, oldest);
    InRingIsNotBehind(s, got[0]);
    NextIsUnreleased(w.comp);
    TiedTake(s.compositor, Gone(s), w.taken, w.comp.released, got[0]);
    TiedGrows(t.compositor, Gone(s), Gone(t), w.taken + got, w.comp.released);
  }

  lemma NextIsUnreleased(c: P.Compositor)
    requires P.Inv(c)
    ensures Count(c.released, c.next) == 0
  {
    assert P.Copies(c, c.next) == 0;
  }

  lemma DoKeeps(w: Whole, step: Step)
    requires WholeInv(w)
    ensures WholeInv(Do(w, step))
  {
    match step
    case Outside(s) =>
      if !(s.CompositorRelease? || (s.Ring? && !s.op.Flush?)) {
        OutsideLeavesBag(w.sys, s);
        TiedGrows(w.sys.compositor, Gone(w.sys), Gone(L.Do(w.sys, s)), w.taken, w.comp.released);
        ReachNext(w.sys, s);
      }
    case Take(oldest, upload) =>
      var got := L.Taken(w.sys.slot, TakeOp(oldest));
      if got != [] {
        TakeKeepsTied(w, oldest);
        ReachNext(w.sys, L.Ring(TakeOp(oldest)));
        var next := L.Do(w.sys, L.Ring(TakeOp(oldest)));
        StepCompositorKeeps(w.(sys := next, taken := w.taken + got), P.TakeFrame(upload));
      }
    case Pass(s) => if !s.TakeFrame? { StepCompositorKeeps(w, s); }
  }

  lemma {:induction false} RunKeeps(native: bool, steps: seq<Step>)
    ensures WholeInv(Run(native, steps))
  {
    if steps == [] {
      assert L.Reaches([], L.INIT);
      P.StartIsInv(native);
    } else {
      RunKeeps(native, steps[..|steps| - 1]);
      DoKeeps(Run(native, steps[..|steps| - 1]), steps[|steps| - 1]);
    }
  }

  /** Both machines move in every step: the protocol in one outside the compositor, both in a take, which
      notes the sequence taken, and the arrays in any other of the compositor's. */
  lemma BothMachinesMove(w: Whole, outer: L.Step, oldest: bool, upload: P.Upload, inner: P.Step)
    ensures !outer.CompositorRelease? && (outer.Ring? ==> outer.op.Flush?) ==>
              Do(w, Outside(outer)).sys == L.Do(w.sys, outer)
    ensures w.sys.slot.window != [] ==>
              var t, n := Do(w, Take(oldest, upload)), |w.sys.slot.window|;
              && t.comp == P.Do(w.comp, P.TakeFrame(upload))
              && t.taken == w.taken + [L.SequenceOf(w.sys.slot.window[if oldest then 0 else n - 1])]
    ensures !inner.TakeFrame? ==> Do(w, Pass(inner)).comp == P.Do(w.comp, inner)
  {
  }

  // ---------------------------------------------------------------- main results

  ghost predicate Reachable(w: Whole) {
    exists native, steps :: Reaches(native, steps, w)
  }

  ghost predicate Reaches(native: bool, steps: seq<Step>, w: Whole) {
    w == Run(native, steps)
  }

  lemma ReachableIsInv(w: Whole)
    requires Reachable(w)
    ensures WholeInv(w)
  {
    var native, steps :| Reaches(native, steps, w);
    RunKeeps(native, steps);
  }

  predicate Pending(c: P.Compositor, f: nat) { P.CountRows(c.rows, f) + P.CountItems(c.batch, f) > 0 }

  /** Over every run: the protocol's bag holds exactly the sequences of the frames in the compositor's
      arrays, each taken once and each in one place there. */
  lemma BagIsWhatTheArraysHold(w: Whole, k: nat)
    requires Reachable(w) && k < |w.taken|
    ensures w.taken[k] in w.sys.compositor <==> Pending(w.comp, k + 1)
    ensures w.sys.compositor[w.taken[k]] <= 1
    ensures forall n :: n in w.sys.compositor ==> n in w.taken
    ensures L.Reachable(w.sys)
  {
    ReachableIsInv(w);
    assert P.Copies(w.comp, k + 1) == 1;
    L.EverySequenceInOnePlace(w.sys, w.taken[k]);
  }

  /** Over every run, with the real arrays: while one of them still holds a frame, the worker's lease
      of that frame stands, unless the device context it came from is gone. */
  lemma LentWhilePending(w: Whole, k: nat, f: nat)
    requires Reachable(w) && k < |w.taken| && Pending(w.comp, k + 1)
    requires f < |w.sys.worker.frames| && w.sys.worker.frames[f].sent == Some(w.taken[k])
    requires w.sys.worker.frames[f].owner == w.sys.worker.ctx
    ensures w.sys.worker.frames[f].handedTo == [] && Leased(w.sys.worker, f)
  {
    BagIsWhatTheArraysHold(w, k);
    L.BackExactlyWhenAcknowledged(w.sys, f);
  }

  /** Once the compositor has stopped between passes, each sequence it ever took is in an
      acknowledgement under way, acknowledged or lost. */
  lemma NothingKeptAtStop(w: Whole, k: nat)
    requires Reachable(w) && w.comp.batch == [] && k < |w.taken|
    ensures var s, n := StepCompositor(w, P.Stop).sys, w.taken[k];
            n !in s.compositor && (n in s.acks || n in s.arrived || n in s.lost)
  {
    ReachableIsInv(w);
    StopKeeps(w, StepCompositor(w, P.Stop), k);
    StoppedIsGone(StepCompositor(w, P.Stop), k);
  }

  lemma StopKeeps(w: Whole, t: Whole, k: nat)
    requires WholeInv(w) && t == StepCompositor(w, P.Stop) && w.comp.batch == [] && k < |w.taken|
    ensures WholeInv(t) && t.taken == w.taken && Count(t.comp.released, k + 1) == 1
  {
    StepCompositorKeeps(w, P.Stop);
    P.StopReleasesAll(w.comp, k + 1);
  }

  lemma StoppedIsGone(t: Whole, k: nat)
    requires WholeInv(t) && k < |t.taken| && Count(t.comp.released, k + 1) == 1
    ensures var s, n := t.sys, t.taken[k]; n !in s.compositor && (n in s.acks || n in s.arrived || n in s.lost)
  {
    ReleasedIsGone(t.sys, t.taken, t.comp.released, k);
  }

  lemma ReleasedIsGone(s: L.System, taken: seq<nat>, done: seq<nat>, k: nat)
    requires Tied(s.compositor, Gone(s), taken, done) && k < |taken| && Count(done, k + 1) == 1
    ensures var n := taken[k]; n !in s.compositor && (n in s.acks || n in s.arrived || n in s.lost)
  {
    assert taken[k] in Gone(s);
  }
}
