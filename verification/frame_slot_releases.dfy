/** Which dropped frames the release function is told of, while it is set and taken away at will. */
module FrameSlotReleases {
  import opened FrameSlot

  /** The ring before any operation, with or without a release function. */
  function Begin(on: bool): Slot { INIT.(releases := on) }

  /** The frames an operation drops, oldest first. */
  function Drops(s: Slot, op: Op): seq<nat> {
    var t := Do(s, op);
    if |s.lost| <= |t.lost| then t.lost[|s.lost|..] else []
  }

  /** Operation k drops frame n. */
  ghost predicate DroppedAt(on: bool, ops: seq<Op>, k: nat, n: nat)
    requires k < |ops|
  {
    n in Drops(Run(Begin(on), ops[..k]), ops[k])
  }

  /** A release function is set when operation k begins. */
  ghost predicate SetAt(on: bool, ops: seq<Op>, k: nat)
    requires k < |ops|
  {
    Run(Begin(on), ops[..k]).releases
  }

  /** The dropped frames that met a release function, in the order dropped. */
  ghost function Told(on: bool, ops: seq<Op>): seq<nat> {
    if ops == [] then []
    else
      var s := Run(Begin(on), ops[..|ops| - 1]);
      Told(on, ops[..|ops| - 1]) + if s.releases then Drops(s, ops[|ops| - 1]) else []
  }

  /** The entries published under these numbers. */
  ghost predicate EntriesOf(published: seq<Entry>, frames: seq<nat>, entries: seq<Entry>) {
    && |entries| == |frames|
    && forall i :: 0 <= i < |frames| ==> frames[i] < |published| && entries[i] == published[frames[i]]
  }

  /** The function was called with every dropped frame, in order, and with nothing else. */
  ghost predicate AllReleased(s: Slot) { EntriesOf(s.published, s.lost, s.released) }

  // ---------------------------------------------------------------- one operation

  /** From s to t the frames `more` were dropped, all of them new to the lost, and `entries` released. */
  ghost predicate Moves(s: Slot, t: Slot, more: seq<nat>, entries: seq<Entry>) {
    && t.lost == s.lost + more && t.released == s.released + entries && s.published <= t.published
    && EntriesOf(t.published, if s.releases then more else [], entries)
    && forall n :: n in more ==> n !in s.lost
  }

  function Numbers(from: nat, n: nat): (r: seq<nat>)
    ensures |r| == n && forall i :: 0 <= i < n ==> r[i] == from + i
  {
    if n == 0 then [] else Numbers(from, n - 1) + [from + n - 1]
  }

  lemma {:induction false} DropManyMoves(s: Slot, n: nat)
    requires n <= |s.window|
    ensures var t := DropMany(s, n);
            t.lost == s.lost + Numbers(Gone(s), n) &&
            t.released == s.released + if s.releases then s.window[..n] else []
  {
    if n > 0 {
      DropManyMoves(s, n - 1);
      assert s.window[..n] == s.window[..n - 1] + [s.window[n - 1]];
    }
  }

  /** How many of the oldest frames an operation drops. */
  function Dropping(s: Slot, op: Op): (n: nat)
    ensures n <= |s.window|
  {
    match op
    case Publish(e) => if e.frame != NULL && |s.window| == RING_SIZE then 1 else 0
    case Take => if s.window == [] then 0 else |s.window| - 1
    case Flush => |s.window|
    case _ => 0
  }

  /** What an operation passes to the release function. */
  function Hears(s: Slot, op: Op): seq<Entry> {
    if s.releases then s.window[..Dropping(s, op)] else []
  }

  lemma DoDrops(s: Slot, op: Op)
    ensures s.published <= Do(s, op).published
    ensures Do(s, op).lost == DropMany(s, Dropping(s, op)).lost
    ensures Do(s, op).released == DropMany(s, Dropping(s, op)).released
  {
    if s.window != [] { assert DropMany(s, 1) == Drop(DropMany(s, 0)); }
  }

  lemma OpDrops(s: Slot, op: Op)
    ensures var t, more := Do(s, op), Numbers(Gone(s), Dropping(s, op));
            && t.lost == s.lost + more && t.released == s.released + Hears(s, op)
            && s.published <= t.published && Drops(s, op) == more
  {
    DoDrops(s, op);
    DropManyMoves(s, Dropping(s, op));
  }

  lemma OpMoves(s: Slot, op: Op)
    requires Inv(s)
    ensures Moves(s, Do(s, op), Drops(s, op), Hears(s, op))
  {
    OpDrops(s, op);
    LostAreGone(s);
    HeardAreDropped(s, Do(s, op).published, Dropping(s, op));
  }

  lemma LostAreGone(s: Slot)
    requires Inv(s)
    ensures forall n :: n in s.lost ==> n < Gone(s)
  {
  }

  lemma HeardAreDropped(s: Slot, published: seq<Entry>, n: nat)
    requires Inv(s) && s.published <= published && n <= |s.window|
    ensures EntriesOf(published, Numbers(Gone(s), n), s.window[..n])
  {
    forall i | 0 <= i < n ensures published[Gone(s) + i] == s.window[i] {
      assert s.published[Gone(s)..][i] == s.published[Gone(s) + i];
    }
  }

  // ---------------------------------------------------------------- every run

  /** The last operation of a run. */
  lemma LastMoves(on: bool, ops: seq<Op>)
    requires ops != []
    ensures var n := |ops| - 1; var s := Run(Begin(on), ops[..n]);
            Moves(s, Run(Begin(on), ops), Drops(s, ops[n]), Hears(s, ops[n]))
  {
    var n := |ops| - 1;
    RunKeepsInv(Begin(on), ops[..n]);
    OpMoves(Run(Begin(on), ops[..n]), ops[n]);
  }

  lemma EntriesConcat(p: seq<Entry>, q: seq<Entry>, a: seq<nat>, x: seq<Entry>, b: seq<nat>, y: seq<Entry>)
    requires p <= q && EntriesOf(p, a, x) && EntriesOf(q, b, y)
    ensures EntriesOf(q, a + b, x + y)
  {
  }

  /** Over every run: what the function was called with are exactly the dropped frames that met one,
      in the order dropped. */
  lemma {:induction false} ReleasedAreTheTold(on: bool, ops: seq<Op>)
    ensures EntriesOf(Run(Begin(on), ops).published, Told(on, ops), Run(Begin(on), ops).released)
  {
    if ops != [] {
      var before, op := ops[..|ops| - 1], ops[|ops| - 1];
      var s, t := Run(Begin(on), before), Run(Begin(on), ops);
      ReleasedAreTheTold(on, before);
      LastMoves(on, ops);
      EntriesConcat(s.published, t.published, Told(on, before), s.released,
                    if s.releases then Drops(s, op) else [], Hears(s, op));
    }
  }

  /** The frames dropped so far, and those of them the function was told of. */
  ghost predicate ToldOk(told: seq<nat>, lost: seq<nat>) {
    |told| <= |lost| && forall n :: n in told ==> n in lost
  }

  lemma {:induction false} ToldWereDropped(on: bool, ops: seq<Op>)
    ensures ToldOk(Told(on, ops), Run(Begin(on), ops).lost)
  {
    if ops != [] {
      ToldWereDropped(on, ops[..|ops| - 1]);
      LastMoves(on, ops);
    }
  }

  lemma InConcat(a: seq<nat>, b: seq<nat>, n: nat)
    ensures n in a + b <==> n in a || n in b
  {
  }

  /** What the last operation does to a frame's being lost, and told of. */
  lemma LastTells(on: bool, ops: seq<Op>, n: nat)
    requires ops != []
    ensures var last := |ops| - 1; var before := ops[..last]; var s := Run(Begin(on), before);
            && (n in Run(Begin(on), ops).lost <==> n in s.lost || DroppedAt(on, ops, last, n))
            && (DroppedAt(on, ops, last, n) ==> n !in s.lost)
            && (n in Told(on, ops) <==> n in Told(on, before) || (SetAt(on, ops, last) && DroppedAt(on, ops, last, n)))
  {
    var last := |ops| - 1;
    var s := Run(Begin(on), ops[..last]);
    LastMoves(on, ops);
    InConcat(s.lost, Drops(s, ops[last]), n);
    InConcat(Told(on, ops[..last]), if s.releases then Drops(s, ops[last]) else [], n);
  }

  lemma SameBefore(on: bool, ops: seq<Op>, k: nat, n: nat)
    requires k < |ops| - 1
    ensures DroppedAt(on, ops[..|ops| - 1], k, n) <==> DroppedAt(on, ops, k, n)
    ensures SetAt(on, ops[..|ops| - 1], k) <==> SetAt(on, ops, k)
  {
    assert ops[..|ops| - 1][..k] == ops[..k];
  }

  lemma {:induction false} DroppedIsLost(on: bool, ops: seq<Op>, k: nat, n: nat)
    requires k < |ops| && DroppedAt(on, ops, k, n)
    ensures n in Run(Begin(on), ops).lost
  {
    LastTells(on, ops, n);
    if k < |ops| - 1 {
      SameBefore(on, ops, k, n);
      DroppedIsLost(on, ops[..|ops| - 1], k, n);
    }
  }

  /** Over every run, the function set and taken away at will: a frame the ring drops is handed to the
      release function if and only if one was set at the operation that dropped it. */
  lemma {:induction false} ToldIffSetWhenDropped(on: bool, ops: seq<Op>, k: nat, n: nat)
    requires k < |ops| && DroppedAt(on, ops, k, n)
    ensures n in Told(on, ops) <==> SetAt(on, ops, k)
  {
    var before := ops[..|ops| - 1];
    LastTells(on, ops, n);
    if k < |ops| - 1 {
      SameBefore(on, ops, k, n);
      ToldIffSetWhenDropped(on, before, k, n);
      DroppedIsLost(on, before, k, n);
    } else {
      ToldWereDropped(on, before);
    }
  }

  ghost predicate SetIfDropsAt(on: bool, ops: seq<Op>, k: nat)
    requires k < |ops|
  {
    Drops(Run(Begin(on), ops[..k]), ops[k]) != [] ==> SetAt(on, ops, k)
  }

  ghost predicate SetAtEveryDrop(on: bool, ops: seq<Op>) {
    forall k :: 0 <= k < |ops| ==> SetIfDropsAt(on, ops, k)
  }

  lemma SetIfDropsBefore(on: bool, ops: seq<Op>, k: nat)
    requires k < |ops| - 1 && SetIfDropsAt(on, ops, k)
    ensures SetIfDropsAt(on, ops[..|ops| - 1], k)
  {
    assert ops[..|ops| - 1][..k] == ops[..k];
  }

  lemma {:induction false} ToldAreAllIfSet(on: bool, ops: seq<Op>)
    requires SetAtEveryDrop(on, ops)
    ensures Told(on, ops) == Run(Begin(on), ops).lost
  {
    if ops != [] {
      var n := |ops| - 1;
      forall k | 0 <= k < n ensures SetIfDropsAt(on, ops[..n], k) { SetIfDropsBefore(on, ops, k); }
      ToldAreAllIfSet(on, ops[..n]);
      LastMoves(on, ops);
      assert SetIfDropsAt(on, ops, n);
    }
  }

  lemma {:induction false} AsManyToldAreAll(on: bool, ops: seq<Op>)
    requires |Told(on, ops)| == |Run(Begin(on), ops).lost|
    ensures Told(on, ops) == Run(Begin(on), ops).lost
  {
    if ops != [] {
      ToldWereDropped(on, ops[..|ops| - 1]);
      LastMoves(on, ops);
      AsManyToldAreAll(on, ops[..|ops| - 1]);
    }
  }

  /** Over every run: the function was called with every dropped frame, in order, and with nothing else,
      if and only if one was set at every operation that drops. */
  lemma AllReleasedIff(on: bool, ops: seq<Op>)
    ensures AllReleased(Run(Begin(on), ops)) <==> SetAtEveryDrop(on, ops)
  {
    ReleasedAreTheTold(on, ops);
    if SetAtEveryDrop(on, ops) { ToldAreAllIfSet(on, ops); }
    if AllReleased(Run(Begin(on), ops)) {
      AsManyToldAreAll(on, ops);
      forall k | 0 <= k < |ops| ensures SetIfDropsAt(on, ops, k) { SetIfToldOfAll(on, ops, k); }
    }
  }

  lemma SetIfToldOfAll(on: bool, ops: seq<Op>, k: nat)
    requires k < |ops| && Told(on, ops) == Run(Begin(on), ops).lost
    ensures SetIfDropsAt(on, ops, k)
  {
    var drops := Drops(Run(Begin(on), ops[..k]), ops[k]);
    if drops != [] {
      assert DroppedAt(on, ops, k, drops[0]);
      DroppedIsLost(on, ops, k, drops[0]);
      ToldIffSetWhenDropped(on, ops, k, drops[0]);
    }
  }

  /** So with one set throughout it hears of every drop. */
  lemma EveryDropIsReleased(ops: seq<Op>)
    requires forall k :: 0 <= k < |ops| ==> !ops[k].SetRelease?
    ensures AllReleased(Run(Begin(true), ops))
  {
    forall k | 0 <= k < |ops| ensures SetIfDropsAt(true, ops, k) { StaysSet(ops[..k]); }
    AllReleasedIff(true, ops);
  }

  lemma {:induction false} StaysSet(ops: seq<Op>)
    requires forall k :: 0 <= k < |ops| ==> !ops[k].SetRelease?
    ensures Run(Begin(true), ops).releases
  {
    if ops != [] { StaysSet(ops[..|ops| - 1]); }
  }

  // ---------------------------------------------------------------- a frame nobody hears of

  function FivePublishes(e: Entry): seq<Op> { [Publish(e), Publish(e), Publish(e), Publish(e), Publish(e)] }

  /** Five frames published to a ring without a release function: the first is dropped, and nobody told. */
  lemma AFullRingLosesAFrame(e: Entry)
    requires e.frame != NULL
    ensures var s := Run(Begin(false), FivePublishes(e)); s.lost == [0] && s.released == []
  {
    var ops := FivePublishes(e);
    KeepsTheLastFour(ops[..4]);
    RunKeepsInv(Begin(false), ops[..4]);
    NothingReleased(ops[..4]);
    var s := Run(Begin(false), ops[..4]);
    assert ops[4] == Publish(e) && Run(Begin(false), ops) == Do(s, Publish(e));
    assert s.lost == [] && |s.window| == RING_SIZE;
  }

  lemma {:induction false} NothingReleased(ops: seq<Op>)
    requires |ops| <= RING_SIZE && forall i :: 0 <= i < |ops| ==> ops[i].Publish? && ops[i].e.frame != NULL
    ensures var s := Run(Begin(false), ops);
            s.lost == [] && s.handed == [] && s.released == [] && !s.releases && |s.window| == |ops|
  {
    if ops != [] { NothingReleased(ops[..|ops| - 1]); }
  }
}
