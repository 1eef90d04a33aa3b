/** The four-deep ring between the thread that receives a source's frames and the compositor:
    a full ring drops its oldest frame. */
module FrameSlot {
  import opened Counting

  const RING_SIZE: nat := 4

  type Ptr = nat
  const NULL: Ptr := 0

  datatype Entry = Entry(frame: Ptr, timestamp: nat)
  const EMPTY := Entry(NULL, 0)

  // ---------------------------------------------------------------- what the ring means

  /** Frames are named by the number of their publication, from 0. */
  datatype Slot = Slot(
    window: seq<Entry>,         // what the ring holds, oldest first
    releases: bool,             // whether a release function is set
    released: seq<Entry>,       // what it was called with
    published: seq<Entry>,      // everything ever published, in order
    handed: seq<nat>,           // taken by a consumer, in the order taken
    lost: seq<nat>)             // dropped, in the order dropped

  /** How many frames have left the ring: the name of the oldest one held. */
  function Gone(s: Slot): nat { |s.handed| + |s.lost| }

  function Append(s: Slot, e: Entry): Slot {
    s.(window := s.window + [e], published := s.published + [e])
  }

  /** The oldest frame leaves the ring, dropped or handed out. */
  function Drop(s: Slot): Slot
    requires s.window != []
  {
    s.(window := s.window[1..], lost := s.lost + [Gone(s)],
       released := if s.releases then s.released + [s.window[0]] else s.released)
  }

  function Hand(s: Slot): Slot
    requires s.window != []
  {
    s.(window := s.window[1..], handed := s.handed + [Gone(s)])
  }

  /** The n oldest frames are dropped, oldest first. */
  function DropMany(s: Slot, n: nat): (t: Slot)
    requires n <= |s.window|
    ensures t.window == s.window[n..] && |t.lost| == |s.lost| + n
    ensures t.handed == s.handed && t.published == s.published && t.releases == s.releases
  {
    if n == 0 then s else Drop(DropMany(s, n - 1))
  }

  datatype Op = Publish(e: Entry) | Take | TakeOldest | Flush | SetRelease(on: bool)

  function Do(s: Slot, op: Op): Slot {
    match op
    case Publish(e) =>
      if e.frame == NULL then s
      else Append(if |s.window| == RING_SIZE then Drop(s) else s, e)
    case Take => if s.window == [] then s else Hand(DropMany(s, |s.window| - 1))
    case TakeOldest => if s.window == [] then s else Hand(s)
    case Flush => DropMany(s, |s.window|)
    case SetRelease(on) => s.(releases := on)
  }

  const INIT := Slot([], false, [], [], [], [])

  function Run(s: Slot, ops: seq<Op>): Slot {
    if ops == [] then s else Do(Run(s, ops[..|ops| - 1]), ops[|ops| - 1])
  }

  ghost predicate Inv(s: Slot) {
    && |s.window| <= RING_SIZE
    && Gone(s) <= |s.published| && s.window == s.published[Gone(s)..]
    && Increasing(s.handed) && Increasing(s.lost)
    && (forall n :: n in s.handed || n in s.lost <==> 0 <= n < Gone(s))
    && (forall n :: !(n in s.handed && n in s.lost))
  }

  lemma LeavingKeepsInv(s: Slot)
    requires Inv(s) && s.window != []
    ensures Inv(Drop(s)) && Inv(Hand(s))
  {
    assert forall i :: 0 <= i < |s.lost| ==> s.lost[i] in s.lost;
    assert forall i :: 0 <= i < |s.handed| ==> s.handed[i] in s.handed;
  }

  lemma AppendKeepsInv(s: Slot, e: Entry)
    requires Inv(s) && |s.window| < RING_SIZE
    ensures Inv(Append(s, e))
  {
  }

  lemma {:induction false} DropManyKeepsInv(s: Slot, n: nat)
    requires Inv(s) && n <= |s.window|
    ensures Inv(DropMany(s, n))
  {
    if n > 0 {
      DropManyKeepsInv(s, n - 1);
      LeavingKeepsInv(DropMany(s, n - 1));
    }
  }

  lemma DoKeepsInv(s: Slot, op: Op)
    requires Inv(s)
    ensures Inv(Do(s, op))
  {
    match op
    case Publish(e) =>
      if |s.window| == RING_SIZE { LeavingKeepsInv(s); }
      if e.frame != NULL { AppendKeepsInv(if |s.window| == RING_SIZE then Drop(s) else s, e); }
    case Take =>
      if s.window != [] {
        DropManyKeepsInv(s, |s.window| - 1);
        LeavingKeepsInv(DropMany(s, |s.window| - 1));
      }
    case TakeOldest => if s.window != [] { LeavingKeepsInv(s); }
    case Flush => DropManyKeepsInv(s, |s.window|);
    case SetRelease(_) =>
  }

  /** After any sequence of operations: the ring holds the newest frames published, every other
      frame was handed out or dropped, exactly one of these, and what any mix of take and
      take_oldest hands out is in strictly increasing publication order. */
  lemma EveryFrameHasOneFate(s: Slot)
    requires Reachable(s)
    ensures |s.window| <= RING_SIZE && Gone(s) <= |s.published| && s.window == s.published[Gone(s)..]
    ensures |s.published| == |s.handed| + |s.lost| + |s.window|
    ensures Increasing(s.handed) && Increasing(s.lost)
    ensures forall n :: 0 <= n < Gone(s) <==> n in s.handed || n in s.lost
    ensures forall n :: !(n in s.handed && n in s.lost)
  {
    var ops :| Reaches(ops, s);
    RunKeepsInv(INIT, ops);
  }

  ghost predicate Reachable(s: Slot) {
    exists ops :: Reaches(ops, s)
  }

  ghost predicate Reaches(ops: seq<Op>, s: Slot) {
    s == Run(INIT, ops)
  }

  lemma {:induction false} RunKeepsInv(s: Slot, ops: seq<Op>)
    requires Inv(s)
    ensures Inv(Run(s, ops))
  {
    if ops != [] {
      RunKeepsInv(s, ops[..|ops| - 1]);
      DoKeepsInv(Run(s, ops[..|ops| - 1]), ops[|ops| - 1]);
    }
  }

  lemma AllAccountedFor(s: Slot)
    requires Reachable(s)
    ensures |s.published| == |s.handed| + |s.lost| + |s.window|
  {
    EveryFrameHasOneFate(s);
  }

  lemma HandsOutTheLast(s: Slot, d: Slot, n: nat, t: Slot)
    requires s.window != [] && n == |s.window| - 1 && d == DropMany(s, n) && t == Do(s, Take)
    ensures t.handed == s.handed + [|s.handed| + |s.lost| + n] && t.window == [] && |t.lost| == |s.lost| + n
  {
    assert d.window == s.window[n..];
    assert t == Hand(d);
  }

  /** In every state a run can reach: take hands out the newest frame held, by its number, and drops the
      others; there is nothing to take from an empty ring. */
  lemma TakeHandsOutTheNewest(s: Slot, t: Slot)
    requires Reachable(s) && t == Do(s, Take)
    ensures s.window == [] ==> t == s
    ensures s.window != [] ==> t.handed == s.handed + [|s.published| - 1]
    ensures s.window != [] ==> t.window == [] && |t.lost| == |s.lost| + |s.window| - 1
  {
    AllAccountedFor(s);
    if s.window != [] { HandsOutTheLast(s, DropMany(s, |s.window| - 1), |s.window| - 1, t); }
  }

  /** take_oldest hands out the oldest and leaves the others. */
  lemma TakeOldestLeavesTheRest(s: Slot, t: Slot)
    requires Reachable(s) && t == Do(s, TakeOldest)
    ensures s.window == [] ==> t == s
    ensures s.window != [] ==> t.handed == s.handed + [|s.published| - |s.window|]
    ensures s.window != [] ==> t.window == s.window[1..] && t.lost == s.lost
  {
    AllAccountedFor(s);
  }

  /** flush drops every frame held and hands out none. */
  lemma FlushDropsAll(s: Slot)
    ensures var t := Do(s, Flush); t.handed == s.handed && t.window == [] && |t.lost| == |s.lost| + |s.window|
  {
  }

  /** Publishing adds the frame at the new end, and drops the oldest only if four are held; NULL is not
      published.  Setting the release function moves no frame. */
  lemma PublishAppends(s: Slot, e: Entry, on: bool)
    ensures var t, full := Do(s, Publish(e)), |s.window| == 4;
            if e.frame == NULL then t == s
            else && t.published == s.published + [e] && t.handed == s.handed
                 && t.window == (if full then s.window[1..] else s.window) + [e]
                 && |t.lost| == |s.lost| + if full then 1 else 0
    ensures Do(s, SetRelease(on)) == s.(releases := on)
  {
  }

  ghost predicate HoldsTheLast(s: Slot, ops: seq<Op>) {
    && |s.published| == |ops| && (forall i :: 0 <= i < |ops| ==> ops[i].Publish? && s.published[i] == ops[i].e)
    && |s.window| == (if |ops| <= RING_SIZE then |ops| else RING_SIZE)
    && forall i :: 0 <= i < |s.window| ==> ops[|ops| - |s.window| + i].Publish? &&
                                           s.window[i] == ops[|ops| - |s.window| + i].e
  }

  lemma PublishHoldsTheLast(s: Slot, ops: seq<Op>, e: Entry)
    requires HoldsTheLast(s, ops) && e.frame != NULL
    ensures HoldsTheLast(Do(s, Publish(e)), ops + [Publish(e)])
  {
  }

  /** A ring nobody reads from keeps the last four frames. */
  lemma {:induction false} KeepsTheLastFour(ops: seq<Op>)
    requires forall i :: 0 <= i < |ops| ==> ops[i].Publish? && ops[i].e.frame != NULL
    ensures var s := Run(INIT, ops);
            |s.published| == |ops| && (forall i :: 0 <= i < |ops| ==> s.published[i] == ops[i].e)
            && |s.window| == (if |ops| <= RING_SIZE then |ops| else RING_SIZE)
            && forall i :: 0 <= i < |s.window| ==> s.window[i] == ops[|ops| - |s.window| + i].e
  {
    PublishesHoldTheLast(ops);
  }

  lemma {:induction false} PublishesHoldTheLast(ops: seq<Op>)
    requires forall i :: 0 <= i < |ops| ==> ops[i].Publish? && ops[i].e.frame != NULL
    ensures HoldsTheLast(Run(INIT, ops), ops)
  {
    if ops != [] {
      var n := |ops| - 1;
      PublishesHoldTheLast(ops[..n]);
      PublishHoldsTheLast(Run(INIT, ops[..n]), ops[..n], ops[n].e);
      assert ops[..n] + [Publish(ops[n].e)] == ops;
    }
  }

  // ---------------------------------------------------------------- how a window lies in the array

  /** Where the frame n places after the head lies. */
  function Index(head: nat, n: nat): (i: nat)
    requires head < RING_SIZE && n <= RING_SIZE
    ensures i == if head + n < RING_SIZE then head + n else head + n - RING_SIZE
  {
    (head + n) % RING_SIZE
  }

  const BLANK: seq<Entry> := [EMPTY, EMPTY, EMPTY, EMPTY]

  /** The array of a ring whose window w starts at the head; NULL everywhere else. */
  ghost function Layout(w: seq<Entry>, head: nat): (a: seq<Entry>)
    requires head < RING_SIZE && |w| <= RING_SIZE
    ensures |a| == RING_SIZE
  {
    if w == [] then BLANK
    else Layout(w[..|w| - 1], head)[Index(head, |w| - 1) := w[|w| - 1]]
  }

  lemma LayoutAppend(w: seq<Entry>, head: nat, e: Entry)
    requires head < RING_SIZE && |w| < RING_SIZE
    ensures Layout(w, head)[Index(head, |w|) := e] == Layout(w + [e], head)
  {
    assert (w + [e])[..|w|] == w;
  }

  lemma {:induction false} LayoutAt(w: seq<Entry>, head: nat, n: nat)
    requires head < RING_SIZE && n < RING_SIZE && |w| <= RING_SIZE
    ensures Layout(w, head)[Index(head, n)] == if n < |w| then w[n] else EMPTY
  {
    if w != [] { LayoutAt(w[..|w| - 1], head, n); }
  }

  lemma SameLayout(a: seq<Entry>, w: seq<Entry>, head: nat)
    requires |a| == RING_SIZE && head < RING_SIZE && |w| <= RING_SIZE
    requires forall n :: 0 <= n < RING_SIZE ==> a[Index(head, n)] == if n < |w| then w[n] else EMPTY
    ensures a == Layout(w, head)
  {
    forall i | 0 <= i < RING_SIZE ensures a[i] == Layout(w, head)[i] {
      var n := if i >= head then i - head else i + RING_SIZE - head;
      assert Index(head, n) == i;
      LayoutAt(w, head, n);
    }
  }

  lemma LayoutDropFirst(w: seq<Entry>, head: nat)
    requires head < RING_SIZE && 0 < |w| <= RING_SIZE
    ensures Layout(w, head)[head] == w[0]
    ensures Layout(w, head)[head := EMPTY] == Layout(w[1..], Index(head, 1))
  {
    var a := Layout(w, head)[head := EMPTY];
    forall n | 0 <= n < RING_SIZE ensures a[Index(Index(head, 1), n)] == if n < |w| - 1 then w[n + 1] else EMPTY {
      DropFirstAt(w, head, n);
    }
    LayoutAt(w, head, 0);
    SameLayout(a, w[1..], Index(head, 1));
  }

  lemma DropFirstAt(w: seq<Entry>, head: nat, n: nat)
    requires head < RING_SIZE && 0 < |w| <= RING_SIZE && n < RING_SIZE
    ensures Layout(w, head)[head := EMPTY][Index(Index(head, 1), n)] == if n < |w| - 1 then w[n + 1] else EMPTY
  {
    if n + 1 < RING_SIZE {
      LayoutAt(w, head, n + 1);
      assert Index(Index(head, 1), n) == Index(head, n + 1) != head;
    } else {
      assert Index(Index(head, 1), n) == head;
    }
  }

  lemma LayoutUpdate(w: seq<Entry>, head: nat, n: nat, e: Entry)
    requires head < RING_SIZE && n < |w| <= RING_SIZE
    ensures Layout(w, head)[Index(head, n)] == w[n]
    ensures Layout(w, head)[Index(head, n) := e] == Layout(w[n := e], head)
  {
    var a := Layout(w, head)[Index(head, n) := e];
    forall k | 0 <= k < RING_SIZE ensures a[Index(head, k)] == if k < |w| then w[n := e][k] else EMPTY {
      LayoutAt(w, head, k);
    }
    LayoutAt(w, head, n);
    SameLayout(a, w[n := e], head);
  }

  lemma LayoutBlank(w: seq<Entry>, head: nat)
    requires head < RING_SIZE && |w| <= RING_SIZE && forall i :: 0 <= i < |w| ==> w[i] == EMPTY
    ensures Layout(w, head) == BLANK == Layout([], 0)
  {
    SameLayout(BLANK, w, head);
  }

  /** w with its first n entries cleared. */
  ghost function Blanked(w: seq<Entry>, n: nat): (b: seq<Entry>)
    requires n <= |w|
    ensures |b| == |w|
    ensures forall i :: 0 <= i < |w| ==> b[i] == if i < n then EMPTY else w[i]
  {
    if n == 0 then w else Blanked(w, n - 1)[n - 1 := EMPTY]
  }

  /** Clearing the last entry of a window whose others are cleared empties the array. */
  lemma ClearLast(w: seq<Entry>, head: nat)
    requires head < RING_SIZE && 0 < |w| <= RING_SIZE
    ensures var a, i := Layout(Blanked(w, |w| - 1), head), Index(head, |w| - 1);
            a[i] == w[|w| - 1] && a[i := EMPTY] == Layout([], 0)
  {
    LayoutUpdate(Blanked(w, |w| - 1), head, |w| - 1, EMPTY);
    LayoutBlank(Blanked(w, |w|), head);
  }

  // ---------------------------------------------------------------- the ring as it is stored

  class Ring {
    var entries: array<Entry>
    var head: nat
    var count: nat
    var releases: bool
    var released: seq<Entry>
    var produced: nat
    var dropped: nat
    var consumed: nat
    ghost var meaning: Slot

    ghost predicate Valid()
      reads this, entries
    {
      && entries.Length == RING_SIZE && head < RING_SIZE && count == |meaning.window| <= RING_SIZE
      && entries[..] == Layout(meaning.window, head)
      && (forall i :: 0 <= i < count ==> meaning.window[i].frame != NULL)
      && Books()
    }

    ghost predicate Books()
      reads this
    {
      && releases == meaning.releases && released == meaning.released
      && produced == |meaning.published| && dropped == |meaning.lost| && consumed == |meaning.handed|
    }

    constructor ()
      ensures Valid() && meaning == INIT && fresh(entries)
    {
      entries := new Entry[RING_SIZE](_ => EMPTY);
      head, count, releases, released := 0, 0, false, [];
      produced, dropped, consumed, meaning := 0, 0, 0, INIT;
      new;
      assert entries[..] == BLANK;
    }

    method SetReleaseFunction(on: bool)
      requires Valid()
      modifies this
      ensures Valid() && entries == old(entries) && meaning == Do(old(meaning), SetRelease(on))
    {
      releases := on;
      meaning := Do(meaning, SetRelease(on));
    }

    method ReleaseFrame(e: Entry)
      modifies `released
      ensures released == if e.frame != NULL && releases then old(released) + [e] else old(released)
    {
      if e.frame != NULL && releases { released := released + [e]; }
    }

    method ClearEntry(idx: nat)
      requires entries.Length == RING_SIZE && idx < RING_SIZE && entries[idx].frame != NULL
      modifies `released, `dropped, entries
      ensures released == if releases then old(released) + [old(entries[idx])] else old(released)
      ensures dropped == old(dropped) + 1 && entries[..] == old(entries[..])[idx := EMPTY]
    {
      var e := entries[idx];
      entries[idx] := EMPTY;
      ReleaseFrame(e);
      dropped := dropped + 1;
    }

    /** The full-ring branch of exchange: the oldest frame leaves, for the release function if
        there is one. */
    method DropOldest() returns (out: Entry)
      requires Valid() && count > 0
      modifies this, entries
      ensures Valid() && entries == old(entries) && meaning == Drop(old(meaning))
      ensures out == if releases then EMPTY else old(meaning).window[0]
    {
      LayoutDropFirst(meaning.window, head);
      out := entries[head];
      entries[head] := EMPTY;
      head := Index(head, 1);
      count := count - 1;
      dropped := dropped + 1;
      meaning := Drop(meaning);
      if releases {
        ReleaseFrame(out);
        out := EMPTY;
      }
    }

    /** The rest of exchange: the new frame is stored behind the newest one. */
    method Store(e: Entry)
      requires Valid() && count < RING_SIZE && e.frame != NULL
      modifies this, entries
      ensures Valid() && entries == old(entries) && meaning == Append(old(meaning), e)
    {
      produced := produced + 1;
      LayoutAppend(meaning.window, head, e);
      entries[Index(head, count)] := e;
      count := count + 1;
      meaning := Append(meaning, e);
    }

    /** The frame a full ring drops is returned if there is no release function to receive it. */
    method Exchange(frame: Ptr, timestamp: nat) returns (out: Entry)
      requires Valid()
      modifies this, entries
      ensures Valid() && entries == old(entries)
      ensures meaning == Do(old(meaning), Publish(Entry(frame, timestamp)))
      ensures out == if frame != NULL && old(count) == RING_SIZE && !releases then old(meaning).window[0] else EMPTY
    {
      out := EMPTY;
      if frame == NULL { return; }
      if count == RING_SIZE { out := DropOldest(); }
      Store(Entry(frame, timestamp));
    }

    /** Without a release function the dropped frame goes nowhere. */
    method PublishFrame(frame: Ptr, timestamp: nat)
      requires Valid()
      modifies this, entries
      ensures Valid() && entries == old(entries)
      ensures meaning == Do(old(meaning), Publish(Entry(frame, timestamp)))
    {
      var out := Exchange(frame, timestamp);
      ReleaseFrame(out);
    }

    /** One turn of the loops of take and flush. */
    method ClearOne(ghost w: seq<Entry>, k: nat)
      requires entries.Length == RING_SIZE && head < RING_SIZE && k < |w| <= RING_SIZE && w[k].frame != NULL
      requires meaning.window == w[k..] && Books() && entries[..] == Layout(Blanked(w, k), head)
      modifies `released, `dropped, `meaning, entries
      ensures meaning == Drop(old(meaning)) && Books()
      ensures entries[..] == Layout(Blanked(w, k + 1), head)
    {
      LayoutUpdate(Blanked(w, k), head, k, EMPTY);
      ClearEntry(Index(head, k));
      meaning := Drop(meaning);
    }

    /** The loops of take and flush: the n oldest frames are cleared, the indices left alone. */
    method ClearOldest(n: nat)
      requires Valid() && n <= count
      modifies `released, `dropped, `meaning, entries
      ensures meaning == DropMany(old(meaning), n) && Books()
      ensures entries[..] == Layout(Blanked(old(meaning).window, n), head)
    {
      ghost var w := meaning.window;
      ghost var start := meaning;
      var k := 0;
      while k < n
        modifies `released, `dropped, `meaning, entries
        invariant k <= n && meaning == DropMany(start, k) && Books()
        invariant entries[..] == Layout(Blanked(w, k), head)
      {
        ClearOne(w, k);
        k := k + 1;
      }
    }

    /** The newest frame; the older ones are dropped. */
    method TakeNewest() returns (e: Entry)
      requires Valid()
      modifies this, entries
      ensures Valid() && entries == old(entries) && meaning == Do(old(meaning), Take)
      ensures e == if old(count) == 0 then EMPTY else old(meaning).window[old(count) - 1]
    {
      if count == 0 { return EMPTY; }
      ghost var start, n := meaning, count - 1;
      var newest := Index(head, count - 1);
      ClearOldest(count - 1);
      assert meaning.window == start.window[n..];
      e := HandLast(newest, start.window);
      assert meaning == Hand(DropMany(start, n));
    }

    /** The end of take: the only entry left is handed out, and the indices start over. */
    method HandLast(newest: nat, ghost w: seq<Entry>) returns (e: Entry)
      requires entries.Length == RING_SIZE && head < RING_SIZE && count == |w| && 0 < |w| <= RING_SIZE
      requires newest == Index(head, |w| - 1) && entries[..] == Layout(Blanked(w, |w| - 1), head)
      requires meaning.window == w[|w| - 1..] && Books()
      modifies this, entries
      ensures Valid() && entries == old(entries) && meaning == Hand(old(meaning)) && e == w[|w| - 1]
    {
      ClearLast(w, head);
      e := entries[newest];
      entries[newest] := EMPTY;
      assert entries[..] == old(entries[..])[newest := EMPTY];
      meaning := Hand(meaning);
      assert meaning.window == [];
      head := 0;
      count := 0;
      consumed := consumed + 1;
    }

    method TakeOldestFrame() returns (e: Entry)
      requires Valid()
      modifies this, entries
      ensures Valid() && entries == old(entries) && meaning == Do(old(meaning), TakeOldest)
      ensures e == if old(count) == 0 then EMPTY else old(meaning).window[0]
    {
      if count == 0 { return EMPTY; }
      LayoutDropFirst(meaning.window, head);
      e := entries[head];
      entries[head] := EMPTY;
      head := Index(head, 1);
      count := count - 1;
      meaning := Hand(meaning);
      if count == 0 {
        LayoutBlank(meaning.window, head);
        head := 0;
      }
      consumed := consumed + 1;
    }

    method FlushAll()
      requires Valid()
      modifies this, entries
      ensures Valid() && entries == old(entries) && meaning == Do(old(meaning), Flush)
    {
      ghost var w := meaning.window;
      ClearOldest(count);
      LayoutBlank(Blanked(w, count), head);
      head := 0;
      count := 0;
    }

    method Stats() returns (p: nat, d: nat, c: nat, h: nat)
      requires Valid() && Inv(meaning)
      ensures p == d + c + h && h <= RING_SIZE
      ensures p == |meaning.published| && d == |meaning.lost| && c == |meaning.handed| && h == |meaning.window|
    {
      p, d, c, h := produced, dropped, consumed, count;
    }
  }
}
