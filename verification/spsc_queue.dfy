/** The lock-free queue between one producer thread and one consumer thread.

    Each atomic load, slot access and atomic store is a step of its own; the two threads' steps
    interleave in any order (sequentially consistent memory). */
module SpscQueue {
  import opened Arithmetic

  // ---------------------------------------------------------------- sizes, on machine words

  const MAX_CAPACITY: bv32 := 4096

  method NextPow2(capacity: bv32) returns (r: bv32)
    requires 1 <= capacity <= MAX_CAPACITY
    ensures r & (r - 1) == 0            // a power of two
    ensures r >> 1 < capacity <= r      // the least one that is large enough
    ensures r <= MAX_CAPACITY
  {
    var v := capacity;
    v := v - 1;
    v := v | (v >> 1);
    v := v | (v >> 2);
    v := v | (v >> 4);
    v := v | (v >> 8);
    v := v | (v >> 16);
    r := v + 1;
  }

  lemma MaskKeepsSmall(size: bv32, x: bv32)
    requires size & (size - 1) == 0 && x < size
    ensures x & (size - 1) == x
  {
  }

  /** Masking wraps an index of a power-of-two ring. */
  lemma MaskWraps(size: bv32, tail: bv32)
    requires size & (size - 1) == 0 && tail < size <= MAX_CAPACITY
    ensures (tail + 1) & (size - 1) == if tail + 1 == size then 0 else tail + 1
  {
    if tail + 1 != size { MaskKeepsSmall(size, tail + 1); }
  }

  /** A ring of r slots holds r - 1 items, so a power of two gets one item less than asked for. */
  lemma RoomForRequested(capacity: bv32, r: bv32)
    requires 1 <= capacity <= r <= MAX_CAPACITY && r & (r - 1) == 0 && r >> 1 < capacity
    ensures r - 1 >= capacity <==> capacity & (capacity - 1) != 0
  {
  }

  // ---------------------------------------------------------------- the machine

  // A pointer; 0 is NULL.
  type Ptr = nat
  const NULL: Ptr := 0

  /** Where the producer stands in push(item). */
  datatype Producer =
    | PIdle
    | PTail(item: Ptr, tail: nat)      // tail loaded
    | PRoom(item: Ptr, tail: nat)      // head loaded: there is room
    | PStored(item: Ptr, tail: nat)    // slot written

  /** Where the consumer stands in pop(). */
  datatype Consumer =
    | CIdle
    | CHead(head: nat)                 // head loaded
    | CSome(head: nat)                 // tail loaded: there is an item
    | CRead(head: nat, item: Ptr)      // slot read
    | CCleared(head: nat, item: Ptr)   // slot set to NULL

  datatype State = State(
    slots: seq<Ptr>, head: nat, tail: nat,
    producer: Producer, consumer: Consumer,
    pushed: seq<Ptr>,                  // every item whose push returned true, in order
    popped: seq<Ptr>,                  // every item pop returned, in order
    refused: bool, empty: bool)        // the last push returned false / the last pop NULL

  function Next(i: nat, size: nat): nat {
    if i + 1 == size then 0 else i + 1
  }

  function Init(size: nat): State {
    State(seq(size, _ => NULL), 0, 0, PIdle, CIdle, [], [], false, false)
  }

  datatype Step = Push(item: Ptr) | ProducerStep | Pop | ConsumerStep

  /** One step: a call beginning with its first load, or the next line of the call under way. */
  function Do(s: State, step: Step): (t: State)
    requires Shape(s)
    ensures Shape(t) && |t.slots| == |s.slots|
  {
    match step
    case Push(item) =>
      if s.producer.PIdle? && item != NULL then s.(producer := PTail(item, s.tail)) else s
    case ProducerStep => ProducerLine(s)
    case Pop =>
      if s.consumer.CIdle? then s.(consumer := CHead(s.head)) else s
    case ConsumerStep => ConsumerLine(s)
  }

  function ProducerLine(s: State): (t: State)
    requires Shape(s)
    ensures Shape(t) && |t.slots| == |s.slots|
  {
    match s.producer
    case PIdle => s
    case PTail(item, tail) =>
      if Next(tail, |s.slots|) == s.head
      then s.(producer := PIdle, refused := true)
      else s.(producer := PRoom(item, tail), refused := false)
    case PRoom(item, tail) => s.(slots := s.slots[tail := item], producer := PStored(item, tail))
    case PStored(item, tail) =>
      s.(tail := Next(tail, |s.slots|), producer := PIdle, pushed := s.pushed + [item])
  }

  function ConsumerLine(s: State): (t: State)
    requires Shape(s)
    ensures Shape(t) && |t.slots| == |s.slots|
  {
    match s.consumer
    case CIdle => s
    case CHead(head) =>
      if head == s.tail
      then s.(consumer := CIdle, empty := true)
      else s.(consumer := CSome(head), empty := false)
    case CSome(head) => s.(consumer := CRead(head, s.slots[head]))
    case CRead(head, item) => s.(slots := s.slots[head := NULL], consumer := CCleared(head, item))
    case CCleared(head, item) =>
      s.(head := Next(head, |s.slots|), consumer := CIdle, popped := s.popped + [item])
  }

  /** Every index in use is an index of the ring. */
  predicate Shape(s: State) {
    && s.head < |s.slots| && s.tail < |s.slots|
    && (s.producer.PIdle? || s.producer.tail < |s.slots|)
    && (s.consumer.CIdle? || s.consumer.head < |s.slots|)
  }

  function Run(s: State, steps: seq<Step>): (t: State)
    requires Shape(s)
    ensures Shape(t) && |t.slots| == |s.slots|
    decreases |steps|
  {
    if steps == [] then s else Run(Do(s, steps[0]), steps[1..])
  }

  // ---------------------------------------------------------------- the invariant

  /** How many items the queue holds. */
  function Held(s: State): int { |s.pushed| - |s.popped| }

  ghost predicate Inv(s: State) {
    && Shape(s)
    && s.popped <= s.pushed
    && Held(s) < |s.slots|
    && s.head == |s.popped| % |s.slots|
    && s.tail == |s.pushed| % |s.slots|
    && (forall k :: 0 <= k < |s.pushed| ==> s.pushed[k] != NULL)
    && (forall k :: |s.popped| <= k < |s.pushed| && !(k == |s.popped| && s.consumer.CCleared?)
          ==> s.slots[k % |s.slots|] == s.pushed[k])
    && ProducerInv(s)
    && ConsumerInv(s)
  }

  ghost predicate ProducerInv(s: State) {
    match s.producer
    case PIdle => true
    case PTail(item, tail) => item != NULL && tail == s.tail
    case PRoom(item, tail) => item != NULL && tail == s.tail && Held(s) < |s.slots| - 1
    case PStored(item, tail) =>
      item != NULL && tail == s.tail && Held(s) < |s.slots| - 1 && tail < |s.slots| && s.slots[tail] == item
  }

  ghost predicate ConsumerInv(s: State) {
    match s.consumer
    case CIdle => true
    case CHead(head) => head == s.head
    case CSome(head) => head == s.head && Held(s) > 0
    case CRead(head, item) => head == s.head && Held(s) > 0 && item == s.pushed[|s.popped|]
    case CCleared(head, item) => head == s.head && Held(s) > 0 && item == s.pushed[|s.popped|]
  }

  lemma NextIsMod(n: nat, size: nat)
    requires size > 0
    ensures Next(n % size, size) == (n + 1) % size
  {
    var q, r := n / size, n % size;
    assert n == q * size + r;
    if r + 1 == size {
      assert n + 1 == (q + 1) * size;
      DivisionIsUnique(n + 1, size, q + 1, 0);
    } else {
      DivisionIsUnique(n + 1, size, q, r + 1);
    }
  }

  /** Two positions of one window of the ring share a slot only if they are the same. */
  lemma SlotsDiffer(a: nat, b: nat, size: nat)
    requires size > 0 && a <= b < a + size && a % size == b % size
    ensures a == b
  {
    var qa, qb := a / size, b / size;
    assert a == qa * size + a % size && b == qb * size + b % size;
    Multiples(qa, qb, size);
    Multiples(qb, qa, size);
  }

  /** The ring looks empty exactly when nothing is held, and full exactly when it holds all it can. */
  lemma IndicesTell(s: State)
    requires Shape(s) && |s.popped| <= |s.pushed| && Held(s) < |s.slots|
    requires s.head == |s.popped| % |s.slots| && s.tail == |s.pushed| % |s.slots|
    ensures s.head == s.tail <==> Held(s) == 0
    ensures Next(s.tail, |s.slots|) == s.head <==> Held(s) == |s.slots| - 1
  {
    var size := |s.slots|;
    NextIsMod(|s.pushed|, size);
    if s.head == s.tail { SlotsDiffer(|s.popped|, |s.pushed|, size); }
    if Next(s.tail, size) == s.head {
      if Held(s) < size - 1 { SlotsDiffer(|s.popped|, |s.pushed| + 1, size); }
    }
    if Held(s) == size - 1 {
      DivisionIsUnique(|s.popped| + size, size, |s.popped| / size + 1, |s.popped| % size);
    }
  }

  lemma StepKeepsInv(s: State, step: Step)
    requires Inv(s)
    ensures Inv(Do(s, step))
  {
    IndicesTell(s);
    match step
    case Push(_) =>
    case Pop =>
    case ProducerStep => ProducerKeepsInv(s);
    case ConsumerStep => ConsumerKeepsInv(s);
  }

  lemma ProducerKeepsInv(s: State)
    requires Inv(s)
    ensures Inv(ProducerLine(s))
  {
    IndicesTell(s);
    var t, size := ProducerLine(s), |s.slots|;
    match s.producer
    case PIdle =>
    case PTail(_, _) =>
    case PRoom(item, tail) =>
      forall k | |s.popped| <= k < |s.pushed| ensures k % size != tail {
        if k % size == tail { SlotsDiffer(k, |s.pushed|, size); }
      }
    case PStored(item, tail) =>
      NextIsMod(|s.pushed|, size);
      assert t.popped <= t.pushed;
  }

  lemma ConsumerKeepsInv(s: State)
    requires Inv(s)
    ensures Inv(ConsumerLine(s))
  {
    IndicesTell(s);
    var t, size := ConsumerLine(s), |s.slots|;
    match s.consumer
    case CIdle =>
    case CHead(_) =>
    case CSome(head) => assert s.slots[|s.popped| % size] == s.pushed[|s.popped|];
    case CRead(head, item) =>
      forall k | |s.popped| < k <= |s.pushed| && k < |s.popped| + size ensures k % size != head {
        if k % size == head { SlotsDiffer(|s.popped|, k, size); }
      }
    case CCleared(head, item) =>
      NextIsMod(|s.popped|, size);
      assert t.popped <= t.pushed;
  }

  // ---------------------------------------------------------------- main results

  ghost predicate Reachable(s: State) {
    exists size: nat, steps: seq<Step> :: size > 0 && Reaches(size, steps, s)
  }

  ghost predicate Reaches(size: nat, steps: seq<Step>, s: State)
    requires size > 0
  {
    s == Run(Init(size), steps)
  }

  lemma {:induction false} RunKeepsInv(s: State, steps: seq<Step>)
    requires Inv(s)
    ensures Inv(Run(s, steps))
    decreases |steps|
  {
    if steps != [] {
      StepKeepsInv(s, steps[0]);
      RunKeepsInv(Do(s, steps[0]), steps[1..]);
    }
  }

  lemma ReachableIsInv(s: State)
    requires Reachable(s)
    ensures Inv(s)
  {
    var size: nat, steps :| size > 0 && Reaches(size, steps, s);
    RunKeepsInv(Init(size), steps);
  }

  /** FIFO over every interleaving: what was popped is a prefix of what was pushed. */
  lemma PoppedIsPrefixOfPushed(s: State)
    requires Reachable(s)
    ensures s.popped <= s.pushed && Held(s) <= |s.slots| - 1
    ensures forall k :: 0 <= k < |s.popped| ==> s.popped[k] != NULL
  {
    ReachableIsInv(s);
  }

  /** push decides at the instant it loads head: it refuses exactly if the queue is full then. */
  lemma PushRefusesIffFull(s: State)
    requires Reachable(s) && s.producer.PTail?
    ensures Do(s, ProducerStep).refused <==> Held(s) == |s.slots| - 1
    ensures Do(s, ProducerStep).producer.PIdle? <==> Held(s) == |s.slots| - 1
  {
    ReachableIsInv(s);
    IndicesTell(s);
  }

  /** pop decides at the instant it loads tail: it returns NULL exactly if the queue is empty then. */
  lemma PopIsNullIffEmpty(s: State)
    requires Reachable(s) && s.consumer.CHead?
    ensures Do(s, ConsumerStep).empty <==> s.pushed == s.popped
    ensures Do(s, ConsumerStep).consumer.CIdle? <==> s.pushed == s.popped
  {
    ReachableIsInv(s);
    IndicesTell(s);
  }

  /** A pop that was not empty-handed hands out the oldest item not yet popped. */
  lemma PopReturnsOldest(s: State)
    requires Reachable(s) && s.consumer.CCleared?
    ensures |s.popped| < |s.pushed|
    ensures Do(s, ConsumerStep).popped == s.popped + [s.pushed[|s.popped|]]
    ensures s.consumer.item != NULL
  {
    ReachableIsInv(s);
  }

  /** The producer about to write and the consumer about to read or clear are at different slots. */
  lemma NoSlotIsShared(s: State)
    requires Reachable(s) && s.producer.PRoom? && (s.consumer.CSome? || s.consumer.CRead?)
    ensures s.producer.tail != s.consumer.head
  {
    ReachableIsInv(s);
    IndicesTell(s);
  }

  lemma {:induction false} RunCannotForget(s: State, steps: seq<Step>)
    requires Shape(s)
    ensures s.pushed <= Run(s, steps).pushed && s.popped <= Run(s, steps).popped
    decreases |steps|
  {
    if steps != [] {
      var t := Do(s, steps[0]);
      assert s.pushed <= t.pushed && s.popped <= t.popped;
      RunCannotForget(t, steps[1..]);
    }
  }

  // 32-bit words; masking by a power of two less one is the remainder.
  const WORD: nat := 0x1_0000_0000

  function Count(tail: nat, head: nat, size: nat): nat
    requires size > 0
  {
    ((tail - head) % WORD) % size
  }

  /** count() loads tail and then head, with any steps between.  It reports the items pushed by
      the first load and not popped by the second, exactly when there cannot be fewer than none. */
  lemma CountReports(s: State, steps: seq<Step>, q: nat)
    requires Inv(s) && q * |s.slots| == 0x1_0000_0000 && |s.slots| <= 4096   // the size is a power of two
    ensures var t := Run(s, steps); var n := Count(s.tail, t.head, |s.slots|);
            n < |s.slots| && (n == |s.pushed| - |t.popped| <==> |t.popped| <= |s.pushed|)
  {
    var t := Run(s, steps);
    RunCannotForget(s, steps);
    RunKeepsInv(s, steps);
    if |t.popped| <= |s.pushed| {
      RingDistance(|s.pushed|, |t.popped|, |s.slots|);
      WrappedDifference(s.tail, t.head, |s.slots|, q);
    }
  }

  lemma RingDistance(a: nat, b: nat, size: nat)
    requires size > 0 && b <= a < b + size
    ensures a - b == if a % size >= b % size then a % size - b % size else a % size + size - b % size
  {
    RingStep(b / size, b % size, a - b, size);
    assert b == (b / size) * size + b % size;
  }

  lemma RingStep(q: nat, r: nat, d: nat, size: nat)
    requires r < size && d < size
    ensures (q * size + r + d) % size == if r + d < size then r + d else r + d - size
  {
    if r + d < size {
      RingPlace(q, r + d, size, q * size + r + d);
    } else {
      assert q * size + size == (q + 1) * size;
      RingPlace(q + 1, r + d - size, size, q * size + r + d);
    }
  }

  lemma RingPlace(q: nat, r: nat, size: nat, a: nat)
    requires r < size && a == q * size + r
    ensures a % size == r
  {
    DivisionIsUnique(a, size, q, r);
  }

  lemma WrappedDifference(tail: nat, head: nat, size: nat, q: nat)
    requires q * size == WORD && tail < size && head < size <= 4096
    ensures Count(tail, head, size) == if tail >= head then tail - head else tail + size - head
  {
    if tail < head {
      var d := WORD + tail - head;
      assert (tail - head) % WORD == d;
      assert q > 0 && d == (q - 1) * size + (tail + size - head) by {
        assert (q - 1) * size == q * size - size;
      }
      DivisionIsUnique(d, size, q - 1, tail + size - head);
    } else {
      assert (tail - head) % WORD == tail - head;
      DivisionIsUnique(tail - head, size, 0, tail - head);
    }
  }

  // ---------------------------------------------------------------- the calls, as they are written

  /** A whole push, and a whole pop, with nothing in between. */
  function PushCall(s: State, item: Ptr): State
    requires Shape(s)
  {
    ProducerLine(ProducerLine(ProducerLine(Do(s, Push(item)))))
  }

  function PopCall(s: State): State
    requires Shape(s)
  {
    ConsumerLine(ConsumerLine(ConsumerLine(ConsumerLine(Do(s, Pop)))))
  }

  class Queue {
    var slots: array<Ptr>
    var head: nat
    var tail: nat
    ghost var pushed: seq<Ptr>
    ghost var popped: seq<Ptr>
    ghost var refused: bool
    ghost var empty: bool

    /** The machine's state while neither thread is inside a call. */
    ghost function Snapshot(): State
      reads this, slots
    {
      State(slots[..], head, tail, PIdle, CIdle, pushed, popped, refused, empty)
    }

    constructor (size: nat)
      requires size > 0
      ensures Snapshot() == Init(size) && fresh(slots)
    {
      slots := new Ptr[size](_ => NULL);
      head, tail, pushed, popped, refused, empty := 0, 0, [], [], false, false;
      new;
      assert slots[..] == Init(size).slots;
    }

    method Push(item: Ptr) returns (ok: bool)
      requires Inv(Snapshot()) && item != NULL
      modifies this, slots
      ensures slots == old(slots) && Snapshot() == PushCall(old(Snapshot()), item)
      ensures ok <==> Held(old(Snapshot())) < slots.Length - 1
      ensures pushed == (if ok then old(pushed) + [item] else old(pushed)) && popped == old(popped)
    {
      ghost var s0 := Snapshot();
      IndicesTell(s0);
      var next := Next(tail, slots.Length);
      refused := next == head;
      if next == head { return false; }
      slots[tail] := item;
      assert slots[..] == s0.slots[tail := item];
      tail := next;
      pushed := pushed + [item];
      return true;
    }

    method Pop() returns (item: Ptr)
      requires Inv(Snapshot())
      modifies this, slots
      ensures slots == old(slots) && Snapshot() == PopCall(old(Snapshot()))
      ensures item == NULL <==> old(pushed) == old(popped)
      ensures pushed == old(pushed) && popped == if item == NULL then old(popped) else old(popped) + [item]
      ensures item != NULL ==> |old(popped)| < |old(pushed)| && item == old(pushed)[|old(popped)|]
    {
      ghost var s0 := Snapshot();
      IndicesTell(s0);
      empty := head == tail;
      if head == tail { return NULL; }
      assert s0.slots[|s0.popped| % |s0.slots|] == s0.pushed[|s0.popped|];
      item := slots[head];
      slots[head] := NULL;
      assert slots[..] == s0.slots[head := NULL];
      head := Next(head, slots.Length);
      popped := popped + [item];
    }
  }
}
