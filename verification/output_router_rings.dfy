/** The router's queue and retain ring as they are stored, updated in place under their locks. */
module OutputRouterRings {
  import opened Arithmetic
  import opened OutputRouter

  const NO_LEASE: Lease := 0

  function Index(head: nat, n: nat, size: nat): (i: nat)
    requires head < size && n <= size
    ensures i == if head + n < size then head + n else head + n - size
  {
    if head + n < size then head + n
    else
      DivisionIsUnique(head + n, size, 1, head + n - size);
      (head + n) % size
  }

  /** What a ring holds, oldest first. */
  ghost function Contents(s: seq<Lease>, head: nat, count: nat): (c: seq<Lease>)
    requires head < |s| && count <= |s|
    ensures |c| == count
  {
    if count == 0 then [] else Contents(s, head, count - 1) + [s[Index(head, count - 1, |s|)]]
  }

  lemma {:induction false} ContentsAt(s: seq<Lease>, head: nat, count: nat, n: nat)
    requires head < |s| && count <= |s| && n < count
    ensures Contents(s, head, count)[n] == s[Index(head, n, |s|)]
  {
    if n < count - 1 { ContentsAt(s, head, count - 1, n); }
  }

  lemma ContentsPush(s: seq<Lease>, head: nat, count: nat, l: Lease)
    requires head < |s| && count < |s|
    ensures Contents(s[Index(head, count, |s|) := l], head, count + 1) == Contents(s, head, count) + [l]
  {
    var t := s[Index(head, count, |s|) := l];
    forall n | 0 <= n < count ensures Contents(t, head, count + 1)[n] == Contents(s, head, count)[n] {
      ContentsAt(t, head, count + 1, n);
      ContentsAt(s, head, count, n);
    }
  }

  /** The head moves on, and its slot is cleared. */
  lemma ContentsPop(s: seq<Lease>, head: nat, count: nat)
    requires head < |s| && 0 < count <= |s|
    ensures Contents(s, head, count)[0] == s[head]
    ensures Contents(s[head := NO_LEASE], Index(head, 1, |s|), count - 1) == Contents(s, head, count)[1..]
  {
    var t, next := s[head := NO_LEASE], Index(head, 1, |s|);
    var c := Contents(t, next, count - 1);
    ContentsAt(s, head, count, 0);
    forall n | 0 <= n < |c| ensures c[n] == Contents(s, head, count)[n + 1] {
      ContentsAt(t, next, count - 1, n);
      ContentsAt(s, head, count, n + 1);
    }
  }

  /** What retaining one more lease makes the ring hold, and what it gives up. */
  function Retain(retained: seq<Lease>, l: Lease): seq<Lease> {
    Trim((if |retained| >= RETAIN_CAPACITY then retained[1..] else retained) + [l])
  }

  function Trim(retained: seq<Lease>): seq<Lease> {
    if |retained| > BFRAME_RETAIN_COUNT then retained[|retained| - BFRAME_RETAIN_COUNT..] else retained
  }

  function Steps(e: EncoderSide, n: nat): EncoderSide
    decreases n
  {
    if n == 0 then e else Steps(EncoderNext(e, false, false), n - 1)
  }

  /** The lines of the encoder thread that retain a lease do, one by one, what Retain says. */
  lemma KeepStepsRetain(e: EncoderSide)
    requires e.thread.XKeeps?
    ensures var kept := EncoderNext(e, false, false).retained; var r := Retain(e.retained, e.thread.lease);
            && |kept| >= |r|
            && Steps(e, |kept| - |r| + 2) ==
               e.(thread := XWait, retained := r, overflowed := e.overflowed || |e.retained| >= RETAIN_CAPACITY)
  {
    TrimStepsTrim(EncoderNext(e, false, false));
  }

  lemma {:induction false} TrimStepsTrim(e: EncoderSide)
    requires e.thread.XTrims?
    ensures Steps(e, |e.retained| - |Trim(e.retained)| + 1) == e.(thread := XWait, retained := Trim(e.retained))
    decreases |e.retained|
  {
    var t := EncoderNext(e, false, false);
    if |e.retained| > BFRAME_RETAIN_COUNT {
      TrimStepsTrim(t);
      assert Trim(e.retained[1..]) == Trim(e.retained);
    } else {
      assert Steps(t, 0) == t;
    }
  }

  class HandOff {
    var queueSlots: array<Lease>
    var queueHead: nat
    var queueCount: nat
    var dropped: nat
    var accepting: bool            // a manager is set and the thread runs
    var retainSlots: array<Lease>
    var retainHead: nat
    var retainCount: nat
    var hasPending: bool
    var pending: Lease
    var previewAccepting: bool
    var released: seq<Lease>

    ghost predicate Valid()
      reads this
    {
      && queueSlots.Length == QUEUE_CAPACITY && queueHead < QUEUE_CAPACITY && queueCount <= QUEUE_CAPACITY
      && retainSlots.Length == RETAIN_CAPACITY && retainHead < RETAIN_CAPACITY
      && retainCount <= RETAIN_CAPACITY && queueSlots != retainSlots
    }

    ghost function Queue(): seq<Lease>
      requires Valid()
      reads this, queueSlots
    {
      Contents(queueSlots[..], queueHead, queueCount)
    }

    ghost function Retained(): seq<Lease>
      requires Valid()
      reads this, retainSlots
    {
      Contents(retainSlots[..], retainHead, retainCount)
    }

    ghost function Pending(): seq<Lease>
      reads this
    {
      if hasPending then [pending] else []
    }

    constructor ()
      ensures Valid() && Queue() == [] && Retained() == [] && Pending() == [] && released == []
      ensures fresh(queueSlots) && fresh(retainSlots)
    {
      queueSlots := new Lease[QUEUE_CAPACITY](_ => NO_LEASE);
      retainSlots := new Lease[RETAIN_CAPACITY](_ => NO_LEASE);
      queueHead, queueCount, retainHead, retainCount, dropped := 0, 0, 0, 0, 0;
      accepting, previewAccepting, hasPending, pending, released := false, false, false, NO_LEASE, [];
    }

    method Release(l: Lease)
      modifies `released
      ensures released == old(released) + [l]
    {
      released := released + [l];
    }

    /** The oldest lease leaves the queue; its slot is cleared. */
    method TakeQueued() returns (l: Lease)
      requires Valid() && queueCount > 0
      modifies `queueHead, `queueCount, queueSlots
      ensures Valid() && [l] + Queue() == old(Queue())
    {
      ContentsPop(queueSlots[..], queueHead, queueCount);
      l := queueSlots[queueHead];
      queueSlots[queueHead] := NO_LEASE;
      queueHead := Index(queueHead, 1, QUEUE_CAPACITY);
      queueCount := queueCount - 1;
      assert queueSlots[..] == old(queueSlots[..])[old(queueHead) := NO_LEASE];
    }

    /** Drop the oldest of a full queue, append, and release what was dropped.  Refused leases stay
        with the caller. */
    method EnqueueLease(l: Lease) returns (ok: bool)
      requires Valid()
      modifies `queueHead, `queueCount, `dropped, `released, queueSlots
      ensures Valid() && ok == accepting
      ensures var q, d := old(Queue()), if old(queueCount) == QUEUE_CAPACITY then 1 else 0;
              if ok then
                Queue() == q[d..] + [l] && released == old(released) + q[..d] && dropped == old(dropped) + d
              else
                Queue() == q && released == old(released) && dropped == old(dropped)
    {
      if !accepting { return false; }
      var out, full := NO_LEASE, queueCount >= QUEUE_CAPACITY;
      ghost var q := Queue();
      if full {
        out := TakeQueued();
        dropped := dropped + 1;
        assert Queue() == q[1..];
      }
      AppendQueued(l);
      if full { Release(out); }
      return true;
    }

    method AppendQueued(l: Lease)
      requires Valid() && queueCount < QUEUE_CAPACITY
      modifies `queueCount, queueSlots
      ensures Valid() && Queue() == old(Queue()) + [l]
    {
      ContentsPush(queueSlots[..], queueHead, queueCount, l);
      var tail := Index(queueHead, queueCount, QUEUE_CAPACITY);
      queueSlots[tail] := l;
      queueCount := queueCount + 1;
      assert queueSlots[..] == old(queueSlots[..])[tail := l];
    }

    /** The oldest retained lease is released. */
    method ReleaseOldest()
      requires Valid() && retainCount > 0
      modifies `retainHead, `retainCount, `released, retainSlots
      ensures Valid() && retainCount == old(retainCount) - 1
      ensures Retained() == old(Retained())[1..] && released == old(released) + old(Retained())[..1]
    {
      ContentsPop(retainSlots[..], retainHead, retainCount);
      Release(retainSlots[retainHead]);
      retainSlots[retainHead] := NO_LEASE;
      retainHead := Index(retainHead, 1, RETAIN_CAPACITY);
      retainCount := retainCount - 1;
      assert retainSlots[..] == old(retainSlots[..])[old(retainHead) := NO_LEASE];
    }

    /** Every lease that leaves the ring is released, oldest first; the newest eight stay. */
    method RetainLease(l: Lease)
      requires Valid()
      modifies `retainHead, `retainCount, `released, retainSlots
      ensures Valid() && Retained() == Retain(old(Retained()), l)
      ensures released + Retained() == old(released) + old(Retained()) + [l]
    {
      ghost var r := Retained();
      if retainCount >= RETAIN_CAPACITY { ReleaseOldest(); }
      ghost var kept := Retained();
      assert released + kept == old(released) + r;
      AppendRetained(l);
      assert released + (kept + [l]) == (released + kept) + [l];
      TrimRetained();
    }

    method AppendRetained(l: Lease)
      requires Valid() && retainCount < RETAIN_CAPACITY
      modifies `retainCount, retainSlots
      ensures Valid() && Retained() == old(Retained()) + [l]
    {
      ContentsPush(retainSlots[..], retainHead, retainCount, l);
      var tail := Index(retainHead, retainCount, RETAIN_CAPACITY);
      retainSlots[tail] := l;
      retainCount := retainCount + 1;
      assert retainSlots[..] == old(retainSlots[..])[tail := l];
    }

    method TrimRetained()
      requires Valid()
      modifies `retainHead, `retainCount, `released, retainSlots
      ensures Valid() && Retained() == Trim(old(Retained()))
      ensures released + Retained() == old(released) + old(Retained())
    {
      ghost var r := Retained();
      while retainCount > BFRAME_RETAIN_COUNT
        invariant Valid() && retainCount <= |r| && Retained() == r[|r| - retainCount..]
        invariant retainCount >= BFRAME_RETAIN_COUNT || retainCount == |r|
        invariant released == old(released) + r[..|r| - retainCount]
      {
        ReleaseOldest();
        assert r[..|r| - retainCount] == r[..|r| - retainCount - 1] + [r[|r| - retainCount - 1]];
      }
    }

    method ReleaseRetained()
      requires Valid()
      modifies `retainHead, `retainCount, `released, retainSlots
      ensures Valid() && Retained() == [] && released == old(released) + old(Retained())
    {
      ghost var r := Retained();
      while retainCount > 0
        invariant Valid() && retainCount <= |r| && Retained() == r[|r| - retainCount..]
        invariant released == old(released) + r[..|r| - retainCount]
      {
        ReleaseOldest();
        assert r[..|r| - retainCount] == r[..|r| - retainCount - 1] + [r[|r| - retainCount - 1]];
      }
      retainHead := 0;
    }

    /** The mailbox keeps the latest lease and releases the one it replaces. */
    method EnqueuePreview(l: Lease) returns (ok: bool)
      modifies `hasPending, `pending, `released
      ensures ok == previewAccepting
      ensures if ok then Pending() == [l] && released == old(released) + old(Pending())
              else Pending() == old(Pending()) && released == old(released)
    {
      if !previewAccepting { return false; }
      var out, full := pending, hasPending;
      pending, hasPending := l, true;
      if full { Release(out); }
      return true;
    }

    method EmptyQueue() returns (drained: seq<Lease>)
      requires Valid()
      modifies `accepting, `queueHead, `queueCount, queueSlots
      ensures Valid() && Queue() == [] && !accepting && drained == old(Queue())
    {
      drained := [];
      accepting := false;
      while queueCount > 0
        invariant Valid() && drained + Queue() == old(Queue())
        modifies `queueHead, `queueCount, queueSlots
      {
        var l := TakeQueued();
        assert drained + ([l] + Queue()) == (drained + [l]) + Queue();
        drained := drained + [l];
      }
      assert drained + [] == drained;
    }

    /** The encoder part of free: the queue is emptied under the lock, then its leases released. */
    method DrainQueue()
      requires Valid()
      modifies `accepting, `queueHead, `queueCount, `released, queueSlots
      ensures Valid() && Queue() == [] && !accepting && released == old(released) + old(Queue())
    {
      var drained := EmptyQueue();
      for i := 0 to |drained|
        invariant released == old(released) + drained[..i]
        modifies `released
      {
        Release(drained[i]);
        assert drained[..i + 1] == drained[..i] + [drained[i]];
      }
    }
  }
}
