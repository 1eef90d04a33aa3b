/** What every run of the encoder's bookkeeping keeps. */
module DirectVencSafety {
  import opened DirectVenc
  import opened Wrappers

  /** One submission and the codec's answer to it. */
  datatype Event = Event(input: Input, force: bool, meta: Meta)

  /** The inputs the codec accepted, which of them it still holds, its packets so far, and the
      input each packet is really made from. */
  datatype Session = Session(
    enc: Venc, accepted: seq<Input>, inCodec: set<int>, packets: seq<Packet>, claimed: seq<int>)

  /** The call makes the bookkeeping take a frame out: for a packet, or for a frame skipped. */
  predicate Reports(enc: Venc, meta: Meta) {
    meta.valid && (meta.length > 0 || !HasBframes(enc.pattern))
  }

  /** The codec numbers the inputs it accepts from `base`. */
  function Do(s: Session, e: Event, base: int): Session {
    var o := SubmitOutcome(s.enc, e.input, e.force, e.meta);
    var held := if e.meta.valid then s.inCodec + {|s.accepted|} else s.inCodec;
    Session(Submit(s.enc, e.input, e.force, e.meta),
            if e.meta.valid then s.accepted + [e.input] else s.accepted,
            if Reports(s.enc, e.meta) then held - {e.meta.inputNumber - base} else held,
            if o.Emitted? then s.packets + [o.packet] else s.packets,
            if o.Emitted? then s.claimed + [e.meta.inputNumber - base] else s.claimed)
  }

  function Run(s: Session, events: seq<Event>, base: int): Session {
    if events == [] then s else Do(Run(s, events[..|events| - 1], base), events[|events| - 1], base)
  }

  function Start(pattern: int, duration: nat, gopSize: nat): Session {
    Session(Created(pattern, duration, gopSize), [], {}, [], [])
  }

  // ---------------------------------------------------------------- ids

  ghost predicate IdsOk(enc: Venc) {
    && (forall i, j :: 0 <= i < j < |enc.pending| ==> enc.pending[i].id < enc.pending[j].id)
    && (forall i :: 0 <= i < |enc.pending| ==> enc.pending[i].id < enc.nextId)
  }

  lemma PushKeepsIds(enc: Venc, input: Input, idr: bool)
    requires IdsOk(enc)
    ensures IdsOk(Push(enc, input, idr))
  {
  }

  lemma RemoveKeepsIds(enc: Venc, i: nat)
    requires IdsOk(enc)
    ensures IdsOk(enc.(pending := RemoveAt(enc.pending, i)))
  {
    if i < |enc.pending| {
      var r := RemoveAt(enc.pending, i);
      assert forall k :: 0 <= k < |r| ==> r[k] == enc.pending[if k < i then k else k + 1];
    }
  }

  /** Pruning frees buffers and cuts the front off. */
  lemma PrunedAt(enc: Venc, k: nat)
    requires k < |Prune(enc).pending|
    ensures var d := |enc.pending| - |Prune(enc).pending|;
            && d == (if |enc.pending| > MAX_PENDING then |enc.pending| - MAX_PENDING else 0)
            && Prune(enc).pending[k].id == enc.pending[d + k].id
            && SameTimes(Prune(enc).pending[k].input, enc.pending[d + k].input)
  {
    var p := FreeOwned(enc.pending, KeepCount(enc.pattern));
    var d := |enc.pending| - |Prune(enc).pending|;
    assert Prune(enc).pending[k] == p[d + k];
  }

  lemma PruneKeepsIds(enc: Venc)
    requires IdsOk(enc)
    ensures IdsOk(Prune(enc))
  {
    var r := Prune(enc).pending;
    forall i, j | 0 <= i < j < |r| ensures r[i].id < r[j].id {
      PrunedAt(enc, i);
      PrunedAt(enc, j);
    }
    forall i | 0 <= i < |r| ensures r[i].id < enc.nextId { PrunedAt(enc, i); }
  }

  lemma TakeKeepsIds(enc: Venc, inputNumber: int)
    requires IdsOk(enc)
    ensures IdsOk(Take(enc, inputNumber))
  {
    var u := SetOrigin(enc, inputNumber);
    RemoveKeepsIds(u, MatchIndex(u, inputNumber));
  }

  lemma RecordKeepsIds(enc: Venc, dts: nat)
    requires IdsOk(enc)
    ensures IdsOk(RecordDts(enc, dts))
  {
  }

  lemma SubmitKeepsIds(enc: Venc, input: Input, force: bool, meta: Meta)
    requires IdsOk(enc)
    ensures IdsOk(Submit(enc, input, force, meta))
  {
    var t := Push(enc, input, RequestsIdr(enc, force));
    PushKeepsIds(enc, input, RequestsIdr(enc, force));
    if !meta.valid {
      WouldBlockRestores(enc, input, force, meta);
      FailureUsesAnId(enc, input, force, meta);
    } else if meta.length > 0 {
      TakeKeepsIds(t, meta.inputNumber);
      RecordKeepsIds(Take(t, meta.inputNumber), MakePacket(SetOrigin(t, meta.inputNumber), meta).dts);
    } else if HasBframes(enc.pattern) {
      PruneKeepsIds(t);
    } else {
      TakeKeepsIds(t, meta.inputNumber);
    }
  }

  /** Over every run: pending ids are strictly increasing and have all been given out. */
  lemma {:induction false} IdsIncrease(pattern: int, duration: nat, gopSize: nat, events: seq<Event>, base: int)
    ensures IdsOk(Run(Start(pattern, duration, gopSize), events, base).enc)
  {
    if events != [] {
      var before, e := events[..|events| - 1], events[|events| - 1];
      IdsIncrease(pattern, duration, gopSize, before, base);
      SubmitKeepsIds(Run(Start(pattern, duration, gopSize), before, base).enc, e.input, e.force, e.meta);
    }
  }

  /** A submission that would block leaves no trace. */
  lemma WouldBlockRestores(enc: Venc, input: Input, force: bool, meta: Meta)
    ensures SubmitOutcome(enc, input, force, meta).WouldBlock? ==> Submit(enc, input, force, meta) == enc
  {
    var t := Push(enc, input, RequestsIdr(enc, force));
    assert t.pending[..|t.pending| - 1] == enc.pending;
  }

  /** A hard error drops its frame but uses up its id. */
  lemma FailureUsesAnId(enc: Venc, input: Input, force: bool, meta: Meta)
    ensures SubmitOutcome(enc, input, force, meta).Failed? ==>
              Submit(enc, input, force, meta) == enc.(nextId := enc.nextId + 1)
  {
    var t := Push(enc, input, RequestsIdr(enc, force));
    assert t.pending[..|t.pending| - 1] == enc.pending;
  }

  // ---------------------------------------------------------------- matching

  /** What is asked of the codec: no hard error, a packet only for an input it holds, the first
      packet for the oldest of them, and never so many inputs held that the queue is cut. */
  ghost predicate CodecOk(s: Session, e: Event, base: int) {
    && (e.meta.valid || Blocks(e.meta))
    && (Reports(s.enc, e.meta) ==>
          var j := e.meta.inputNumber - base;
          && (j in s.inCodec || j == |s.accepted|)
          && (HasBframes(s.enc.pattern) && s.claimed == [] ==> j == 0))
    && |s.enc.pending| < MAX_PENDING
  }

  ghost predicate AllOk(pattern: int, duration: nat, gopSize: nat, events: seq<Event>, base: int) {
    forall n :: 0 <= n < |events| ==>
      CodecOk(Run(Start(pattern, duration, gopSize), events[..n], base), events[n], base)
  }

  predicate SameTimes(a: Input, b: Input) { a.pts == b.pts && a.dts == b.dts && a.duration == b.duration }

  ghost predicate Waits(pending: seq<Pending>, id: int) {
    exists i :: 0 <= i < |pending| && pending[i].id == id
  }

  ghost predicate QueueMatches(s: Session) {
    && IdsOk(s.enc) && s.enc.nextId == |s.accepted|
    && (forall i :: 0 <= i < |s.enc.pending| ==>
          s.enc.pending[i].id < |s.accepted| && SameTimes(s.enc.pending[i].input, s.accepted[s.enc.pending[i].id]))
    && (forall id: int :: id in s.inCodec <==> Waits(s.enc.pending, id))
  }

  ghost predicate OriginOk(s: Session, base: int) {
    HasBframes(s.enc.pattern) ==>
      && (s.claimed == [] ==>
            s.enc.origin.None? && (s.accepted != [] ==> s.enc.pending != [] && s.enc.pending[0].id == 0))
      && (s.claimed != [] ==> s.enc.origin == Some(Origin(base, 0)))
  }

  ghost predicate PacketsMatch(s: Session) {
    && |s.packets| == |s.claimed|
    && forall n :: 0 <= n < |s.packets| ==> PacketMatches(s, n)
  }

  /** Packet n carries the timestamps of the very input it was made from. */
  ghost predicate PacketMatches(s: Session, n: nat)
    requires n < |s.packets| == |s.claimed|
  {
    && 0 <= s.claimed[n] < |s.accepted|
    && s.packets[n].from.id == s.claimed[n]
    && SameTimes(s.packets[n].from.input, s.accepted[s.claimed[n]])
  }

  /** Without B-frames every accepted input comes out at once. */
  ghost predicate OneInOneOut(s: Session) {
    !HasBframes(s.enc.pattern) ==> s.enc.pending == []
  }

  ghost predicate Matching(s: Session, base: int) {
    QueueMatches(s) && OriginOk(s, base) && OneInOneOut(s) && PacketsMatch(s)
  }

  /** The state just after the input was queued and accepted. */
  function Queued(s: Session, e: Event): Session {
    s.(enc := Push(s.enc, e.input, RequestsIdr(s.enc, e.force)), accepted := s.accepted + [e.input],
       inCodec := s.inCodec + {|s.accepted|})
  }

  lemma QueuedMatches(s: Session, e: Event, base: int)
    requires Matching(s, base)
    ensures QueueMatches(Queued(s, e)) && PacketsMatch(Queued(s, e))
    ensures HasBframes(s.enc.pattern) && s.claimed == [] ==> Queued(s, e).enc.pending[0].id == 0
  {
    var t := Queued(s, e);
    PushKeepsIds(s.enc, e.input, RequestsIdr(s.enc, e.force));
    forall id: int ensures id in t.inCodec <==> Waits(t.enc.pending, id) {
      assert id in s.inCodec <==> Waits(s.enc.pending, id);
      if Waits(s.enc.pending, id) {
        var i :| 0 <= i < |s.enc.pending| && s.enc.pending[i].id == id;
        assert t.enc.pending[i].id == id;
      }
      assert t.enc.pending[|s.enc.pending|].id == |s.accepted|;
      if Waits(t.enc.pending, id) {
        var i :| 0 <= i < |t.enc.pending| && t.enc.pending[i].id == id;
        assert i < |s.enc.pending| ==> s.enc.pending[i].id == id;
      }
    }
    forall n | 0 <= n < |t.packets| ensures PacketMatches(t, n) { assert PacketMatches(s, n); }
  }

  /** The frame found for input j is frame j, and no other leaves the queue. */
  lemma TakeMatches(t: Session, inputNumber: int, base: int)
    requires QueueMatches(t) && inputNumber >= 0 && inputNumber - base in t.inCodec
    requires if HasBframes(t.enc.pattern) then
               t.enc.origin == Some(Origin(base, 0)) ||
               (t.enc.origin.None? && t.enc.pending != [] && t.enc.pending[0].id == 0 && inputNumber == base)
             else |t.enc.pending| == 1
    ensures var u := SetOrigin(t.enc, inputNumber); var i := MatchIndex(u, inputNumber);
            && i < |u.pending| && u.pending == t.enc.pending && u.pending[i].id == inputNumber - base
            && QueueMatches(t.(enc := Take(t.enc, inputNumber), inCodec := t.inCodec - {inputNumber - base}))
  {
    var u := SetOrigin(t.enc, inputNumber);
    var j := inputNumber - base;
    assert HasBframes(t.enc.pattern) ==> MatchId(u, inputNumber) == j;
    assert Waits(t.enc.pending, j);
    var i := MatchIndex(u, inputNumber);
    assert u.pending[i].id == j;
    RemoveKeepsIds(u, i);
    RemoveMatches(t, i);
  }

  lemma RemoveMatches(t: Session, i: nat)
    requires QueueMatches(t) && i < |t.enc.pending|
    ensures var r := RemoveAt(t.enc.pending, i);
            && (forall k :: 0 <= k < |r| ==> r[k].id < |t.accepted| && SameTimes(r[k].input, t.accepted[r[k].id]))
            && (forall id: int :: id in t.inCodec - {t.enc.pending[i].id} <==> Waits(r, id))
  {
    var p, r := t.enc.pending, RemoveAt(t.enc.pending, i);
    forall k | 0 <= k < |r| ensures r[k] == p[if k < i then k else k + 1] {}
    forall id: int ensures id in t.inCodec - {p[i].id} <==> Waits(r, id) {
      assert id in t.inCodec <==> Waits(p, id);
      if Waits(p, id) && id != p[i].id {
        var k :| 0 <= k < |p| && p[k].id == id;
        assert r[if k < i then k else k - 1].id == id;
      }
      if Waits(r, id) {
        var k :| 0 <= k < |r| && r[k].id == id;
        assert p[if k < i then k else k + 1].id == id;
      }
    }
  }

  lemma PruneMatches(t: Session)
    requires QueueMatches(t) && |t.enc.pending| <= MAX_PENDING
    ensures QueueMatches(t.(enc := Prune(t.enc)))
    ensures |Prune(t.enc).pending| == |t.enc.pending|
    ensures t.enc.pending != [] ==> Prune(t.enc).pending[0].id == t.enc.pending[0].id
  {
    PruneKeepsIds(t.enc);
    var p, r := t.enc.pending, Prune(t.enc).pending;
    assert |r| == |p|;
    forall i | 0 <= i < |p| ensures r[i].id == p[i].id && SameTimes(r[i].input, p[i].input) { PrunedAt(t.enc, i); }
    forall id: int ensures Waits(p, id) <==> Waits(r, id) {
      if Waits(p, id) { var i :| 0 <= i < |p| && p[i].id == id; assert r[i].id == id; }
      if Waits(r, id) { var i :| 0 <= i < |r| && r[i].id == id; assert p[i].id == id; }
    }
  }

  /** What a submission that reports a frame leaves behind. */
  ghost predicate IsTaken(s: Session, q: Session, t: Session, e: Event, base: int) {
    var num := e.meta.inputNumber;
    && t.accepted == q.accepted && t.inCodec == q.inCodec - {num - base}
    && t.enc.pending == Take(q.enc, num).pending && t.enc.nextId == q.enc.nextId
    && t.enc.pattern == s.enc.pattern && t.enc.duration == s.enc.duration
    && t.enc.origin == SetOrigin(q.enc, num).origin
    && (if e.meta.length <= 0 || q.enc.pending == [] then t.packets == s.packets && t.claimed == s.claimed
        else && t.packets == s.packets + [MakePacket(SetOrigin(q.enc, num), e.meta)]
             && t.claimed == s.claimed + [num - base])
  }

  lemma TakeShape(s: Session, e: Event, base: int)
    requires Reports(s.enc, e.meta)
    ensures IsTaken(s, Queued(s, e), Do(s, e, base), e, base) && Queued(s, e).enc.pending != []
  {
  }

  lemma TakeStepMatches(s: Session, e: Event, base: nat)
    requires Matching(s, base) && CodecOk(s, e, base)
    requires Reports(s.enc, e.meta)
    ensures Matching(Do(s, e, base), base)
  {
    TakeShape(s, e, base);
    QueuedMatches(s, e, base);
    TakenMatches(s, Queued(s, e), Do(s, e, base), e, base);
  }

  lemma TakenMatches(s: Session, q: Session, t: Session, e: Event, base: nat)
    requires OriginOk(s, base) && OneInOneOut(s) && CodecOk(s, e, base) && Reports(s.enc, e.meta)
    requires q == Queued(s, e) && QueueMatches(q) && PacketsMatch(q) && IsTaken(s, q, t, e, base)
    requires HasBframes(s.enc.pattern) && s.claimed == [] ==> q.enc.pending[0].id == 0
    ensures Matching(t, base)
  {
    OriginReady(s, q, e, base);
    TakeMatches(q, e.meta.inputNumber, base);
    TakenQueueMatches(q, t, e.meta.inputNumber, base);
    TakenPacketMatches(q, t, e, base);
    OriginAfterTake(s, q, t, e, base);
    OneOut(q.enc, e.meta.inputNumber);
  }

  /** What TakeMatches asks for holds before every submission that reports a frame. */
  lemma OriginReady(s: Session, q: Session, e: Event, base: nat)
    requires OriginOk(s, base) && OneInOneOut(s) && CodecOk(s, e, base) && Reports(s.enc, e.meta) && q == Queued(s, e)
    requires HasBframes(s.enc.pattern) && s.claimed == [] ==> q.enc.pending[0].id == 0
    ensures e.meta.inputNumber >= 0 ==> e.meta.inputNumber - base in q.inCodec
    ensures if HasBframes(q.enc.pattern) then
              q.enc.origin == Some(Origin(base, 0)) ||
              (q.enc.origin.None? && q.enc.pending != [] && q.enc.pending[0].id == 0 && e.meta.inputNumber == base)
            else |q.enc.pending| == 1
  {
  }

  lemma TakenQueueMatches(q: Session, t: Session, num: int, base: int)
    requires QueueMatches(q.(enc := Take(q.enc, num), inCodec := q.inCodec - {num - base}))
    requires t.accepted == q.accepted && t.inCodec == q.inCodec - {num - base}
    requires t.enc.pending == Take(q.enc, num).pending && t.enc.nextId == q.enc.nextId
    ensures QueueMatches(t)
  {
    DtsAside(q.(enc := Take(q.enc, num), inCodec := q.inCodec - {num - base}), t);
  }

  lemma OneOut(enc: Venc, inputNumber: int)
    ensures |enc.pending| == 1 ==> Take(enc, inputNumber).pending == []
  {
  }

  lemma OriginAfterTake(s: Session, q: Session, t: Session, e: Event, base: nat)
    requires OriginOk(s, base) && CodecOk(s, e, base) && Reports(s.enc, e.meta) && q == Queued(s, e)
    requires HasBframes(s.enc.pattern) && s.claimed == [] ==> q.enc.pending[0].id == 0
    requires t.enc.pattern == s.enc.pattern && t.enc.origin == SetOrigin(q.enc, e.meta.inputNumber).origin
    requires HasBframes(s.enc.pattern) ==> t.claimed == s.claimed + [e.meta.inputNumber - base]
    ensures OriginOk(t, base)
  {
  }

  /** The queue does not depend on the last timestamp or the packets. */
  lemma DtsAside(q: Session, t: Session)
    requires QueueMatches(q)
    requires t.enc.pending == q.enc.pending && t.enc.nextId == q.enc.nextId
    requires t.accepted == q.accepted && t.inCodec == q.inCodec
    ensures QueueMatches(t)
  {
  }

  lemma TakenPacketMatches(q: Session, t: Session, e: Event, base: nat)
    requires QueueMatches(q) && PacketsMatch(q) && t.accepted == q.accepted
    requires q.enc.pending != [] && e.meta.valid
    requires var u := SetOrigin(q.enc, e.meta.inputNumber); var i := MatchIndex(u, e.meta.inputNumber);
             && i < |u.pending| && u.pending == q.enc.pending && u.pending[i].id == e.meta.inputNumber - base
    requires if e.meta.length <= 0 then t.packets == q.packets && t.claimed == q.claimed
             else && t.packets == q.packets + [MakePacket(SetOrigin(q.enc, e.meta.inputNumber), e.meta)]
                  && t.claimed == q.claimed + [e.meta.inputNumber - base]
    ensures PacketsMatch(t)
  {
    forall n | 0 <= n < |t.packets| ensures PacketMatches(t, n) {
      assert n < |q.packets| ==> PacketMatches(q, n);
    }
  }

  lemma StepMatches(s: Session, e: Event, base: nat)
    requires Matching(s, base) && CodecOk(s, e, base)
    ensures Matching(Do(s, e, base), base)
  {
    if !e.meta.valid {
      WouldBlockRestores(s.enc, e.input, e.force, e.meta);
    } else if Reports(s.enc, e.meta) {
      TakeStepMatches(s, e, base);
    } else {
      var q, t := Queued(s, e), Do(s, e, base);
      QueuedMatches(s, e, base);
      PruneMatches(q);
      assert t == q.(enc := Prune(q.enc));
      forall n | 0 <= n < |t.packets| ensures PacketMatches(t, n) { assert PacketMatches(q, n); }
    }
  }

  lemma AllOkSplits(pattern: int, duration: nat, gopSize: nat, events: seq<Event>, base: int)
    requires events != [] && AllOk(pattern, duration, gopSize, events, base)
    ensures var n := |events| - 1;
            && AllOk(pattern, duration, gopSize, events[..n], base)
            && CodecOk(Run(Start(pattern, duration, gopSize), events[..n], base), events[n], base)
  {
    var n, start := |events| - 1, Start(pattern, duration, gopSize);
    forall m | 0 <= m < n ensures CodecOk(Run(start, events[..n][..m], base), events[..n][m], base) {
      assert events[..n][..m] == events[..m] && events[..n][m] == events[m];
      assert CodecOk(Run(start, events[..m], base), events[m], base);
    }
  }

  lemma RunSplits(s: Session, events: seq<Event>, base: int)
    requires events != []
    ensures var n := |events| - 1; Run(s, events, base) == Do(Run(s, events[..n], base), events[n], base)
  {
  }

  ghost predicate MatchingSession(s: Session, base: int, pattern: int, duration: nat) {
    Matching(s, base) && s.enc.pattern == pattern && s.enc.duration == duration
  }

  lemma StepKeepsMatching(s: Session, e: Event, base: nat, pattern: int, duration: nat)
    requires MatchingSession(s, base, pattern, duration) && CodecOk(s, e, base)
    ensures MatchingSession(Do(s, e, base), base, pattern, duration)
  {
    StepMatches(s, e, base);
  }

  lemma {:induction false} RunMatches(pattern: int, duration: nat, gopSize: nat, events: seq<Event>, base: nat)
    requires AllOk(pattern, duration, gopSize, events, base)
    ensures MatchingSession(Run(Start(pattern, duration, gopSize), events, base), base, pattern, duration)
  {
    if events != [] {
      var n := |events| - 1;
      AllOkSplits(pattern, duration, gopSize, events, base);
      RunSplits(Start(pattern, duration, gopSize), events, base);
      RunMatches(pattern, duration, gopSize, events[..n], base);
      StepKeepsMatching(Run(Start(pattern, duration, gopSize), events[..n], base), events[n], base, pattern, duration);
    }
  }

  /** Over every run of a codec that numbers its inputs one by one, from anywhere, and in whatever
      order it emits them: every packet is matched to its own input, with that input's timestamps. */
  lemma EveryPacketGetsItsOwnTimes(pattern: int, duration: nat, gopSize: nat, events: seq<Event>, base: nat, n: nat)
    requires AllOk(pattern, duration, gopSize, events, base)
    requires n < |Run(Start(pattern, duration, gopSize), events, base).packets|
    ensures var s := Run(Start(pattern, duration, gopSize), events, base);
            |s.packets| == |s.claimed| && PacketMatches(s, n)
  {
    RunMatches(pattern, duration, gopSize, events, base);
  }
}
