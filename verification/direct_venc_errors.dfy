/** Matching when hard errors happen: each uses up an id that the codec does not count. */
module DirectVencErrors {
  import opened DirectVenc
  import opened DirectVencSafety
  import opened Wrappers

  /** A session, the hard errors so far, and how many there were when each input was accepted. */
  datatype History = History(session: Session, failures: nat, errors: seq<nat>)

  function Next(h: History, e: Event, base: int): History {
    History(Do(h.session, e, base),
            if !e.meta.valid && !Blocks(e.meta) then h.failures + 1 else h.failures,
            if e.meta.valid then h.errors + [h.failures] else h.errors)
  }

  /** The hard errors in a run, and those before each input that was accepted. */
  function Failures(events: seq<Event>): nat {
    if events == [] then 0
    else
      var e := events[|events| - 1];
      Failures(events[..|events| - 1]) + if !e.meta.valid && !Blocks(e.meta) then 1 else 0
  }

  function ErrorsBefore(events: seq<Event>): seq<nat> {
    if events == [] then []
    else
      var before := events[..|events| - 1];
      ErrorsBefore(before) + if events[|events| - 1].meta.valid then [Failures(before)] else []
  }

  function HistoryOf(pattern: int, duration: nat, gopSize: nat, events: seq<Event>, base: int): History {
    History(Run(Start(pattern, duration, gopSize), events, base), Failures(events), ErrorsBefore(events))
  }

  lemma HistoryNext(pattern: int, duration: nat, gopSize: nat, events: seq<Event>, base: int)
    requires events != []
    ensures var n := |events| - 1;
            HistoryOf(pattern, duration, gopSize, events, base) ==
            Next(HistoryOf(pattern, duration, gopSize, events[..n], base), events[n], base)
  {
  }

  /** What is asked of the codec, hard errors allowed: a packet only for an input it holds, the first
      packet for the oldest of them, and never so many inputs held that the queue is cut. */
  ghost predicate CodecAllows(s: Session, e: Event, base: int) {
    && (Reports(s.enc, e.meta) ==>
          var j := e.meta.inputNumber - base;
          && 0 <= j && (j in s.inCodec || j == |s.accepted|)
          && (s.claimed == [] ==> j == 0))
    && |s.enc.pending| < MAX_PENDING
  }

  ghost predicate AllAllowed(pattern: int, duration: nat, gopSize: nat, events: seq<Event>, base: int) {
    forall n :: 0 <= n < |events| ==>
      CodecAllows(Run(Start(pattern, duration, gopSize), events[..n], base), events[n], base)
  }

  /** The id input j was queued under. */
  function IdOf(errors: seq<nat>, j: nat): nat
    requires j < |errors|
  {
    j + errors[j]
  }

  /** A pending frame is that of input j. */
  ghost predicate IsFrameOf(errors: seq<nat>, accepted: seq<Input>, p: Pending, j: nat) {
    j < |errors| == |accepted| && p.id == IdOf(errors, j) && SameTimes(p.input, accepted[j])
  }

  ghost predicate IsSomeFrame(errors: seq<nat>, accepted: seq<Input>, p: Pending) {
    exists j: nat :: IsFrameOf(errors, accepted, p, j)
  }

  ghost predicate ErrorsOk(h: History) {
    && |h.errors| == |h.session.accepted|
    && h.session.enc.nextId == |h.errors| + h.failures
    && (forall i, j :: 0 <= i < j < |h.errors| ==> h.errors[i] <= h.errors[j])
    && (forall j :: 0 <= j < |h.errors| ==> h.errors[j] <= h.failures)
    && IdsOk(h.session.enc)
    && (forall i :: 0 <= i < |h.session.enc.pending| ==>
          IsSomeFrame(h.errors, h.session.accepted, h.session.enc.pending[i]))
    && (forall j :: j in h.session.inCodec ==> 0 <= j < |h.errors|)
  }

  ghost predicate FirstOk(h: History, base: int) {
    var s := h.session;
    && HasBframes(s.enc.pattern)
    && (s.claimed == [] ==> s.enc.origin.None?)
    && (s.claimed == [] && h.errors != [] ==> s.enc.pending != [] && s.enc.pending[0].id == h.errors[0])
    && (s.claimed != [] ==> h.errors != [] && s.enc.origin == Some(Origin(base, h.errors[0])))
  }

  ghost predicate HistoryOk(h: History, base: int) { ErrorsOk(h) && FirstOk(h, base) }

  /** The history just after the input was queued and accepted. */
  function Accepted(h: History, e: Event): History {
    History(Queued(h.session, e), h.failures, h.errors + [h.failures])
  }

  lemma FrameStays(errors: seq<nat>, accepted: seq<Input>, p: Pending, more: nat, input: Input)
    requires |errors| == |accepted| && IsSomeFrame(errors, accepted, p)
    ensures IsSomeFrame(errors + [more], accepted + [input], p)
  {
    var j: nat :| IsFrameOf(errors, accepted, p, j);
    assert IsFrameOf(errors + [more], accepted + [input], p, j);
  }

  lemma AcceptedOk(h: History, e: Event, base: int)
    requires HistoryOk(h, base)
    ensures ErrorsOk(Accepted(h, e))
    ensures Accepted(h, e).session.enc.pending != []
    ensures h.session.claimed == [] ==> Accepted(h, e).session.enc.pending[0].id == Accepted(h, e).errors[0]
    ensures h.session.claimed != [] ==> Accepted(h, e).errors[0] == h.errors[0]
  {
    var t := Accepted(h, e);
    var p := h.session.enc.pending;
    PushKeepsIds(h.session.enc, e.input, RequestsIdr(h.session.enc, e.force));
    forall i | 0 <= i < |t.session.enc.pending|
      ensures IsSomeFrame(t.errors, t.session.accepted, t.session.enc.pending[i])
    {
      if i < |p| {
        FrameStays(h.errors, h.session.accepted, p[i], h.failures, e.input);
      } else {
        assert IsFrameOf(t.errors, t.session.accepted, t.session.enc.pending[i], |h.errors|);
      }
    }
  }

  // ---------------------------------------------------------------- the next packet

  /** The frame that the packet for input j is given, of the frames waiting then. */
  ghost predicate GetsOwnFrame(errors: seq<nat>, from: Pending, j: nat)
    requires j < |errors|
  {
    from.id == IdOf(errors, j)
  }

  lemma LookupIff(enc: Venc, base: nat, errors: seq<nat>, j: nat)
    requires HasBframes(enc.pattern) && enc.pending != [] && j < |errors|
    requires enc.origin == Some(Origin(base, errors[0]))
    ensures var i := MatchIndex(enc, base + j);
            && i < |enc.pending|
            && (GetsOwnFrame(errors, enc.pending[i], j) <==>
                (errors[j] == errors[0] && Waits(enc.pending, IdOf(errors, j))) ||
                (!Waits(enc.pending, j + errors[0]) && enc.pending[0].id == IdOf(errors, j)))
  {
    assert MatchId(enc, base + j) == j + errors[0];
    var i := FindFrom(enc.pending, j + errors[0], 0);
    if i < |enc.pending| { assert Waits(enc.pending, j + errors[0]); }
  }

  /** The next packet, its input and what waits when it comes. */
  ghost predicate MatchedIff(q: History, from: Pending, j: int) {
    && 0 <= j < |q.errors| && q.session.enc.pending != []
    && IsSomeFrame(q.errors, q.session.accepted, from)
    && (GetsOwnFrame(q.errors, from, j) <==>
        (q.errors[j] == q.errors[0] && Waits(q.session.enc.pending, IdOf(q.errors, j))) ||
        (!Waits(q.session.enc.pending, j + q.errors[0]) && q.session.enc.pending[0].id == IdOf(q.errors, j)))
  }

  lemma EmitsMatch(enc: Venc, input: Input, force: bool, meta: Meta)
    requires meta.valid && meta.length > 0
    ensures var u := SetOrigin(Push(enc, input, RequestsIdr(enc, force)), meta.inputNumber);
            var i := MatchIndex(u, meta.inputNumber); var o := SubmitOutcome(enc, input, force, meta);
            i < |u.pending| ==> o.Emitted? && o.packet.from == u.pending[i]
  {
  }

  lemma MatchedFrom(q: History, u: Venc, base: nat, j: nat)
    requires ErrorsOk(q) && j < |q.errors| && HasBframes(u.pattern)
    requires u.pending == q.session.enc.pending && u.pending != [] && u.origin == Some(Origin(base, q.errors[0]))
    ensures var i := MatchIndex(u, base + j); i < |u.pending| && MatchedIff(q, u.pending[i], j)
  {
    LookupIff(u, base, q.errors, j);
  }

  /** The origin in force when a packet is matched counts from the first frame's errors. */
  lemma OriginInForce(h: History, e: Event, base: nat)
    requires HistoryOk(h, base) && CodecAllows(h.session, e, base) && e.meta.valid && e.meta.length > 0
    ensures var q := Accepted(h, e); var u := SetOrigin(q.session.enc, e.meta.inputNumber);
            && HasBframes(u.pattern) && u.pending == q.session.enc.pending && u.pending != []
            && q.errors != [] && u.origin == Some(Origin(base, q.errors[0]))
            && 0 <= e.meta.inputNumber - base < |q.errors|
  {
    AcceptedOk(h, e, base);
  }

  lemma NextPacket(h: History, e: Event, base: nat)
    requires HistoryOk(h, base) && CodecAllows(h.session, e, base) && e.meta.valid && e.meta.length > 0
    ensures var o := SubmitOutcome(h.session.enc, e.input, e.force, e.meta);
            o.Emitted? && MatchedIff(Accepted(h, e), o.packet.from, e.meta.inputNumber - base)
  {
    AcceptedOk(h, e, base);
    OriginInForce(h, e, base);
    var q, num := Accepted(h, e), e.meta.inputNumber;
    MatchedFrom(q, SetOrigin(q.session.enc, num), base, num - base);
    EmitsMatch(h.session.enc, e.input, e.force, e.meta);
  }

  // ---------------------------------------------------------------- every run

  lemma RemoveKeepsFrames(errors: seq<nat>, accepted: seq<Input>, pending: seq<Pending>, i: nat)
    requires forall k :: 0 <= k < |pending| ==> IsSomeFrame(errors, accepted, pending[k])
    ensures var r := RemoveAt(pending, i); forall k :: 0 <= k < |r| ==> IsSomeFrame(errors, accepted, r[k])
  {
    var r := RemoveAt(pending, i);
    if i < |pending| {
      forall k | 0 <= k < |r| ensures r[k] == pending[if k < i then k else k + 1] {}
    }
  }

  lemma TakeOk(q: History, inputNumber: int, base: int)
    requires ErrorsOk(q) && HasBframes(q.session.enc.pattern)
    ensures ErrorsOk(q.(session := q.session.(enc := Take(q.session.enc, inputNumber),
                                              inCodec := q.session.inCodec - {inputNumber - base})))
  {
    var u := SetOrigin(q.session.enc, inputNumber);
    TakeKeepsIds(q.session.enc, inputNumber);
    RemoveKeepsFrames(q.errors, q.session.accepted, q.session.enc.pending, MatchIndex(u, inputNumber));
  }

  lemma PruneOk(q: History)
    requires ErrorsOk(q) && |q.session.enc.pending| <= MAX_PENDING
    ensures ErrorsOk(q.(session := q.session.(enc := Prune(q.session.enc))))
    ensures |Prune(q.session.enc).pending| == |q.session.enc.pending|
    ensures q.session.enc.pending != [] ==> Prune(q.session.enc).pending[0].id == q.session.enc.pending[0].id
  {
    var p, r := q.session.enc.pending, Prune(q.session.enc).pending;
    PruneKeepsIds(q.session.enc);
    assert |r| == |p|;
    forall i | 0 <= i < |r| ensures r[i].id == p[i].id && IsSomeFrame(q.errors, q.session.accepted, r[i]) {
      PrunedAt(q.session.enc, i);
      var j: nat :| IsFrameOf(q.errors, q.session.accepted, p[i], j);
      assert IsFrameOf(q.errors, q.session.accepted, r[i], j);
    }
  }

  lemma TakenOk(h: History, e: Event, base: nat)
    requires HistoryOk(h, base) && CodecAllows(h.session, e, base) && e.meta.valid && e.meta.length > 0
    ensures HistoryOk(Next(h, e, base), base)
  {
    AcceptedOk(h, e, base);
    var q, t := Accepted(h, e), Next(h, e, base);
    TakeOk(q, e.meta.inputNumber, base);
    TakeShape(h.session, e, base);
    SameQueueOk(q.(session := q.session.(enc := Take(q.session.enc, e.meta.inputNumber),
                                         inCodec := q.session.inCodec - {e.meta.inputNumber - base})), t);
    FirstAfterTake(h, q, t, e, base);
  }

  lemma FirstAfterTake(h: History, q: History, t: History, e: Event, base: nat)
    requires FirstOk(h, base) && CodecAllows(h.session, e, base) && e.meta.valid && e.meta.length > 0
    requires q == Accepted(h, e) && t.errors == q.errors
    requires h.session.claimed == [] ==> q.session.enc.pending[0].id == q.errors[0]
    requires h.session.claimed != [] ==> q.errors[0] == h.errors[0]
    requires t.session.enc.pattern == h.session.enc.pattern
    requires t.session.enc.origin == SetOrigin(q.session.enc, e.meta.inputNumber).origin
    requires t.session.claimed == h.session.claimed + [e.meta.inputNumber - base]
    ensures FirstOk(t, base)
  {
  }

  lemma SameQueueOk(q: History, t: History)
    requires ErrorsOk(q) && t.errors == q.errors && t.failures == q.failures
    requires t.session.accepted == q.session.accepted && t.session.inCodec == q.session.inCodec
    requires t.session.enc.pending == q.session.enc.pending && t.session.enc.nextId == q.session.enc.nextId
    ensures ErrorsOk(t)
  {
  }

  lemma QuietOk(h: History, e: Event, base: nat)
    requires HistoryOk(h, base) && CodecAllows(h.session, e, base) && e.meta.valid && e.meta.length <= 0
    ensures HistoryOk(Next(h, e, base), base)
  {
    AcceptedOk(h, e, base);
    var q := Accepted(h, e);
    PruneOk(q);
    assert Next(h, e, base) == q.(session := q.session.(enc := Prune(q.session.enc)));
  }

  lemma NextOk(h: History, e: Event, base: nat)
    requires HistoryOk(h, base) && CodecAllows(h.session, e, base)
    ensures HistoryOk(Next(h, e, base), base)
  {
    if e.meta.valid {
      if e.meta.length > 0 { TakenOk(h, e, base); } else { QuietOk(h, e, base); }
    } else {
      WouldBlockRestores(h.session.enc, e.input, e.force, e.meta);
      FailureUsesAnId(h.session.enc, e.input, e.force, e.meta);
      UnansweredOk(h, Next(h, e, base), base);
    }
  }

  lemma UnansweredOk(h: History, t: History, base: nat)
    requires HistoryOk(h, base) && t.errors == h.errors
    requires t == h || (t.failures == h.failures + 1 &&
               t.session == h.session.(enc := h.session.enc.(nextId := h.session.enc.nextId + 1)))
    ensures HistoryOk(t, base)
  {
  }

  lemma AllAllowedBefore(pattern: int, duration: nat, gopSize: nat, events: seq<Event>, base: nat)
    requires events != [] && AllAllowed(pattern, duration, gopSize, events, base)
    ensures AllAllowed(pattern, duration, gopSize, events[..|events| - 1], base)
  {
    var n := |events| - 1;
    forall m | 0 <= m < n
      ensures CodecAllows(Run(Start(pattern, duration, gopSize), events[..n][..m], base), events[..n][m], base)
    {
      assert events[..n][..m] == events[..m];
    }
  }

  lemma {:induction false} RunOk(pattern: int, duration: nat, gopSize: nat, events: seq<Event>, base: nat)
    requires HasBframes(pattern) && AllAllowed(pattern, duration, gopSize, events, base)
    ensures HistoryOk(HistoryOf(pattern, duration, gopSize, events, base), base)
  {
    if events != [] {
      var n := |events| - 1;
      AllAllowedBefore(pattern, duration, gopSize, events, base);
      RunOk(pattern, duration, gopSize, events[..n], base);
      NextOk(HistoryOf(pattern, duration, gopSize, events[..n], base), events[n], base);
      HistoryNext(pattern, duration, gopSize, events, base);
    }
  }

  // ---------------------------------------------------------------- main results

  /** Over every run with B-frames, after any number of hard errors at any times: a packet carries the
      times of some input the codec accepted, and is given its own input's frame if and only if that
      frame is still waiting and no hard error came between the first input and this one, or nothing
      waits under the id it is looked for and its own frame is the oldest. */
  lemma OwnFrameIffNoErrorBetween(pattern: int, duration: nat, gopSize: nat, events: seq<Event>, e: Event, base: nat)
    requires HasBframes(pattern) && AllAllowed(pattern, duration, gopSize, events, base)
    requires CodecAllows(Run(Start(pattern, duration, gopSize), events, base), e, base)
    requires e.meta.valid && e.meta.length > 0
    ensures var s := Run(Start(pattern, duration, gopSize), events, base);
            var o := SubmitOutcome(s.enc, e.input, e.force, e.meta);
            && o.Emitted?
            && MatchedIff(Accepted(History(s, Failures(events), ErrorsBefore(events)), e), o.packet.from,
                          e.meta.inputNumber - base)
  {
    RunOk(pattern, duration, gopSize, events, base);
    NextPacket(HistoryOf(pattern, duration, gopSize, events, base), e, base);
  }

  // ---------------------------------------------------------------- without B-frames

  lemma AloneIsTaken(enc: Venc, input: Input, force: bool, meta: Meta)
    requires !HasBframes(enc.pattern) && enc.pending == []
    ensures var t, o := Submit(enc, input, force, meta), SubmitOutcome(enc, input, force, meta);
            && t.pending == [] && t.pattern == enc.pattern
            && (o.Emitted? ==> o.packet.from.input == input)
  {
  }

  lemma {:induction false} NothingWaits(pattern: int, duration: nat, gopSize: nat, events: seq<Event>, base: int)
    requires !HasBframes(pattern)
    ensures var s := Run(Start(pattern, duration, gopSize), events, base);
            s.enc.pending == [] && s.enc.pattern == pattern
  {
    if events != [] {
      var n := |events| - 1;
      NothingWaits(pattern, duration, gopSize, events[..n], base);
      AloneIsTaken(Run(Start(pattern, duration, gopSize), events[..n], base).enc, events[n].input, events[n].force,
                   events[n].meta);
    }
  }

  /** Over every run without B-frames, whatever hard errors came and however the codec numbers: a packet
      carries the times of the very input it answers. */
  lemma WithoutBframesErrorsAreHarmless(pattern: int, duration: nat, gopSize: nat, events: seq<Event>, e: Event,
                                        base: int)
    requires !HasBframes(pattern) && e.meta.valid && e.meta.length > 0
    ensures var o := SubmitOutcome(Run(Start(pattern, duration, gopSize), events, base).enc, e.input, e.force, e.meta);
            o.Emitted? && o.packet.from.input == e.input
  {
    NothingWaits(pattern, duration, gopSize, events, base);
    AloneIsTaken(Run(Start(pattern, duration, gopSize), events, base).enc, e.input, e.force, e.meta);
  }

  // ---------------------------------------------------------------- a failing run

  const PACKET := Meta(true, false, 0, 8, false)
  const QUIET := Meta(true, false, 0, 0, false)
  const BROKEN := Meta(false, false, -1, 0, false)

  /** Input x comes out at once; a hard error; y is accepted without a packet; then z, with its own. */
  function Unlucky(x: Input, y: Input, z: Input): seq<Event> {
    [Event(x, false, PACKET), Event(x, false, BROKEN), Event(y, false, QUIET),
     Event(z, false, PACKET.(inputNumber := 2))]
  }

  /** The session before submission m. */
  function UnluckyTo(m: nat, x: Input, y: Input, z: Input): Session
    requires m <= 4
  {
    Run(Start(1, 1, 0), Unlucky(x, y, z)[..m], 0)
  }

  lemma UnluckyNext(m: nat, x: Input, y: Input, z: Input)
    requires m < 4
    ensures UnluckyTo(m + 1, x, y, z) == Do(UnluckyTo(m, x, y, z), Unlucky(x, y, z)[m], 0)
  {
    assert Unlucky(x, y, z)[..m + 1][..m] == Unlucky(x, y, z)[..m];
  }

  lemma UnluckyToTwo(x: Input, y: Input, z: Input)
    ensures UnluckyTo(0, x, y, z) == Start(1, 1, 0)
    ensures UnluckyTo(1, x, y, z).enc.pending == []
    ensures var s := UnluckyTo(2, x, y, z);
            && s.enc.pattern == 1 && s.enc.nextId == 2 && s.enc.pending == [] && s.enc.origin == Some(Origin(0, 0))
            && s.accepted == [x] && s.claimed == [0] && |s.packets| == 1
  {
    assert Unlucky(x, y, z)[..0] == [];
    UnluckyNext(0, x, y, z);
    UnluckyNext(1, x, y, z);
  }

  lemma UnluckyToThree(x: Input, y: Input, z: Input)
    ensures var s := UnluckyTo(3, x, y, z);
            && s.enc.pattern == 1 && s.enc.nextId == 3 && s.enc.origin == Some(Origin(0, 0))
            && |s.enc.pending| == 1 && s.enc.pending[0].id == 2 && SameTimes(s.enc.pending[0].input, y)
            && s.accepted == [x, y] && s.claimed == [0] && |s.packets| == 1
  {
    UnluckyToTwo(x, y, z);
    UnluckyNext(2, x, y, z);
  }

  lemma UnluckyIsAllowed(x: Input, y: Input, z: Input)
    ensures AllAllowed(1, 1, 0, Unlucky(x, y, z), 0)
  {
    UnluckyToTwo(x, y, z);
    UnluckyToThree(x, y, z);
    forall n | 0 <= n < 4 ensures CodecAllows(UnluckyTo(n, x, y, z), Unlucky(x, y, z)[n], 0) {}
  }

  lemma MatchesTheOther(s: Session, y: Input, e: Event)
    requires s.enc.pattern == 1 && s.enc.nextId == 3 && s.enc.origin == Some(Origin(0, 0))
    requires |s.enc.pending| == 1 && s.enc.pending[0].id == 2 && SameTimes(s.enc.pending[0].input, y)
    requires e.meta == PACKET.(inputNumber := 2)
    ensures var o := SubmitOutcome(s.enc, e.input, e.force, e.meta);
            o.Emitted? && SameTimes(o.packet.from.input, y)
  {
    var u := SetOrigin(Push(s.enc, e.input, RequestsIdr(s.enc, e.force)), 2);
    assert u.pending[0].id == 2 == MatchId(u, 2);
  }

  /** The codec keeps its bargain and says the last packet is made from z, and it carries the times of y. */
  lemma AnErrorMisattributes(x: Input, y: Input, z: Input)
    ensures AllAllowed(1, 1, 0, Unlucky(x, y, z), 0)
    ensures var s := Run(Start(1, 1, 0), Unlucky(x, y, z), 0);
            && s.accepted == [x, y, z] && s.claimed == [0, 2]
            && |s.packets| == 2 && SameTimes(s.packets[1].from.input, y)
  {
    UnluckyIsAllowed(x, y, z);
    UnluckyToThree(x, y, z);
    UnluckyNext(3, x, y, z);
    MatchesTheOther(UnluckyTo(3, x, y, z), y, Unlucky(x, y, z)[3]);
    assert Unlucky(x, y, z)[..4] == Unlucky(x, y, z);
  }
}
