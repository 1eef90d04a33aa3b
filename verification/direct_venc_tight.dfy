/** The delay given to a pattern is exactly as long as it must be: one place more of reordering, and a
    packet is to be decoded after it is to be shown. */
module DirectVencTight {
  import opened DirectVenc
  import opened DirectVencDts
  import opened DirectVencSafety
  import opened Wrappers

  /** Input k of an evenly spaced stream, with the packet the codec answers with, if any. */
  function Submission(k: nat, duration: nat, packet: Option<nat>): Event {
    Event(Input(Tick(0, k, duration), UNKNOWN, duration, false), false,
          match packet
          case None => Meta(true, false, 0, 0, false)
          case Some(j) => Meta(true, false, j, 8, false))
  }

  /** Input 0 comes out at once; the k inputs after it do not. */
  function Held(k: nat, duration: nat): seq<Event> {
    if k == 0 then [Submission(0, duration, Some(0))]
    else Held(k - 1, duration) + [Submission(k, duration, None)]
  }

  /** Then input d + 1 comes out before its turn by d places, and input 1 after its turn by one. */
  function OneMore(d: nat, duration: nat): seq<Event> {
    Held(d, duration) + [Submission(d + 1, duration, Some(d + 1))] + [Submission(d + 2, duration, Some(1))]
  }

  lemma AllOkPush(pattern: int, duration: nat, events: seq<Event>, e: Event)
    requires AllOk(pattern, duration, 0, events, 0)
    requires CodecOk(Run(Start(pattern, duration, 0), events, 0), e, 0)
    ensures AllOk(pattern, duration, 0, events + [e], 0)
    ensures Run(Start(pattern, duration, 0), events + [e], 0) == Do(Run(Start(pattern, duration, 0), events, 0), e, 0)
  {
    var more := events + [e];
    assert more[..|events|] == events;
    forall n | 0 <= n < |more|
      ensures CodecOk(Run(Start(pattern, duration, 0), more[..n], 0), more[n], 0)
    {
      if n < |events| { assert more[..n] == events[..n]; }
    }
  }

  /** The session after k inputs are held back. */
  ghost predicate Holding(s: Session, pattern: int, duration: nat, k: nat) {
    && s.enc.pattern == pattern && s.enc.duration == duration
    && |s.accepted| == k + 1 && EvenlySpaced(s.accepted, 0, duration)
    && (forall j :: j in s.inCodec <==> 1 <= j <= k)
    && |s.enc.pending| == k && s.claimed == [0] && |s.packets| == 1
  }

  lemma FirstHolds(pattern: int, duration: nat)
    requires HasBframes(pattern)
    ensures AllOk(pattern, duration, 0, Held(0, duration), 0)
    ensures Holding(Run(Start(pattern, duration, 0), Held(0, duration), 0), pattern, duration, 0)
  {
    var e := Submission(0, duration, Some(0));
    assert [] + [e] == Held(0, duration);
    AllOkPush(pattern, duration, [], e);
    FirstStep(Start(pattern, duration, 0), e);
  }

  lemma FirstStep(s: Session, e: Event)
    requires s == Start(s.enc.pattern, s.enc.duration, 0) && HasBframes(s.enc.pattern)
    requires e == Submission(0, s.enc.duration, Some(0))
    ensures Holding(Do(s, e, 0), s.enc.pattern, s.enc.duration, 0)
  {
    TakeShape(s, e, 0);
    FirstTaken(s, Queued(s, e), Do(s, e, 0), e);
  }

  lemma FirstTaken(s: Session, q: Session, t: Session, e: Event)
    requires s == Start(s.enc.pattern, s.enc.duration, 0) && e == Submission(0, s.enc.duration, Some(0))
    requires q == Queued(s, e) && IsTaken(s, q, t, e, 0)
    ensures Holding(t, s.enc.pattern, s.enc.duration, 0)
  {
    OneOut(q.enc, 0);
  }

  lemma QuietStep(s: Session, pattern: int, duration: nat, k: nat)
    requires HasBframes(pattern) && Holding(s, pattern, duration, k) && k < 8
    ensures CodecOk(s, Submission(k + 1, duration, None), 0)
    ensures Holding(Do(s, Submission(k + 1, duration, None), 0), pattern, duration, k + 1)
  {
    var e := Submission(k + 1, duration, None);
    var t := Do(s, e, 0);
    assert |t.enc.pending| == |Push(s.enc, e.input, RequestsIdr(s.enc, e.force)).pending|;
  }

  lemma {:induction false} HeldHolds(pattern: int, duration: nat, k: nat)
    requires HasBframes(pattern) && k <= 8
    ensures AllOk(pattern, duration, 0, Held(k, duration), 0)
    ensures Holding(Run(Start(pattern, duration, 0), Held(k, duration), 0), pattern, duration, k)
  {
    if k == 0 {
      FirstHolds(pattern, duration);
    } else {
      HeldHolds(pattern, duration, k - 1);
      var s := Run(Start(pattern, duration, 0), Held(k - 1, duration), 0);
      QuietStep(s, pattern, duration, k - 1);
      AllOkPush(pattern, duration, Held(k - 1, duration), Submission(k, duration, None));
    }
  }

  lemma EarlyStep(s: Session, pattern: int, duration: nat, d: nat)
    requires HasBframes(pattern) && Holding(s, pattern, duration, d) && 0 < d <= 8
    ensures var e := Submission(d + 1, duration, Some(d + 1)); var t := Do(s, e, 0);
            && CodecOk(s, e, 0)
            && t.enc.pattern == pattern && |t.accepted| == d + 2 && EvenlySpaced(t.accepted, 0, duration)
            && 1 in t.inCodec && |t.enc.pending| <= d + 1 && t.claimed == [0, d + 1]
  {
    TakeShape(s, Submission(d + 1, duration, Some(d + 1)), 0);
  }

  lemma LateStep(s: Session, pattern: int, duration: nat, d: nat)
    requires HasBframes(pattern) && s.enc.pattern == pattern && 0 < d <= 8
    requires |s.accepted| == d + 2 && EvenlySpaced(s.accepted, 0, duration)
    requires 1 in s.inCodec && |s.enc.pending| <= d + 1 && s.claimed == [0, d + 1]
    ensures var e := Submission(d + 2, duration, Some(1)); var t := Do(s, e, 0);
            && CodecOk(s, e, 0) && EvenlySpaced(t.accepted, 0, duration)
            && |t.accepted| == d + 3 && t.claimed == [0, d + 1, 1]
  {
    TakeShape(s, Submission(d + 2, duration, Some(1)), 0);
  }

  lemma OneMoreRuns(pattern: int, duration: nat)
    requires HasBframes(pattern)
    ensures var d := DelayFrames(pattern); var s := Run(Start(pattern, duration, 0), OneMore(d, duration), 0);
            && AllOk(pattern, duration, 0, OneMore(d, duration), 0)
            && EvenlySpaced(s.accepted, 0, duration) && |s.accepted| == d + 3 && s.claimed == [0, d + 1, 1]
  {
    var d := DelayFrames(pattern);
    HeldHolds(pattern, duration, d);
    var s := Run(Start(pattern, duration, 0), Held(d, duration), 0);
    var early, late := Submission(d + 1, duration, Some(d + 1)), Submission(d + 2, duration, Some(1));
    EarlyStep(s, pattern, duration, d);
    AllOkPush(pattern, duration, Held(d, duration), early);
    LateStep(Do(s, early, 0), pattern, duration, d);
    AllOkPush(pattern, duration, Held(d, duration) + [early], late);
  }

  /** The decoding times of three packets made from inputs 0, d + 1 and 1. */
  lemma ThreePackets(s: Session, d: nat)
    requires AllStamped(s) && TracksDts(s.enc) && PacketsMatch(s) && d == DelayFrames(s.enc.pattern)
    requires EvenlySpaced(s.accepted, 0, s.enc.duration) && s.claimed == [0, d + 1, 1]
    requires Tick(0, d + d + 1, s.enc.duration) < UNKNOWN
    ensures s.packets[2].dts > s.packets[2].pts
  {
    var D, end := s.enc.duration, d + d + 1;
    assert PacketMatches(s, 0) && PacketMatches(s, 1) && PacketMatches(s, 2);
    assert Stamped(s.enc, s.packets, 0) && Stamped(s.enc, s.packets, 1) && Stamped(s.enc, s.packets, 2);
    TicksInOrder(0, 1, d + 1, D);
    TicksInOrder(0, d + 1, 1, D);
    TicksInOrder(0, d + 2, end, D);
    OnePacket(s.enc.(lastDts := None), s.packets[0].from, 0, 0, end);
    OnePacket(s.enc.(lastDts := Some(s.packets[0].dts)), s.packets[1].from, 0, d + 1, end);
    OnePacket(s.enc.(lastDts := Some(s.packets[1].dts)), s.packets[2].from, 0, 1, end);
  }

  /** For every pattern with B-frames there is a run of a codec that keeps its bargain, with evenly
      spaced inputs and packets at most d places early and one place late, in which a packet is to be
      decoded after it is to be shown. */
  lemma DelayIsTight(pattern: int, duration: nat)
    requires HasBframes(pattern) && duration != 0 && 17 * duration < UNKNOWN
    ensures var d := DelayFrames(pattern); var s := Run(Start(pattern, duration, 0), OneMore(d, duration), 0);
            && AllOk(pattern, duration, 0, OneMore(d, duration), 0)
            && EvenlySpaced(s.accepted, 0, duration) && Reordered(s.claimed, d, 1)
            && |s.packets| == 3 && s.packets[2].dts > s.packets[2].pts
  {
    var d := DelayFrames(pattern);
    OneMoreIsTight(pattern, duration);
    TightSession(Run(Start(pattern, duration, 0), OneMore(d, duration), 0), d);
  }

  ghost predicate Tight(s: Session, d: nat) {
    && AllStamped(s) && TracksDts(s.enc) && PacketsMatch(s) && d == DelayFrames(s.enc.pattern)
    && EvenlySpaced(s.accepted, 0, s.enc.duration) && s.claimed == [0, d + 1, 1] && 17 * s.enc.duration < UNKNOWN
  }

  lemma TightSession(s: Session, d: nat)
    requires Tight(s, d)
    ensures Reordered(s.claimed, d, 1) && |s.packets| == 3 && s.packets[2].dts > s.packets[2].pts
  {
    TicksInOrder(0, d + d + 1, 17, s.enc.duration);
    ThreePackets(s, d);
  }

  lemma OneMoreIsTight(pattern: int, duration: nat)
    requires HasBframes(pattern) && duration != 0 && 17 * duration < UNKNOWN
    ensures var d := DelayFrames(pattern); var s := Run(Start(pattern, duration, 0), OneMore(d, duration), 0);
            AllOk(pattern, duration, 0, OneMore(d, duration), 0) && Tight(s, d) && s.enc.duration == duration
  {
    OneMoreRuns(pattern, duration);
    RunMatches(pattern, duration, 0, OneMore(DelayFrames(pattern), duration), 0);
    RunStamps(pattern, duration, 0, OneMore(DelayFrames(pattern), duration), 0);
  }
}
