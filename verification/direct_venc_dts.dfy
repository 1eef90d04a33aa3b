/** The decoding timestamps of a run of packets. */
module DirectVencDts {
  import opened DirectVenc
  import opened Wrappers
  import opened DirectVencSafety

  /** The last decoding timestamp before packet n. */
  function Before(packets: seq<Packet>, n: nat): Option<nat>
    requires n <= |packets|
  {
    if n == 0 then None else Some(packets[n - 1].dts)
  }

  /** How packet n was stamped. */
  ghost predicate Stamped(enc: Venc, packets: seq<Packet>, n: nat)
    requires n < |packets|
  {
    && packets[n].pts == PacketPts(enc, packets[n].from)
    && packets[n].dts == PacketDts(enc.(lastDts := Before(packets, n)), packets[n].from, packets[n].pts)
  }

  ghost predicate AllStamped(s: Session) {
    && s.enc.lastDts == Before(s.packets, |s.packets|)
    && forall n :: 0 <= n < |s.packets| ==> Stamped(s.enc, s.packets, n)
  }

  lemma SubmitRecords(enc: Venc, input: Input, force: bool, meta: Meta)
    requires TracksDts(enc)
    ensures var t := Submit(enc, input, force, meta); var o := SubmitOutcome(enc, input, force, meta);
            && t.pattern == enc.pattern && t.duration == enc.duration
            && t.lastDts == (if o.Emitted? then Some(o.packet.dts) else enc.lastDts)
            && (o.Emitted? ==> o.packet.pts == PacketPts(enc, o.packet.from) &&
                               o.packet.dts == PacketDts(enc, o.packet.from, o.packet.pts))
  {
  }

  /** Stamping depends on the pattern, the duration and the last timestamp only. */
  lemma SameStamp(enc: Venc, t: Venc, packets: seq<Packet>, n: nat)
    requires n < |packets| && t.pattern == enc.pattern && t.duration == enc.duration
    ensures Stamped(enc, packets, n) <==> Stamped(t, packets, n)
  {
  }

  lemma StampedEarlier(enc: Venc, packets: seq<Packet>, more: seq<Packet>, n: nat)
    requires n < |packets| && packets <= more && Stamped(enc, packets, n)
    ensures Stamped(enc, more, n)
  {
  }

  lemma NextStamped(enc: Venc, t: Venc, packets: seq<Packet>, packet: Packet)
    requires enc.lastDts == Before(packets, |packets|)
    requires forall n :: 0 <= n < |packets| ==> Stamped(enc, packets, n)
    requires packet.pts == PacketPts(enc, packet.from) && packet.dts == PacketDts(enc, packet.from, packet.pts)
    requires t.pattern == enc.pattern && t.duration == enc.duration && t.lastDts == Some(packet.dts)
    ensures var more := packets + [packet];
            && t.lastDts == Before(more, |more|)
            && (forall n :: 0 <= n < |more| ==> Stamped(t, more, n))
  {
    var more := packets + [packet];
    forall n | 0 <= n < |more| ensures Stamped(t, more, n) {
      if n < |packets| { StampedEarlier(enc, packets, more, n); }
      SameStamp(enc, t, more, n);
    }
  }

  lemma StepStamps(s: Session, e: Event, base: int)
    requires AllStamped(s) && TracksDts(s.enc)
    ensures AllStamped(Do(s, e, base)) && TracksDts(Do(s, e, base).enc)
  {
    SubmitRecords(s.enc, e.input, e.force, e.meta);
    var t, o := Submit(s.enc, e.input, e.force, e.meta), SubmitOutcome(s.enc, e.input, e.force, e.meta);
    if o.Emitted? {
      NextStamped(s.enc, t, s.packets, o.packet);
    } else {
      forall n | 0 <= n < |s.packets| ensures Stamped(t, s.packets, n) { SameStamp(s.enc, t, s.packets, n); }
    }
  }

  lemma {:induction false} RunStamps(pattern: int, duration: nat, gopSize: nat, events: seq<Event>, base: int)
    requires HasBframes(pattern) && duration != 0
    ensures var s := Run(Start(pattern, duration, gopSize), events, base);
            AllStamped(s) && s.enc.pattern == pattern && s.enc.duration == duration
  {
    if events != [] {
      RunStamps(pattern, duration, gopSize, events[..|events| - 1], base);
      StepStamps(Run(Start(pattern, duration, gopSize), events[..|events| - 1], base), events[|events| - 1], base);
    }
  }

  /** Over every run, whatever the codec does: a packet is to be decoded at least one frame duration
      after the one before it, as long as that time fits in 64 bits. */
  lemma DtsAdvances(pattern: int, duration: nat, gopSize: nat, events: seq<Event>, base: int, n: nat)
    requires HasBframes(pattern) && duration != 0
    requires n + 1 < |Run(Start(pattern, duration, gopSize), events, base).packets|
    ensures var p := Run(Start(pattern, duration, gopSize), events, base).packets;
            p[n].dts + duration < WORD ==> p[n + 1].dts >= p[n].dts + duration
  {
    RunStamps(pattern, duration, gopSize, events, base);
    var s := Run(Start(pattern, duration, gopSize), events, base);
    assert Stamped(s.enc, s.packets, n + 1);
    StampedAdvances(s.enc, s.packets, n);
  }

  lemma StampedAdvances(enc: Venc, packets: seq<Packet>, n: nat)
    requires n + 1 < |packets| && TracksDts(enc) && Stamped(enc, packets, n + 1)
    ensures packets[n].dts + enc.duration < WORD ==> packets[n + 1].dts >= packets[n].dts + enc.duration
  {
  }

  // ---------------------------------------------------------------- never after presentation

  /** The time k frame durations after t0. */
  function Tick(t0: nat, k: nat, duration: nat): nat { t0 + k * duration }

  lemma TicksInOrder(t0: nat, j: nat, k: nat, duration: nat)
    ensures j <= k ==> Tick(t0, j, duration) <= Tick(t0, k, duration)
    ensures Tick(t0, j + k, duration) == Tick(t0, j, duration) + k * duration
    ensures Tick(t0, j + 1, duration) == Tick(t0, j, duration) + duration
  {
    assert (j + k) * duration == j * duration + k * duration;
    if j <= k {
      assert k * duration == j * duration + (k - j) * duration;
    }
  }

  ghost predicate EvenlySpaced(inputs: seq<Input>, t0: nat, duration: nat) {
    forall j :: 0 <= j < |inputs| ==> inputs[j].pts == Tick(t0, j, duration)
  }

  /** Packets leave the codec at most `early` places before their turn and `late` places after. */
  ghost predicate Reordered(claimed: seq<int>, early: nat, late: nat) {
    forall n :: 0 <= n < |claimed| ==> n - late <= claimed[n] <= n + early
  }

  lemma PlainTimes(enc: Venc, p: Pending, delay: nat)
    requires TracksDts(enc) && delay == Delay(enc) && p.input.pts + delay < UNKNOWN
    requires enc.lastDts.Some? ==> enc.lastDts.value + enc.duration < WORD
    ensures var pts := PacketPts(enc, p); var dts := PacketDts(enc, p, pts);
            && pts == p.input.pts + delay
            && dts == if enc.lastDts.Some? && enc.lastDts.value + enc.duration > p.input.pts
                      then enc.lastDts.value + enc.duration else p.input.pts
  {
  }

  lemma PlainDelay(enc: Venc)
    requires TracksDts(enc) && DelayFrames(enc.pattern) * enc.duration < WORD
    ensures Delay(enc) == DelayFrames(enc.pattern) * enc.duration
  {
  }

  /** What one packet's times are when nothing wraps around: shown at the delay, decoded at its own
      time or one duration after the last, whichever is later. */
  lemma OnePacket(enc: Venc, p: Pending, t0: nat, j: nat, end: nat)
    requires TracksDts(enc) && p.input.pts == Tick(t0, j, enc.duration)
    requires j + DelayFrames(enc.pattern) <= end && Tick(t0, end, enc.duration) < UNKNOWN
    requires enc.lastDts.Some? ==> enc.lastDts.value + enc.duration < WORD
    ensures var pts := PacketPts(enc, p); var dts := PacketDts(enc, p, pts);
            && pts == Tick(t0, j + DelayFrames(enc.pattern), enc.duration)
            && dts == if enc.lastDts.Some? && enc.lastDts.value + enc.duration > Tick(t0, j, enc.duration)
                      then enc.lastDts.value + enc.duration else Tick(t0, j, enc.duration)
  {
    var d := DelayFrames(enc.pattern);
    TicksInOrder(t0, j, d, enc.duration);
    TicksInOrder(t0, j + d, end, enc.duration);
    PlainDelay(enc);
    PlainTimes(enc, p, d * enc.duration);
  }

  lemma TurnTicks(t0: nat, turn: nat, j: nat, d: nat, end: nat, duration: nat)
    requires j <= turn <= j + d <= end
    ensures Tick(t0, j, duration) <= Tick(t0, turn, duration)
    ensures Tick(t0, turn, duration) <= Tick(t0, j + d, duration) <= Tick(t0, end, duration)
    ensures turn > 0 ==> Tick(t0, turn - 1, duration) + duration == Tick(t0, turn, duration)
  {
    TicksInOrder(t0, j, turn, duration);
    TicksInOrder(t0, turn, j + d, duration);
    TicksInOrder(t0, j + d, end, duration);
    if turn > 0 { TicksInOrder(t0, turn - 1, 1, duration); }
  }

  /** Packet n of a well-reordered run is decoded no later than `early` durations after its turn. */
  lemma {:induction false} DtsBound(s: Session, t0: nat, early: nat, late: nat, n: nat)
    requires AllStamped(s) && TracksDts(s.enc) && PacketsMatch(s) && n < |s.packets|
    requires EvenlySpaced(s.accepted, t0, s.enc.duration) && Reordered(s.claimed, early, late)
    requires early + late <= DelayFrames(s.enc.pattern)
    requires Tick(t0, |s.accepted| + DelayFrames(s.enc.pattern), s.enc.duration) < UNKNOWN
    ensures s.packets[n].dts <= Tick(t0, n + early, s.enc.duration)
    ensures Tick(t0, n + early, s.enc.duration) <= s.packets[n].pts
  {
    var D, d, end := s.enc.duration, DelayFrames(s.enc.pattern), |s.accepted| + DelayFrames(s.enc.pattern);
    assert PacketMatches(s, n) && Stamped(s.enc, s.packets, n);
    var j := s.claimed[n];
    assert n - late <= j <= n + early;
    if n > 0 { DtsBound(s, t0, early, late, n - 1); }
    TurnTicks(t0, n + early, j, d, end, D);
    OnePacket(s.enc.(lastDts := Before(s.packets, n)), s.packets[n].from, t0, j, end);
  }

  ghost predicate WellStamped(s: Session, pattern: int, duration: nat) {
    AllStamped(s) && TracksDts(s.enc) && PacketsMatch(s) && s.enc.pattern == pattern && s.enc.duration == duration
  }

  lemma RunIsWellStamped(pattern: int, duration: nat, gopSize: nat, events: seq<Event>, base: nat)
    requires HasBframes(pattern) && duration != 0 && AllOk(pattern, duration, gopSize, events, base)
    ensures WellStamped(Run(Start(pattern, duration, gopSize), events, base), pattern, duration)
  {
    RunMatches(pattern, duration, gopSize, events, base);
    RunStamps(pattern, duration, gopSize, events, base);
  }

  /** Over every run: if the inputs are evenly spaced and the codec emits frames at most `early`
      places early and `late` places late, together no more than the delay its pattern is given,
      then no packet is to be decoded after it is to be shown. */
  lemma DtsNeverAfterPts(pattern: int, duration: nat, gopSize: nat, events: seq<Event>, base: nat,
                         t0: nat, early: nat, late: nat, n: nat)
    requires HasBframes(pattern) && duration != 0 && AllOk(pattern, duration, gopSize, events, base)
    requires var s := Run(Start(pattern, duration, gopSize), events, base);
             && n < |s.packets|
             && EvenlySpaced(s.accepted, t0, duration) && Reordered(s.claimed, early, late)
             && Tick(t0, |s.accepted| + DelayFrames(pattern), duration) < UNKNOWN
    requires early + late <= DelayFrames(pattern)
    ensures var p := Run(Start(pattern, duration, gopSize), events, base).packets[n]; p.dts <= p.pts
  {
    RunIsWellStamped(pattern, duration, gopSize, events, base);
    DtsBound(Run(Start(pattern, duration, gopSize), events, base), t0, early, late, n);
  }
}
