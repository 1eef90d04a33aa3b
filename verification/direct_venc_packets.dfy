/** What a packet says of its frame - times, duration, key flag - and what the queue keeps of the frames
    that wait, over every run and whatever the codec answers. */
module DirectVencPackets {
  import opened DirectVenc
  import opened DirectVencDts
  import opened DirectVencErrors
  import opened DirectVencSafety
  import opened Wrappers

  // ---------------------------------------------------------------- ids and key requests

  /** One more submission: unless it blocks it uses up an id, and a key frame is requested for it by the
      caller, or because it opens the stream or a group of pictures. */
  function Noted(requests: seq<bool>, e: Event, gopSize: nat): seq<bool> {
    if !e.meta.valid && e.meta.notReady && e.meta.inputNumber < 0 then requests
    else requests + [e.force || |requests| == 0 || (gopSize > 0 && |requests| % gopSize == 0)]
  }

  /** Of each id given out in a run, whether a key frame was requested. */
  function Requests(events: seq<Event>, gopSize: nat): seq<bool> {
    if events == [] then [] else Noted(Requests(events[..|events| - 1], gopSize), events[|events| - 1], gopSize)
  }

  /** What waits in the queue remembers its id and its request. */
  ghost predicate Remembers(requests: seq<bool>, p: Pending) {
    p.id < |requests| && p.requestedIdr == requests[p.id]
  }

  ghost predicate AllRemember(requests: seq<bool>, pending: seq<Pending>) {
    forall i :: 0 <= i < |pending| ==> Remembers(requests, pending[i])
  }

  lemma PushRemembers(requests: seq<bool>, enc: Venc, input: Input, idr: bool)
    requires AllRemember(requests, enc.pending) && enc.nextId == |requests|
    ensures AllRemember(requests + [idr], Push(enc, input, idr).pending)
  {
    var more, p := requests + [idr], Push(enc, input, idr).pending;
    forall i | 0 <= i < |p| ensures Remembers(more, p[i]) {
      if i < |enc.pending| { assert Remembers(requests, enc.pending[i]); }
    }
  }

  lemma RemoveRemembers(requests: seq<bool>, pending: seq<Pending>, i: nat)
    requires AllRemember(requests, pending)
    ensures AllRemember(requests, RemoveAt(pending, i))
  {
    if i < |pending| {
      var r := RemoveAt(pending, i);
      forall k | 0 <= k < |r| ensures Remembers(requests, r[k]) {
        assert r[k] == pending[if k < i then k else k + 1];
      }
    }
  }

  lemma PruneRemembers(requests: seq<bool>, enc: Venc)
    requires AllRemember(requests, enc.pending)
    ensures AllRemember(requests, Prune(enc).pending)
  {
    var p, r := FreeOwned(enc.pending, KeepCount(enc.pattern)), Prune(enc).pending;
    forall k | 0 <= k < |r| ensures Remembers(requests, r[k]) {
      assert r[k] == p[|p| - |r| + k] && Remembers(requests, enc.pending[|p| - |r| + k]);
    }
  }

  ghost predicate RequestsOk(enc: Venc, requests: seq<bool>) {
    enc.nextId == |requests| && AllRemember(requests, enc.pending)
  }

  lemma TakeRemembers(requests: seq<bool>, enc: Venc, inputNumber: int)
    requires RequestsOk(enc, requests) && enc.pending != []
    ensures RequestsOk(Take(enc, inputNumber), requests)
    ensures var u := SetOrigin(enc, inputNumber); var i := MatchIndex(u, inputNumber);
            u.pending == enc.pending && i < |u.pending| && Remembers(requests, u.pending[i])
  {
    var u := SetOrigin(enc, inputNumber);
    RemoveRemembers(requests, u.pending, MatchIndex(u, inputNumber));
  }

  lemma StepRemembers(enc: Venc, requests: seq<bool>, e: Event)
    requires RequestsOk(enc, requests)
    ensures RequestsOk(Submit(enc, e.input, e.force, e.meta), Noted(requests, e, enc.gopSize))
  {
    var idr := RequestsIdr(enc, e.force);
    var t, more := Push(enc, e.input, idr), requests + [idr];
    PushRemembers(requests, enc, e.input, idr);
    if !e.meta.valid {
      WouldBlockRestores(enc, e.input, e.force, e.meta);
      FailureUsesAnId(enc, e.input, e.force, e.meta);
      if !Blocks(e.meta) { StillRemember(requests, enc.pending, idr); }
    } else if e.meta.length > 0 || !HasBframes(enc.pattern) {
      TakeRemembers(more, t, e.meta.inputNumber);
    } else {
      PruneRemembers(more, t);
    }
  }

  lemma StillRemember(requests: seq<bool>, pending: seq<Pending>, idr: bool)
    requires AllRemember(requests, pending)
    ensures AllRemember(requests + [idr], pending)
  {
    forall i | 0 <= i < |pending| ensures Remembers(requests + [idr], pending[i]) {
      assert Remembers(requests, pending[i]);
    }
  }

  /** The parts of the state that no submission changes. */
  ghost predicate Configured(enc: Venc, pattern: int, duration: nat, gopSize: nat) {
    enc.pattern == pattern && enc.duration == duration && enc.gopSize == gopSize
  }

  lemma {:induction false} RunRemembers(pattern: int, duration: nat, gopSize: nat, events: seq<Event>, base: int)
    ensures var enc := Run(Start(pattern, duration, gopSize), events, base).enc;
            Configured(enc, pattern, duration, gopSize) && RequestsOk(enc, Requests(events, gopSize))
  {
    if events != [] {
      var n := |events| - 1;
      var s := Run(Start(pattern, duration, gopSize), events[..n], base);
      RunRemembers(pattern, duration, gopSize, events[..n], base);
      StepRemembers(s.enc, Requests(events[..n], gopSize), events[n]);
    }
  }

  // ---------------------------------------------------------------- times

  /** A time of all ones is no time. */
  predicate Known(time: nat) { time != 0xFFFF_FFFF_FFFF_FFFF }

  /** Without B-frames a packet has the times of its frame; a frame that comes without a decoding time
      is decoded when it is shown, and without any time it is timed by its id. */
  predicate PlainTimes(p: Packet, duration: nat) {
    var f := p.from.input;
    && p.pts == f.pts
    && (Known(f.dts) ==> p.dts == f.dts)
    && (!Known(f.dts) && Known(f.pts) ==> p.dts == f.pts)
    && (!Known(f.dts) && !Known(f.pts) ==>
          if duration > 0 then p.dts == p.from.id * duration % 0x1_0000_0000_0000_0000 else !Known(p.dts))
  }

  /** The frames by which a pattern's packets are shown later. */
  predicate Reorders(pattern: int, frames: nat) {
    || (pattern == 1 && frames == 4) || (pattern == 2 && frames == 3) || (pattern == 3 && frames == 3)
    || (pattern == 6 && frames == 4) || (pattern == 7 && frames == 8)
  }

  /** The time of a frame itself: its own, or what its id makes of it. */
  function OwnTime(f: Pending, duration: nat): nat {
    if Known(f.input.pts) then f.input.pts else f.id * duration % 0x1_0000_0000_0000_0000
  }

  predicate Fits(last: Option<nat>, duration: nat) {
    last.Some? ==> last.value + duration < 0x1_0000_0000_0000_0000
  }

  /** t, but not before one duration after the last. */
  function NotBefore(last: Option<nat>, duration: nat, t: nat): nat {
    if last.Some? && last.value + duration > t then last.value + duration else t
  }

  /** With B-frames a packet is shown the pattern's frames after its own time, modulo 2^64; as long as
      that does not wrap around it is decoded at its own time, or one duration after the packet before
      it if that is later.  If it is shown at what is no time, its own time is taken, less the delay if that
      is no more.  Without a frame duration it is decoded at its frame's decoding time, if it has one, or
      else when it is shown. */
  predicate ReorderedTimes(p: Packet, duration: nat, frames: nat, last: Option<nat>) {
    TimesFrom(p, OwnTime(p.from, duration), frames * duration, duration, last)
  }

  predicate TimesFrom(p: Packet, t: nat, delay: nat, duration: nat, last: Option<nat>) {
    && p.pts == (t + delay) % 0x1_0000_0000_0000_0000
    && (duration > 0 && t + delay < 0xFFFF_FFFF_FFFF_FFFF && Fits(last, duration) ==>
          p.dts == NotBefore(last, duration, t))
    && (duration > 0 && !Known(p.pts) && delay < 0x1_0000_0000_0000_0000 && Fits(last, duration) ==>
          p.dts == NotBefore(last, duration, if t >= delay then t - delay else t))
    && (duration == 0 && Known(p.from.input.dts) ==> p.dts == p.from.input.dts)
    && (duration == 0 && !Known(p.from.input.dts) && Known(p.pts) ==> p.dts == p.pts)
  }

  lemma WrapsOnce(t: nat, d: nat)
    ensures Add64(t, d % WORD) == (t + d) % WORD
  {
    var q := d / WORD;
    assert d == q * WORD + d % WORD;
    WrapsBy(t + d % WORD, q);
  }

  lemma {:induction false} WrapsBy(n: nat, q: nat)
    ensures (n + q * WORD) % WORD == n % WORD
  {
    if q > 0 {
      WrapsBy(n, q - 1);
      assert n + q * WORD == (n + (q - 1) * WORD) + WORD;
    }
  }

  lemma PlainPacketTimes(enc: Venc, f: Pending, p: Packet)
    requires enc.pattern !in {1, 2, 3, 6, 7}
    requires p.from == f && p.pts == PacketPts(enc, f) && p.dts == PacketDts(enc, f, p.pts)
    ensures PlainTimes(p, enc.duration)
  {
  }

  lemma DelayIs(enc: Venc, frames: nat)
    requires Reorders(enc.pattern, frames)
    ensures HasBframes(enc.pattern) && Delay(enc) == frames * enc.duration % WORD
  {
  }

  lemma ShownLater(enc: Venc, f: Pending, frames: nat)
    requires Reorders(enc.pattern, frames)
    ensures PacketPts(enc, f) == (OwnTime(f, enc.duration) + frames * enc.duration) % WORD
  {
    DelayIs(enc, frames);
    WrapsOnce(OwnTime(f, enc.duration), frames * enc.duration);
  }

  lemma DecodedNext(enc: Venc, f: Pending, pts: nat, delay: nat, t: nat)
    requires TracksDts(enc) && Delay(enc) == delay && pts == t + delay < UNKNOWN && Fits(enc.lastDts, enc.duration)
    ensures PacketDts(enc, f, pts) == NotBefore(enc.lastDts, enc.duration, t)
  {
  }

  lemma DecodedWithoutTime(enc: Venc, f: Pending, delay: nat, t: nat)
    requires TracksDts(enc) && Delay(enc) == delay && t == OwnTime(f, enc.duration) && Fits(enc.lastDts, enc.duration)
    ensures PacketDts(enc, f, UNKNOWN) == NotBefore(enc.lastDts, enc.duration, if t >= delay then t - delay else t)
  {
  }

  lemma DecodedWithoutDuration(enc: Venc, f: Pending, pts: nat)
    requires enc.duration == 0
    ensures f.input.dts != UNKNOWN ==> PacketDts(enc, f, pts) == f.input.dts
    ensures f.input.dts == UNKNOWN && pts != UNKNOWN ==> PacketDts(enc, f, pts) == pts
  {
  }

  lemma WithoutDuration(enc: Venc, f: Pending, p: Packet, frames: nat, last: Option<nat>)
    requires Reorders(enc.pattern, frames) && enc.duration == 0
    requires p.from == f && p.pts == PacketPts(enc, f) && p.dts == PacketDts(enc, f, p.pts)
    ensures ReorderedTimes(p, 0, frames, last)
  {
    ShownLater(enc, f, frames);
    DecodedWithoutDuration(enc, f, p.pts);
  }

  lemma Small(n: nat)
    requires n < WORD
    ensures n % WORD == n
  {
  }

  lemma InTurn(enc: Venc, f: Pending, pts: nat, t: nat, delay: nat)
    requires TracksDts(enc) && Delay(enc) == delay % WORD && pts == (t + delay) % WORD
    requires t + delay < UNKNOWN && Fits(enc.lastDts, enc.duration)
    ensures PacketDts(enc, f, pts) == NotBefore(enc.lastDts, enc.duration, t)
  {
    Small(delay);
    Small(t + delay);
    DecodedNext(enc, f, pts, delay, t);
  }

  lemma TimesAre(enc: Venc, p: Packet, t: nat, delay: nat)
    requires TracksDts(enc) && t == OwnTime(p.from, enc.duration) && Delay(enc) == delay % WORD
    requires p.pts == (t + delay) % WORD && p.dts == PacketDts(enc, p.from, p.pts)
    ensures TimesFrom(p, t, delay, enc.duration, enc.lastDts)
  {
    if t + delay < UNKNOWN && Fits(enc.lastDts, enc.duration) { InTurn(enc, p.from, p.pts, t, delay); }
    if delay < WORD && !Known(p.pts) && Fits(enc.lastDts, enc.duration) {
      Small(delay);
      DecodedWithoutTime(enc, p.from, delay, t);
    }
  }

  lemma ReorderedPacketTimes(enc: Venc, f: Pending, p: Packet, frames: nat)
    requires Reorders(enc.pattern, frames) && enc.duration > 0
    requires p.from == f && p.pts == PacketPts(enc, f) && p.dts == PacketDts(enc, f, p.pts)
    ensures ReorderedTimes(p, enc.duration, frames, enc.lastDts)
  {
    DelayIs(enc, frames);
    ShownLater(enc, f, frames);
    TimesAre(enc, p, OwnTime(f, enc.duration), frames * enc.duration);
  }

  // ---------------------------------------------------------------- packets

  lemma MadePacket(enc: Venc, input: Input, force: bool, meta: Meta) returns (u: Venc, i: nat)
    requires meta.valid && meta.length > 0
    ensures var o := SubmitOutcome(enc, input, force, meta);
            && i < |u.pending| && o.Emitted? && o.packet.from == u.pending[i]
            && o.packet.pts == PacketPts(enc, u.pending[i])
            && o.packet.dts == PacketDts(enc, u.pending[i], o.packet.pts)
            && o.packet.duration == u.pending[i].input.duration
            && (o.packet.keyframe <==> u.pending[i].requestedIdr || meta.intra)
            && u == SetOrigin(Push(enc, input, RequestsIdr(enc, force)), meta.inputNumber)
            && i == MatchIndex(u, meta.inputNumber)
  {
    u := SetOrigin(Push(enc, input, RequestsIdr(enc, force)), meta.inputNumber);
    i := MatchIndex(u, meta.inputNumber);
  }

  /** Over every run, whatever errors came and however the codec numbers: a packet lasts as long as its
      frame, and is marked a key frame if and only if one was requested when that frame was submitted or
      the codec says so. */
  lemma PacketLastsAndIsKey(pattern: int, duration: nat, gopSize: nat, events: seq<Event>, e: Event, base: int)
    requires e.meta.valid && e.meta.length > 0
    ensures var o := SubmitOutcome(Run(Start(pattern, duration, gopSize), events, base).enc, e.input, e.force, e.meta);
            var requests := Requests(events + [e], gopSize);
            && o.Emitted? && o.packet.duration == o.packet.from.input.duration
            && o.packet.from.id < |requests|
            && (o.packet.keyframe <==> requests[o.packet.from.id] || e.meta.intra)
  {
    RunRemembers(pattern, duration, gopSize, events, base);
    var enc := Run(Start(pattern, duration, gopSize), events, base).enc;
    PushRemembers(Requests(events, gopSize), enc, e.input, RequestsIdr(enc, e.force));
    var u, i := MadePacket(enc, e.input, e.force, e.meta);
    assert (events + [e])[..|events|] == events;
    TakeRemembers(Requests(events + [e], gopSize), Push(enc, e.input, RequestsIdr(enc, e.force)), e.meta.inputNumber);
  }

  lemma OnlyItsFrame(enc: Venc, input: Input, force: bool, meta: Meta)
    requires !HasBframes(enc.pattern) && enc.pending == [] && meta.valid && meta.length > 0
    ensures var o := SubmitOutcome(enc, input, force, meta);
            o.Emitted? && o.packet.from.input == input && o.packet.from.id == enc.nextId
  {
  }

  /** Over every run without B-frames, whatever hard errors came and however the codec numbers: a packet
      has the times of the very input it answers, or is timed by its id if that has none. */
  lemma PlainPacket(pattern: int, duration: nat, gopSize: nat, events: seq<Event>, e: Event, base: int)
    requires pattern !in {1, 2, 3, 6, 7} && e.meta.valid && e.meta.length > 0
    ensures var o := SubmitOutcome(Run(Start(pattern, duration, gopSize), events, base).enc, e.input, e.force, e.meta);
            && o.Emitted? && o.packet.from.input == e.input && o.packet.from.id == |Requests(events, gopSize)|
            && o.packet.pts == e.input.pts && o.packet.duration == e.input.duration && PlainTimes(o.packet, duration)
  {
    var enc := Run(Start(pattern, duration, gopSize), events, base).enc;
    RunRemembers(pattern, duration, gopSize, events, base);
    NothingWaits(pattern, duration, gopSize, events, base);
    OnlyItsFrame(enc, e.input, e.force, e.meta);
    var u, i := MadePacket(enc, e.input, e.force, e.meta);
    PlainPacketTimes(u, u.pending[i], SubmitOutcome(enc, e.input, e.force, e.meta).packet);
  }

  lemma EmittedTimes(enc: Venc, e: Event, duration: nat, frames: nat, last: Option<nat>)
    requires Reorders(enc.pattern, frames) && e.meta.valid && e.meta.length > 0
    requires enc.duration == duration && (duration != 0 ==> enc.lastDts == last)
    ensures var o := SubmitOutcome(enc, e.input, e.force, e.meta);
            o.Emitted? && ReorderedTimes(o.packet, duration, frames, last)
  {
    var u, i := MadePacket(enc, e.input, e.force, e.meta);
    var p := SubmitOutcome(enc, e.input, e.force, e.meta).packet;
    if duration == 0 {
      WithoutDuration(u, u.pending[i], p, frames, last);
    } else {
      ReorderedPacketTimes(u, u.pending[i], p, frames);
    }
  }

  lemma LastIs(pattern: int, duration: nat, gopSize: nat, events: seq<Event>, base: int)
    requires HasBframes(pattern) && duration != 0
    ensures var s := Run(Start(pattern, duration, gopSize), events, base);
            s.enc.lastDts == Before(s.packets, |s.packets|)
  {
    RunStamps(pattern, duration, gopSize, events, base);
  }

  lemma StaysConfigured(pattern: int, duration: nat, gopSize: nat, events: seq<Event>, base: int)
    ensures Configured(Run(Start(pattern, duration, gopSize), events, base).enc, pattern, duration, gopSize)
  {
    RunRemembers(pattern, duration, gopSize, events, base);
  }

  /** Over every run with B-frames, whatever the codec does: the times of a packet from its own frame's
      time, the pattern and the packet before. */
  lemma ReorderedPacket(pattern: int, duration: nat, gopSize: nat, events: seq<Event>, e: Event, base: int,
                        frames: nat)
    requires Reorders(pattern, frames) && e.meta.valid && e.meta.length > 0
    ensures var s := Run(Start(pattern, duration, gopSize), events, base);
            var o := SubmitOutcome(s.enc, e.input, e.force, e.meta);
            o.Emitted? && ReorderedTimes(o.packet, duration, frames, Before(s.packets, |s.packets|))
  {
    var s := Run(Start(pattern, duration, gopSize), events, base);
    StaysConfigured(pattern, duration, gopSize, events, base);
    if duration != 0 { LastIs(pattern, duration, gopSize, events, base); }
    EmittedTimes(s.enc, e, duration, frames, Before(s.packets, |s.packets|));
  }

  // ---------------------------------------------------------------- configuration and pruning

  /** A frame lasts the second by the frame rate, rounded down; 60 frames a second if none is given. */
  lemma FrameDurationRoundsDown(fpsNum: nat, fpsDen: nat)
    requires fpsNum > 0 && 1_000_000_000 * fpsDen < WORD
    ensures var d, den := FrameDuration(fpsNum, fpsDen), if fpsDen == 0 then 1 else fpsDen;
            d * fpsNum <= 1_000_000_000 * den < (d + 1) * fpsNum
    ensures FrameDuration(0, fpsDen) == 16_666_666
  {
    var x := 1_000_000_000 * if fpsDen == 0 then 1 else fpsDen;
    var d := x / fpsNum;
    assert x == d * fpsNum + x % fpsNum;
    assert (d + 1) * fpsNum == d * fpsNum + fpsNum;
  }

  /** The frame is the one it was, and keeps its input buffer if it is one of the `keep` newest. */
  predicate Kept(was: Pending, now: Pending, fromEnd: nat, keep: nat) {
    && now.id == was.id && SameTimes(now.input, was.input) && now.requestedIdr == was.requestedIdr
    && (now.input.ownsBuffer <==> was.input.ownsBuffer && fromEnd <= keep)
  }

  /** How many of the newest frames keep their buffers. */
  predicate KeepsNewest(pattern: int, keep: nat) {
    (keep >= 4 && Reorders(pattern, keep - 4)) || (pattern !in {1, 2, 3, 6, 7} && keep == 2)
  }

  lemma PrunedFrame(enc: Venc, keep: nat, q: seq<Pending>, r: seq<Pending>, k: nat)
    requires KeepsNewest(enc.pattern, keep) && q == enc.pending && r == Prune(enc).pending && k < |r|
    ensures |r| <= |q| && Kept(q[|q| - |r| + k], r[k], |r| - k, keep)
  {
    var p := FreeOwned(q, KeepCount(enc.pattern));
    assert KeepCount(enc.pattern) == keep;
    assert r[k] == p[|q| - |r| + k];
  }

  lemma PrunedLength(enc: Venc)
    ensures |Prune(enc).pending| == if |enc.pending| > 4096 then 4096 else |enc.pending|
  {
  }

  /** Of the frames that wait after pruning, the newest keep their input buffers, by the pattern's frames
      and four more, the older ones do not; the newest 4096 frames stay, with their ids, times and
      requests. */
  lemma PrunedToTheNewest(enc: Venc, keep: nat, q: seq<Pending>, r: seq<Pending>)
    requires KeepsNewest(enc.pattern, keep) && q == enc.pending && r == Prune(enc).pending
    ensures |r| == if |q| > 4096 then 4096 else |q|
    ensures forall k :: 0 <= k < |r| ==> Kept(q[|q| - |r| + k], r[k], |r| - k, keep)
  {
    PrunedLength(enc);
    forall k | 0 <= k < |r| ensures Kept(q[|q| - |r| + k], r[k], |r| - k, keep) {
      PrunedFrame(enc, keep, q, r, k);
    }
  }

  /** A packet whose input the codec does not number belongs to the oldest frame that waits, and fixes no
      numbering. */
  lemma UnnumberedTakesTheOldest(enc: Venc, input: Input, force: bool, meta: Meta)
    requires meta.valid && meta.length > 0 && meta.inputNumber < 0
    ensures var o, t := SubmitOutcome(enc, input, force, meta), Submit(enc, input, force, meta);
            var q := Push(enc, input, RequestsIdr(enc, force)).pending;
            o.Emitted? && t.origin == enc.origin && o.packet.from == q[0] && t.pending == q[1..]
  {
    var q := Push(enc, input, RequestsIdr(enc, force)).pending;
    assert q[..0] + q[1..] == q[1..];
  }
}
