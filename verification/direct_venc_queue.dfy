/** The encoder's queue and timestamps as submit_common updates them in place. */
module DirectVencQueue {
  import opened DirectVenc
  import opened Wrappers

  class Encoder {
    const pattern: int
    const duration: nat
    const gopSize: nat
    var nextId: nat
    var pending: seq<Pending>      // the GQueue
    var lastDts: Option<nat>
    var origin: Option<Origin>

    ghost function State(): Venc
      reads this
    {
      Venc(pattern, duration, gopSize, nextId, pending, lastDts, origin)
    }

    constructor (pattern: int, fpsNum: nat, fpsDen: nat, gopSize: nat)
      ensures State() == Created(pattern, FrameDuration(fpsNum, fpsDen), gopSize)
    {
      this.pattern, this.duration, this.gopSize := pattern, FrameDuration(fpsNum, fpsDen), gopSize;
      nextId, pending, lastDts, origin := 0, [], None, None;
    }

    method PendingPush(input: Input, requestedIdr: bool)
      modifies `nextId, `pending
      ensures State() == Push(old(State()), input, requestedIdr)
    {
      var id := nextId;
      nextId := nextId + 1;
      pending := pending + [Pending(id, input, requestedIdr)];
    }

    method PendingPopTail()
      modifies `pending
      ensures State() == PopTail(old(State()))
    {
      if pending != [] { pending := pending[..|pending| - 1]; }
    }

    method FixOrigin(inputNumber: int)
      modifies `origin
      ensures State() == SetOrigin(old(State()), inputNumber)
    {
      if inputNumber < 0 || !HasBframes(pattern) { return; }
      if origin.None? && pending != [] {
        origin := Some(Origin(inputNumber, pending[0].id));
      }
    }

    /** The frame whose id matches is unlinked; the head if there is none. */
    method TakeMatch(inputNumber: int) returns (taken: Pending)
      requires pending != []
      modifies `origin, `pending
      ensures State() == Take(old(State()), inputNumber)
      ensures var u := SetOrigin(old(State()), inputNumber); taken == u.pending[MatchIndex(u, inputNumber)]
    {
      FixOrigin(inputNumber);
      ghost var u := State();
      if inputNumber >= 0 {
        var id := if HasBframes(pattern) && origin.Some?
                  then origin.value.id + (inputNumber - origin.value.inputNumber) else inputNumber;
        var i := 0;
        while i < |pending|
          invariant i <= |pending| && State() == u
          invariant FindFrom(pending, id, i) == FindFrom(pending, id, 0)
        {
          if pending[i].id == id {
            taken := pending[i];
            pending := RemoveAt(pending, i);
            return;
          }
          i := i + 1;
        }
      }
      taken := pending[0];
      pending := RemoveAt(pending, 0);
    }

    method FreeOldBuffers(keep: nat)
      modifies `pending
      ensures pending == FreeOwned(old(pending), keep)
    {
      var length, i := |pending|, 0;
      ghost var p := FreeOwned(pending, keep);
      while i < length
        invariant i <= length == |pending|
        invariant forall k :: 0 <= k < i ==> pending[k] == p[k]
        invariant forall k :: i <= k < length ==> pending[k] == old(pending)[k]
      {
        assert pending[i] == old(pending)[i];
        if i + keep < length && pending[i].input.ownsBuffer {
          pending := pending[i := Freed(pending[i])];
        }
        i := i + 1;
      }
    }

    method PendingPrune()
      modifies `pending
      ensures State() == Prune(old(State()))
    {
      FreeOldBuffers(KeepCount(pattern));
      ghost var p := pending;
      while |pending| > MAX_PENDING
        invariant |pending| <= |p| && pending == p[|p| - |pending|..]
        invariant |pending| >= MAX_PENDING || pending == p
      {
        pending := pending[1..];
      }
    }

    method CalculatePacketDts(p: Pending, packetPts: nat) returns (dts: nat)
      modifies `lastDts
      ensures dts == PacketDts(old(State()), p, packetPts)
      ensures State() == RecordDts(old(State()), dts)
    {
      if !HasBframes(pattern) || duration == 0 {
        if p.input.dts != UNKNOWN { return p.input.dts; }
        if packetPts != UNKNOWN { return packetPts; }
        if p.input.pts != UNKNOWN { return p.input.pts; }
        return if duration > 0 then Mul64(p.id, duration) else UNKNOWN;
      }
      var pts := packetPts;
      if pts == UNKNOWN {
        pts := if p.input.pts != UNKNOWN then p.input.pts else Mul64(p.id, duration);
      }
      var delay := Mul64(DelayFrames(pattern), duration);
      dts := if pts >= delay then pts - delay else pts;
      if lastDts.Some? {
        var minNext := Add64(lastDts.value, duration);
        if dts < minNext { dts := minNext; }
      }
      lastDts := Some(dts);
    }

    /** The packet for the frame that the codec's answer belongs to. */
    method EmitPacket(meta: Meta) returns (packet: Packet)
      requires pending != []
      modifies `origin, `pending, `lastDts
      ensures var u := SetOrigin(old(State()), meta.inputNumber);
              && packet == MakePacket(u, meta)
              && State() == RecordDts(Take(old(State()), meta.inputNumber), packet.dts)
    {
      var p := TakeMatch(meta.inputNumber);
      var pts := p.input.pts;
      if HasBframes(pattern) {
        var delay := if duration == 0 then 0 else Mul64(DelayFrames(pattern), duration);
        pts := if pts != UNKNOWN then Add64(pts, delay) else Add64(Mul64(p.id, duration), delay);
      }
      var dts := CalculatePacketDts(p, pts);
      packet := Packet(p, pts, dts, p.input.duration, p.requestedIdr || meta.intra);
    }

    /** submit_common, with the codec's answer given. */
    method SubmitCommon(input: Input, force: bool, meta: Meta) returns (o: Outcome)
      modifies this
      ensures o == SubmitOutcome(old(State()), input, force, meta)
      ensures State() == Submit(old(State()), input, force, meta)
    {
      var idr := force || nextId == 0 || (gopSize > 0 && nextId % gopSize == 0);
      PendingPush(input, idr);
      if !meta.valid {
        PendingPopTail();
        if meta.notReady && meta.inputNumber < 0 {
          if nextId > 0 { nextId := nextId - 1; }
          return WouldBlock;
        }
        return Failed;
      }
      if meta.length <= 0 {
        if !HasBframes(pattern) {
          var skipped := TakeMatch(meta.inputNumber);
        } else {
          PendingPrune();
        }
        return NoPacket;
      }
      var packet := EmitPacket(meta);
      return Emitted(packet);
    }
  }
}
