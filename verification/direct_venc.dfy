/** Bookkeeping around an encoder that reorders: which input a packet belongs to, and its
    timestamps.  The codec itself is known only by what it reports. */
module DirectVenc {
  import opened Wrappers

  const WORD: nat := 0x1_0000_0000_0000_0000
  const UNKNOWN: nat := 0xFFFF_FFFF_FFFF_FFFF       // UINT64_MAX: no timestamp
  const MAX_PENDING: nat := 4096
  const SECOND_NS: nat := 1_000_000_000

  /** Unsigned 64-bit addition and multiplication wrap around. */
  function Add64(a: nat, b: nat): nat { (a + b) % WORD }
  function Mul64(a: nat, b: nat): nat { (a * b) % WORD }

  datatype Input = Input(pts: nat, dts: nat, duration: nat, ownsBuffer: bool)

  datatype Pending = Pending(id: nat, input: Input, requestedIdr: bool)

  /** Where the codec's numbering of its inputs starts, and the id pending then. */
  datatype Origin = Origin(inputNumber: int, id: nat)

  datatype Venc = Venc(
    pattern: int, duration: nat, gopSize: nat,
    nextId: nat, pending: seq<Pending>, lastDts: Option<nat>, origin: Option<Origin>)

  /** What the codec answers to one encode call. */
  datatype Meta = Meta(valid: bool, notReady: bool, inputNumber: int, length: int, intra: bool)

  datatype Packet = Packet(from: Pending, pts: nat, dts: nat, duration: nat, keyframe: bool)

  datatype Outcome = WouldBlock | Failed | NoPacket | Emitted(packet: Packet)

  // ---------------------------------------------------------------- configuration

  predicate HasBframes(pattern: int) { pattern in {1, 2, 3, 6, 7} }

  function DelayFrames(pattern: int): nat {
    match pattern
    case 1 => 4
    case 2 => 3
    case 3 => 3
    case 6 => 4
    case 7 => 8
    case _ => 0
  }

  function FrameDuration(fpsNum: nat, fpsDen: nat): nat {
    if fpsNum == 0 then SECOND_NS / 60
    else Mul64(SECOND_NS, if fpsDen == 0 then 1 else fpsDen) / fpsNum
  }

  function Delay(enc: Venc): nat {
    if !HasBframes(enc.pattern) || enc.duration == 0 then 0
    else Mul64(DelayFrames(enc.pattern), enc.duration)
  }

  // ---------------------------------------------------------------- the pending queue

  function Push(enc: Venc, input: Input, idr: bool): Venc {
    enc.(pending := enc.pending + [Pending(enc.nextId, input, idr)], nextId := enc.nextId + 1)
  }

  function PopTail(enc: Venc): Venc {
    if enc.pending == [] then enc else enc.(pending := enc.pending[..|enc.pending| - 1])
  }

  function FindFrom(pending: seq<Pending>, id: int, i: nat): (j: nat)
    requires i <= |pending|
    ensures i <= j <= |pending|
    ensures j < |pending| ==> pending[j].id == id
    ensures forall k :: i <= k < j ==> pending[k].id != id
    decreases |pending| - i
  {
    if i == |pending| || pending[i].id == id then i else FindFrom(pending, id, i + 1)
  }

  /** The first packet that carries an input number fixes the numbering. */
  function SetOrigin(enc: Venc, inputNumber: int): Venc {
    if inputNumber >= 0 && HasBframes(enc.pattern) && enc.origin.None? && enc.pending != []
    then enc.(origin := Some(Origin(inputNumber, enc.pending[0].id)))
    else enc
  }

  function MatchId(enc: Venc, inputNumber: int): int {
    if HasBframes(enc.pattern) && enc.origin.Some?
    then enc.origin.value.id + (inputNumber - enc.origin.value.inputNumber)
    else inputNumber
  }

  /** The frame a packet belongs to; the oldest one when none matches. */
  function MatchIndex(enc: Venc, inputNumber: int): nat {
    if inputNumber < 0 then 0
    else
      var i := FindFrom(enc.pending, MatchId(enc, inputNumber), 0);
      if i < |enc.pending| then i else 0
  }

  function RemoveAt(pending: seq<Pending>, i: nat): seq<Pending> {
    if i < |pending| then pending[..i] + pending[i + 1..] else pending
  }

  /** Only the newest `keep` pending frames keep their input buffers. */
  function FreeOwned(pending: seq<Pending>, keep: nat): (r: seq<Pending>)
    ensures |r| == |pending|
    ensures forall i :: 0 <= i < |pending| ==>
              r[i] == if i + keep < |pending| then Freed(pending[i]) else pending[i]
  {
    seq(|pending|, i requires 0 <= i < |pending| =>
      if i + keep < |pending| then Freed(pending[i]) else pending[i])
  }

  function Freed(p: Pending): Pending { p.(input := p.input.(ownsBuffer := false)) }

  function KeepCount(pattern: int): nat {
    if HasBframes(pattern) then DelayFrames(pattern) + 4 else 2
  }

  function Prune(enc: Venc): Venc {
    var p := FreeOwned(enc.pending, KeepCount(enc.pattern));
    enc.(pending := if |p| > MAX_PENDING then p[|p| - MAX_PENDING..] else p)
  }

  // ---------------------------------------------------------------- timestamps

  /** The presentation time of a packet: that of its frame, later by the reordering delay. */
  function PacketPts(enc: Venc, p: Pending): nat {
    if !HasBframes(enc.pattern) then p.input.pts
    else if p.input.pts != UNKNOWN then Add64(p.input.pts, Delay(enc))
    else Add64(Mul64(p.id, enc.duration), Delay(enc))
  }

  predicate TracksDts(enc: Venc) { HasBframes(enc.pattern) && enc.duration != 0 }

  function PacketDts(enc: Venc, p: Pending, packetPts: nat): nat {
    if !TracksDts(enc) then
      if p.input.dts != UNKNOWN then p.input.dts
      else if packetPts != UNKNOWN then packetPts
      else if p.input.pts != UNKNOWN then p.input.pts
      else if enc.duration > 0 then Mul64(p.id, enc.duration) else UNKNOWN
    else
      var pts := if packetPts != UNKNOWN then packetPts
                 else if p.input.pts != UNKNOWN then p.input.pts
                 else Mul64(p.id, enc.duration);
      var dts := if pts >= Delay(enc) then pts - Delay(enc) else pts;
      if enc.lastDts.Some? && dts < Add64(enc.lastDts.value, enc.duration)
      then Add64(enc.lastDts.value, enc.duration) else dts
  }

  function RecordDts(enc: Venc, dts: nat): Venc {
    if TracksDts(enc) then enc.(lastDts := Some(dts)) else enc
  }

  // ---------------------------------------------------------------- one submission

  predicate RequestsIdr(enc: Venc, force: bool) {
    force || enc.nextId == 0 || (enc.gopSize > 0 && enc.nextId % enc.gopSize == 0)
  }

  predicate Blocks(meta: Meta) { !meta.valid && meta.notReady && meta.inputNumber < 0 }

  function SubmitOutcome(enc: Venc, input: Input, force: bool, meta: Meta): Outcome {
    var t := Push(enc, input, RequestsIdr(enc, force));
    if !meta.valid then if Blocks(meta) then WouldBlock else Failed
    else if meta.length <= 0 then NoPacket
    else Emitted(MakePacket(SetOrigin(t, meta.inputNumber), meta))
  }

  function MakePacket(enc: Venc, meta: Meta): Packet
    requires enc.pending != []
  {
    var p := enc.pending[MatchIndex(enc, meta.inputNumber)];
    var pts := PacketPts(enc, p);
    Packet(p, pts, PacketDts(enc, p, pts), p.input.duration, p.requestedIdr || meta.intra)
  }

  function Take(enc: Venc, inputNumber: int): Venc {
    var t := SetOrigin(enc, inputNumber);
    t.(pending := RemoveAt(t.pending, MatchIndex(t, inputNumber)))
  }

  function Submit(enc: Venc, input: Input, force: bool, meta: Meta): Venc {
    var t := Push(enc, input, RequestsIdr(enc, force));
    if !meta.valid then if Blocks(meta) then PopTail(t).(nextId := t.nextId - 1) else PopTail(t)
    else if meta.length <= 0 then
      if HasBframes(enc.pattern) then Prune(t) else Take(t, meta.inputNumber)
    else
      RecordDts(Take(t, meta.inputNumber), MakePacket(SetOrigin(t, meta.inputNumber), meta).dts)
  }

  const INIT_PENDING: seq<Pending> := []

  function Created(pattern: int, duration: nat, gopSize: nat): Venc {
    Venc(pattern, duration, gopSize, 0, INIT_PENDING, None, None)
  }
}
