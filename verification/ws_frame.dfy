/** WebSocket text frames (sections 5.2 to 5.4 of RFC 6455): the frames the server writes and the
    messages it reads. */
module WsFrame {
  type Byte = b: int | 0 <= b < 256

  const MAX_TEXT_PAYLOAD: nat := 192 * 1024 * 1024
  const TEXT: nat := 1
  const CONTINUATION: nat := 0

  // ---------------------------------------------------------------- bytes and lengths

  /** Exclusive or of the low n bits. */
  function XorBits(a: nat, b: nat, n: nat): nat {
    if n == 0 then 0 else 2 * XorBits(a / 2, b / 2, n - 1) + if a % 2 == b % 2 then 0 else 1
  }

  function Power(base: nat, n: nat): nat {
    if n == 0 then 1 else base * Power(base, n - 1)
  }

  lemma {:induction false} XorBound(a: nat, b: nat, n: nat)
    ensures XorBits(a, b, n) < Power(2, n)
  {
    if n > 0 { XorBound(a / 2, b / 2, n - 1); }
  }

  lemma {:induction false} XorTwice(a: nat, b: nat, n: nat)
    requires a < Power(2, n)
    ensures XorBits(XorBits(a, b, n), b, n) == a
  {
    if n > 0 {
      XorTwice(a / 2, b / 2, n - 1);
      var x := XorBits(a, b, n);
      assert x / 2 == XorBits(a / 2, b / 2, n - 1);
    }
  }

  function Xor(a: Byte, b: Byte): (r: Byte)
  {
    XorBound(a, b, 8);
    XorBits(a, b, 8)
  }

  lemma XorByteTwice(a: Byte, b: Byte)
    ensures Xor(Xor(a, b), b) == a
  {
    XorTwice(a, b, 8);
  }

  /** k bytes of n, the most significant first. */
  function BigEndian(n: nat, k: nat): (s: seq<Byte>)
    ensures |s| == k
  {
    if k == 0 then [] else BigEndian(n / 256, k - 1) + [n % 256]
  }

  function FromBytes(s: seq<Byte>): nat {
    if s == [] then 0 else FromBytes(s[..|s| - 1]) * 256 + s[|s| - 1]
  }

  lemma {:induction false} BytesRoundTrip(n: nat, k: nat)
    requires n < Power(256, k)
    ensures FromBytes(BigEndian(n, k)) == n
  {
    if k > 0 {
      BytesRoundTrip(n / 256, k - 1);
      var s := BigEndian(n, k);
      assert s[..k - 1] == BigEndian(n / 256, k - 1);
    }
  }

  /** The payload with each byte masked by the byte of the key whose turn it is. */
  function Masked(p: seq<Byte>, key: seq<Byte>): (r: seq<Byte>)
    requires |key| == 4
    ensures |r| == |p| && forall i :: 0 <= i < |p| ==> r[i] == Xor(p[i], key[i % 4])
  {
    seq(|p|, i requires 0 <= i < |p| => Xor(p[i], key[i % 4]))
  }

  lemma MaskedTwice(p: seq<Byte>, key: seq<Byte>)
    requires |key| == 4
    ensures Masked(Masked(p, key), key) == p
  {
    forall i | 0 <= i < |p| ensures Masked(Masked(p, key), key)[i] == p[i] { XorByteTwice(p[i], key[i % 4]); }
  }

  // ---------------------------------------------------------------- writing (RFC 6455, section 5.2)

  /** The seven-bit length and its extension: the shortest form that fits. */
  function Length7(n: nat): (r: Byte)
    ensures r < 128
  {
    if n < 126 then n else if n <= 0xffff then 126 else 127
  }

  function Extension(n: nat): seq<Byte> {
    if n < 126 then [] else if n <= 0xffff then BigEndian(n, 2) else BigEndian(n, 8)
  }

  /** The server's frames are final, text, and not masked. */
  function ServerFrame(payload: seq<Byte>): seq<Byte> {
    [0x81, Length7(|payload|)] + (Extension(|payload|) + payload)
  }

  datatype Fragment = Fragment(key: seq<Byte>, payload: seq<Byte>)

  predicate FragmentOk(f: Fragment) { |f.key| == 4 && |f.payload| < 0x1_0000_0000_0000_0000 }

  /** A client's frames are masked. */
  function ClientFrame(fin: bool, opcode: nat, f: Fragment): seq<Byte>
    requires FragmentOk(f) && opcode < 16
  {
    [(if fin then 128 else 0) + opcode, 128 + Length7(|f.payload|)] +
    (Extension(|f.payload|) + (f.key + Masked(f.payload, f.key)))
  }

  // ---------------------------------------------------------------- reading

  datatype LengthRead = NoLength | Length(n: nat, rest: seq<Byte>)

  datatype Read = Closed | Message(text: seq<Byte>, rest: seq<Byte>)

  function ReadLength(b: Byte, s: seq<Byte>): LengthRead {
    var n := b % 128;
    if n == 126 then if |s| < 2 then NoLength else Length(FromBytes(s[..2]), s[2..])
    else if n == 127 then if |s| < 8 then NoLength else Length(FromBytes(s[..8]), s[8..])
    else Length(n, s)
  }

  predicate OpcodeFits(opcode: nat, started: bool) {
    (opcode == TEXT && !started) || (opcode == CONTINUATION && started)
  }

  predicate TooLong(n: nat, message: nat) { n > MAX_TEXT_PAYLOAD || message > MAX_TEXT_PAYLOAD - n }

  /** read_ws_text_frame from a byte stream, with the fragments read so far. */
  function ReadFrom(s: seq<Byte>, started: bool, message: seq<Byte>): (r: Read)
    ensures r.Message? ==> |r.rest| < |s|
    decreases |s|
  {
    if |s| < 2 || !OpcodeFits(s[0] % 16, started) then Closed
    else
      match ReadLength(s[1], s[2..])
      case NoLength => Closed
      case Length(n, t) =>
        if TooLong(n, |message|) || s[1] < 128 || |t| < 4 || |t| - 4 < n then Closed
        else
          var text := message + Masked(t[4..4 + n], t[..4]);
          if s[0] >= 128 then Message(text, t[4 + n..])
          else ReadFrom(t[4 + n..], true, text)
  }

  function ReadMessage(s: seq<Byte>): Read { ReadFrom(s, false, []) }

  // ---------------------------------------------------------------- frames decode

  lemma ExtensionDecodes(n: nat, b: Byte, tail: seq<Byte>)
    requires n < 0x1_0000_0000_0000_0000 && b % 128 == Length7(n)
    ensures ReadLength(b, Extension(n) + tail) == Length(n, tail)
  {
    var e := Extension(n);
    assert (e + tail)[..|e|] == e && (e + tail)[|e|..] == tail;
    if n >= 126 {
      PowersOf256();
      BytesRoundTrip(n, |e|);
    }
  }

  lemma PowersOf256()
    ensures Power(256, 2) == 0x1_0000 && Power(256, 8) == 0x1_0000_0000_0000_0000
  {
    assert Power(256, 4) == 256 * (256 * (256 * (256 * Power(256, 0))));
    assert Power(256, 8) == 256 * (256 * (256 * (256 * Power(256, 4))));
  }

  lemma BodyParts(key: seq<Byte>, body: seq<Byte>, rest: seq<Byte>)
    requires |key| == 4
    ensures var t := key + (body + rest);
            t[..4] == key && t[4..4 + |body|] == body && t[4 + |body|..] == rest
  {
  }

  /** One frame read from the front of a stream. */
  lemma FrameReads(fin: bool, opcode: nat, f: Fragment, rest: seq<Byte>, started: bool, message: seq<Byte>)
    requires FragmentOk(f) && opcode < 16
    ensures ReadFrom(ClientFrame(fin, opcode, f) + rest, started, message) ==
            if !OpcodeFits(opcode, started) || TooLong(|f.payload|, |message|) then Closed
            else if fin then Message(message + f.payload, rest)
            else ReadFrom(rest, true, message + f.payload)
  {
    var s := ClientFrame(fin, opcode, f) + rest;
    var n, body := |f.payload|, Masked(f.payload, f.key);
    var t := f.key + (body + rest);
    assert s[0] % 16 == opcode && (s[0] >= 128 <==> fin);
    assert s[1] % 128 == Length7(n) && s[1] >= 128;
    assert s[2..] == Extension(n) + t;
    ExtensionDecodes(n, s[1], t);
    BodyParts(f.key, body, rest);
    MaskedTwice(f.payload, f.key);
  }

  // ---------------------------------------------------------------- fragmented messages

  /** A text message in one or more fragments (RFC 6455, section 5.4). */
  function Fragments(fs: seq<Fragment>, started: bool): seq<Byte>
    requires forall i :: 0 <= i < |fs| ==> FragmentOk(fs[i])
  {
    if fs == [] then []
    else ClientFrame(|fs| == 1, if started then CONTINUATION else TEXT, fs[0]) + Fragments(fs[1..], true)
  }

  function Text(fs: seq<Fragment>): seq<Byte> {
    if fs == [] then [] else fs[0].payload + Text(fs[1..])
  }

  /** Reading the fragments of a message from the front of a stream, after `message`: exactly they
      are consumed, and their payloads appended, unless the whole would be over the limit. */
  lemma {:induction false} FragmentsRead(fs: seq<Fragment>, started: bool, message: seq<Byte>, rest: seq<Byte>)
    requires fs != [] && |message| <= MAX_TEXT_PAYLOAD
    requires forall i :: 0 <= i < |fs| ==> FragmentOk(fs[i])
    ensures ReadFrom(Fragments(fs, started) + rest, started, message) ==
            if |message + Text(fs)| <= MAX_TEXT_PAYLOAD then Message(message + Text(fs), rest) else Closed
  {
    var op := if started then CONTINUATION else TEXT;
    var f, more := fs[0], Fragments(fs[1..], true);
    assert Fragments(fs, started) + rest == ClientFrame(|fs| == 1, op, f) + (more + rest);
    FrameReads(|fs| == 1, op, f, more + rest, started, message);
    assert message + Text(fs) == (message + f.payload) + Text(fs[1..]);
    if |fs| == 1 {
      assert more + rest == rest && Text(fs[1..]) == [];
    } else if !TooLong(|f.payload|, |message|) {
      FragmentsRead(fs[1..], true, message + f.payload, rest);
    }
  }

  // ---------------------------------------------------------------- main results

  predicate MessageOk(fs: seq<Fragment>) {
    fs != [] && forall i :: 0 <= i < |fs| ==> FragmentOk(fs[i])
  }

  /** However a text message is split and masked: the reader returns its text and consumes exactly
      the message, if and only if the text is within the limit; otherwise it gives up. */
  lemma MessageIsRead(fs: seq<Fragment>, rest: seq<Byte>)
    requires MessageOk(fs)
    ensures ReadMessage(Fragments(fs, false) + rest) ==
            if |Text(fs)| <= MAX_TEXT_PAYLOAD then Message(Text(fs), rest) else Closed
  {
    FragmentsRead(fs, false, [], rest);
    assert [] + Text(fs) == Text(fs);
  }

  function Stream(ms: seq<seq<Fragment>>): seq<Byte>
    requires forall i :: 0 <= i < |ms| ==> MessageOk(ms[i])
  {
    if ms == [] then []
    else
      assert MessageOk(ms[0]);
      Fragments(ms[0], false) + Stream(ms[1..])
  }

  function Texts(ms: seq<seq<Fragment>>): seq<seq<Byte>> {
    if ms == [] then [] else [Text(ms[0])] + Texts(ms[1..])
  }

  /** The messages a client thread takes from its stream until the reader gives up. */
  function ReadAll(s: seq<Byte>): seq<seq<Byte>>
    decreases |s|
  {
    match ReadMessage(s)
    case Closed => []
    case Message(text, rest) => [text] + ReadAll(rest)
  }

  /** A stream of messages within the limit is recovered one by one, and reading goes on behind it. */
  lemma {:induction false} StreamIsRecovered(ms: seq<seq<Fragment>>, tail: seq<Byte>)
    requires forall i :: 0 <= i < |ms| ==> MessageOk(ms[i]) && |Text(ms[i])| <= MAX_TEXT_PAYLOAD
    ensures ReadAll(Stream(ms) + tail) == Texts(ms) + ReadAll(tail)
  {
    if ms == [] {
      assert Stream(ms) + tail == tail;
    } else {
      var m, rest := ms[0], Stream(ms[1..]) + tail;
      assert MessageOk(m);
      assert Stream(ms) + tail == Fragments(m, false) + rest;
      MessageIsRead(m, rest);
      StreamIsRecovered(ms[1..], tail);
      assert Texts(ms) + ReadAll(tail) == [Text(m)] + (Texts(ms[1..]) + ReadAll(tail));
    }
  }

  /** A frame that is not part of the message - a ping, say, which section 5.4 allows in between -
      makes the reader give up, whatever follows. */
  lemma {:induction false} OtherFramesEndTheRead(fs: seq<Fragment>, opcode: nat, f: Fragment, rest: seq<Byte>,
                                                 started: bool, message: seq<Byte>)
    requires forall i :: 0 <= i < |fs| ==> FragmentOk(fs[i])
    requires FragmentOk(f) && opcode < 16 && !OpcodeFits(opcode, started || fs != [])
    ensures ReadFrom(Unfinished(fs, started) + (ClientFrame(true, opcode, f) + rest), started, message) == Closed
  {
    if fs == [] {
      assert Unfinished(fs, started) + (ClientFrame(true, opcode, f) + rest) == ClientFrame(true, opcode, f) + rest;
      FrameReads(true, opcode, f, rest, started, message);
    } else {
      var op := if started then CONTINUATION else TEXT;
      var more, last := Unfinished(fs[1..], true), ClientFrame(true, opcode, f) + rest;
      assert Unfinished(fs, started) + last == ClientFrame(false, op, fs[0]) + (more + last);
      FrameReads(false, op, fs[0], more + last, started, message);
      OtherFramesEndTheRead(fs[1..], opcode, f, rest, true, message + fs[0].payload);
    }
  }

  /** Fragments of which none is the last. */
  function Unfinished(fs: seq<Fragment>, started: bool): seq<Byte>
    requires forall i :: 0 <= i < |fs| ==> FragmentOk(fs[i])
  {
    if fs == [] then []
    else ClientFrame(false, if started then CONTINUATION else TEXT, fs[0]) + Unfinished(fs[1..], true)
  }

  /** The frame the server builds decodes to its payload, and no shorter length form would. */
  lemma ServerFrameDecodes(payload: seq<Byte>, rest: seq<Byte>)
    requires |payload| < 0x1_0000_0000_0000_0000
    ensures var f := ServerFrame(payload) + rest;
            && f[0] >= 128 && f[0] % 16 == TEXT && f[1] < 128
            && ReadLength(f[1], f[2..]) == Length(|payload|, payload + rest)
  {
    var f := ServerFrame(payload) + rest;
    assert f[2..] == Extension(|payload|) + (payload + rest);
    ExtensionDecodes(|payload|, f[1], payload + rest);
  }

  /** Whatever first length byte and extension decode to n, the extension written for n is no longer. */
  lemma LengthFormIsMinimal(n: nat, b: Byte, ext: seq<Byte>, tail: seq<Byte>)
    requires ReadLength(b, ext + tail) == Length(n, tail)
    ensures |Extension(n)| <= |ext|
  {
    assert |(ext + tail)| == |ext| + |tail|;
    if |ext| == 2 && b % 128 == 126 { TwoBytes((ext + tail)[..2]); }
  }

  lemma TwoBytes(s: seq<Byte>)
    requires |s| == 2
    ensures FromBytes(s) <= 0xffff
  {
    assert FromBytes(s[..1]) == FromBytes(s[..1][..0]) * 256 + s[0];
  }
}
