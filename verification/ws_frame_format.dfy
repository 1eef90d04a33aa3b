/** The bytes the reader accepts, said bit by bit and byte by byte, and that it accepts no others. */
module WsFrameFormat {
  import opened WsFrame

  // ---------------------------------------------------------------- bits

  function Bit(x: nat, k: nat): nat {
    if k == 0 then x % 2 else Bit(x / 2, k - 1)
  }

  lemma {:induction false} XorBitsAt(a: nat, b: nat, n: nat, k: nat)
    requires k < n
    ensures Bit(XorBits(a, b, n), k) == 1 <==> Bit(a, k) != Bit(b, k)
  {
    var x := XorBits(a, b, n);
    assert x / 2 == XorBits(a / 2, b / 2, n - 1);
    if k > 0 { XorBitsAt(a / 2, b / 2, n - 1, k - 1); }
  }

  lemma {:induction false} BitIsBit(x: nat, k: nat)
    ensures Bit(x, k) < 2
  {
    if k > 0 { BitIsBit(x / 2, k - 1); }
  }

  /** A number below 2^n is known by its low n bits. */
  lemma {:induction false} BitsDecide(x: nat, y: nat, n: nat)
    requires x < Power(2, n) && y < Power(2, n) && forall k :: 0 <= k < n ==> Bit(x, k) == Bit(y, k)
    ensures x == y
  {
    if n > 0 {
      forall k | 0 <= k < n - 1 ensures Bit(x / 2, k) == Bit(y / 2, k) {
        assert Bit(x, k + 1) == Bit(y, k + 1);
      }
      BitsDecide(x / 2, y / 2, n - 1);
      assert Bit(x, 0) == Bit(y, 0);
    }
  }

  /** c is a exclusive or b. */
  ghost predicate ExclusiveOr(c: Byte, a: Byte, b: Byte) {
    forall k :: 0 <= k < 8 ==> (Bit(c, k) == 1 <==> Bit(a, k) != Bit(b, k))
  }

  lemma Power2At8()
    ensures Power(2, 8) == 256
  {
    assert Power(2, 4) == 2 * (2 * (2 * (2 * Power(2, 0))));
    assert Power(2, 8) == 2 * (2 * (2 * (2 * Power(2, 4))));
  }

  /** Bit k of Xor(a, b) is one if and only if bit k of a differs from bit k of b; no other byte has
      these bits. */
  lemma XorIsExclusiveOr(c: Byte, a: Byte, b: Byte)
    ensures c == Xor(a, b) <==> ExclusiveOr(c, a, b)
  {
    var x: Byte := Xor(a, b);
    forall k | 0 <= k < 8 ensures Bit(x, k) == 1 <==> Bit(a, k) != Bit(b, k) {
      XorBitsAt(a, b, 8, k);
    }
    if ExclusiveOr(c, a, b) {
      Power2At8();
      forall k | 0 <= k < 8 ensures Bit(x, k) == Bit(c, k) {
        BitIsBit(x, k);
        BitIsBit(c, k);
      }
      BitsDecide(c, x, 8);
    }
  }

  // ---------------------------------------------------------------- one frame

  /** Byte i as a number. */
  function At(s: seq<Byte>, i: nat): nat
    requires i < |s|
  {
    s[i]
  }

  /** The number eight bytes at i write, the most significant first. */
  function EightBytes(s: seq<Byte>, i: nat): nat
    requires i + 8 <= |s|
  {
    At(s, i) * 0x100_0000_0000_0000 + At(s, i + 1) * 0x1_0000_0000_0000 + At(s, i + 2) * 0x100_0000_0000 +
    At(s, i + 3) * 0x1_0000_0000 + At(s, i + 4) * 0x100_0000 + At(s, i + 5) * 0x1_0000 + At(s, i + 6) * 0x100 +
    At(s, i + 7)
  }

  /** At i stands a length of n, less than 126 in seven bits or in one of the two longer forms behind
      them; what comes behind it starts at j. */
  predicate LengthAt(s: seq<Byte>, i: nat, n: nat, j: nat) {
    && i < |s|
    && ((s[i] % 128 < 126 && n == s[i] % 128 && j == i + 1)
        || (s[i] % 128 == 126 && i + 3 <= |s| && n == At(s, i + 1) * 0x100 + At(s, i + 2) && j == i + 3)
        || (s[i] % 128 == 127 && i + 9 <= |s| && n == EightBytes(s, i + 1) && j == i + 9))
  }

  lemma NextByte(s: seq<Byte>, i: nat, j: nat, v: nat)
    requires i <= j < |s| && FromBytes(s[i..j]) == v
    ensures FromBytes(s[i..j + 1]) == v * 256 + At(s, j)
  {
    assert s[i..j + 1][..j - i] == s[i..j];
  }

  lemma TwoBytesAre(s: seq<Byte>, i: nat)
    requires i + 2 <= |s|
    ensures FromBytes(s[i..i + 2]) == At(s, i) * 0x100 + At(s, i + 1)
  {
    assert s[i..i] == [];
    NextByte(s, i, i, 0);
    NextByte(s, i, i + 1, At(s, i));
  }

  lemma EightBytesAre(s: seq<Byte>, i: nat)
    requires i + 8 <= |s|
    ensures FromBytes(s[i..i + 8]) == EightBytes(s, i)
  {
    TwoBytesAre(s, i);
    var v2 := At(s, i) * 0x100 + At(s, i + 1);
    NextByte(s, i, i + 2, v2);
    var v3 := v2 * 256 + At(s, i + 2);
    NextByte(s, i, i + 3, v3);
    var v4 := v3 * 256 + At(s, i + 3);
    NextByte(s, i, i + 4, v4);
    var v5 := v4 * 256 + At(s, i + 4);
    NextByte(s, i, i + 5, v5);
    var v6 := v5 * 256 + At(s, i + 5);
    NextByte(s, i, i + 6, v6);
    NextByte(s, i, i + 7, v6 * 256 + At(s, i + 6));
  }

  lemma Tail(s: seq<Byte>, i: nat, a: nat, b: nat)
    requires i + a <= i + b <= |s|
    ensures s[i..][a..b] == s[i + a..i + b] && s[i..][a..] == s[i + a..] && s[i..][..a] == s[i..i + a]
  {
  }

  /** The length as the reader reads it. */
  lemma LengthIs(s: seq<Byte>, i: nat, n: nat, j: nat)
    requires i < |s| && j <= |s|
    ensures LengthAt(s, i, n, j) <==> ReadLength(s[i], s[i + 1..]) == Length(n, s[j..])
  {
    if i + 3 <= |s| {
      TwoBytesAre(s, i + 1);
      Tail(s, i + 1, 2, 2);
    }
    if i + 9 <= |s| {
      EightBytesAre(s, i + 1);
      Tail(s, i + 1, 8, 8);
    }
    assert |s[j..]| == |s| - j;
  }

  // ---------------------------------------------------------------- frames

  /** Where the payload of a frame starts, and its length; its key is the four bytes in front. */
  datatype FrameAt = FrameAt(k: nat, n: nat)

  /** At i stands a masked frame with this opcode.  Unlike section 5.2 of RFC 6455 the reader passes
      over the three reserved bits and takes a length in any form. */
  predicate IsFrame(s: seq<Byte>, i: nat, opcode: nat, f: FrameAt) {
    && i + 1 < |s| && s[i] % 16 == opcode && s[i + 1] >= 128
    && f.k >= 4 && f.k + f.n <= |s| && LengthAt(s, i + 1, f.n, f.k - 4)
  }

  /** From i on stand these frames, only the last of them final; the first says text, or goes on with
      a message, and the others go on. */
  predicate AreFrames(s: seq<Byte>, i: nat, started: bool, fs: seq<FrameAt>, e: nat)
    decreases |fs|
  {
    && fs != [] && IsFrame(s, i, if started then 0 else 1, fs[0]) && (s[i] >= 128 <==> |fs| == 1)
    && if |fs| == 1 then e == fs[0].k + fs[0].n else AreFrames(s, fs[0].k + fs[0].n, true, fs[1..], e)
  }

  function Payload(s: seq<Byte>, f: FrameAt): (p: seq<Byte>)
    requires 4 <= f.k && f.k + f.n <= |s|
    ensures |p| == f.n
  {
    Masked(s[f.k..f.k + f.n], s[f.k - 4..f.k])
  }

  /** Byte j of the payload is the received byte exclusive or byte j % 4 of the key in front. */
  lemma PayloadIs(s: seq<Byte>, f: FrameAt, j: nat)
    requires 4 <= f.k && f.k + f.n <= |s| && j < f.n
    ensures ExclusiveOr(Payload(s, f)[j], s[f.k + j], s[f.k - 4 + j % 4])
  {
    var p, key := s[f.k..f.k + f.n], s[f.k - 4..f.k];
    assert p[j] == s[f.k + j] && key[j % 4] == s[f.k - 4 + j % 4];
    XorIsExclusiveOr(Payload(s, f)[j], p[j], key[j % 4]);
  }

  predicate PayloadsWithin(s: seq<Byte>, fs: seq<FrameAt>) {
    forall j :: 0 <= j < |fs| ==> 4 <= fs[j].k && fs[j].k + fs[j].n <= |s|
  }

  /** What the payloads say one after the other. */
  function Said(s: seq<Byte>, fs: seq<FrameAt>): seq<Byte>
    requires PayloadsWithin(s, fs)
  {
    if fs == [] then [] else Payload(s, fs[0]) + Said(s, fs[1..])
  }

  lemma {:induction false} FramesAreWithin(s: seq<Byte>, i: nat, started: bool, fs: seq<FrameAt>, e: nat)
    requires AreFrames(s, i, started, fs, e)
    ensures PayloadsWithin(s, fs) && e <= |s|
    decreases |fs|
  {
    if |fs| > 1 {
      FramesAreWithin(s, fs[0].k + fs[0].n, true, fs[1..], e);
      assert forall j :: 0 < j < |fs| ==> fs[j] == fs[1..][j - 1];
    }
  }

  // ---------------------------------------------------------------- reading

  /** One turn of the reader's loop, on the bytes u it still has to read, behind whose header t comes. */
  lemma FrontTurn(u: seq<Byte>, started: bool, message: seq<Byte>, n: nat, t: seq<Byte>, p: seq<Byte>, rest: seq<Byte>)
    requires |u| >= 2 && OpcodeFits(u[0] % 16, started) && u[1] >= 128 && ReadLength(u[1], u[2..]) == Length(n, t)
    requires 4 + n <= |t| && p == Masked(t[4..4 + n], t[..4]) && rest == t[4 + n..]
    ensures ReadFrom(u, started, message) ==
            if TooLong(n, |message|) then Closed
            else if u[0] >= 128 then Message(message + p, rest)
            else ReadFrom(rest, true, message + p)
  {
  }

  lemma PayloadBehindKey(s: seq<Byte>, f: FrameAt)
    requires 4 <= f.k && f.k + f.n <= |s|
    ensures var t := s[f.k - 4..];
            4 + f.n <= |t| && Payload(s, f) == Masked(t[4..4 + f.n], t[..4]) && s[f.k + f.n..] == t[4 + f.n..]
  {
    Tail(s, f.k - 4, 4, 4 + f.n);
    Tail(s, f.k - 4, 4 + f.n, 4 + f.n);
  }

  lemma FrameTurn(s: seq<Byte>, i: nat, started: bool, message: seq<Byte>, f: FrameAt, p: seq<Byte>, rest: seq<Byte>)
    requires IsFrame(s, i, if started then 0 else 1, f) && p == Payload(s, f) && rest == s[f.k + f.n..]
    ensures ReadFrom(s[i..], started, message) ==
            if TooLong(f.n, |message|) then Closed
            else if s[i] >= 128 then Message(message + p, rest)
            else ReadFrom(rest, true, message + p)
  {
    var u := s[i..];
    assert u[0] == s[i] && u[1] == s[i + 1] && u[2..] == s[i + 2..];
    LengthIs(s, i + 1, f.n, f.k - 4);
    PayloadBehindKey(s, f);
    FrontTurn(u, started, message, f.n, s[f.k - 4..], p, rest);
  }

  /** A frame that the reader takes. */
  lemma TakenFrame(s: seq<Byte>, i: nat, started: bool, message: seq<Byte>) returns (f: FrameAt)
    requires i <= |s| && ReadFrom(s[i..], started, message).Message?
    ensures IsFrame(s, i, if started then 0 else 1, f) && !TooLong(f.n, |message|) && f.k + f.n > i
  {
    var u := s[i..];
    assert u[2..] == s[i + 2..];
    var length := ReadLength(u[1], u[2..]);
    var j := |s| - |length.rest|;
    assert length.rest == s[j..];
    LengthIs(s, i + 1, length.n, j);
    f := FrameAt(j + 4, length.n);
  }

  lemma MoreFrames(s: seq<Byte>, i: nat, started: bool, f: FrameAt, more: seq<FrameAt>, e: nat)
    requires IsFrame(s, i, if started then 0 else 1, f) && s[i] < 128
    requires more != [] && AreFrames(s, f.k + f.n, true, more, e)
    ensures AreFrames(s, i, started, [f] + more, e)
  {
    assert ([f] + more)[1..] == more;
  }

  lemma LastFrame(s: seq<Byte>, i: nat, started: bool, f: FrameAt)
    requires IsFrame(s, i, if started then 0 else 1, f) && s[i] >= 128
    ensures AreFrames(s, i, started, [f], f.k + f.n)
  {
  }

  lemma FirstFrame(s: seq<Byte>, i: nat, started: bool, fs: seq<FrameAt>, e: nat) returns (f: FrameAt, j: nat)
    requires AreFrames(s, i, started, fs, e)
    ensures fs != [] && f == fs[0] && j == f.k + f.n <= |s| && IsFrame(s, i, if started then 0 else 1, f)
    ensures |fs| == 1 ==> s[i] >= 128 && e == j
    ensures |fs| > 1 ==> s[i] < 128 && AreFrames(s, j, true, fs[1..], e)
  {
    f := fs[0];
    j := f.k + f.n;
  }

  lemma TakenTurn(s: seq<Byte>, i: nat, u: seq<Byte>, started: bool, message: seq<Byte>)
    returns (f: FrameAt, rest: seq<Byte>, text: seq<Byte>)
    requires i <= |s| && u == s[i..] && ReadFrom(u, started, message).Message?
    ensures IsFrame(s, i, if started then 0 else 1, f) && rest == s[f.k + f.n..] && f.k + f.n > i
    ensures s[i] < 128 ==> ReadFrom(rest, true, text).Message?
  {
    f := TakenFrame(s, i, started, message);
    rest, text := s[f.k + f.n..], message + Payload(s, f);
    FrameTurn(s, i, started, message, f, Payload(s, f), rest);
  }

  /** What the reader takes stands in frames. */
  lemma {:induction false} ReadIsFrames(s: seq<Byte>, i: nat, u: seq<Byte>, started: bool, message: seq<Byte>)
    returns (fs: seq<FrameAt>, e: nat)
    requires i <= |s| && u == s[i..] && ReadFrom(u, started, message).Message?
    ensures AreFrames(s, i, started, fs, e)
    decreases |s| - i, 0
  {
    var f, rest, text := TakenTurn(s, i, u, started, message);
    if s[i] >= 128 {
      LastFrame(s, i, started, f);
      fs, e := [f], f.k + f.n;
    } else {
      fs, e := RestIsFrames(s, i, started, f, rest, text);
    }
  }

  lemma {:induction false} RestIsFrames(s: seq<Byte>, i: nat, started: bool, f: FrameAt, u: seq<Byte>,
                                        message: seq<Byte>)
    returns (fs: seq<FrameAt>, e: nat)
    requires IsFrame(s, i, if started then 0 else 1, f) && s[i] < 128 && i < f.k + f.n
    requires u == s[f.k + f.n..] && ReadFrom(u, true, message).Message?
    ensures AreFrames(s, i, started, fs, e)
    decreases |s| - f.k - f.n, 1
  {
    fs, e := ReadIsFrames(s, f.k + f.n, u, true, message);
    MoreFrames(s, i, started, f, fs, e);
    fs := [f] + fs;
  }

  lemma SaidFirst(s: seq<Byte>, fs: seq<FrameAt>, message: seq<Byte>, p: seq<Byte>)
    requires PayloadsWithin(s, fs) && fs != [] && p == Payload(s, fs[0])
    ensures PayloadsWithin(s, fs[1..]) && message + Said(s, fs) == (message + p) + Said(s, fs[1..])
    ensures |message + Said(s, fs)| == |message| + fs[0].n + |Said(s, fs[1..])|
    ensures |fs| == 1 ==> message + Said(s, fs) == message + p
  {
    assert |fs| == 1 ==> Said(s, fs[1..]) == [];
  }

  /** Frames are read: their payloads are appended to the message, unless it would be over the limit. */
  lemma {:induction false} FramesAreRead(s: seq<Byte>, i: nat, u: seq<Byte>, started: bool, message: seq<Byte>,
                                         fs: seq<FrameAt>, e: nat, all: seq<Byte>)
    requires AreFrames(s, i, started, fs, e) && PayloadsWithin(s, fs) && e <= |s| && |message| <= MAX_TEXT_PAYLOAD
    requires i <= |s| && u == s[i..] && all == message + Said(s, fs)
    ensures ReadFrom(u, started, message) == if |all| <= MAX_TEXT_PAYLOAD then Message(all, s[e..]) else Closed
    decreases |fs|
  {
    var f, j := FirstFrame(s, i, started, fs, e);
    var p, rest := Payload(s, f), s[j..];
    FrameTurn(s, i, started, message, f, p, rest);
    SaidFirst(s, fs, message, p);
    if |fs| > 1 && !TooLong(f.n, |message|) { FramesAreRead(s, j, rest, true, message + p, fs[1..], e, all); }
  }

  // ---------------------------------------------------------------- main results

  /** At the front of s stands a message in frames that end at e and say text. */
  ghost predicate Spells(s: seq<Byte>, fs: seq<FrameAt>, text: seq<Byte>, e: nat) {
    AreFrames(s, 0, false, fs, e) && PayloadsWithin(s, fs) && text == Said(s, fs) && |text| <= 192 * 0x10_0000
  }

  lemma AcceptedIsSpelled(s: seq<Byte>) returns (fs: seq<FrameAt>, e: nat)
    requires ReadMessage(s).Message?
    ensures Spells(s, fs, ReadMessage(s).text, e) && e <= |s| && ReadMessage(s).rest == s[e..]
  {
    assert s[0..] == s;
    fs, e := ReadIsFrames(s, 0, s, false, []);
    FramesAreWithin(s, 0, false, fs, e);
    assert [] + Said(s, fs) == Said(s, fs);
    FramesAreRead(s, 0, s, false, [], fs, e, Said(s, fs));
  }

  lemma SpelledIsAccepted(s: seq<Byte>, fs: seq<FrameAt>, text: seq<Byte>, e: nat)
    requires Spells(s, fs, text, e) && e <= |s|
    ensures ReadMessage(s) == Message(text, s[e..])
  {
    assert s[0..] == s && [] + text == text;
    FramesAreRead(s, 0, s, false, [], fs, e, text);
  }

  /** Of any bytes at all: the reader returns this text and leaves what is behind e if and only if a
      text message of masked frames, within the limit, stands at the front, says the text and ends at e. */
  lemma ReaderAcceptsExactly(s: seq<Byte>, text: seq<Byte>, e: nat)
    requires e <= |s|
    ensures ReadMessage(s) == Message(text, s[e..]) <==> exists fs :: Spells(s, fs, text, e)
  {
    if ReadMessage(s) == Message(text, s[e..]) {
      var fs, e' := AcceptedIsSpelled(s);
      assert |s[e..]| == |s| - e && |s[e'..]| == |s| - e';
      assert Spells(s, fs, text, e);
    }
    if fs :| Spells(s, fs, text, e) { SpelledIsAccepted(s, fs, text, e); }
  }

  /** What the server writes in front of its payload, byte by byte. */
  lemma ServerHeaderIs(payload: seq<Byte>)
    requires |payload| < 0x1_0000_0000_0000_0000
    ensures var n, s := |payload|, ServerFrame(payload);
            && s[0] == 0x81
            && (n < 126 ==> s == [0x81, n] + payload)
            && (126 <= n < 0x1_0000 ==>
                s[1] == 126 && |s| == 4 + n && n == At(s, 2) * 0x100 + At(s, 3) && s[4..] == payload)
            && (0x1_0000 <= n ==> s[1] == 127 && |s| == 10 + n && n == EightBytes(s, 2) && s[10..] == payload)
  {
    var n, s := |payload|, ServerFrame(payload);
    PowersOf256();
    if n >= 126 {
      var e := Extension(n);
      if n < 0x1_0000 { TwoBytesAre(s, 2); } else { EightBytesAre(s, 2); }
      BytesRoundTrip(n, |e|);
      assert s[2..2 + |e|] == e && s[2 + |e|..] == payload;
    }
  }
}
