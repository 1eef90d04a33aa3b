/** The server's frame writer and reader as they are written: a header buffer filled in place, a
    reader that recovers a message frame by frame and unmasks each payload in place. */
module WsFrameIo {
  import opened Arithmetic
  import opened WsFrame

  lemma {:induction false} PowerGrows(n: nat)
    ensures Power(256, n) > 0
  {
    if n > 0 { PowerGrows(n - 1); }
  }

  /** Byte j of a big-endian number is what is left after shifting the lower bytes out. */
  lemma {:induction false} BigEndianAt(n: nat, k: nat, j: nat)
    requires j < k
    ensures Power(256, k - 1 - j) > 0
    ensures BigEndian(n, k)[j] == n / Power(256, k - 1 - j) % 256
  {
    PowerGrows(k - 1 - j);
    if j < k - 1 {
      BigEndianAt(n / 256, k - 1, j);
      PowerGrows(k - 2 - j);
      DivideTwice(n, Power(256, k - 2 - j));
    }
  }

  lemma DivideTwice(n: nat, p: nat)
    requires p > 0
    ensures n / 256 / p == n / (256 * p)
  {
    var q := n / 256 / p;
    var r := n / 256 - q * p;
    assert 0 <= r < p;
    var low := n - n / 256 * 256;
    assert n == q * (256 * p) + (r * 256 + low) by {
      assert n / 256 == q * p + r;
      assert (q * p + r) * 256 == q * (256 * p) + r * 256;
    }
    DivisionIsUnique(n, 256 * p, q, r * 256 + low);
  }

  method BuildWsFrame(payload: seq<Byte>) returns (frame: seq<Byte>)
    requires |payload| < 0x1_0000_0000_0000_0000
    ensures frame == ServerFrame(payload)
  {
    var hdr := new Byte[10](_ => 0);
    var len := |payload|;
    hdr[0] := 0x81;
    var hdrLen := 1;
    if len < 126 {
      hdr[1] := len;
      hdrLen := 2;
    } else if len <= 0xffff {
      hdr[1] := 126;
      hdr[2] := len / 256 % 256;
      hdr[3] := len % 256;
      hdrLen := 4;
      assert BigEndian(len / 256, 1) == [len / 256 % 256] by { assert BigEndian(len / 256 / 256, 0) == []; }
    } else {
      hdr[1] := 127;
      hdrLen := 2;
      for j := 0 to 8
        invariant hdrLen == 2 + j && hdr[0] == 0x81 && hdr[1] == 127
        invariant forall i :: 2 <= i < 2 + j ==> hdr[i] == BigEndian(len, 8)[i - 2]
        modifies hdr
      {
        BigEndianAt(len, 8, j);
        hdr[hdrLen] := len / Power(256, 7 - j) % 256;
        hdrLen := hdrLen + 1;
      }
    }
    assert hdr[..hdrLen] == [0x81, Length7(len)] + Extension(len);
    frame := hdr[..hdrLen];
    if len > 0 { frame := frame + payload; }
  }

  /** Fragments are appended until the final one; anything unexpected ends the read. */
  method ReadWsTextFrame(stream: seq<Byte>) returns (r: Read)
    ensures r == ReadMessage(stream)
  {
    var s, started, message := stream, false, [];
    while true
      invariant ReadFrom(s, started, message) == ReadMessage(stream)
      decreases |s|
    {
      if |s| < 2 { return Closed; }
      var fin, opcode := s[0] >= 128, s[0] % 16;
      if opcode == 8 { return Closed; }
      if opcode != 1 && opcode != 0 { return Closed; }
      if (opcode == 1 && started) || (opcode == 0 && !started) { return Closed; }
      var length := TakeLength(s[1], s[2..]);
      if length.NoLength? { return Closed; }
      var n, t := length.n, length.rest;
      if n > MAX_TEXT_PAYLOAD || |message| > MAX_TEXT_PAYLOAD - n { return Closed; }
      if s[1] < 128 { return Closed; }
      if |t| < 4 || |t| - 4 < n { return Closed; }
      var payload := Unmask(t[4..4 + n], t[..4]);
      if fin { return Message(message + payload, t[4 + n..]); }
      s, started, message := t[4 + n..], true, message + payload;
    }
  }

  /** The length and its extension, byte by byte. */
  method TakeLength(b: Byte, s: seq<Byte>) returns (r: LengthRead)
    ensures r == ReadLength(b, s)
  {
    var n: nat := b % 128;
    if n == 126 {
      if |s| < 2 { return NoLength; }
      TwoFromBytes(s[..2]);
      var high: nat, low: nat := s[0], s[1];
      return Length(high * 256 + low, s[2..]);
    }
    if n == 127 {
      if |s| < 8 { return NoLength; }
      n := 0;
      for j := 0 to 8
        invariant n == FromBytes(s[..j])
      {
        assert s[..j + 1][..j] == s[..j];
        n := n * 256 + s[j];
      }
      return Length(n, s[8..]);
    }
    return Length(n, s);
  }

  lemma TwoFromBytes(s: seq<Byte>)
    requires |s| == 2
    ensures FromBytes(s) == (s[0] as int) * 256 + (s[1] as int)
  {
    assert s[..1][..0] == [];
    assert FromBytes(s[..1]) == FromBytes(s[..1][..0]) * 256 + (s[0] as int);
  }

  /** The received bytes are unmasked where they are. */
  method Unmask(received: seq<Byte>, key: seq<Byte>) returns (text: seq<Byte>)
    requires |key| == 4
    ensures text == Masked(received, key)
  {
    var payload := new Byte[|received|](i requires 0 <= i < |received| => received[i]);
    for i := 0 to payload.Length
      invariant forall j :: 0 <= j < i ==> payload[j] == Xor(received[j], key[j % 4])
      invariant forall j :: i <= j < payload.Length ==> payload[j] == received[j]
      modifies payload
    {
      payload[i] := Xor(payload[i], key[i % 4]);
    }
    text := payload[..];
  }
}
