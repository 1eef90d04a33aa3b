/** Where the strings of this JSON subset meet section 7 of RFC 8259, and where they do not. */
module JsonRfc8259 {
  import opened JsonGrammar
  import opened JsonSyntax
  import opened JsonRoundTrip

  predicate IsHex(c: char) { IsDigit(c) || 'a' <= c <= 'f' || 'A' <= c <= 'F' }

  predicate FourHexAt(t: string, i: nat) {
    i + 4 <= |t| && IsHex(t[i]) && IsHex(t[i + 1]) && IsHex(t[i + 2]) && IsHex(t[i + 3])
  }

  predicate IsSimpleEscape(c: char) {
    c == '"' || c == '\\' || c == '/' || c == 'b' || c == 'f' || c == 'n' || c == 'r' || c == 't'
  }

  function HexDigit(c: char): nat {
    if IsDigit(c) then c as nat - '0' as nat
    else if 'a' <= c <= 'f' then c as nat - 'a' as nat + 10
    else if 'A' <= c <= 'F' then c as nat - 'A' as nat + 10
    else 0
  }

  /** The code unit the four digits of a \u escape write. */
  function CodeUnit(t: string, i: nat): nat
    requires FourHexAt(t, i)
  {
    HexDigit(t[i]) * 0x1000 + HexDigit(t[i + 1]) * 0x100 + HexDigit(t[i + 2]) * 0x10 + HexDigit(t[i + 3])
  }

  /** A \u escape with its four digits starts at i. */
  predicate EscapeAt(t: string, i: nat) {
    i + 1 < |t| && t[i] == '\\' && t[i + 1] == 'u' && FourHexAt(t, i + 2)
  }

  /** The two escapes of a surrogate pair start at i. */
  predicate PairAt(t: string, i: nat) {
    && EscapeAt(t, i) && 0xD800 <= CodeUnit(t, i + 2) < 0xDC00
    && EscapeAt(t, i + 6) && 0xDC00 <= CodeUnit(t, i + 8) < 0xE000
  }

  /** What the text is encoded in: no character takes more than four bytes. */
  ghost predicate IsEncoding(enc: nat -> string) {
    forall codePoint: nat :: |enc(codePoint)| <= 4
  }

  /** The string whose opening quote is just before i, read as RFC 8259 prescribes.  A surrogate
      without its partner, on which the RFC says nothing, is encoded by itself. */
  function RfcScan(t: string, i: nat, enc: nat -> string): Parsed<string>
    decreases |t| - i
  {
    if i >= |t| then Fail
    else if t[i] == '"' then Got([], i + 1)
    else if t[i] < ' ' then Fail
    else if t[i] != '\\' then Before([t[i]], RfcScan(t, i + 1, enc))
    else if i + 1 >= |t| then Fail
    else if t[i + 1] == 'u' then
      if PairAt(t, i) then
        Before(enc(0x10000 + (CodeUnit(t, i + 2) - 0xD800) * 0x400 + (CodeUnit(t, i + 8) - 0xDC00)),
               RfcScan(t, i + 12, enc))
      else if FourHexAt(t, i + 2) then Before(enc(CodeUnit(t, i + 2)), RfcScan(t, i + 6, enc))
      else Fail
    else if IsSimpleEscape(t[i + 1]) then Before([Escaped(t[i + 1])], RfcScan(t, i + 2, enc))
    else Fail
  }

  function Before(s: string, r: Parsed<string>): Parsed<string> {
    match r
    case Fail => Fail
    case Got(rest, j) => Got(s + rest, j)
  }

  /** How many \u escapes the string whose opening quote is just before i holds. */
  function UnicodeEscapes(t: string, i: nat): nat
    decreases |t| - i
  {
    if i >= |t| || t[i] == '"' then 0
    else if t[i] != '\\' || i + 1 >= |t| then UnicodeEscapes(t, i + 1)
    else if t[i + 1] == 'u' then 1 + UnicodeEscapes(t, i + 2)
    else UnicodeEscapes(t, i + 2)
  }

  /** Four hex digits are four ordinary bytes to the code's scanner. */
  lemma HexDigitsAreOrdinary(t: string, i: nat)
    requires FourHexAt(t, i) && ScanStr(t, i + 4).Got?
    ensures ScanStr(t, i).Got? && ScanStr(t, i).next == ScanStr(t, i + 4).next
    ensures |ScanStr(t, i).value| == 4 + |ScanStr(t, i + 4).value|
    ensures UnicodeEscapes(t, i) == UnicodeEscapes(t, i + 4)
  {
    assert forall k :: i <= k < i + 4 ==> t[k] != '"' && t[k] != '\\';
    assert ScanStr(t, i + 3) == Prepend(t[i + 3], ScanStr(t, i + 4));
    assert ScanStr(t, i + 2) == Prepend(t[i + 2], ScanStr(t, i + 3));
    assert ScanStr(t, i + 1) == Prepend(t[i + 1], ScanStr(t, i + 2));
    assert ScanStr(t, i) == Prepend(t[i], ScanStr(t, i + 1));
    assert UnicodeEscapes(t, i + 2) == UnicodeEscapes(t, i + 3) == UnicodeEscapes(t, i + 4);
  }

  /** To the code's scanner a \u escape is a u and the four digits. */
  lemma EscapeIsFiveBytes(t: string, i: nat)
    requires EscapeAt(t, i) && ScanStr(t, i + 6).Got?
    ensures ScanStr(t, i).Got? && ScanStr(t, i).next == ScanStr(t, i + 6).next
    ensures |ScanStr(t, i).value| == 5 + |ScanStr(t, i + 6).value|
    ensures UnicodeEscapes(t, i) == 1 + UnicodeEscapes(t, i + 6)
  {
    HexDigitsAreOrdinary(t, i + 2);
    assert ScanStr(t, i) == Prepend('u', ScanStr(t, i + 2));
  }

  /** On every legal string the scanner ends where the RFC says; it reads the string the RFC
      means exactly when the string holds no \u escape. */
  lemma {:induction false} ScannerAgreesWithRfc(t: string, i: nat, enc: nat -> string)
    requires IsEncoding(enc) && RfcScan(t, i, enc).Got?
    ensures ScanStr(t, i).Got? && ScanStr(t, i).next == RfcScan(t, i, enc).next
    ensures |ScanStr(t, i).value| >= |RfcScan(t, i, enc).value| + UnicodeEscapes(t, i)
    ensures ScanStr(t, i).value == RfcScan(t, i, enc).value <==> UnicodeEscapes(t, i) == 0
    decreases |t| - i
  {
    if t[i] == '"' {
    } else if t[i] != '\\' {
      ScannerAgreesWithRfc(t, i + 1, enc);
      SameHead(t[i], ScanStr(t, i + 1).value, RfcScan(t, i + 1, enc).value);
    } else if t[i + 1] != 'u' {
      ScannerAgreesWithRfc(t, i + 2, enc);
      SameHead(Unescape(t[i + 1]), ScanStr(t, i + 2).value, RfcScan(t, i + 2, enc).value);
    } else if PairAt(t, i) {
      ScannerAgreesWithRfc(t, i + 12, enc);
      EscapeIsFiveBytes(t, i + 6);
      EscapeIsFiveBytes(t, i);
      EncodedIsShort(enc, 0x10000 + (CodeUnit(t, i + 2) - 0xD800) * 0x400 + (CodeUnit(t, i + 8) - 0xDC00),
                     RfcScan(t, i + 12, enc));
    } else {
      ScannerAgreesWithRfc(t, i + 6, enc);
      EscapeIsFiveBytes(t, i);
      EncodedIsShort(enc, CodeUnit(t, i + 2), RfcScan(t, i + 6, enc));
    }
  }

  lemma EncodedIsShort(enc: nat -> string, codePoint: nat, r: Parsed<string>)
    requires IsEncoding(enc) && r.Got?
    ensures |Before(enc(codePoint), r).value| <= 4 + |r.value|
  {
  }

  lemma SameHead(c: char, a: string, b: string)
    ensures [c] + a == [c] + b <==> a == b
  {
    assert ([c] + a)[1..] == a && ([c] + b)[1..] == b;
  }

  /** "\u0041" is read as the five bytes u0041, for any encoding of the letter A. */
  lemma UnicodeEscapeIsMisread(enc: nat -> string)
    requires IsEncoding(enc)
    ensures ScanStr("\\u0041\"", 0) == Got("u0041", 7)
    ensures RfcScan("\\u0041\"", 0, enc) == Got(enc(0x41), 7)
  {
    var t := "\\u0041\"";
    assert ScanStr(t, 6) == Got("", 7) && RfcScan(t, 6, enc) == Got("", 7);
    assert ['1'] + "" == "1" && ['4'] + "1" == "41" && ['0'] + "41" == "041" && ['0'] + "041" == "0041";
    assert t[2] == '0' && t[3] == '0' && t[4] == '4' && t[5] == '1';
    assert ScanStr(t, 5) == Got("1", 7);
    assert ScanStr(t, 4) == Got("41", 7);
    assert ScanStr(t, 3) == Got("041", 7);
    assert ScanStr(t, 2) == Got("0041", 7);
    assert ScanStr(t, 0) == Prepend('u', ScanStr(t, 2));
    assert ['u'] + "0041" == "u0041";
    var a := enc(0x41);
    assert CodeUnit(t, 2) == 0x41;
    assert RfcScan(t, 0, enc) == Before(a, RfcScan(t, 6, enc));
    assert a + "" == a;
  }

  /** The control characters print_string knows how to escape, and everything above them. */
  predicate PrintsLegally(c: char) {
    c >= ' ' || c == '\n' || c == '\r' || c == '\t'
  }

  predicate AllPrintLegally(s: string) {
    s == [] || (PrintsLegally(s[0]) && AllPrintLegally(s[1..]))
  }

  lemma {:induction false} AllPrintLegallyMeans(s: string)
    ensures AllPrintLegally(s) <==> forall k :: 0 <= k < |s| ==> PrintsLegally(s[k])
  {
    if s != [] {
      AllPrintLegallyMeans(s[1..]);
      assert forall k :: 0 < k < |s| ==> s[k] == s[1..][k - 1];
    }
  }

  lemma EscapedCharIsRfc(c: char, t: string, i: nat, enc: nat -> string)
    requires HasPrefix(t, i, EscapeChar(c))
    ensures RfcScan(t, i, enc) ==
            if PrintsLegally(c) then Before([c], RfcScan(t, i + |EscapeChar(c)|, enc)) else Fail
  {
    var e := EscapeChar(c);
    if |e| == 2 {
      assert HasPrefix(t, i + 1, e[1..]);
    }
  }

  lemma {:induction false} EscapedStringIsRfc(s: string, t: string, i: nat, enc: nat -> string)
    requires HasPrefix(t, i, Escape(s))
    ensures RfcScan(t, i, enc) ==
            if AllPrintLegally(s) then Got(s, i + |Escape(s)|) else Fail
  {
    if s != [] {
      var e := EscapeChar(s[0]);
      Split(t, i, e, Escape(s[1..]));
      EscapedStringIsRfc(s[1..], t, i + |e|, enc);
      EscapedCharIsRfc(s[0], t, i, enc);
      assert s == [s[0]] + s[1..];
    }
  }

  /** What print_string writes is a legal JSON string, read back as s by any conforming reader,
      exactly when every control character of s is one it escapes. */
  lemma PrintedStringIsRfc(s: string, enc: nat -> string)
    ensures PrintStr(s)[0] == '"'
    ensures RfcScan(PrintStr(s), 1, enc) == Got(s, |PrintStr(s)|)
            <==> forall k :: 0 <= k < |s| ==> PrintsLegally(s[k])
    ensures RfcScan(PrintStr(s), 1, enc).Fail?
            <==> exists k :: 0 <= k < |s| && !PrintsLegally(s[k])
  {
    var t := PrintStr(s);
    SliceIsPrefix(t, 1);
    assert t[1..] == Escape(s);
    EscapedStringIsRfc(s, t, 1, enc);
    AllPrintLegallyMeans(s);
  }
}
