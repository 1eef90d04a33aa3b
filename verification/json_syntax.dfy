/** The JSON subset of the server: trees, their printed text, and what the parser reads back.

    A text stands for a NUL-terminated C string, one character a byte, with the NUL left off:
    a cursor at the end of the sequence is a cursor at the NUL. */
module JsonSyntax {
  import opened Wrappers

  /** The byte under a cursor: the terminator once the cursor is past the text. */
  function At(t: string, i: nat): char {
    if i < |t| then t[i] else '\0'
  }

  // The integers a double holds exactly; "%.17g" writes each of them in plain decimal.
  const MAX_SAFE := 0x20_0000_0000_0000
  type SafeInt = n: int | -MAX_SAFE <= n <= MAX_SAFE

  /** A tree.  `Inexact` is a number token whose value this model does not follow. */
  datatype Json =
    | Null
    | Bool(b: bool)
    | Number(n: SafeInt)
    | Inexact(token: string)
    | Str(s: string)
    | Arr(items: seq<Json>)
    | Obj(members: seq<Member>)

  datatype Member = Member(key: string, value: Json)

  ghost predicate Exact(v: Json) {
    match v
    case Inexact(_) => false
    case Arr(items) => forall i :: 0 <= i < |items| ==> Exact(items[i])
    case Obj(members) => forall i :: 0 <= i < |members| ==> Exact(members[i].value)
    case _ => true
  }

  // ---------------------------------------------------------------- printing

  function EscapeChar(c: char): string {
    if c == '"' then "\\\""
    else if c == '\\' then "\\\\"
    else if c == '\n' then "\\n"
    else if c == '\r' then "\\r"
    else if c == '\t' then "\\t"
    else [c]
  }

  /** The escaped bytes of s and the closing quote. */
  function Escape(s: string): string {
    if s == [] then "\"" else EscapeChar(s[0]) + Escape(s[1..])
  }

  function PrintStr(s: string): string {
    "\"" + Escape(s)
  }

  function DigitChar(d: nat): char
    requires d < 10
  {
    (d + '0' as int) as char
  }

  function Digits(n: nat): string {
    if n < 10 then [DigitChar(n)] else Digits(n / 10) + [DigitChar(n % 10)]
  }

  function PrintInt(n: int): string {
    if n < 0 then "-" + Digits(-n) else Digits(n)
  }

  function Print(v: Json): string
    requires Exact(v)
    decreases v, 0
  {
    match v
    case Null => "null"
    case Bool(b) => if b then "true" else "false"
    case Number(n) => PrintInt(n)
    case Str(s) => PrintStr(s)
    case Arr(items) => "[" + PrintItems(items)
    case Obj(members) => "{" + PrintMembers(members)
  }

  /** The items, comma-separated, and the closing bracket. */
  function PrintItems(items: seq<Json>): string
    requires forall i :: 0 <= i < |items| ==> Exact(items[i])
    decreases items, 1
  {
    if items == [] then "]"
    else if |items| == 1 then Print(items[0]) + "]"
    else Print(items[0]) + ("," + PrintItems(items[1..]))
  }

  function PrintMember(m: Member): string
    requires Exact(m.value)
    decreases m, 1
  {
    PrintStr(m.key) + (":" + Print(m.value))
  }

  function PrintMembers(members: seq<Member>): string
    requires forall i :: 0 <= i < |members| ==> Exact(members[i].value)
    decreases members, 2
  {
    if members == [] then "}"
    else if |members| == 1 then PrintMember(members[0]) + "}"
    else PrintMember(members[0]) + ("," + PrintMembers(members[1..]))
  }

  // ---------------------------------------------------------------- parsing

  /** A parse step: what was read and where the cursor then stands. */
  datatype Parsed<+T> = Fail | Got(value: T, next: nat)

  /** isspace() in the C locale. */
  predicate IsSpace(c: char) {
    c == ' ' || c == '\t' || c == '\n' || c == '\r' || c == '\U{0b}' || c == '\U{0c}'
  }

  function SkipWs(t: string, i: nat): (j: nat)
    ensures i <= j && (i <= |t| ==> j <= |t|)
    decreases |t| - i
  {
    if i < |t| && IsSpace(t[i]) then SkipWs(t, i + 1) else i
  }

  /** What a backslash followed by c stands for: any other escaped byte is itself. */
  function Unescape(c: char): char {
    if c == 'b' then '\U{08}'
    else if c == 'f' then '\U{0c}'
    else if c == 'n' then '\n'
    else if c == 'r' then '\r'
    else if c == 't' then '\t'
    else c
  }

  /** The string whose opening quote is just before i. */
  function ScanStr(t: string, i: nat): (r: Parsed<string>)
    ensures r.Got? ==> i < r.next <= |t|
    decreases |t| - i
  {
    if i >= |t| then Fail
    else if t[i] == '"' then Got([], i + 1)
    else if t[i] == '\\' then
      if i + 1 >= |t| then Fail else Prepend(Unescape(t[i + 1]), ScanStr(t, i + 2))
    else Prepend(t[i], ScanStr(t, i + 1))
  }

  function Prepend(c: char, r: Parsed<string>): Parsed<string> {
    match r
    case Fail => Fail
    case Got(s, j) => Got([c] + s, j)
  }

  function ParseStr(t: string, i: nat): (r: Parsed<string>)
    ensures r.Got? ==> i < r.next <= |t|
  {
    if At(t, i) == '"' then ScanStr(t, i + 1) else Fail
  }

  predicate IsDigit(c: char) { '0' <= c <= '9' }

  function DigitsEnd(t: string, i: nat): (j: nat)
    ensures i <= j && (i <= |t| ==> j <= |t|)
    decreases |t| - i
  {
    if i < |t| && IsDigit(t[i]) then DigitsEnd(t, i + 1) else i
  }

  /** The number the digits t[a..b] write. */
  function Value(t: string, a: nat, b: nat): nat
    decreases b
  {
    if b <= a then 0
    else Value(t, a, b - 1) * 10 + if IsDigit(At(t, b - 1)) then At(t, b - 1) as nat - '0' as nat else 0
  }

  function AfterSign(t: string, i: nat): nat {
    if At(t, i) == '-' || At(t, i) == '+' then i + 1 else i
  }

  function FractionEnd(t: string, i: nat): (j: nat)
    ensures i <= j && (i <= |t| ==> j <= |t|)
  {
    if At(t, i) == '.' then DigitsEnd(t, i + 1) else i
  }

  /** An exponent counts only if a digit follows. */
  function ExponentEnd(t: string, i: nat): (j: nat)
    ensures i <= j && (i <= |t| ==> j <= |t|)
  {
    if At(t, i) == 'e' || At(t, i) == 'E' then
      var d := AfterSign(t, i + 1);
      if DigitsEnd(t, d) > d then DigitsEnd(t, d) else i
    else i
  }

  /** The node strtod() makes of the token t[i..e] whose integer digits are t[a..b]. */
  function NumberNode(t: string, i: nat, a: nat, b: nat, e: nat): Json
    requires i <= a <= b <= e <= |t|
  {
    var m := Value(t, a, b);
    if e > b || m > MAX_SAFE || (m == 0 && At(t, i) == '-') then Inexact(t[i..e])
    else Number(if At(t, i) == '-' then -(m as int) else m)
  }

  /** strtod() on decimal text: the tree node, and where the token ends. */
  function ScanNumber(t: string, i: nat): (r: Parsed<Json>)
    ensures r.Got? ==> i < r.next <= |t|
  {
    if i >= |t| then Fail else
    var a := AfterSign(t, i);
    var b := DigitsEnd(t, a);
    var c := FractionEnd(t, b);
    if b == a && c <= b + 1 then Fail           // no digit at all
    else Got(NumberNode(t, i, a, b, ExponentEnd(t, c)), ExponentEnd(t, c))
  }

  /** strncmp() against a four-letter word. */
  predicate WordAt(t: string, i: nat, a: char, b: char, c: char, d: char) {
    At(t, i) == a && At(t, i + 1) == b && At(t, i + 2) == c && At(t, i + 3) == d
  }

  function ParseValue(t: string, at: nat): (r: Parsed<Json>)
    ensures r.Got? ==> at < r.next <= |t|
    decreases |t| - at, 3
  {
    var i := SkipWs(t, at);
    if At(t, i) == '{' then ParseObject(t, i)
    else if At(t, i) == '[' then ParseArray(t, i)
    else if At(t, i) == '"' then
      match ParseStr(t, i) {
        case Fail => Fail
        case Got(s, j) => Got(Str(s), j)
      }
    else if WordAt(t, i, 't', 'r', 'u', 'e') then Got(Bool(true), i + 4)
    else if WordAt(t, i, 'f', 'a', 'l', 's') && At(t, i + 4) == 'e' then Got(Bool(false), i + 5)
    else if WordAt(t, i, 'n', 'u', 'l', 'l') then Got(Null, i + 4)
    else ScanNumber(t, i)
  }

  function ParseArray(t: string, at: nat): (r: Parsed<Json>)
    ensures r.Got? ==> at < r.next <= |t|
    decreases |t| - at, 2
  {
    var i := SkipWs(t, at);
    if At(t, i) != '[' then Fail
    else
      var j := SkipWs(t, i + 1);
      if At(t, j) == ']' then Got(Arr([]), j + 1)
      else match ParseItems(t, j) {
        case Fail => Fail
        case Got(items, k) => Got(Arr(items), k)
      }
  }

  /** The items from i on, up to and including the closing bracket. */
  function ParseItems(t: string, i: nat): (r: Parsed<seq<Json>>)
    ensures r.Got? ==> i < r.next <= |t|
    decreases |t| - i, 4
  {
    if i >= |t| then Fail
    else match ParseValue(t, i) {
      case Fail => Fail
      case Got(v, j) =>
        var k := SkipWs(t, j);
        if At(t, k) == ']' then Got([v], k + 1)
        else if At(t, k) != ',' then Fail
        else match ParseItems(t, SkipWs(t, k + 1)) {
          case Fail => Fail
          case Got(rest, e) => Got([v] + rest, e)
        }
    }
  }

  function ParseObject(t: string, at: nat): (r: Parsed<Json>)
    ensures r.Got? ==> at < r.next <= |t|
    decreases |t| - at, 2
  {
    var i := SkipWs(t, at);
    if At(t, i) != '{' then Fail
    else
      var j := SkipWs(t, i + 1);
      if At(t, j) == '}' then Got(Obj([]), j + 1)
      else match ParseMembers(t, j) {
        case Fail => Fail
        case Got(members, k) => Got(Obj(members), k)
      }
  }

  function ParseMember(t: string, i: nat): (r: Parsed<Member>)
    ensures r.Got? ==> i < r.next <= |t|
    decreases |t| - i, 4
  {
    match ParseStr(t, i)
    case Fail => Fail
    case Got(key, j) =>
      var k := SkipWs(t, j);
      if At(t, k) != ':' then Fail
      else match ParseValue(t, SkipWs(t, k + 1)) {
        case Fail => Fail
        case Got(v, e) => Got(Member(key, v), e)
      }
  }

  function ParseMembers(t: string, i: nat): (r: Parsed<seq<Member>>)
    ensures r.Got? ==> i < r.next <= |t|
    decreases |t| - i, 5
  {
    if i >= |t| then Fail
    else match ParseMember(t, i) {
      case Fail => Fail
      case Got(m, j) =>
        var k := SkipWs(t, j);
        if At(t, k) == '}' then Got([m], k + 1)
        else if At(t, k) != ',' then Fail
        else match ParseMembers(t, SkipWs(t, k + 1)) {
          case Fail => Fail
          case Got(rest, e) => Got([m] + rest, e)
        }
    }
  }

  /** cJSON_Parse: one value, then nothing but white space. */
  function Parse(t: string): Option<Json> {
    match ParseValue(t, 0)
    case Fail => None
    case Got(v, j) => if SkipWs(t, j) >= |t| then Some(v) else None
  }
}
