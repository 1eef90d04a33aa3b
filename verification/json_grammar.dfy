/** The texts the parser accepts, as a grammar over their characters, and that it accepts no others. */
module JsonGrammar {
  import opened JsonSyntax
  import opened Wrappers

  // ---------------------------------------------------------------- white space

  /** What isspace() passes over in the C locale; the last two are not white space to RFC 8259. */
  predicate Blank(c: char) {
    c in [' ', '\t', '\n', '\r', '\U{0b}', '\U{0c}']
  }

  ghost predicate Blanks(t: string, i: nat, k: nat) {
    i <= k <= |t| && forall m :: i <= m < k ==> Blank(t[m])
  }

  lemma {:induction false} SkipIsBlank(t: string, i: nat)
    requires i <= |t|
    ensures Blanks(t, i, SkipWs(t, i)) && !Blank(At(t, SkipWs(t, i)))
    decreases |t| - i
  {
    if i < |t| && IsSpace(t[i]) { SkipIsBlank(t, i + 1); }
  }

  lemma {:induction false} SkipsBlanks(t: string, i: nat, k: nat)
    requires Blanks(t, i, k) && !Blank(At(t, k))
    ensures SkipWs(t, i) == k
    decreases k - i
  {
    if i < k { SkipsBlanks(t, i + 1, k); }
  }

  // ---------------------------------------------------------------- strings

  /** What stands for c behind a backslash. */
  function Escaped(c: char): char {
    match c
    case 'b' => '\U{08}'
    case 'f' => '\U{0c}'
    case 'n' => '\n'
    case 'r' => '\r'
    case 't' => '\t'
    case _ => c
  }

  /** t[i..e] spells s and the closing quote. */
  ghost predicate StringWrites(t: string, i: nat, s: string, e: nat)
    decreases |s|
  {
    && i < |t|
    && if s == [] then t[i] == '"' && e == i + 1
       else if t[i] == '\\' then i + 1 < |t| && s[0] == Escaped(t[i + 1]) && StringWrites(t, i + 2, s[1..], e)
       else t[i] != '"' && s[0] == t[i] && StringWrites(t, i + 1, s[1..], e)
  }

  lemma {:induction false} StringIsWritten(t: string, i: nat)
    requires ScanStr(t, i).Got?
    ensures StringWrites(t, i, ScanStr(t, i).value, ScanStr(t, i).next)
    decreases |t| - i
  {
    var s := ScanStr(t, i).value;
    if t[i] == '\\' {
      StringIsWritten(t, i + 2);
      assert s[1..] == ScanStr(t, i + 2).value;
    } else if t[i] != '"' {
      StringIsWritten(t, i + 1);
      assert s[1..] == ScanStr(t, i + 1).value;
    }
  }

  lemma {:induction false} WrittenStringScans(t: string, i: nat, s: string, e: nat)
    requires StringWrites(t, i, s, e)
    ensures ScanStr(t, i) == Got(s, e)
    decreases |s|
  {
    if s != [] {
      WrittenStringScans(t, if t[i] == '\\' then i + 2 else i + 1, s[1..], e);
      assert s == [s[0]] + s[1..];
    }
  }

  // ---------------------------------------------------------------- numbers

  ghost predicate AllDigits(t: string, a: nat, b: nat) {
    a <= b <= |t| && forall k :: a <= k < b ==> '0' <= t[k] <= '9'
  }

  /** Behind an optional sign. */
  ghost predicate Signed(t: string, i: nat, a: nat) {
    a == i || (a == i + 1 && i < |t| && (t[i] == '-' || t[i] == '+'))
  }

  /** Nothing, or a point and digits. */
  ghost predicate Fraction(t: string, b: nat, c: nat) {
    c == b || (b < |t| && t[b] == '.' && AllDigits(t, b + 1, c))
  }

  /** Nothing, or an e, an optional sign and at least one digit. */
  ghost predicate Exponent(t: string, c: nat, e: nat) {
    e == c || (c < |t| && (t[c] == 'e' || t[c] == 'E') &&
               exists d: nat :: Signed(t, c + 1, d) && d < e && AllDigits(t, d, e))
  }

  /** t[i..e] is a decimal number: digits with or without a fraction, but not without any digit. */
  ghost predicate Decimal(t: string, i: nat, e: nat) {
    exists a: nat, b: nat, c: nat :: DecimalParts(t, i, a, b, c, e)
  }

  ghost predicate DecimalParts(t: string, i: nat, a: nat, b: nat, c: nat, e: nat) {
    && Signed(t, i, a) && AllDigits(t, a, b) && Fraction(t, b, c) && Exponent(t, c, e)
    && (a < b || b + 1 < c)
  }

  /** The number is an integer that a double holds, its sign not lost on zero; or it stays a token. */
  ghost predicate NumberIs(t: string, i: nat, e: nat, v: Json)
    requires i < e <= |t|
  {
    var a := if t[i] == '-' || t[i] == '+' then i + 1 else i;
    var m := Value(t, a, e);
    if a <= e && AllDigits(t, a, e) && m <= MAX_SAFE && (t[i] == '-' ==> m > 0)
    then v == Number(if t[i] == '-' then -(m as int) else m)
    else v == Inexact(t[i..e])
  }

  /** t[i..e] is the longest decimal number there is from i on. */
  ghost predicate NumberWrites(t: string, i: nat, v: Json, e: nat) {
    && i < e <= |t| && Decimal(t, i, e) && NumberIs(t, i, e, v)
    && forall f :: f > e ==> !Decimal(t, i, f)
  }

  lemma {:induction false} DigitsEndIsFirst(t: string, i: nat)
    requires i <= |t|
    ensures AllDigits(t, i, DigitsEnd(t, i)) && !IsDigit(At(t, DigitsEnd(t, i)))
    decreases |t| - i
  {
    if i < |t| && IsDigit(t[i]) { DigitsEndIsFirst(t, i + 1); }
  }

  /** A run of digits is no longer than the greedy one, and a shorter one is followed by a digit. */
  lemma RunIsGreedy(t: string, a: nat, b: nat)
    requires AllDigits(t, a, b)
    ensures b <= DigitsEnd(t, a) && (b < DigitsEnd(t, a) ==> IsDigit(At(t, b)))
  {
    DigitsEndIsFirst(t, a);
  }

  lemma ExponentIsGreedy(t: string, c: nat, e: nat)
    requires c <= |t| && Exponent(t, c, e)
    ensures e <= ExponentEnd(t, c)
  {
    if e > c {
      var d: nat :| Signed(t, c + 1, d) && d < e && AllDigits(t, d, e);
      assert IsDigit(t[d]) && d == AfterSign(t, c + 1);
      RunIsGreedy(t, d, e);
    }
  }

  lemma ExponentEndIsOne(t: string, c: nat)
    requires c <= |t|
    ensures Exponent(t, c, ExponentEnd(t, c))
  {
    var d := AfterSign(t, c + 1);
    if ExponentEnd(t, c) > c {
      DigitsEndIsFirst(t, d);
      assert Signed(t, c + 1, d);
    }
  }

  lemma DecimalIsGreedy(t: string, i: nat, a: nat, b: nat, c: nat, e: nat)
    requires i <= |t| && DecimalParts(t, i, a, b, c, e)
    ensures a == AfterSign(t, i) && ScanNumber(t, i).Got? && e <= ScanNumber(t, i).next
  {
    assert a < b ==> IsDigit(t[a]);
    RunIsGreedy(t, a, b);
    var g := DigitsEnd(t, a);
    if b < g {
      assert c == b == e;
    } else {
      if b + 1 <= c { RunIsGreedy(t, b + 1, c); }
      FractionThen(t, b, c, e);
    }
  }

  lemma FractionThen(t: string, b: nat, c: nat, e: nat)
    requires b <= |t| && Fraction(t, b, c) && Exponent(t, c, e)
    ensures c <= FractionEnd(t, b) && e <= ExponentEnd(t, FractionEnd(t, b))
  {
    if c > b { RunIsGreedy(t, b + 1, c); }
    if c < FractionEnd(t, b) {
      assert e == c;
    } else {
      ExponentIsGreedy(t, c, e);
    }
  }

  lemma ScanIsDecimal(t: string, i: nat)
    requires i <= |t| && ScanNumber(t, i).Got?
    ensures var a := AfterSign(t, i); var b := DigitsEnd(t, a); var c := FractionEnd(t, b);
            DecimalParts(t, i, a, b, c, ScanNumber(t, i).next)
  {
    var a := AfterSign(t, i);
    var b := DigitsEnd(t, a);
    DigitsEndIsFirst(t, a);
    FractionEndIsOne(t, b);
    ExponentEndIsOne(t, FractionEnd(t, b));
  }

  lemma FractionEndIsOne(t: string, b: nat)
    requires b <= |t|
    ensures Fraction(t, b, FractionEnd(t, b))
  {
    if At(t, b) == '.' { DigitsEndIsFirst(t, b + 1); }
  }

  lemma NodeIs(t: string, i: nat, b: nat, e: nat)
    requires var a := AfterSign(t, i); a <= b <= e <= |t| && i < e && b == DigitsEnd(t, a)
    requires AfterSign(t, i) < b || b + 1 < e
    ensures NumberIs(t, i, e, NumberNode(t, i, AfterSign(t, i), b, e))
  {
    var a := AfterSign(t, i);
    DigitsEndIsFirst(t, a);
    if b < e { assert !IsDigit(t[b]); }
  }

  lemma NumberIsWritten(t: string, i: nat)
    requires i <= |t| && ScanNumber(t, i).Got?
    ensures NumberWrites(t, i, ScanNumber(t, i).value, ScanNumber(t, i).next)
  {
    var e := ScanNumber(t, i).next;
    var a := AfterSign(t, i);
    var b := DigitsEnd(t, a);
    ScanIsDecimal(t, i);
    NodeIs(t, i, b, e);
    forall f | f > e ensures !Decimal(t, i, f) {
      if Decimal(t, i, f) {
        var a': nat, b': nat, c': nat :| DecimalParts(t, i, a', b', c', f);
        DecimalIsGreedy(t, i, a', b', c', f);
      }
    }
  }

  lemma WrittenNumberScans(t: string, i: nat, v: Json, e: nat)
    requires NumberWrites(t, i, v, e)
    ensures ScanNumber(t, i) == Got(v, e)
  {
    var a: nat, b: nat, c: nat :| DecimalParts(t, i, a, b, c, e);
    DecimalIsGreedy(t, i, a, b, c, e);
    NumberIsWritten(t, i);
    assert ScanNumber(t, i).next == e;
  }

  lemma NumberStart(t: string, i: nat, v: Json, e: nat)
    requires NumberWrites(t, i, v, e)
    ensures v.Number? || v.Inexact?
    ensures t[i] == '-' || t[i] == '+' || t[i] == '.' || IsDigit(t[i])
  {
    var a: nat, b: nat, c: nat :| DecimalParts(t, i, a, b, c, e);
  }

  // ---------------------------------------------------------------- values

  ghost predicate WordWrites(t: string, i: nat, word: string, e: nat) {
    i <= |t| && e == i + |word| && e <= |t| && t[i..e] == word
  }

  /** White space, then the character c, which ends at e. */
  ghost predicate MarkWrites(t: string, i: nat, c: char, e: nat) {
    i < e <= |t| && Blanks(t, i, e - 1) && t[e - 1] == c
  }

  /** White space, then v, from the character at k on. */
  ghost predicate Writes(t: string, i: nat, v: Json, e: nat)
    decreases v, 1
  {
    exists k: nat :: Blanks(t, i, k) && WritesAt(t, k, v, e)
  }

  ghost predicate WritesAt(t: string, k: nat, v: Json, e: nat)
    decreases v, 0
  {
    match v
    case Null => WordWrites(t, k, "null", e)
    case Bool(b) => WordWrites(t, k, if b then "true" else "false", e)
    case Number(_) => NumberWrites(t, k, v, e)
    case Inexact(_) => NumberWrites(t, k, v, e)
    case Str(s) => k < |t| && t[k] == '"' && StringWrites(t, k + 1, s, e)
    case Arr(items) =>
      && k < |t| && t[k] == '['
      && (if items == [] then MarkWrites(t, k + 1, ']', e) else ItemsWrite(t, k + 1, items, e))
    case Obj(members) =>
      && k < |t| && t[k] == '{'
      && (if members == [] then MarkWrites(t, k + 1, '}', e) else MembersWrite(t, k + 1, members, e))
  }

  /** One or more items with a comma between any two, and the closing bracket. */
  ghost predicate ItemsWrite(t: string, i: nat, items: seq<Json>, e: nat)
    requires items != []
    decreases items, 1
  {
    exists j: nat :: Writes(t, i, items[0], j) && ItemsEnd(t, j, items, e)
  }

  ghost predicate ItemsEnd(t: string, j: nat, items: seq<Json>, e: nat)
    requires items != []
    decreases items, 0
  {
    if |items| == 1 then MarkWrites(t, j, ']', e)
    else exists k: nat :: MarkWrites(t, j, ',', k) && ItemsWrite(t, k, items[1..], e)
  }

  ghost predicate MembersWrite(t: string, i: nat, members: seq<Member>, e: nat)
    requires members != []
    decreases members, 1
  {
    exists j: nat :: MemberWrites(t, i, members[0], j) && MembersEnd(t, j, members, e)
  }

  ghost predicate MembersEnd(t: string, j: nat, members: seq<Member>, e: nat)
    requires members != []
    decreases members, 0
  {
    if |members| == 1 then MarkWrites(t, j, '}', e)
    else exists k: nat :: MarkWrites(t, j, ',', k) && MembersWrite(t, k, members[1..], e)
  }

  /** A quoted key, a colon, a value. */
  ghost predicate MemberWrites(t: string, i: nat, m: Member, e: nat)
    decreases m, 0
  {
    exists q: nat, j: nat, k: nat :: MemberParts(t, i, m, q, j, k) && Writes(t, k, m.value, e)
  }

  ghost predicate MemberParts(t: string, i: nat, m: Member, q: nat, j: nat, k: nat) {
    MarkWrites(t, i, '"', q) && StringWrites(t, q, m.key, j) && MarkWrites(t, j, ':', k)
  }

  // ---------------------------------------------------------------- white space in front does not matter

  lemma MarkIs(t: string, i: nat, c: char, e: nat)
    requires i <= |t| && !Blank(c) && c != '\0'
    ensures MarkWrites(t, i, c, e) <==> At(t, SkipWs(t, i)) == c && e == SkipWs(t, i) + 1
  {
    SkipIsBlank(t, i);
    if MarkWrites(t, i, c, e) { SkipsBlanks(t, i, e - 1); }
  }

  /** A value starts with no white space. */
  lemma ValueStart(t: string, k: nat, v: Json, e: nat)
    requires WritesAt(t, k, v, e)
    ensures k < e && k < |t| && !Blank(t[k]) && t[k] != ']' && t[k] != '}'
    decreases v, 0
  {
    match v
    case Null => assert t[k] == t[k..e][0];
    case Bool(b) => assert t[k] == t[k..e][0];
    case Number(_) => NumberStart(t, k, v, e);
    case Inexact(_) => NumberStart(t, k, v, e);
    case Str(s) => WrittenStringScans(t, k + 1, s, e);
    case Arr(items) => if items != [] { ItemsAreLong(t, k + 1, items, e); }
    case Obj(members) => if members != [] { MembersAreLong(t, k + 1, members, e); }
  }

  lemma {:induction false} ItemsAreLong(t: string, i: nat, items: seq<Json>, e: nat)
    requires items != [] && ItemsWrite(t, i, items, e)
    ensures i < e
    decreases items, 0
  {
    var j := OpenItems(t, i, items, e);
    var k: nat :| Blanks(t, i, k) && WritesAt(t, k, items[0], j);
    ValueStart(t, k, items[0], j);
    if |items| > 1 {
      var m := OpenNextItems(t, j, items, e);
      ItemsAreLong(t, m, items[1..], e);
    }
  }

  lemma {:induction false} MembersAreLong(t: string, i: nat, members: seq<Member>, e: nat)
    requires members != [] && MembersWrite(t, i, members, e)
    ensures i < e
    decreases members, 0
  {
    var j := OpenMembers(t, i, members, e);
    MemberIsLong(t, i, members[0], j);
    if |members| > 1 {
      var m := OpenNextMembers(t, j, members, e);
      MembersAreLong(t, m, members[1..], e);
    }
  }

  lemma {:induction false} MemberIsLong(t: string, i: nat, m: Member, e: nat)
    requires MemberWrites(t, i, m, e)
    ensures i < e
    decreases m, 0
  {
    var q: nat, j: nat, k: nat :| MemberParts(t, i, m, q, j, k) && Writes(t, k, m.value, e);
    var b: nat :| Blanks(t, k, b) && WritesAt(t, b, m.value, e);
    WrittenStringScans(t, q, m.key, j);
    ValueStart(t, b, m.value, e);
  }

  /** Written from i on is written from behind the white space at i on. */
  lemma WritesIs(t: string, i: nat, v: Json, e: nat)
    requires i <= |t|
    ensures Writes(t, i, v, e) <==> WritesAt(t, SkipWs(t, i), v, e)
  {
    SkipIsBlank(t, i);
    if Writes(t, i, v, e) {
      var k: nat :| Blanks(t, i, k) && WritesAt(t, k, v, e);
      ValueStart(t, k, v, e);
      SkipsBlanks(t, i, k);
    }
  }

  lemma SkipTwice(t: string, i: nat)
    requires i <= |t|
    ensures SkipWs(t, SkipWs(t, i)) == SkipWs(t, i) <= |t|
  {
    SkipIsBlank(t, i);
    SkipsBlanks(t, SkipWs(t, i), SkipWs(t, i));
  }

  lemma ItemsSkip(t: string, i: nat, items: seq<Json>, e: nat)
    requires i <= |t| && items != []
    ensures ItemsWrite(t, i, items, e) <==> ItemsWrite(t, SkipWs(t, i), items, e)
  {
    SkipTwice(t, i);
    forall j: nat ensures Writes(t, i, items[0], j) <==> Writes(t, SkipWs(t, i), items[0], j) {
      WritesIs(t, i, items[0], j);
      WritesIs(t, SkipWs(t, i), items[0], j);
    }
  }

  lemma MemberSkip(t: string, i: nat, m: Member, e: nat)
    requires i <= |t|
    ensures MemberWrites(t, i, m, e) <==> MemberWrites(t, SkipWs(t, i), m, e)
  {
    SkipTwice(t, i);
    forall q: nat, j: nat, k: nat
      ensures MemberParts(t, i, m, q, j, k) <==> MemberParts(t, SkipWs(t, i), m, q, j, k)
    {
      MarkIs(t, i, '"', q);
      MarkIs(t, SkipWs(t, i), '"', q);
    }
  }

  lemma MembersSkip(t: string, i: nat, members: seq<Member>, e: nat)
    requires i <= |t| && members != []
    ensures MembersWrite(t, i, members, e) <==> MembersWrite(t, SkipWs(t, i), members, e)
  {
    forall j: nat ensures MemberWrites(t, i, members[0], j) <==> MemberWrites(t, SkipWs(t, i), members[0], j) {
      MemberSkip(t, i, members[0], j);
    }
  }

  // ---------------------------------------------------------------- one turn of each parser loop

  lemma ItemsTurn(t: string, i: nat)
    requires i < |t|
    ensures var v := ParseValue(t, i);
            if v.Fail? then ParseItems(t, i) == Fail
            else var k := SkipWs(t, v.next);
                 if At(t, k) == ']' then ParseItems(t, i) == Got([v.value], k + 1)
                 else if At(t, k) != ',' then ParseItems(t, i) == Fail
                 else var rest := ParseItems(t, SkipWs(t, k + 1));
                      ParseItems(t, i) == if rest.Fail? then Fail else Got([v.value] + rest.value, rest.next)
  {
  }

  lemma MembersTurn(t: string, i: nat)
    requires i < |t|
    ensures var m := ParseMember(t, i);
            if m.Fail? then ParseMembers(t, i) == Fail
            else var k := SkipWs(t, m.next);
                 if At(t, k) == '}' then ParseMembers(t, i) == Got([m.value], k + 1)
                 else if At(t, k) != ',' then ParseMembers(t, i) == Fail
                 else var rest := ParseMembers(t, SkipWs(t, k + 1));
                      ParseMembers(t, i) == if rest.Fail? then Fail else Got([m.value] + rest.value, rest.next)
  {
  }

  lemma MemberTurn(t: string, i: nat)
    ensures var key := ParseStr(t, i);
            if key.Fail? then ParseMember(t, i) == Fail
            else var k := SkipWs(t, key.next);
                 if At(t, k) != ':' then ParseMember(t, i) == Fail
                 else var v := ParseValue(t, SkipWs(t, k + 1));
                      ParseMember(t, i) == if v.Fail? then Fail else Got(Member(key.value, v.value), v.next)
  {
  }

  lemma LastItem(t: string, i: nat, v: Json, j: nat)
    requires i < |t| && ParseValue(t, i) == Got(v, j) && At(t, SkipWs(t, j)) == ']'
    ensures ParseItems(t, i) == Got([v], SkipWs(t, j) + 1)
  {
    ItemsTurn(t, i);
  }

  lemma NextItem(t: string, i: nat, v: Json, j: nat, rest: seq<Json>, e: nat)
    requires i < |t| && ParseValue(t, i) == Got(v, j) && At(t, SkipWs(t, j)) == ','
    requires ParseItems(t, SkipWs(t, SkipWs(t, j) + 1)) == Got(rest, e)
    ensures ParseItems(t, i) == Got([v] + rest, e)
  {
    ItemsTurn(t, i);
  }

  lemma LastMember(t: string, i: nat, m: Member, j: nat)
    requires i < |t| && ParseMember(t, i) == Got(m, j) && At(t, SkipWs(t, j)) == '}'
    ensures ParseMembers(t, i) == Got([m], SkipWs(t, j) + 1)
  {
    MembersTurn(t, i);
  }

  lemma NextMember(t: string, i: nat, m: Member, j: nat, rest: seq<Member>, e: nat)
    requires i < |t| && ParseMember(t, i) == Got(m, j) && At(t, SkipWs(t, j)) == ','
    requires ParseMembers(t, SkipWs(t, SkipWs(t, j) + 1)) == Got(rest, e)
    ensures ParseMembers(t, i) == Got([m] + rest, e)
  {
    MembersTurn(t, i);
  }

  lemma KeyAndValue(t: string, i: nat, key: string, j: nat, v: Json, e: nat)
    requires ParseStr(t, i) == Got(key, j) && At(t, SkipWs(t, j)) == ':'
    requires ParseValue(t, SkipWs(t, SkipWs(t, j) + 1)) == Got(v, e)
    ensures ParseMember(t, i) == Got(Member(key, v), e)
  {
    MemberTurn(t, i);
  }

  // The parts of what is written.

  lemma OpenItems(t: string, i: nat, items: seq<Json>, e: nat) returns (j: nat)
    requires items != [] && ItemsWrite(t, i, items, e)
    ensures Writes(t, i, items[0], j) && ItemsEnd(t, j, items, e)
  {
    j :| Writes(t, i, items[0], j) && ItemsEnd(t, j, items, e);
  }

  lemma OpenNextItems(t: string, j: nat, items: seq<Json>, e: nat) returns (k: nat)
    requires |items| > 1 && ItemsEnd(t, j, items, e)
    ensures MarkWrites(t, j, ',', k) && ItemsWrite(t, k, items[1..], e)
  {
    k :| MarkWrites(t, j, ',', k) && ItemsWrite(t, k, items[1..], e);
  }

  lemma OpenMembers(t: string, i: nat, members: seq<Member>, e: nat) returns (j: nat)
    requires members != [] && MembersWrite(t, i, members, e)
    ensures MemberWrites(t, i, members[0], j) && MembersEnd(t, j, members, e)
  {
    j :| MemberWrites(t, i, members[0], j) && MembersEnd(t, j, members, e);
  }

  lemma OpenNextMembers(t: string, j: nat, members: seq<Member>, e: nat) returns (k: nat)
    requires |members| > 1 && MembersEnd(t, j, members, e)
    ensures MarkWrites(t, j, ',', k) && MembersWrite(t, k, members[1..], e)
  {
    k :| MarkWrites(t, j, ',', k) && MembersWrite(t, k, members[1..], e);
  }

  lemma OpenMember(t: string, i: nat, m: Member, e: nat) returns (q: nat, j: nat, k: nat)
    requires MemberWrites(t, i, m, e)
    ensures MemberParts(t, i, m, q, j, k) && Writes(t, k, m.value, e)
  {
    q, j, k :| MemberParts(t, i, m, q, j, k) && Writes(t, k, m.value, e);
  }

  lemma CloseItems(t: string, i: nat, v: Json, j: nat, rest: seq<Json>, k: nat, e: nat)
    requires Writes(t, i, v, j)
    requires if rest == [] then MarkWrites(t, j, ']', e) else MarkWrites(t, j, ',', k) && ItemsWrite(t, k, rest, e)
    ensures ItemsWrite(t, i, [v] + rest, e)
  {
    var items := [v] + rest;
    assert items[1..] == rest && items[0] == v;
    assert ItemsEnd(t, j, items, e);
  }

  lemma CloseMembers(t: string, i: nat, m: Member, j: nat, rest: seq<Member>, k: nat, e: nat)
    requires MemberWrites(t, i, m, j)
    requires if rest == [] then MarkWrites(t, j, '}', e) else MarkWrites(t, j, ',', k) && MembersWrite(t, k, rest, e)
    ensures MembersWrite(t, i, [m] + rest, e)
  {
    var members := [m] + rest;
    assert members[1..] == rest && members[0] == m;
    assert MembersEnd(t, j, members, e);
  }

  // ---------------------------------------------------------------- what is accepted is written so

  lemma WordIs(t: string, i: nat)
    requires i <= |t|
    ensures WordAt(t, i, 't', 'r', 'u', 'e') <==> WordWrites(t, i, "true", i + 4)
    ensures WordAt(t, i, 'n', 'u', 'l', 'l') <==> WordWrites(t, i, "null", i + 4)
    ensures WordAt(t, i, 'f', 'a', 'l', 's') && At(t, i + 4) == 'e' <==> WordWrites(t, i, "false", i + 5)
  {
    if WordAt(t, i, 't', 'r', 'u', 'e') { assert t[i..i + 4] == "true"; }
    if WordAt(t, i, 'n', 'u', 'l', 'l') { assert t[i..i + 4] == "null"; }
    if WordAt(t, i, 'f', 'a', 'l', 's') && At(t, i + 4) == 'e' { assert t[i..i + 5] == "false"; }
    if i + 4 <= |t| { FourAt(t, i, t[i..i + 4]); }
    if i + 5 <= |t| { FourAt(t, i, t[i..i + 5]); }
  }

  lemma FourAt(t: string, i: nat, word: string)
    requires |word| >= 4 && i + |word| <= |t| && t[i..i + |word|] == word
    ensures At(t, i) == word[0] && At(t, i + 1) == word[1] && At(t, i + 2) == word[2] && At(t, i + 3) == word[3]
    ensures |word| > 4 ==> At(t, i + 4) == word[4]
  {
  }

  /** Words and numbers, from their first character on. */
  lemma ScalarIsWritten(t: string, k: nat)
    requires k <= |t| && SkipWs(t, k) == k && ParseValue(t, k).Got?
    requires At(t, k) != '{' && At(t, k) != '['
    ensures WritesAt(t, k, ParseValue(t, k).value, ParseValue(t, k).next)
  {
    WordIs(t, k);
    if At(t, k) == '"' {
      StringIsWritten(t, k + 1);
    } else if !WordAt(t, k, 't', 'r', 'u', 'e') && !WordAt(t, k, 'n', 'u', 'l', 'l') &&
              !(WordAt(t, k, 'f', 'a', 'l', 's') && At(t, k + 4) == 'e') {
      NumberIsWritten(t, k);
    }
  }

  lemma ParsedAfterSpace(t: string, i: nat)
    requires i <= |t|
    ensures ParseValue(t, i) == ParseValue(t, SkipWs(t, i))
  {
    SkipTwice(t, i);
  }

  lemma {:induction false} ValueIsWritten(t: string, i: nat)
    requires i <= |t| && ParseValue(t, i).Got?
    ensures Writes(t, i, ParseValue(t, i).value, ParseValue(t, i).next)
    decreases |t| - i, 3
  {
    var k := SkipWs(t, i);
    SkipTwice(t, i);
    ParsedAfterSpace(t, i);
    if At(t, k) == '[' {
      ArrayIsWritten(t, k);
    } else if At(t, k) == '{' {
      ObjectIsWritten(t, k);
    } else {
      ScalarIsWritten(t, k);
    }
    WritesIs(t, i, ParseValue(t, i).value, ParseValue(t, i).next);
  }

  lemma {:induction false} ArrayIsWritten(t: string, k: nat)
    requires k < |t| && t[k] == '[' && SkipWs(t, k) == k && ParseArray(t, k).Got?
    ensures WritesAt(t, k, ParseArray(t, k).value, ParseArray(t, k).next)
    decreases |t| - k, 2
  {
    var j, e := SkipWs(t, k + 1), ParseArray(t, k).next;
    SkipIsBlank(t, k + 1);
    if At(t, j) == ']' {
      MarkIs(t, k + 1, ']', e);
    } else {
      ItemsAreWritten(t, j);
      ItemsSkip(t, k + 1, ParseItems(t, j).value, e);
    }
  }

  lemma GotItems(t: string, i: nat)
    returns (v: Json, j: nat, n: nat, rest: seq<Json>)
    requires i <= |t| && ParseItems(t, i).Got?
    ensures i < j <= |t| && ParseValue(t, i).Got? && ParseValue(t, i).value == v && ParseValue(t, i).next == j
    ensures ParseItems(t, i).value == [v] + rest
    ensures rest == [] ==> At(t, SkipWs(t, j)) == ']' && ParseItems(t, i).next == SkipWs(t, j) + 1
    ensures rest != [] ==> At(t, SkipWs(t, j)) == ',' && n == SkipWs(t, SkipWs(t, j) + 1) && i < n <= |t|
    ensures rest != [] ==> ParseItems(t, n).Got? && ParseItems(t, n).value == rest
    ensures rest != [] ==> ParseItems(t, n).next == ParseItems(t, i).next
  {
    ItemsTurn(t, i);
    v, j := ParseValue(t, i).value, ParseValue(t, i).next;
    var k := SkipWs(t, j);
    n := SkipWs(t, k + 1);
    rest := if At(t, k) == ']' then [] else ParseItems(t, n).value;
    if At(t, k) == ',' {
      SkipTwice(t, k + 1);
      ItemsNotNone(t, n);
    }
  }

  lemma ItemsNotNone(t: string, i: nat)
    requires ParseItems(t, i).Got?
    ensures ParseItems(t, i).value != []
  {
    ItemsTurn(t, i);
  }

  lemma RestIsWritten(t: string, i: nat, v: Json, j: nat, n: nat, rest: seq<Json>, e: nat)
    requires j <= |t| && Writes(t, i, v, j) && At(t, SkipWs(t, j)) == ','
    requires n == SkipWs(t, SkipWs(t, j) + 1) && rest != [] && ItemsWrite(t, n, rest, e)
    ensures ItemsWrite(t, i, [v] + rest, e)
  {
    var k := SkipWs(t, j) + 1;
    MarkIs(t, j, ',', k);
    ItemsSkip(t, k, rest, e);
    CloseItems(t, i, v, j, rest, k, e);
  }

  lemma {:induction false} ItemsAreWritten(t: string, i: nat)
    requires i <= |t| && ParseItems(t, i).Got?
    ensures ParseItems(t, i).value != [] && ItemsWrite(t, i, ParseItems(t, i).value, ParseItems(t, i).next)
    decreases |t| - i, 4
  {
    var e := ParseItems(t, i).next;
    var v, j, n, rest := GotItems(t, i);
    ValueIsWritten(t, i);
    if rest == [] {
      MarkIs(t, j, ']', e);
      CloseItems(t, i, v, j, rest, e, e);
    } else {
      ItemsAreWritten(t, n);
      RestIsWritten(t, i, v, j, n, rest, e);
    }
  }


  lemma {:induction false} ObjectIsWritten(t: string, k: nat)
    requires k < |t| && t[k] == '{' && SkipWs(t, k) == k && ParseObject(t, k).Got?
    ensures WritesAt(t, k, ParseObject(t, k).value, ParseObject(t, k).next)
    decreases |t| - k, 2
  {
    var j, e := SkipWs(t, k + 1), ParseObject(t, k).next;
    SkipIsBlank(t, k + 1);
    if At(t, j) == '}' {
      MarkIs(t, k + 1, '}', e);
    } else {
      MembersAreWritten(t, j);
      MembersSkip(t, k + 1, ParseMembers(t, j).value, e);
    }
  }

  lemma KeyIsWritten(t: string, i: nat, m: Member)
    requires i <= |t| && ParseStr(t, i).Got? && ParseStr(t, i).value == m.key
    requires At(t, SkipWs(t, ParseStr(t, i).next)) == ':'
    ensures var j := ParseStr(t, i).next; SkipWs(t, j) < |t| && MemberParts(t, i, m, i + 1, j, SkipWs(t, j) + 1)
  {
    var j := ParseStr(t, i).next;
    StringIsWritten(t, i + 1);
    MarkIs(t, j, ':', SkipWs(t, j) + 1);
  }

  lemma {:induction false} MemberIsWritten(t: string, i: nat)
    requires i <= |t| && ParseMember(t, i).Got?
    ensures MemberWrites(t, i, ParseMember(t, i).value, ParseMember(t, i).next)
    decreases |t| - i, 4
  {
    var key := ParseStr(t, i);
    MemberTurn(t, i);
    var k := SkipWs(t, key.next) + 1;
    KeyIsWritten(t, i, ParseMember(t, i).value);
    ParsedAfterSpace(t, k);
    ValueIsWritten(t, k);
    assert Writes(t, k, ParseMember(t, i).value.value, ParseMember(t, i).next);
  }

  lemma GotMembers(t: string, i: nat)
    returns (m: Member, j: nat, n: nat, rest: seq<Member>)
    requires i <= |t| && ParseMembers(t, i).Got?
    ensures i < j <= |t| && ParseMember(t, i).Got? && ParseMember(t, i).value == m && ParseMember(t, i).next == j
    ensures ParseMembers(t, i).value == [m] + rest
    ensures rest == [] ==> At(t, SkipWs(t, j)) == '}' && ParseMembers(t, i).next == SkipWs(t, j) + 1
    ensures rest != [] ==> At(t, SkipWs(t, j)) == ',' && n == SkipWs(t, SkipWs(t, j) + 1) && i < n <= |t|
    ensures rest != [] ==> ParseMembers(t, n).Got? && ParseMembers(t, n).value == rest
    ensures rest != [] ==> ParseMembers(t, n).next == ParseMembers(t, i).next
  {
    MembersTurn(t, i);
    m, j := ParseMember(t, i).value, ParseMember(t, i).next;
    var k := SkipWs(t, j);
    n := SkipWs(t, k + 1);
    rest := if At(t, k) == '}' then [] else ParseMembers(t, n).value;
    if At(t, k) == ',' {
      SkipTwice(t, k + 1);
      MembersNotNone(t, n);
    }
  }

  lemma MembersNotNone(t: string, i: nat)
    requires ParseMembers(t, i).Got?
    ensures ParseMembers(t, i).value != []
  {
    MembersTurn(t, i);
  }

  lemma OthersAreWritten(t: string, i: nat, m: Member, j: nat, n: nat, rest: seq<Member>, e: nat)
    requires j <= |t| && MemberWrites(t, i, m, j) && At(t, SkipWs(t, j)) == ','
    requires n == SkipWs(t, SkipWs(t, j) + 1) && rest != [] && MembersWrite(t, n, rest, e)
    ensures MembersWrite(t, i, [m] + rest, e)
  {
    var k := SkipWs(t, j) + 1;
    MarkIs(t, j, ',', k);
    MembersSkip(t, k, rest, e);
    CloseMembers(t, i, m, j, rest, k, e);
  }

  lemma {:induction false} MembersAreWritten(t: string, i: nat)
    requires i <= |t| && ParseMembers(t, i).Got?
    ensures ParseMembers(t, i).value != [] && MembersWrite(t, i, ParseMembers(t, i).value, ParseMembers(t, i).next)
    decreases |t| - i, 5
  {
    var e := ParseMembers(t, i).next;
    var m, j, n, rest := GotMembers(t, i);
    MemberIsWritten(t, i);
    if rest == [] {
      MarkIs(t, j, '}', e);
      CloseMembers(t, i, m, j, rest, e, e);
    } else {
      MembersAreWritten(t, n);
      OthersAreWritten(t, i, m, j, n, rest, e);
    }
  }


  // ---------------------------------------------------------------- what is written so is accepted

  lemma WrittenScalarParses(t: string, k: nat, v: Json, e: nat)
    requires k <= |t| && SkipWs(t, k) == k && !v.Arr? && !v.Obj? && WritesAt(t, k, v, e)
    ensures ParseValue(t, k) == Got(v, e)
  {
    ValueStart(t, k, v, e);
    WordIs(t, k);
    match v
    case Null => FourAt(t, k, "null");
    case Bool(b) => FourAt(t, k, if b then "true" else "false");
    case Str(s) => WrittenStringScans(t, k + 1, s, e);
    case _ =>
      NumberStart(t, k, v, e);
      WrittenNumberScans(t, k, v, e);
  }

  lemma {:induction false} WrittenValueParses(t: string, i: nat, v: Json, e: nat)
    requires i <= |t| && Writes(t, i, v, e)
    ensures ParseValue(t, i) == Got(v, e)
    decreases v, 1
  {
    var k := SkipWs(t, i);
    WritesIs(t, i, v, e);
    SkipTwice(t, i);
    ParsedAfterSpace(t, i);
    match v
    case Arr(items) => WrittenArrayParses(t, k, items, e);
    case Obj(members) => WrittenObjectParses(t, k, members, e);
    case _ => WrittenScalarParses(t, k, v, e);
  }

  lemma ItemsStart(t: string, i: nat, items: seq<Json>, e: nat)
    requires i <= |t| && SkipWs(t, i) == i && items != [] && ItemsWrite(t, i, items, e)
    ensures At(t, i) != ']'
  {
    var j := OpenItems(t, i, items, e);
    WritesIs(t, i, items[0], j);
    ValueStart(t, i, items[0], j);
  }

  lemma MembersStart(t: string, i: nat, members: seq<Member>, e: nat)
    requires i <= |t| && SkipWs(t, i) == i && members != [] && MembersWrite(t, i, members, e)
    ensures At(t, i) == '"'
  {
    var n := OpenMembers(t, i, members, e);
    var q, j, k := OpenMember(t, i, members[0], n);
    MarkIs(t, i, '"', q);
  }

  lemma {:induction false} WrittenArrayParses(t: string, k: nat, items: seq<Json>, e: nat)
    requires k <= |t| && SkipWs(t, k) == k && WritesAt(t, k, Arr(items), e)
    ensures ParseArray(t, k) == Got(Arr(items), e)
    decreases items, 3
  {
    var r, j := ParseArray(t, k), SkipWs(t, k + 1);
    if items == [] {
      MarkIs(t, k + 1, ']', e);
    } else {
      SkipTwice(t, k + 1);
      ItemsSkip(t, k + 1, items, e);
      ItemsStart(t, j, items, e);
      WrittenItemsParse(t, j, items, e);
    }
    assert r == Got(Arr(items), e);
  }

  lemma BehindComma(t: string, j: nat, k: nat)
    requires j <= |t| && MarkWrites(t, j, ',', k)
    ensures At(t, SkipWs(t, j)) == ',' && k == SkipWs(t, j) + 1 <= |t|
    ensures SkipWs(t, SkipWs(t, k)) == SkipWs(t, k) <= |t|
  {
    MarkIs(t, j, ',', k);
    SkipTwice(t, k);
  }

  lemma {:induction false} WrittenRestParses(t: string, j: nat, items: seq<Json>, k: nat, e: nat)
    requires j <= |t| && |items| > 1 && MarkWrites(t, j, ',', k) && ItemsWrite(t, k, items[1..], e)
    ensures At(t, SkipWs(t, j)) == ',' && ParseItems(t, SkipWs(t, SkipWs(t, j) + 1)) == Got(items[1..], e)
    decreases items, 0
  {
    BehindComma(t, j, k);
    ItemsSkip(t, k, items[1..], e);
    WrittenItemsParse(t, SkipWs(t, k), items[1..], e);
  }

  lemma {:induction false} WrittenItemsFrom(t: string, i: nat, items: seq<Json>, j: nat, e: nat)
    requires i < |t| && items != [] && ParseValue(t, i) == Got(items[0], j) && ItemsEnd(t, j, items, e)
    ensures ParseItems(t, i) == Got(items, e)
    decreases items, 1
  {
    if |items| == 1 {
      MarkIs(t, j, ']', e);
      LastItem(t, i, items[0], j);
      assert [items[0]] == items;
    } else {
      var k := OpenNextItems(t, j, items, e);
      WrittenRestParses(t, j, items, k, e);
      NextItem(t, i, items[0], j, items[1..], e);
      assert [items[0]] + items[1..] == items;
    }
  }

  lemma {:induction false} WrittenItemsParse(t: string, i: nat, items: seq<Json>, e: nat)
    requires i <= |t| && items != [] && ItemsWrite(t, i, items, e)
    ensures ParseItems(t, i) == Got(items, e)
    decreases items, 2
  {
    var j := OpenItems(t, i, items, e);
    ItemsAreLong(t, i, items, e);
    WrittenValueParses(t, i, items[0], j);
    WrittenItemsFrom(t, i, items, j, e);
  }

  lemma {:induction false} WrittenObjectParses(t: string, k: nat, members: seq<Member>, e: nat)
    requires k <= |t| && SkipWs(t, k) == k && WritesAt(t, k, Obj(members), e)
    ensures ParseObject(t, k) == Got(Obj(members), e)
    decreases members, 3
  {
    var r, j := ParseObject(t, k), SkipWs(t, k + 1);
    if members == [] {
      MarkIs(t, k + 1, '}', e);
    } else {
      SkipTwice(t, k + 1);
      MembersSkip(t, k + 1, members, e);
      MembersStart(t, j, members, e);
      WrittenMembersParse(t, j, members, e);
    }
    assert r == Got(Obj(members), e);
  }

  lemma WrittenKeyParses(t: string, i: nat, m: Member, q: nat, j: nat, k: nat)
    requires i <= |t| && SkipWs(t, i) == i && MemberParts(t, i, m, q, j, k)
    ensures ParseStr(t, i) == Got(m.key, j) && At(t, SkipWs(t, j)) == ':' && k == SkipWs(t, j) + 1 <= |t|
  {
    MarkIs(t, i, '"', q);
    WrittenStringScans(t, q, m.key, j);
    MarkIs(t, j, ':', k);
  }

  lemma {:induction false} WrittenMemberParses(t: string, i: nat, m: Member, e: nat)
    requires i <= |t| && SkipWs(t, i) == i && MemberWrites(t, i, m, e)
    ensures ParseMember(t, i) == Got(m, e)
    decreases m, 1
  {
    var r := ParseMember(t, i);
    var q, j, k := OpenMember(t, i, m, e);
    WrittenKeyParses(t, i, m, q, j, k);
    ParsedAfterSpace(t, k);
    WrittenValueParses(t, k, m.value, e);
    KeyAndValue(t, i, m.key, j, m.value, e);
    assert r == Got(m, e);
  }

  lemma {:induction false} WrittenOthersParse(t: string, j: nat, members: seq<Member>, k: nat, e: nat)
    requires j <= |t| && |members| > 1 && MarkWrites(t, j, ',', k) && MembersWrite(t, k, members[1..], e)
    ensures At(t, SkipWs(t, j)) == ',' && ParseMembers(t, SkipWs(t, SkipWs(t, j) + 1)) == Got(members[1..], e)
    decreases members, 0
  {
    BehindComma(t, j, k);
    MembersSkip(t, k, members[1..], e);
    WrittenMembersParse(t, SkipWs(t, k), members[1..], e);
  }

  lemma LastWrittenParses(t: string, i: nat, members: seq<Member>, j: nat, e: nat)
    requires i < |t| && |members| == 1 && ParseMember(t, i) == Got(members[0], j) && MembersEnd(t, j, members, e)
    ensures ParseMembers(t, i) == Got(members, e)
  {
    MarkIs(t, j, '}', e);
    LastMember(t, i, members[0], j);
    assert [members[0]] == members;
  }

  lemma {:induction false} WrittenMembersFrom(t: string, i: nat, members: seq<Member>, j: nat, e: nat)
    requires i < |t| && |members| > 1 && ParseMember(t, i) == Got(members[0], j) && MembersEnd(t, j, members, e)
    ensures ParseMembers(t, i) == Got(members, e)
    decreases members, 1
  {
    var rest := members[1..];
    var k := OpenNextMembers(t, j, members, e);
    WrittenOthersParse(t, j, members, k, e);
    NextMember(t, i, members[0], j, rest, e);
    assert [members[0]] + rest == members;
  }

  lemma {:induction false} WrittenMembersParse(t: string, i: nat, members: seq<Member>, e: nat)
    requires i <= |t| && SkipWs(t, i) == i && members != [] && MembersWrite(t, i, members, e)
    ensures ParseMembers(t, i) == Got(members, e)
    decreases members, 2
  {
    var j := OpenMembers(t, i, members, e);
    MembersAreLong(t, i, members, e);
    WrittenMemberParses(t, i, members[0], j);
    if |members| == 1 {
      LastWrittenParses(t, i, members, j, e);
    } else {
      WrittenMembersFrom(t, i, members, j, e);
    }
  }

  // ---------------------------------------------------------------- main result

  /** t is white space, v, and white space, and nothing else. */
  ghost predicate IsTextOf(t: string, v: Json) {
    exists e: nat :: Writes(t, 0, v, e) && Blanks(t, e, |t|)
  }

  /** Of any text at all: the parser accepts it, as this tree, if and only if the grammar writes the
      tree so. */
  lemma AcceptsExactlyTheGrammar(t: string, v: Json)
    ensures Parse(t) == Some(v) <==> IsTextOf(t, v)
  {
    if Parse(t) == Some(v) {
      var e := ParseValue(t, 0).next;
      ValueIsWritten(t, 0);
      SkipIsBlank(t, e);
    }
    if IsTextOf(t, v) {
      var e: nat :| Writes(t, 0, v, e) && Blanks(t, e, |t|);
      WrittenValueParses(t, 0, v, e);
      SkipsBlanks(t, e, |t|);
    }
  }
}
