/** The parser as it runs: a cursor moved along the text by loops. */
module JsonParser {
  import JsonGrammar
  import opened JsonSyntax
  import opened Wrappers

  method SkipSpaces(t: string, at: nat) returns (i: nat)
    ensures i == SkipWs(t, at)
  {
    i := at;
    while i < |t| && IsSpace(t[i])
      invariant SkipWs(t, i) == SkipWs(t, at)
      decreases |t| - i
    {
      i := i + 1;
    }
  }

  /** `prefix` read before what r reads. */
  ghost function Prefixed<T>(prefix: seq<T>, r: Parsed<seq<T>>): Parsed<seq<T>> {
    match r
    case Fail => Fail
    case Got(rest, j) => Got(prefix + rest, j)
  }

  lemma PrefixedNothing<T>(r: Parsed<seq<T>>)
    ensures Prefixed([], r) == r
  {
    if r.Got? { assert [] + r.value == r.value; }
  }

  lemma PrefixedTwice<T>(a: seq<T>, b: seq<T>, r: Parsed<seq<T>>)
    ensures Prefixed(a, Prefixed(b, r)) == Prefixed(a + b, r)
  {
    if r.Got? { assert a + (b + r.value) == a + b + r.value; }
  }

  method ParseStringToken(t: string, at: nat) returns (r: Parsed<string>)
    ensures r == ParseStr(t, at)
  {
    if At(t, at) != '"' { return Fail; }
    var i := at + 1;
    var out := "";
    PrefixedNothing(ScanStr(t, i));
    while i < |t| && t[i] != '"'
      invariant ScanStr(t, at + 1) == Prefixed(out, ScanStr(t, i))
      decreases |t| - i
    {
      ghost var before, from := out, i;
      if t[i] == '\\' {
        i := i + 1;
        if i >= |t| { return Fail; }
        match t[i] {
          case 'b' => out := out + ['\U{08}'];
          case 'f' => out := out + ['\U{0c}'];
          case 'n' => out := out + ['\n'];
          case 'r' => out := out + ['\r'];
          case 't' => out := out + ['\t'];
          case c => out := out + [c];
        }
        i := i + 1;
      } else {
        out := out + [t[i]];
        i := i + 1;
      }
      ghost var c := out[|before|];
      assert ScanStr(t, from) == Prepend(c, ScanStr(t, i)) == Prefixed([c], ScanStr(t, i));
      PrefixedTwice(before, [c], ScanStr(t, i));
    }
    if i >= |t| { return Fail; }
    assert out + [] == out;
    return Got(out, i + 1);
  }

  /** What one turn makes of the whole: it fails, goes on behind a comma, or ends. */
  lemma ItemsAfterTurn(all: Parsed<seq<Json>>, before: seq<Json>, t: string, i: nat)
    requires i < |t| && all == Prefixed(before, ParseItems(t, i))
    ensures var m := ParseValue(t, i);
            if m.Fail? then all == Fail
            else var k := SkipWs(t, m.next);
                 if At(t, k) == ']' then all == Got(before + [m.value], k + 1)
                 else if At(t, k) != ',' then all == Fail
                 else all == Prefixed(before + [m.value], ParseItems(t, SkipWs(t, k + 1)))
  {
    JsonGrammar.ItemsTurn(t, i);
    var m := ParseValue(t, i);
    if m.Got? { PrefixedTwice(before, [m.value], ParseItems(t, SkipWs(t, SkipWs(t, m.next) + 1))); }
  }

  /** parse_array's loop. */
  method ParseItemsAt(t: string, at: nat) returns (r: Parsed<seq<Json>>)
    ensures r == ParseItems(t, at)
    decreases |t| - at, 5
  {
    var i := at;
    var items: seq<Json> := [];
    ghost var all := ParseItems(t, i);
    PrefixedNothing(all);
    while i < |t|
      invariant at <= i && all == Prefixed(items, ParseItems(t, i))
      decreases |t| - i
    {
      ItemsAfterTurn(all, items, t, i);
      var item := ParseValueAt(t, i);
      if item.Fail? { return Fail; }
      items := items + [item.value];
      i := SkipSpaces(t, item.next);
      if At(t, i) == ']' { return Got(items, i + 1); }
      if At(t, i) != ',' { return Fail; }
      i := SkipSpaces(t, i + 1);
    }
    return Fail;
  }

  method ParseArrayAt(t: string, at: nat) returns (r: Parsed<Json>)
    ensures r == ParseArray(t, at)
    decreases |t| - at, 2
  {
    var i := SkipSpaces(t, at);
    if At(t, i) != '[' { return Fail; }
    i := SkipSpaces(t, i + 1);
    if At(t, i) == ']' { return Got(Arr([]), i + 1); }
    var items := ParseItemsAt(t, i);
    r := if items.Fail? then Fail else Got(Arr(items.value), items.next);
  }

  /** The part of parse_object's loop that reads one key and its value. */
  method ParseMemberAt(t: string, at: nat) returns (r: Parsed<Member>)
    ensures r == ParseMember(t, at)
    decreases |t| - at, 4
  {
    ghost var expected := ParseMember(t, at);
    var key := ParseStringToken(t, at);
    if key.Fail? { return Fail; }
    var i := SkipSpaces(t, key.next);
    if At(t, i) != ':' { return Fail; }
    i := SkipSpaces(t, i + 1);
    var value := ParseValueAt(t, i);
    if value.Fail? { return Fail; }
    r := Got(Member(key.value, value.value), value.next);
    assert r == expected;
  }

  /** What one turn makes of the whole: it fails, goes on behind a comma, or ends. */
  lemma MembersAfterTurn(all: Parsed<seq<Member>>, before: seq<Member>, t: string, i: nat)
    requires i < |t| && all == Prefixed(before, ParseMembers(t, i))
    ensures var m := ParseMember(t, i);
            if m.Fail? then all == Fail
            else var k := SkipWs(t, m.next);
                 if At(t, k) == '}' then all == Got(before + [m.value], k + 1)
                 else if At(t, k) != ',' then all == Fail
                 else all == Prefixed(before + [m.value], ParseMembers(t, SkipWs(t, k + 1)))
  {
    JsonGrammar.MembersTurn(t, i);
    var m := ParseMember(t, i);
    if m.Got? { PrefixedTwice(before, [m.value], ParseMembers(t, SkipWs(t, SkipWs(t, m.next) + 1))); }
  }

  /** parse_object's loop. */
  method ParseMembersAt(t: string, at: nat) returns (r: Parsed<seq<Member>>)
    ensures r == ParseMembers(t, at)
    decreases |t| - at, 5
  {
    var i := at;
    var members: seq<Member> := [];
    ghost var all := ParseMembers(t, i);
    PrefixedNothing(all);
    while i < |t|
      invariant at <= i && all == Prefixed(members, ParseMembers(t, i))
      decreases |t| - i
    {
      MembersAfterTurn(all, members, t, i);
      var member := ParseMemberAt(t, i);
      if member.Fail? { return Fail; }
      members := members + [member.value];
      i := SkipSpaces(t, member.next);
      if At(t, i) == '}' { return Got(members, i + 1); }
      if At(t, i) != ',' { return Fail; }
      i := SkipSpaces(t, i + 1);
    }
    return Fail;
  }

  method ParseObjectAt(t: string, at: nat) returns (r: Parsed<Json>)
    ensures r == ParseObject(t, at)
    decreases |t| - at, 2
  {
    var i := SkipSpaces(t, at);
    if At(t, i) != '{' { return Fail; }
    i := SkipSpaces(t, i + 1);
    if At(t, i) == '}' { return Got(Obj([]), i + 1); }
    var members := ParseMembersAt(t, i);
    r := if members.Fail? then Fail else Got(Obj(members.value), members.next);
  }

  method ParseValueAt(t: string, at: nat) returns (r: Parsed<Json>)
    ensures r == ParseValue(t, at)
    decreases |t| - at, 3
  {
    ghost var expected := ParseValue(t, at);
    var i := SkipSpaces(t, at);
    if At(t, i) == '{' {
      r := ParseObjectAt(t, i);
    } else if At(t, i) == '[' {
      r := ParseArrayAt(t, i);
    } else if At(t, i) == '"' {
      var s := ParseStringToken(t, i);
      r := if s.Fail? then Fail else Got(Str(s.value), s.next);
    } else if WordAt(t, i, 't', 'r', 'u', 'e') {
      r := Got(Bool(true), i + 4);
    } else if WordAt(t, i, 'f', 'a', 'l', 's') && At(t, i + 4) == 'e' {
      r := Got(Bool(false), i + 5);
    } else if WordAt(t, i, 'n', 'u', 'l', 'l') {
      r := Got(Null, i + 4);
    } else {
      r := ScanNumber(t, i);
    }
    assert r == expected;
  }

  /** cJSON_Parse. */
  method ParseText(t: string) returns (r: Option<Json>)
    ensures r == Parse(t)
  {
    var item := ParseValueAt(t, 0);
    if item.Fail? { return None; }
    var i := SkipSpaces(t, item.next);
    if i < |t| { return None; }
    return Some(item.value);
  }
}
