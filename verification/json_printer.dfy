/** The printer: a growing buffer, and the recursive routine that appends to it. */
module JsonPrinter {
  import opened JsonSyntax

  // ---------------------------------------------------------------- capacities

  /** Nothing allocated yet, or 128 doubled some number of times. */
  ghost predicate IsCapacity(c: nat) {
    c == 0 || c == 128 || (c > 128 && c % 2 == 0 && IsCapacity(c / 2))
  }

  function NextCapacity(c: nat): nat { if c == 0 then 128 else 2 * c }

  function Grow(cap: nat, needed: nat): (c: nat)
    decreases needed - cap
  {
    if cap >= needed then cap else Grow(NextCapacity(cap), needed)
  }

  lemma {:induction false} NoCapacityBetween(a: nat, c: nat)
    requires IsCapacity(a) && IsCapacity(c) && a < c
    ensures NextCapacity(a) <= c
  {
    if a > 128 { NoCapacityBetween(a / 2, c / 2); }
  }

  /** The doubling loop stops at the least capacity that fits and does not shrink the buffer. */
  lemma {:induction false} GrowIsLeast(cap: nat, needed: nat)
    requires IsCapacity(cap)
    ensures IsCapacity(Grow(cap, needed)) && cap <= Grow(cap, needed) && needed <= Grow(cap, needed)
    ensures forall c: nat :: IsCapacity(c) && cap <= c && needed <= c ==> Grow(cap, needed) <= c
    decreases needed - cap
  {
    if cap < needed {
      GrowIsLeast(NextCapacity(cap), needed);
      forall c: nat | IsCapacity(c) && cap <= c && needed <= c ensures Grow(cap, needed) <= c {
        NoCapacityBetween(cap, c);
      }
    }
  }

  // ---------------------------------------------------------------- the buffer

  class StringBuilder {
    var buf: array<char>     // no bytes until the first append
    var len: nat
    var cap: nat
    ghost var moved: nat     // bytes realloc has had to move so far

    ghost predicate Shaped()
      reads this, buf
    {
      buf.Length == cap && IsCapacity(cap) && (if cap == 0 then len == 0 else len < cap) && moved <= cap
    }

    /** The terminator stands right after the text. */
    ghost predicate Valid()
      reads this, buf
    {
      Shaped() && (cap > 0 ==> buf[len] == '\0')
    }

    ghost function Text(): string
      reads this, buf
      requires Shaped()
    {
      buf[..len]
    }

    constructor ()
      ensures Valid() && Text() == "" && cap == 0 && moved == 0 && fresh(buf)
    {
      buf := new char[0];
      len, cap, moved := 0, 0, 0;
    }

    method Reserve(extra: nat)
      requires Shaped()
      modifies this
      ensures Shaped() && Text() == old(Text()) && len == old(len) && len + extra < cap
      ensures cap == Grow(old(cap), old(len) + extra + 1)
      ensures buf == old(buf) || fresh(buf)
    {
      var needed := len + extra + 1;
      if needed <= cap { return; }
      GrowIsLeast(cap, needed);
      while cap < needed
        invariant len == old(len) && buf == old(buf) && moved == old(moved)
        invariant Grow(cap, needed) == Grow(old(cap), needed)
        invariant cap == old(cap) || cap >= NextCapacity(old(cap))
        decreases needed - cap
      {
        cap := if cap != 0 then cap * 2 else 128;
      }
      var grown := new char[cap];
      forall i | 0 <= i < len { grown[i] := buf[i]; }
      moved := moved + buf.Length;
      buf := grown;
    }

    method Append(text: string)
      requires Shaped()
      modifies this, buf
      ensures Valid() && Text() == old(Text()) + text
      ensures cap == Grow(old(cap), old(len) + |text| + 1)
      ensures buf == old(buf) || fresh(buf)
    {
      var n := |text|;
      Reserve(n);
      ghost var before := buf[..len];
      forall i | 0 <= i < n { buf[len + i] := text[i]; }
      len := len + n;
      buf[len] := '\0';
      assert buf[..len] == before + text;
    }

    method AppendChar(ch: char)
      requires Shaped()
      modifies this, buf
      ensures Valid() && Text() == old(Text()) + [ch]
      ensures cap == Grow(old(cap), old(len) + 2)
      ensures buf == old(buf) || fresh(buf)
    {
      Reserve(1);
      buf[len] := ch;
      len := len + 1;
      buf[len] := '\0';
    }
  }

  // ---------------------------------------------------------------- printing

  method PrintChar(sb: StringBuilder, c: char)
    requires sb.Valid()
    modifies sb, sb.buf
    ensures sb.Valid() && sb.Text() == old(sb.Text()) + EscapeChar(c)
    ensures sb.buf == old(sb.buf) || fresh(sb.buf)
  {
    match c
    case '"' => sb.Append("\\\"");
    case '\\' => sb.Append("\\\\");
    case '\n' => sb.Append("\\n");
    case '\r' => sb.Append("\\r");
    case '\t' => sb.Append("\\t");
    case _ => sb.AppendChar(c);
  }

  method PrintStringTo(sb: StringBuilder, value: string)
    requires sb.Valid()
    modifies sb, sb.buf
    ensures sb.Valid() && sb.Text() == old(sb.Text()) + PrintStr(value)
    ensures sb.buf == old(sb.buf) || fresh(sb.buf)
  {
    sb.AppendChar('"');
    var i := 0;
    ghost var done := "\"";
    while i < |value|
      invariant i <= |value| && sb.Valid() && (sb.buf == old(sb.buf) || fresh(sb.buf))
      invariant sb.Text() == old(sb.Text()) + done
      invariant done + Escape(value[i..]) == PrintStr(value)
    {
      PrintChar(sb, value[i]);
      Concat3(old(sb.Text()), done, EscapeChar(value[i]));
      Concat3(done, EscapeChar(value[i]), Escape(value[i + 1..]));
      assert value[i..][1..] == value[i + 1..];
      done := done + EscapeChar(value[i]);
      i := i + 1;
    }
    sb.AppendChar('"');
  }

  lemma Concat3(a: string, b: string, c: string)
    ensures (a + b) + c == a + (b + c)
  {
  }

  method PrintItem(sb: StringBuilder, item: Json)
    requires sb.Valid() && Exact(item)
    modifies sb, sb.buf
    ensures sb.Valid() && sb.Text() == old(sb.Text()) + Print(item)
    ensures sb.buf == old(sb.buf) || fresh(sb.buf)
    decreases item, 0
  {
    match item
    case Null => sb.Append("null");
    case Bool(b) => if b { sb.Append("true"); } else { sb.Append("false"); }
    case Number(n) => sb.Append(PrintInt(n));
    case Str(s) => PrintStringTo(sb, s);
    case Arr(items) => PrintArray(sb, items);
    case Obj(members) => PrintObject(sb, members);
  }

  /** The separator that follows element i of n, or the closer. */
  function Separator(i: nat, n: nat): string {
    if i + 1 < n then "," else ""
  }

  lemma ItemsFrom(items: seq<Json>, i: nat)
    requires i < |items| && forall k :: 0 <= k < |items| ==> Exact(items[k])
    ensures PrintItems(items[i..]) == Print(items[i]) + Separator(i, |items|) + PrintItems(items[i + 1..])
  {
    assert items[i..][1..] == items[i + 1..];
    Concat3(Print(items[i]), Separator(i, |items|), PrintItems(items[i + 1..]));
  }

  method PrintElement(sb: StringBuilder, items: seq<Json>, i: nat)
    requires sb.Valid() && i < |items| && Exact(items[i])
    modifies sb, sb.buf
    ensures sb.Valid() && sb.Text() == old(sb.Text()) + (Print(items[i]) + Separator(i, |items|))
    ensures sb.buf == old(sb.buf) || fresh(sb.buf)
    decreases items, 0
  {
    PrintItem(sb, items[i]);
    if i + 1 < |items| { sb.AppendChar(','); }
  }

  method PrintArray(sb: StringBuilder, items: seq<Json>)
    requires sb.Valid() && forall k :: 0 <= k < |items| ==> Exact(items[k])
    modifies sb, sb.buf
    ensures sb.Valid() && sb.Text() == old(sb.Text()) + ("[" + PrintItems(items))
    ensures sb.buf == old(sb.buf) || fresh(sb.buf)
    decreases items, 1
  {
    sb.AppendChar('[');
    var i := 0;
    ghost var done, target := "[", "[" + PrintItems(items);
    while i < |items|
      invariant i <= |items| && sb.Valid() && (sb.buf == old(sb.buf) || fresh(sb.buf))
      invariant sb.Text() == old(sb.Text()) + done
      invariant done + PrintItems(items[i..]) == target
    {
      ghost var step := Print(items[i]) + Separator(i, |items|);
      PrintElement(sb, items, i);
      ItemsFrom(items, i);
      Concat3(done, step, PrintItems(items[i + 1..]));
      Concat3(old(sb.Text()), done, step);
      done := done + step;
      i := i + 1;
    }
    sb.AppendChar(']');
    Concat3(old(sb.Text()), done, "]");
  }

  lemma MembersFrom(members: seq<Member>, i: nat)
    requires i < |members| && forall k :: 0 <= k < |members| ==> Exact(members[k].value)
    ensures PrintMembers(members[i..]) ==
            PrintMember(members[i]) + Separator(i, |members|) + PrintMembers(members[i + 1..])
  {
    assert members[i..][1..] == members[i + 1..];
    Concat3(PrintMember(members[i]), Separator(i, |members|), PrintMembers(members[i + 1..]));
  }

  method PrintPair(sb: StringBuilder, members: seq<Member>, i: nat)
    requires sb.Valid() && i < |members| && Exact(members[i].value)
    modifies sb, sb.buf
    ensures sb.Valid() && sb.Text() == old(sb.Text()) + (PrintMember(members[i]) + Separator(i, |members|))
    ensures sb.buf == old(sb.buf) || fresh(sb.buf)
    decreases members, 0
  {
    ghost var key, value := PrintStr(members[i].key), Print(members[i].value);
    PrintStringTo(sb, members[i].key);
    sb.AppendChar(':');
    PrintItem(sb, members[i].value);
    Concat3(old(sb.Text()), key, ":");
    Concat3(old(sb.Text()), key + ":", value);
    Concat3(key, ":", value);
    assert sb.Text() == old(sb.Text()) + PrintMember(members[i]);
    if i + 1 < |members| { sb.AppendChar(','); }
    Concat3(old(sb.Text()), PrintMember(members[i]), Separator(i, |members|));
  }

  method PrintObject(sb: StringBuilder, members: seq<Member>)
    requires sb.Valid() && forall k :: 0 <= k < |members| ==> Exact(members[k].value)
    modifies sb, sb.buf
    ensures sb.Valid() && sb.Text() == old(sb.Text()) + ("{" + PrintMembers(members))
    ensures sb.buf == old(sb.buf) || fresh(sb.buf)
    decreases members, 1
  {
    sb.AppendChar('{');
    var i := 0;
    ghost var done, target := "{", "{" + PrintMembers(members);
    while i < |members|
      invariant i <= |members| && sb.Valid() && (sb.buf == old(sb.buf) || fresh(sb.buf))
      invariant sb.Text() == old(sb.Text()) + done
      invariant done + PrintMembers(members[i..]) == target
    {
      ghost var step := PrintMember(members[i]) + Separator(i, |members|);
      PrintPair(sb, members, i);
      MembersFrom(members, i);
      Concat3(done, step, PrintMembers(members[i + 1..]));
      Concat3(old(sb.Text()), done, step);
      done := done + step;
      i := i + 1;
    }
    sb.AppendChar('}');
    Concat3(old(sb.Text()), done, "}");
  }

  /** cJSON_PrintUnformatted. */
  method PrintUnformatted(item: Json) returns (text: string)
    requires Exact(item)
    ensures text == Print(item)
  {
    var sb := new StringBuilder();
    PrintItem(sb, item);
    text := sb.buf[..sb.len];
  }
}
