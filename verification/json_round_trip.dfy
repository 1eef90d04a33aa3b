/** Parsing what was printed gives the tree back, for every tree and with any white space between its
    tokens. */
module JsonRoundTrip {
  import opened JsonGrammar
  import opened JsonSyntax
  import opened Wrappers

  /** What may follow a number: the end of the text, white space, a separator or a closer. */
  predicate EndsValue(c: char) {
    c == '\0' || Blank(c) || c == ',' || c == ']' || c == '}'
  }

  /** The text from i on begins with p. */
  ghost predicate HasPrefix(t: string, i: nat, p: string)
    decreases |p|
  {
    p == [] || (i < |t| && t[i] == p[0] && HasPrefix(t, i + 1, p[1..]))
  }

  lemma {:induction false} Split(t: string, i: nat, a: string, b: string)
    requires HasPrefix(t, i, a + b)
    ensures HasPrefix(t, i, a) && HasPrefix(t, i + |a|, b)
    decreases |a|
  {
    if a == [] {
      assert a + b == b;
    } else {
      assert (a + b)[1..] == a[1..] + b;
      Split(t, i + 1, a[1..], b);
    }
  }

  lemma StartsAt(t: string, i: nat, p: string, c: char)
    requires HasPrefix(t, i, p) && |p| > 0 && p[0] == c
    ensures i < |t| && At(t, i) == c && (!IsSpace(c) ==> SkipWs(t, i) == i)
  {
  }

  lemma {:induction false} PrefixIsSlice(t: string, i: nat, p: string)
    requires HasPrefix(t, i, p) && i <= |t|
    ensures i + |p| <= |t| && t[i..i + |p|] == p
    decreases |p|
  {
    if p == [] {
    } else {
      PrefixIsSlice(t, i + 1, p[1..]);
      assert t[i..i + |p|] == [t[i]] + t[i + 1..i + |p|];
    }
  }

  lemma {:induction false} SliceIsPrefix(t: string, i: nat)
    requires i <= |t|
    ensures HasPrefix(t, i, t[i..])
    decreases |t| - i
  {
    if i < |t| {
      SliceIsPrefix(t, i + 1);
      assert t[i..][1..] == t[i + 1..];
    }
  }

  // ---------------------------------------------------------------- strings

  lemma EscapedCharScansBack(c: char, t: string, i: nat)
    requires HasPrefix(t, i, EscapeChar(c))
    ensures ScanStr(t, i) == Prepend(c, ScanStr(t, i + |EscapeChar(c)|))
  {
    var e := EscapeChar(c);
    if |e| == 2 {
      assert HasPrefix(t, i + 1, e[1..]);
    }
  }

  lemma {:induction false} EscapedStringScansBack(s: string, t: string, i: nat)
    requires HasPrefix(t, i, Escape(s))
    ensures ScanStr(t, i) == Got(s, i + |Escape(s)|)
  {
    if s != [] {
      var e := EscapeChar(s[0]);
      Split(t, i, e, Escape(s[1..]));
      EscapedStringScansBack(s[1..], t, i + |e|);
      EscapedCharScansBack(s[0], t, i);
      assert s == [s[0]] + s[1..];
    }
  }

  lemma PrintedStringParses(s: string, t: string, i: nat)
    requires HasPrefix(t, i, PrintStr(s))
    ensures ParseStr(t, i) == Got(s, i + |PrintStr(s)|)
  {
    Split(t, i, "\"", Escape(s));
    EscapedStringScansBack(s, t, i + 1);
  }

  // ---------------------------------------------------------------- numbers

  /** The digits written for n are read back as n, and the run ends where they end. */
  lemma {:induction false} DigitsReadBack(n: nat, t: string, i: nat)
    requires HasPrefix(t, i, Digits(n))
    ensures |Digits(n)| > 0 && i + |Digits(n)| <= |t|
    ensures forall k :: i <= k < i + |Digits(n)| ==> IsDigit(t[k])
    ensures Value(t, i, i + |Digits(n)|) == n
  {
    if n < 10 {
      assert Value(t, i, i) == 0;
    } else {
      Split(t, i, Digits(n / 10), [DigitChar(n % 10)]);
      DigitsReadBack(n / 10, t, i);
    }
  }

  lemma {:induction false} DigitsStart(n: nat)
    ensures |Digits(n)| > 0 && IsDigit(Digits(n)[0])
  {
    if n >= 10 { DigitsStart(n / 10); }
  }

  lemma {:induction false} DigitRunEnds(t: string, i: nat, j: nat)
    requires i <= j <= |t| && !IsDigit(At(t, j))
    requires forall k :: i <= k < j ==> IsDigit(t[k])
    ensures DigitsEnd(t, i) == j
    decreases j - i
  {
    if i < j { DigitRunEnds(t, i + 1, j); }
  }

  lemma DigitsScan(t: string, i: nat, a: nat, b: nat)
    requires a == AfterSign(t, i) && a < b <= |t| && DigitsEnd(t, a) == b && EndsValue(At(t, b))
    ensures ScanNumber(t, i) == Got(NumberNode(t, i, a, b, b), b)
  {
  }

  lemma PrintedNumberScans(n: SafeInt, t: string, i: nat)
    requires HasPrefix(t, i, PrintInt(n)) && EndsValue(At(t, i + |PrintInt(n)|))
    ensures ScanNumber(t, i) == Got(Number(n), i + |PrintInt(n)|)
  {
    var m: nat := if n < 0 then -n else n;
    var a := if n < 0 then i + 1 else i;
    if n < 0 { Split(t, i, "-", Digits(m)); }
    DigitsReadBack(m, t, a);
    DigitRunEnds(t, a, a + |Digits(m)|);
    DigitsScan(t, i, a, a + |Digits(m)|);
  }

  // ---------------------------------------------------------------- tokens and the space between them

  /** The tokens of a tree's printed text. */
  function Tokens(v: Json): (r: seq<string>)
    requires Exact(v)
    ensures r != []
    decreases v, 0
  {
    match v
    case Arr(items) => ["["] + ItemTokens(items)
    case Obj(members) => ["{"] + MemberTokens(members)
    case _ => [Print(v)]
  }

  function ItemTokens(items: seq<Json>): seq<string>
    requires forall i :: 0 <= i < |items| ==> Exact(items[i])
    decreases items, 1
  {
    if items == [] then ["]"]
    else if |items| == 1 then Tokens(items[0]) + ["]"]
    else Tokens(items[0]) + ([","] + ItemTokens(items[1..]))
  }

  function OneMember(m: Member): seq<string>
    requires Exact(m.value)
    decreases m, 1
  {
    [PrintStr(m.key)] + ([":"] + Tokens(m.value))
  }

  function MemberTokens(members: seq<Member>): seq<string>
    requires forall i :: 0 <= i < |members| ==> Exact(members[i].value)
    decreases members, 2
  {
    if members == [] then ["}"]
    else if |members| == 1 then OneMember(members[0]) + ["}"]
    else OneMember(members[0]) + ([","] + MemberTokens(members[1..]))
  }

  /** Each token behind its gap. */
  function Spread(tokens: seq<string>, gaps: seq<string>): string
    requires |gaps| == |tokens|
  {
    if tokens == [] then "" else gaps[0] + (tokens[0] + Spread(tokens[1..], gaps[1..]))
  }

  /** White space as section 2 of RFC 8259 has it. */
  predicate IsRfcSpace(c: char) { c == ' ' || c == '\t' || c == '\n' || c == '\r' }

  predicate IsGap(gap: string) { forall i :: 0 <= i < |gap| ==> IsRfcSpace(gap[i]) }

  predicate AreGaps(gaps: seq<string>) { forall k :: 0 <= k < |gaps| ==> IsGap(gaps[k]) }

  lemma {:induction false} SpreadConcat(a: seq<string>, b: seq<string>, gaps: seq<string>)
    requires |gaps| == |a| + |b|
    ensures Spread(a + b, gaps) == Spread(a, gaps[..|a|]) + Spread(b, gaps[|a|..])
  {
    if a == [] {
      assert a + b == b && gaps[0..] == gaps;
    } else {
      SpreadConcat(a[1..], b, gaps[1..]);
      assert (a + b)[1..] == a[1..] + b;
      assert gaps[1..][..|a| - 1] == gaps[..|a|][1..] && gaps[1..][|a| - 1..] == gaps[|a|..];
      var x, y := Spread(a[1..], gaps[..|a|][1..]), Spread(b, gaps[|a|..]);
      assert gaps[0] + (a[0] + (x + y)) == (gaps[0] + (a[0] + x)) + y;
    }
  }

  /** A gap, then the rest. */
  lemma {:induction false} GapWrites(t: string, i: nat, gap: string, rest: string)
    requires i <= |t| && IsGap(gap) && HasPrefix(t, i, gap + rest)
    ensures Blanks(t, i, i + |gap|) && HasPrefix(t, i + |gap|, rest)
    decreases |gap|
  {
    Split(t, i, gap, rest);
    PrefixIsSlice(t, i, gap);
    assert forall m :: i <= m < i + |gap| ==> t[m] == t[i..i + |gap|][m - i];
  }

  /** A one-character token behind its gap, and what follows it. */
  lemma MarkThen(t: string, i: nat, c: char, rest: seq<string>, gaps: seq<string>)
    requires i <= |t| && |gaps| == 1 + |rest| && AreGaps(gaps) && HasPrefix(t, i, Spread([[c]] + rest, gaps))
    ensures MarkWrites(t, i, c, i + |gaps[0]| + 1) && HasPrefix(t, i + |gaps[0]| + 1, Spread(rest, gaps[1..]))
    ensures |Spread([[c]] + rest, gaps)| == |gaps[0]| + 1 + |Spread(rest, gaps[1..])|
  {
    var k := i + |gaps[0]|;
    assert ([[c]] + rest)[1..] == rest;
    GapWrites(t, i, gaps[0], [c] + Spread(rest, gaps[1..]));
    Split(t, k, [c], Spread(rest, gaps[1..]));
    assert HasPrefix(t, k, [c]);
  }

  /** Behind a value come a gap or the character of the next token. */
  lemma NextCharEnds(t: string, i: nat, c: char, rest: seq<string>, gaps: seq<string>)
    requires i <= |t| && |gaps| == 1 + |rest| && AreGaps(gaps) && HasPrefix(t, i, Spread([[c]] + rest, gaps))
    requires c == ',' || c == ']' || c == '}'
    ensures EndsValue(At(t, i))
  {
    MarkThen(t, i, c, rest, gaps);
  }

  lemma GapsOf(gaps: seq<string>, n: nat)
    requires AreGaps(gaps) && n <= |gaps|
    ensures AreGaps(gaps[..n]) && AreGaps(gaps[n..])
  {
  }

  lemma WordIsWritten(t: string, k: nat, word: string)
    requires k <= |t| && HasPrefix(t, k, word)
    ensures WordWrites(t, k, word, k + |word|)
  {
    PrefixIsSlice(t, k, word);
  }

  lemma ScalarIsAt(t: string, k: nat, v: Json)
    requires Exact(v) && !v.Arr? && !v.Obj? && k <= |t| && HasPrefix(t, k, Print(v))
    requires v.Number? ==> EndsValue(At(t, k + |Print(v)|))
    ensures WritesAt(t, k, v, k + |Print(v)|)
  {
    match v
    case Null => WordIsWritten(t, k, "null");
    case Bool(b) => WordIsWritten(t, k, if b then "true" else "false");
    case Number(n) =>
      PrintedNumberScans(n, t, k);
      NumberIsWritten(t, k);
    case Str(s) =>
      PrintedStringParses(s, t, k);
      StringIsWritten(t, k + 1);
  }

  lemma ScalarWrites(t: string, i: nat, v: Json, gaps: seq<string>)
    requires Exact(v) && !v.Arr? && !v.Obj? && i <= |t| && |gaps| == 1 && IsGap(gaps[0])
    requires HasPrefix(t, i, Spread([Print(v)], gaps))
    requires v.Number? ==> EndsValue(At(t, i + |Spread([Print(v)], gaps)|))
    ensures Writes(t, i, v, i + |Spread([Print(v)], gaps)|)
  {
    var gap, text := gaps[0], Print(v);
    assert Spread([], gaps[1..]) == "" && [text][1..] == [];
    assert Spread([text], gaps) == gap + (text + "") == gap + text;
    GapWrites(t, i, gap, text);
    ScalarIsAt(t, i + |gap|, v);
  }

  lemma {:induction false} SpacedWrites(t: string, i: nat, v: Json, gaps: seq<string>, e: nat)
    requires Exact(v) && i <= |t| && |gaps| == |Tokens(v)| && AreGaps(gaps)
    requires HasPrefix(t, i, Spread(Tokens(v), gaps)) && e == i + |Spread(Tokens(v), gaps)|
    requires v.Number? ==> EndsValue(At(t, e))
    ensures Writes(t, i, v, e)
    decreases v, 3
  {
    if v.Arr? {
      SpacedArrayWrites(t, i, v.items, gaps, e);
    } else if v.Obj? {
      SpacedObjectWrites(t, i, v.members, gaps, e);
    } else {
      ScalarWrites(t, i, v, gaps);
    }
  }

  /** An opening bracket behind its gap, and what follows it. */
  lemma OpenThen(t: string, i: nat, c: char, rest: seq<string>, gaps: seq<string>)
    returns (behind: seq<string>, k: nat)
    requires i <= |t| && |gaps| == 1 + |rest| && AreGaps(gaps) && HasPrefix(t, i, Spread([[c]] + rest, gaps))
    ensures |behind| == |rest| && AreGaps(behind) && MarkWrites(t, i, c, k) && HasPrefix(t, k, Spread(rest, behind))
    ensures k + |Spread(rest, behind)| == i + |Spread([[c]] + rest, gaps)|
  {
    MarkThen(t, i, c, rest, gaps);
    GapsOf(gaps, 1);
    behind, k := gaps[1..], i + |gaps[0]| + 1;
  }

  lemma CloseArray(t: string, i: nat, items: seq<Json>, k: nat, e: nat)
    requires MarkWrites(t, i, '[', k)
    requires if items == [] then MarkWrites(t, k, ']', e) else ItemsWrite(t, k, items, e)
    ensures Writes(t, i, Arr(items), e)
  {
    assert WritesAt(t, k - 1, Arr(items), e);
  }

  lemma CloseObject(t: string, i: nat, members: seq<Member>, k: nat, e: nat)
    requires MarkWrites(t, i, '{', k)
    requires if members == [] then MarkWrites(t, k, '}', e) else MembersWrite(t, k, members, e)
    ensures Writes(t, i, Obj(members), e)
  {
    assert WritesAt(t, k - 1, Obj(members), e);
  }

  /** A closing bracket alone. */
  lemma CloserWrites(t: string, i: nat, c: char, gaps: seq<string>)
    requires i <= |t| && |gaps| == 1 && AreGaps(gaps) && HasPrefix(t, i, Spread([[c]], gaps))
    ensures MarkWrites(t, i, c, i + |Spread([[c]], gaps)|)
  {
    assert [[c]] == [[c]] + [];
    MarkThen(t, i, c, [], gaps);
  }

  lemma {:induction false} SpacedArrayWrites(t: string, i: nat, items: seq<Json>, gaps: seq<string>, e: nat)
    requires (forall k :: 0 <= k < |items| ==> Exact(items[k])) && i <= |t| && AreGaps(gaps)
    requires |gaps| == 1 + |ItemTokens(items)| && HasPrefix(t, i, Spread(["["] + ItemTokens(items), gaps))
    requires e == i + |Spread(["["] + ItemTokens(items), gaps)|
    ensures Writes(t, i, Arr(items), e)
    decreases items, 3
  {
    var behind, k := OpenThen(t, i, '[', ItemTokens(items), gaps);
    if items == [] {
      CloserWrites(t, k, ']', behind);
    } else {
      SpacedItemsWrite(t, k, items, behind, e);
    }
    CloseArray(t, i, items, k, e);
  }

  /** Tokens a, then the character c as a token, then the rest: what the gaps of each part are. */
  lemma ThenMark(t: string, i: nat, a: seq<string>, c: char, rest: seq<string>, gaps: seq<string>)
    returns (before: seq<string>, behind: seq<string>, j: nat, k: nat)
    requires i <= |t| && |gaps| == |a| + (1 + |rest|) && AreGaps(gaps)
    requires HasPrefix(t, i, Spread(a + ([[c]] + rest), gaps)) && (c == ',' || c == ']' || c == '}')
    ensures |before| == |a| && |behind| == |rest| && AreGaps(before) && AreGaps(behind)
    ensures j == i + |Spread(a, before)| <= |t| && HasPrefix(t, i, Spread(a, before))
    ensures EndsValue(At(t, j)) && MarkWrites(t, j, c, k) && HasPrefix(t, k, Spread(rest, behind))
    ensures k + |Spread(rest, behind)| == i + |Spread(a + ([[c]] + rest), gaps)|
  {
    var b := [[c]] + rest;
    before, behind := gaps[..|a|], gaps[|a|..][1..];
    SpreadConcat(a, b, gaps);
    GapsOf(gaps, |a|);
    j := i + |Spread(a, before)|;
    Split(t, i, Spread(a, before), Spread(b, gaps[|a|..]));
    PrefixIsSlice(t, i, Spread(a, before));
    NextCharEnds(t, j, c, rest, gaps[|a|..]);
    MarkThen(t, j, c, rest, gaps[|a|..]);
    GapsOf(gaps[|a|..], 1);
    k := j + |gaps[|a|..][0]| + 1;
  }

  lemma CloseAllItems(t: string, i: nat, items: seq<Json>, j: nat, k: nat, e: nat)
    requires items != [] && Writes(t, i, items[0], j)
    requires if |items| == 1 then j <= k == e && MarkWrites(t, j, ']', k)
             else MarkWrites(t, j, ',', k) && ItemsWrite(t, k, items[1..], e)
    ensures ItemsWrite(t, i, items, e)
  {
    CloseItems(t, i, items[0], j, items[1..], k, e);
    assert [items[0]] + items[1..] == items;
  }

  lemma CloseAllMembers(t: string, i: nat, members: seq<Member>, j: nat, k: nat, e: nat)
    requires members != [] && MemberWrites(t, i, members[0], j)
    requires if |members| == 1 then j <= k == e && MarkWrites(t, j, '}', k)
             else MarkWrites(t, j, ',', k) && MembersWrite(t, k, members[1..], e)
    ensures MembersWrite(t, i, members, e)
  {
    CloseMembers(t, i, members[0], j, members[1..], k, e);
    assert [members[0]] + members[1..] == members;
  }

  lemma ItemTokensAre(items: seq<Json>)
    requires items != [] && forall k :: 0 <= k < |items| ==> Exact(items[k])
    ensures |items| == 1 ==> ItemTokens(items) == Tokens(items[0]) + (["]"] + [])
    ensures |items| > 1 ==> ItemTokens(items) == Tokens(items[0]) + ([","] + ItemTokens(items[1..]))
  {
    assert ["]"] + [] == ["]"];
  }

  lemma {:induction false} SpacedItemsWrite(t: string, i: nat, items: seq<Json>, gaps: seq<string>, e: nat)
    requires items != [] && (forall k :: 0 <= k < |items| ==> Exact(items[k])) && i <= |t| && AreGaps(gaps)
    requires |gaps| == |ItemTokens(items)| && HasPrefix(t, i, Spread(ItemTokens(items), gaps))
    requires e == i + |Spread(ItemTokens(items), gaps)|
    ensures ItemsWrite(t, i, items, e)
    decreases items, 2
  {
    var a, rest := Tokens(items[0]), items[1..];
    ItemTokensAre(items);
    if |items| == 1 {
      var before, behind, j, k := ThenMark(t, i, a, ']', [], gaps);
      SpacedWrites(t, i, items[0], before, j);
      CloseAllItems(t, i, items, j, k, e);
    } else {
      var before, behind, j, k := ThenMark(t, i, a, ',', ItemTokens(rest), gaps);
      SpacedWrites(t, i, items[0], before, j);
      SpacedItemsWrite(t, k, rest, behind, e);
      CloseAllItems(t, i, items, j, k, e);
    }
  }

  lemma {:induction false} SpacedObjectWrites(t: string, i: nat, members: seq<Member>, gaps: seq<string>, e: nat)
    requires (forall k :: 0 <= k < |members| ==> Exact(members[k].value)) && i <= |t| && AreGaps(gaps)
    requires |gaps| == 1 + |MemberTokens(members)| && HasPrefix(t, i, Spread(["{"] + MemberTokens(members), gaps))
    requires e == i + |Spread(["{"] + MemberTokens(members), gaps)|
    ensures Writes(t, i, Obj(members), e)
    decreases members, 5
  {
    var behind, k := OpenThen(t, i, '{', MemberTokens(members), gaps);
    if members == [] {
      CloserWrites(t, k, '}', behind);
    } else {
      SpacedMembersWrite(t, k, members, behind, e);
    }
    CloseObject(t, i, members, k, e);
  }

  lemma MemberTokensAre(members: seq<Member>)
    requires members != [] && forall k :: 0 <= k < |members| ==> Exact(members[k].value)
    ensures |members| == 1 ==> MemberTokens(members) == OneMember(members[0]) + (["}"] + [])
    ensures |members| > 1 ==> MemberTokens(members) == OneMember(members[0]) + ([","] + MemberTokens(members[1..]))
  {
    assert ["}"] + [] == ["}"];
  }

  lemma {:induction false} SpacedMembersWrite(t: string, i: nat, members: seq<Member>, gaps: seq<string>, e: nat)
    requires members != [] && (forall k :: 0 <= k < |members| ==> Exact(members[k].value)) && i <= |t|
    requires AreGaps(gaps) && |gaps| == |MemberTokens(members)| && HasPrefix(t, i, Spread(MemberTokens(members), gaps))
    requires e == i + |Spread(MemberTokens(members), gaps)|
    ensures MembersWrite(t, i, members, e)
    decreases members, 4
  {
    var a, rest := OneMember(members[0]), members[1..];
    MemberTokensAre(members);
    if |members| == 1 {
      var before, behind, j, k := ThenMark(t, i, a, '}', [], gaps);
      SpacedMemberWrites(t, i, members[0], before, j);
      CloseAllMembers(t, i, members, j, k, e);
    } else {
      var before, behind, j, k := ThenMark(t, i, a, ',', MemberTokens(rest), gaps);
      SpacedMemberWrites(t, i, members[0], before, j);
      SpacedMembersWrite(t, k, rest, behind, e);
      CloseAllMembers(t, i, members, j, k, e);
    }
  }

  lemma KeyWrites(t: string, i: nat, key: string, rest: seq<string>, gaps: seq<string>)
    returns (behind: seq<string>, q: nat, j: nat)
    requires i <= |t| && |gaps| == 1 + |rest| && AreGaps(gaps) && HasPrefix(t, i, Spread([PrintStr(key)] + rest, gaps))
    ensures |behind| == |rest| && AreGaps(behind) && HasPrefix(t, j, Spread(rest, behind)) && j <= |t|
    ensures MarkWrites(t, i, '"', q) && StringWrites(t, q, key, j)
    ensures j + |Spread(rest, behind)| == i + |Spread([PrintStr(key)] + rest, gaps)|
  {
    behind := gaps[1..];
    var k, text := i + |gaps[0]|, PrintStr(key);
    assert ([text] + rest)[1..] == rest;
    GapsOf(gaps, 1);
    GapWrites(t, i, gaps[0], text + Spread(rest, behind));
    q, j := k + 1, k + |text|;
    Split(t, k, text, Spread(rest, behind));
    KeyScans(t, k, key);
  }

  lemma KeyScans(t: string, k: nat, key: string)
    requires k <= |t| && HasPrefix(t, k, PrintStr(key))
    ensures k < |t| && t[k] == '"' && StringWrites(t, k + 1, key, k + |PrintStr(key)|) && k + |PrintStr(key)| <= |t|
  {
    PrefixIsSlice(t, k, PrintStr(key));
    PrintedStringParses(key, t, k);
    StringIsWritten(t, k + 1);
  }

  lemma {:induction false} SpacedMemberWrites(t: string, i: nat, m: Member, gaps: seq<string>, e: nat)
    requires Exact(m.value) && i <= |t| && |gaps| == |OneMember(m)| && AreGaps(gaps)
    requires HasPrefix(t, i, Spread(OneMember(m), gaps)) && e == i + |Spread(OneMember(m), gaps)|
    requires m.value.Number? ==> EndsValue(At(t, e))
    ensures MemberWrites(t, i, m, e)
    decreases m, 4
  {
    var tokens := Tokens(m.value);
    var behind, q, j := KeyWrites(t, i, m.key, [":"] + tokens, gaps);
    var last, k := OpenThen(t, j, ':', tokens, behind);
    SpacedWrites(t, k, m.value, last, e);
    assert MemberParts(t, i, m, q, j, k);
  }

  // ---------------------------------------------------------------- without any space

  /** The tokens one after the other are the printed text. */
  function NoGaps(n: nat): (gaps: seq<string>)
    ensures |gaps| == n && forall k :: 0 <= k < n ==> gaps[k] == ""
  {
    seq(n, _ => "")
  }

  lemma {:induction false} SpreadNone(a: seq<string>, b: seq<string>)
    ensures Spread(a + b, NoGaps(|a + b|)) == Spread(a, NoGaps(|a|)) + Spread(b, NoGaps(|b|))
  {
    var gaps := NoGaps(|a + b|);
    SpreadConcat(a, b, gaps);
    assert gaps[..|a|] == NoGaps(|a|) && gaps[|a|..] == NoGaps(|b|);
  }

  lemma SpreadOne(token: string)
    ensures Spread([token], NoGaps(|[token]|)) == token
  {
    assert Spread([token], NoGaps(|[token]|)) == "" + (token + "");
  }

  lemma {:induction false} TokensPrint(v: Json)
    requires Exact(v)
    ensures Spread(Tokens(v), NoGaps(|Tokens(v)|)) == Print(v)
    decreases v, 0
  {
    if v.Arr? {
      SpreadNone(["["], ItemTokens(v.items));
      SpreadOne("[");
      ItemTokensPrint(v.items);
    } else if v.Obj? {
      SpreadNone(["{"], MemberTokens(v.members));
      SpreadOne("{");
      MemberTokensPrint(v.members);
    } else {
      SpreadOne(Print(v));
    }
  }

  lemma {:induction false} ItemTokensPrint(items: seq<Json>)
    requires forall i :: 0 <= i < |items| ==> Exact(items[i])
    ensures Spread(ItemTokens(items), NoGaps(|ItemTokens(items)|)) == PrintItems(items)
    decreases items, 1
  {
    SpreadOne("]");
    if |items| == 1 {
      SpreadNone(Tokens(items[0]), ["]"]);
      TokensPrint(items[0]);
    } else if |items| > 1 {
      SpreadNone(Tokens(items[0]), [","] + ItemTokens(items[1..]));
      SpreadNone([","], ItemTokens(items[1..]));
      SpreadOne(",");
      TokensPrint(items[0]);
      ItemTokensPrint(items[1..]);
    }
  }

  lemma {:induction false} OneMemberPrints(m: Member)
    requires Exact(m.value)
    ensures Spread(OneMember(m), NoGaps(|OneMember(m)|)) == PrintMember(m)
    decreases m, 1
  {
    SpreadNone([PrintStr(m.key)], [":"] + Tokens(m.value));
    SpreadNone([":"], Tokens(m.value));
    SpreadOne(PrintStr(m.key));
    SpreadOne(":");
    TokensPrint(m.value);
  }

  lemma {:induction false} MemberTokensPrint(members: seq<Member>)
    requires forall i :: 0 <= i < |members| ==> Exact(members[i].value)
    ensures Spread(MemberTokens(members), NoGaps(|MemberTokens(members)|)) == PrintMembers(members)
    decreases members, 2
  {
    SpreadOne("}");
    if |members| == 1 {
      SpreadNone(OneMember(members[0]), ["}"]);
      OneMemberPrints(members[0]);
    } else if |members| > 1 {
      SpreadNone(OneMember(members[0]), [","] + MemberTokens(members[1..]));
      SpreadNone([","], MemberTokens(members[1..]));
      SpreadOne(",");
      OneMemberPrints(members[0]);
      MemberTokensPrint(members[1..]);
    }
  }

  // ---------------------------------------------------------------- main results

  lemma Begins(t: string, a: string, b: string)
    requires t == a + b
    ensures HasPrefix(t, 0, a)
  {
    SliceIsPrefix(t, 0);
    assert t[0..] == a + b;
    Split(t, 0, a, b);
  }

  lemma GapIsBlanks(t: string, a: string, gap: string, b: string)
    requires t == a + (gap + b) && IsGap(gap)
    ensures Blanks(t, |a|, |a| + |gap|)
  {
    assert forall m :: |a| <= m < |a| + |gap| ==> t[m] == gap[m - |a|];
  }

  lemma SpacedThen(v: Json, gaps: seq<string>, text: string, behind: string)
    requires Exact(v) && |gaps| == |Tokens(v)| && AreGaps(gaps) && text == Spread(Tokens(v), gaps)
    requires behind == "" || EndsValue(behind[0]) || !v.Number?
    ensures Writes(text + behind, 0, v, |text|)
  {
    Begins(text + behind, text, behind);
    SpacedWrites(text + behind, 0, v, gaps, |text|);
  }

  /** Any white space before, between and behind the tokens of a printed tree, and the parser returns
      the tree. */
  lemma SpacedTextParses(v: Json, gaps: seq<string>, last: string)
    requires Exact(v) && |gaps| == |Tokens(v)| && AreGaps(gaps) && IsGap(last)
    ensures Parse(Spread(Tokens(v), gaps) + last) == Some(v)
  {
    var text := Spread(Tokens(v), gaps);
    SpacedThen(v, gaps, text, last);
    assert last + "" == last;
    GapIsBlanks(text + last, text, last, "");
    AcceptsExactlyTheGrammar(text + last, v);
  }

  /** What is left over behind such a text makes the parser refuse it, unless it would lengthen a number. */
  lemma LeftoverIsRefused(v: Json, gaps: seq<string>, last: string, rest: string)
    requires Exact(v) && |gaps| == |Tokens(v)| && AreGaps(gaps) && IsGap(last)
    requires rest != "" && !Blank(rest[0]) && (last != "" || EndsValue(rest[0]) || !v.Number?)
    ensures Parse(Spread(Tokens(v), gaps) + (last + rest)) == None
  {
    var text := Spread(Tokens(v), gaps);
    var t := text + (last + rest);
    SpacedThen(v, gaps, text, last + rest);
    WrittenValueParses(t, 0, v, |text|);
    GapIsBlanks(t, text, last, rest);
    assert At(t, |text| + |last|) == rest[0];
    SkipsBlanks(t, |text|, |text| + |last|);
  }

  /** parse_value on a printed value stops exactly at what follows it. */
  lemma PrintedValueParses(v: Json, t: string, i: nat)
    requires Exact(v) && i <= |t|
    requires HasPrefix(t, i, Print(v)) && EndsValue(At(t, i + |Print(v)|))
    ensures ParseValue(t, i) == Got(v, i + |Print(v)|)
  {
    TokensPrint(v);
    SpacedWrites(t, i, v, NoGaps(|Tokens(v)|), i + |Print(v)|);
    WrittenValueParses(t, i, v, i + |Print(v)|);
  }

  /** Every tree survives being printed and parsed: order, keys and duplicates included. */
  lemma RoundTrip(v: Json)
    requires Exact(v)
    ensures Parse(Print(v)) == Some(v)
  {
    TokensPrint(v);
    SpacedTextParses(v, NoGaps(|Tokens(v)|), "");
    assert Print(v) + "" == Print(v);
  }

  lemma PrintIsInjective(v: Json, w: Json)
    requires Exact(v) && Exact(w) && Print(v) == Print(w)
    ensures v == w
  {
    RoundTrip(v);
    RoundTrip(w);
  }

  /** What RFC 8259 refuses and the parser accepts: a vertical tab, a plus sign, a point without digits
      behind it. */
  lemma LaxTextIsAccepted()
    ensures Parse("\U{0b}+1.") == Some(Inexact("+1."))
  {
    var t := "\U{0b}+1.";
    assert Value(t, 2, 2) == 0;
    assert DigitsEnd(t, 2) == 3 && DigitsEnd(t, 4) == 4;
    assert SkipWs(t, 0) == 1;
    assert ScanNumber(t, 1) == Got(Inexact(t[1..4]), 4);
    assert t[1..4] == "+1.";
    assert ParseValue(t, 0) == Got(Inexact("+1."), 4);
  }
}
