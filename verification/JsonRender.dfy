// The text that print_value writes, as a function of the tree, and the proof that it is a text of the grammar
// that denotes the tree, and one that the parser can keep. Parsing a printed tree therefore gives it back.
module JsonRender {
  import opened Bits
  import opened ByteStrings
  import opened JsonData
  import opened JsonNumber
  import opened JsonString
  import opened JsonParser
  import opened JsonGrammar

  // The trees the printer is modelled for: integers of 32 bits and strings without a NUL.
  predicate Printable(t: Json)
    decreases t, 0
  {
    match t
    case Number(v) => v.Floor as real == v && -0x8000_0000 <= v.Floor <= 0x7FFF_FFFF
    case Text(s) => NulFree(s)
    case Array(items) => PrintableItems(items, 0)
    case Object(members) => PrintableMembers(members, 0)
    case _ => true
  }

  predicate PrintableItems(items: seq<Json>, j: nat)
    requires j <= |items|
    decreases items, |items| - j
  {
    j < |items| ==> Printable(items[j]) && PrintableItems(items, j + 1)
  }

  predicate PrintableMembers(members: seq<Member>, j: nat)
    requires j <= |members|
    decreases members, |members| - j
  {
    j < |members| ==> NulFree(members[j].name) && Printable(members[j].value) && PrintableMembers(members, j + 1)
  }

  function Tabs(n: nat): Bytes {
    if n == 0 then [] else [TAB] + Tabs(n - 1)
  }

  function Indent(fmt: bool, n: nat): Bytes {
    if fmt then Tabs(n) else []
  }

  // What is written only in formatted mode.
  function Pretty(fmt: bool, b: byte): Bytes {
    if fmt then [b] else []
  }

  function Comma(more: bool): Bytes {
    if more then [COMMA] else []
  }

  // print_value at a nesting depth, formatted or not
  function Render(t: Json, fmt: bool, depth: nat): Bytes
    decreases t, 0
  {
    match t
    case Null => NULL_TEXT
    case False => FALSE_TEXT
    case True => TRUE_TEXT
    case Number(v) => Decimal(v.Floor)
    case Text(s) => Quoted(s)
    case Array(items) => [OPEN_BRACKET] + RenderItems(items, 0, fmt, depth + 1)
    case Object(members) => [OPEN_BRACE] + Pretty(fmt, NEWLINE) + RenderMembers(members, 0, fmt, depth + 1)
  }

  // The elements from index j and the closing bracket.
  function RenderItems(items: seq<Json>, j: nat, fmt: bool, depth: nat): Bytes
    requires j <= |items|
    decreases items, |items| - j, 1
  {
    if j == |items| then [CLOSE_BRACKET]
    else Render(items[j], fmt, depth) + Between(fmt, j + 1 < |items|) + RenderItems(items, j + 1, fmt, depth)
  }

  function Between(fmt: bool, more: bool): Bytes {
    if more then [COMMA] + Pretty(fmt, SPACE) else []
  }

  // The members from index j and the closing brace; depth counts the object itself.
  function RenderMembers(members: seq<Member>, j: nat, fmt: bool, depth: nat): Bytes
    requires j <= |members| && depth > 0
    decreases members, |members| - j, 1
  {
    if j == |members| then Indent(fmt, depth - 1) + [CLOSE_BRACE]
    else RenderMember(members[j], fmt, depth, j + 1 < |members|) + RenderMembers(members, j + 1, fmt, depth)
  }

  function RenderMember(member: Member, fmt: bool, depth: nat, more: bool): Bytes
    decreases member
  {
    Indent(fmt, depth) + Quoted(member.name) + ([COLON] + Pretty(fmt, TAB))
      + Render(member.value, fmt, depth) + (Comma(more) + Pretty(fmt, NEWLINE))
  }

  // ---- a printed tree is a text of the grammar ----

  lemma {:induction false} TabsBlank(text: Bytes, p: nat, n: nat)
    requires At(text, p, Tabs(n))
    ensures Blank(text, p, p + |Tabs(n)|)
    decreases n
  {
    if n > 0 {
      AtSplit(text, p, [TAB], Tabs(n - 1));
      AtByte(text, p, TAB);
      TabsBlank(text, p + 1, n - 1);
    }
  }

  lemma IndentBlank(text: Bytes, p: nat, fmt: bool, n: nat)
    requires At(text, p, Indent(fmt, n))
    ensures Blank(text, p, p + |Indent(fmt, n)|)
  {
    if fmt {
      TabsBlank(text, p, n);
    }
  }

  lemma PrettyBlank(text: Bytes, p: nat, fmt: bool, b: byte)
    requires At(text, p, Pretty(fmt, b)) && b <= SPACE
    ensures Blank(text, p, p + |Pretty(fmt, b)|)
  {
    if fmt {
      AtByte(text, p, b);
    }
  }

  lemma {:induction false} RenderedAt(g: Rules, text: Bytes, i: nat, e: nat, t: Json, fmt: bool, depth: nat)
    requires g != Accepted && Printable(t) && At(text, i, Render(t, fmt, depth)) && e == i + |Render(t, fmt, depth)|
    ensures ValueAt(g, text, i, e, t)
    decreases t, 0
  {
    match t
    case Null => WordAt(text, i, NULL_TEXT);
    case False => WordAt(text, i, FALSE_TEXT);
    case True => WordAt(text, i, TRUE_TEXT);
    case Number(v) => DecimalAt(g, text, i, e, v.Floor);
    case Text(s) => QuotedAt(text, i, e, s);
    case Array(items) =>
      AtSplit(text, i, [OPEN_BRACKET], RenderItems(items, 0, fmt, depth + 1));
      AtByte(text, i, OPEN_BRACKET);
      if items == [] {
        AtByte(text, i + 1, CLOSE_BRACKET);
      } else {
        RenderedItemsAt(g, text, i + 1, i + 1, e, items, 0, fmt, depth + 1, RenderItems(items, 0, fmt, depth + 1));
      }
    case Object(members) =>
      RenderedObjectAt(g, text, i, e, members, fmt, depth);
  }

  lemma WordAt(text: Bytes, i: nat, word: Bytes)
    requires At(text, i, word)
    ensures word == NULL_TEXT ==> NullAt(text, i)
    ensures word == FALSE_TEXT ==> FalseAt(text, i)
    ensures word == TRUE_TEXT ==> TrueAt(text, i)
  {
    if word == NULL_TEXT || word == TRUE_TEXT || word == FALSE_TEXT {
      AtIndex(text, i, word, 0);
      AtIndex(text, i, word, 1);
      AtIndex(text, i, word, 2);
      AtIndex(text, i, word, 3);
      if word == FALSE_TEXT {
        AtIndex(text, i, word, 4);
      }
    }
  }

  lemma DecimalAt(g: Rules, text: Bytes, i: nat, e: nat, n: int)
    requires g != Accepted && INT_MIN <= n <= INT_MAX && At(text, i, Decimal(n)) && e == i + |Decimal(n)|
    ensures NumeralAt(g, text, i, e, n as real)
  {
    DecimalTokenValue(n);
    assert ValidToken(DecimalToken(n));
  }

  // r is the print of the elements from index j on.
  lemma {:induction false} RenderedItemsAt(g: Rules, text: Bytes, p: nat, q: nat, e: nat, items: seq<Json>, j: nat, fmt: bool, depth: nat, r: Bytes)
    requires g != Accepted && j < |items| && PrintableItems(items, j) && Blank(text, p, q)
    requires r == RenderItems(items, j, fmt, depth) && At(text, q, r) && e == q + |r|
    ensures ItemsAt(g, text, p, e, items, j)
    decreases items, |items| - j, 1
  {
    var s, z, rest := RenderedItemAt(g, text, p, q, e, items, j, fmt, depth, r);
    var n := j + 1;
    if n < |items| {
      RenderedItemsAt(g, text, s + 1, z, e, items, n, fmt, depth, rest);
    }
    ItemJoins(g, text, p, q, s, s, items, j, e);
  }

  // The element at index j stands from q to s; the elements after it stand at z.
  lemma {:induction false} RenderedItemAt(g: Rules, text: Bytes, p: nat, q: nat, e: nat, items: seq<Json>, j: nat, fmt: bool, depth: nat, r: Bytes)
      returns (s: nat, z: nat, rest: Bytes)
    requires g != Accepted && j < |items| && PrintableItems(items, j) && Blank(text, p, q)
    requires r == RenderItems(items, j, fmt, depth) && At(text, q, r) && e == q + |r|
    ensures Padded(g, text, p, q, s, s, items[j]) && Follows(text, s, e, j + 1 == |items|, CLOSE_BRACKET)
    ensures rest == RenderItems(items, j + 1, fmt, depth) && PrintableItems(items, j + 1)
    ensures At(text, z, rest) && e == z + |rest| && (j + 1 < |items| ==> Blank(text, s + 1, z))
    decreases items, |items| - j, 0
  {
    var between;
    s, z, between, rest := ItemAndRest(text, q, e, items, j, fmt, depth, r);
    RenderedAt(g, text, q, s, items[j], fmt, depth);
    if j + 1 < |items| {
      CommaAt(text, s, fmt, between);
    } else {
      AtByte(text, s, CLOSE_BRACKET);
    }
  }

  // The element at index j stands at q, what separates it at s, and the elements after it at z.
  lemma ItemAndRest(text: Bytes, q: nat, e: nat, items: seq<Json>, j: nat, fmt: bool, depth: nat, r: Bytes)
      returns (s: nat, z: nat, between: Bytes, rest: Bytes)
    requires j < |items| && r == RenderItems(items, j, fmt, depth) && At(text, q, r) && e == q + |r|
    ensures At(text, q, Render(items[j], fmt, depth)) && s == q + |Render(items[j], fmt, depth)|
    ensures between == Between(fmt, j + 1 < |items|) && At(text, s, between) && z == s + |between|
    ensures rest == RenderItems(items, j + 1, fmt, depth) && At(text, z, rest) && e == z + |rest|
    ensures j + 1 == |items| ==> between == [] && rest == [CLOSE_BRACKET]
  {
    var value := Render(items[j], fmt, depth);
    between, rest := Between(fmt, j + 1 < |items|), RenderItems(items, j + 1, fmt, depth);
    s, z := q + |value|, q + |value| + |between|;
    ThreePieces(text, q, r, value, between, rest);
  }

  lemma ThreePieces(text: Bytes, q: nat, r: Bytes, a: Bytes, b: Bytes, c: Bytes)
    requires r == a + b + c && At(text, q, r)
    ensures At(text, q, a) && At(text, q + |a|, b) && At(text, q + |a| + |b|, c) && |r| == |a| + |b| + |c|
  {
    AtSplit(text, q, a + b, c);
    AtSplit(text, q, a, b);
  }

  lemma CommaAt(text: Bytes, s: nat, fmt: bool, between: Bytes)
    requires between == Between(fmt, true) && At(text, s, between)
    ensures Has(text, s, COMMA) && Blank(text, s + 1, s + |between|)
  {
    AtSplit(text, s, [COMMA], Pretty(fmt, SPACE));
    AtByte(text, s, COMMA);
    PrettyBlank(text, s + 1, fmt, SPACE);
  }

  lemma {:induction false} RenderedObjectAt(g: Rules, text: Bytes, i: nat, e: nat, members: seq<Member>, fmt: bool, depth: nat)
    requires g != Accepted && PrintableMembers(members, 0)
    requires At(text, i, Render(Object(members), fmt, depth)) && e == i + |Render(Object(members), fmt, depth)|
    ensures ValueAt(g, text, i, e, Object(members))
    decreases members, |members| + 1
  {
    var rest := RenderMembers(members, 0, fmt, depth + 1);
    AtSplit(text, i, [OPEN_BRACE] + Pretty(fmt, NEWLINE), rest);
    AtSplit(text, i, [OPEN_BRACE], Pretty(fmt, NEWLINE));
    AtByte(text, i, OPEN_BRACE);
    PrettyBlank(text, i + 1, fmt, NEWLINE);
    var q := i + 1 + |Pretty(fmt, NEWLINE)|;
    if members == [] {
      ClosingAt(text, q, fmt, depth);
      BlankJoin(text, i + 1, q, e - 1);
    } else {
      RenderedMembersAt(g, text, i + 1, q, e, members, 0, fmt, depth + 1, rest);
    }
  }

  lemma ClosingAt(text: Bytes, q: nat, fmt: bool, depth: nat)
    requires At(text, q, Indent(fmt, depth) + [CLOSE_BRACE])
    ensures var s := q + |Indent(fmt, depth)|; Blank(text, q, s) && Has(text, s, CLOSE_BRACE)
  {
    AtSplit(text, q, Indent(fmt, depth), [CLOSE_BRACE]);
    IndentBlank(text, q, fmt, depth);
    AtByte(text, q + |Indent(fmt, depth)|, CLOSE_BRACE);
  }

  lemma {:induction false} RenderedMembersAt(g: Rules, text: Bytes, p: nat, q: nat, e: nat, members: seq<Member>, j: nat, fmt: bool, depth: nat, r: Bytes)
    requires g != Accepted && j < |members| && PrintableMembers(members, j) && Blank(text, p, q) && depth > 0
    requires r == RenderMembers(members, j, fmt, depth) && At(text, q, r) && e == q + |r|
    ensures MembersAt(g, text, p, e, members, j)
    decreases members, |members| - j, 1
  {
    var n := j + 1;
    var c, v, a, s, z, rest := RenderedHeadAt(g, text, p, q, e, members, j, fmt, depth, r);
    if n < |members| {
      RenderedMembersAt(g, text, s + 1, z, e, members, n, fmt, depth, rest);
    }
    MemberJoins(g, text, p, c, v, a, s, members, j, e);
  }

  // The member at index j is followed by the byte at s; the members after it stand at z.
  lemma {:induction false} RenderedHeadAt(g: Rules, text: Bytes, p: nat, q: nat, e: nat, members: seq<Member>, j: nat, fmt: bool, depth: nat, r: Bytes)
      returns (c: nat, v: nat, a: nat, s: nat, z: nat, rest: Bytes)
    requires g != Accepted && j < |members| && PrintableMembers(members, j) && Blank(text, p, q) && depth > 0
    requires r == RenderMembers(members, j, fmt, depth) && At(text, q, r) && e == q + |r|
    ensures MemberAt(g, text, p, c, v, a, s, members[j]) && Follows(text, s, e, j + 1 == |members|, CLOSE_BRACE)
    ensures rest == RenderMembers(members, j + 1, fmt, depth) && PrintableMembers(members, j + 1)
    ensures At(text, z, rest) && e == z + |rest| && (j + 1 < |members| ==> Blank(text, s + 1, z))
    decreases members, |members| - j, 0
  {
    var first;
    z, first, rest := MemberAndRest(text, q, e, members, j, fmt, depth, r);
    c, v, a := RenderedMemberAt(g, text, p, q, members[j], fmt, depth, j + 1 < |members|, first);
    s := BehindMember(g, text, p, c, v, a, z, e, members[j], fmt, depth, j + 1 == |members|);
  }

  // Behind a member that is not the last one there is a comma.
  lemma BehindMember(g: Rules, text: Bytes, p: nat, c: nat, v: nat, a: nat, z: nat, e: nat, member: Member, fmt: bool, depth: nat, last: bool)
      returns (s: nat)
    requires depth > 0 && MemberAt(g, text, p, c, v, a, a, member)
    requires if last then Blank(text, a, z) else Has(text, a, COMMA) && Blank(text, a + 1, z)
    requires last ==> At(text, z, Indent(fmt, depth - 1) + [CLOSE_BRACE]) && e == z + |Indent(fmt, depth - 1)| + 1
    ensures MemberAt(g, text, p, c, v, a, s, member) && Follows(text, s, e, last, CLOSE_BRACE)
    ensures !last ==> Blank(text, s + 1, z)
  {
    s := a;
    if last {
      s := LastMember(g, text, p, c, v, a, z, e, member, fmt, depth);
    }
  }

  // Behind the last member the blanks go on to the closing brace.
  lemma LastMember(g: Rules, text: Bytes, p: nat, c: nat, v: nat, a: nat, z: nat, e: nat, member: Member, fmt: bool, depth: nat) returns (s: nat)
    requires depth > 0 && MemberAt(g, text, p, c, v, a, a, member) && Blank(text, a, z)
    requires At(text, z, Indent(fmt, depth - 1) + [CLOSE_BRACE]) && e == z + |Indent(fmt, depth - 1)| + 1
    ensures MemberAt(g, text, p, c, v, a, s, member) && Follows(text, s, e, true, CLOSE_BRACE)
  {
    ClosingAt(text, z, fmt, depth - 1);
    s := z + |Indent(fmt, depth - 1)|;
    BlankJoin(text, a, z, s);
    JoinBlank(g, text, p, c, v, a, s, member);
  }

  lemma JoinBlank(g: Rules, text: Bytes, p: nat, c: nat, v: nat, a: nat, s: nat, member: Member)
    requires MemberAt(g, text, p, c, v, a, a, member) && Blank(text, a, s)
    ensures MemberAt(g, text, p, c, v, a, s, member)
  {
  }

  // The member at index j stands at q, and what comes after it at z.
  lemma MemberAndRest(text: Bytes, q: nat, e: nat, members: seq<Member>, j: nat, fmt: bool, depth: nat, r: Bytes)
      returns (z: nat, first: Bytes, rest: Bytes)
    requires j < |members| && depth > 0 && r == RenderMembers(members, j, fmt, depth) && At(text, q, r) && e == q + |r|
    ensures first == RenderMember(members[j], fmt, depth, j + 1 < |members|) && At(text, q, first) && z == q + |first|
    ensures rest == RenderMembers(members, j + 1, fmt, depth) && At(text, z, rest) && e == z + |rest|
    ensures j + 1 == |members| ==> rest == Indent(fmt, depth - 1) + [CLOSE_BRACE]
  {
    first := RenderMember(members[j], fmt, depth, j + 1 < |members|);
    rest := RenderMembers(members, j + 1, fmt, depth);
    AtSplit(text, q, first, rest);
    z := q + |first|;
  }

  // A printed member after blanks from p to q: the colon, the value from v to a, then a comma if
  // more members follow, and blanks.
  lemma {:induction false} RenderedMemberAt(g: Rules, text: Bytes, p: nat, q: nat, member: Member, fmt: bool, depth: nat, more: bool, r: Bytes)
      returns (c: nat, v: nat, a: nat)
    requires g != Accepted && NulFree(member.name) && Printable(member.value) && Blank(text, p, q)
    requires r == RenderMember(member, fmt, depth, more) && At(text, q, r)
    ensures MemberAt(g, text, p, c, v, a, a, member)
    ensures var z := q + |r|;
      if more then Has(text, a, COMMA) && Blank(text, a + 1, z) else Blank(text, a, z)
    decreases member
  {
    c, v, a := AroundValue(g, text, p, q, member, fmt, depth, more, r);
    RenderedAt(g, text, v, a, member.value, fmt, depth);
    JoinMember(g, text, p, c, v, a, member);
  }

  // What is around the value of a printed member: the key and the colon before it, a comma or blanks after it.
  lemma AroundValue(g: Rules, text: Bytes, p: nat, q: nat, member: Member, fmt: bool, depth: nat, more: bool, r: Bytes) returns (c: nat, v: nat, a: nat)
    requires g != Accepted && NulFree(member.name) && Blank(text, p, q) && r == RenderMember(member, fmt, depth, more) && At(text, q, r)
    ensures NameAt(g, text, p, c, member.name) && Blank(text, c + 1, v)
    ensures At(text, v, Render(member.value, fmt, depth)) && a == v + |Render(member.value, fmt, depth)|
    ensures if more then Has(text, a, COMMA) && Blank(text, a + 1, q + |r|) else Blank(text, a, q + |r|)
  {
    var n;
    n, c, v, a := MemberPieces(text, q, member, fmt, depth, more);
    PrintedName(g, text, p, q, n, c, member.name, fmt, depth);
    AtSplit(text, c, [COLON], Pretty(fmt, TAB));
    PrettyBlank(text, c + 1, fmt, TAB);
    TailAt(text, a, more, fmt);
  }

  lemma JoinMember(g: Rules, text: Bytes, p: nat, c: nat, v: nat, a: nat, member: Member)
    requires NameAt(g, text, p, c, member.name) && Blank(text, c + 1, v) && ValueAt(g, text, v, a, member.value) && a <= |text|
    ensures MemberAt(g, text, p, c, v, a, a, member)
  {
  }

  // Where the parts of a printed member stand: its name at n, the colon at c, the value from v to a.
  lemma MemberPieces(text: Bytes, q: nat, member: Member, fmt: bool, depth: nat, more: bool) returns (n: nat, c: nat, v: nat, a: nat)
    requires At(text, q, RenderMember(member, fmt, depth, more))
    ensures At(text, q, Indent(fmt, depth)) && n == q + |Indent(fmt, depth)|
    ensures At(text, n, Quoted(member.name)) && c == n + |Quoted(member.name)|
    ensures At(text, c, [COLON] + Pretty(fmt, TAB)) && v == c + 1 + |Pretty(fmt, TAB)|
    ensures At(text, v, Render(member.value, fmt, depth)) && a == v + |Render(member.value, fmt, depth)|
    ensures At(text, a, Comma(more) + Pretty(fmt, NEWLINE))
    ensures a + |Comma(more) + Pretty(fmt, NEWLINE)| == q + |RenderMember(member, fmt, depth, more)|
  {
    var indent, name, colon := Indent(fmt, depth), Quoted(member.name), [COLON] + Pretty(fmt, TAB);
    var value := Render(member.value, fmt, depth);
    FivePieces(text, q, indent, name, colon, value, Comma(more) + Pretty(fmt, NEWLINE));
    n := q + |indent|;
    c := n + |name|;
    v := c + |colon|;
    a := v + |value|;
  }

  lemma FivePieces(text: Bytes, q: nat, a: Bytes, b: Bytes, c: Bytes, d: Bytes, e: Bytes)
    requires At(text, q, a + b + c + d + e)
    ensures At(text, q, a) && At(text, q + |a|, b) && At(text, q + |a| + |b|, c)
    ensures At(text, q + |a| + |b| + |c|, d) && At(text, q + |a| + |b| + |c| + |d|, e)
  {
    AtSplit(text, q, a + b + c + d, e);
    AtSplit(text, q, a + b + c, d);
    AtSplit(text, q, a + b, c);
    AtSplit(text, q, a, b);
  }

  lemma PrintedName(g: Rules, text: Bytes, p: nat, q: nat, n: nat, c: nat, name: Bytes, fmt: bool, depth: nat)
    requires g != Accepted && NulFree(name) && Blank(text, p, q) && At(text, q, Indent(fmt, depth)) && n == q + |Indent(fmt, depth)|
    requires At(text, n, Quoted(name)) && c == n + |Quoted(name)| && At(text, c, [COLON] + Pretty(fmt, TAB))
    ensures NameAt(g, text, p, c, name)
  {
    IndentBlank(text, q, fmt, depth);
    BlankJoin(text, p, q, n);
    QuotedAt(text, n, c, name);
    assert LiteralAt(g, text, n, c, name);
    AtIndex(text, c, [COLON] + Pretty(fmt, TAB), 0);
  }

  lemma TailAt(text: Bytes, a: nat, more: bool, fmt: bool)
    requires At(text, a, Comma(more) + Pretty(fmt, NEWLINE))
    ensures var z := a + |Comma(more) + Pretty(fmt, NEWLINE)|;
      if more then Has(text, a, COMMA) && Blank(text, a + 1, z) else Blank(text, a, z)
  {
    AtSplit(text, a, Comma(more), Pretty(fmt, NEWLINE));
    if more {
      AtByte(text, a, COMMA);
    }
    PrettyBlank(text, a + |Comma(more)|, fmt, NEWLINE);
  }
}
