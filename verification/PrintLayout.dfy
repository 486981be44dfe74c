// The layout of printed trees, byte by byte: what stands around and between the parts in either mode.
module PrintLayout {
  import opened Bits
  import opened ByteStrings
  import opened JsonData
  import opened JsonNumber
  import opened JsonString
  import opened JsonRender

  // The parts one after the other with something between each two.
  function Joined(parts: seq<Bytes>, between: Bytes, j: nat): Bytes
    requires j <= |parts|
    decreases |parts| - j
  {
    if j == |parts| then []
    else if j + 1 == |parts| then parts[j]
    else parts[j] + between + Joined(parts, between, j + 1)
  }

  // null, false and true
  lemma WordsPrinted(fmt: bool, depth: nat)
    ensures Render(Null, fmt, depth) == [110, 117, 108, 108]
    ensures Render(False, fmt, depth) == [102, 97, 108, 115, 101]
    ensures Render(True, fmt, depth) == [116, 114, 117, 101]
  {
  }

  function ItemPrints(items: seq<Json>, fmt: bool, depth: nat): (parts: seq<Bytes>)
    ensures |parts| == |items|
  {
    seq(|items|, k requires 0 <= k < |items| => Render(items[k], fmt, depth))
  }

  lemma {:induction false} ItemsJoined(items: seq<Json>, j: nat, fmt: bool, depth: nat)
    requires j < |items|
    ensures RenderItems(items, j, fmt, depth) == Joined(ItemPrints(items, fmt, depth), if fmt then [44, 32] else [44], j) + [93]
    decreases |items| - j
  {
    var between := if fmt then [44, 32] else [44];
    var first := ItemPrints(items, fmt, depth)[j];
    if j + 1 < |items| {
      var n := j + 1;
      ItemsJoined(items, n, fmt, depth);
      assert Between(fmt, true) == between;
      Regroup(first + between, Joined(ItemPrints(items, fmt, depth), between, n), [93]);
    } else {
      assert first + [] == first;
    }
  }

  // An array in brackets, with a comma between its elements and a space behind the comma in formatted mode.
  lemma ArrayPrinted(items: seq<Json>, fmt: bool, depth: nat)
    ensures Render(Array(items), fmt, depth)
         == [91] + (Joined(ItemPrints(items, fmt, depth + 1), if fmt then [44, 32] else [44], 0) + [93])
  {
    if items != [] {
      ItemsJoined(items, 0, fmt, depth + 1);
    }
  }

  // n tabs in formatted mode
  function TabText(fmt: bool, n: nat): Bytes {
    if fmt then seq(n, _ => 9) else []
  }

  lemma {:induction false} TabsAre(n: nat)
    ensures Tabs(n) == seq(n, _ => 9 as byte)
  {
    if n > 0 {
      TabsAre(n - 1);
    }
  }

  // A member: its indentation and key, a colon, a tab in formatted mode, and its value.
  function MemberPrint(member: Member, fmt: bool, depth: nat): Bytes {
    TabText(fmt, depth) + Quoted(member.name) + (if fmt then [58, 9] else [58]) + Render(member.value, fmt, depth)
  }

  function MemberPrints(members: seq<Member>, fmt: bool, depth: nat): (parts: seq<Bytes>)
    ensures |parts| == |members|
  {
    seq(|members|, k requires 0 <= k < |members| => MemberPrint(members[k], fmt, depth))
  }

  function LineFeed(fmt: bool): Bytes {
    if fmt then [10] else []
  }

  lemma IndentIs(fmt: bool, n: nat)
    ensures Indent(fmt, n) == TabText(fmt, n)
  {
    TabsAre(n);
  }

  lemma MemberIs(member: Member, fmt: bool, depth: nat, more: bool)
    ensures RenderMember(member, fmt, depth, more) == MemberPrint(member, fmt, depth) + ((if more then [44] else []) + LineFeed(fmt))
  {
    IndentIs(fmt, depth);
  }

  lemma {:induction false} MembersJoined(members: seq<Member>, j: nat, fmt: bool, depth: nat)
    requires j < |members| && depth > 0
    ensures RenderMembers(members, j, fmt, depth)
         == Joined(MemberPrints(members, fmt, depth), [44] + LineFeed(fmt), j) + (LineFeed(fmt) + TabText(fmt, depth - 1) + [125])
    decreases |members| - j
  {
    var n := j + 1;
    var between, end := [44] + LineFeed(fmt), TabText(fmt, depth - 1) + [125];
    var first := MemberPrints(members, fmt, depth)[j];
    MemberIs(members[j], fmt, depth, n < |members|);
    if n < |members| {
      MembersJoined(members, n, fmt, depth);
      Regroup(first + between, Joined(MemberPrints(members, fmt, depth), between, n), LineFeed(fmt) + TabText(fmt, depth - 1) + [125]);
    } else {
      IndentIs(fmt, depth - 1);
      Regroup(first, LineFeed(fmt), end);
      assert [] + LineFeed(fmt) == LineFeed(fmt);
      Regroup(LineFeed(fmt), TabText(fmt, depth - 1), [125]);
    }
  }

  // An object in braces. In formatted mode each member has a line of its own, and the closing brace is indented like the
  // object.
  lemma ObjectPrinted(members: seq<Member>, fmt: bool, depth: nat)
    ensures var open := [123] + LineFeed(fmt);
      Render(Object(members), fmt, depth) == if members == [] then open + (TabText(fmt, depth) + [125])
        else open + (Joined(MemberPrints(members, fmt, depth + 1), [44] + LineFeed(fmt), 0) + (LineFeed(fmt) + TabText(fmt, depth) + [125]))
  {
    if members != [] {
      MembersJoined(members, 0, fmt, depth + 1);
    } else {
      IndentIs(fmt, depth);
    }
  }
}
