// The parser accepts nothing but the texts of the grammar, with the strings and numbers that its own
// functions for them accept.
module JsonAccepts {
  import opened ByteStrings
  import opened JsonData
  import opened JsonNumber
  import opened JsonString
  import opened JsonParser
  import opened JsonGrammar
  import opened LooseNumbers
  import opened LooseStrings

  lemma {:induction false} BlankUpTo(text: Bytes, i: nat, e: nat)
    requires i <= |text| && i <= e <= BlankEnd(text, i)
    ensures Blank(text, i, e)
    decreases e - i
  {
    if i < e {
      BlankUpTo(text, i + 1, e);
    }
  }

  lemma SkipsBlanks(text: Bytes, i: nat)
    requires i <= |text|
    ensures Blank(text, i, SkipBlanks(text, i))
  {
    BlankUpTo(text, i, SkipBlanks(text, i));
  }

  lemma {:induction false} AcceptsValue(text: Bytes, i: nat, depth: int, t: Json, e: nat)
    requires i <= |text| && depth <= NESTING_LIMIT && ParseValue(text, i, depth) == Parsed(t, e)
    ensures ValueAt(Accepted, text, i, e, t) && depth + Nesting(t) <= NESTING_LIMIT
    decreases |text| - i, 3
  {
    match t
    case Array(items) =>
      var j := ItemsRead(text, i, depth, items, e);
      AcceptsArray(text, i, j, depth, items, e);
    case Object(members) =>
      var j := MembersRead(text, i, depth, members, e);
      AcceptsObject(text, i, j, depth, members, e);
    case _ =>
  }

  // The list was read from the byte before j on, unless it is empty.
  lemma {:induction false} AcceptsArray(text: Bytes, i: nat, j: nat, depth: int, items: seq<Json>, e: nat)
    requires depth < NESTING_LIMIT && Has(text, i, OPEN_BRACKET) && i < j < |text| && Blank(text, i + 1, j)
    requires if items == [] then Closes(text, i + 1, e, CLOSE_BRACKET) else ParseItems(text, j - 1, depth + 1) == Parsed(items[0..], e)
    ensures ValueAt(Accepted, text, i, e, Array(items)) && depth + 1 + ItemsNesting(items, 0) <= NESTING_LIMIT
    decreases |text| - i, 2
  {
    if items != [] {
      AcceptsItems(text, i + 1, j - 1, depth + 1, items, 0, e);
    }
    ArrayJoins(text, i, items, e);
  }

  lemma ArrayJoins(text: Bytes, i: nat, items: seq<Json>, e: nat)
    requires Has(text, i, OPEN_BRACKET)
    requires if items == [] then Closes(text, i + 1, e, CLOSE_BRACKET) else ItemsAt(Accepted, text, i + 1, e, items, 0)
    ensures ValueAt(Accepted, text, i, e, Array(items))
  {
  }

  // What was read after the opening byte: the closing byte, or the list from the byte before j on.
  lemma ItemsRead(text: Bytes, i: nat, depth: int, items: seq<Json>, e: nat) returns (j: nat)
    requires Has(text, i, OPEN_BRACKET) && ParseArray(text, i, depth) == Parsed(Array(items), e)
    ensures depth < NESTING_LIMIT && i < j < |text| && Blank(text, i + 1, j)
    ensures if items == [] then Closes(text, i + 1, e, CLOSE_BRACKET) else ParseItems(text, j - 1, depth + 1) == Parsed(items[0..], e)
  {
    j := SkipBlanks(text, i + 1);
    SkipsBlanks(text, i + 1);
    assert items[0..] == items;
  }

  // The elements from j are read after the byte at k, behind blanks that begin at p.
  lemma {:induction false} AcceptsItems(text: Bytes, p: nat, k: nat, depth: int, items: seq<Json>, j: nat, e: nat)
    requires k < |text| && Blank(text, p, k + 1) && depth <= NESTING_LIMIT
    requires j < |items| && ParseItems(text, k, depth) == Parsed(items[j..], e)
    ensures ItemsAt(Accepted, text, p, e, items, j) && depth + ItemsNesting(items, j) <= NESTING_LIMIT
    decreases |text| - k, 1
  {
    var a, s := ItemRead(text, k, depth, items, j, e);
    AcceptsElement(text, p, k, depth, items[j], a, s);
    var n := j + 1;
    if n < |items| {
      AcceptsItems(text, s + 1, s, depth, items, n, e);
    }
    ItemJoins(Accepted, text, p, SkipBlanks(text, k + 1), a, s, items, j, e);
  }

  // The first of the elements that were read, and what was read after it.
  lemma ItemRead(text: Bytes, k: nat, depth: int, items: seq<Json>, j: nat, e: nat) returns (a: nat, s: nat)
    requires k < |text| && j < |items| && ParseItems(text, k, depth) == Parsed(items[j..], e)
    ensures ParseValue(text, SkipBlanks(text, k + 1), depth) == Parsed(items[j], a) && a <= |text| && s == SkipBlanks(text, a)
    ensures Follows(text, s, e, j + 1 == |items|, CLOSE_BRACKET) && k < s < |text|
    ensures j + 1 < |items| ==> ParseItems(text, s, depth) == Parsed(items[j + 1..], e)
  {
    assert items[j..] == [items[j]] + items[j + 1..];
    match ParseValue(text, SkipBlanks(text, k + 1), depth)
    case Parsed(item, after) =>
      a, s := after, SkipBlanks(text, after);
      if Has(text, s, COMMA) {
        HeadsAndTails(item, ParseItems(text, s, depth).value, items[j], items[j + 1..]);
      } else {
        HeadsAndTails(item, [], items[j], items[j + 1..]);
        assert [item] + [] == [item];
      }
  }

  lemma {:induction false} AcceptsElement(text: Bytes, p: nat, k: nat, depth: int, t: Json, a: nat, s: nat)
    requires k < |text| && Blank(text, p, k + 1) && depth <= NESTING_LIMIT
    requires ParseValue(text, SkipBlanks(text, k + 1), depth) == Parsed(t, a) && a <= |text| && s == SkipBlanks(text, a)
    ensures Padded(Accepted, text, p, SkipBlanks(text, k + 1), a, s, t) && depth + Nesting(t) <= NESTING_LIMIT
    decreases |text| - k, 0
  {
    SkipsBlanks(text, k + 1);
    BlankJoin(text, p, k + 1, SkipBlanks(text, k + 1));
    AcceptsValue(text, SkipBlanks(text, k + 1), depth, t, a);
    SkipsBlanks(text, a);
  }

  // The list was read from the byte before j on, unless it is empty.
  lemma {:induction false} AcceptsObject(text: Bytes, i: nat, j: nat, depth: int, members: seq<Member>, e: nat)
    requires depth < NESTING_LIMIT && Has(text, i, OPEN_BRACE) && i < j < |text| && Blank(text, i + 1, j)
    requires if members == [] then Closes(text, i + 1, e, CLOSE_BRACE) else ParseMembers(text, j - 1, depth + 1) == Parsed(members[0..], e)
    ensures ValueAt(Accepted, text, i, e, Object(members)) && depth + 1 + MembersNesting(members, 0) <= NESTING_LIMIT
    decreases |text| - i, 2
  {
    if members != [] {
      AcceptsMembers(text, i + 1, j - 1, depth + 1, members, 0, e);
    }
    ObjectJoins(text, i, members, e);
  }

  lemma ObjectJoins(text: Bytes, i: nat, members: seq<Member>, e: nat)
    requires Has(text, i, OPEN_BRACE)
    requires if members == [] then Closes(text, i + 1, e, CLOSE_BRACE) else MembersAt(Accepted, text, i + 1, e, members, 0)
    ensures ValueAt(Accepted, text, i, e, Object(members))
  {
  }

  // What was read after the opening byte: the closing byte, or the list from the byte before j on.
  lemma MembersRead(text: Bytes, i: nat, depth: int, members: seq<Member>, e: nat) returns (j: nat)
    requires Has(text, i, OPEN_BRACE) && ParseObject(text, i, depth) == Parsed(Object(members), e)
    ensures depth < NESTING_LIMIT && i < j < |text| && Blank(text, i + 1, j)
    ensures if members == [] then Closes(text, i + 1, e, CLOSE_BRACE) else ParseMembers(text, j - 1, depth + 1) == Parsed(members[0..], e)
  {
    j := SkipBlanks(text, i + 1);
    SkipsBlanks(text, i + 1);
    assert members[0..] == members;
  }

  lemma {:induction false} AcceptsMembers(text: Bytes, p: nat, k: nat, depth: int, members: seq<Member>, j: nat, e: nat)
    requires k < |text| && Blank(text, p, k + 1) && depth <= NESTING_LIMIT
    requires j < |members| && ParseMembers(text, k, depth) == Parsed(members[j..], e)
    ensures MembersAt(Accepted, text, p, e, members, j) && depth + MembersNesting(members, j) <= NESTING_LIMIT
    decreases |text| - k, 1
  {
    var c, a, s := MemberRead(text, k, depth, members, j, e);
    var n := j + 1;
    if n < |members| {
      AcceptsMembers(text, s + 1, s, depth, members, n, e);
    }
    AcceptsMember(text, p, k, depth, members, j, e, c, a, s);
  }

  // The member at j in front of those that have been accepted already.
  lemma {:induction false} AcceptsMember(text: Bytes, p: nat, k: nat, depth: int, members: seq<Member>, j: nat, e: nat, c: nat, a: nat, s: nat)
    requires k + 1 < |text| && Blank(text, p, k + 1) && depth <= NESTING_LIMIT && j < |members|
    requires ParseName(text, k) == Parsed(members[j].name, c) && k < c < |text|
    requires ParseValue(text, SkipBlanks(text, c + 1), depth) == Parsed(members[j].value, a) && a <= |text| && s == SkipBlanks(text, a)
    requires Follows(text, s, e, j + 1 == |members|, CLOSE_BRACE)
    requires j + 1 < |members| ==> MembersAt(Accepted, text, s + 1, e, members, j + 1)
    ensures MembersAt(Accepted, text, p, e, members, j) && depth + Nesting(members[j].value) <= NESTING_LIMIT
    decreases |text| - k, 0
  {
    AcceptsName(text, p, k, c, members[j].name);
    AcceptsElement(text, c + 1, c, depth, members[j].value, a, s);
    MemberJoins(Accepted, text, p, c, SkipBlanks(text, c + 1), a, s, members, j, e);
  }

  // The first of the members that were read: its colon at c and its value behind it, and what was read after it.
  lemma MemberRead(text: Bytes, k: nat, depth: int, members: seq<Member>, j: nat, e: nat) returns (c: nat, a: nat, s: nat)
    requires k < |text| && j < |members| && ParseMembers(text, k, depth) == Parsed(members[j..], e)
    ensures k + 1 < |text| && ParseName(text, k) == Parsed(members[j].name, c) && k < c < |text|
    ensures ParseValue(text, SkipBlanks(text, c + 1), depth) == Parsed(members[j].value, a) && a <= |text| && s == SkipBlanks(text, a)
    ensures Follows(text, s, e, j + 1 == |members|, CLOSE_BRACE) && k < s < |text|
    ensures j + 1 < |members| ==> ParseMembers(text, s, depth) == Parsed(members[j + 1..], e)
  {
    assert members[j..] == [members[j]] + members[j + 1..];
    match ParseMember(text, k, depth)
    case Parsed(member, next) =>
      s := next;
      if Has(text, s, COMMA) {
        HeadsAndTails(member, ParseMembers(text, s, depth).value, members[j], members[j + 1..]);
      } else {
        HeadsAndTails(member, [], members[j], members[j + 1..]);
        assert [member] + [] == [member];
      }
      c, a := MemberParts(text, k, depth, member, s);
  }

  lemma MemberParts(text: Bytes, k: nat, depth: int, member: Member, s: nat) returns (c: nat, a: nat)
    requires k < |text| && ParseMember(text, k, depth) == Parsed(member, s)
    ensures k + 1 < |text| && ParseName(text, k) == Parsed(member.name, c) && k < c < |text|
    ensures ParseValue(text, SkipBlanks(text, c + 1), depth) == Parsed(member.value, a) && c < a <= |text| && s == SkipBlanks(text, a)
  {
    match ParseName(text, k)
    case Parsed(_, colon) =>
      match ParseValue(text, SkipBlanks(text, colon + 1), depth)
      case Parsed(_, after) => c, a := colon, after;
  }

  lemma AcceptsName(text: Bytes, p: nat, k: nat, c: nat, name: Bytes)
    requires k + 1 < |text| && Blank(text, p, k + 1) && ParseName(text, k) == Parsed(name, c)
    ensures NameAt(Accepted, text, p, c, name)
  {
    var n := SkipBlanks(text, k + 1);
    SkipsBlanks(text, k + 1);
    BlankJoin(text, p, k + 1, n);
    var m := ParseString(text, n).next;
    SkipsBlanks(text, m);
    assert LiteralAt(Accepted, text, n, m, name);
  }

  // What parse_value accepts is exactly the grammar, nested at most to the limit.
  lemma AcceptsExactly(text: Bytes, i: nat, depth: int, t: Json, e: nat)
    requires i <= |text| && depth <= NESTING_LIMIT
    ensures ParseValue(text, i, depth) == Parsed(t, e) <==>
      ValueAt(Accepted, text, i, e, t) && depth + Nesting(t) <= 1000
  {
    if ParseValue(text, i, depth) == Parsed(t, e) {
      AcceptsValue(text, i, depth, t, e);
    }
    if ValueAt(Accepted, text, i, e, t) {
      ParsesValue(Accepted, text, i, e, t, depth);
    }
  }

  // The literals and numerals of that grammar, apart from the functions that read them.

  lemma AcceptedLiterals(text: Bytes, i: nat, e: nat, s: Bytes)
    ensures LiteralAt(Accepted, text, i, e, s) <==> LooseStringAt(text, i, e, s)
  {
    if i < |text| {
      StringIsLoose(text, i, e, s);
    }
  }

  lemma AcceptedNumerals(text: Bytes, i: nat, e: nat, v: real)
    ensures NumeralAt(Accepted, text, i, e, v) <==>
      i < |text| && StartsNumber(text[i]) && LongestAt(text, i, e, WindowEnd(text, i, i + 63), v)
  {
    if i < |text| {
      NumberExactly(text, i, v, e);
    }
  }
}
