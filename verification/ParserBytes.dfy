// What the parser skips and how deeply it goes, with the bytes and numbers spelled out.
module ParserBytes {
  import opened Bits
  import opened ByteStrings
  import opened JsonData
  import opened JsonNumber
  import opened JsonParser
  import opened JsonGrammar
  import opened JsonRender
  import opened JsonRoundTrip

  // Bytes up to 32 are skipped, up to the first other byte or the last byte of the text.
  lemma {:induction false} BlankEndIs(text: Bytes, i: nat)
    requires i <= |text|
    ensures var e := BlankEnd(text, i); (forall k :: i <= k < e ==> text[k] <= 32) && (e < |text| ==> text[e] > 32)
    decreases |text| - i
  {
    if i < |text| && text[i] <= 32 {
      BlankEndIs(text, i + 1);
    }
  }

  lemma SkipsTo(text: Bytes, i: nat)
    requires i < |text|
    ensures var r := SkipBlanks(text, i);
      && i <= r < |text| && (forall k :: i <= k < r ==> text[k] <= 32) && (text[r] > 32 || r == |text| - 1)
  {
    BlankEndIs(text, i);
  }

  // The three bytes of the byte order mark are skipped if two more bytes are there.
  lemma MarkSkipped(text: Bytes)
    ensures SkipBom(text) == if |text| >= 5 && text[0] == 0xEF && text[1] == 0xBB && text[2] == 0xBF then 3 else 0
  {
    if |text| >= 5 {
      assert text[..3] == [text[0], text[1], text[2]];
    }
  }

  // Arrays and objects in one another, each with one part in it; true stands for an object, whose key is empty.
  datatype Levels = Innermost(object_: bool) | Around(object_: bool, inner: Levels)

  function Count(x: Levels): nat {
    match x
    case Innermost(_) => 1
    case Around(_, inner) => 1 + Count(inner)
  }

  function TreeOf(x: Levels): Json {
    match x
    case Innermost(object_) => if object_ then Object([]) else Array([])
    case Around(object_, inner) => if object_ then Object([Member([], TreeOf(inner))]) else Array([TreeOf(inner)])
  }

  function TextOf(x: Levels): Bytes {
    match x
    case Innermost(object_) => if object_ then [123, 125] else [91, 93]
    case Around(object_, inner) => if object_ then [123, 34, 34, 58] + TextOf(inner) + [125] else [91] + TextOf(inner) + [93]
  }

  lemma {:induction false} LevelsPrint(x: Levels, depth: nat)
    ensures Printable(TreeOf(x)) && Nesting(TreeOf(x)) == Count(x)
    ensures Render(TreeOf(x), false, depth) == TextOf(x)
    decreases x
  {
    match x
    case Innermost(object_) =>
      EmptyPrint(depth);
    case Around(object_, inner) =>
      LevelsPrint(inner, depth + 1);
      if object_ {
        OneMember(TreeOf(inner), depth);
      } else {
        OneItem(TreeOf(inner), depth);
      }
  }

  lemma EmptyPrint(depth: nat)
    ensures Render(Array([]), false, depth) == [91, 93] && Render(Object([]), false, depth) == [123, 125]
    ensures Nesting(Array([])) == 1 && Nesting(Object([])) == 1
  {
    assert RenderItems([], 0, false, depth + 1) == [93];
    assert RenderMembers([], 0, false, depth + 1) == [125];
  }

  lemma OneItem(t: Json, depth: nat)
    requires Printable(t)
    ensures Render(Array([t]), false, depth) == [91] + Render(t, false, depth + 1) + [93]
    ensures Nesting(Array([t])) == 1 + Nesting(t) && Printable(Array([t]))
  {
    var r := Render(t, false, depth + 1);
    assert ItemsNesting([t], 1) == 0 && PrintableItems([t], 1);
    assert RenderItems([t], 1, false, depth + 1) == [93];
    assert RenderItems([t], 0, false, depth + 1) == r + [] + [93];
    Around3([91], r, [], [93]);
  }

  lemma OneMember(t: Json, depth: nat)
    requires Printable(t)
    ensures Render(Object([Member([], t)]), false, depth) == [123, 34, 34, 58] + Render(t, false, depth + 1) + [125]
    ensures Nesting(Object([Member([], t)])) == 1 + Nesting(t) && Printable(Object([Member([], t)]))
  {
    var r, members := Render(t, false, depth + 1), [Member([], t)];
    assert MembersNesting(members, 1) == 0 && PrintableMembers(members, 1);
    assert RenderMembers(members, 1, false, depth + 1) == [125];
    assert RenderMember(members[0], false, depth + 1, false) == [34, 34, 58] + r;
    assert RenderMembers(members, 0, false, depth + 1) == ([34, 34, 58] + r) + [125];
    assert [123] + [] + (([34, 34, 58] + r) + [125]) == [123, 34, 34, 58] + r + [125];
  }

  lemma Around3(a: Bytes, b: Bytes, c: Bytes, d: Bytes)
    requires c == []
    ensures a + (b + c + d) == a + b + d
  {
  }

  // Such a text is accepted as its tree, to its end, exactly if there are at most 1000 levels.
  lemma NestedLevels(x: Levels)
    ensures ParseValue(TextOf(x), 0, 0) == if Count(x) <= 1000 then Parsed(TreeOf(x), |TextOf(x)|) else Rejected
  {
    LevelsPrint(x, 0);
    PrintParse(TreeOf(x), false, []);
    assert TextOf(x) + [] == TextOf(x);
  }
}
