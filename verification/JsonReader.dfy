// The parser of cJSON as it runs: a buffer whose offset and depth move and items that are linked and filled,
// proved against the functions on positions.
module JsonReader {
  import opened Bits
  import opened ByteStrings
  import opened JsonData
  import opened JsonNumber
  import opened JsonString
  import opened StringDecoder
  import opened NodeLists
  import opened NodeTrees
  import opened NodeValues
  import opened NodeChains
  import Spec = JsonParser

  // parse_buffer
  class ParseBuffer {
    const content: Bytes
    var offset: nat
    var depth: nat

    ghost predicate Valid()
      reads this
    {
      offset <= |content|
    }

    constructor (content: Bytes, offset: nat)
      requires offset <= |content|
      ensures Valid() && this.content == content && this.offset == offset && depth == 0
    {
      this.content := content;
      this.offset := offset;
      depth := 0;
    }

    // The result and the new state are what the parser function says, and on success the tree at the item
    // is in order and stands for the value; a failure leaves the offset somewhere in the buffer.
    ghost predicate Reads(ok: bool, item: Node, t: Tree, spec: Parsed<Json>, oldDepth: nat)
      reads this, All(t)
    {
      && Valid()
      && match spec
         case Rejected => !ok
         case Parsed(value, next) => ok && offset == next && depth == oldDepth && t.root == item && Holds(t, value)
    }

    // buffer_skip_whitespace
    method SkipWhitespace()
      requires Valid()
      modifies this`offset
      ensures Valid() && offset == Spec.SkipBlanks(content, old(offset))
    {
      if offset >= |content| {
        return;
      }
      while offset < |content| && content[offset] <= SPACE
        invariant old(offset) <= offset <= |content|
        invariant Spec.BlankEnd(content, old(offset)) == Spec.BlankEnd(content, offset)
        decreases |content| - offset
      {
        offset := offset + 1;
      }
      if offset == |content| {
        offset := offset - 1;
      }
    }

    // parse_number
    method ParseNumber(item: Node) returns (ok: bool)
      requires Valid() && item.child == null
      modifies this`offset, item`kind, item`valueDouble, item`valueInt
      ensures Reads(ok, item, Tree(item, []), JsonNumber.ParseNumber(content, old(offset)), old(depth))
    {
      var r, length := ReadNumber();
      match r
      case None => ok := false;
      case Some(number) =>
        SetNumber(item, number);
        ghost var t := Tree(item, []);
        assert Holds(t, Number(number)) && allocated(All(t));
        offset := offset + length;
        assert Holds(t, Number(number));
        ok := true;
    }

    // The bytes of a number go through a buffer of 64 to strtod.
    method ReadNumber() returns (r: Option<real>, length: nat)
      requires Valid()
      ensures r.Some? ==> offset + length <= |content|
      ensures JsonNumber.ParseNumber(content, offset) == match r
        case None => Rejected
        case Some(number) => Parsed(Number(number), offset + length)
    {
      var numberCString := new byte[64];
      length := 0;
      while length < 63 && offset + length < |content| && IsNumberByte(content[offset + length])
        invariant 0 <= length <= 63 && offset + length <= |content|
        invariant WindowEnd(content, offset, offset + WINDOW) == WindowEnd(content, offset + length, offset + WINDOW)
        invariant At(content, offset, numberCString[..length])
        decreases 63 - length
      {
        numberCString[length] := content[offset + length];
        length := length + 1;
      }
      numberCString[length] := 0;
      ghost var window := numberCString[..length];
      NumberOfWindow(content, offset, window);
      match Strtod(numberCString[..length], 0, length)
      case Rejected => r := None;
      case Parsed(number, afterEnd) => r, length := Some(number), afterEnd;
    }

    // parse_string: a first pass finds the closing quote and the size, a second pass decodes.
    method ParseString(item: Node) returns (ok: bool)
      requires offset < |content|
      modifies this`offset, item`kind, item`valueString
      ensures Valid()
      ensures match JsonString.ParseString(content, old(offset))
        case Rejected => !ok
        case Parsed(text, next) => ok && offset == next && item.kind == StringKind && item.valueString == Some(text)
    {
      ok := false;
      var start := offset + 1;
      if content[offset] != QUOTE {
        offset := start;
        return;
      }
      var inputEnd, skippedBytes := start, 0;
      while inputEnd < |content| && content[inputEnd] != QUOTE
        invariant start <= inputEnd <= |content| && offset + 1 == start && offset == old(offset)
        invariant FindClose(content, start) == FindClose(content, inputEnd)
        invariant skippedBytes <= inputEnd - start
        invariant FindClose(content, start).Some? ==>
          var e := FindClose(content, start).value;
          Steps(content, start, e) == inputEnd - start - skippedBytes + Steps(content, inputEnd, e)
        decreases |content| - inputEnd
      {
        if content[inputEnd] == BACKSLASH {
          if inputEnd + 1 >= |content| {
            offset := start;
            return;
          }
          skippedBytes := skippedBytes + 1;
          inputEnd := inputEnd + 1;
        }
        inputEnd := inputEnd + 1;
      }
      if inputEnd >= |content| {
        offset := start;
        return;
      }
      var allocationLength := inputEnd - offset - skippedBytes;
      var output := new byte[allocationLength + 1];
      var decoded, count, inputPointer := DecodeInto(content, start, inputEnd, output);
      if decoded {
        item.kind := StringKind;
        item.valueString := Some(CString(output[..count]));
        offset := inputEnd + 1;
        ok := true;
      } else {
        offset := inputPointer;
      }
    }

    // parse_value
    method ParseValue(item: Node) returns (ok: bool, ghost t: Tree)
      requires Valid() && item.child == null
      modifies this`offset, this`depth, item`kind, item`valueDouble, item`valueInt, item`valueString, item`child
      ensures Reads(ok, item, t, Spec.ParseValue(content, old(offset), old(depth)), old(depth))
      ensures ok ==> fresh(Below(t.kids))
      decreases |content| - offset, 5
    {
      ok, t := true, Tree(item, []);
      if Spec.NullAt(content, offset) {
        SetKind(item, NullKind);
        offset := offset + 4;
      } else if Spec.FalseAt(content, offset) {
        SetKind(item, FalseKind);
        offset := offset + 5;
      } else if Spec.TrueAt(content, offset) {
        SetKind(item, TrueKind);
        offset := offset + 4;
      } else if offset < |content| && content[offset] == QUOTE {
        ok := ParseString(item);
        LeafHolds(item);
      } else if offset < |content| && (content[offset] == MINUS || IsDigit(content[offset])) {
        ok := ParseNumber(item);
      } else if offset < |content| && content[offset] == OPEN_BRACKET {
        ok, t := ParseArray(item);
      } else if offset < |content| && content[offset] == OPEN_BRACE {
        ok, t := ParseObject(item);
      } else {
        ok := false;
      }
    }

    // parse_array
    method ParseArray(item: Node) returns (ok: bool, ghost t: Tree)
      requires Spec.Has(content, offset, OPEN_BRACKET)
      modifies this`offset, this`depth, item`kind, item`child
      ensures Reads(ok, item, t, Spec.ParseArray(content, old(offset), old(depth)), old(depth))
      ensures ok ==> fresh(Below(t.kids))
      decreases |content| - offset, 4
    {
      t := Tree(item, []);
      var head, current;
      ghost var done, items;
      ok, head, current, done, items := ParseArrayList(Spec.ParseArray(content, offset, depth));
      if ok {
        depth := depth - 1;
        offset := offset + 1;
        CloseArray(item, head, current, done, items);
        t := Tree(item, done);
      }
    }

    // Everything before its closing byte, one level deeper.
    method ParseArrayList(ghost spec: Parsed<Json>) returns (ok: bool, head: Node?, current: Node?, ghost done: seq<Tree>, ghost items: seq<Json>)
      requires Spec.Has(content, offset, OPEN_BRACKET)
      requires spec == Spec.ParseArray(content, offset, depth)
      modifies this`offset, this`depth
      ensures Valid()
      ensures match spec
        case Rejected => !ok
        case Parsed(value, next) => ok && value == Array(items) && offset + 1 == next && depth == old(depth) + 1
      ensures ok ==> ItemChain(head, current, done, items)
      ensures ok ==> fresh(Below(done)) && fresh(If(head))
      decreases |content| - offset, 3
    {
      ok, head, current, done, items := false, null, null, [], [];
      if depth >= NESTING_LIMIT {
        return;
      }
      depth := depth + 1;
      offset := offset + 1;
      SkipWhitespace();
      if offset < |content| && content[offset] == CLOSE_BRACKET {
        ok := true;
        return;
      }
      if offset >= |content| {
        offset := offset - 1;
        return;
      }
      offset := offset - 1;
      ArrayAfter(content, old(offset), old(depth), offset, spec, Spec.ParseItems(content, offset, depth));
      ok, head, current, done, items := ParseItems();
    }

    // The loop of parse_array; it stops at the closing bracket.
    method ParseItems() returns (ok: bool, head: Node?, current: Node?, ghost done: seq<Tree>, ghost items: seq<Json>)
      requires offset < |content|
      modifies this`offset, this`depth
      ensures Valid()
      ensures match Spec.ParseItems(content, old(offset), old(depth))
        case Rejected => !ok
        case Parsed(values, next) => ok && items == values && offset + 1 == next && depth == old(depth)
      ensures ok ==> ItemChain(head, current, done, items)
      ensures ok ==> fresh(Below(done)) && fresh(If(head))
      decreases |content| - offset, 2
    {
      ok, head, current, done, items := false, null, null, [], [];
      var more := true;
      ghost var level := depth;
      ghost var whole := Spec.ParseItems(content, offset, level);
      PrefixNothing(whole);
      while more
        invariant Valid() && depth == level && old(offset) <= offset
        invariant ItemChain(head, current, done, items)
        invariant fresh(Below(done)) && fresh(If(head)) && fresh(If(current))
        invariant more ==> offset < |content| && whole == Prefix(items, Spec.ParseItems(content, offset, level))
        invariant !more ==> whole == Closed(items, offset, Spec.Has(content, offset, CLOSE_BRACKET))
        decreases |content| - offset, more
      {
        ghost var k := offset;
        ghost var t, value;
        ok, head, current, t, value := ParseNextItem(head, current, done, items, Spec.ParseElement(content, k, level));
        if !ok {
          ItemsFail(content, k, level);
          return;
        }
        ItemsGoOn(content, k, level, items, value, offset, whole);
        more := offset < |content| && content[offset] == COMMA;
        done, items := done + [t], items + [value];
      }
      ok := offset < |content| && content[offset] == CLOSE_BRACKET;
    }

    // One round of that loop: a new item is linked, then it is filled.
    method ParseNextItem(head: Node?, current: Node?, ghost done: seq<Tree>, ghost items: seq<Json>, ghost spec: Parsed<Json>)
        returns (ok: bool, first: Node, newItem: Node, ghost t: Tree, ghost value: Json)
      requires offset < |content| && ItemChain(head, current, done, items)
      requires spec == Spec.ParseElement(content, offset, depth)
      modifies this`offset, this`depth, If(current)`next
      ensures Valid()
      ensures match spec
        case Rejected => !ok
        case Parsed(v, next) => ok && value == v && offset == next && depth == old(depth)
      ensures ok ==> ItemChain(first, newItem, done + [t], items + [value]) && Below(done + [t]) == Below(done) + All(t)
      ensures ok ==> fresh(All(t)) && newItem in All(t) && (first == newItem || first == head)
      decreases |content| - offset, 1, 1
    {
      assert allocated(Below(done));
      first, newItem := AddNew(head, current, done);
      assert AreItems(done, items);
      ok, t, value := FillItem(first, newItem, done, items, spec);
    }

    method FillItem(ghost first: Node, newItem: Node, ghost done: seq<Tree>, ghost items: seq<Json>, ghost spec: Parsed<Json>)
        returns (ok: bool, ghost t: Tree, ghost value: Json)
      requires offset < |content| && Open(done, newItem) && AreItems(done, items) && newItem.child == null
      requires first == if done == [] then newItem else ChildOf(done, 0)
      requires spec == Spec.ParseElement(content, offset, depth)
      modifies this`offset, this`depth, newItem`kind, newItem`valueDouble, newItem`valueInt, newItem`valueString, newItem`child
      ensures Valid()
      ensures match spec
        case Rejected => !ok
        case Parsed(v, next) => ok && value == v && offset == next && depth == old(depth)
      ensures ok ==> ItemChain(first, newItem, done + [t], items + [value]) && Below(done + [t]) == Below(done) + All(t)
      ensures ok ==> t.root == newItem && fresh(Below(t.kids))
      decreases |content| - offset, 1, 0
    {
      assert allocated(Below(done));
      value := Null;
      ok, t := ParseElement(newItem);
      if ok {
        value := Value(t);
        assert Open(done, newItem) && AreItems(done, items);
        OneMoreItem(first, done, items, t, value);
      }
    }

    // A value with the blanks around it, after the byte at the offset.
    method ParseElement(item: Node) returns (ok: bool, ghost t: Tree)
      requires offset < |content| && item.child == null
      modifies this`offset, this`depth, item`kind, item`valueDouble, item`valueInt, item`valueString, item`child
      ensures Reads(ok, item, t, Spec.ParseElement(content, old(offset), old(depth)), old(depth))
      ensures ok ==> fresh(Below(t.kids))
      decreases |content| - offset, 0
    {
      offset := offset + 1;
      SkipWhitespace();
      ok, t := ParseValue(item);
      if ok {
        ghost var value := Value(t);
        assert Holds(t, value) && allocated(All(t));
        SkipWhitespace();
        assert Holds(t, value);
      }
    }

    // parse_object
    method ParseObject(item: Node) returns (ok: bool, ghost t: Tree)
      requires Spec.Has(content, offset, OPEN_BRACE)
      modifies this`offset, this`depth, item`kind, item`child
      ensures Reads(ok, item, t, Spec.ParseObject(content, old(offset), old(depth)), old(depth))
      ensures ok ==> fresh(Below(t.kids))
      decreases |content| - offset, 4
    {
      t := Tree(item, []);
      var head, current;
      ghost var done, members;
      ok, head, current, done, members := ParseObjectList(Spec.ParseObject(content, offset, depth));
      if ok {
        depth := depth - 1;
        offset := offset + 1;
        CloseObject(item, head, current, done, members);
        t := Tree(item, done);
      }
    }

    // Everything before its closing byte, one level deeper.
    method ParseObjectList(ghost spec: Parsed<Json>) returns (ok: bool, head: Node?, current: Node?, ghost done: seq<Tree>, ghost members: seq<Member>)
      requires Spec.Has(content, offset, OPEN_BRACE)
      requires spec == Spec.ParseObject(content, offset, depth)
      modifies this`offset, this`depth
      ensures Valid()
      ensures match spec
        case Rejected => !ok
        case Parsed(value, next) => ok && value == Object(members) && offset + 1 == next && depth == old(depth) + 1
      ensures ok ==> MemberChain(head, current, done, members)
      ensures ok ==> fresh(Below(done)) && fresh(If(head))
      decreases |content| - offset, 3
    {
      ok, head, current, done, members := false, null, null, [], [];
      if depth >= NESTING_LIMIT {
        return;
      }
      depth := depth + 1;
      offset := offset + 1;
      SkipWhitespace();
      if offset < |content| && content[offset] == CLOSE_BRACE {
        ok := true;
        return;
      }
      if offset >= |content| {
        offset := offset - 1;
        return;
      }
      offset := offset - 1;
      ObjectAfter(content, old(offset), old(depth), offset, spec, Spec.ParseMembers(content, offset, depth));
      ok, head, current, done, members := ParseMembers();
    }

    // The loop of parse_object; it stops at the closing brace.
    method ParseMembers() returns (ok: bool, head: Node?, current: Node?, ghost done: seq<Tree>, ghost members: seq<Member>)
      requires offset < |content|
      modifies this`offset, this`depth
      ensures Valid()
      ensures match Spec.ParseMembers(content, old(offset), old(depth))
        case Rejected => !ok
        case Parsed(values, next) => ok && members == values && offset + 1 == next && depth == old(depth)
      ensures ok ==> MemberChain(head, current, done, members)
      ensures ok ==> fresh(Below(done)) && fresh(If(head))
      decreases |content| - offset, 2
    {
      ok, head, current, done, members := false, null, null, [], [];
      var more := true;
      ghost var level := depth;
      ghost var whole := Spec.ParseMembers(content, offset, level);
      PrefixNothing(whole);
      while more
        invariant Valid() && depth == level && old(offset) <= offset
        invariant MemberChain(head, current, done, members)
        invariant fresh(Below(done)) && fresh(If(head)) && fresh(If(current))
        invariant more ==> offset < |content| && whole == Prefix(members, Spec.ParseMembers(content, offset, level))
        invariant !more ==> whole == Closed(members, offset, Spec.Has(content, offset, CLOSE_BRACE))
        decreases |content| - offset, more
      {
        ghost var k := offset;
        ghost var t, member;
        ok, head, current, t, member := ParseNextMember(head, current, done, members, Spec.ParseMember(content, k, level));
        if !ok {
          MembersFail(content, k, level);
          return;
        }
        MembersGoOn(content, k, level, members, member, offset, whole);
        more := offset < |content| && content[offset] == COMMA;
        done, members := done + [t], members + [member];
      }
      ok := offset < |content| && content[offset] == CLOSE_BRACE;
    }

    // One round of that loop: a new item is linked, then it gets its key and its value.
    method ParseNextMember(head: Node?, current: Node?, ghost done: seq<Tree>, ghost members: seq<Member>, ghost spec: Parsed<Member>)
        returns (ok: bool, first: Node, newItem: Node, ghost t: Tree, ghost member: Member)
      requires offset < |content| && MemberChain(head, current, done, members)
      requires spec == Spec.ParseMember(content, offset, depth)
      modifies this`offset, this`depth, If(current)`next
      ensures Valid()
      ensures match spec
        case Rejected => !ok
        case Parsed(m, next) => ok && member == m && offset == next && depth == old(depth)
      ensures ok ==> MemberChain(first, newItem, done + [t], members + [member]) && Below(done + [t]) == Below(done) + All(t)
      ensures ok ==> fresh(All(t)) && newItem in All(t) && (first == newItem || first == head)
      decreases |content| - offset, 1, 1
    {
      assert allocated(Below(done));
      first, newItem := AddNew(head, current, done);
      assert AreMembers(done, members);
      ok, t, member := FillMember(first, newItem, done, members, spec);
    }

    method FillMember(ghost first: Node, newItem: Node, ghost done: seq<Tree>, ghost members: seq<Member>, ghost spec: Parsed<Member>)
        returns (ok: bool, ghost t: Tree, ghost member: Member)
      requires offset < |content| && Open(done, newItem) && AreMembers(done, members) && newItem.child == null
      requires first == if done == [] then newItem else ChildOf(done, 0)
      requires spec == Spec.ParseMember(content, offset, depth)
      modifies this`offset, this`depth, newItem`kind, newItem`valueDouble, newItem`valueInt, newItem`valueString, newItem`child, newItem`key
      ensures Valid()
      ensures match spec
        case Rejected => !ok
        case Parsed(m, next) => ok && member == m && offset == next && depth == old(depth)
      ensures ok ==> MemberChain(first, newItem, done + [t], members + [member]) && Below(done + [t]) == Below(done) + All(t)
      ensures ok ==> t.root == newItem && fresh(Below(t.kids))
      decreases |content| - offset, 1, 0
    {
      assert allocated(Below(done));
      member := Member([], Null);
      ok, t := ParseMember(newItem);
      if ok {
        member := Member(newItem.key.value, Value(t));
        assert Open(done, newItem) && AreMembers(done, members);
        OneMoreMember(first, done, members, t, member);
      }
    }

    // A name, a colon and a value; the name is read as the item's string and then becomes its key.
    method ParseMember(item: Node) returns (ok: bool, ghost t: Tree)
      requires offset < |content| && item.child == null
      modifies this`offset, this`depth, item`kind, item`valueDouble, item`valueInt, item`valueString, item`child, item`key
      ensures Valid()
      ensures match Spec.ParseMember(content, old(offset), old(depth))
        case Rejected => !ok
        case Parsed(m, next) =>
          && ok && offset == next && depth == old(depth) && t.root == item
          && item.key == Some(m.name) && Holds(t, m.value)
      ensures ok ==> fresh(Below(t.kids))
      decreases |content| - offset, 0
    {
      ok, t := false, Tree(item, []);
      if offset + 1 >= |content| {
        return;
      }
      offset := offset + 1;
      SkipWhitespace();
      ok := ParseString(item);
      if !ok {
        return;
      }
      SkipWhitespace();
      item.key := item.valueString;
      item.valueString := None;
      if offset >= |content| || content[offset] != COLON {
        ok := false;
        return;
      }
      ok, t := ParseElement(item);
    }
  }

  // An item without children gets its type, or its number.

  method SetKind(item: Node, kind: Kind)
    requires item.child == null && (kind == NullKind || kind == FalseKind || kind == TrueKind)
    modifies item`kind, item`valueInt
    ensures Holds(Tree(item, []), match kind case NullKind => Null case FalseKind => False case _ => True)
  {
    item.kind := kind;
    if kind == TrueKind {
      item.valueInt := 1;
    }
    LeafHolds(item);
  }

  method SetNumber(item: Node, number: real)
    requires item.child == null
    modifies item`kind, item`valueDouble, item`valueInt
    ensures Holds(Tree(item, []), Number(number))
  {
    item.valueDouble := number;
    item.valueInt := ToInt(number);
    item.kind := NumberKind;
    LeafHolds(item);
  }

  lemma ArrayAfter(content: Bytes, i: nat, depth: int, k: nat, spec: Parsed<Json>, list: Parsed<seq<Json>>)
    requires Spec.Has(content, i, OPEN_BRACKET) && depth < NESTING_LIMIT && spec == Spec.ParseArray(content, i, depth)
    requires k + 1 < |content| && k + 1 == Spec.SkipBlanks(content, i + 1) && content[k + 1] != CLOSE_BRACKET
    requires list == Spec.ParseItems(content, k, depth + 1)
    ensures spec == match list case Rejected => Rejected case Parsed(items, next) => Parsed(Array(items), next)
  {
  }

  lemma ObjectAfter(content: Bytes, i: nat, depth: int, k: nat, spec: Parsed<Json>, list: Parsed<seq<Member>>)
    requires Spec.Has(content, i, OPEN_BRACE) && depth < NESTING_LIMIT && spec == Spec.ParseObject(content, i, depth)
    requires k + 1 < |content| && k + 1 == Spec.SkipBlanks(content, i + 1) && content[k + 1] != CLOSE_BRACE
    requires list == Spec.ParseMembers(content, k, depth + 1)
    ensures spec == match list case Rejected => Rejected case Parsed(members, next) => Parsed(Object(members), next)
  {
  }

  // Parts already read followed by what reading the rest gives.
  ghost function Prefix<T>(done: seq<T>, rest: Parsed<seq<T>>): Parsed<seq<T>> {
    match rest
    case Rejected => Rejected
    case Parsed(xs, next) => Parsed(done + xs, next)
  }

  // The outcome when no comma stands at s.
  ghost function Closed<T>(done: seq<T>, s: nat, closes: bool): Parsed<seq<T>> {
    if closes then Parsed(done, s + 1) else Rejected
  }

  lemma PrefixNothing<T>(rest: Parsed<seq<T>>)
    ensures Prefix([], rest) == rest
  {
    if rest.Parsed? {
      assert [] + rest.value == rest.value;
    }
  }

  lemma PrefixTwice<T>(done: seq<T>, x: T, rest: Parsed<seq<T>>)
    ensures Prefix(done, Prefix([x], rest)) == Prefix(done + [x], rest)
  {
    if rest.Parsed? {
      assert done + ([x] + rest.value) == done + [x] + rest.value;
    }
  }

  lemma ItemsFail(content: Bytes, k: nat, depth: int)
    requires k < |content| && Spec.ParseElement(content, k, depth) == Rejected
    ensures Spec.ParseItems(content, k, depth) == Rejected
  {
  }

  lemma ItemsStep(content: Bytes, k: nat, depth: int, x: Json, s: nat)
    requires k < |content| && Spec.ParseElement(content, k, depth) == Parsed(x, s)
    ensures Spec.Has(content, s, COMMA) ==>
      Spec.ParseItems(content, k, depth) == Prefix([x], Spec.ParseItems(content, s, depth))
    ensures !Spec.Has(content, s, COMMA) ==>
      Spec.ParseItems(content, k, depth) == Closed([x], s, Spec.Has(content, s, CLOSE_BRACKET))
  {
  }

  // One more has been read behind those in front of it.
  lemma ItemsGoOn(content: Bytes, k: nat, depth: int, done: seq<Json>, x: Json, s: nat, whole: Parsed<seq<Json>>)
    requires k < |content| && Spec.ParseElement(content, k, depth) == Parsed(x, s) && whole == Prefix(done, Spec.ParseItems(content, k, depth))
    ensures Spec.Has(content, s, COMMA) ==> whole == Prefix(done + [x], Spec.ParseItems(content, s, depth))
    ensures !Spec.Has(content, s, COMMA) ==> whole == Closed(done + [x], s, Spec.Has(content, s, CLOSE_BRACKET))
  {
    ItemsStep(content, k, depth, x, s);
    if Spec.Has(content, s, COMMA) {
      PrefixTwice(done, x, Spec.ParseItems(content, s, depth));
    }
  }

  lemma MembersFail(content: Bytes, k: nat, depth: int)
    requires k < |content| && Spec.ParseMember(content, k, depth) == Rejected
    ensures Spec.ParseMembers(content, k, depth) == Rejected
  {
  }

  lemma MembersStep(content: Bytes, k: nat, depth: int, x: Member, s: nat)
    requires k < |content| && Spec.ParseMember(content, k, depth) == Parsed(x, s)
    ensures Spec.Has(content, s, COMMA) ==>
      Spec.ParseMembers(content, k, depth) == Prefix([x], Spec.ParseMembers(content, s, depth))
    ensures !Spec.Has(content, s, COMMA) ==>
      Spec.ParseMembers(content, k, depth) == Closed([x], s, Spec.Has(content, s, CLOSE_BRACE))
  {
  }

  // One more has been read behind those in front of it.
  lemma MembersGoOn(content: Bytes, k: nat, depth: int, done: seq<Member>, x: Member, s: nat, whole: Parsed<seq<Member>>)
    requires k < |content| && Spec.ParseMember(content, k, depth) == Parsed(x, s) && whole == Prefix(done, Spec.ParseMembers(content, k, depth))
    ensures Spec.Has(content, s, COMMA) ==> whole == Prefix(done + [x], Spec.ParseMembers(content, s, depth))
    ensures !Spec.Has(content, s, COMMA) ==> whole == Closed(done + [x], s, Spec.Has(content, s, CLOSE_BRACE))
  {
    MembersStep(content, k, depth, x, s);
    if Spec.Has(content, s, COMMA) {
      PrefixTwice(done, x, Spec.ParseMembers(content, s, depth));
    }
  }

  // cJSON_ParseWithLengthOpts: the item for the text, made of new items only, and where reading stopped; for a
  // rejected text the position of the error, which is inside the text.
  method ParseWithLengthOpts(text: Bytes, requireTerminator: bool) returns (item: Node?, end: nat, ghost t: Tree)
    ensures match Spec.ParseWithLength(text, requireTerminator)
      case Rejected => item == null && (if text == [] then end == 0 else end < |text|)
      case Parsed(value, next) => item == t.root && end == next && Holds(t, value) && Unlinked(t.root)
    ensures item != null ==> fresh(All(t))
  {
    var root := new Node(InvalidKind);
    item, end, t := null, 0, Tree(root, []);
    if text == [] {
      return;
    }
    var ok, offset;
    ok, offset, t := ReadText(text, requireTerminator, root, Spec.ParseWithLength(text, requireTerminator));
    if ok {
      item, end := root, offset;
    } else {
      end := if offset < |text| then offset else |text| - 1;
    }
  }

  // Its steps with the buffer, up to the terminator if that is required.
  method ReadText(text: Bytes, requireTerminator: bool, root: Node, ghost spec: Parsed<Json>) returns (ok: bool, offset: nat, ghost t: Tree)
    requires text != [] && root.child == null && spec == Spec.ParseWithLength(text, requireTerminator)
    modifies root`kind, root`valueDouble, root`valueInt, root`valueString, root`child
    ensures match spec
      case Rejected => !ok
      case Parsed(value, next) => ok && offset == next && t.root == root && Holds(t, value)
    ensures ok ==> fresh(Below(t.kids))
  {
    var buffer := new ParseBuffer(text, Spec.SkipBom(text));
    buffer.SkipWhitespace();
    ok, t := buffer.ParseValue(root);
    if ok && requireTerminator {
      ghost var value := Value(t);
      ghost var held := Holds(t, value);
      assert allocated(All(t));
      buffer.SkipWhitespace();
      assert held == Holds(t, value);
      ok := buffer.offset < |text| && text[buffer.offset] == 0;
    }
    offset := buffer.offset;
  }
}
