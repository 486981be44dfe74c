// The printer of cJSON as it runs: a walk over a tree of items that fills a buffer, which grows or does not,
// proved against the text that Render gives, with the exact condition under which there is room for it.
module JsonPrinter {
  import opened Bits
  import opened ByteStrings
  import opened JsonData
  import opened JsonNumber
  import opened JsonString
  import opened JsonRender
  import opened NodeLists
  import opened NodeTrees
  import opened NodeValues

  // printbuffer
  class PrintBuffer {
    var buffer: array<byte>
    var length: nat
    var offset: nat
    var depth: nat
    const noalloc: bool
    const format: bool

    // What was written so far, without terminators; offset catches up with its end.
    ghost var text: Bytes
    // The first index behind the space that ensure reserved last; every write stays below it.
    ghost var limit: nat
    // The largest size the buffer can have.
    ghost const capacity: nat

    ghost predicate Valid()
      reads this, buffer
    {
      && limit <= length <= buffer.Length && length <= capacity <= INT_MAX
      && offset <= |text| && (|text| < length || (text == [] && length == 0))
      && At(buffer[..], 0, text) && NulFree(text)
      && (if noalloc then length == capacity else capacity == INT_MAX)
    }

    ghost predicate Terminated()
      requires Valid()
      reads this, buffer
    {
      length > 0 && buffer[|text|] == 0
    }

    constructor (buffer: array<byte>, length: nat, noalloc: bool, format: bool)
      requires length <= buffer.Length && length <= INT_MAX
      ensures Valid() && this.buffer == buffer && this.length == length && this.noalloc == noalloc && this.format == format
      ensures text == [] && offset == 0 && depth == 0 && capacity == if noalloc then length else INT_MAX
    {
      this.buffer, this.length, this.noalloc, this.format := buffer, length, noalloc, format;
      text, offset, depth, limit := [], 0, 0, 0;
      capacity := if noalloc then length else INT_MAX;
    }

    // ensure: room for needed bytes at offset and one more, in a larger buffer if need be.
    method Ensure(needed: nat) returns (ok: bool)
      requires Valid() && offset == |text|
      modifies this`buffer, this`length, this`limit
      ensures Valid() && (buffer == old(buffer) || (fresh(buffer) && !noalloc))
      ensures ok <==> offset + needed + 1 <= capacity
      ensures ok ==> limit == offset + needed < length
    {
      if length > 0 && offset >= length {
        return false;
      }
      if needed > INT_MAX {
        return false;
      }
      var total := needed + offset + 1;
      if total <= length {
        limit := offset + needed;
        return true;
      }
      if noalloc {
        return false;
      }
      var newsize;
      if total > INT_MAX / 2 {
        if total <= INT_MAX {
          newsize := INT_MAX;
        } else {
          return false;
        }
      } else {
        newsize := total * 2;
      }
      var newbuffer := new byte[newsize];
      forall k | 0 <= k < length {
        newbuffer[k] := buffer[k];
      }
      length, buffer, limit := newsize, newbuffer, offset + needed;
      return true;
    }

    // Bytes written one after the other at output[at..], where output is the pointer that ensure gave.
    method Put(at: nat, piece: Bytes)
      requires Valid() && offset + at == |text| && |text| + |piece| <= limit && limit < length && NulFree(piece)
      modifies buffer, this`text
      ensures Valid() && text == old(text) + piece
    {
      forall k | 0 <= k < |piece| {
        buffer[offset + at + k] := piece[k];
      }
      text := text + piece;
    }

    // output[at] = '\0'
    method Terminate(at: nat)
      requires Valid() && offset + at == |text| < limit
      modifies buffer
      ensures Valid() && Terminated()
    {
      buffer[offset + at] := 0;
    }

    method Advance(count: nat)
      requires Valid() && offset + count == |text|
      modifies this`offset
      ensures Valid() && offset == |text|
    {
      offset := offset + count;
    }

    // update_offset
    method UpdateOffset()
      requires Valid() && Terminated()
      modifies this`offset
      ensures Valid() && offset == |text|
    {
      var strlen := 0;
      while buffer[offset + strlen] != 0
        invariant offset + strlen <= |text| && offset == old(offset)
        decreases |text| - strlen
      {
        strlen := strlen + 1;
      }
      if offset + strlen < |text| {
        AtIndex(buffer[..], 0, text, offset + strlen);
      }
      offset := offset + strlen;
    }

    // A value has been written behind what was there before and is terminated.
    ghost predicate Printed(before: Bytes, piece: Bytes)
      reads this, buffer
    {
      Valid() && Terminated() && text == before + piece
    }

    // print_number for an integer: sprintf into a buffer of 26 bytes, copied from there.
    method PrintNumber(item: Node) returns (ok: bool)
      requires Valid() && offset == |text| && Integers(Number(item.valueDouble)) && item.valueInt == ToInt(item.valueDouble)
      modifies this`buffer, this`length, this`limit, this`offset, this`text, buffer
      ensures buffer == old(buffer) || (fresh(buffer) && !noalloc)
      ensures ok <==> old(offset) + |Decimal(item.valueDouble.Floor)| + 2 <= capacity
      ensures ok ==> Printed(old(text), Decimal(item.valueDouble.Floor)) && offset == |text|
    {
      var d := item.valueDouble;
      ghost var n := d.Floor;
      ToIntKeeps(n, d);
      assert d == item.valueInt as real;
      var numberBuffer := new byte[26];
      var length := SprintfInt(numberBuffer, item.valueInt);
      if length > numberBuffer.Length - 1 {
        return false;
      }
      ok := Ensure(length + 1);
      if ok {
        DecimalNulFree(n);
        Put(0, numberBuffer[..length]);
        Terminate(length);
        Advance(length);
      }
    }

    // print_string_ptr: a missing string is printed like an empty one.
    method PrintString(input: Option<Bytes>) returns (ok: bool)
      requires Valid() && offset == |text| && (input.Some? ==> NulFree(input.value))
      modifies this`buffer, this`length, this`limit, this`text, buffer
      ensures buffer == old(buffer) || (fresh(buffer) && !noalloc)
      ensures var s := if input.Some? then input.value else [];
        && (ok <==> offset + |Quoted(s)| + 2 <= capacity)
        && (ok ==> Printed(old(text), Quoted(s)))
    {
      if input == None {
        ok := PrintWord([QUOTE, QUOTE]);
        assert Quoted([]) == [QUOTE, QUOTE];
      } else {
        ok := PrintText(input.value);
      }
    }

    // The first loop counts what escaping adds, the second one writes.
    method PrintText(s: Bytes) returns (ok: bool)
      requires Valid() && offset == |text| && NulFree(s)
      modifies this`buffer, this`length, this`limit, this`text, buffer
      ensures buffer == old(buffer) || (fresh(buffer) && !noalloc)
      ensures ok <==> offset + |Quoted(s)| + 2 <= capacity
      ensures ok ==> Printed(old(text), Quoted(s))
    {
      var i, escapeCharacters := 0, 0;
      while i < |s|
        invariant 0 <= i <= |s|
        invariant |Escape(s, 0)| == i + escapeCharacters + |Escape(s, i)|
      {
        if ShortLetter(s[i]).Some? {
          escapeCharacters := escapeCharacters + 1;
        } else if s[i] < 32 {
          escapeCharacters := escapeCharacters + 5;
        }
        i := i + 1;
      }
      var outputLength := |s| + escapeCharacters;
      ok := Ensure(outputLength + 3);
      if ok {
        Put(0, [QUOTE]);
        if escapeCharacters == 0 {
          EscapeNothing(s, 0);
          Put(1, s);
        } else {
          EscapeInto(s, outputLength);
        }
        Put(outputLength + 1, [QUOTE]);
        Terminate(outputLength + 2);
        Regroup(old(text), [QUOTE], Escape(s, 0));
        Regroup(old(text), [QUOTE] + Escape(s, 0), [QUOTE]);
      }
    }

    // The loop of print_string_ptr that writes behind the opening quote.
    method EscapeInto(s: Bytes, outputLength: nat)
      requires Valid() && NulFree(s) && outputLength == |Escape(s, 0)|
      requires offset + 1 == |text| && offset + outputLength + 3 <= limit < length
      modifies this`text, buffer
      ensures Valid() && text == old(text) + Escape(s, 0)
    {
      var i, written := 0, 1;
      while i < |s|
        invariant 0 <= i <= |s| && Valid() && offset + written == |text|
        invariant text + Escape(s, i) == old(text) + Escape(s, 0)
      {
        Regroup(text, EscapeByte(s[i]), Escape(s, i + 1));
        var size := EscapeOne(s[i], written);
        written := written + size;
        i := i + 1;
      }
      assert text + [] == text;
    }

    // One round of that loop: sprintf also writes a terminator, which is written over later.
    method EscapeOne(c: byte, at: nat) returns (size: nat)
      requires Valid() && c != 0 && offset + at == |text| && |text| + |EscapeByte(c)| + 1 <= limit < length
      modifies this`text, buffer
      ensures Valid() && size == |EscapeByte(c)| && text == old(text) + EscapeByte(c)
    {
      if c > 31 && c != QUOTE && c != BACKSLASH {
        Put(at, [c]);
        return 1;
      }
      Put(at, [BACKSLASH]);
      var letter := ShortLetter(c);
      if letter.Some? {
        Put(at + 1, [letter.value]);
        return 2;
      }
      Put(at + 1, [LETTER_U] + Hex4Text(c));
      Terminate(at + 6);
      return 6;
    }

    // One of the words null, true and false.
    method PrintWord(word: Bytes) returns (ok: bool)
      requires Valid() && offset == |text| && NulFree(word)
      modifies this`buffer, this`length, this`limit, this`text, buffer
      ensures buffer == old(buffer) || (fresh(buffer) && !noalloc)
      ensures ok <==> offset + |word| + 2 <= capacity
      ensures ok ==> Printed(old(text), word)
    {
      ok := Ensure(|word| + 1);
      if ok {
        Put(0, word);
        Terminate(|word|);
      }
    }

    // A piece of punctuation without a terminator; offset moves behind it.
    method PrintPiece(piece: Bytes, needed: nat) returns (ok: bool)
      requires Valid() && offset == |text| && NulFree(piece) && |piece| <= needed
      modifies this`buffer, this`length, this`limit, this`text, this`offset, buffer
      ensures buffer == old(buffer) || (fresh(buffer) && !noalloc)
      ensures ok <==> |old(text)| + needed + 1 <= capacity
      ensures ok ==> Valid() && offset == |text| && text == old(text) + piece
    {
      ok := Ensure(needed);
      if ok {
        Put(0, piece);
        Advance(|piece|);
      }
    }

    // A separator is terminated at once; offset moves up to the terminator.
    method PrintSeparator(piece: Bytes) returns (ok: bool)
      requires Valid() && offset == |text| && NulFree(piece)
      modifies this`buffer, this`length, this`limit, this`text, this`offset, buffer
      ensures buffer == old(buffer) || (fresh(buffer) && !noalloc)
      ensures ok <==> |old(text)| + |piece| + 2 <= capacity
      ensures ok ==> Valid() && offset == |text| && text == old(text) + piece
    {
      ok := PrintWord(piece);
      if ok {
        Advance(|piece|);
      }
    }

    // The loops that indent a member or the closing brace.
    method PutTabs(count: nat)
      requires Valid() && offset == |text| && |text| + count <= limit < length
      modifies this`text, buffer
      ensures Valid() && text == old(text) + Tabs(count)
    {
      var i := 0;
      while i < count
        invariant 0 <= i <= count && Valid() && offset + i == |text|
        invariant text + Tabs(count - i) == old(text) + Tabs(count)
      {
        Regroup(text, [TAB], Tabs(count - i - 1));
        Put(i, [TAB]);
        i := i + 1;
      }
      assert text + [] == text;
    }

    // print_value succeeds exactly if the text, a terminator and one byte more fit.
    method PrintValue(item: Node, ghost t: Tree, ghost v: Json) returns (ok: bool)
      requires Valid() && offset == |text| && item == t.root && Holds(t, v) && Printable(v)
      modifies this`buffer, this`length, this`limit, this`text, this`offset, this`depth, buffer
      ensures buffer == old(buffer) || (fresh(buffer) && !noalloc)
      ensures ok <==> |old(text)| + |Render(v, format, old(depth))| + 2 <= capacity
      ensures ok ==> Printed(old(text), Render(v, format, old(depth))) && depth == old(depth)
      decreases t, 4
    {
      match item.kind
      case NullKind => ok := PrintWord(NULL_TEXT);
      case FalseKind => ok := PrintWord(FALSE_TEXT);
      case TrueKind => ok := PrintWord(TRUE_TEXT);
      case NumberKind => ok := PrintNumber(item);
      case StringKind => ok := PrintString(item.valueString);
      case ArrayKind => ok := PrintArray(item, t, v.items);
      case ObjectKind => ok := PrintObject(item, t, v.members);
      case InvalidKind => ok := false;
    }

    // print_array
    method PrintArray(item: Node, ghost t: Tree, ghost items: seq<Json>) returns (ok: bool)
      requires Valid() && offset == |text| && item == t.root && HasItems(t, items) && PrintableItems(items, 0)
      modifies this`buffer, this`length, this`limit, this`text, this`offset, this`depth, buffer
      ensures buffer == old(buffer) || (fresh(buffer) && !noalloc)
      ensures ok <==> |old(text)| + |Render(Array(items), format, old(depth))| + 2 <= capacity
      ensures ok ==> Printed(old(text), Render(Array(items), format, old(depth))) && depth == old(depth)
      decreases t, 3
    {
      ghost var rest;
      ok, rest := OpenArray(item, t, items, Render(Array(items), format, depth));
      if ok {
        ok := PrintWord([CLOSE_BRACKET]);
        depth := depth - 1;
      }
    }

    // Everything before its closing byte, one level deeper.
    method OpenArray(item: Node, ghost t: Tree, ghost items: seq<Json>, ghost whole: Bytes) returns (ok: bool, ghost rest: Bytes)
      requires Valid() && offset == |text| && item == t.root && HasItems(t, items) && PrintableItems(items, 0)
      requires whole == Render(Array(items), format, depth)
      modifies this`buffer, this`length, this`limit, this`text, this`offset, this`depth, buffer
      ensures buffer == old(buffer) || (fresh(buffer) && !noalloc)
      ensures !ok ==> |old(text)| + |whole| + 2 > capacity
      ensures ok ==> Valid() && offset == |text| && depth == old(depth) + 1
      ensures ok ==> rest == [CLOSE_BRACKET] && text + rest == old(text) + whole
      decreases t, 2
    {
      assert allocated(All(t));
      ghost var had := HasItems(t, items);
      var opening := [OPEN_BRACKET];
      ghost var list := ArrayOpens(text, items, format, depth, whole);
      rest := [];
      ok := PrintPiece(opening, 1);
      if ok {
        depth := depth + 1;
        assert had == HasItems(t, items);
        ok, rest := PrintItems(item, t, items, list);
      }
    }

    // Its loop; rest is what is still to be written, the closing bracket.
    method PrintItems(item: Node, ghost t: Tree, ghost items: seq<Json>, ghost whole: Bytes) returns (ok: bool, ghost rest: Bytes)
      requires depth > 0 && whole == RenderItems(items, 0, format, depth)
      requires Valid() && offset == |text| && item == t.root && HasItems(t, items) && PrintableItems(items, 0)
      modifies this`buffer, this`length, this`limit, this`text, this`offset, this`depth, buffer
      ensures buffer == old(buffer) || (fresh(buffer) && !noalloc)
      ensures !ok ==> |old(text)| + |whole| + 2 > capacity
      ensures ok ==> Valid() && offset == |text| && depth == old(depth)
      ensures ok ==> rest == [CLOSE_BRACKET] && text + rest == old(text) + whole
      decreases t, 1
    {
      FirstItem(t, items);
      var current := item.child;
      ghost var j: nat := 0;
      ok, rest := true, whole;
      while current != null
        invariant j <= |items| == |t.kids| && Valid() && offset == |text| && depth == old(depth)
        invariant buffer == old(buffer) || (fresh(buffer) && !noalloc)
        invariant HasItems(t, items) && current == ChildOf(t.kids, j) && PrintableItems(items, j)
        invariant rest == RenderItems(items, j, format, depth) && text + rest == old(text) + whole
        decreases |items| - j
      {
        ghost var n := j + 1;
        ok, current, rest := NextItem(current, t, items, j, rest);
        if !ok {
          return;
        }
        j := n;
      }
    }

    // One round of that loop, and what is left to be written.
    method NextItem(current: Node, ghost t: Tree, ghost items: seq<Json>, ghost j: nat, ghost rest: Bytes)
        returns (ok: bool, next: Node?, ghost more: Bytes)
      requires Valid() && offset == |text| && HasItems(t, items) && depth > 0
      requires j < |t.kids| == |items| && current == t.kids[j].root && PrintableItems(items, j)
      requires rest == RenderItems(items, j, format, depth)
      modifies this`buffer, this`length, this`limit, this`text, this`offset, this`depth, buffer
      ensures buffer == old(buffer) || (fresh(buffer) && !noalloc)
      ensures !ok ==> |old(text)| + |rest| + 2 > capacity
      ensures ok ==> Valid() && offset == |text| && depth == old(depth) && HasItems(t, items)
      ensures ok ==> next == ChildOf(t.kids, j + 1) && PrintableItems(items, j + 1)
      ensures ok ==> more == RenderItems(items, j + 1, format, depth) && text + more == old(text) + rest
      decreases t, 0, 1
    {
      assert allocated(All(t));
      ghost var had := HasItems(t, items);
      more := RegroupItem(text, rest, items, j, format, depth);
      ok, next := PrintItem(current, t, items, j);
      assert had == HasItems(t, items);
    }

    method PrintItem(current: Node, ghost t: Tree, ghost items: seq<Json>, ghost j: nat) returns (ok: bool, next: Node?)
      requires Valid() && offset == |text| && HasItems(t, items)
      requires j < |t.kids| == |items| && current == t.kids[j].root && Printable(items[j])
      modifies this`buffer, this`length, this`limit, this`text, this`offset, this`depth, buffer
      ensures buffer == old(buffer) || (fresh(buffer) && !noalloc)
      ensures ok <==> |old(text)| + |ItemText(items, j, format, old(depth))| + 2 <= capacity
      ensures ok ==> Valid() && offset == |text| && depth == old(depth) && text == old(text) + ItemText(items, j, format, depth)
      ensures ok ==> next == ChildOf(t.kids, j + 1)
      decreases t, 0, 0
    {
      ItemHolds(t, items, j);
      ItemNext(t, items, j);
      next := current.next;
      ghost var more := next != null;
      Regroup(text, Render(items[j], format, depth), Between(format, more));
      ok := PrintValue(current, t.kids[j], items[j]);
      if !ok {
        return;
      }
      UpdateOffset();
      if next != null {
        ok := PrintSeparator(Between(format, true));
      } else {
        assert text + [] == text;
      }
    }

    // print_object
    method PrintObject(item: Node, ghost t: Tree, ghost members: seq<Member>) returns (ok: bool)
      requires Valid() && offset == |text| && item == t.root && HasMembers(t, members) && PrintableMembers(members, 0)
      modifies this`buffer, this`length, this`limit, this`text, this`offset, this`depth, buffer
      ensures buffer == old(buffer) || (fresh(buffer) && !noalloc)
      ensures ok <==> |old(text)| + |Render(Object(members), format, old(depth))| + 2 <= capacity
      ensures ok ==> Printed(old(text), Render(Object(members), format, old(depth))) && depth == old(depth)
      decreases t, 3
    {
      ghost var rest;
      ok, rest := OpenObject(item, t, members, Render(Object(members), format, depth));
      if ok {
        MembersDone(members, format, depth, rest);
        ok := PrintClosing(rest);
      }
    }

    // Everything before its closing byte, one level deeper.
    method OpenObject(item: Node, ghost t: Tree, ghost members: seq<Member>, ghost whole: Bytes) returns (ok: bool, ghost rest: Bytes)
      requires Valid() && offset == |text| && item == t.root && HasMembers(t, members) && PrintableMembers(members, 0)
      requires whole == Render(Object(members), format, depth)
      modifies this`buffer, this`length, this`limit, this`text, this`offset, this`depth, buffer
      ensures buffer == old(buffer) || (fresh(buffer) && !noalloc)
      ensures !ok ==> |old(text)| + |whole| + 2 > capacity
      ensures ok ==> Valid() && offset == |text| && depth == old(depth) + 1
      ensures ok ==> rest == RenderMembers(members, |members|, format, depth) && text + rest == old(text) + whole
      decreases t, 2
    {
      assert allocated(All(t));
      ghost var had := HasMembers(t, members);
      var opening := [OPEN_BRACE] + Pretty(format, NEWLINE);
      var level := depth + 1;
      ghost var list := ObjectOpens(text, members, format, depth, level, opening, whole);
      rest := [];
      ok := PrintPiece(opening, |opening| + 1);
      if ok {
        depth := level;
        assert had == HasMembers(t, members);
        ok, rest := PrintMembers(item, t, members, list);
      }
    }

    // Its loop; rest is what is still to be written, the closing brace.
    method PrintMembers(item: Node, ghost t: Tree, ghost members: seq<Member>, ghost whole: Bytes) returns (ok: bool, ghost rest: Bytes)
      requires depth > 0 && whole == RenderMembers(members, 0, format, depth)
      requires Valid() && offset == |text| && item == t.root && HasMembers(t, members) && PrintableMembers(members, 0)
      modifies this`buffer, this`length, this`limit, this`text, this`offset, this`depth, buffer
      ensures buffer == old(buffer) || (fresh(buffer) && !noalloc)
      ensures !ok ==> |old(text)| + |whole| + 2 > capacity
      ensures ok ==> Valid() && offset == |text| && depth == old(depth)
      ensures ok ==> rest == RenderMembers(members, |members|, format, depth) && text + rest == old(text) + whole
      decreases t, 1
    {
      FirstMember(t, members);
      var current := item.child;
      ghost var j: nat := 0;
      ghost var level, had := depth, HasMembers(t, members);
      ok, rest := true, whole;
      while current != null
        invariant j <= |members| == |t.kids| && Valid() && offset == |text| && depth == level
        invariant buffer == old(buffer) || (fresh(buffer) && !noalloc)
        invariant HasMembers(t, members) == had && current == ChildOf(t.kids, j) && PrintableMembers(members, j)
        invariant rest == RenderMembers(members, j, format, level) && text + rest == old(text) + whole
        decreases |members| - j
      {
        ghost var n := j + 1;
        ok, current, rest := NextMember(current, t, members, j, rest);
        if !ok {
          return;
        }
        j := n;
      }
    }

    // One round of that loop, and what is left to be written.
    method NextMember(current: Node, ghost t: Tree, ghost members: seq<Member>, ghost j: nat, ghost rest: Bytes)
        returns (ok: bool, next: Node?, ghost more: Bytes)
      requires Valid() && offset == |text| && HasMembers(t, members) && depth > 0
      requires j < |t.kids| == |members| && current == t.kids[j].root && PrintableMembers(members, j)
      requires rest == RenderMembers(members, j, format, depth)
      modifies this`buffer, this`length, this`limit, this`text, this`offset, this`depth, buffer
      ensures buffer == old(buffer) || (fresh(buffer) && !noalloc)
      ensures !ok ==> |old(text)| + |rest| + 2 > capacity
      ensures ok ==> Valid() && offset == |text| && depth == old(depth) && HasMembers(t, members)
      ensures ok ==> next == ChildOf(t.kids, j + 1) && PrintableMembers(members, j + 1)
      ensures ok ==> more == RenderMembers(members, j + 1, format, depth) && text + more == old(text) + rest
      decreases t, 0, 1
    {
      assert allocated(All(t));
      ghost var had := HasMembers(t, members);
      more := RegroupMember(text, rest, members, j, format, depth);
      ok, next := PrintMember(current, t, members, j);
      assert had == HasMembers(t, members);
    }

    method PrintMember(current: Node, ghost t: Tree, ghost members: seq<Member>, ghost j: nat) returns (ok: bool, next: Node?)
      requires Valid() && offset == |text| && HasMembers(t, members)
      requires j < |t.kids| == |members| && current == t.kids[j].root
      requires NulFree(members[j].name) && Printable(members[j].value)
      modifies this`buffer, this`length, this`limit, this`text, this`offset, this`depth, buffer
      ensures buffer == old(buffer) || (fresh(buffer) && !noalloc)
      ensures ok <==> |old(text)| + |RenderMember(members[j], format, old(depth), j + 1 < |members|)| + 2 <= capacity
      ensures ok ==> Valid() && offset == |text| && depth == old(depth)
      ensures ok ==> text == old(text) + RenderMember(members[j], format, depth, j + 1 < |members|)
      ensures ok ==> next == ChildOf(t.kids, j + 1)
      decreases t, 0, 0
    {
      assert allocated(All(t));
      MemberHolds(t, members, j);
      MemberNext(t, members, j);
      next := current.next;
      ok := PrintKeyAndValue(current, t.kids[j], members[j], j + 1 < |members|);
      if !ok {
        return;
      }
      UpdateOffset();
      var comma := if next != null then [COMMA] else [];
      ok := PrintSeparator(comma + Pretty(format, NEWLINE));
    }

    // The key and the value of a member, up to the terminator behind it.
    method PrintKeyAndValue(current: Node, ghost kid: Tree, ghost member: Member, ghost more: bool) returns (ok: bool)
      requires Valid() && offset == |text| && current == kid.root && Holds(kid, member.value) && current.key == Some(member.name)
      requires NulFree(member.name) && Printable(member.value)
      modifies this`buffer, this`length, this`limit, this`text, this`offset, this`depth, buffer
      ensures buffer == old(buffer) || (fresh(buffer) && !noalloc)
      ensures !ok ==> |old(text)| + |RenderMember(member, format, old(depth), more)| + 2 > capacity
      ensures ok ==> Valid() && Terminated() && depth == old(depth)
      ensures ok ==> old(text) + RenderMember(member, format, depth, more) == text + (Comma(more) + Pretty(format, NEWLINE))
      decreases kid, 5
    {
      assert allocated(All(kid));
      FivePiecesLater(text, Indent(format, depth), Quoted(member.name), [COLON] + Pretty(format, TAB),
        Render(member.value, format, depth), Comma(more) + Pretty(format, NEWLINE));
      ok := PrintKey(current.key.value);
      if !ok {
        return;
      }
      assert Holds(kid, member.value);
      ok := PrintValue(current, kid, member.value);
    }

    // The indentation, the key and the colon.
    method PrintKey(name: Bytes) returns (ok: bool)
      requires Valid() && offset == |text| && NulFree(name)
      modifies this`buffer, this`length, this`limit, this`text, this`offset, buffer
      ensures buffer == old(buffer) || (fresh(buffer) && !noalloc)
      ensures !ok ==> |old(text)| + |KeyText(name, format, depth)| + 2 > capacity
      ensures ok ==> Valid() && offset == |text| && text == old(text) + KeyText(name, format, depth)
    {
      var colon := [COLON] + Pretty(format, TAB);
      TabsLength(depth);
      if format {
        ok := Ensure(depth);
        if !ok {
          return;
        }
        PutTabs(depth);
        Advance(depth);
      } else {
        assert text + [] == text;
      }
      ok := PrintString(Some(name));
      if !ok {
        return;
      }
      UpdateOffset();
      ok := PrintPiece(colon, |colon|);
      Regroup(old(text), Indent(format, depth), Quoted(name));
      Regroup(old(text), Indent(format, depth) + Quoted(name), colon);
    }

    // The indented closing brace and its terminator.
    method PrintClosing(ghost closing: Bytes) returns (ok: bool)
      requires Valid() && offset == |text| && depth > 0 && closing == Indent(format, depth - 1) + [CLOSE_BRACE]
      modifies this`buffer, this`length, this`limit, this`text, this`depth, buffer
      ensures buffer == old(buffer) || (fresh(buffer) && !noalloc)
      ensures ok <==> |old(text)| + |closing| + 2 <= capacity
      ensures ok ==> depth == old(depth) - 1 && Printed(old(text), closing)
    {
      var outer := depth - 1;
      TabsLength(outer);
      ok := Ensure(if format then outer + 2 else 2);
      if !ok {
        return;
      }
      Regroup(text, Indent(format, outer), [CLOSE_BRACE]);
      var output := 0;
      if format {
        PutTabs(outer);
        output := outer;
      } else {
        assert text + [] == text;
      }
      Put(output, [CLOSE_BRACE]);
      Terminate(output + 1);
      depth := outer;
    }
  }

  // sprintf with "%d": no integer has more than eleven bytes and the terminator.
  method SprintfInt(output: array<byte>, n: int) returns (length: nat)
    requires INT_MIN <= n <= INT_MAX && output.Length >= 12
    modifies output
    ensures length < output.Length && output[..length] == Decimal(n) && output[length] == 0
  {
    DecimalTokenValue(n);
    var digits := Decimal(n);
    length := |digits|;
    forall k | 0 <= k < length {
      output[k] := digits[k];
    }
    output[length] := 0;
  }

  // An element of an array with what separates it from the next one.
  ghost function ItemText(items: seq<Json>, j: nat, fmt: bool, depth: nat): Bytes
    requires j < |items|
  {
    Render(items[j], fmt, depth) + Between(fmt, j + 1 < |items|)
  }

  lemma RegroupItem(done: Bytes, rest: Bytes, items: seq<Json>, j: nat, fmt: bool, depth: nat) returns (rest': Bytes)
    requires j < |items| && rest == RenderItems(items, j, fmt, depth)
    ensures rest' == RenderItems(items, j + 1, fmt, depth) && rest' != []
    ensures done + rest == (done + ItemText(items, j, fmt, depth)) + rest'
    ensures |rest| == |ItemText(items, j, fmt, depth)| + |rest'|
  {
    rest' := RenderItems(items, j + 1, fmt, depth);
    Regroup(done, ItemText(items, j, fmt, depth), rest');
  }

  ghost function KeyText(name: Bytes, fmt: bool, depth: nat): Bytes {
    Indent(fmt, depth) + Quoted(name) + ([COLON] + Pretty(fmt, TAB))
  }

  lemma RegroupMember(done: Bytes, rest: Bytes, members: seq<Member>, j: nat, fmt: bool, depth: nat) returns (rest': Bytes)
    requires j < |members| && depth > 0 && rest == RenderMembers(members, j, fmt, depth)
    ensures rest' == RenderMembers(members, j + 1, fmt, depth) && rest' != []
    ensures done + rest == (done + RenderMember(members[j], fmt, depth, j + 1 < |members|)) + rest'
    ensures |rest| == |RenderMember(members[j], fmt, depth, j + 1 < |members|)| + |rest'|
  {
    rest' := RenderMembers(members, j + 1, fmt, depth);
    Regroup(done, RenderMember(members[j], fmt, depth, j + 1 < |members|), rest');
  }

  lemma ArrayOpens(done: Bytes, items: seq<Json>, fmt: bool, depth: nat, whole: Bytes) returns (list: Bytes)
    requires whole == Render(Array(items), fmt, depth)
    ensures list == RenderItems(items, 0, fmt, depth + 1) && list != []
    ensures done + whole == (done + [OPEN_BRACKET]) + list && |whole| == 1 + |list|
  {
    list := RenderItems(items, 0, fmt, depth + 1);
    Regroup(done, [OPEN_BRACKET], list);
  }

  lemma ObjectOpens(done: Bytes, members: seq<Member>, fmt: bool, depth: nat, level: nat, opening: Bytes, whole: Bytes) returns (list: Bytes)
    requires level == depth + 1 && whole == Render(Object(members), fmt, depth) && opening == [OPEN_BRACE] + Pretty(fmt, NEWLINE)
    ensures list == RenderMembers(members, 0, fmt, level) && list != []
    ensures done + whole == (done + opening) + list && |whole| == |opening| + |list|
  {
    list := RenderMembers(members, 0, fmt, level);
    Regroup(done, opening, list);
  }

  lemma MembersDone(members: seq<Member>, fmt: bool, depth: nat, rest: Bytes)
    requires depth > 0 && rest == RenderMembers(members, |members|, fmt, depth)
    ensures rest == Indent(fmt, depth - 1) + [CLOSE_BRACE]
  {
  }

  lemma FivePiecesLater(done: Bytes, a: Bytes, b: Bytes, c: Bytes, d: Bytes, e: Bytes)
    ensures done + (a + b + c + d + e) == ((done + (a + b + c)) + d) + e
  {
  }

  lemma {:induction false} TabsLength(n: nat)
    ensures |Tabs(n)| == n
  {
    if n > 0 {
      TabsLength(n - 1);
    }
  }

  // When escaping adds nothing it changes nothing.
  lemma {:induction false} EscapeNothing(s: Bytes, j: nat)
    requires j <= |s|
    ensures |Escape(s, j)| >= |s| - j
    ensures |Escape(s, j)| == |s| - j ==> Escape(s, j) == s[j..]
    decreases |s| - j
  {
    if j < |s| {
      EscapeNothing(s, j + 1);
    }
  }

  // ---- the entry points ----

  // A new print buffer over the given bytes, and the item printed into it.
  method PrintInto(item: Node, initial: array<byte>, length: nat, noalloc: bool, format: bool, ghost t: Tree, ghost v: Json)
      returns (ok: bool, p: PrintBuffer)
    requires item == t.root && Holds(t, v) && Printable(v) && length <= initial.Length && length <= INT_MAX
    modifies initial
    ensures fresh(p) && (p.buffer == initial || (fresh(p.buffer) && !noalloc))
    ensures ok <==> |Render(v, format, 0)| + 2 <= if noalloc then length else INT_MAX
    ensures ok ==> p.Printed([], Render(v, format, 0))
  {
    assert allocated(All(t));
    ghost var held := Holds(t, v);
    p := new PrintBuffer(initial, length, noalloc, format);
    assert held == Holds(t, v);
    ok := p.PrintValue(item, t, v);
    assert [] + Render(v, format, 0) == Render(v, format, 0);
  }

  // print: the text in a buffer of its own size.
  method Print(item: Node, format: bool, ghost t: Tree, ghost v: Json) returns (printed: array?<byte>)
    requires item == t.root && Holds(t, v) && Printable(v)
    ensures printed == null <==> |Render(v, format, 0)| + 2 > 0x7FFF_FFFF
    ensures printed != null ==> fresh(printed) && printed[..] == Render(v, format, 0) + [0]
  {
    assert allocated(All(t));
    ghost var held := Holds(t, v);
    var initial := new byte[256];
    assert held == Holds(t, v);
    var ok, p := PrintInto(item, initial, 256, false, format, t, v);
    if !ok {
      return null;
    }
    p.UpdateOffset();
    AtJoin(p.buffer[..], 0, p.text, [0]);
    printed := Copy(p.buffer, p.offset + 1, p.text + [0]);
  }

  method Copy(a: array<byte>, n: nat, ghost content: Bytes) returns (r: array<byte>)
    requires At(a[..], 0, content) && n == |content|
    ensures fresh(r) && r[..] == content
  {
    r := new byte[n];
    forall k | 0 <= k < n {
      r[k] := a[k];
    }
    forall k | 0 <= k < n ensures r[k] == content[k] {
      AtIndex(a[..], 0, content, k);
    }
  }

  // cJSON_PrintBuffered: the text at the start of a buffer that began with prebuffer bytes.
  method PrintBuffered(item: Node, prebuffer: int, format: bool, ghost t: Tree, ghost v: Json) returns (buffer: array?<byte>)
    requires item == t.root && Holds(t, v) && Printable(v) && prebuffer <= INT_MAX
    ensures buffer == null <==> prebuffer < 0 || |Render(v, format, 0)| + 2 > 0x7FFF_FFFF
    ensures buffer != null ==> fresh(buffer) && At(buffer[..], 0, Render(v, format, 0) + [0])
  {
    if prebuffer < 0 {
      return null;
    }
    assert allocated(All(t));
    ghost var held := Holds(t, v);
    var initial := new byte[prebuffer];
    assert held == Holds(t, v);
    var ok, p := PrintInto(item, initial, prebuffer, false, format, t, v);
    if !ok {
      return null;
    }
    assert p.text == Render(v, format, 0);
    AtJoin(p.buffer[..], 0, p.text, [0]);
    return p.buffer;
  }

  // cJSON_PrintPreallocated: two bytes more than the text has are enough, and one is not.
  method PrintPreallocated(item: Node, buffer: array<byte>, length: int, format: bool, ghost t: Tree, ghost v: Json) returns (ok: bool)
    requires item == t.root && Holds(t, v) && Printable(v) && length <= buffer.Length && length <= INT_MAX
    modifies buffer
    ensures ok <==> |Render(v, format, 0)| + 2 <= length
    ensures ok ==> At(buffer[..], 0, Render(v, format, 0) + [0])
  {
    if length < 0 {
      return false;
    }
    var p;
    ok, p := PrintInto(item, buffer, length, true, format, t, v);
    if ok {
      assert p.text == Render(v, format, 0);
      AtJoin(p.buffer[..], 0, p.text, [0]);
    }
  }
}
