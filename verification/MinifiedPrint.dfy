// When minifying the formatted print of a tree gives its unformatted print.
module MinifiedPrint {
  import opened Bits
  import opened ByteStrings
  import opened JsonData
  import opened JsonNumber
  import opened JsonString
  import opened JsonRender
  import opened JsonMinify

  // How the minifier takes a formatted value: it copies just what the unformatted print has and is
  // outside strings again, or still believes to be inside a string, or its output goes wrong.
  datatype Scan = Closed | Running | Spoilt

  predicate EndsInBackslash(s: Bytes) {
    s != [] && s[|s| - 1] == BACKSLASH
  }

  // The minifier takes the second backslash before a closing quote for the escape of that quote.
  function ScanOf(t: Json): Scan
    decreases t
  {
    match t
    case Text(s) => if EndsInBackslash(s) then Running else Closed
    case Array(items) => ScanItems(items, 0)
    case Object(members) => if TidyMembers(members, 0) then Closed else Spoilt
    case _ => Closed
  }

  // Behind a string that runs on, only closing brackets are copied as they should be.
  function ScanItems(items: seq<Json>, j: nat): Scan
    requires j <= |items|
    decreases items, |items| - j
  {
    if j == |items| then Closed
    else
      match ScanOf(items[j])
      case Closed => ScanItems(items, j + 1)
      case Running => if j + 1 == |items| then Running else Spoilt
      case Spoilt => Spoilt
  }

  predicate TidyMembers(members: seq<Member>, j: nat)
    requires j <= |members|
    decreases members, |members| - j
  {
    j < |members| ==> !EndsInBackslash(members[j].name) && ScanOf(members[j].value) == Closed && TidyMembers(members, j + 1)
  }

  predicate Differ(a: Bytes, b: Bytes) {
    exists k :: 0 <= k < |a| && k < |b| && a[k] != b[k]
  }

  // What the minifier makes of the text from i on, where r is the unformatted print of what stands from i to e.
  ghost predicate Becomes(text: Bytes, i: nat, e: nat, r: Bytes, scan: Scan) {
    i <= e <= |text| &&
    match scan
    case Closed => Minify(text, i) == r + Minify(text, e)
    case Running => Minify(text, i) == r + Inside(text, e)
    case Spoilt => Differ(Minify(text, i), r)
  }

  lemma Then(text: Bytes, i: nat, s: nat, e: nat, a: Bytes, b: Bytes, scan: Scan)
    requires Becomes(text, i, s, a, Closed) && Becomes(text, s, e, b, scan)
    ensures Becomes(text, i, e, a + b, scan)
  {
    match scan
    case Closed => assert a + (b + Minify(text, e)) == a + b + Minify(text, e);
    case Running => assert a + (b + Inside(text, e)) == a + b + Inside(text, e);
    case Spoilt =>
      var k :| 0 <= k < |Minify(text, s)| && k < |b| && Minify(text, s)[k] != b[k];
      assert Minify(text, i)[|a| + k] != (a + b)[|a| + k];
  }

  lemma StaysSpoilt(text: Bytes, i: nat, s: nat, e: nat, a: Bytes, b: Bytes)
    requires Becomes(text, i, s, a, Spoilt) && s <= e <= |text|
    ensures Becomes(text, i, e, a + b, Spoilt)
  {
  }

  lemma HeadTail(piece: Bytes, j: nat, rest: Bytes)
    requires j < |piece|
    ensures piece[j..] + rest == [piece[j]] + (piece[j + 1..] + rest)
  {
  }

  predicate Neutral(piece: Bytes) {
    forall k :: 0 <= k < |piece| ==> piece[k] != QUOTE && piece[k] != BACKSLASH
  }

  lemma {:induction false} InsideCopies(text: Bytes, s: nat, piece: Bytes, j: nat)
    requires At(text, s, piece) && j <= |piece| && Neutral(piece)
    ensures Inside(text, s + j) == piece[j..] + Inside(text, s + |piece|)
    decreases |piece| - j
  {
    if j < |piece| {
      AtIndex(text, s, piece, j);
      InsideCopies(text, s, piece, j + 1);
      HeadTail(piece, j, Inside(text, s + |piece|));
    }
  }

  // White space that comes while a string runs on is copied, where the unformatted print has another byte.
  lemma Spoils(text: Bytes, i: nat, s: nat, e: nat, a: Bytes, piece: Bytes, b: Bytes)
    requires Becomes(text, i, s, a, Running) && At(text, s, piece) && Neutral(piece) && piece != []
    requires |piece| <= |b| && b[|piece| - 1] != piece[|piece| - 1] && s <= e <= |text|
    ensures Becomes(text, i, e, a + b, Spoilt)
  {
    InsideCopies(text, s, piece, 0);
    var k := |a| + |piece| - 1;
    assert Minify(text, i)[k] == piece[|piece| - 1];
    assert (a + b)[k] == b[|piece| - 1];
  }

  predicate Kept(piece: Bytes) {
    forall k :: 0 <= k < |piece| ==> piece[k] > SPACE && piece[k] != SLASH && piece[k] != QUOTE
  }

  lemma {:induction false} KeptFrom(text: Bytes, i: nat, piece: Bytes, j: nat)
    requires At(text, i, piece) && Kept(piece) && j <= |piece|
    ensures Minify(text, i + j) == piece[j..] + Minify(text, i + |piece|)
    decreases |piece| - j
  {
    if j < |piece| {
      AtIndex(text, i, piece, j);
      KeptFrom(text, i, piece, j + 1);
      HeadTail(piece, j, Minify(text, i + |piece|));
    }
  }

  lemma KeptAt(text: Bytes, i: nat, e: nat, piece: Bytes)
    requires At(text, i, piece) && Kept(piece) && e == i + |piece|
    ensures Becomes(text, i, e, piece, Closed)
  {
    KeptFrom(text, i, piece, 0);
    assert piece[0..] == piece;
  }

  lemma {:induction false} TabsAt(text: Bytes, i: nat, n: nat)
    requires At(text, i, Tabs(n))
    ensures Becomes(text, i, i + |Tabs(n)|, [], Closed)
    decreases n
  {
    if n > 0 {
      AtSplit(text, i, [TAB], Tabs(n - 1));
      AtByte(text, i, TAB);
      TabsAt(text, i + 1, n - 1);
    }
  }

  lemma BlankAt(text: Bytes, i: nat, b: byte)
    requires At(text, i, [b]) && IsBlank(b)
    ensures Becomes(text, i, i + 1, [], Closed)
  {
    AtByte(text, i, b);
  }

  // ---- strings ----

  // Inside a string an escaped byte is copied, unless it is a backslash in front of the closing quote.
  lemma EscapeStep(text: Bytes, p: nat, b: byte)
    requires At(text, p, EscapeByte(b)) && p + |EscapeByte(b)| < |text|
    requires b == BACKSLASH ==> text[p + 2] != QUOTE
    ensures Inside(text, p) == EscapeByte(b) + Inside(text, p + |EscapeByte(b)|)
  {
    if ShortLetter(b) == None && b >= 32 {
      AtByte(text, p, b);
    } else if b == QUOTE {
      AtIndex(text, p, EscapeByte(b), 0);
      AtIndex(text, p, EscapeByte(b), 1);
    } else {
      LongerEscape(text, p, b, EscapeByte(b)[1..]);
    }
  }

  lemma EscapeTail(b: byte, rest: Bytes)
    requires |EscapeByte(b)| > 1 && b != QUOTE && rest == EscapeByte(b)[1..]
    ensures EscapeByte(b) == [BACKSLASH] + rest && rest != [] && rest[0] != QUOTE
    ensures if b == BACKSLASH then rest == [BACKSLASH] else Neutral(rest)
  {
  }

  lemma LongerEscape(text: Bytes, p: nat, b: byte, rest: Bytes)
    requires |EscapeByte(b)| > 1 && b != QUOTE && rest == EscapeByte(b)[1..]
    requires At(text, p, EscapeByte(b)) && p + |EscapeByte(b)| < |text|
    requires b == BACKSLASH ==> text[p + 2] != QUOTE
    ensures Inside(text, p) == EscapeByte(b) + Inside(text, p + |EscapeByte(b)|)
  {
    EscapeTail(b, rest);
    AtSplit(text, p, [BACKSLASH], rest);
    AtByte(text, p, BACKSLASH);
    AtIndex(text, p + 1, rest, 0);
    RunCopies(text, p + 1, rest, b == BACKSLASH);
    Regroup([BACKSLASH], rest, Inside(text, p + 1 + |rest|));
  }

  // What follows the backslash of an escape other than an escaped quote.
  lemma RunCopies(text: Bytes, p: nat, piece: Bytes, backslash: bool)
    requires At(text, p, piece) && if backslash then piece == [BACKSLASH] && p + 1 < |text| && text[p + 1] != QUOTE else Neutral(piece)
    ensures Inside(text, p) == piece + Inside(text, p + |piece|)
  {
    if backslash {
      AtByte(text, p, BACKSLASH);
    } else {
      InsideCopies(text, p, piece, 0);
      assert piece[0..] == piece;
    }
  }

  // The text of a string from its byte j on; the closing quote stands at e.
  lemma {:induction false} EscapedInString(text: Bytes, p: nat, e: nat, s: Bytes, j: nat, r: Bytes, tail: Bytes)
    requires j <= |s| && r == Escape(s, j) && At(text, p, r) && e == p + |r| && e < |text| && text[e] == QUOTE
    requires tail == if j < |s| && EndsInBackslash(s) then Inside(text, e + 1) else Minify(text, e + 1)
    ensures Inside(text, p) == r + ([QUOTE] + tail)
    decreases |s| - j
  {
    if j < |s| {
      var q, first, rest := HeadEscape(text, p, e, s, j, r, tail);
      if j + 1 < |s| || s[j] != BACKSLASH {
        EscapedInString(text, q, e, s, j + 1, rest, tail);
        Regroup(first, rest, [QUOTE] + tail);
      }
    } else {
      ClosingQuote(text, e, tail);
      assert r == [] && r + ([QUOTE] + tail) == [QUOTE] + tail;
    }
  }

  lemma ClosingQuote(text: Bytes, e: nat, tail: Bytes)
    requires e < |text| && text[e] == QUOTE && tail == Minify(text, e + 1)
    ensures Inside(text, e) == [QUOTE] + tail
  {
  }

  // What becomes of byte j: it is copied, or it lets the string run on behind its end.
  lemma HeadEscape(text: Bytes, p: nat, e: nat, s: Bytes, j: nat, r: Bytes, tail: Bytes) returns (q: nat, first: Bytes, rest: Bytes)
    requires j < |s| && r == Escape(s, j) && At(text, p, r) && e == p + |r| && e < |text| && text[e] == QUOTE
    requires tail == if EndsInBackslash(s) then Inside(text, e + 1) else Minify(text, e + 1)
    ensures r == first + rest && rest == Escape(s, j + 1) && At(text, q, rest) && q == p + |first|
    ensures if j + 1 < |s| || s[j] != BACKSLASH then Inside(text, p) == first + Inside(text, q) else Inside(text, p) == r + ([QUOTE] + tail)
  {
    first, rest := EscapeByte(s[j]), Escape(s, j + 1);
    q := p + |first|;
    AtSplit(text, p, first, rest);
    if j + 1 < |s| || s[j] != BACKSLASH {
      NextByte(text, q, e, s, j + 1, rest);
      EscapeCopied(text, p, s[j], first);
    } else {
      LastByte(text, p, e, first, tail);
      assert r == first + [] == first;
    }
  }

  lemma EscapeCopied(text: Bytes, p: nat, b: byte, first: Bytes)
    requires first == EscapeByte(b) && At(text, p, first) && p + |first| < |text|
    requires b == BACKSLASH ==> text[p + |first|] != QUOTE
    ensures Inside(text, p) == first + Inside(text, p + |first|)
  {
    EscapeStep(text, p, b);
  }

  lemma LastByte(text: Bytes, p: nat, e: nat, first: Bytes, tail: Bytes)
    requires first == EscapeByte(BACKSLASH) && At(text, p, first) && e == p + |first| < |text| && text[e] == QUOTE && tail == Inside(text, e + 1)
    ensures Inside(text, p) == first + ([QUOTE] + tail)
  {
    LastBackslash(text, p, tail);
    assert first + [] == first;
  }

  lemma LastBackslash(text: Bytes, p: nat, tail: Bytes)
    requires At(text, p, EscapeByte(BACKSLASH)) && p + 2 < |text| && text[p + 2] == QUOTE && tail == Inside(text, p + 3)
    ensures Inside(text, p) == EscapeByte(BACKSLASH) + [] + ([QUOTE] + tail)
  {
    AtIndex(text, p, EscapeByte(BACKSLASH), 0);
    AtIndex(text, p, EscapeByte(BACKSLASH), 1);
    assert Inside(text, p + 1) == [BACKSLASH, QUOTE] + tail;
  }

  lemma NextByte(text: Bytes, q: nat, e: nat, s: Bytes, j: nat, rest: Bytes)
    requires j <= |s| && rest == Escape(s, j) && At(text, q, rest) && e == q + |rest| && e < |text|
    ensures j < |s| ==> text[q] != QUOTE
  {
    if j < |s| {
      AtIndex(text, q, rest, 0);
    }
  }

  lemma QuotedBecomes(text: Bytes, i: nat, e: nat, s: Bytes)
    requires At(text, i, Quoted(s)) && e == i + |Quoted(s)|
    ensures Becomes(text, i, e, Quoted(s), if EndsInBackslash(s) then Running else Closed)
  {
    var r := Escape(s, 0);
    AtSplit(text, i, [QUOTE] + r, [QUOTE]);
    AtSplit(text, i, [QUOTE], r);
    AtByte(text, i, QUOTE);
    AtByte(text, e - 1, QUOTE);
    var tail := if EndsInBackslash(s) then Inside(text, e) else Minify(text, e);
    EscapedInString(text, i + 1, e - 1, s, 0, r, tail);
    Regroup([QUOTE], r, [QUOTE] + tail);
    Regroup([QUOTE] + r, [QUOTE], tail);
  }

  // ---- values ----

  lemma WordsKept()
    ensures Kept(NULL_TEXT) && Kept(FALSE_TEXT) && Kept(TRUE_TEXT)
  {
  }

  lemma DecimalKept(n: int)
    ensures Kept(Decimal(n))
  {
  }

  // A value starts with a byte that is no white space.
  lemma RenderStart(t: Json, fmt: bool, depth: nat, r: Bytes)
    requires r == Render(t, fmt, depth)
    ensures r != [] && r[0] > SPACE
  {
  }

  lemma {:induction false} ValueBecomes(text: Bytes, i: nat, e: nat, t: Json, depth: nat)
    requires At(text, i, Render(t, true, depth)) && e == i + |Render(t, true, depth)|
    ensures Becomes(text, i, e, Render(t, false, depth), ScanOf(t))
    decreases t, 0
  {
    match t
    case Text(s) => QuotedBecomes(text, i, e, s);
    case Array(items) =>
      AtSplit(text, i, [OPEN_BRACKET], RenderItems(items, 0, true, depth + 1));
      KeptAt(text, i, i + 1, [OPEN_BRACKET]);
      ItemsBecome(text, i + 1, e, items, 0, depth + 1, RenderItems(items, 0, true, depth + 1), RenderItems(items, 0, false, depth + 1));
      Then(text, i, i + 1, e, [OPEN_BRACKET], RenderItems(items, 0, false, depth + 1), ScanItems(items, 0));
    case Object(members) =>
      ObjectBecomes(text, i, e, members, depth);
    case Number(v) =>
      DecimalKept(v.Floor);
      KeptAt(text, i, e, Decimal(v.Floor));
    case _ =>
      WordsKept();
      KeptAt(text, i, e, Render(t, true, depth));
  }

  // p and r are the formatted and the unformatted print of the elements from j on.
  lemma {:induction false} ItemsBecome(text: Bytes, i: nat, e: nat, items: seq<Json>, j: nat, depth: nat, p: Bytes, r: Bytes)
    requires j <= |items| && p == RenderItems(items, j, true, depth) && r == RenderItems(items, j, false, depth)
    requires At(text, i, p) && e == i + |p|
    ensures Becomes(text, i, e, r, ScanItems(items, j))
    decreases items, |items| - j
  {
    var n := j + 1;
    if n > |items| {
      KeptAt(text, i, e, [CLOSE_BRACKET]);
    } else {
      var value, rest := Render(items[j], true, depth), RenderItems(items, n, true, depth);
      var plain, plainRest := Render(items[j], false, depth), RenderItems(items, n, false, depth);
      var more := n < |items|;
      AtSplit(text, i, value + Between(true, more), rest);
      AtSplit(text, i, value, Between(true, more));
      var s := i + |value|;
      ValueBecomes(text, i, s, items[j], depth);
      ItemsBecome(text, s + |Between(true, more)|, e, items, n, depth, rest, plainRest);
      if more {
        ItemsStart(items, n, depth, plainRest);
      }
      AfterItem(text, i, s, e, plain, more, plainRest, ScanOf(items[j]), ScanItems(items, n));
    }
  }

  lemma ItemsStart(items: seq<Json>, j: nat, depth: nat, r: Bytes)
    requires j < |items| && r == RenderItems(items, j, false, depth)
    ensures r != [] && r[0] > SPACE
  {
  }

  // A value up to s, what separates it from the next element, and the elements behind it.
  lemma AfterItem(text: Bytes, i: nat, s: nat, e: nat, a: Bytes, more: bool, b: Bytes, first: Scan, rest: Scan)
    requires Becomes(text, i, s, a, first) && At(text, s, Between(true, more))
    requires Becomes(text, s + |Between(true, more)|, e, b, rest) && b != []
    requires if more then b[0] > SPACE else b == [CLOSE_BRACKET] && At(text, s, b) && e == s + 1 && rest == Closed
    ensures Becomes(text, i, e, a + Between(false, more) + b,
      if first == Closed then rest else if first == Running && !more then Running else Spoilt)
  {
    Regroup(a, Between(false, more), b);
    if first == Spoilt {
      StaysSpoilt(text, i, s, e, a, Between(false, more) + b);
    } else if more {
      assert Between(true, true) == [COMMA] + [SPACE];
      if first == Closed {
        CommaSpace(text, s, e, b, rest);
        Then(text, i, s, e, a, [COMMA] + [] + b, rest);
      } else {
        Spoils(text, i, s, e, a, [COMMA] + [SPACE], [COMMA] + [] + b);
      }
    } else if first == Closed {
      assert [] + b == b;
      Then(text, i, s, e, a, b, rest);
    } else {
      RunsToBracket(text, i, s, a);
    }
  }

  lemma CommaSpace(text: Bytes, s: nat, e: nat, b: Bytes, rest: Scan)
    requires At(text, s, [COMMA] + [SPACE]) && Becomes(text, s + 2, e, b, rest)
    ensures Becomes(text, s, e, [COMMA] + [] + b, rest)
  {
    AtSplit(text, s, [COMMA], [SPACE]);
    KeptAt(text, s, s + 1, [COMMA]);
    BlankAt(text, s + 1, SPACE);
    Then(text, s, s + 1, s + 2, [COMMA], [], Closed);
    Then(text, s, s + 2, e, [COMMA] + [], b, rest);
  }

  lemma RunsToBracket(text: Bytes, i: nat, s: nat, a: Bytes)
    requires Becomes(text, i, s, a, Running) && At(text, s, [CLOSE_BRACKET])
    ensures Becomes(text, i, s + 1, a + [] + [CLOSE_BRACKET], Running)
  {
    var b: Bytes := [CLOSE_BRACKET];
    AtByte(text, s, CLOSE_BRACKET);
    assert a + [] == a;
    Regroup(a, b, Inside(text, s + 1));
  }

  // ---- objects ----

  lemma {:induction false} ObjectBecomes(text: Bytes, i: nat, e: nat, members: seq<Member>, depth: nat)
    requires At(text, i, Render(Object(members), true, depth)) && e == i + |Render(Object(members), true, depth)|
    ensures Becomes(text, i, e, Render(Object(members), false, depth), ScanOf(Object(members)))
    decreases members, |members| + 1
  {
    var rest, plain := ObjectRest(text, i, e, members, depth);
    MembersBecome(text, i + 2, e, members, 0, depth + 1, rest, plain);
    BraceBecomes(text, i, e, plain, ScanOf(Object(members)));
  }

  // Behind the opening brace and the line break of an object stand its members.
  lemma ObjectRest(text: Bytes, i: nat, e: nat, members: seq<Member>, depth: nat) returns (rest: Bytes, plain: Bytes)
    requires At(text, i, Render(Object(members), true, depth)) && e == i + |Render(Object(members), true, depth)|
    ensures rest == RenderMembers(members, 0, true, depth + 1) && At(text, i, [OPEN_BRACE] + [NEWLINE]) && At(text, i + 2, rest)
    ensures plain == RenderMembers(members, 0, false, depth + 1) && Render(Object(members), false, depth) == [OPEN_BRACE] + plain
    ensures e == i + 2 + |rest|
  {
    rest, plain := RenderMembers(members, 0, true, depth + 1), RenderMembers(members, 0, false, depth + 1);
    AtSplit(text, i, [OPEN_BRACE] + [NEWLINE], rest);
    assert [OPEN_BRACE] + [] + plain == [OPEN_BRACE] + plain;
  }

  lemma BraceBecomes(text: Bytes, i: nat, e: nat, plain: Bytes, scan: Scan)
    requires At(text, i, [OPEN_BRACE] + [NEWLINE]) && i + 2 <= e <= |text| && Becomes(text, i + 2, e, plain, scan)
    ensures Becomes(text, i, e, [OPEN_BRACE] + plain, scan)
  {
    AtSplit(text, i, [OPEN_BRACE], [NEWLINE]);
    KeptAt(text, i, i + 1, [OPEN_BRACE]);
    BlankAt(text, i + 1, NEWLINE);
    Then(text, i + 1, i + 2, e, [], plain, scan);
    assert [] + plain == plain;
    Then(text, i, i + 1, e, [OPEN_BRACE], plain, scan);
  }

  // p and r are the formatted and the unformatted print of the members from j on.
  lemma {:induction false} MembersBecome(text: Bytes, i: nat, e: nat, members: seq<Member>, j: nat, depth: nat, p: Bytes, r: Bytes)
    requires j <= |members| && depth > 0 && p == RenderMembers(members, j, true, depth) && r == RenderMembers(members, j, false, depth)
    requires At(text, i, p) && e == i + |p|
    ensures Becomes(text, i, e, r, if TidyMembers(members, j) then Closed else Spoilt)
    decreases members, |members| - j
  {
    if j == |members| {
      AtSplit(text, i, Tabs(depth - 1), [CLOSE_BRACE]);
      TabsAt(text, i, depth - 1);
      KeptAt(text, e - 1, e, [CLOSE_BRACE]);
      Then(text, i, e - 1, e, [], [CLOSE_BRACE], Closed);
    } else {
      var more := j + 1 < |members|;
      var first, rest := RenderMember(members[j], true, depth, more), RenderMembers(members, j + 1, true, depth);
      var plain, plainRest := RenderMember(members[j], false, depth, more), RenderMembers(members, j + 1, false, depth);
      AtSplit(text, i, first, rest);
      var s := i + |first|;
      MembersBecome(text, s, e, members, j + 1, depth, rest, plainRest);
      MembersStart(members, j + 1, depth, plainRest);
      MemberBecomes(text, i, s, e, members[j], depth, more, plainRest);
      if !EndsInBackslash(members[j].name) && ScanOf(members[j].value) == Closed {
        Then(text, i, s, e, plain, plainRest, if TidyMembers(members, j + 1) then Closed else Spoilt);
      }
    }
  }

  lemma MembersStart(members: seq<Member>, j: nat, depth: nat, r: Bytes)
    requires j <= |members| && depth > 0 && r == RenderMembers(members, j, false, depth)
    ensures r != [] && r[0] > SPACE
  {
  }

  // A member stands from i to s, and later stands from there on in the unformatted print.
  lemma {:induction false} MemberBecomes(text: Bytes, i: nat, s: nat, e: nat, member: Member, depth: nat, more: bool, later: Bytes)
    requires At(text, i, RenderMember(member, true, depth, more)) && s == i + |RenderMember(member, true, depth, more)| <= e <= |text|
    requires later != [] && later[0] > SPACE
    ensures if !EndsInBackslash(member.name) && ScanOf(member.value) == Closed
      then Becomes(text, i, s, RenderMember(member, false, depth, more), Closed)
      else Becomes(text, i, e, RenderMember(member, false, depth, more) + later, Spoilt)
    decreases member, 1
  {
    var name, plain := Quoted(member.name), Render(member.value, false, depth);
    var c, v, a := MemberParts(text, i, s, member, depth, more);
    RenderStart(member.value, false, depth, plain);
    PlainMember(name, plain, Comma(more), later);
    if EndsInBackslash(member.name) {
      Spoils(text, i, c, e, name, [COLON] + [TAB], [COLON] + plain + (Comma(more) + later));
    } else {
      ColonBecomes(text, i, c, v, name);
      Then(text, i, v, a, name + [COLON], plain, ScanOf(member.value));
      TailBecomes(text, i, a, s, e, name + [COLON] + plain, more, later, ScanOf(member.value));
    }
  }

  // The colon of a member stands at c and its value from v to a.
  lemma {:induction false} MemberParts(text: Bytes, i: nat, s: nat, member: Member, depth: nat, more: bool) returns (c: nat, v: nat, a: nat)
    requires At(text, i, RenderMember(member, true, depth, more)) && s == i + |RenderMember(member, true, depth, more)|
    ensures Becomes(text, i, c, Quoted(member.name), if EndsInBackslash(member.name) then Running else Closed)
    ensures At(text, c, [COLON] + [TAB]) && v == c + 2
    ensures Becomes(text, v, a, Render(member.value, false, depth), ScanOf(member.value))
    ensures At(text, a, Comma(more) + [NEWLINE]) && s == a + |Comma(more)| + 1
    decreases member, 0
  {
    var indent, name, colon := Tabs(depth), Quoted(member.name), [COLON] + [TAB];
    var value := Render(member.value, true, depth);
    FivePieces(text, i, indent, name, colon, value, Comma(more) + [NEWLINE]);
    var n := i + |indent|;
    c := n + |name|;
    v := c + 2;
    a := v + |value|;
    TabsAt(text, i, depth);
    QuotedBecomes(text, n, c, member.name);
    Then(text, i, n, c, [], name, if EndsInBackslash(member.name) then Running else Closed);
    assert [] + name == name;
    ValueBecomes(text, v, a, member.value, depth);
  }

  lemma PlainMember(name: Bytes, plain: Bytes, comma: Bytes, later: Bytes)
    ensures var member := [] + name + ([COLON] + []) + plain + (comma + []);
      && member == name + [COLON] + plain + comma
      && member + later == name + ([COLON] + plain + (comma + later))
      && member + later == name + [COLON] + plain + (comma + later)
  {
  }

  lemma ColonBecomes(text: Bytes, i: nat, c: nat, v: nat, r: Bytes)
    requires Becomes(text, i, c, r, Closed) && At(text, c, [COLON] + [TAB]) && v == c + 2
    ensures Becomes(text, i, v, r + [COLON], Closed)
  {
    AtSplit(text, c, [COLON], [TAB]);
    KeptAt(text, c, c + 1, [COLON]);
    BlankAt(text, c + 1, TAB);
    Then(text, i, c, c + 1, r, [COLON], Closed);
    Then(text, i, c + 1, v, r + [COLON], [], Closed);
    assert r + [COLON] + [] == r + [COLON];
  }

  // The end of a member: a comma if there are more, and a line end.
  lemma TailBecomes(text: Bytes, i: nat, a: nat, s: nat, e: nat, r: Bytes, more: bool, later: Bytes, scan: Scan)
    requires Becomes(text, i, a, r, scan) && At(text, a, Comma(more) + [NEWLINE]) && s == a + |Comma(more)| + 1 <= e <= |text|
    requires later != [] && later[0] > SPACE
    ensures scan == Closed ==> Becomes(text, i, s, r + Comma(more), Closed)
    ensures scan != Closed ==> Becomes(text, i, e, r + (Comma(more) + later), Spoilt)
  {
    match scan
    case Closed => TailCloses(text, i, a, s, r, more);
    case Running => Spoils(text, i, a, e, r, Comma(more) + [NEWLINE], Comma(more) + later);
    case Spoilt => StaysSpoilt(text, i, a, e, r, Comma(more) + later);
  }

  lemma TailCloses(text: Bytes, i: nat, a: nat, s: nat, r: Bytes, more: bool)
    requires Becomes(text, i, a, r, Closed) && At(text, a, Comma(more) + [NEWLINE]) && s == a + |Comma(more)| + 1 <= |text|
    ensures Becomes(text, i, s, r + Comma(more), Closed)
  {
    AtSplit(text, a, Comma(more), [NEWLINE]);
    KeptAt(text, a, s - 1, Comma(more));
    BlankAt(text, s - 1, NEWLINE);
    Then(text, i, a, s - 1, r, Comma(more), Closed);
    Then(text, i, s - 1, s, r + Comma(more), [], Closed);
    assert r + Comma(more) + [] == r + Comma(more);
  }

  // ---- the square ----

  // Minifying the formatted print gives the unformatted print exactly when no string in the tree runs on
  // into white space.
  lemma MinifiedPrint(t: Json)
    requires Printable(t)
    ensures Minify(Render(t, true, 0), 0) == Render(t, false, 0) <==> ScanOf(t) != Spoilt
  {
    var text, r := Render(t, true, 0), Render(t, false, 0);
    assert At(text, 0, text);
    ValueBecomes(text, 0, |text|, t, 0);
    assert r + [] == r;
  }

  // The usual case: no string value and no key ends in a backslash.
  predicate NoTrailingBackslash(t: Json)
    decreases t
  {
    match t
    case Text(s) => !EndsInBackslash(s)
    case Array(items) => forall j :: 0 <= j < |items| ==> NoTrailingBackslash(items[j])
    case Object(members) =>
      forall j :: 0 <= j < |members| ==> !EndsInBackslash(members[j].name) && NoTrailingBackslash(members[j].value)
    case _ => true
  }

  lemma {:induction false} TidyScan(t: Json)
    requires NoTrailingBackslash(t)
    ensures ScanOf(t) == Closed
    decreases t
  {
    match t
    case Array(items) => TidyItems(items, 0);
    case Object(members) => TidyObject(members, 0);
    case _ =>
  }

  lemma {:induction false} TidyItems(items: seq<Json>, j: nat)
    requires j <= |items| && forall k :: 0 <= k < |items| ==> NoTrailingBackslash(items[k])
    ensures ScanItems(items, j) == Closed
    decreases items, |items| - j
  {
    if j < |items| {
      TidyScan(items[j]);
      TidyItems(items, j + 1);
    }
  }

  lemma {:induction false} TidyObject(members: seq<Member>, j: nat)
    requires j <= |members|
    requires forall k :: 0 <= k < |members| ==> !EndsInBackslash(members[k].name) && NoTrailingBackslash(members[k].value)
    ensures TidyMembers(members, j)
    decreases members, |members| - j
  {
    if j < |members| {
      TidyScan(members[j].value);
      TidyObject(members, j + 1);
    }
  }

  lemma TidyPrint(t: Json)
    requires Printable(t) && NoTrailingBackslash(t)
    ensures Minify(Render(t, true, 0), 0) == Render(t, false, 0)
    ensures Minify(Render(t, false, 0), 0) == Render(t, false, 0)
  {
    TidyScan(t);
    MinifiedPrint(t);
    MinifyTwice(Render(t, true, 0));
  }

  // ["\\", null] keeps the space behind its comma.
  lemma SpoiltExample()
    ensures var t := Array([Text([BACKSLASH]), Null]);
      Printable(t) && Minify(Render(t, true, 0), 0) != Render(t, false, 0)
  {
    var items := [Text([BACKSLASH]), Null];
    assert ScanOf(items[0]) == Running;
    assert ScanItems(items, 0) == Spoilt;
    assert PrintableItems(items, 2) && PrintableItems(items, 1);
    MinifiedPrint(Array(items));
  }
}
