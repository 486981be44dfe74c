// Every text of RFC 8259 has one reading, and the parser gives it exactly if the text has no long number and no
// string that the code cannot keep, and is not nested too deeply.
module JsonLimits {
  import opened Bits
  import opened ByteStrings
  import opened JsonData
  import opened JsonNumber
  import opened JsonString
  import opened JsonParser
  import opened JsonGrammar
  import opened JsonAccepts
  import opened JsonScans

  // The code can keep every number and every string from p to f.
  predicate Fits(text: Bytes, p: nat, f: nat) {
    Passes(Keepable, text, p, f)
  }

  // ---- a text that fits is one the code can keep ----

  lemma {:induction false} KeepsValue(text: Bytes, i: nat, e: nat, t: Json, f: nat)
    requires ValueAt(Standard, text, i, e, t) && (t.Number? ==> e >= |text| || !IsNumberByte(text[e]))
    requires Fits(text, i, f) && e <= f
    ensures ValueAt(Limited, text, i, e, t) && Fits(text, e, f)
    decreases t, 0
  {
    ValueEnd(Standard, text, i, e, t);
    match t
    case Number(v) => PassesNumeral(Keepable, text, i, e, v, f);
    case Text(s) => PassesLiteral(Keepable, text, i, e, s, f);
    case Array(items) =>
      PassesByte(Keepable, text, i, f);
      if items == [] {
        PassesClosed(Keepable, text, i + 1, e, CLOSE_BRACKET, f);
      } else {
        KeepsItems(text, i + 1, e, items, 0, f);
      }
    case Object(members) =>
      PassesByte(Keepable, text, i, f);
      if members == [] {
        PassesClosed(Keepable, text, i + 1, e, CLOSE_BRACE, f);
      } else {
        KeepsMembers(text, i + 1, e, members, 0, f);
      }
    case _ => PassesWord(Keepable, Standard, text, i, e, t, f);
  }

  lemma {:induction false} KeepsPadded(text: Bytes, p: nat, v: nat, a: nat, s: nat, t: Json, f: nat)
    requires Padded(Standard, text, p, v, a, s, t) && EndsElement(text, s) && s < f && Fits(text, p, f)
    ensures Padded(Limited, text, p, v, a, s, t) && Fits(text, s + 1, f)
    decreases t, 1
  {
    AfterValue(Standard, text, p, v, a, s, t);
    PassesBlank(Keepable, text, p, v, f);
    KeepsValue(text, v, a, t, f);
    PassesBlank(Keepable, text, a, s, f);
    PassesByte(Keepable, text, s, f);
  }

  lemma {:induction false} KeepsItems(text: Bytes, p: nat, e: nat, items: seq<Json>, j: nat, f: nat)
    requires j < |items| && ItemsAt(Standard, text, p, e, items, j) && Fits(text, p, f) && e <= f
    ensures ItemsAt(Limited, text, p, e, items, j) && Fits(text, e, f)
    decreases items, |items| - j
  {
    var v, a, s := SplitItems(Standard, text, p, e, items, j);
    if j + 1 < |items| {
      ItemsEnd(Standard, text, s + 1, e, items, j + 1);
    }
    KeepsPadded(text, p, v, a, s, items[j], f);
    var n := j + 1;
    if n < |items| {
      KeepsItems(text, s + 1, e, items, n, f);
    }
    ItemJoins(Limited, text, p, v, a, s, items, j, e);
  }

  lemma {:induction false} KeepsMember(text: Bytes, p: nat, c: nat, v: nat, a: nat, s: nat, member: Member, f: nat)
    requires MemberAt(Standard, text, p, c, v, a, s, member) && EndsElement(text, s) && s < f && Fits(text, p, f)
    ensures MemberAt(Limited, text, p, c, v, a, s, member) && Fits(text, s + 1, f)
    decreases member, 2
  {
    ValueEnd(Standard, text, v, a, member.value);
    KeepsName(text, p, c, member.name, f);
    KeepsPadded(text, c + 1, v, a, s, member.value, f);
  }

  lemma {:induction false} KeepsMembers(text: Bytes, p: nat, e: nat, members: seq<Member>, j: nat, f: nat)
    requires j < |members| && MembersAt(Standard, text, p, e, members, j) && Fits(text, p, f) && e <= f
    ensures MembersAt(Limited, text, p, e, members, j) && Fits(text, e, f)
    decreases members, |members| - j
  {
    var c, v, a, s := SplitMembers(Standard, text, p, e, members, j);
    if j + 1 < |members| {
      MembersEnd(Standard, text, s + 1, e, members, j + 1);
    }
    KeepsMember(text, p, c, v, a, s, members[j], f);
    var n := j + 1;
    if n < |members| {
      KeepsMembers(text, s + 1, e, members, n, f);
    }
    MemberJoins(Limited, text, p, c, v, a, s, members, j, e);
  }

  lemma KeepsName(text: Bytes, p: nat, c: nat, name: Bytes, f: nat)
    requires NameAt(Standard, text, p, c, name) && c < f && Fits(text, p, f)
    ensures NameAt(Limited, text, p, c, name) && Fits(text, c + 1, f)
  {
    var n: nat, m: nat :| Blank(text, p, n) && LiteralAt(Standard, text, n, m, name) && Blank(text, m, c) && Has(text, c, COLON);
    PassesBlank(Keepable, text, p, n, f);
    PassesLiteral(Keepable, text, n, m, name, f);
    PassesBlank(Keepable, text, m, c, f);
    PassesByte(Keepable, text, c, f);
    assert LiteralAt(Limited, text, n, m, name);
  }

  // ---- two readings of a text from the same position are the same ----

  // What is asked of the rules for a second reading: any text of RFC 8259, or what the code accepts as the same tree.
  predicate Comparable<T(==)>(h: Rules, x: T, y: T) {
    h == Standard || (h == Accepted && x == y)
  }

  // If the code accepts what stands from p to q, there is nothing in it that it cannot keep.
  predicate Carries(h: Rules, text: Bytes, p: nat, q: nat, f: nat) {
    h == Accepted && Fits(text, q, f) ==> Fits(text, p, f)
  }

  lemma AgreesLiteral(h: Rules, text: Bytes, i: nat, e: nat, s: Bytes, e': nat, s': Bytes, f: nat)
    requires StringAt(text, i, e, s) && LiteralAt(h, text, i, e', s') && Comparable(h, s, s')
    ensures s == s' && e == e' && Carries(h, text, i, e, f)
  {
    if h == Accepted {
      ReadsString(text, i, e, s);
      ReadsWholeString(text, i, e, s);
      PassesLiteral(Keepable, text, i, e, s, f);
    }
  }

  lemma AgreesNumeral(h: Rules, text: Bytes, i: nat, e: nat, v: real, e': nat, v': real, f: nat)
    requires NumberAt(text, i, e, v) && (e >= |text| || !IsNumberByte(text[e]))
    requires NumeralAt(h, text, i, e', v') && (e' >= |text| || !IsNumberByte(text[e'])) && Comparable(h, v, v')
    ensures v == v' && e == e' && Carries(h, text, i, e, f)
  {
    NumberRun(text, i, e, v);
    if h == Standard {
      OneNumber(text, i, e, v, e', v');
    } else {
      ReadsNumber(text, i, e, v);
      PassesNumeral(Keepable, text, i, e, v, f);
    }
  }

  lemma SameKind(t: Json, t': Json, b: byte)
    requires Begins(t, b) && Begins(t', b)
    ensures t.Null? == t'.Null? && t.False? == t'.False? && t.True? == t'.True? && t.Number? == t'.Number?
    ensures t.Text? == t'.Text? && t.Array? == t'.Array? && t.Object? == t'.Object?
  {
  }

  lemma {:induction false} AgreesValue(h: Rules, text: Bytes, i: nat, e: nat, t: Json, e': nat, t': Json, f: nat)
    requires ValueAt(Standard, text, i, e, t) && (t.Number? ==> e >= |text| || !IsNumberByte(text[e]))
    requires ValueAt(h, text, i, e', t') && (t'.Number? ==> e' >= |text| || !IsNumberByte(text[e'])) && Comparable(h, t, t')
    ensures t == t' && e == e' && Carries(h, text, i, e, f)
    decreases t, 0
  {
    ValueStart(Standard, text, i, e, t);
    ValueStart(h, text, i, e', t');
    SameKind(t, t', text[i]);
    match t
    case Number(v) => AgreesNumeral(h, text, i, e, v, e', t'.number, f);
    case Text(s) => AgreesLiteral(h, text, i, e, s, e', t'.text, f);
    case Array(items) => AgreesArray(h, text, i, e, items, e', t'.items, f);
    case Object(members) => AgreesObject(h, text, i, e, members, e', t'.members, f);
    case _ => PassesWord(Keepable, Standard, text, i, e, t, f);
  }

  lemma {:induction false} AgreesArray(h: Rules, text: Bytes, i: nat, e: nat, items: seq<Json>, e': nat, items': seq<Json>, f: nat)
    requires ValueAt(Standard, text, i, e, Array(items)) && ValueAt(h, text, i, e', Array(items')) && Comparable(h, items, items')
    ensures items == items' && e == e' && Carries(h, text, i, e, f)
    decreases items, |items| + 1
  {
    PassesByte(Keepable, text, i, f);
    if items != [] && items' != [] {
      AgreesItems(h, text, i + 1, e, items, 0, e', items', f);
    } else {
      NoItems(Standard, text, i + 1, e, items);
      NoItems(h, text, i + 1, e', items');
      PassesClosed(Keepable, text, i + 1, e, CLOSE_BRACKET, f);
    }
  }

  // Where the blanks before the first element or the closing bracket lead to.
  lemma NoItems(g: Rules, text: Bytes, p: nat, e: nat, items: seq<Json>)
    requires if items == [] then Closes(text, p, e, CLOSE_BRACKET) else ItemsAt(g, text, p, e, items, 0)
    ensures p <= |text| && Has(text, SkipBlanks(text, p), CLOSE_BRACKET) == (items == [])
    ensures items == [] ==> e == SkipBlanks(text, p) + 1
  {
    if items == [] {
      SkipBlank(text, p, e - 1);
    } else {
      var v := FirstItem(g, text, p, e, items);
    }
  }

  lemma {:induction false} AgreesPadded(h: Rules, text: Bytes, p: nat, v: nat, a: nat, s: nat, t: Json, v': nat, a': nat, s': nat, t': Json, f: nat)
    requires Padded(Standard, text, p, v, a, s, t) && EndsElement(text, s)
    requires Padded(h, text, p, v', a', s', t') && EndsElement(text, s') && Comparable(h, t, t')
    ensures t == t' && s == s' && Carries(h, text, p, s + 1, f)
    decreases t, 1
  {
    FirstValue(Standard, text, p, v, a, s, t);
    FirstValue(h, text, p, v', a', s', t');
    AfterValue(Standard, text, p, v, a, s, t);
    AfterValue(h, text, p, v', a', s', t');
    AgreesValue(h, text, v, a, t, a', t', f);
    PassesBlank(Keepable, text, p, v, f);
    PassesBlank(Keepable, text, a, s, f);
    PassesByte(Keepable, text, s, f);
  }

  lemma SameTails<T>(xs: seq<T>, ys: seq<T>, j: nat, n: nat)
    requires n == j + 1 && j < |xs| && j < |ys| && xs[j] == ys[j] && xs[n..] == ys[n..]
    ensures xs[j..] == ys[j..]
  {
    assert xs[j..] == [xs[j]] + xs[n..] && ys[j..] == [ys[j]] + ys[n..];
  }

  lemma {:induction false} AgreesItems(h: Rules, text: Bytes, p: nat, e: nat, items: seq<Json>, j: nat, e': nat, items': seq<Json>, f: nat)
    requires j < |items| && ItemsAt(Standard, text, p, e, items, j)
    requires j < |items'| && ItemsAt(h, text, p, e', items', j) && Comparable(h, items, items')
    ensures items[j..] == items'[j..] && e == e' && Carries(h, text, p, e, f)
    decreases items, |items| - j
  {
    var v, a, s := SplitItems(Standard, text, p, e, items, j);
    var v', a', s' := SplitItems(h, text, p, e', items', j);
    AgreesPadded(h, text, p, v, a, s, items[j], v', a', s', items'[j], f);
    var n := j + 1;
    if n < |items| {
      AgreesItems(h, text, s + 1, e, items, n, e', items', f);
    }
    SameTails(items, items', j, n);
  }

  lemma {:induction false} AgreesObject(h: Rules, text: Bytes, i: nat, e: nat, members: seq<Member>, e': nat, members': seq<Member>, f: nat)
    requires ValueAt(Standard, text, i, e, Object(members)) && ValueAt(h, text, i, e', Object(members')) && Comparable(h, members, members')
    ensures members == members' && e == e' && Carries(h, text, i, e, f)
    decreases members, |members| + 1
  {
    PassesByte(Keepable, text, i, f);
    if members != [] && members' != [] {
      AgreesMembers(h, text, i + 1, e, members, 0, e', members', f);
    } else {
      NoMembers(Standard, text, i + 1, e, members);
      NoMembers(h, text, i + 1, e', members');
      PassesClosed(Keepable, text, i + 1, e, CLOSE_BRACE, f);
    }
  }

  lemma NoMembers(g: Rules, text: Bytes, p: nat, e: nat, members: seq<Member>)
    requires if members == [] then Closes(text, p, e, CLOSE_BRACE) else MembersAt(g, text, p, e, members, 0)
    ensures p <= |text| && Has(text, SkipBlanks(text, p), CLOSE_BRACE) == (members == [])
    ensures members == [] ==> e == SkipBlanks(text, p) + 1
  {
    if members == [] {
      SkipBlank(text, p, e - 1);
    } else {
      var n := FirstMember(g, text, p, e, members);
    }
  }

  lemma {:induction false} AgreesMember(h: Rules, text: Bytes, p: nat, c: nat, v: nat, a: nat, s: nat, member: Member,
      c': nat, v': nat, a': nat, s': nat, member': Member, f: nat)
    requires MemberAt(Standard, text, p, c, v, a, s, member) && EndsElement(text, s)
    requires MemberAt(h, text, p, c', v', a', s', member') && EndsElement(text, s') && Comparable(h, member, member')
    ensures member == member' && s == s' && Carries(h, text, p, s + 1, f)
    decreases member, 2
  {
    AgreesName(h, text, p, c, member.name, c', member'.name, f);
    AgreesPadded(h, text, c + 1, v, a, s, member.value, v', a', s', member'.value, f);
  }

  lemma {:induction false} AgreesMembers(h: Rules, text: Bytes, p: nat, e: nat, members: seq<Member>, j: nat, e': nat, members': seq<Member>, f: nat)
    requires j < |members| && MembersAt(Standard, text, p, e, members, j)
    requires j < |members'| && MembersAt(h, text, p, e', members', j) && Comparable(h, members, members')
    ensures members[j..] == members'[j..] && e == e' && Carries(h, text, p, e, f)
    decreases members, |members| - j
  {
    var c, v, a, s := SplitMembers(Standard, text, p, e, members, j);
    var c', v', a', s' := SplitMembers(h, text, p, e', members', j);
    AgreesMember(h, text, p, c, v, a, s, members[j], c', v', a', s', members'[j], f);
    var n := j + 1;
    if n < |members| {
      AgreesMembers(h, text, s + 1, e, members, n, e', members', f);
    }
    SameTails(members, members', j, n);
  }

  lemma AgreesName(h: Rules, text: Bytes, p: nat, c: nat, name: Bytes, c': nat, name': Bytes, f: nat)
    requires NameAt(Standard, text, p, c, name) && NameAt(h, text, p, c', name') && Comparable(h, name, name')
    ensures name == name' && c == c' && Carries(h, text, p, c + 1, f)
  {
    var n: nat, m: nat :| Blank(text, p, n) && LiteralAt(Standard, text, n, m, name) && Blank(text, m, c) && Has(text, c, COLON);
    var n': nat, m': nat :| Blank(text, p, n') && LiteralAt(h, text, n', m', name') && Blank(text, m', c') && Has(text, c', COLON);
    LiteralStart(Standard, text, n, m, name);
    LiteralStart(h, text, n', m', name');
    SkipBlank(text, p, n);
    SkipBlank(text, p, n');
    AgreesLiteral(h, text, n, m, name, m', name', f);
    SkipBlank(text, m, c);
    SkipBlank(text, m, c');
    PassesBlank(Keepable, text, p, n, f);
    PassesBlank(Keepable, text, m, c, f);
    PassesByte(Keepable, text, c, f);
  }

  // ---- what follows for the parser ----

  // A text of RFC 8259 has one value and one end from a position on, unless a number could be extended there.
  lemma OneReading(text: Bytes, i: nat, e: nat, t: Json, e': nat, t': Json)
    requires ValueAt(Standard, text, i, e, t) && (t.Number? ==> e >= |text| || !IsNumberByte(text[e]))
    requires ValueAt(Standard, text, i, e', t') && (t'.Number? ==> e' >= |text| || !IsNumberByte(text[e']))
    ensures t == t' && e == e'
  {
    AgreesValue(Standard, text, i, e, t, e', t', 0);
  }

  // A text of RFC 8259 is among those the parser accepts, with the same tree and the same end, exactly if it has no
  // number of more than 63 bytes, no NUL in a string and no surrogate that is no half of a pair.
  lemma StandardIsAccepted(text: Bytes, i: nat, e: nat, t: Json)
    requires ValueAt(Standard, text, i, e, t) && (t.Number? ==> e >= |text| || !IsNumberByte(text[e]))
    ensures ValueAt(Accepted, text, i, e, t) <==> Fits(text, i, e)
  {
    if Fits(text, i, e) {
      var depth: int := 0 - Nesting(t);
      KeepsValue(text, i, e, t, e);
      ParsesValue(Limited, text, i, e, t, depth);
      AcceptsValue(text, i, depth, t, e);
    }
    if ValueAt(Accepted, text, i, e, t) {
      AgreesValue(Accepted, text, i, e, t, e, t, e);
    }
  }

  // So the parser reads a text of RFC 8259 as the tree it denotes, up to its end, exactly if it is one of those and
  // nested at most to the limit; if only its nesting is too deep it is rejected.
  lemma ReadsExactly(text: Bytes, i: nat, e: nat, t: Json, depth: int)
    requires ValueAt(Standard, text, i, e, t) && (t.Number? ==> e >= |text| || !IsNumberByte(text[e]))
    requires depth <= NESTING_LIMIT
    ensures i <= |text|
    ensures ParseValue(text, i, depth) == Parsed(t, e) <==> Fits(text, i, e) && depth + Nesting(t) <= 1000
    ensures Fits(text, i, e) ==> ParseValue(text, i, depth) == Outcome(depth + Nesting(t), t, e)
  {
    ValueStart(Standard, text, i, e, t);
    StandardIsAccepted(text, i, e, t);
    AcceptsExactly(text, i, depth, t, e);
    if Fits(text, i, e) {
      KeepsValue(text, i, e, t, e);
      ParsesValue(Limited, text, i, e, t, depth);
    }
  }

  // ---- texts of RFC 8259 that the parser does not read ----

  // An array of one number with more than 63 digits: reading stops inside the number.
  lemma LongNumberRejected(ds: Bytes, depth: int)
    requires AllDigits(ds) && |ds| > WINDOW
    ensures var text := [OPEN_BRACKET] + ds + [CLOSE_BRACKET];
      && ValueAt(Standard, text, 0, |text|, Array([Number(Digits(ds, 0) as real)]))
      && ParseValue(text, 0, depth) == Rejected
  {
    var text := [OPEN_BRACKET] + ds + [CLOSE_BRACKET];
    LongNumberAt(text, ds, Digits(ds, 0) as real);
    WindowEndAt(text, 1, 1 + WINDOW, 1 + WINDOW);
    DigitsEndAt(text, 1, 1 + WINDOW, 1 + WINDOW);
    StopsInside(text, depth, 1 + WINDOW);
  }

  lemma LongNumberAt(text: Bytes, ds: Bytes, v: real)
    requires ds != [] && AllDigits(ds) && text == [OPEN_BRACKET] + ds + [CLOSE_BRACKET] && v == Digits(ds, 0) as real
    ensures ValueAt(Standard, text, 0, |text|, Array([Number(v)]))
  {
    DigitsToken(text, 1, ds);
    OneItem(text, |text| - 1, [Number(v)]);
  }

  lemma OneItem(text: Bytes, a: nat, items: seq<Json>)
    requires |items| == 1 && Has(text, 0, OPEN_BRACKET) && ValueAt(Standard, text, 1, a, items[0]) && Has(text, a, CLOSE_BRACKET)
    ensures ValueAt(Standard, text, 0, a + 1, Array(items))
  {
    assert Padded(Standard, text, 1, 1, a, a, items[0]);
    ItemJoins(Standard, text, 1, 1, a, a, items, 0, a + 1);
  }

  lemma DigitsToken(text: Bytes, i: nat, ds: Bytes)
    requires At(text, i, ds) && AllDigits(ds) && ds != []
    ensures NumberAt(text, i, i + |ds|, Digits(ds, 0) as real)
  {
    var token := NumberToken(false, ds, [], NoExp);
    assert TokenText(token) == ds;
    assert ValidToken(token);
  }

  // Neither a comma nor a bracket can be found behind the digits that were read.
  lemma StopsInside(text: Bytes, depth: int, w: nat)
    requires Has(text, 0, OPEN_BRACKET) && 1 < w < |text| && IsDigit(text[1]) && IsDigit(text[w])
    requires WindowEnd(text, 1, 1 + WINDOW) == w && DigitsEnd(text, 1, w) == w
    ensures ParseValue(text, 0, depth) == Rejected
  {
    assert ParseNumber(text, 1).Parsed? ==> ParseNumber(text, 1).next == w;
    SkipBlank(text, 1, 1);
    SkipBlank(text, w, w);
    Dispatch(text, 1, depth + 1);
    assert ParseItems(text, 0, depth + 1) == Rejected;
  }

  // The string of one \u escape is read as what it denotes exactly if it is neither NUL nor half of a pair.
  lemma OneEscape(text: Bytes, unit: nat)
    requires |text| == 8 && text[0] == QUOTE && EscapeAt(text, 1) && text[7] == QUOTE && unit == Hex4At(text, 3)
    ensures StringAt(text, 0, 8, Utf8(unit))
    ensures ParseString(text, 0) == if unit == 0 then Parsed([], 8) else if IsSurrogate(unit) then Rejected else Parsed(Utf8(unit), 8)
  {
    assert StringValue(text, 7) == Parsed([], 8);
    assert Utf8(unit) + [] == Utf8(unit);
    assert Paired(text, 1) == !IsSurrogate(unit);
    ReadsString(text, 0, 8, Utf8(unit));
    CStringOfText(Utf8(unit));
    if unit == 0 {
      StrEndIs([0], 0, 0);
    }
  }
}
