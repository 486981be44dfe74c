// The JSON texts of RFC 8259, told by where their parts stand, and the proof that the parser reads those whose
// numbers and strings it can keep as the value they denote unless they are nested too deeply. JsonLimits has
// the other texts as well.
module JsonGrammar {
  import opened Bits
  import opened ByteStrings
  import opened JsonData
  import opened JsonNumber
  import opened JsonString
  import opened JsonParser

  // Blanks are any bytes up to 32, a superset of the white space of section 2.
  ghost predicate Blank(text: Bytes, i: nat, e: nat)
    decreases e - i
  {
    i <= e <= |text| && (i < e ==> text[i] <= SPACE && Blank(text, i + 1, e))
  }

  lemma {:induction false} BlankJoin(text: Bytes, p: nat, q: nat, e: nat)
    requires Blank(text, p, q) && Blank(text, q, e)
    ensures Blank(text, p, e)
    decreases q - p
  {
    if p < q {
      BlankJoin(text, p + 1, q, e);
    }
  }

  // Standard: strings and numbers as RFC 8259 has them, which denote what it says. Limited: those of them that
  // the code can keep. Accepted: whatever parse_string and parse_number accept, which LooseStrings and LooseNumbers
  // tell apart from them. What is around them is the same grammar.
  datatype Rules = Standard | Limited | Accepted

  ghost predicate LiteralAt(g: Rules, text: Bytes, i: nat, e: nat, s: Bytes) {
    match g
    case Standard => StringAt(text, i, e, s)
    case Limited => StringAt(text, i, e, s) && Paired(text, i + 1) && NulFree(s)
    case Accepted => i < |text| && ParseString(text, i) == Parsed(s, e)
  }

  ghost predicate NumeralAt(g: Rules, text: Bytes, i: nat, e: nat, v: real) {
    match g
    case Standard => NumberAt(text, i, e, v)
    case Limited => NumberAt(text, i, e, v) && e <= i + 63
    case Accepted => i < |text| && StartsNumber(text[i]) && ParseNumber(text, i) == Parsed(Number(v), e)
  }

  // The text from i to e is a value of the grammar and denotes t.
  ghost predicate ValueAt(g: Rules, text: Bytes, i: nat, e: nat, t: Json)
    decreases t, 0
  {
    match t
    case Null => NullAt(text, i) && e == i + 4
    case False => FalseAt(text, i) && e == i + 5
    case True => TrueAt(text, i) && e == i + 4
    case Number(v) => NumeralAt(g, text, i, e, v)
    case Text(s) => LiteralAt(g, text, i, e, s)
    case Array(items) =>
      Has(text, i, OPEN_BRACKET) && if items == [] then Closes(text, i + 1, e, CLOSE_BRACKET) else ItemsAt(g, text, i + 1, e, items, 0)
    case Object(members) =>
      Has(text, i, OPEN_BRACE) && if members == [] then Closes(text, i + 1, e, CLOSE_BRACE) else MembersAt(g, text, i + 1, e, members, 0)
  }

  // Blanks up to the byte that closes a list just before e.
  ghost predicate Closes(text: Bytes, p: nat, e: nat, close: byte) {
    0 < e && Blank(text, p, e - 1) && Has(text, e - 1, close)
  }

  // A value with blanks around it: it stands from v to a, and the byte at s follows.
  ghost predicate Padded(g: Rules, text: Bytes, p: nat, v: nat, a: nat, s: nat, t: Json)
    decreases t, 1
  {
    Blank(text, p, v) && ValueAt(g, text, v, a, t) && Blank(text, a, s)
  }

  // The elements from index j stand from p on, up to the closing bracket just before e.
  ghost predicate ItemsAt(g: Rules, text: Bytes, p: nat, e: nat, items: seq<Json>, j: nat)
    requires j < |items|
    decreases items, |items| - j
  {
    exists v: nat, a: nat, s: nat ::
      Padded(g, text, p, v, a, s, items[j]) && Follows(text, s, e, j + 1 == |items|, CLOSE_BRACKET)
      && (j + 1 < |items| ==> ItemsAt(g, text, s + 1, e, items, j + 1))
  }

  // After the last part of a list it is closed just before e; a comma comes after the others.
  predicate Follows(text: Bytes, s: nat, e: nat, last: bool, close: byte) {
    if last then Has(text, s, close) && e == s + 1 else Has(text, s, COMMA)
  }

  ghost predicate NameAt(g: Rules, text: Bytes, p: nat, c: nat, name: Bytes) {
    exists n: nat, m: nat :: Blank(text, p, n) && LiteralAt(g, text, n, m, name) && Blank(text, m, c) && Has(text, c, COLON)
  }

  // The members from index j stand from p on, up to the closing brace just before e.
  ghost predicate MembersAt(g: Rules, text: Bytes, p: nat, e: nat, members: seq<Member>, j: nat)
    requires j < |members|
    decreases members, |members| - j
  {
    exists c: nat, v: nat, a: nat, s: nat ::
      MemberAt(g, text, p, c, v, a, s, members[j]) && Follows(text, s, e, j + 1 == |members|, CLOSE_BRACE)
      && (j + 1 < |members| ==> MembersAt(g, text, s + 1, e, members, j + 1))
  }

  // A member from p on: its colon stands at c, its value from v to a, and the byte at s follows.
  ghost predicate MemberAt(g: Rules, text: Bytes, p: nat, c: nat, v: nat, a: nat, s: nat, member: Member)
    decreases member, 0
  {
    NameAt(g, text, p, c, member.name) && Padded(g, text, c + 1, v, a, s, member.value)
  }

  // ---- scalars and blanks ----

  lemma {:induction false} SkipBlank(text: Bytes, i: nat, e: nat)
    requires Blank(text, i, e) && e < |text| && text[e] > SPACE
    ensures SkipBlanks(text, i) == e
    decreases e - i
  {
    assert BlankEnd(text, i) == e by {
      BlankEndIs(text, i, e);
    }
  }

  lemma {:induction false} BlankEndIs(text: Bytes, i: nat, e: nat)
    requires Blank(text, i, e) && e < |text| && text[e] > SPACE
    ensures BlankEnd(text, i) == e
    decreases e - i
  {
    if i < e {
      BlankEndIs(text, i + 1, e);
    }
  }

  // parse_value tells the kind of a value by its first byte.
  lemma Dispatch(text: Bytes, i: nat, depth: int)
    requires i < |text|
    ensures Has(text, i, OPEN_BRACKET) ==> ParseValue(text, i, depth) == ParseArray(text, i, depth)
    ensures Has(text, i, OPEN_BRACE) ==> ParseValue(text, i, depth) == ParseObject(text, i, depth)
    ensures StartsNumber(text[i]) ==> ParseValue(text, i, depth) == ParseNumber(text, i)
    ensures Has(text, i, QUOTE) && ParseString(text, i).Parsed? ==>
      ParseValue(text, i, depth) == Parsed(Text(ParseString(text, i).value), ParseString(text, i).next)
  {
  }

  // The first byte of a value: never blank, and none of the bytes that end a list.
  predicate StartsValue(b: byte) {
    b == 110 || b == 102 || b == 116 || b == QUOTE || StartsNumber(b) || b == OPEN_BRACKET || b == OPEN_BRACE
  }

  // The first byte of a value tells its kind.
  predicate Begins(t: Json, b: byte) {
    match t
    case Null => b == 110
    case False => b == 102
    case True => b == 116
    case Number(_) => StartsNumber(b)
    case Text(_) => b == QUOTE
    case Array(_) => b == OPEN_BRACKET
    case Object(_) => b == OPEN_BRACE
  }

  lemma ValueStart(g: Rules, text: Bytes, i: nat, e: nat, t: Json)
    requires ValueAt(g, text, i, e, t)
    ensures i < |text| && StartsValue(text[i]) && Begins(t, text[i])
  {
    match t
    case Number(v) =>
      if g != Accepted {
        NumberStart(text, i, e, v);
      }
    case Text(s) => LiteralStart(g, text, i, e, s);
    case _ =>
  }

  lemma LiteralStart(g: Rules, text: Bytes, i: nat, e: nat, s: Bytes)
    requires LiteralAt(g, text, i, e, s)
    ensures i < e <= |text| && text[i] == QUOTE
  {
  }

  lemma ReadsLiteral(g: Rules, text: Bytes, i: nat, e: nat, s: Bytes)
    requires LiteralAt(g, text, i, e, s) && g != Standard
    ensures i < e <= |text| && text[i] == QUOTE && ParseString(text, i) == Parsed(s, e)
  {
    LiteralStart(g, text, i, e, s);
    if g == Limited {
      ReadsWholeString(text, i, e, s);
    }
  }

  lemma ReadsNumeral(g: Rules, text: Bytes, i: nat, e: nat, v: real)
    requires NumeralAt(g, text, i, e, v) && g != Standard && (g == Accepted || e >= |text| || !IsNumberByte(text[e]))
    ensures i < |text| && StartsNumber(text[i]) && ParseNumber(text, i) == Parsed(Number(v), e)
  {
    if g == Limited {
      NumberStart(text, i, e, v);
      ReadsNumber(text, i, e, v);
    }
  }

  // The parser finds the name of a member and the colon after it.
  lemma FindsName(g: Rules, text: Bytes, p: nat, k: nat, c: nat, name: Bytes)
    requires g != Standard && NameAt(g, text, p, c, name)
    requires k < |text| && p <= |text| && SkipBlanks(text, k + 1) == SkipBlanks(text, p)
    ensures k + 1 < |text| && ParseName(text, k) == Parsed(name, c) && Has(text, c, COLON)
  {
    var n: nat, m: nat :| Blank(text, p, n) && LiteralAt(g, text, n, m, name) && Blank(text, m, c) && Has(text, c, COLON);
    ReadsLiteral(g, text, n, m, name);
    SkipBlank(text, p, n);
    SkipBlank(text, m, c);
  }

  // Skipping the blanks before the first element leads to its first byte.
  lemma FirstItem(g: Rules, text: Bytes, p: nat, e: nat, items: seq<Json>) returns (v: nat)
    requires items != [] && ItemsAt(g, text, p, e, items, 0)
    ensures p <= v < |text| && StartsValue(text[v]) && SkipBlanks(text, p) == v && SkipBlanks(text, v) == v
  {
    var a, s;
    v, a, s := SplitItems(g, text, p, e, items, 0);
    FirstValue(g, text, p, v, a, s, items[0]);
  }

  // Skipping the blanks before the first member leads to its quote.
  lemma FirstMember(g: Rules, text: Bytes, p: nat, e: nat, members: seq<Member>) returns (n: nat)
    requires members != [] && MembersAt(g, text, p, e, members, 0)
    ensures p <= n < |text| && text[n] == QUOTE && SkipBlanks(text, p) == n && SkipBlanks(text, n) == n
  {
    var c, v, a, s := SplitMembers(g, text, p, e, members, 0);
    n := FirstName(g, text, p, c, members[0].name);
  }

  lemma FirstName(g: Rules, text: Bytes, p: nat, c: nat, name: Bytes) returns (n: nat)
    requires NameAt(g, text, p, c, name)
    ensures p <= n < |text| && text[n] == QUOTE && SkipBlanks(text, p) == n && SkipBlanks(text, n) == n
  {
    var m: nat;
    n, m :| Blank(text, p, n) && LiteralAt(g, text, n, m, name) && Blank(text, m, c) && Has(text, c, COLON);
    LiteralStart(g, text, n, m, name);
    SkipBlank(text, p, n);
    SkipBlank(text, n, n);
  }

  lemma FirstValue(g: Rules, text: Bytes, p: nat, v: nat, a: nat, s: nat, t: Json)
    requires Padded(g, text, p, v, a, s, t)
    ensures ValueAt(g, text, v, a, t)
    ensures p <= v < |text| && StartsValue(text[v]) && SkipBlanks(text, p) == v && SkipBlanks(text, v) == v
  {
    ValueStart(g, text, v, a, t);
    SkipBlank(text, p, v);
    SkipBlank(text, v, v);
  }

  predicate EndsElement(text: Bytes, s: nat) {
    s < |text| && (text[s] == COMMA || text[s] == CLOSE_BRACKET || text[s] == CLOSE_BRACE)
  }

  lemma AfterValue(g: Rules, text: Bytes, p: nat, v: nat, a: nat, s: nat, t: Json)
    requires Padded(g, text, p, v, a, s, t) && EndsElement(text, s)
    ensures a < |text| && !IsNumberByte(text[a]) && SkipBlanks(text, a) == s
  {
    SkipBlank(text, a, s);
  }

  lemma SplitItems(g: Rules, text: Bytes, p: nat, e: nat, items: seq<Json>, j: nat) returns (v: nat, a: nat, s: nat)
    requires j < |items| && ItemsAt(g, text, p, e, items, j)
    ensures Padded(g, text, p, v, a, s, items[j]) && Follows(text, s, e, j + 1 == |items|, CLOSE_BRACKET)
    ensures j + 1 < |items| ==> ItemsAt(g, text, s + 1, e, items, j + 1)
  {
    v, a, s :| Padded(g, text, p, v, a, s, items[j]) && Follows(text, s, e, j + 1 == |items|, CLOSE_BRACKET)
      && (j + 1 < |items| ==> ItemsAt(g, text, s + 1, e, items, j + 1));
  }

  lemma SplitMembers(g: Rules, text: Bytes, p: nat, e: nat, members: seq<Member>, j: nat) returns (c: nat, v: nat, a: nat, s: nat)
    requires j < |members| && MembersAt(g, text, p, e, members, j)
    ensures MemberAt(g, text, p, c, v, a, s, members[j]) && Follows(text, s, e, j + 1 == |members|, CLOSE_BRACE)
    ensures j + 1 < |members| ==> MembersAt(g, text, s + 1, e, members, j + 1)
  {
    c, v, a, s :| MemberAt(g, text, p, c, v, a, s, members[j]) && Follows(text, s, e, j + 1 == |members|, CLOSE_BRACE)
      && (j + 1 < |members| ==> MembersAt(g, text, s + 1, e, members, j + 1));
  }

  lemma ItemJoins(g: Rules, text: Bytes, p: nat, v: nat, a: nat, s: nat, items: seq<Json>, j: nat, e: nat)
    requires j < |items| && Padded(g, text, p, v, a, s, items[j]) && Follows(text, s, e, j + 1 == |items|, CLOSE_BRACKET)
    requires j + 1 < |items| ==> ItemsAt(g, text, s + 1, e, items, j + 1)
    ensures ItemsAt(g, text, p, e, items, j)
  {
  }

  lemma MemberJoins(g: Rules, text: Bytes, p: nat, c: nat, v: nat, a: nat, s: nat, members: seq<Member>, j: nat, e: nat)
    requires j < |members| && MemberAt(g, text, p, c, v, a, s, members[j])
    requires Follows(text, s, e, j + 1 == |members|, CLOSE_BRACE)
    requires j + 1 < |members| ==> MembersAt(g, text, s + 1, e, members, j + 1)
    ensures MembersAt(g, text, p, e, members, j)
  {
  }

  // The parser finds the name of the member at index j and the value after its colon.
  lemma LocateMember(g: Rules, text: Bytes, p: nat, k: nat, e: nat, members: seq<Member>, j: nat) returns (c: nat, v: nat, a: nat, s: nat)
    requires g != Standard && j < |members| && MembersAt(g, text, p, e, members, j)
    requires k < |text| && p <= |text| && SkipBlanks(text, k + 1) == SkipBlanks(text, p)
    ensures k + 1 < |text| && c < |text| && ParseName(text, k) == Parsed(members[j].name, c)
    ensures Padded(g, text, c + 1, v, a, s, members[j].value) && Follows(text, s, e, j + 1 == |members|, CLOSE_BRACE)
    ensures j + 1 < |members| ==> MembersAt(g, text, s + 1, e, members, j + 1)
  {
    c, v, a, s := SplitMembers(g, text, p, e, members, j);
    FindsName(g, text, p, k, c, members[j].name);
  }

  // ---- one step of the list parsers, given how reading the parts turns out ----

  // The outcome for a construct nested to the given depth in all.
  function Outcome<T>(depth: int, value: T, next: nat): Parsed<T> {
    if depth <= NESTING_LIMIT then Parsed(value, next) else Rejected
  }

  // The outcome for a list whose first part is nested to the given depth in all.
  function Prefixed<T>(depth: int, first: T, rest: Parsed<seq<T>>): Parsed<seq<T>> {
    if depth > NESTING_LIMIT || rest.Rejected? then Rejected else Parsed([first] + rest.value, rest.next)
  }

  lemma PrefixedOutcome<T>(depth: int, d: nat, xs: seq<T>, j: nat, d': nat, e: nat)
    requires j < |xs|
    ensures Prefixed(depth + d, xs[j], Outcome(depth + d', xs[j + 1..], e)) == Outcome(depth + Max(d, d'), xs[j..], e)
  {
    assert xs[j..] == [xs[j]] + xs[j + 1..];
  }

  lemma StepElement(text: Bytes, k: nat, depth: int, item: Json, d: nat, v: nat, a: nat, s: nat)
    requires k < |text| && SkipBlanks(text, k + 1) == v
    requires ParseValue(text, v, depth) == Outcome(depth + d, item, a) && a < |text| && SkipBlanks(text, a) == s
    ensures ParseElement(text, k, depth) == Outcome(depth + d, item, s)
  {
  }

  lemma StepItems(text: Bytes, k: nat, depth: int, first: Json, d: nat, s: nat)
    requires k < |text| && ParseElement(text, k, depth) == Outcome(depth + d, first, s)
    ensures Has(text, s, CLOSE_BRACKET) ==> ParseItems(text, k, depth) == Outcome(depth + d, [first], s + 1)
    ensures Has(text, s, COMMA) ==> ParseItems(text, k, depth) == Prefixed(depth + d, first, ParseItems(text, s, depth))
  {
  }

  lemma StepArray(text: Bytes, i: nat, depth: int, items: seq<Json>, d: nat, v: nat, e: nat)
    requires Has(text, i, OPEN_BRACKET) && SkipBlanks(text, i + 1) == v
    requires i < v < |text| && text[v] != CLOSE_BRACKET
    requires depth < NESTING_LIMIT ==> ParseItems(text, v - 1, depth + 1) == Outcome(depth + 1 + d, items, e)
    ensures ParseValue(text, i, depth) == Outcome(depth + 1 + d, Array(items), e)
  {
  }

  lemma StepMember(text: Bytes, k: nat, depth: int, member: Member, c: nat, d: nat, s: nat)
    requires k + 1 < |text| && ParseName(text, k) == Parsed(member.name, c)
    requires ParseElement(text, c, depth) == Outcome(depth + d, member.value, s)
    ensures ParseMember(text, k, depth) == Outcome(depth + d, member, s)
  {
  }

  lemma StepMembers(text: Bytes, k: nat, depth: int, first: Member, d: nat, s: nat)
    requires k + 1 < |text| && ParseMember(text, k, depth) == Outcome(depth + d, first, s)
    ensures Has(text, s, CLOSE_BRACE) ==> ParseMembers(text, k, depth) == Outcome(depth + d, [first], s + 1)
    ensures Has(text, s, COMMA) ==> ParseMembers(text, k, depth) == Prefixed(depth + d, first, ParseMembers(text, s, depth))
  {
  }

  lemma StepObject(text: Bytes, i: nat, depth: int, members: seq<Member>, d: nat, n: nat, e: nat)
    requires Has(text, i, OPEN_BRACE) && SkipBlanks(text, i + 1) == n
    requires i < n < |text| && text[n] != CLOSE_BRACE
    requires depth < NESTING_LIMIT ==> ParseMembers(text, n - 1, depth + 1) == Outcome(depth + 1 + d, members, e)
    ensures ParseValue(text, i, depth) == Outcome(depth + 1 + d, Object(members), e)
  {
  }

  lemma StepEmpty(text: Bytes, i: nat, e: nat, depth: int)
    requires i < |text|
    ensures Has(text, i, OPEN_BRACKET) && Closes(text, i + 1, e, CLOSE_BRACKET) ==>
      ParseValue(text, i, depth) == Outcome(depth + 1, Array([]), e)
    ensures Has(text, i, OPEN_BRACE) && Closes(text, i + 1, e, CLOSE_BRACE) ==>
      ParseValue(text, i, depth) == Outcome(depth + 1, Object([]), e)
  {
    Dispatch(text, i, depth);
    if Closes(text, i + 1, e, CLOSE_BRACKET) || Closes(text, i + 1, e, CLOSE_BRACE) {
      SkipBlank(text, i + 1, e - 1);
    }
  }

  // ---- the parser accepts the grammar ----

  lemma ParsesScalar(g: Rules, text: Bytes, i: nat, e: nat, t: Json, depth: int)
    requires g != Standard && ValueAt(g, text, i, e, t) && !t.Array? && !t.Object?
    requires g == Limited && t.Number? ==> e >= |text| || !IsNumberByte(text[e])
    ensures i < |text| && ParseValue(text, i, depth) == Parsed(t, e)
  {
    ValueStart(g, text, i, e, t);
    match t
    case Number(v) =>
      ReadsNumeral(g, text, i, e, v);
      Dispatch(text, i, depth);
    case Text(s) =>
      ReadsLiteral(g, text, i, e, s);
      Dispatch(text, i, depth);
    case _ =>
  }

  // A text of the grammar that the code can keep, followed by no byte that could extend a number, is read as
  // the value it denotes if it is nested at most to the limit, and rejected if it is nested more deeply.
  lemma {:induction false} ParsesValue(g: Rules, text: Bytes, i: nat, e: nat, t: Json, depth: int)
    requires g != Standard && ValueAt(g, text, i, e, t) && depth <= NESTING_LIMIT
    requires g == Limited && t.Number? ==> e >= |text| || !IsNumberByte(text[e])
    ensures i < |text| && ParseValue(text, i, depth) == Outcome(depth + Nesting(t), t, e)
    decreases t, 0
  {
    match t
    case Array(items) =>
      if items == [] {
        StepEmpty(text, i, e, depth);
      } else {
        ParsesArray(g, text, i, e, items, depth, ItemsNesting(items, 0));
      }
    case Object(members) =>
      if members == [] {
        StepEmpty(text, i, e, depth);
      } else {
        ParsesObject(g, text, i, e, members, depth, MembersNesting(members, 0));
      }
    case _ => ParsesScalar(g, text, i, e, t, depth);
  }

  // The value stands at p; reading may start at any byte k whose successor skips to the value.
  lemma {:induction false} ParsesElement(g: Rules, text: Bytes, p: nat, k: nat, v: nat, a: nat, s: nat, t: Json, depth: int)
    requires g != Standard && Padded(g, text, p, v, a, s, t) && depth <= NESTING_LIMIT
    requires EndsElement(text, s)
    requires k < |text| && p <= |text| && SkipBlanks(text, k + 1) == SkipBlanks(text, p)
    ensures ParseElement(text, k, depth) == Outcome(depth + Nesting(t), t, s)
    decreases t, 1
  {
    FirstValue(g, text, p, v, a, s, t);
    AfterValue(g, text, p, v, a, s, t);
    ParsesValue(g, text, v, a, t, depth);
    StepElement(text, k, depth, t, Nesting(t), v, a, s);
  }

  lemma {:induction false} ParsesArray(g: Rules, text: Bytes, i: nat, e: nat, items: seq<Json>, depth: int, n: nat)
    requires g != Standard && items != [] && Has(text, i, OPEN_BRACKET) && ItemsAt(g, text, i + 1, e, items, 0) && depth <= NESTING_LIMIT
    requires n == ItemsNesting(items, 0)
    ensures ParseValue(text, i, depth) == Outcome(depth + 1 + n, Array(items), e)
    decreases items, |items| + 1
  {
    var v := FirstItem(g, text, i + 1, e, items);
    if depth < NESTING_LIMIT {
      ParsesItems(g, text, i + 1, v - 1, e, items, 0, depth + 1, n, ParseItems(text, v - 1, depth + 1));
    }
    StepArray(text, i, depth, items, n, v, e);
  }

  // The elements from j stand at p; reading may start at any byte k whose successor skips to the first of them.
  // The nesting n and the result r of reading are parameters to keep the proof small.
  lemma {:induction false} ParsesItems(g: Rules, text: Bytes, p: nat, k: nat, e: nat, items: seq<Json>, j: nat, depth: int, n: nat, r: Parsed<seq<Json>>)
    requires g != Standard && j < |items| && ItemsAt(g, text, p, e, items, j) && depth <= NESTING_LIMIT
    requires k < |text| && p <= |text| && SkipBlanks(text, k + 1) == SkipBlanks(text, p)
    requires n == ItemsNesting(items, j) && r == ParseItems(text, k, depth)
    ensures r == Outcome(depth + n, items[j..], e)
    decreases items, |items| - j, 2
  {
    var s, d, r' := ParsesHeadItem(g, text, p, k, e, items, j, depth, n, r);
    if j + 1 < |items| {
      var n' := ItemsNesting(items, j + 1);
      ParsesItems(g, text, s + 1, s, e, items, j + 1, depth, n', r');
      PrefixedOutcome(depth, d, items, j, n', e);
    }
  }

  // What reading the list gives in terms of reading it from its next part on.
  lemma {:induction false} ParsesHeadItem(g: Rules, text: Bytes, p: nat, k: nat, e: nat, items: seq<Json>, j: nat, depth: int, n: nat, r: Parsed<seq<Json>>)
      returns (s: nat, d: nat, r': Parsed<seq<Json>>)
    requires g != Standard && j < |items| && ItemsAt(g, text, p, e, items, j) && depth <= NESTING_LIMIT && n == ItemsNesting(items, j)
    requires k < |text| && p <= |text| && SkipBlanks(text, k + 1) == SkipBlanks(text, p) && r == ParseItems(text, k, depth)
    ensures n == if j + 1 == |items| then d else Max(d, ItemsNesting(items, j + 1))
    ensures j + 1 == |items| ==> r == Outcome(depth + d, items[j..], e)
    ensures j + 1 < |items| ==> s < |text| && ItemsAt(g, text, s + 1, e, items, j + 1)
    ensures j + 1 < |items| ==> r' == ParseItems(text, s, depth) && r == Prefixed(depth + d, items[j], r')
    decreases items, |items| - j, 1
  {
    s, d := ParsesFirstItem(g, text, p, k, e, items, j, depth, n);
    StepItems(text, k, depth, items[j], d, s);
    assert j + 1 == |items| ==> items[j..] == [items[j]];
    r' := ParseItems(text, s, depth);
  }

  lemma {:induction false} ParsesFirstItem(g: Rules, text: Bytes, p: nat, k: nat, e: nat, items: seq<Json>, j: nat, depth: int, n: nat)
      returns (s: nat, d: nat)
    requires g != Standard && j < |items| && ItemsAt(g, text, p, e, items, j) && depth <= NESTING_LIMIT && n == ItemsNesting(items, j)
    requires k < |text| && p <= |text| && SkipBlanks(text, k + 1) == SkipBlanks(text, p)
    ensures n == if j + 1 == |items| then d else Max(d, ItemsNesting(items, j + 1))
    ensures s < |text| && ParseElement(text, k, depth) == Outcome(depth + d, items[j], s)
    ensures Follows(text, s, e, j + 1 == |items|, CLOSE_BRACKET)
    ensures j + 1 < |items| ==> ItemsAt(g, text, s + 1, e, items, j + 1)
    decreases items, |items| - j, 0
  {
    var v, a;
    v, a, s := SplitItems(g, text, p, e, items, j);
    d := Nesting(items[j]);
    ParsesElement(g, text, p, k, v, a, s, items[j], depth);
  }

  lemma {:induction false} ParsesObject(g: Rules, text: Bytes, i: nat, e: nat, members: seq<Member>, depth: int, n: nat)
    requires g != Standard && members != [] && Has(text, i, OPEN_BRACE) && MembersAt(g, text, i + 1, e, members, 0) && depth <= NESTING_LIMIT
    requires n == MembersNesting(members, 0)
    ensures ParseValue(text, i, depth) == Outcome(depth + 1 + n, Object(members), e)
    decreases members, |members| + 1
  {
    var q := FirstMember(g, text, i + 1, e, members);
    if depth < NESTING_LIMIT {
      ParsesMembers(g, text, i + 1, q - 1, e, members, 0, depth + 1, n, ParseMembers(text, q - 1, depth + 1));
    }
    StepObject(text, i, depth, members, n, q, e);
  }

  lemma {:induction false} ParsesMembers(g: Rules, text: Bytes, p: nat, k: nat, e: nat, members: seq<Member>, j: nat, depth: int, n: nat, r: Parsed<seq<Member>>)
    requires g != Standard && j < |members| && MembersAt(g, text, p, e, members, j) && depth <= NESTING_LIMIT
    requires k < |text| && p <= |text| && SkipBlanks(text, k + 1) == SkipBlanks(text, p)
    requires n == MembersNesting(members, j) && r == ParseMembers(text, k, depth)
    ensures r == Outcome(depth + n, members[j..], e)
    decreases members, |members| - j, 2
  {
    var s, d, r' := ParsesHeadMember(g, text, p, k, e, members, j, depth, n, r);
    if j + 1 < |members| {
      var n' := MembersNesting(members, j + 1);
      ParsesMembers(g, text, s + 1, s, e, members, j + 1, depth, n', r');
      PrefixedOutcome(depth, d, members, j, n', e);
    }
  }

  // What reading the list gives in terms of reading it from its next part on.
  lemma {:induction false} ParsesHeadMember(g: Rules, text: Bytes, p: nat, k: nat, e: nat, members: seq<Member>, j: nat, depth: int, n: nat, r: Parsed<seq<Member>>)
      returns (s: nat, d: nat, r': Parsed<seq<Member>>)
    requires g != Standard && j < |members| && MembersAt(g, text, p, e, members, j) && depth <= NESTING_LIMIT && n == MembersNesting(members, j)
    requires k < |text| && p <= |text| && SkipBlanks(text, k + 1) == SkipBlanks(text, p) && r == ParseMembers(text, k, depth)
    ensures n == if j + 1 == |members| then d else Max(d, MembersNesting(members, j + 1))
    ensures j + 1 == |members| ==> r == Outcome(depth + d, members[j..], e)
    ensures j + 1 < |members| ==> s < |text| && MembersAt(g, text, s + 1, e, members, j + 1)
    ensures j + 1 < |members| ==> r' == ParseMembers(text, s, depth) && r == Prefixed(depth + d, members[j], r')
    decreases members, |members| - j, 1
  {
    s, d := ParsesFirstMember(g, text, p, k, e, members, j, depth, n);
    StepMembers(text, k, depth, members[j], d, s);
    assert j + 1 == |members| ==> members[j..] == [members[j]];
    r' := ParseMembers(text, s, depth);
  }

  lemma {:induction false} ParsesFirstMember(g: Rules, text: Bytes, p: nat, k: nat, e: nat, members: seq<Member>, j: nat, depth: int, n: nat)
      returns (s: nat, d: nat)
    requires g != Standard && j < |members| && MembersAt(g, text, p, e, members, j) && depth <= NESTING_LIMIT && n == MembersNesting(members, j)
    requires k < |text| && p <= |text| && SkipBlanks(text, k + 1) == SkipBlanks(text, p)
    ensures n == if j + 1 == |members| then d else Max(d, MembersNesting(members, j + 1))
    ensures k + 1 < |text| && s < |text| && ParseMember(text, k, depth) == Outcome(depth + d, members[j], s)
    ensures Follows(text, s, e, j + 1 == |members|, CLOSE_BRACE)
    ensures j + 1 < |members| ==> MembersAt(g, text, s + 1, e, members, j + 1)
    decreases members, |members| - j, 0
  {
    var c, v, a;
    c, v, a, s := LocateMember(g, text, p, k, e, members, j);
    d := Nesting(members[j].value);
    ParsesElement(g, text, c + 1, c, v, a, s, members[j].value, depth);
    StepMember(text, k, depth, members[j], c, d, s);
  }
}
