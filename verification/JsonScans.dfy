// Scanning a text of the grammar from left to right, literal by literal and number by number, to check something
// about each of them.
module JsonScans {
  import opened Bits
  import opened ByteStrings
  import opened JsonData
  import opened JsonNumber
  import opened JsonString
  import opened JsonParser
  import opened JsonGrammar

  // Keepable: a number has at most 63 bytes, a literal denotes no NUL, and its surrogates are paired. Tidy: no
  // literal ends in an escaped backslash.
  datatype Check = Keepable | Tidy

  // A literal from i to e that denotes s.
  predicate LiteralPasses(c: Check, text: Bytes, i: nat, e: nat, s: Bytes)
    requires e <= |text|
  {
    match c
    case Keepable => Paired(text, i + 1) && NulFree(s)
    case Tidy => e < 2 || text[e - 2] != BACKSLASH
  }

  predicate NumberPasses(c: Check, i: nat, e: nat) {
    c == Keepable ==> e <= i + 63
  }

  // Every literal and every number from p to f passes.
  predicate Passes(c: Check, text: Bytes, p: nat, f: nat)
    decreases |text| - p
  {
    if p >= f || p >= |text| then true
    else if text[p] == QUOTE then
      match StringValue(text, p + 1)
      case Rejected => false
      case Parsed(s, e) => LiteralPasses(c, text, p, e, s) && Passes(c, text, e, f)
    else if StartsNumber(text[p]) then
      var e := WindowEnd(text, p, |text|);
      NumberPasses(c, p, e) && Passes(c, text, e, f)
    else Passes(c, text, p + 1, f)
  }

  lemma PassesByte(c: Check, text: Bytes, p: nat, f: nat)
    requires p < |text| && text[p] != QUOTE && !StartsNumber(text[p])
    ensures Passes(c, text, p, f) == Passes(c, text, p + 1, f)
  {
  }

  lemma {:induction false} PassesBlank(c: Check, text: Bytes, p: nat, q: nat, f: nat)
    requires Blank(text, p, q)
    ensures Passes(c, text, p, f) == Passes(c, text, q, f)
    decreases q - p
  {
    if p < q {
      PassesByte(c, text, p, f);
      PassesBlank(c, text, p + 1, q, f);
    }
  }

  lemma PassesLiteral(c: Check, text: Bytes, i: nat, e: nat, s: Bytes, f: nat)
    requires StringAt(text, i, e, s)
    ensures Passes(c, text, i, f) <==> i >= f || (LiteralPasses(c, text, i, e, s) && Passes(c, text, e, f))
  {
  }

  lemma PassesNumeral(c: Check, text: Bytes, i: nat, e: nat, v: real, f: nat)
    requires NumberAt(text, i, e, v) && (e >= |text| || !IsNumberByte(text[e]))
    ensures Passes(c, text, i, f) <==> i >= f || (NumberPasses(c, i, e) && Passes(c, text, e, f))
  {
    NumberStart(text, i, e, v);
    NumberRun(text, i, e, v);
  }

  lemma PassesWord(c: Check, g: Rules, text: Bytes, i: nat, e: nat, t: Json, f: nat)
    requires ValueAt(g, text, i, e, t) && (t.Null? || t.False? || t.True?)
    ensures Passes(c, text, i, f) == Passes(c, text, e, f)
  {
    PassesByte(c, text, i, f);
    PassesByte(c, text, i + 1, f);
    PassesByte(c, text, i + 2, f);
    PassesByte(c, text, i + 3, f);
    if t.False? {
      PassesByte(c, text, i + 4, f);
    }
  }

  lemma PassesClosed(c: Check, text: Bytes, p: nat, e: nat, close: byte, f: nat)
    requires Closes(text, p, e, close) && (close == CLOSE_BRACKET || close == CLOSE_BRACE)
    ensures Passes(c, text, p, f) == Passes(c, text, e, f)
  {
    PassesBlank(c, text, p, e - 1, f);
    PassesByte(c, text, e - 1, f);
  }

  // ---- a part of a text ends behind its start ----

  lemma {:induction false} ValueEnd(g: Rules, text: Bytes, i: nat, e: nat, t: Json)
    requires ValueAt(g, text, i, e, t)
    ensures i < e <= |text|
    decreases t, 0
  {
    match t
    case Number(v) =>
      if g != Accepted {
        NumberStart(text, i, e, v);
      }
    case Array(items) =>
      if items != [] {
        ItemsEnd(g, text, i + 1, e, items, 0);
      }
    case Object(members) =>
      if members != [] {
        MembersEnd(g, text, i + 1, e, members, 0);
      }
    case _ =>
  }

  lemma {:induction false} ItemsEnd(g: Rules, text: Bytes, p: nat, e: nat, items: seq<Json>, j: nat)
    requires j < |items| && ItemsAt(g, text, p, e, items, j)
    ensures p < e <= |text|
    decreases items, |items| - j
  {
    var v, a, s := SplitItems(g, text, p, e, items, j);
    ValueEnd(g, text, v, a, items[j]);
    if j + 1 < |items| {
      ItemsEnd(g, text, s + 1, e, items, j + 1);
    }
  }

  lemma {:induction false} MembersEnd(g: Rules, text: Bytes, p: nat, e: nat, members: seq<Member>, j: nat)
    requires j < |members| && MembersAt(g, text, p, e, members, j)
    ensures p < e <= |text|
    decreases members, |members| - j
  {
    var c, v, a, s := SplitMembers(g, text, p, e, members, j);
    NameEnd(g, text, p, c, members[j].name);
    ValueEnd(g, text, v, a, members[j].value);
    if j + 1 < |members| {
      MembersEnd(g, text, s + 1, e, members, j + 1);
    }
  }

  lemma NameEnd(g: Rules, text: Bytes, p: nat, c: nat, name: Bytes)
    requires NameAt(g, text, p, c, name)
    ensures p < c < |text|
  {
    var n: nat, m: nat :| Blank(text, p, n) && LiteralAt(g, text, n, m, name) && Blank(text, m, c) && Has(text, c, COLON);
    LiteralStart(g, text, n, m, name);
  }
}
