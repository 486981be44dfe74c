// Minifying any text of the grammar in which no literal ends in an escaped backslash gives a text for the same tree.
module MinifiedText {
  import opened Bits
  import opened ByteStrings
  import opened JsonData
  import opened JsonNumber
  import opened JsonString
  import opened JsonParser
  import opened JsonGrammar
  import opened JsonScans
  import opened JsonLimits
  import opened JsonTexts
  import opened JsonMinify

  // What is left of the text from p on stands at q, up to the end.
  ghost predicate Reaches(text: Bytes, p: nat, out: Bytes, q: nat) {
    p <= |text| && q <= |out| && out[q..] == Minify(text, p)
  }

  // The bytes of the text from p to e stand at q as well.
  ghost predicate Copied(text: Bytes, p: nat, e: nat, out: Bytes, q: nat) {
    p <= e <= |text| && At(out, q, text[p..e])
  }

  lemma CopiedByte(text: Bytes, p: nat, e: nat, out: Bytes, q: nat, k: nat)
    requires Copied(text, p, e, out, q) && p + k < e
    ensures q + k < |out| && out[q + k] == text[p + k]
  {
    AtIndex(out, q, text[p..e], k);
  }

  lemma CopiedLater(text: Bytes, p: nat, e: nat, out: Bytes, q: nat, n: nat)
    requires Copied(text, p, e, out, q) && p + n <= e
    ensures Copied(text, p + n, e, out, q + n)
  {
    assert text[p..e] == text[p..p + n] + text[p + n..e];
    AtSplit(out, q, text[p..p + n], text[p + n..e]);
  }

  // Four digits and what is in front of them.
  lemma CopiedSix(text: Bytes, p: nat, e: nat, out: Bytes, q: nat)
    requires Copied(text, p, e, out, q) && p + 6 <= e
    ensures q + 6 <= |out| && text[p] == out[q] && text[p + 1] == out[q + 1] && text[p + 2] == out[q + 2]
    ensures text[p + 3] == out[q + 3] && text[p + 4] == out[q + 4] && text[p + 5] == out[q + 5]
  {
    CopiedByte(text, p, e, out, q, 0);
    CopiedByte(text, p, e, out, q, 1);
    CopiedByte(text, p, e, out, q, 2);
    CopiedByte(text, p, e, out, q, 3);
    CopiedByte(text, p, e, out, q, 4);
    CopiedByte(text, p, e, out, q, 5);
  }

  lemma CopiesAll(text: Bytes, p: nat, e: nat, out: Bytes, q: nat)
    requires p <= e <= |text| && Reaches(text, p, out, q) && Minify(text, p) == text[p..e] + Minify(text, e)
    ensures Copied(text, p, e, out, q) && Reaches(text, e, out, q + (e - p))
  {
    var n := e - p;
    assert out[q + n..] == out[q..][n..];
    forall k | 0 <= k < n ensures out[q + k] == text[p..e][k] {
      assert out[q..][k] == text[p..e][k];
    }
  }

  // ---- blanks, words and numbers ----

  lemma DropsBlank(text: Bytes, p: nat, out: Bytes, q: nat)
    requires p < |text| && IsBlank(text[p]) && Reaches(text, p, out, q)
    ensures Reaches(text, p + 1, out, q)
  {
  }

  predicate IsKept(b: byte) {
    !IsBlank(b) && b != SLASH && b != QUOTE
  }

  lemma KeepsByte(text: Bytes, p: nat, out: Bytes, q: nat)
    requires p < |text| && IsKept(text[p]) && Reaches(text, p, out, q)
    ensures q < |out| && out[q] == text[p] && Reaches(text, p + 1, out, q + 1)
  {
    assert text[p..p + 1] == [text[p]];
    CopiesAll(text, p, p + 1, out, q);
    CopiedByte(text, p, p + 1, out, q, 0);
  }

  // Control bytes that the minifier does not know as white space stay.
  lemma {:induction false} BlanksMove(text: Bytes, p: nat, e: nat, out: Bytes, q: nat) returns (q': nat)
    requires Blank(text, p, e) && Reaches(text, p, out, q)
    ensures Blank(out, q, q') && Reaches(text, e, out, q')
    decreases e - p
  {
    q' := q;
    if p < e {
      if IsBlank(text[p]) {
        DropsBlank(text, p, out, q);
        q' := BlanksMove(text, p + 1, e, out, q);
      } else {
        KeepsByte(text, p, out, q);
        q' := BlanksMove(text, p + 1, e, out, q + 1);
      }
    }
  }

  lemma {:induction false} MinifyKeeps(text: Bytes, p: nat, e: nat)
    requires p <= e <= |text| && forall k :: p <= k < e ==> IsKept(text[k])
    ensures Minify(text, p) == text[p..e] + Minify(text, e)
    decreases e - p
  {
    if p < e {
      var n := p + 1;
      MinifyKeeps(text, n, e);
      assert text[p..e] == [text[p]] + text[n..e];
      Regroup([text[p]], text[n..e], Minify(text, e));
    } else {
      assert text[p..e] == [];
    }
  }

  lemma WordMoves(g: Rules, text: Bytes, i: nat, e: nat, t: Json, out: Bytes, q: nat)
    requires ValueAt(g, text, i, e, t) && (t.Null? || t.False? || t.True?) && Reaches(text, i, out, q)
    ensures i <= e && ValueAt(g, out, q, q + (e - i), t) && Reaches(text, e, out, q + (e - i))
  {
    MinifyKeeps(text, i, e);
    CopiesAll(text, i, e, out, q);
    CopiedByte(text, i, e, out, q, 0);
    CopiedByte(text, i, e, out, q, 1);
    CopiedByte(text, i, e, out, q, 2);
    CopiedByte(text, i, e, out, q, 3);
    if t.False? {
      CopiedByte(text, i, e, out, q, 4);
    }
  }

  lemma NumeralMoves(g: Rules, text: Bytes, i: nat, e: nat, v: real, out: Bytes, q: nat)
    requires g != Accepted && NumeralAt(g, text, i, e, v) && Reaches(text, i, out, q)
    ensures i <= e && NumeralAt(g, out, q, q + (e - i), v) && Reaches(text, e, out, q + (e - i))
  {
    var token := TokenAt(text, i, e, v);
    NumberRun(text, i, e, v);
    MinifyKeeps(text, i, e);
    CopiesAll(text, i, e, out, q);
    assert text[i..e] == TokenText(token);
  }

  // ---- strings ----

  // The same inside a string.
  lemma {:induction false} InsideKeeps(text: Bytes, p: nat, e: nat)
    requires p <= |text| && StringValue(text, p).Parsed? && e == StringValue(text, p).next && (e < 2 || text[e - 2] != BACKSLASH)
    ensures p < e <= |text| && Inside(text, p) == text[p..e] + Minify(text, e)
    decreases |text| - p
  {
    if text[p] == QUOTE {
      assert text[p..e] == [QUOTE];
    } else if text[p] != BACKSLASH {
      InsideKeeps(text, p + 1, e);
      InsideByte(text, p, e);
    } else if EscapeAt(text, p) {
      InsideKeeps(text, p + EscapeLength(text, p), e);
      if PairAt(text, p) {
        InsideEscape(text, p + 6, e);
      }
      InsideEscape(text, p, e);
    } else {
      InsideKeeps(text, p + 2, e);
      InsideShort(text, p, e);
    }
  }

  // Being copied up to e carries over to the byte in front.
  lemma InsideByte(text: Bytes, p: nat, e: nat)
    requires p < e <= |text| && text[p] != QUOTE && !EscapedQuote(text, p) && Inside(text, p + 1) == text[p + 1..e] + Minify(text, e)
    ensures Inside(text, p) == text[p..e] + Minify(text, e)
  {
    assert text[p..e] == [text[p]] + text[p + 1..e];
    Regroup([text[p]], text[p + 1..e], Minify(text, e));
  }

  lemma InsideShort(text: Bytes, p: nat, e: nat)
    requires p + 2 < e <= |text| && text[p] == BACKSLASH && Inside(text, p + 2) == text[p + 2..e] + Minify(text, e)
    requires text[p + 1] == BACKSLASH ==> text[p + 2] != QUOTE
    ensures Inside(text, p) == text[p..e] + Minify(text, e)
  {
    if text[p + 1] == QUOTE {
      assert text[p..e] == [BACKSLASH, QUOTE] + text[p + 2..e];
      Regroup([BACKSLASH, QUOTE], text[p + 2..e], Minify(text, e));
    } else {
      InsideByte(text, p + 1, e);
      InsideByte(text, p, e);
    }
  }

  lemma InsideEscape(text: Bytes, p: nat, e: nat)
    requires EscapeAt(text, p) && p + 6 < e <= |text| && Inside(text, p + 6) == text[p + 6..e] + Minify(text, e)
    ensures Inside(text, p) == text[p..e] + Minify(text, e)
  {
    InsideByte(text, p + 5, e);
    InsideByte(text, p + 4, e);
    InsideByte(text, p + 3, e);
    InsideByte(text, p + 2, e);
    InsideByte(text, p + 1, e);
    InsideByte(text, p, e);
  }

  // An escape stands in a copy of a literal if it stands in the literal.
  lemma EscapeLocal(text: Bytes, p: nat, e: nat, out: Bytes, q: nat)
    requires StringValue(text, p).Parsed? && e == StringValue(text, p).next && Copied(text, p, e, out, q)
    ensures EscapeAt(out, q) == EscapeAt(text, p) && (EscapeAt(text, p) ==> p + 6 < e && Hex4At(out, q + 2) == Hex4At(text, p + 2))
  {
    CopiedByte(text, p, e, out, q, 0);
    if EscapeAt(text, p) {
      CopiedSix(text, p, e, out, q);
    } else if text[p] == BACKSLASH {
      CopiedByte(text, p, e, out, q, 1);
    }
  }

  // It is the same escape or pair.
  lemma UnicodeLocal(text: Bytes, p: nat, e: nat, out: Bytes, q: nat)
    requires Copied(text, p, e, out, q) && EscapeAt(text, p) && p + EscapeLength(text, p) < e
    requires var n := EscapeLength(text, p); StringValue(text, p + n).Parsed? && e == StringValue(text, p + n).next
    ensures EscapeAt(out, q) && EscapeCode(out, q) == EscapeCode(text, p) && EscapeLength(out, q) == EscapeLength(text, p)
    ensures LoneAt(out, q) == LoneAt(text, p)
  {
    CopiedSix(text, p, e, out, q);
    CopiedLater(text, p, e, out, q, 6);
    if PairAt(text, p) {
      CopiedSix(text, p + 6, e, out, q + 6);
    } else {
      EscapeLocal(text, p + 6, e, out, q + 6);
    }
  }

  // A copy of the rest of a literal denotes the same, and its surrogates are paired if they were.
  ghost predicate Alike(text: Bytes, p: nat, e: nat, out: Bytes, q: nat) {
    StringValue(text, p).Parsed? && e >= p && StringValue(out, q) == Parsed(StringValue(text, p).value, q + (e - p))
    && Paired(out, q) == Paired(text, p)
  }

  lemma {:induction false} ValueLocal(text: Bytes, p: nat, e: nat, out: Bytes, q: nat)
    requires StringValue(text, p).Parsed? && e == StringValue(text, p).next && Copied(text, p, e, out, q)
    ensures Alike(text, p, e, out, q)
    decreases |text| - p, 2
  {
    CopiedByte(text, p, e, out, q, 0);
    if text[p] == QUOTE {
    } else if text[p] != BACKSLASH {
      ValueLater(text, p, e, out, q, 1);
    } else if EscapeAt(text, p) {
      UnicodeLocal(text, p, e, out, q);
      ValueLater(text, p, e, out, q, EscapeLength(text, p));
    } else {
      ShortLocal(text, p, e, out, q);
    }
  }

  lemma {:induction false} ShortLocal(text: Bytes, p: nat, e: nat, out: Bytes, q: nat)
    requires StringValue(text, p).Parsed? && e == StringValue(text, p).next && Copied(text, p, e, out, q)
    requires text[p] == BACKSLASH && !EscapeAt(text, p)
    ensures Alike(text, p, e, out, q)
    decreases |text| - p, 1
  {
    EscapeLocal(text, p, e, out, q);
    CopiedByte(text, p, e, out, q, 0);
    CopiedByte(text, p, e, out, q, 1);
    ValueLater(text, p, e, out, q, 2);
  }

  lemma {:induction false} ValueLater(text: Bytes, p: nat, e: nat, out: Bytes, q: nat, n: nat)
    requires Copied(text, p, e, out, q) && 0 < n && p + n < e
    requires StringValue(text, p + n).Parsed? && e == StringValue(text, p + n).next
    ensures Alike(text, p + n, e, out, q + n)
    decreases |text| - p, 0
  {
    CopiedLater(text, p, e, out, q, n);
    ValueLocal(text, p + n, e, out, q + n);
  }

  lemma LiteralMoves(g: Rules, text: Bytes, i: nat, e: nat, s: Bytes, out: Bytes, q: nat)
    requires g != Accepted && LiteralAt(g, text, i, e, s) && LiteralPasses(Tidy, text, i, e, s) && Reaches(text, i, out, q)
    ensures i <= e && LiteralAt(g, out, q, q + (e - i), s) && Reaches(text, e, out, q + (e - i))
  {
    InsideKeeps(text, i + 1, e);
    assert text[i..e] == [QUOTE] + text[i + 1..e];
    Regroup([QUOTE], text[i + 1..e], Minify(text, e));
    CopiesAll(text, i, e, out, q);
    CopiedByte(text, i, e, out, q, 0);
    CopiedLater(text, i, e, out, q, 1);
    ValueLocal(text, i + 1, e, out, q + 1);
  }

  // ---- values ----

  lemma {:induction false} ValueMoves(g: Rules, text: Bytes, i: nat, e: nat, t: Json, f: nat, out: Bytes, q: nat) returns (e': nat)
    requires g != Accepted && ValueAt(g, text, i, e, t) && (t.Number? ==> e >= |text| || !IsNumberByte(text[e]))
    requires Passes(Tidy, text, i, f) && e <= f && Reaches(text, i, out, q)
    ensures ValueAt(g, out, q, e', t) && Passes(Tidy, text, e, f) && Reaches(text, e, out, e')
    decreases t, 0
  {
    ValueEnd(g, text, i, e, t);
    e' := q + (e - i);
    match t
    case Number(v) =>
      NumeralMoves(g, text, i, e, v, out, q);
      PassesNumeral(Tidy, text, i, e, v, f);
    case Text(s) =>
      PassesLiteral(Tidy, text, i, e, s, f);
      LiteralMoves(g, text, i, e, s, out, q);
    case Array(items) =>
      PassesByte(Tidy, text, i, f);
      KeepsByte(text, i, out, q);
      e' := ArrayMoves(g, text, i, e, items, f, out, q);
    case Object(members) =>
      PassesByte(Tidy, text, i, f);
      KeepsByte(text, i, out, q);
      e' := ObjectMoves(g, text, i, e, members, f, out, q);
    case _ =>
      WordMoves(g, text, i, e, t, out, q);
      PassesWord(Tidy, g, text, i, e, t, f);
  }

  lemma ClosingMoves(text: Bytes, p: nat, e: nat, close: byte, f: nat, out: Bytes, q: nat) returns (e': nat)
    requires (close == CLOSE_BRACKET || close == CLOSE_BRACE) && Closes(text, p, e, close) && Reaches(text, p, out, q)
    requires Passes(Tidy, text, p, f)
    ensures Closes(out, q, e', close) && Reaches(text, e, out, e') && Passes(Tidy, text, e, f)
  {
    var s := BlanksMove(text, p, e - 1, out, q);
    KeepsByte(text, e - 1, out, s);
    PassesClosed(Tidy, text, p, e, close, f);
    e' := s + 1;
  }

  lemma {:induction false} PaddedMoves(g: Rules, text: Bytes, p: nat, v: nat, a: nat, s: nat, t: Json, f: nat, out: Bytes, q: nat)
      returns (v': nat, a': nat, s': nat)
    requires g != Accepted && Padded(g, text, p, v, a, s, t) && EndsElement(text, s) && s < f
    requires Passes(Tidy, text, p, f) && Reaches(text, p, out, q)
    ensures Padded(g, out, q, v', a', s', t) && s' < |out| && out[s'] == text[s]
    ensures Passes(Tidy, text, s + 1, f) && Reaches(text, s + 1, out, s' + 1)
    decreases t, 1
  {
    AfterValue(g, text, p, v, a, s, t);
    PassesBlank(Tidy, text, p, v, f);
    v' := BlanksMove(text, p, v, out, q);
    a' := ValueMoves(g, text, v, a, t, f, out, v');
    PassesBlank(Tidy, text, a, s, f);
    s' := BlanksMove(text, a, s, out, a');
    PassesByte(Tidy, text, s, f);
    KeepsByte(text, s, out, s');
  }

  lemma {:induction false} ArrayMoves(g: Rules, text: Bytes, i: nat, e: nat, items: seq<Json>, f: nat, out: Bytes, q: nat) returns (e': nat)
    requires g != Accepted && ValueAt(g, text, i, e, Array(items)) && e <= f && Has(out, q, OPEN_BRACKET)
    requires Passes(Tidy, text, i + 1, f) && Reaches(text, i + 1, out, q + 1)
    ensures ValueAt(g, out, q, e', Array(items)) && Passes(Tidy, text, e, f) && Reaches(text, e, out, e')
    decreases items, |items| + 1
  {
    if items == [] {
      e' := ClosingMoves(text, i + 1, e, CLOSE_BRACKET, f, out, q + 1);
    } else {
      e' := ItemsMove(g, text, i + 1, e, items, 0, f, out, q + 1);
    }
  }

  lemma {:induction false} ItemsMove(g: Rules, text: Bytes, p: nat, e: nat, items: seq<Json>, j: nat, f: nat, out: Bytes, q: nat) returns (e': nat)
    requires g != Accepted && j < |items| && ItemsAt(g, text, p, e, items, j) && e <= f
    requires Passes(Tidy, text, p, f) && Reaches(text, p, out, q)
    ensures ItemsAt(g, out, q, e', items, j) && Passes(Tidy, text, e, f) && Reaches(text, e, out, e')
    decreases items, |items| - j
  {
    var v, a, s := SplitItems(g, text, p, e, items, j);
    var n := j + 1;
    if n < |items| {
      ItemsEnd(g, text, s + 1, e, items, n);
    }
    var v', a', s' := PaddedMoves(g, text, p, v, a, s, items[j], f, out, q);
    e' := s' + 1;
    if n < |items| {
      e' := ItemsMove(g, text, s + 1, e, items, n, f, out, e');
    }
    ItemJoins(g, out, q, v', a', s', items, j, e');
  }

  lemma {:induction false} ObjectMoves(g: Rules, text: Bytes, i: nat, e: nat, members: seq<Member>, f: nat, out: Bytes, q: nat) returns (e': nat)
    requires g != Accepted && ValueAt(g, text, i, e, Object(members)) && e <= f && Has(out, q, OPEN_BRACE)
    requires Passes(Tidy, text, i + 1, f) && Reaches(text, i + 1, out, q + 1)
    ensures ValueAt(g, out, q, e', Object(members)) && Passes(Tidy, text, e, f) && Reaches(text, e, out, e')
    decreases members, |members| + 1
  {
    if members == [] {
      e' := ClosingMoves(text, i + 1, e, CLOSE_BRACE, f, out, q + 1);
    } else {
      e' := MembersMove(g, text, i + 1, e, members, 0, f, out, q + 1);
    }
  }

  lemma {:induction false} MembersMove(g: Rules, text: Bytes, p: nat, e: nat, members: seq<Member>, j: nat, f: nat, out: Bytes, q: nat)
      returns (e': nat)
    requires g != Accepted && j < |members| && MembersAt(g, text, p, e, members, j) && e <= f
    requires Passes(Tidy, text, p, f) && Reaches(text, p, out, q)
    ensures MembersAt(g, out, q, e', members, j) && Passes(Tidy, text, e, f) && Reaches(text, e, out, e')
    decreases members, |members| - j
  {
    var c, v, a, s := SplitMembers(g, text, p, e, members, j);
    var n := j + 1;
    if n < |members| {
      MembersEnd(g, text, s + 1, e, members, n);
    }
    var c', v', a', s' := MemberMoves(g, text, p, c, v, a, s, members[j], f, out, q);
    e' := s' + 1;
    if n < |members| {
      e' := MembersMove(g, text, s + 1, e, members, n, f, out, e');
    }
    MemberJoins(g, out, q, c', v', a', s', members, j, e');
  }

  lemma {:induction false} MemberMoves(g: Rules, text: Bytes, p: nat, c: nat, v: nat, a: nat, s: nat, member: Member, f: nat, out: Bytes, q: nat)
      returns (c': nat, v': nat, a': nat, s': nat)
    requires g != Accepted && MemberAt(g, text, p, c, v, a, s, member) && EndsElement(text, s) && s < f
    requires Passes(Tidy, text, p, f) && Reaches(text, p, out, q)
    ensures MemberAt(g, out, q, c', v', a', s', member) && s' < |out| && out[s'] == text[s]
    ensures Passes(Tidy, text, s + 1, f) && Reaches(text, s + 1, out, s' + 1)
    decreases member, 2
  {
    ValueEnd(g, text, v, a, member.value);
    c' := NameMoves(g, text, p, c, member.name, f, out, q);
    v', a', s' := PaddedMoves(g, text, c + 1, v, a, s, member.value, f, out, c' + 1);
  }

  lemma NameMoves(g: Rules, text: Bytes, p: nat, c: nat, name: Bytes, f: nat, out: Bytes, q: nat) returns (c': nat)
    requires g != Accepted && NameAt(g, text, p, c, name) && c < f && Passes(Tidy, text, p, f) && Reaches(text, p, out, q)
    ensures NameAt(g, out, q, c', name) && Passes(Tidy, text, c + 1, f) && Reaches(text, c + 1, out, c' + 1)
  {
    var n: nat, m: nat :| Blank(text, p, n) && LiteralAt(g, text, n, m, name) && Blank(text, m, c) && Has(text, c, COLON);
    PassesBlank(Tidy, text, p, n, f);
    var n' := BlanksMove(text, p, n, out, q);
    PassesLiteral(Tidy, text, n, m, name, f);
    LiteralMoves(g, text, n, m, name, out, n');
    var m' := n' + (m - n);
    PassesBlank(Tidy, text, m, c, f);
    c' := BlanksMove(text, m, c, out, m');
    PassesByte(Tidy, text, c, f);
    KeepsByte(text, c, out, c');
    assert LiteralAt(g, out, n', m', name);
  }

  // ---- whole texts ----

  // The whole text is a value from i to e with blanks around it.
  ghost predicate WholeAt(g: Rules, text: Bytes, i: nat, e: nat, t: Json) {
    Blank(text, 0, i) && ValueAt(g, text, i, e, t) && Blank(text, e, |text|)
  }

  lemma WholeMoves(g: Rules, text: Bytes, i: nat, e: nat, t: Json, out: Bytes) returns (i': nat, e': nat)
    requires g != Accepted && WholeAt(g, text, i, e, t) && Passes(Tidy, text, i, e) && Reaches(text, 0, out, 0)
    ensures WholeAt(g, out, i', e', t)
  {
    i' := BlanksMove(text, 0, i, out, 0);
    EndsBlank(text, e);
    e' := ValueMoves(g, text, i, e, t, e, out, i');
    var end := BlanksMove(text, e, |text|, out, e');
    NothingLeft(text, out, end);
  }

  lemma NothingLeft(text: Bytes, out: Bytes, q: nat)
    requires Reaches(text, |text|, out, q)
    ensures q == |out|
  {
    assert |out[q..]| == 0;
  }

  // Minifying a text of the grammar in which no literal ends in an escaped backslash gives a text of the grammar for
  // the same tree, and one that the code can keep if the text was.
  lemma MinifiedIsText(g: Rules, text: Bytes, i: nat, e: nat, t: Json) returns (i': nat, e': nat)
    requires g != Accepted && WholeAt(g, text, i, e, t) && Passes(Tidy, text, i, e)
    ensures WholeAt(g, Minify(text, 0), i', e', t)
  {
    var out := Minify(text, 0);
    assert out[0..] == out;
    i', e' := WholeMoves(g, text, i, e, t, out);
  }

  lemma EndsBlank(text: Bytes, e: nat)
    requires Blank(text, e, |text|)
    ensures e >= |text| || !IsNumberByte(text[e])
  {
  }

  // So the parser reads the same tree from both texts, if it can keep the first, or rejects both for their nesting.
  lemma MinifiedParses(text: Bytes, i: nat, e: nat, t: Json)
    requires WholeAt(Standard, text, i, e, t) && Fits(text, i, e) && Passes(Tidy, text, i, e)
    ensures ParseWithLength(text, false) == Outcome(Nesting(t), t, e)
    ensures exists e': nat :: ParseWithLength(Minify(text, 0), false) == Outcome(Nesting(t), t, e')
  {
    EndsBlank(text, e);
    KeepsValue(text, i, e, t, e);
    var i', e' := MinifiedIsText(Limited, text, i, e, t);
    ParsesWhole(text, i, e, t);
    ParsesWhole(Minify(text, 0), i', e', t);
  }

  lemma ParsesWhole(text: Bytes, i: nat, e: nat, t: Json)
    requires WholeAt(Limited, text, i, e, t)
    ensures ParseWithLength(text, false) == Outcome(Nesting(t), t, e)
  {
    ValueStart(Limited, text, i, e, t);
    assert text[0] <= SPACE || i == 0;
    NoMark(text);
    SkipBlank(text, 0, i);
    EndsBlank(text, e);
    ParsesValue(Limited, text, i, e, t, 0);
  }
}
