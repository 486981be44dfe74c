// Parsing what was printed gives it back.
module JsonRoundTrip {
  import opened ByteStrings
  import opened JsonData
  import opened JsonNumber
  import opened JsonString
  import opened JsonParser
  import opened JsonGrammar
  import opened JsonLimits
  import opened JsonRender
  import opened JsonTexts

  // ---- parsing what was printed ----

  // Printed text is read back as the tree, up to its own end whatever follows it, exactly when
  // the tree is nested at most to the limit.
  lemma PrintParse(t: Json, fmt: bool, suffix: Bytes)
    requires Printable(t)
    requires t.Number? && suffix != [] ==> !IsNumberByte(suffix[0])
    ensures ParseValue(Render(t, fmt, 0) + suffix, 0, 0) == Outcome(Nesting(t), t, |Render(t, fmt, 0)|)
  {
    var r := Render(t, fmt, 0);
    var text := r + suffix;
    assert At(text, 0, r);
    RenderedAt(Limited, text, 0, |r|, t, fmt, 0);
    ParsesValue(Limited, text, 0, |r|, t, 0);
  }

  // Two printable trees with the same text, in whatever modes, are the same tree.
  lemma RenderInjective(t: Json, u: Json, fmtT: bool, fmtU: bool, text: Bytes)
    requires Printable(t) && Printable(u) && Render(t, fmtT, 0) == text && Render(u, fmtU, 0) == text
    ensures t == u
  {
    assert At(text, 0, text);
    RenderedAt(Standard, text, 0, |text|, t, fmtT, 0);
    RenderedAt(Standard, text, 0, |text|, u, fmtU, 0);
    OneReading(text, 0, |text|, t, |text|, u);
  }

  // ---- what is printed is a C string that parses ----

  lemma {:induction false} EscapeNulFree(s: Bytes, j: nat)
    requires NulFree(s) && j <= |s|
    ensures NulFree(Escape(s, j))
    decreases |s| - j
  {
    if j < |s| {
      EscapeNulFree(s, j + 1);
    }
  }

  lemma {:induction false} TabsNulFree(n: nat)
    ensures NulFree(Tabs(n))
  {
    if n > 0 {
      TabsNulFree(n - 1);
    }
  }

  lemma {:induction false} RenderNulFree(t: Json, fmt: bool, depth: nat)
    requires Printable(t)
    ensures NulFree(Render(t, fmt, depth))
    decreases t, 0
  {
    match t
    case Number(v) => DecimalNulFree(v.Floor);
    case Text(s) => EscapeNulFree(s, 0);
    case Array(items) => ItemsNulFree(items, 0, fmt, depth + 1);
    case Object(members) => MembersNulFree(members, 0, fmt, depth + 1);
    case _ =>
  }

  lemma {:induction false} ItemsNulFree(items: seq<Json>, j: nat, fmt: bool, depth: nat)
    requires j <= |items| && PrintableItems(items, j)
    ensures NulFree(RenderItems(items, j, fmt, depth))
    decreases items, |items| - j
  {
    if j < |items| {
      var n := j + 1;
      RenderNulFree(items[j], fmt, depth);
      ItemsNulFree(items, n, fmt, depth);
    }
  }

  lemma {:induction false} MembersNulFree(members: seq<Member>, j: nat, fmt: bool, depth: nat)
    requires j <= |members| && depth > 0 && PrintableMembers(members, j)
    ensures NulFree(RenderMembers(members, j, fmt, depth))
    decreases members, |members| - j
  {
    if j == |members| {
      TabsNulFree(depth - 1);
    } else {
      var more := j + 1 < |members|;
      MembersNulFree(members, j + 1, fmt, depth);
      RenderNulFree(members[j].value, fmt, depth);
      EscapeNulFree(members[j].name, 0);
      TabsNulFree(depth);
      PiecesNulFree(Indent(fmt, depth), Quoted(members[j].name), [COLON] + Pretty(fmt, TAB),
        Render(members[j].value, fmt, depth), Comma(more) + Pretty(fmt, NEWLINE));
    }
  }

  lemma PiecesNulFree(a: Bytes, b: Bytes, c: Bytes, d: Bytes, e: Bytes)
    requires NulFree(a) && NulFree(b) && NulFree(c) && NulFree(d) && NulFree(e)
    ensures NulFree(a + b + c + d + e)
  {
  }

  // cJSON_ParseWithOpts gives back the tree that was printed, up to the terminator, exactly when the tree
  // is nested at most to the limit.
  lemma PrintParseText(t: Json, fmt: bool)
    requires Printable(t)
    ensures ParseCString(Render(t, fmt, 0), true) == Outcome(Nesting(t), t, |Render(t, fmt, 0)|)
  {
    var s := Render(t, fmt, 0);
    var text := s + [0];
    RenderNulFree(t, fmt, 0);
    assert At(text, 0, s);
    RenderedAt(Limited, text, 0, |s|, t, fmt, 0);
    ValueStart(Limited, text, 0, |s|, t);
    NoMark(text);
    ParsesWholeText(Limited, s, 0, |s|, t);
  }
}
