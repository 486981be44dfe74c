// Whole C strings: what cJSON_ParseWithOpts accepts when it demands the terminator.
module JsonTexts {
  import opened ByteStrings
  import opened JsonData
  import opened JsonNumber
  import opened JsonParser
  import opened JsonGrammar
  import opened JsonAccepts
  import opened JsonLimits

  // A C string with its terminator is a value from i to e with blanks around it, after an optional byte order mark.
  ghost predicate TextAt(g: Rules, s: Bytes, i: nat, e: nat, t: Json) {
    var text := s + [0];
    Blank(text, SkipBom(text), i) && ValueAt(g, text, i, e, t) && Blank(text, e, |s|)
  }

  // Such a text that the code can keep is accepted with its terminator as the end, unless it is nested too deeply.
  lemma ParsesWholeText(g: Rules, s: Bytes, i: nat, e: nat, t: Json)
    requires g != Standard && NulFree(s) && TextAt(g, s, i, e, t)
    ensures ParseCString(s, true) == Outcome(Nesting(t), t, |s|)
  {
    var text := s + [0];
    CStringOfText(s);
    TextStart(g, s, i, e, t);
    BlankNoNumber(text, e);
    ParsesValue(g, text, i, e, t, 0);
    TrailingBlanks(text, e);
    Terminated(text, i, e, t, Nesting(t));
  }

  // The steps of the entry point, given what they find.
  lemma Terminated(text: Bytes, i: nat, e: nat, t: Json, n: nat)
    requires text != [] && text[|text| - 1] == 0 && e < |text| && SkipBlanks(text, SkipBom(text)) == i < |text|
    requires ParseValue(text, i, 0) == Outcome(n, t, e) && SkipBlanks(text, e) == |text| - 1
    ensures ParseWithLength(text, true) == Outcome(n, t, |text| - 1)
  {
  }

  lemma BlankNoNumber(text: Bytes, e: nat)
    requires e < |text| && Blank(text, e, |text| - 1) && text[|text| - 1] == 0
    ensures !IsNumberByte(text[e])
  {
  }

  lemma {:induction false} TrailingBlanks(text: Bytes, e: nat)
    requires e < |text| && Blank(text, e, |text| - 1) && text[|text| - 1] == 0
    ensures SkipBlanks(text, e) == |text| - 1
  {
    assert Blank(text, |text| - 1, |text|);
    BlankJoin(text, e, |text| - 1, |text|);
    BlankToEnd(text, e);
  }

  lemma {:induction false} BlankToEnd(text: Bytes, e: nat)
    requires e <= |text| && Blank(text, e, |text|)
    ensures BlankEnd(text, e) == |text|
    decreases |text| - e
  {
    if e < |text| {
      BlankToEnd(text, e + 1);
    }
  }

  // Where the value of an accepted text stands.
  lemma AcceptedTextAt(s: Bytes, t: Json, end: nat) returns (i: nat, e: nat)
    requires NulFree(s) && ParseCString(s, true) == Parsed(t, end)
    ensures end == |s| && Nesting(t) <= NESTING_LIMIT && TextAt(Accepted, s, i, e, t)
  {
    var text := s + [0];
    CStringOfText(s);
    i, e := ValueRead(text, t, end);
    SkipsBlanks(text, SkipBom(text));
    AcceptsValue(text, i, 0, t, e);
    SkipsBlanks(text, e);
  }

  lemma ValueRead(text: Bytes, t: Json, end: nat) returns (i: nat, e: nat)
    requires ParseWithLength(text, true) == Parsed(t, end)
    ensures i == SkipBlanks(text, SkipBom(text)) && ParseValue(text, i, 0) == Parsed(t, e) && e <= |text|
    ensures end == SkipBlanks(text, e) && Has(text, end, 0)
  {
    i := SkipBlanks(text, SkipBom(text));
    e := ParseValue(text, i, 0).next;
  }

  // A whole C string is accepted as a tree exactly if it is a text of the grammar for that tree, nested at
  // most to the limit.
  lemma AcceptsTextExactly(s: Bytes, t: Json, end: nat)
    requires NulFree(s)
    ensures ParseCString(s, true) == Parsed(t, end) <==>
      end == |s| && Nesting(t) <= 1000 && exists i: nat, e: nat :: TextAt(Accepted, s, i, e, t)
  {
    if ParseCString(s, true) == Parsed(t, end) {
      var i, e := AcceptedTextAt(s, t, end);
      assert TextAt(Accepted, s, i, e, t);
    }
    if i: nat, e: nat :| TextAt(Accepted, s, i, e, t) {
      ParsesWholeText(Accepted, s, i, e, t);
    }
  }

  lemma TextStart(g: Rules, s: Bytes, i: nat, e: nat, t: Json)
    requires TextAt(g, s, i, e, t)
    ensures var text := s + [0]; i < |text| && SkipBlanks(text, SkipBom(text)) == i
  {
    var text := s + [0];
    ValueStart(g, text, i, e, t);
    SkipBlank(text, SkipBom(text), i);
  }

  // A whole C string that is a text of RFC 8259 is accepted as the tree it denotes exactly if it has no number of
  // more than 63 bytes and no string that the code cannot keep, and is nested at most to the limit.
  lemma ReadsWholeText(s: Bytes, i: nat, e: nat, t: Json)
    requires NulFree(s) && TextAt(Standard, s, i, e, t)
    ensures ParseCString(s, true) == Parsed(t, |s|) <==> Fits(s + [0], i, e) && Nesting(t) <= 1000
  {
    var text := s + [0];
    CStringOfText(s);
    TextStart(Standard, s, i, e, t);
    BlankNoNumber(text, e);
    if Fits(text, i, e) {
      KeepsValue(text, i, e, t, e);
      ParsesWholeText(Limited, s, i, e, t);
    }
    if ParseCString(s, true) == Parsed(t, |s|) {
      var i', e' := AcceptedTextAt(s, t, |s|);
      TextStart(Accepted, s, i', e', t);
      BlankNoNumber(text, e');
      AgreesValue(Accepted, text, i, e, t, e', t, e);
    }
  }

  lemma NoMark(text: Bytes)
    requires text != [] && text[0] < 0xEF
    ensures SkipBom(text) == 0
  {
    if |text| > 4 {
      assert text[..3][0] == text[0];
    }
  }
}
