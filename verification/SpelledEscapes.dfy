// How the digits of a \u escape may be spelled, and what the code reads for every spelling of every code point.
module SpelledEscapes {
  import opened Bits
  import opened ByteStrings
  import opened JsonData
  import opened JsonString
  import opened JsonLimits

  // ---- four digits ----

  // A decimal digit, or a letter from A or from a on.
  predicate Spells(d: byte, v: nat) {
    if v < 10 then d == 48 + v else v < 16 && (d == 55 + v || d == 87 + v)
  }

  lemma DigitSpelled(d: byte)
    ensures IsHex(d) <==> 48 <= d <= 57 || 65 <= d <= 70 || 97 <= d <= 102
    ensures IsHex(d) ==> Spells(d, HexValue(d)) && forall v: nat :: Spells(d, v) ==> v == HexValue(d)
  {
  }

  predicate SpellsFour(a: byte, b: byte, c: byte, d: byte, v: nat) {
    v < 0x1_0000 && Spells(a, v / 4096) && Spells(b, v / 256 % 16) && Spells(c, v / 16 % 16) && Spells(d, v % 16)
  }

  // Four bytes count as the number they spell, each digit in the case it happens to have, and as zero otherwise.
  lemma FourSpelled(a: byte, b: byte, c: byte, d: byte, v: nat)
    ensures SpellsFour(a, b, c, d, v) ==> Hex4(a, b, c, d) == v
    ensures v != 0 && Hex4(a, b, c, d) == v ==> SpellsFour(a, b, c, d, v)
  {
    DigitSpelled(a);
    DigitSpelled(b);
    DigitSpelled(c);
    DigitSpelled(d);
    if SpellsFour(a, b, c, d, v) {
      SpellsHex(a, v / 4096);
      SpellsHex(b, v / 256 % 16);
      SpellsHex(c, v / 16 % 16);
      SpellsHex(d, v % 16);
      PlaceValues(v);
    } else if Hex4(a, b, c, d) == v && v != 0 {
      Places(HexValue(a), HexValue(b), HexValue(c), HexValue(d), v);
    }
  }

  lemma SpellsHex(d: byte, v: nat)
    requires Spells(d, v)
    ensures IsHex(d) && HexValue(d) == v
  {
  }

  lemma PlaceValues(v: nat)
    requires v < 0x1_0000
    ensures v == ((v / 4096 * 16 + v / 256 % 16) * 16 + v / 16 % 16) * 16 + v % 16
  {
    assert v / 256 == v / 16 / 16 && v / 4096 == v / 256 / 16;
  }

  lemma Places(a: nat, b: nat, c: nat, d: nat, v: nat)
    requires a < 16 && b < 16 && c < 16 && d < 16 && v == ((a * 16 + b) * 16 + c) * 16 + d
    ensures v < 0x1_0000 && v / 4096 == a && v / 256 % 16 == b && v / 16 % 16 == c && v % 16 == d
  {
  }

  // ---- code points ----

  // The UTF-8 form has the shortest length for the code point, marks in its first byte and in those behind it (section 3
  // of RFC 3629).
  lemma Utf8Shape(c: nat)
    requires c <= 0x10_FFFF
    ensures |Utf8(c)| == if c <= 0x7F then 1 else if c <= 0x7FF then 2 else if c <= 0xFFFF then 3 else 4
    ensures c <= 0x7F ==> Utf8(c) == [c]
    ensures 0x80 <= c <= 0x7FF ==> 0xC2 <= Utf8(c)[0] <= 0xDF
    ensures 0x800 <= c <= 0xFFFF ==> 0xE0 <= Utf8(c)[0] <= 0xEF
    ensures 0x1_0000 <= c ==> 0xF0 <= Utf8(c)[0] <= 0xF4
    ensures forall k :: 0 < k < |Utf8(c)| ==> 0x80 <= Utf8(c)[k] <= 0xBF
  {
  }

  // A \u escape with the digits of v stands at p.
  predicate SpelledAt(text: Bytes, p: nat, v: nat) {
    p + 6 <= |text| && text[p] == 92 && text[p + 1] == 117 && SpellsFour(text[p + 2], text[p + 3], text[p + 4], text[p + 5], v)
  }

  lemma SpelledIsEscape(text: Bytes, p: nat, v: nat)
    requires SpelledAt(text, p, v)
    ensures EscapeAt(text, p) && Hex4At(text, p + 2) == v
  {
    SpellsHex(text[p + 2], v / 4096);
    SpellsHex(text[p + 3], v / 256 % 16);
    SpellsHex(text[p + 4], v / 16 % 16);
    SpellsHex(text[p + 5], v % 16);
    FourSpelled(text[p + 2], text[p + 3], text[p + 4], text[p + 5], v);
  }

  // The string of one escape, in every spelling: as it is if it is neither NUL nor a surrogate.
  lemma ReadsUnit(text: Bytes, v: nat)
    requires |text| == 8 && text[0] == 34 && SpelledAt(text, 1, v) && text[7] == 34
    ensures ParseString(text, 0)
         == if v == 0 then Parsed([], 8) else if 0xD800 <= v <= 0xDFFF then Rejected else Parsed(Utf8(v), 8)
  {
    SpelledIsEscape(text, 1, v);
    OneEscape(text, v);
  }

  // Every code point beyond sixteen bits is read from its two halves (section 2.1 of RFC 2781), in every spelling.
  lemma ReadsPair(text: Bytes, c: nat)
    requires 0x1_0000 <= c <= 0x10_FFFF && |text| == 14 && text[0] == 34 && text[13] == 34
    requires SpelledAt(text, 1, 0xD800 + (c - 0x1_0000) / 0x400) && SpelledAt(text, 7, 0xDC00 + (c - 0x1_0000) % 0x400)
    ensures ParseString(text, 0) == Parsed(Utf8(c), 14)
  {
    SpelledIsEscape(text, 1, 0xD800 + (c - 0x1_0000) / 0x400);
    SpelledIsEscape(text, 7, 0xDC00 + (c - 0x1_0000) % 0x400);
    assert EscapeCode(text, 1) == c && EscapeLength(text, 1) == 12;
    assert StringValue(text, 13) == Parsed([], 14) && Utf8(c) + [] == Utf8(c);
    assert Paired(text, 13) && Paired(text, 1);
    ReadsString(text, 0, 14, Utf8(c));
    assert NulFree(Utf8(c)) by { Utf8Shape(c); }
    CStringOfText(Utf8(c));
  }

  // What a byte behind a backslash stands for.
  function ShortMeaning(b: byte): Option<byte> {
    match b
    case 34 => Some(34)
    case 47 => Some(47)
    case 92 => Some(92)
    case 98 => Some(8)
    case 102 => Some(12)
    case 110 => Some(10)
    case 114 => Some(13)
    case 116 => Some(9)
    case _ => None
  }

  // The string of one short escape; any other byte than these and u is rejected.
  lemma ReadsShort(text: Bytes, b: byte)
    requires |text| == 4 && text[0] == 34 && text[1] == 92 && text[2] == b && text[3] == 34 && b != 117
    ensures ParseString(text, 0) == if ShortMeaning(b).Some? then Parsed([ShortMeaning(b).value], 4) else Rejected
  {
    assert FindClose(text, 1) == FindClose(text, 3) == Some(3);
    assert Decode(text, 3, 3) == Some([]);
    if ShortMeaning(b).Some? {
      var c := [ShortMeaning(b).value];
      assert Decode(text, 1, 3) == Some(c) by {
        assert c + [] == c;
      }
      CStringOfText(c);
    }
  }

  // The string of one other byte is that byte, unless it is NUL.
  lemma ReadsByte(text: Bytes, b: byte)
    requires |text| == 3 && text[0] == 34 && text[1] == b && text[2] == 34 && b != 34 && b != 92 && b != 0
    ensures ParseString(text, 0) == Parsed([b], 3)
  {
    assert FindClose(text, 1) == FindClose(text, 2) == Some(2);
    assert Decode(text, 2, 2) == Some([]) && [b] + [] == [b];
    CStringOfText([b]);
  }
}
