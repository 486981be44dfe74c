// String literals: the two passes of parse_string, UTF-16 escapes, and print_string_ptr.
module JsonString {
  import opened Bits
  import opened ByteStrings
  import opened JsonData

  // ---- hexadecimal digits and \u escapes ----

  predicate IsHex(b: byte) {
    48 <= b <= 57 || 65 <= b <= 70 || 97 <= b <= 102
  }

  function HexValue(b: byte): (v: nat)
    requires IsHex(b)
    ensures v < 16
  {
    if b <= 57 then b - 48 else if b <= 70 then b - 55 else b - 87
  }

  // parse_hex4: any digit that is not hexadecimal makes the whole number 0.
  function Hex4(a: byte, b: byte, c: byte, d: byte): (v: nat)
    ensures v < 0x1_0000
  {
    if IsHex(a) && IsHex(b) && IsHex(c) && IsHex(d) then
      ((HexValue(a) * 16 + HexValue(b)) * 16 + HexValue(c)) * 16 + HexValue(d)
    else 0
  }

  function Hex4At(text: Bytes, p: nat): (v: nat)
    requires p + 4 <= |text|
    ensures v < 0x1_0000
  {
    Hex4(text[p], text[p + 1], text[p + 2], text[p + 3])
  }

  predicate IsHigh(u: nat) {
    0xD800 <= u <= 0xDBFF
  }

  predicate IsLow(u: nat) {
    0xDC00 <= u <= 0xDFFF
  }

  // The code point of a surrogate pair (section 2.2 of RFC 2781).
  function PairCode(high: nat, low: nat): (c: nat)
    requires IsHigh(high) && IsLow(low)
    ensures 0x1_0000 <= c <= 0x10_FFFF
  {
    0x1_0000 + (high - 0xD800) * 0x400 + (low - 0xDC00)
  }

  // The UTF-8 form of a code point (section 3 of RFC 3629).
  function Utf8(c: nat): (s: Bytes)
    requires c <= 0x10_FFFF
    ensures 1 <= |s| <= 4
  {
    if c < 0x80 then [c]
    else if c < 0x800 then [0xC0 + c / 64, 0x80 + c % 64]
    else if c < 0x1_0000 then [0xE0 + c / 4096, 0x80 + c / 64 % 64, 0x80 + c % 64]
    else [0xF0 + c / 262144, 0x80 + c / 4096 % 64, 0x80 + c / 64 % 64, 0x80 + c % 64]
  }

  datatype Literal = Literal(code: nat, length: nat) | BadLiteral

  // One \uXXXX or a surrogate pair \uXXXX\uXXXX at p; bytes from e on are not available.
  function Utf16(text: Bytes, p: nat, e: nat): (l: Literal)
    requires p <= e <= |text|
    ensures l.Literal? ==> (l.length == 6 || l.length == 12) && p + l.length <= e && l.code <= 0x10_FFFF
    ensures l.Literal? && l.length == 6 ==> l.code < 0x1_0000
  {
    if e - p < 6 then BadLiteral
    else
      var first := Hex4At(text, p + 2);
      if IsLow(first) then BadLiteral
      else if !IsHigh(first) then Literal(first, 6)
      else if e - (p + 6) < 6 then BadLiteral
      else if text[p + 6] != BACKSLASH || text[p + 7] != LETTER_U then BadLiteral
      else
        var second := Hex4At(text, p + 8);
        if !IsLow(second) then BadLiteral else Literal(PairCode(first, second), 12)
  }

  // ---- the two passes of parse_string ----

  // First pass: the closing quote, stepping over the byte after each backslash.
  function FindClose(text: Bytes, p: nat): (e: Option<nat>)
    requires p <= |text|
    ensures e.Some? ==> p <= e.value < |text| && text[e.value] == QUOTE
    decreases |text| - p
  {
    if p == |text| then None
    else if text[p] == QUOTE then Some(p)
    else if text[p] == BACKSLASH then
      if p + 1 == |text| then None else FindClose(text, p + 2)
    else FindClose(text, p + 1)
  }

  // The byte a two-character escape stands for.
  function ShortEscape(b: byte): Option<byte> {
    if b == 98 then Some(8)
    else if b == 102 then Some(12)
    else if b == 110 then Some(10)
    else if b == 114 then Some(13)
    else if b == 116 then Some(9)
    else if b == QUOTE || b == BACKSLASH || b == SLASH then Some(b)
    else None
  }

  function Prepend(head: Bytes, tail: Option<Bytes>): Option<Bytes> {
    match tail
    case None => None
    case Some(s) => Some(head + s)
  }

  // Second pass: the bytes the literal stands for, up to the closing quote at e.
  function Decode(text: Bytes, p: nat, e: nat): Option<Bytes>
    requires e < |text|
    decreases |text| - p
  {
    if p >= e then Some([])
    else if text[p] != BACKSLASH then Prepend([text[p]], Decode(text, p + 1, e))
    else if text[p + 1] == LETTER_U then
      match Utf16(text, p, e)
      case BadLiteral => None
      case Literal(code, length) => Prepend(Utf8(code), Decode(text, p + length, e))
    else
      match ShortEscape(text[p + 1])
      case None => None
      case Some(b) => Prepend([b], Decode(text, p + 2, e))
  }

  function ParseString(text: Bytes, i: nat): (r: Parsed<Bytes>)
    requires i < |text|
    ensures r.Parsed? ==> i < r.next <= |text|
  {
    if text[i] != QUOTE then Rejected
    else
      match FindClose(text, i + 1)
      case None => Rejected
      case Some(e) =>
        match Decode(text, i + 1, e)
        case None => Rejected
        case Some(s) => Parsed(CString(s), e + 1)
  }

  // ---- the grammar of strings (section 7 of RFC 8259) ----

  predicate HexAt(text: Bytes, p: nat) {
    p + 4 <= |text| && IsHex(text[p]) && IsHex(text[p + 1]) && IsHex(text[p + 2]) && IsHex(text[p + 3])
  }

  // A \u escape stands at p.
  predicate EscapeAt(text: Bytes, p: nat) {
    p + 6 <= |text| && text[p] == BACKSLASH && text[p + 1] == LETTER_U && HexAt(text, p + 2)
  }

  function Prefixed(head: Bytes, tail: Parsed<Bytes>): Parsed<Bytes> {
    match tail
    case Rejected => Rejected
    case Parsed(s, next) => Parsed(head + s, next)
  }

  predicate IsSurrogate(u: nat) {
    IsHigh(u) || IsLow(u)
  }

  // The two escapes of a surrogate pair stand at p.
  predicate PairAt(text: Bytes, p: nat) {
    EscapeAt(text, p) && IsHigh(Hex4At(text, p + 2)) && EscapeAt(text, p + 6) && IsLow(Hex4At(text, p + 8))
  }

  // The code point of the escape or the pair at p, and how many bytes it takes.
  function EscapeCode(text: Bytes, p: nat): (c: nat)
    requires EscapeAt(text, p)
    ensures c <= 0x10_FFFF
  {
    if PairAt(text, p) then PairCode(Hex4At(text, p + 2), Hex4At(text, p + 8)) else Hex4At(text, p + 2)
  }

  function EscapeLength(text: Bytes, p: nat): (n: nat)
    requires EscapeAt(text, p)
    ensures 6 <= n && p + n <= |text|
  {
    if PairAt(text, p) then 12 else 6
  }

  predicate LoneAt(text: Bytes, p: nat)
    requires EscapeAt(text, p)
  {
    !PairAt(text, p) && IsSurrogate(Hex4At(text, p + 2))
  }

  // The bytes that the rest of a literal denotes, and the position after its closing quote. A surrogate that
  // is no half of a pair, which the grammar allows (section 8.2), denotes the bytes its number would have;
  // control bytes, which the grammar leaves out, denote themselves.
  function StringValue(text: Bytes, p: nat): (r: Parsed<Bytes>)
    ensures r.Parsed? ==> p < r.next <= |text|
    decreases |text| - p
  {
    if p >= |text| then Rejected
    else if text[p] == QUOTE then Parsed([], p + 1)
    else if text[p] != BACKSLASH then Prefixed([text[p]], StringValue(text, p + 1))
    else if EscapeAt(text, p) then
      Prefixed(Utf8(EscapeCode(text, p)), StringValue(text, p + EscapeLength(text, p)))
    else if p + 1 < |text| && ShortEscape(text[p + 1]).Some? then
      Prefixed([ShortEscape(text[p + 1]).value], StringValue(text, p + 2))
    else Rejected
  }

  // The text from i to e is a string literal that denotes s.
  ghost predicate StringAt(text: Bytes, i: nat, e: nat, s: Bytes) {
    i < |text| && text[i] == QUOTE && StringValue(text, i + 1) == Parsed(s, e)
  }

  // Every surrogate in the rest of a literal is half of a pair.
  predicate Paired(text: Bytes, p: nat)
    decreases |text| - p
  {
    if p >= |text| || text[p] == QUOTE then true
    else if text[p] != BACKSLASH then Paired(text, p + 1)
    else if EscapeAt(text, p) then !LoneAt(text, p) && Paired(text, p + EscapeLength(text, p))
    else Paired(text, p + 2)
  }

  // Neither pass of parse_string stops inside an escape.
  lemma FindCloseEscape(text: Bytes, p: nat)
    requires EscapeAt(text, p)
    ensures FindClose(text, p) == FindClose(text, p + 6)
  {
    assert FindClose(text, p) == FindClose(text, p + 2);
    assert FindClose(text, p + 2) == FindClose(text, p + 3);
    assert FindClose(text, p + 3) == FindClose(text, p + 4);
    assert FindClose(text, p + 4) == FindClose(text, p + 5);
  }

  lemma FindCloseUnicode(text: Bytes, p: nat)
    requires EscapeAt(text, p)
    ensures FindClose(text, p) == FindClose(text, p + EscapeLength(text, p))
  {
    FindCloseEscape(text, p);
    if PairAt(text, p) {
      FindCloseEscape(text, p + 6);
    }
  }

  lemma {:induction false} FindsClose(text: Bytes, p: nat)
    requires p <= |text| && StringValue(text, p).Parsed?
    ensures FindClose(text, p) == Some(StringValue(text, p).next - 1)
    decreases |text| - p
  {
    if text[p] == QUOTE {
    } else if text[p] != BACKSLASH {
      FindsClose(text, p + 1);
    } else if EscapeAt(text, p) {
      FindCloseUnicode(text, p);
      FindsClose(text, p + EscapeLength(text, p));
    } else {
      FindsClose(text, p + 2);
    }
  }

  // What parse_string makes of an escape or a pair of the grammar that ends before e.
  lemma EscapeDecodes(text: Bytes, p: nat, e: nat)
    requires EscapeAt(text, p) && p + EscapeLength(text, p) <= e < |text|
    ensures Utf16(text, p, e) == if LoneAt(text, p) then BadLiteral else Literal(EscapeCode(text, p), EscapeLength(text, p))
  {
  }

  lemma {:induction false} DecodesValue(text: Bytes, p: nat, e: nat)
    requires StringValue(text, p).Parsed? && e + 1 == StringValue(text, p).next
    ensures e < |text| && Decode(text, p, e) == if Paired(text, p) then Some(StringValue(text, p).value) else None
    decreases |text| - p
  {
    if text[p] == QUOTE {
    } else if text[p] != BACKSLASH {
      DecodesValue(text, p + 1, e);
    } else if EscapeAt(text, p) {
      EscapeDecodes(text, p, e);
      DecodesValue(text, p + EscapeLength(text, p), e);
    } else {
      DecodesValue(text, p + 2, e);
    }
  }

  // A string of the grammar is read up to its end, whatever follows it, as what it denotes up to the first NUL;
  // it is rejected if it has a surrogate that is no half of a pair.
  lemma ReadsString(text: Bytes, i: nat, e: nat, s: Bytes)
    requires StringAt(text, i, e, s)
    ensures i < e <= |text| && ParseString(text, i) == if Paired(text, i + 1) then Parsed(CString(s), e) else Rejected
  {
    FindsClose(text, i + 1);
    DecodesValue(text, i + 1, e - 1);
  }

  // So it is read as the bytes it denotes exactly if its surrogates are paired and it denotes no NUL.
  lemma ReadsWholeString(text: Bytes, i: nat, e: nat, s: Bytes)
    requires StringAt(text, i, e, s)
    ensures ParseString(text, i) == Parsed(s, e) <==> Paired(text, i + 1) && NulFree(s)
  {
    ReadsString(text, i, e, s);
    CStringOfText(s);
  }

  // From p to the closing quote at e every \u has four digits.
  predicate Proper(text: Bytes, p: nat, e: nat)
    requires e < |text|
    decreases |text| - p
  {
    if p >= e then p == e
    else if text[p] != BACKSLASH then Proper(text, p + 1, e)
    else if text[p + 1] == LETTER_U then p + 6 <= e && HexAt(text, p + 2) && Proper(text, p + 6, e)
    else Proper(text, p + 2, e)
  }

  // What the rest of a literal denotes if its surrogates are paired.
  function Denoted(text: Bytes, p: nat): Option<Bytes> {
    match StringValue(text, p)
    case Rejected => None
    case Parsed(s, _) => if Paired(text, p) then Some(s) else None
  }

  lemma ProperEscape(text: Bytes, p: nat, e: nat)
    requires p < e < |text| && text[e] == QUOTE && Proper(text, p, e) && EscapeAt(text, p)
    ensures p + EscapeLength(text, p) <= e && Proper(text, p + EscapeLength(text, p), e)
  {
  }

  lemma {:induction false} ProperDecodes(text: Bytes, p: nat, e: nat)
    requires p <= e < |text| && Proper(text, p, e) && FindClose(text, p) == Some(e)
    ensures Decode(text, p, e) == Denoted(text, p)
    ensures StringValue(text, p).Parsed? ==> StringValue(text, p).next == e + 1
    decreases |text| - p
  {
    if p == e {
    } else if text[p] != BACKSLASH {
      ProperDecodes(text, p + 1, e);
    } else if text[p + 1] == LETTER_U {
      FindCloseUnicode(text, p);
      ProperEscape(text, p, e);
      EscapeDecodes(text, p, e);
      ProperDecodes(text, p + EscapeLength(text, p), e);
    } else {
      ProperDecodes(text, p + 2, e);
    }
  }

  // On such literals parse_string does exactly what the grammar says, but for the bytes from a NUL on and for
  // surrogates that are no half of a pair.
  lemma StringExactly(text: Bytes, i: nat, e: nat)
    requires i < e < |text| && Proper(text, i + 1, e) && text[i] == QUOTE && FindClose(text, i + 1) == Some(e)
    ensures match StringValue(text, i + 1)
      case Rejected => ParseString(text, i) == Rejected
      case Parsed(s, next) => next == e + 1 && ParseString(text, i) == if Paired(text, i + 1) then Parsed(CString(s), next) else Rejected
  {
    ProperDecodes(text, i + 1, e);
  }

  // ---- strings as print_string_ptr writes them ----

  function HexDigit(v: nat): (b: byte)
    requires v < 16
    ensures IsHex(b) && HexValue(b) == v
  {
    if v < 10 then 48 + v else 87 + v
  }

  function ShortLetter(b: byte): Option<byte> {
    if b == QUOTE || b == BACKSLASH then Some(b)
    else if b == 8 then Some(98)
    else if b == 12 then Some(102)
    else if b == 10 then Some(110)
    else if b == 13 then Some(114)
    else if b == 9 then Some(116)
    else None
  }

  function EscapeByte(b: byte): (s: Bytes)
    ensures s != []
  {
    match ShortLetter(b)
    case Some(letter) => [BACKSLASH, letter]
    case None =>
      if b < 32 then [BACKSLASH, LETTER_U, 48, 48, HexDigit(b / 16), HexDigit(b % 16)] else [b]
  }

  function Escape(s: Bytes, j: nat): Bytes
    requires j <= |s|
    decreases |s| - j
  {
    if j == |s| then [] else EscapeByte(s[j]) + Escape(s, j + 1)
  }

  function Quoted(s: Bytes): Bytes {
    [QUOTE] + Escape(s, 0) + [QUOTE]
  }

  lemma EscapedByte(text: Bytes, p: nat, b: byte)
    requires At(text, p, EscapeByte(b))
    ensures StringValue(text, p) == Prefixed([b], StringValue(text, p + |EscapeByte(b)|))
  {
    var s := EscapeByte(b);
    AtIndex(text, p, s, 0);
    if |s| > 1 {
      AtIndex(text, p, s, 1);
    }
    if |s| == 6 {
      AtIndex(text, p, s, 2);
      AtIndex(text, p, s, 3);
      AtIndex(text, p, s, 4);
      AtIndex(text, p, s, 5);
      assert Hex4At(text, p + 2) == b;
    }
  }

  // The printer writes no surrogate.
  lemma EscapedPaired(text: Bytes, p: nat, b: byte)
    requires At(text, p, EscapeByte(b))
    ensures Paired(text, p) == Paired(text, p + |EscapeByte(b)|)
  {
    var s := EscapeByte(b);
    AtIndex(text, p, s, 0);
    if |s| > 1 {
      AtIndex(text, p, s, 1);
    }
    if |s| == 6 {
      AtIndex(text, p, s, 2);
      AtIndex(text, p, s, 3);
      AtIndex(text, p, s, 4);
      AtIndex(text, p, s, 5);
      assert Hex4At(text, p + 2) == b;
    }
  }

  lemma {:induction false} EscapePaired(text: Bytes, p: nat, s: Bytes, j: nat, e: nat)
    requires j <= |s| && At(text, p, Escape(s, j)) && e == p + |Escape(s, j)| && e < |text| && text[e] == QUOTE
    ensures Paired(text, p)
    decreases |s| - j
  {
    if j < |s| {
      var first, rest := EscapeByte(s[j]), Escape(s, j + 1);
      AtSplit(text, p, first, rest);
      EscapedPaired(text, p, s[j]);
      EscapePaired(text, p + |first|, s, j + 1, e);
    }
  }

  // The first byte of what is left and where the others stand.
  lemma EscapedHead(text: Bytes, p: nat, s: Bytes, j: nat, n: nat, e: nat) returns (q: nat)
    requires j < |s| && n == j + 1 && At(text, p, Escape(s, j)) && e == p + |Escape(s, j)|
    ensures At(text, q, Escape(s, n)) && e == q + |Escape(s, n)|
    ensures StringValue(text, p) == Prefixed([s[j]], StringValue(text, q))
  {
    var first, rest := EscapeByte(s[j]), Escape(s, n);
    AtSplit(text, p, first, rest);
    EscapedByte(text, p, s[j]);
    q := p + |first|;
  }

  lemma PrefixedRest(s: Bytes, j: nat, n: nat, next: nat)
    requires j < |s| && n == j + 1
    ensures Prefixed([s[j]], Parsed(s[n..], next)) == Parsed(s[j..], next)
  {
    assert s[j..] == [s[j]] + s[n..];
  }

  lemma {:induction false} EscapedValue(text: Bytes, p: nat, s: Bytes, j: nat, e: nat, r: Parsed<Bytes>)
    requires j <= |s| && At(text, p, Escape(s, j)) && e == p + |Escape(s, j)|
    requires e < |text| && text[e] == QUOTE && r == StringValue(text, p)
    ensures r == Parsed(s[j..], e + 1)
    decreases |s| - j
  {
    if j < |s| {
      var n := j + 1;
      var q := EscapedHead(text, p, s, j, n, e);
      EscapedValue(text, q, s, n, e, StringValue(text, q));
      PrefixedRest(s, j, n, e + 1);
    } else {
      assert s[j..] == [];
    }
  }

  // The printed form of a string is a string of the grammar that denotes it.
  lemma QuotedAt(text: Bytes, i: nat, e: nat, s: Bytes)
    requires At(text, i, Quoted(s)) && e == i + |Quoted(s)|
    ensures StringAt(text, i, e, s) && Paired(text, i + 1)
  {
    AtSplit(text, i, [QUOTE] + Escape(s, 0), [QUOTE]);
    AtSplit(text, i, [QUOTE], Escape(s, 0));
    AtByte(text, i, QUOTE);
    AtByte(text, e - 1, QUOTE);
    EscapedValue(text, i + 1, s, 0, e - 1, StringValue(text, i + 1));
    EscapePaired(text, i + 1, s, 0, e - 1);
  }

  // ---- facts about the code points ----

  // The code point a UTF-8 sequence of its own length stands for (section 3 of RFC 3629).
  function Utf8Code(s: Bytes): int
    requires 1 <= |s| <= 4
  {
    if |s| == 1 then s[0]
    else if |s| == 2 then Payload(s[0], 0xC0) * 64 + Payload(s[1], 0x80)
    else if |s| == 3 then Payload(s[0], 0xE0) * 4096 + Payload(s[1], 0x80) * 64 + Payload(s[2], 0x80)
    else Payload(s[0], 0xF0) * 262144 + Payload(s[1], 0x80) * 4096 + Payload(s[2], 0x80) * 64 + Payload(s[3], 0x80)
  }

  // What is left of a byte without its mark.
  function Payload(b: int, mark: int): int {
    b - mark
  }

  lemma Utf8Inverse(c: nat)
    requires c <= 0x10_FFFF
    ensures Utf8Code(Utf8(c)) == c
  {
    assert c / 4096 == c / 64 / 64;
    assert c / 262144 == c / 4096 / 64;
  }

  // parse_hex4 undoes the printer's four lower-case digits.
  function Hex4Text(v: nat): Bytes
    requires v < 0x1_0000
  {
    [HexDigit(v / 4096), HexDigit(v / 256 % 16), HexDigit(v / 16 % 16), HexDigit(v % 16)]
  }

  lemma Hex4Inverse(v: nat)
    requires v < 0x1_0000
    ensures Hex4At(Hex4Text(v), 0) == v
  {
    assert v / 256 == v / 16 / 16 && v / 4096 == v / 256 / 16;
  }
}
