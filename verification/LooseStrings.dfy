// The strings that parse_string accepts, told apart from how it reads them: a list of units in front of the first
// quote that is not escaped.
module LooseStrings {
  import opened Bits
  import opened ByteStrings
  import opened JsonData
  import opened JsonString

  // ---- the quote that closes a literal ----

  // How many backslashes stand right in front of k, not counting those in front of p.
  function Backslashes(text: Bytes, p: nat, k: nat): nat
    requires p <= k <= |text|
  {
    if p < k && text[k - 1] == BACKSLASH then 1 + Backslashes(text, p, k - 1) else 0
  }

  // A quote with an even number of backslashes in front of it.
  predicate BareQuote(text: Bytes, p: nat, k: nat) {
    p <= k < |text| && text[k] == QUOTE && Backslashes(text, p, k) % 2 == 0
  }

  ghost predicate FirstBareQuote(text: Bytes, p: nat, e: nat) {
    BareQuote(text, p, e) && forall k: nat :: k < e ==> !BareQuote(text, p, k)
  }

  // The first pass goes from p to q at once: behind a byte, or behind a backslash and the byte after it.
  predicate Goes(text: Bytes, p: nat, q: nat) {
    p < q <= |text| && (if text[p] == BACKSLASH then q == p + 2 else q == p + 1)
  }

  lemma {:induction false} CountFrom(text: Bytes, p: nat, q: nat, k: nat)
    requires Goes(text, p, q) && q <= k <= |text| && text[q - 1] != BACKSLASH
    ensures Backslashes(text, p, k) == Backslashes(text, q, k)
    decreases k
  {
    if q < k {
      CountFrom(text, p, q, k - 1);
    }
  }

  lemma {:induction false} CountTwo(text: Bytes, p: nat, k: nat)
    requires p + 2 <= k <= |text| && text[p] == BACKSLASH && text[p + 1] == BACKSLASH
    ensures Backslashes(text, p, k) % 2 == Backslashes(text, p + 2, k) % 2
    decreases k
  {
    if p + 2 < k {
      CountTwo(text, p, k - 1);
    } else {
      assert Backslashes(text, p, p + 1) == 1;
    }
  }

  // Behind the first byte, or behind an escape of two, a quote is bare if it was.
  lemma SameQuotes(text: Bytes, p: nat, q: nat, k: nat)
    requires Goes(text, p, q) && q <= k
    ensures BareQuote(text, p, k) == BareQuote(text, q, k)
  {
    if k < |text| {
      if text[p] == BACKSLASH && text[p + 1] == BACKSLASH {
        CountTwo(text, p, k);
      } else {
        CountFrom(text, p, q, k);
      }
    }
  }

  // The first pass finds the first bare quote.
  lemma {:induction false} FindsBareQuote(text: Bytes, p: nat, e: nat)
    requires p <= |text|
    ensures FindClose(text, p) == Some(e) <==> FirstBareQuote(text, p, e)
    decreases |text| - p, 1
  {
    if p == |text| {
    } else if text[p] == QUOTE {
      assert BareQuote(text, p, p);
    } else if text[p] != BACKSLASH {
      QuoteLater(text, p, p + 1, e);
    } else if p + 1 < |text| {
      assert Backslashes(text, p, p + 1) == 1;
      QuoteLater(text, p, p + 2, e);
    } else {
      NoQuoteLast(text, p, e);
    }
  }

  lemma NoQuoteLast(text: Bytes, p: nat, e: nat)
    requires p + 1 == |text| && text[p] == BACKSLASH
    ensures !BareQuote(text, p, e)
  {
  }

  lemma {:induction false} QuoteLater(text: Bytes, p: nat, q: nat, e: nat)
    requires Goes(text, p, q) && text[p] != QUOTE
    ensures FindClose(text, q) == Some(e) <==> FirstBareQuote(text, p, e)
    decreases |text| - p, 0
  {
    FindsBareQuote(text, q, e);
    assert p + 2 == q ==> Backslashes(text, p, p + 1) == 1;
    assert !BareQuote(text, p, p) && (p + 2 == q ==> !BareQuote(text, p, p + 1));
    forall k: nat ensures k < q ==> !BareQuote(text, p, k) && !BareQuote(text, q, k) {
    }
    forall k: nat | q <= k ensures BareQuote(text, p, k) == BareQuote(text, q, k) {
      SameQuotes(text, p, q, k);
    }
  }

  // ---- what stands in front of it ----

  // A byte, a short escape, a \u escape or a surrogate pair. The digits of a \u escape may be any four bytes.
  datatype Unit = Plain(b: byte) | Short(letter: byte) | Escaped(digits: Bytes) | Pair(high: Bytes, low: Bytes)

  datatype Body = Nothing | More(unit: Unit, rest: Body)

  // Four bytes of which one is no digit count as zero.
  function NumberOf(digits: Bytes): (n: nat)
    requires |digits| == 4
    ensures n < 0x1_0000
  {
    Hex4(digits[0], digits[1], digits[2], digits[3])
  }

  predicate ValidUnit(u: Unit) {
    match u
    case Plain(b) => b != BACKSLASH
    case Short(letter) => ShortEscape(letter).Some?
    case Escaped(digits) => |digits| == 4 && !IsSurrogate(NumberOf(digits))
    case Pair(high, low) => |high| == 4 && |low| == 4 && IsHigh(NumberOf(high)) && IsLow(NumberOf(low))
  }

  predicate ValidBody(b: Body) {
    b.More? ==> ValidUnit(b.unit) && ValidBody(b.rest)
  }

  function UnitText(u: Unit): (s: Bytes)
    ensures s != []
  {
    match u
    case Plain(b) => [b]
    case Short(letter) => [BACKSLASH, letter]
    case Escaped(digits) => [BACKSLASH, LETTER_U] + digits
    case Pair(high, low) => [BACKSLASH, LETTER_U] + high + ([BACKSLASH, LETTER_U] + low)
  }

  function UnitValue(u: Unit): Bytes
    requires ValidUnit(u)
  {
    match u
    case Plain(b) => [b]
    case Short(letter) => [ShortEscape(letter).value]
    case Escaped(digits) => Utf8(NumberOf(digits))
    case Pair(high, low) => Utf8(PairCode(NumberOf(high), NumberOf(low)))
  }

  function BodyText(b: Body): Bytes {
    match b
    case Nothing => []
    case More(u, rest) => UnitText(u) + BodyText(rest)
  }

  function BodyValue(b: Body): Bytes
    requires ValidBody(b)
  {
    match b
    case Nothing => []
    case More(u, rest) => UnitValue(u) + BodyValue(rest)
  }

  // The last unit takes a quote for its letter.
  predicate TakesQuote(b: Body) {
    b.More? && (if b.rest.More? then TakesQuote(b.rest) else b.unit == Short(QUOTE))
  }

  // The body stands from p up to the closing quote at e; an escape that is cut short by bad digits can make its last
  // unit take that quote.
  ghost predicate BodyAt(text: Bytes, p: nat, e: nat, b: Body) {
    ValidBody(b) && At(text, p, BodyText(b)) && (p + |BodyText(b)| == e || (p + |BodyText(b)| == e + 1 && TakesQuote(b)))
  }

  lemma {:induction false} QuoteLength(b: Body)
    requires TakesQuote(b)
    ensures |BodyText(b)| >= 2
    decreases b
  {
    if b.rest.More? {
      QuoteLength(b.rest);
    }
  }

  // The first unit and the others.
  lemma BodyParts(text: Bytes, p: nat, e: nat, u: Unit, rest: Body) returns (q: nat)
    requires BodyAt(text, p, e, More(u, rest))
    ensures At(text, p, UnitText(u)) && q == p + |UnitText(u)| && p < e
    ensures if rest.More? || q <= e then q <= e && BodyAt(text, q, e, rest) else q == e + 1 && u == Short(QUOTE)
  {
    AtSplit(text, p, UnitText(u), BodyText(rest));
    q := p + |UnitText(u)|;
    if rest.More? && TakesQuote(rest) {
      QuoteLength(rest);
    }
  }

  // ---- a body is decoded ----

  lemma FourAt(text: Bytes, p: nat, digits: Bytes)
    requires |digits| == 4 && At(text, p, digits)
    ensures p + 4 <= |text| && Hex4At(text, p) == NumberOf(digits)
  {
    AtIndex(text, p, digits, 0);
    AtIndex(text, p, digits, 1);
    AtIndex(text, p, digits, 2);
    AtIndex(text, p, digits, 3);
  }

  lemma EscapeBytes(text: Bytes, p: nat, digits: Bytes)
    requires |digits| == 4 && At(text, p, [BACKSLASH, LETTER_U] + digits)
    ensures p + 6 <= |text| && text[p] == BACKSLASH && text[p + 1] == LETTER_U && Hex4At(text, p + 2) == NumberOf(digits)
  {
    AtSplit(text, p, [BACKSLASH, LETTER_U], digits);
    AtIndex(text, p, [BACKSLASH, LETTER_U], 0);
    AtIndex(text, p, [BACKSLASH, LETTER_U], 1);
    FourAt(text, p + 2, digits);
  }

  lemma UnitDecodes(text: Bytes, p: nat, e: nat, u: Unit, q: nat)
    requires ValidUnit(u) && At(text, p, UnitText(u)) && q == p + |UnitText(u)| && p < e < |text| && (q <= e || u.Short?)
    ensures Decode(text, p, e) == Prepend(UnitValue(u), Decode(text, q, e))
  {
    match u
    case Plain(b) => AtByte(text, p, b);
    case Short(letter) =>
      AtIndex(text, p, UnitText(u), 0);
      AtIndex(text, p, UnitText(u), 1);
    case Escaped(digits) => EscapeBytes(text, p, digits);
    case Pair(high, low) =>
      AtSplit(text, p, [BACKSLASH, LETTER_U] + high, [BACKSLASH, LETTER_U] + low);
      EscapeBytes(text, p, high);
      EscapeBytes(text, p + 6, low);
  }

  lemma {:induction false} BodyDecodes(text: Bytes, p: nat, e: nat, b: Body)
    requires e < |text| && BodyAt(text, p, e, b)
    ensures Decode(text, p, e) == Some(BodyValue(b))
    decreases b
  {
    match b
    case Nothing =>
    case More(u, rest) =>
      var q := BodyParts(text, p, e, u, rest);
      UnitDecodes(text, p, e, u, q);
      if q <= e {
        BodyDecodes(text, q, e, rest);
      }
  }

  // ---- what is decoded is a body ----

  // The unit that the second pass takes at p.
  lemma UnitRead(text: Bytes, p: nat, e: nat) returns (u: Unit, q: nat)
    requires p < e < |text| && Decode(text, p, e).Some?
    ensures ValidUnit(u) && At(text, p, UnitText(u)) && q == p + |UnitText(u)| && (q <= e || (q == e + 1 && u == Short(text[e])))
    ensures Decode(text, p, e) == Prepend(UnitValue(u), Decode(text, q, e))
  {
    if text[p] != BACKSLASH {
      u := Plain(text[p]);
    } else if text[p + 1] != LETTER_U {
      u := Short(text[p + 1]);
    } else {
      u := UnicodeRead(text, p, e);
    }
    q := p + |UnitText(u)|;
    UnitDecodes(text, p, e, u, q);
  }

  lemma EscapeRead(text: Bytes, p: nat) returns (digits: Bytes)
    requires p + 6 <= |text| && text[p] == BACKSLASH && text[p + 1] == LETTER_U
    ensures |digits| == 4 && At(text, p, [BACKSLASH, LETTER_U] + digits) && NumberOf(digits) == Hex4At(text, p + 2)
  {
    digits := text[p + 2..p + 6];
    assert At(text, p, [BACKSLASH, LETTER_U]);
    AtJoin(text, p, [BACKSLASH, LETTER_U], digits);
  }

  lemma UnicodeRead(text: Bytes, p: nat, e: nat) returns (u: Unit)
    requires p < e < |text| && text[p] == BACKSLASH && text[p + 1] == LETTER_U && Utf16(text, p, e).Literal?
    ensures ValidUnit(u) && At(text, p, UnitText(u)) && p + |UnitText(u)| <= e
  {
    var high := EscapeRead(text, p);
    u := Escaped(high);
    if IsHigh(NumberOf(high)) {
      var low := EscapeRead(text, p + 6);
      u := Pair(high, low);
      AtJoin(text, p, [BACKSLASH, LETTER_U] + high, [BACKSLASH, LETTER_U] + low);
    }
  }

  lemma {:induction false} BodyRead(text: Bytes, p: nat, e: nat) returns (b: Body)
    requires p <= e < |text| && text[e] == QUOTE && Decode(text, p, e).Some?
    ensures BodyAt(text, p, e, b) && Decode(text, p, e) == Some(BodyValue(b))
    decreases e - p
  {
    b := Nothing;
    if p < e {
      var u, q := UnitRead(text, p, e);
      var rest := Nothing;
      if q <= e {
        rest := BodyRead(text, q, e);
      }
      b := More(u, rest);
      AtJoin(text, p, UnitText(u), BodyText(rest));
    }
  }

  // ---- whole literals ----

  // A literal from i to e that the code accepts as s: up to its first bare quote it is a body that denotes s up to the
  // first NUL.
  ghost predicate LooseStringAt(text: Bytes, i: nat, e: nat, s: Bytes) {
    && i < |text| && text[i] == QUOTE && 0 < e && FirstBareQuote(text, i + 1, e - 1)
    && exists b :: BodyAt(text, i + 1, e - 1, b) && s == CString(BodyValue(b))
  }

  lemma ReadIsLoose(text: Bytes, i: nat, e: nat, s: Bytes)
    requires i < |text| && ParseString(text, i) == Parsed(s, e)
    ensures LooseStringAt(text, i, e, s)
  {
    var close := e - 1;
    FindsBareQuote(text, i + 1, close);
    var b := BodyRead(text, i + 1, close);
  }

  lemma LooseIsRead(text: Bytes, i: nat, e: nat, s: Bytes)
    requires LooseStringAt(text, i, e, s)
    ensures ParseString(text, i) == Parsed(s, e)
  {
    var close := e - 1;
    FindsBareQuote(text, i + 1, close);
    var b :| BodyAt(text, i + 1, close, b) && s == CString(BodyValue(b));
    ReadsBody(text, i, close, b);
  }

  lemma ReadsBody(text: Bytes, i: nat, close: nat, b: Body)
    requires i < |text| && text[i] == QUOTE && FindClose(text, i + 1) == Some(close) && BodyAt(text, i + 1, close, b)
    ensures ParseString(text, i) == Parsed(CString(BodyValue(b)), close + 1)
  {
    BodyDecodes(text, i + 1, close, b);
  }

  // parse_string accepts exactly these literals.
  lemma StringIsLoose(text: Bytes, i: nat, e: nat, s: Bytes)
    requires i < |text|
    ensures ParseString(text, i) == Parsed(s, e) <==> LooseStringAt(text, i, e, s)
  {
    if ParseString(text, i) == Parsed(s, e) {
      ReadIsLoose(text, i, e, s);
    }
    if LooseStringAt(text, i, e, s) {
      LooseIsRead(text, i, e, s);
    }
  }
}
