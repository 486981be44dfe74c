// Number tokens: how parse_number reads them and how print_number writes integers.
module JsonNumber {
  import opened Bits
  import opened ByteStrings
  import opened JsonData

  const PLUS: byte := 43
  const POINT: byte := 46
  const LOWER_E: byte := 101
  const UPPER_E: byte := 69

  // size of number_c_string, without the terminator
  const WINDOW: nat := 63

  predicate IsDigit(b: byte) {
    48 <= b <= 57
  }

  predicate IsNumberByte(b: byte) {
    IsDigit(b) || b == PLUS || b == MINUS || b == LOWER_E || b == UPPER_E || b == POINT
  }

  // The end of the run of number bytes from i, at most at the limit.
  function WindowEnd(text: Bytes, i: nat, limit: nat): (e: nat)
    requires i <= |text| && i <= limit
    ensures i <= e <= |text| && e <= limit
    decreases |text| - i
  {
    if i < limit && i < |text| && IsNumberByte(text[i]) then WindowEnd(text, i + 1, limit) else i
  }

  // The functions below read the text from i up to the end w of the window.

  function DigitsEnd(text: Bytes, i: nat, w: nat): (e: nat)
    requires i <= w <= |text|
    ensures i <= e <= w
    decreases w - i
  {
    if i < w && IsDigit(text[i]) then DigitsEnd(text, i + 1, w) else i
  }

  // The digits from i to e appended to a number.
  function Horner(text: Bytes, i: nat, e: nat, acc: int): int
    requires i <= e <= |text|
  {
    if i == e then acc else 10 * Horner(text, i, e - 1, acc) - 48 + text[e - 1]
  }

  // m * 10^e
  function Scale(m: int, e: int): real
    decreases if e < 0 then -e else e
  {
    if e == 0 then m as real
    else if e > 0 then Scale(m, e - 1) * 10.0
    else Scale(m, e + 1) / 10.0
  }

  function Signed(minus: bool, magnitude: int): int {
    if minus then -magnitude else magnitude
  }

  predicate IsSign(text: Bytes, i: nat, w: nat) {
    i < w <= |text| && (text[i] == PLUS || text[i] == MINUS)
  }

  predicate IsMinus(text: Bytes, i: nat, w: nat) {
    i < w <= |text| && text[i] == MINUS
  }

  datatype Exponent = Exponent(value: int, end: nat)

  // The optional exponent at position q: without a digit it is no exponent at all.
  function ReadExponent(text: Bytes, q: nat, w: nat): (x: Exponent)
    requires q <= w <= |text|
    ensures q <= x.end <= w
  {
    if q < w && (text[q] == LOWER_E || text[q] == UPPER_E) then
      var s := if IsSign(text, q + 1, w) then q + 2 else q + 1;
      var e := DigitsEnd(text, s, w);
      if e == s then Exponent(0, q)
      else Exponent(Signed(IsMinus(text, q + 1, w), Horner(text, s, e, 0)), e)
    else Exponent(0, q)
  }

  datatype Mantissa = Mantissa(value: int, digits: nat, fraction: nat, end: nat)

  // Digits, and more digits after a decimal point; there may be none at all.
  function ReadMantissa(text: Bytes, s: nat, w: nat): (m: Mantissa)
    requires s <= w <= |text|
    ensures s <= m.end <= w
    ensures m.digits > 0 ==> s < m.end
  {
    var p := DigitsEnd(text, s, w);
    var whole := Horner(text, s, p, 0);
    if p < w && text[p] == POINT then
      var q := DigitsEnd(text, p + 1, w);
      Mantissa(Horner(text, p + 1, q, whole), (p - s) + (q - (p + 1)), q - (p + 1), q)
    else Mantissa(whole, p - s, 0, p)
  }

  // strtod on the window: the longest prefix that is a decimal number.
  function Strtod(text: Bytes, i: nat, w: nat): (r: Parsed<real>)
    requires i <= w <= |text|
    ensures r.Parsed? ==> i < r.next <= w
  {
    var m := ReadMantissa(text, if IsSign(text, i, w) then i + 1 else i, w);
    if m.digits == 0 then Rejected
    else
      var x := ReadExponent(text, m.end, w);
      Parsed(Scale(Signed(IsMinus(text, i, w), m.value), x.value - m.fraction), x.end)
  }

  function ParseNumber(text: Bytes, i: nat): (r: Parsed<Json>)
    requires i <= |text|
    ensures r.Parsed? ==> i < r.next <= |text| && r.value.Number?
  {
    match Strtod(text, i, WindowEnd(text, i, i + WINDOW))
    case Rejected => Rejected
    case Parsed(value, next) => Parsed(Number(value), next)
  }

  // ---- the grammar of numbers (section 6 of RFC 8259) ----

  datatype ExpPart = NoExp | Exp(marker: byte, sign: Bytes, digits: Bytes)

  // Leading zeros are let through, as they are by the code.
  datatype NumberToken = NumberToken(minus: bool, whole: Bytes, fraction: Bytes, exp: ExpPart)

  predicate AllDigits(s: Bytes) {
    forall k :: 0 <= k < |s| ==> IsDigit(s[k])
  }

  ghost predicate ValidToken(t: NumberToken) {
    && t.whole != [] && AllDigits(t.whole) && AllDigits(t.fraction)
    && ValidExp(t.exp)
  }

  ghost predicate ValidExp(x: ExpPart) {
    match x
    case NoExp => true
    case Exp(marker, sign, digits) =>
      && (marker == LOWER_E || marker == UPPER_E)
      && (sign == [] || sign == [PLUS] || sign == [MINUS])
      && digits != [] && AllDigits(digits)
  }

  function SignText(minus: bool): Bytes {
    if minus then [MINUS] else []
  }

  function FractionText(fraction: Bytes): Bytes {
    if fraction == [] then [] else [POINT] + fraction
  }

  function ExpText(x: ExpPart): Bytes {
    match x
    case NoExp => []
    case Exp(marker, sign, digits) => [marker] + sign + digits
  }

  function TokenText(t: NumberToken): Bytes {
    SignText(t.minus) + t.whole + FractionText(t.fraction) + ExpText(t.exp)
  }

  // A run of digits appended to a number.
  function Digits(ds: Bytes, acc: int): int {
    Horner(ds, 0, |ds|, acc)
  }

  ghost function ExpValue(x: ExpPart): int {
    match x
    case NoExp => 0
    case Exp(_, sign, digits) => Signed(sign == [MINUS], Digits(digits, 0))
  }

  ghost function TokenValue(t: NumberToken): real {
    Scale(Signed(t.minus, Digits(t.fraction, Digits(t.whole, 0))), ExpValue(t.exp) - |t.fraction|)
  }

  lemma {:induction false} DigitsEndAt(text: Bytes, i: nat, e: nat, w: nat)
    requires i <= e <= w <= |text| && forall k :: i <= k < e ==> IsDigit(text[k])
    requires e == w || !IsDigit(text[e])
    ensures DigitsEnd(text, i, w) == e
    decreases e - i
  {
    if i < e {
      DigitsEndAt(text, i + 1, e, w);
    }
  }

  lemma {:induction false} HornerAt(text: Bytes, i: nat, ds: Bytes, k: nat, acc: int)
    requires At(text, i, ds) && k <= |ds|
    ensures Horner(text, i, i + k, acc) == Horner(ds, 0, k, acc)
  {
    if k > 0 {
      AtIndex(text, i, ds, k - 1);
      HornerAt(text, i, ds, k - 1, acc);
    }
  }

  // A run of digits that no digit follows is read whole.
  lemma RunAt(text: Bytes, i: nat, e: nat, w: nat, ds: Bytes, acc: int)
    requires At(text, i, ds) && AllDigits(ds) && e == i + |ds| && e <= w <= |text|
    requires e == w || !IsDigit(text[e])
    ensures DigitsEnd(text, i, w) == e && Horner(text, i, e, acc) == Digits(ds, acc)
  {
    forall k | i <= k < e ensures IsDigit(text[k]) {
      AtIndex(text, i, ds, k - i);
    }
    DigitsEndAt(text, i, e, w);
    HornerAt(text, i, ds, |ds|, acc);
  }

  lemma SignAt(text: Bytes, i: nat, w: nat, sign: Bytes, digits: Bytes)
    requires At(text, i, sign) && At(text, i + |sign|, digits) && digits != [] && AllDigits(digits)
    requires sign == [] || sign == [PLUS] || sign == [MINUS]
    requires i + |sign| < w <= |text|
    ensures IsSign(text, i, w) <==> sign != []
    ensures IsMinus(text, i, w) <==> sign == [MINUS]
  {
    AtIndex(text, i + |sign|, digits, 0);
    if sign != [] {
      AtByte(text, i, sign[0]);
    }
  }

  lemma ReadExponentAt(text: Bytes, q: nat, w: nat, x: ExpPart)
    requires ValidExp(x) && At(text, q, ExpText(x)) && w == q + |ExpText(x)|
    ensures ReadExponent(text, q, w) == Exponent(ExpValue(x), w)
  {
    if x.Exp? {
      AtSplit(text, q, [x.marker] + x.sign, x.digits);
      AtSplit(text, q, [x.marker], x.sign);
      AtByte(text, q, x.marker);
      SignAt(text, q + 1, w, x.sign, x.digits);
      RunAt(text, q + 1 + |x.sign|, w, w, x.digits, 0);
    }
  }

  lemma ReadMantissaAt(text: Bytes, s: nat, p: nat, e: nat, w: nat, whole: Bytes, fraction: Bytes)
    requires At(text, s, whole) && p == s + |whole| && At(text, p, FractionText(fraction)) && e == p + |FractionText(fraction)|
    requires AllDigits(whole) && AllDigits(fraction) && e <= w <= |text|
    requires e == w || (!IsDigit(text[e]) && text[e] != POINT)
    ensures ReadMantissa(text, s, w)
         == Mantissa(Digits(fraction, Digits(whole, 0)), |whole| + |fraction|, |fraction|, e)
  {
    if fraction == [] {
      RunAt(text, s, p, w, whole, 0);
    } else {
      AtSplit(text, p, [POINT], fraction);
      AtByte(text, p, POINT);
      RunAt(text, s, p, w, whole, 0);
      RunAt(text, p + 1, e, w, fraction, Digits(whole, 0));
    }
  }

  lemma TokenParts(text: Bytes, i: nat, t: NumberToken)
    requires ValidToken(t) && At(text, i, TokenText(t))
    ensures var s := i + |SignText(t.minus)|; var p := s + |t.whole|; var q := p + |FractionText(t.fraction)|;
      && At(text, i, SignText(t.minus)) && At(text, s, t.whole) && At(text, p, FractionText(t.fraction))
      && At(text, q, ExpText(t.exp)) && q + |ExpText(t.exp)| == i + |TokenText(t)|
  {
    var sign, fraction, exp := SignText(t.minus), FractionText(t.fraction), ExpText(t.exp);
    AtSplit(text, i, sign + t.whole + fraction, exp);
    AtSplit(text, i, sign + t.whole, fraction);
    AtSplit(text, i, sign, t.whole);
  }

  lemma ExpStart(text: Bytes, q: nat, w: nat, x: ExpPart)
    requires ValidExp(x) && At(text, q, ExpText(x)) && w == q + |ExpText(x)|
    ensures q == w || (!IsDigit(text[q]) && text[q] != POINT)
  {
    if x.Exp? {
      AtIndex(text, q, ExpText(x), 0);
    }
  }

  // strtod reads the whole of every token of the grammar.
  lemma StrtodToken(text: Bytes, i: nat, w: nat, t: NumberToken)
    requires ValidToken(t) && At(text, i, TokenText(t)) && w == i + |TokenText(t)|
    ensures Strtod(text, i, w) == Parsed(TokenValue(t), w)
  {
    TokenParts(text, i, t);
    var s := i + |SignText(t.minus)|;
    var p := s + |t.whole|;
    var q := p + |FractionText(t.fraction)|;
    SignAt(text, i, w, SignText(t.minus), t.whole);
    ExpStart(text, q, w, t.exp);
    ReadMantissaAt(text, s, p, q, w, t.whole, t.fraction);
    ReadExponentAt(text, q, w, t.exp);
  }

  lemma {:induction false} WindowEndAt(text: Bytes, i: nat, e: nat, limit: nat)
    requires i <= e <= |text| && e <= limit && forall k :: i <= k < e ==> IsNumberByte(text[k])
    requires e == limit || e == |text| || !IsNumberByte(text[e])
    ensures WindowEnd(text, i, limit) == e
    decreases e - i
  {
    if i < e {
      WindowEndAt(text, i + 1, e, limit);
    }
  }

  lemma TokenBytes(t: NumberToken)
    requires ValidToken(t)
    ensures forall k :: 0 <= k < |TokenText(t)| ==> IsNumberByte(TokenText(t)[k])
  {
  }

  lemma TokenRun(text: Bytes, i: nat, e: nat, t: NumberToken)
    requires ValidToken(t) && At(text, i, TokenText(t)) && e == i + |TokenText(t)|
    ensures forall k :: i <= k < e ==> IsNumberByte(text[k])
  {
    TokenBytes(t);
    forall k | i <= k < e ensures IsNumberByte(text[k]) {
      AtIndex(text, i, TokenText(t), k - i);
    }
  }

  // The window shows the whole token, or its first 63 bytes.
  lemma WindowOfToken(text: Bytes, i: nat, e: nat, t: NumberToken)
    requires ValidToken(t) && At(text, i, TokenText(t)) && e == i + |TokenText(t)|
    requires e >= |text| || !IsNumberByte(text[e])
    ensures WindowEnd(text, i, i + WINDOW) == if e - i <= WINDOW then e else i + WINDOW
  {
    TokenRun(text, i, e, t);
    WindowEndAt(text, i, if e - i <= WINDOW then e else i + WINDOW, i + WINDOW);
  }

  // A number token followed by anything that cannot extend it is read as its value up to its end exactly if it
  // has at most 63 bytes.
  lemma ParseNumberAt(text: Bytes, i: nat, e: nat, t: NumberToken)
    requires ValidToken(t) && At(text, i, TokenText(t)) && e == i + |TokenText(t)|
    requires e >= |text| || !IsNumberByte(text[e])
    ensures ParseNumber(text, i) == Parsed(Number(TokenValue(t)), e) <==> e - i <= 63
  {
    WindowOfToken(text, i, e, t);
    StrtodToken(text, i, e, t);
  }

  // The text from i to e is a number token of value v.
  ghost predicate NumberAt(text: Bytes, i: nat, e: nat, v: real) {
    exists token :: ValidToken(token) && At(text, i, TokenText(token)) && e == i + |TokenText(token)| && v == TokenValue(token)
  }

  predicate StartsNumber(b: byte) {
    b == MINUS || IsDigit(b)
  }

  lemma TokenAt(text: Bytes, i: nat, e: nat, v: real) returns (token: NumberToken)
    requires NumberAt(text, i, e, v)
    ensures ValidToken(token) && At(text, i, TokenText(token)) && e == i + |TokenText(token)| && v == TokenValue(token)
  {
    token :| ValidToken(token) && At(text, i, TokenText(token)) && e == i + |TokenText(token)| && v == TokenValue(token);
  }

  lemma NumberStart(text: Bytes, i: nat, e: nat, v: real)
    requires NumberAt(text, i, e, v)
    ensures i < e <= |text| && StartsNumber(text[i])
  {
    var token := TokenAt(text, i, e, v);
    TokenParts(text, i, token);
    if token.minus {
      AtByte(text, i, MINUS);
    } else {
      AtIndex(text, i, token.whole, 0);
    }
  }

  lemma ReadsNumber(text: Bytes, i: nat, e: nat, v: real)
    requires NumberAt(text, i, e, v) && (e >= |text| || !IsNumberByte(text[e]))
    ensures ParseNumber(text, i) == Parsed(Number(v), e) <==> e - i <= 63
  {
    var token := TokenAt(text, i, e, v);
    ParseNumberAt(text, i, e, token);
  }

  lemma NumberRun(text: Bytes, i: nat, e: nat, v: real)
    requires NumberAt(text, i, e, v)
    ensures forall k :: i <= k < e <= |text| ==> IsNumberByte(text[k])
    ensures e >= |text| || !IsNumberByte(text[e]) ==> WindowEnd(text, i, |text|) == e
  {
    var token := TokenAt(text, i, e, v);
    TokenRun(text, i, e, token);
    if e >= |text| || !IsNumberByte(text[e]) {
      WindowEndAt(text, i, e, |text|);
    }
  }

  // A number token followed by anything that cannot extend it has one end and one value.
  lemma OneNumber(text: Bytes, i: nat, e: nat, v: real, e': nat, v': real)
    requires NumberAt(text, i, e, v) && (e >= |text| || !IsNumberByte(text[e]))
    requires NumberAt(text, i, e', v') && (e' >= |text| || !IsNumberByte(text[e']))
    ensures e == e' && v == v'
  {
    NumberRun(text, i, e, v);
    NumberRun(text, i, e', v');
    var token := TokenAt(text, i, e, v);
    var token' := TokenAt(text, i, e, v');
    StrtodToken(text, i, e, token);
    StrtodToken(text, i, e, token');
  }

  // ---- integers as print_number writes them ----

  function DigitsOf(n: nat): (ds: Bytes)
    ensures ds != [] && AllDigits(ds)
    ensures Digits(ds, 0) == n
  {
    if n < 10 then
      assert Horner([48 + n], 0, 0, 0) == 0;
      [48 + n]
    else
      var ds := DigitsOf(n / 10);
      HornerAt(ds + [48 + n % 10], 0, ds, |ds|, 0);
      ds + [48 + n % 10]
  }

  // print_number writes an integer with "%d".
  function Decimal(n: int): (s: Bytes)
    ensures s != []
  {
    if n < 0 then [MINUS] + DigitsOf(-n) else DigitsOf(n)
  }

  function Pow10(k: nat): (p: nat)
    ensures p >= 1
  {
    if k == 0 then 1 else 10 * Pow10(k - 1)
  }

  lemma {:induction false} DigitsOfLength(n: nat, k: nat)
    requires k > 0 && n < Pow10(k)
    ensures |DigitsOf(n)| <= k
  {
    if n >= 10 {
      DigitsOfLength(n / 10, k - 1);
    }
  }

  lemma Pow10Ten()
    ensures Pow10(10) == 10_000_000_000
  {
  }

  // The token that Decimal(n) is.
  function DecimalToken(n: int): NumberToken {
    NumberToken(n < 0, DigitsOf(if n < 0 then -n else n), [], NoExp)
  }

  lemma DecimalTokenValue(n: int)
    requires INT_MIN <= n <= INT_MAX
    ensures ValidToken(DecimalToken(n))
    ensures TokenText(DecimalToken(n)) == Decimal(n)
    ensures TokenValue(DecimalToken(n)) == n as real
    ensures |Decimal(n)| <= 11
  {
    var m := if n < 0 then -n else n;
    Pow10Ten();
    DigitsOfLength(m, 10);
    assert SignText(n < 0) + DigitsOf(m) + [] + [] == Decimal(n);
  }

  lemma DecimalNulFree(n: int)
    ensures NulFree(Decimal(n))
  {
  }

  // ---- strtod on a copy of the window ----

  lemma {:induction false} DigitsEndShift(text: Bytes, i: nat, w: nat, piece: Bytes, j: nat)
    requires At(text, i, piece) && w == i + |piece| && j <= |piece|
    ensures DigitsEnd(text, i + j, w) == i + DigitsEnd(piece, j, |piece|)
    decreases |piece| - j
  {
    if j < |piece| {
      AtIndex(text, i, piece, j);
      DigitsEndShift(text, i, w, piece, j + 1);
    }
  }

  lemma {:induction false} HornerShift(text: Bytes, i: nat, piece: Bytes, a: nat, b: nat, acc: int)
    requires At(text, i, piece) && a <= b <= |piece|
    ensures Horner(text, i + a, i + b, acc) == Horner(piece, a, b, acc)
    decreases b
  {
    if a < b {
      AtIndex(text, i, piece, b - 1);
      HornerShift(text, i, piece, a, b - 1, acc);
    }
  }

  // The byte at j of the piece, if there is one.
  lemma ByteShift(text: Bytes, i: nat, w: nat, piece: Bytes, j: nat)
    requires At(text, i, piece) && w == i + |piece| && j <= |piece|
    ensures j < |piece| ==> i + j < |text| && text[i + j] == piece[j]
    ensures IsSign(text, i + j, w) == IsSign(piece, j, |piece|) && IsMinus(text, i + j, w) == IsMinus(piece, j, |piece|)
  {
  }

  lemma ReadExponentShift(text: Bytes, i: nat, w: nat, piece: Bytes, q: nat)
    requires At(text, i, piece) && w == i + |piece| && q <= |piece|
    ensures var x := ReadExponent(piece, q, |piece|); ReadExponent(text, i + q, w) == Exponent(x.value, i + x.end)
  {
    ByteShift(text, i, w, piece, q);
    if q < |piece| {
      ByteShift(text, i, w, piece, q + 1);
      var s := if IsSign(piece, q + 1, |piece|) then q + 2 else q + 1;
      DigitsEndShift(text, i, w, piece, s);
      HornerShift(text, i, piece, s, DigitsEnd(piece, s, |piece|), 0);
    }
  }

  lemma ReadMantissaShift(text: Bytes, i: nat, w: nat, piece: Bytes, s: nat)
    requires At(text, i, piece) && w == i + |piece| && s <= |piece|
    ensures var m := ReadMantissa(piece, s, |piece|);
      ReadMantissa(text, i + s, w) == Mantissa(m.value, m.digits, m.fraction, i + m.end)
  {
    var p := DigitsEnd(piece, s, |piece|);
    DigitsEndShift(text, i, w, piece, s);
    HornerShift(text, i, piece, s, p, 0);
    ByteShift(text, i, w, piece, p);
    if p < |piece| {
      DigitsEndShift(text, i, w, piece, p + 1);
      HornerShift(text, i, piece, p + 1, DigitsEnd(piece, p + 1, |piece|), Horner(piece, s, p, 0));
    }
  }

  // strtod in terms of the parts it reads.
  lemma StrtodIs(text: Bytes, i: nat, w: nat, minus: bool, m: Mantissa, x: Exponent)
    requires i <= w <= |text| && minus == IsMinus(text, i, w)
    requires m == ReadMantissa(text, if IsSign(text, i, w) then i + 1 else i, w) && x == ReadExponent(text, m.end, w)
    ensures Strtod(text, i, w)
         == if m.digits == 0 then Rejected else Parsed(Scale(Signed(minus, m.value), x.value - m.fraction), x.end)
  {
  }

  // parse_number hands strtod a copy of the window; the number is the same, and so is its length.
  lemma StrtodShift(text: Bytes, i: nat, w: nat, piece: Bytes)
    requires At(text, i, piece) && w == i + |piece|
    ensures match Strtod(piece, 0, |piece|)
      case Rejected => Strtod(text, i, w) == Rejected
      case Parsed(v, n) => Strtod(text, i, w) == Parsed(v, i + n)
  {
    var s, m, x := PartsShift(text, i, w, piece);
    var minus := IsMinus(piece, 0, |piece|);
    StrtodIs(piece, 0, |piece|, minus, m, x);
    StrtodIs(text, i, w, minus, Mantissa(m.value, m.digits, m.fraction, i + m.end), Exponent(x.value, i + x.end));
  }

  // The parts that strtod reads from the copy, and that they stand in the text as well.
  lemma PartsShift(text: Bytes, i: nat, w: nat, piece: Bytes) returns (s: nat, m: Mantissa, x: Exponent)
    requires At(text, i, piece) && w == i + |piece|
    ensures s == (if IsSign(piece, 0, |piece|) then 1 else 0) <= |piece|
    ensures m == ReadMantissa(piece, s, |piece|) && x == ReadExponent(piece, m.end, |piece|)
    ensures IsMinus(text, i, w) == IsMinus(piece, 0, |piece|) && i + s == if IsSign(text, i, w) then i + 1 else i
    ensures ReadMantissa(text, i + s, w) == Mantissa(m.value, m.digits, m.fraction, i + m.end)
    ensures ReadExponent(text, i + m.end, w) == Exponent(x.value, i + x.end)
  {
    ByteShift(text, i, w, piece, 0);
    s := if IsSign(piece, 0, |piece|) then 1 else 0;
    m := ReadMantissa(piece, s, |piece|);
    x := ReadExponent(piece, m.end, |piece|);
    ReadMantissaShift(text, i, w, piece, s);
    ReadExponentShift(text, i, w, piece, m.end);
  }

  // parse_number in terms of the copy.
  lemma NumberOfWindow(text: Bytes, i: nat, window: Bytes)
    requires At(text, i, window) && WindowEnd(text, i, i + WINDOW) == i + |window|
    ensures match Strtod(window, 0, |window|)
      case Rejected => ParseNumber(text, i) == Rejected
      case Parsed(v, n) => ParseNumber(text, i) == Parsed(Number(v), i + n)
  {
    StrtodShift(text, i, i + |window|, window);
  }
}
