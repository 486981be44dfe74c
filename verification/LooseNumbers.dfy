// The numbers that parse_number accepts, told apart from how it reads them: the longest beginning of its window that
// is a decimal number in the sense of strtod.
module LooseNumbers {
  import opened Bits
  import opened ByteStrings
  import opened JsonData
  import opened JsonNumber

  // Other than in a number token there may be a plus sign, and either run of digits may be empty.
  datatype LooseToken = LooseToken(sign: Bytes, whole: Bytes, point: bool, fraction: Bytes, exp: ExpPart)

  ghost predicate ValidLoose(t: LooseToken) {
    && (t.sign == [] || t.sign == [PLUS] || t.sign == [MINUS])
    && AllDigits(t.whole) && AllDigits(t.fraction) && (t.fraction != [] ==> t.point)
    && |t.whole| + |t.fraction| > 0
    && ValidExp(t.exp)
  }

  function PointText(point: bool, fraction: Bytes): Bytes {
    if point then [POINT] + fraction else []
  }

  function LooseText(t: LooseToken): Bytes {
    t.sign + t.whole + PointText(t.point, t.fraction) + ExpText(t.exp)
  }

  ghost function LooseValue(t: LooseToken): real {
    Scale(Signed(t.sign == [MINUS], Digits(t.fraction, Digits(t.whole, 0))), ExpValue(t.exp) - |t.fraction|)
  }

  // A loose token stands at i and ends at e, not behind w.
  ghost predicate LooseAt(text: Bytes, i: nat, e: nat, w: nat, t: LooseToken) {
    ValidLoose(t) && At(text, i, LooseText(t)) && e == i + |LooseText(t)| && e <= w <= |text|
  }

  // The longest one that fits the window has the value v.
  ghost predicate LongestAt(text: Bytes, i: nat, e: nat, w: nat, v: real) {
    && (exists t :: LooseAt(text, i, e, w, t) && v == LooseValue(t))
    && forall t, e': nat :: LooseAt(text, i, e', w, t) ==> e' <= e
  }

  // ---- the parts of a token ----

  lemma LooseParts(text: Bytes, i: nat, e: nat, w: nat, t: LooseToken) returns (s: nat, p: nat, q: nat)
    requires LooseAt(text, i, e, w, t)
    ensures s == i + |t.sign| && p == s + |t.whole| && q == p + |PointText(t.point, t.fraction)| && e == q + |ExpText(t.exp)|
    ensures At(text, i, t.sign) && At(text, s, t.whole) && At(text, p, PointText(t.point, t.fraction)) && At(text, q, ExpText(t.exp))
  {
    var point, exp := PointText(t.point, t.fraction), ExpText(t.exp);
    s := i + |t.sign|;
    p := s + |t.whole|;
    q := p + |point|;
    AtSplit(text, i, t.sign + t.whole + point, exp);
    AtSplit(text, i, t.sign + t.whole, point);
    AtSplit(text, i, t.sign, t.whole);
  }

  // What comes behind the sign is no sign.
  lemma LooseSign(text: Bytes, i: nat, e: nat, w: nat, t: LooseToken)
    requires LooseAt(text, i, e, w, t)
    ensures (if IsSign(text, i, w) then i + 1 else i) == i + |t.sign| && IsMinus(text, i, w) == (t.sign == [MINUS])
  {
    var s, p, q := LooseParts(text, i, e, w, t);
    if t.sign != [] {
      AtByte(text, i, t.sign[0]);
    } else if t.whole != [] {
      AtIndex(text, s, t.whole, 0);
    } else {
      AtIndex(text, p, PointText(t.point, t.fraction), 0);
    }
  }

  // ---- strtod reads at least as much as any token has ----

  lemma {:induction false} DigitsReach(text: Bytes, i: nat, e: nat, w: nat)
    requires i <= e <= w <= |text| && forall k :: i <= k < e ==> IsDigit(text[k])
    ensures DigitsEnd(text, i, w) >= e && (e == w || !IsDigit(text[e]) ==> DigitsEnd(text, i, w) == e)
    decreases e - i
  {
    if i < e {
      DigitsReach(text, i + 1, e, w);
    }
  }

  lemma RunReach(text: Bytes, i: nat, e: nat, w: nat, ds: Bytes)
    requires At(text, i, ds) && AllDigits(ds) && e == i + |ds| && e <= w <= |text|
    ensures DigitsEnd(text, i, w) >= e && (e == w || !IsDigit(text[e]) ==> DigitsEnd(text, i, w) == e)
  {
    forall k | i <= k < e ensures IsDigit(text[k]) {
      AtIndex(text, i, ds, k - i);
    }
    DigitsReach(text, i, e, w);
  }

  lemma MantissaReach(text: Bytes, s: nat, p: nat, q: nat, w: nat, t: LooseToken)
    requires ValidLoose(t) && At(text, s, t.whole) && p == s + |t.whole|
    requires At(text, p, PointText(t.point, t.fraction)) && q == p + |PointText(t.point, t.fraction)| && q <= w <= |text|
    ensures ReadMantissa(text, s, w).end >= q && ReadMantissa(text, s, w).digits > 0
    ensures q == w || (!IsDigit(text[q]) && text[q] != POINT) ==>
      ReadMantissa(text, s, w) == Mantissa(Digits(t.fraction, Digits(t.whole, 0)), |t.whole| + |t.fraction|, |t.fraction|, q)
  {
    RunReach(text, s, p, w, t.whole);
    HornerAt(text, s, t.whole, |t.whole|, 0);
    if t.point {
      AtSplit(text, p, [POINT], t.fraction);
      AtByte(text, p, POINT);
      RunReach(text, p + 1, q, w, t.fraction);
      HornerAt(text, p + 1, t.fraction, |t.fraction|, Digits(t.whole, 0));
    }
  }

  lemma ExponentReach(text: Bytes, q: nat, e: nat, w: nat, x: ExpPart)
    requires ValidExp(x) && At(text, q, ExpText(x)) && e == q + |ExpText(x)| && e <= w <= |text|
    ensures ReadExponent(text, q, w).end >= e
  {
    if x.Exp? {
      AtSplit(text, q, [x.marker] + x.sign, x.digits);
      AtSplit(text, q, [x.marker], x.sign);
      AtByte(text, q, x.marker);
      SignAt(text, q + 1, w, x.sign, x.digits);
      RunReach(text, q + 1 + |x.sign|, e, w, x.digits);
    }
  }

  lemma LooseReach(text: Bytes, i: nat, e: nat, w: nat, t: LooseToken)
    requires LooseAt(text, i, e, w, t)
    ensures Strtod(text, i, w).Parsed? && Strtod(text, i, w).next >= e
  {
    var s, p, q := LooseParts(text, i, e, w, t);
    LooseSign(text, i, e, w, t);
    MantissaReach(text, s, p, q, w, t);
    if t.exp.Exp? {
      ExpMarker(text, q, t.exp);
      ExponentReach(text, q, e, w, t.exp);
    }
  }

  lemma ExpMarker(text: Bytes, q: nat, x: ExpPart)
    requires ValidExp(x) && x.Exp? && At(text, q, ExpText(x))
    ensures q < |text| && !IsDigit(text[q]) && text[q] != POINT
  {
    AtIndex(text, q, ExpText(x), 0);
  }

  // A token that is all there is to read is read as its value.
  lemma LooseExact(text: Bytes, i: nat, e: nat, t: LooseToken)
    requires LooseAt(text, i, e, e, t)
    ensures Strtod(text, i, e) == Parsed(LooseValue(t), e)
  {
    var s, p, q := LooseParts(text, i, e, e, t);
    LooseSign(text, i, e, e, t);
    if t.exp.Exp? {
      ExpMarker(text, q, t.exp);
    }
    MantissaReach(text, s, p, q, e, t);
    ReadExponentAt(text, q, e, t.exp);
    StrtodIs(text, i, e, t.sign == [MINUS], ReadMantissa(text, s, e), ReadExponent(text, q, e));
  }

  // ---- what strtod reads is a token ----

  lemma {:induction false} DigitsAll(text: Bytes, i: nat, w: nat)
    requires i <= w <= |text|
    ensures AllDigits(text[i..DigitsEnd(text, i, w)])
    decreases w - i
  {
    if i < w && IsDigit(text[i]) {
      DigitsAll(text, i + 1, w);
      var e := DigitsEnd(text, i, w);
      assert text[i..e] == [text[i]] + text[i + 1..e];
    }
  }

  // The digits that are read, as a piece of their own.
  lemma DigitsPiece(text: Bytes, i: nat, w: nat, acc: int) returns (ds: Bytes)
    requires i <= w <= |text|
    ensures AllDigits(ds) && At(text, i, ds) && DigitsEnd(text, i, w) == i + |ds| && Horner(text, i, i + |ds|, acc) == Digits(ds, acc)
  {
    DigitsAll(text, i, w);
    ds := text[i..DigitsEnd(text, i, w)];
    HornerAt(text, i, ds, |ds|, acc);
  }

  lemma SignPiece(text: Bytes, i: nat, w: nat) returns (sign: Bytes)
    requires i <= w <= |text|
    ensures (sign == [] || sign == [PLUS] || sign == [MINUS]) && At(text, i, sign)
    ensures i + |sign| == (if IsSign(text, i, w) then i + 1 else i) <= w && IsMinus(text, i, w) == (sign == [MINUS])
  {
    sign := if IsSign(text, i, w) then [text[i]] else [];
  }

  lemma ExponentPiece(text: Bytes, q: nat, w: nat) returns (x: ExpPart)
    requires q <= w <= |text|
    ensures ValidExp(x) && At(text, q, ExpText(x)) && ReadExponent(text, q, w) == Exponent(ExpValue(x), q + |ExpText(x)|)
  {
    x := NoExp;
    if q < w && (text[q] == LOWER_E || text[q] == UPPER_E) {
      var sign := SignPiece(text, q + 1, w);
      var digits := DigitsPiece(text, q + 1 + |sign|, w, 0);
      if digits != [] {
        x := Exp(text[q], sign, digits);
        AtJoin(text, q, [text[q]], sign);
        AtJoin(text, q, [text[q]] + sign, digits);
      }
    }
  }

  lemma MantissaPiece(text: Bytes, s: nat, w: nat) returns (whole: Bytes, point: bool, fraction: Bytes)
    requires s <= w <= |text|
    ensures AllDigits(whole) && AllDigits(fraction) && (fraction != [] ==> point)
    ensures At(text, s, whole) && At(text, s + |whole|, PointText(point, fraction))
    ensures ReadMantissa(text, s, w) == Mantissa(Digits(fraction, Digits(whole, 0)), |whole| + |fraction|, |fraction|,
      s + |whole| + |PointText(point, fraction)|)
  {
    whole := DigitsPiece(text, s, w, 0);
    point, fraction := false, [];
    var p := s + |whole|;
    if p < w && text[p] == POINT {
      point := true;
      fraction := DigitsPiece(text, p + 1, w, Digits(whole, 0));
      AtJoin(text, p, [POINT], fraction);
    }
  }

  // The parts of what strtod reads, as a token.
  lemma StrtodPieces(text: Bytes, i: nat, w: nat, v: real, e: nat) returns (t: LooseToken, piece: Bytes, exp: Bytes)
    requires i <= w <= |text| && Strtod(text, i, w) == Parsed(v, e)
    ensures ValidLoose(t) && piece == PointText(t.point, t.fraction) && exp == ExpText(t.exp)
    ensures At(text, i, t.sign) && At(text, i + |t.sign|, t.whole) && At(text, i + |t.sign| + |t.whole|, piece)
    ensures At(text, i + |t.sign| + |t.whole| + |piece|, exp) && e == i + |t.sign| + |t.whole| + |piece| + |exp|
    ensures v == LooseValue(t)
  {
    var sign := SignPiece(text, i, w);
    var s := i + |sign|;
    var whole, point, fraction := MantissaPiece(text, s, w);
    piece := PointText(point, fraction);
    var q := s + |whole| + |piece|;
    var x := ExponentPiece(text, q, w);
    exp := ExpText(x);
    StrtodIs(text, i, w, sign == [MINUS], ReadMantissa(text, s, w), ReadExponent(text, q, w));
    t := LooseToken(sign, whole, point, fraction, x);
  }

  lemma StrtodIsLoose(text: Bytes, i: nat, w: nat, v: real, e: nat) returns (t: LooseToken)
    requires i <= w <= |text| && Strtod(text, i, w) == Parsed(v, e)
    ensures LooseAt(text, i, e, w, t) && v == LooseValue(t)
  {
    var piece, exp;
    t, piece, exp := StrtodPieces(text, i, w, v, e);
    LooseJoins(text, i, e, w, t, piece, exp);
  }

  lemma LooseJoins(text: Bytes, i: nat, e: nat, w: nat, t: LooseToken, piece: Bytes, exp: Bytes)
    requires ValidLoose(t) && piece == PointText(t.point, t.fraction) && exp == ExpText(t.exp) && e <= w <= |text|
    requires At(text, i, t.sign) && At(text, i + |t.sign|, t.whole) && At(text, i + |t.sign| + |t.whole|, piece)
    requires At(text, i + |t.sign| + |t.whole| + |piece|, exp) && e == i + |t.sign| + |t.whole| + |piece| + |exp|
    ensures LooseAt(text, i, e, w, t)
  {
    JoinFour(text, i, t.sign, t.whole, piece, exp);
  }

  lemma JoinFour(text: Bytes, i: nat, a: Bytes, b: Bytes, c: Bytes, d: Bytes)
    requires At(text, i, a) && At(text, i + |a|, b) && At(text, i + |a| + |b|, c) && At(text, i + |a| + |b| + |c|, d)
    ensures At(text, i, a + b + c + d)
  {
    AtJoin(text, i, a, b);
    AtJoin(text, i, a + b, c);
    AtJoin(text, i, a + b + c, d);
  }

  // parse_number reads the longest loose token in its window, and nothing if there is none.
  lemma NumberExactly(text: Bytes, i: nat, v: real, e: nat)
    requires i <= |text|
    ensures ParseNumber(text, i) == Parsed(Number(v), e) <==> LongestAt(text, i, e, WindowEnd(text, i, i + 63), v)
  {
    var w := WindowEnd(text, i, i + WINDOW);
    if ParseNumber(text, i) == Parsed(Number(v), e) {
      var t := StrtodIsLoose(text, i, w, v, e);
      forall u, e': nat | LooseAt(text, i, e', w, u) ensures e' <= e {
        LooseReach(text, i, e', w, u);
      }
    }
    if LongestAt(text, i, e, w, v) {
      var t :| LooseAt(text, i, e, w, t) && v == LooseValue(t);
      LooseReach(text, i, e, w, t);
      var r := Strtod(text, i, w);
      var u := StrtodIsLoose(text, i, w, r.value, r.next);
      assert r.next <= e;
      LooseExact(text, i, e, t);
      LooseExact(text, i, e, u);
    }
  }
}
