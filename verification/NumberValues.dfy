// What number tokens denote, digit by digit, and which bytes an integer is printed with.
module NumberValues {
  import opened Bits
  import opened ByteStrings
  import opened JsonData
  import opened JsonNumber

  // Each digit counts with the power of ten of its place.
  function PlaceSum(ds: Bytes, j: nat): int
    requires j <= |ds|
    decreases |ds| - j
  {
    if j == |ds| then 0 else (-48 + ds[j]) * Pow10(|ds| - 1 - j) + PlaceSum(ds, j + 1)
  }

  lemma {:induction false} HornerPlaces(ds: Bytes, j: nat, acc: int)
    requires j <= |ds|
    ensures Digits(ds, acc) == Horner(ds, 0, j, acc) * Pow10(|ds| - j) + PlaceSum(ds, j)
    decreases |ds| - j
  {
    if j < |ds| {
      var n := j + 1;
      HornerPlaces(ds, n, acc);
      var b: int := ds[j];
      OnePlace(Horner(ds, 0, j, acc), b - 48, Pow10(|ds| - n));
    }
  }

  lemma OnePlace(h: int, d: int, p: int)
    ensures (10 * h + d) * p == h * (10 * p) + d * p
  {
  }

  lemma {:induction false} HornerJoins(a: Bytes, b: Bytes, j: nat)
    requires j <= |b|
    ensures Horner(a + b, 0, |a| + j, 0) == Horner(b, 0, j, Digits(a, 0))
  {
    if j > 0 {
      HornerJoins(a, b, j - 1);
    } else {
      HornerFront(a, b, |a|);
    }
  }

  lemma {:induction false} HornerFront(a: Bytes, b: Bytes, j: nat)
    requires j <= |a|
    ensures Horner(a + b, 0, j, 0) == Horner(a, 0, j, 0)
  {
    if j > 0 {
      HornerFront(a, b, j - 1);
    }
  }

  // The digits in front of the point and behind it, as one number.
  lemma DigitsValue(whole: Bytes, fraction: Bytes)
    ensures Digits(fraction, Digits(whole, 0)) == PlaceSum(whole + fraction, 0)
    ensures Digits(whole, 0) == PlaceSum(whole, 0)
  {
    HornerJoins(whole, fraction, |fraction|);
    HornerPlaces(whole + fraction, 0, 0);
    HornerPlaces(whole, 0, 0);
  }

  // m * 10^e
  lemma {:induction false} ScaleUp(m: int, e: nat)
    ensures Scale(m, e) == (m * Pow10(e)) as real
    decreases e
  {
    if e > 0 {
      ScaleUp(m, e - 1);
      Tenfold(m, Pow10(e - 1));
    }
  }

  lemma Tenfold(m: int, p: nat)
    ensures (m * p) as real * 10.0 == (m * (10 * p)) as real
  {
    assert m * (10 * p) == 10 * (m * p);
  }

  lemma {:induction false} ScaleDown(m: int, k: nat)
    ensures Scale(m, 0 - k) * (Pow10(k) as real) == m as real
    decreases k
  {
    if k > 0 {
      ScaleDown(m, k - 1);
      Tenth(Scale(m, 0 - (k - 1)), Pow10(k - 1));
    }
  }

  lemma ScaleMeans(m: int, e: int, x: real)
    requires x == Scale(m, e)
    ensures if e >= 0 then x == (m * Pow10(e)) as real else x * (Pow10(-e) as real) == m as real
  {
    if e >= 0 {
      ScaleUp(m, e);
    } else {
      ScaleDown(m, -e);
    }
  }

  lemma Tenth(x: real, p: nat)
    ensures x / 10.0 * ((10 * p) as real) == x * (p as real)
  {
    assert (10 * p) as real == 10.0 * (p as real);
    assert x / 10.0 * 10.0 == x;
    Reorder(x / 10.0, 10.0, p as real);
  }

  lemma Reorder(a: real, b: real, c: real)
    ensures a * (b * c) == (a * b) * c
  {
  }

  // The bytes of a token: 45 for a minus sign, 46 for the point, 101 or 69 for the exponent, 43 or 45 for its sign, and
  // 48 to 57 for the digits.
  lemma TokenBytesAre(t: NumberToken)
    requires ValidToken(t)
    ensures TokenText(t) == (if t.minus then [45] else []) + t.whole + (if t.fraction == [] then [] else [46] + t.fraction)
      + match t.exp case NoExp => [] case Exp(marker, sign, digits) => [marker] + sign + digits
    ensures forall k :: 0 <= k < |t.whole| ==> 48 <= t.whole[k] <= 57
    ensures forall k :: 0 <= k < |t.fraction| ==> 48 <= t.fraction[k] <= 57
    ensures t.exp.Exp? ==> (t.exp.marker == 101 || t.exp.marker == 69) && (t.exp.sign == [] || t.exp.sign == [43] || t.exp.sign == [45])
    ensures t.exp.Exp? ==> t.exp.digits != [] && forall k :: 0 <= k < |t.exp.digits| ==> 48 <= t.exp.digits[k] <= 57
  {
  }

  // And all of them are tokens.
  lemma AreTokens(t: NumberToken)
    requires t.whole != [] && (forall k :: 0 <= k < |t.whole| ==> 48 <= t.whole[k] <= 57)
    requires forall k :: 0 <= k < |t.fraction| ==> 48 <= t.fraction[k] <= 57
    requires t.exp.Exp? ==> (t.exp.marker == 101 || t.exp.marker == 69) && (t.exp.sign == [] || t.exp.sign == [43] || t.exp.sign == [45])
    requires t.exp.Exp? ==> t.exp.digits != [] && forall k :: 0 <= k < |t.exp.digits| ==> 48 <= t.exp.digits[k] <= 57
    ensures ValidToken(t)
  {
  }

  function Exponent10(x: ExpPart): int {
    match x
    case NoExp => 0
    case Exp(_, sign, digits) => if sign == [45] then -PlaceSum(digits, 0) else PlaceSum(digits, 0)
  }

  // The digits of a token by their places, with its sign.
  function SignedPlaces(t: NumberToken): int {
    if t.minus then -PlaceSum(t.whole + t.fraction, 0) else PlaceSum(t.whole + t.fraction, 0)
  }

  lemma TokenIsScaled(t: NumberToken)
    requires ValidToken(t)
    ensures TokenValue(t) == Scale(SignedPlaces(t), Exponent10(t.exp) - |t.fraction|)
  {
    DigitsValue(t.whole, t.fraction);
    if t.exp.Exp? {
      DigitsValue(t.exp.digits, []);
    }
  }

  // A token denotes these, moved by the exponent and by the digits behind the point.
  lemma TokenDenotes(t: NumberToken, n: int, e: int)
    requires ValidToken(t) && n == SignedPlaces(t) && e == Exponent10(t.exp) - |t.fraction|
    ensures if e >= 0 then TokenValue(t) == (n * Pow10(e)) as real else TokenValue(t) * (Pow10(-e) as real) == n as real
  {
    TokenIsScaled(t);
    ScaleMeans(n, e, Scale(n, e));
  }

  lemma {:induction false} NoLeadingZero(n: nat)
    ensures DigitsOf(n)[0] != 48 || |DigitsOf(n)| == 1
    ensures n > 0 ==> DigitsOf(n)[0] != 48
    decreases n
  {
    if n >= 10 {
      NoLeadingZero(n / 10);
    }
  }

  // An integer is printed with its digits, none of them a leading zero, behind a minus sign if it is negative.
  lemma DecimalBytes(n: int)
    ensures var ds := DigitsOf(if n < 0 then -n else n);
      && Decimal(n) == (if n < 0 then [45] + ds else ds)
      && (forall k :: 0 <= k < |ds| ==> 48 <= ds[k] <= 57)
      && PlaceSum(ds, 0) == (if n < 0 then -n else n)
      && (ds[0] != 48 || |ds| == 1)
  {
    var m := if n < 0 then -n else n;
    NoLeadingZero(m);
    DigitsValue(DigitsOf(m), []);
  }
}
