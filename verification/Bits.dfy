// Bitwise operators of C on non-negative integers, and the arithmetic they amount to
// on the bit fields the program uses.
module Bits {
  type byte = i: int | 0 <= i < 256

  // a << k, before any truncation to the width of the type
  function Shl(a: nat, k: nat): nat {
    if k == 0 then a else 2 * Shl(a, k - 1)
  }

  // a >> k for a non-negative a
  function Shr(a: nat, k: nat): nat {
    if k == 0 then a else Shr(a / 2, k - 1)
  }

  function Pow2(k: nat): (p: nat)
    ensures p >= 1
  {
    if k == 0 then 1 else 2 * Pow2(k - 1)
  }

  // a & b
  function And(a: nat, b: nat): (r: nat)
    ensures r <= a && r <= b
  {
    if a == 0 || b == 0 then 0 else 2 * And(a / 2, b / 2) + (a % 2) * (b % 2)
  }

  // a | b
  function Or(a: nat, b: nat): nat
    decreases a + b
  {
    if a == 0 then b
    else if b == 0 then a
    else 2 * Or(a / 2, b / 2) + (if a % 2 + b % 2 == 0 then 0 else 1)
  }

  lemma AndDouble(a: nat, b: nat, x: nat, y: nat)
    requires x < 2 && y < 2
    ensures And(2 * a + x, 2 * b + y) == 2 * And(a, b) + x * y
  {
  }

  lemma OrDouble(a: nat, b: nat, x: nat, y: nat)
    requires x < 2 && y < 2
    ensures Or(2 * a + x, 2 * b + y) == 2 * Or(a, b) + (if x + y == 0 then 0 else 1)
  {
  }

  // The operators work on the low k bits and on the rest separately.
  lemma {:induction false} AndSplit(ah: nat, al: nat, bh: nat, bl: nat, k: nat)
    requires al < Pow2(k) && bl < Pow2(k)
    ensures And(Shl(ah, k) + al, Shl(bh, k) + bl) == Shl(And(ah, bh), k) + And(al, bl)
  {
    if k > 0 {
      AndSplit(ah, al / 2, bh, bl / 2, k - 1);
      AndDouble(Shl(ah, k - 1) + al / 2, Shl(bh, k - 1) + bl / 2, al % 2, bl % 2);
      AndDouble(al / 2, bl / 2, al % 2, bl % 2);
    }
  }

  lemma {:induction false} OrSplit(ah: nat, al: nat, bh: nat, bl: nat, k: nat)
    requires al < Pow2(k) && bl < Pow2(k)
    ensures Or(Shl(ah, k) + al, Shl(bh, k) + bl) == Shl(Or(ah, bh), k) + Or(al, bl)
  {
    if k > 0 {
      OrSplit(ah, al / 2, bh, bl / 2, k - 1);
      OrDouble(Shl(ah, k - 1) + al / 2, Shl(bh, k - 1) + bl / 2, al % 2, bl % 2);
      OrDouble(al / 2, bl / 2, al % 2, bl % 2);
    }
  }

  // x & (2^k - 1) keeps the low k bits.
  lemma {:induction false} AndLow(h: nat, l: nat, k: nat)
    requires l < Pow2(k)
    ensures And(Shl(h, k) + l, Pow2(k) - 1) == l
  {
    if k > 0 {
      AndLow(h, l / 2, k - 1);
      AndDouble(Shl(h, k - 1) + l / 2, Pow2(k - 1) - 1, l % 2, 1);
    }
  }

  // Or of two numbers whose bits do not overlap is their sum.
  lemma {:induction false} OrAdd(h: nat, l: nat, k: nat)
    requires l < Pow2(k)
    ensures Or(Shl(h, k), l) == Shl(h, k) + l
    ensures Or(l, Shl(h, k)) == Shl(h, k) + l
  {
    if k > 0 {
      OrAdd(h, l / 2, k - 1);
      OrDouble(Shl(h, k - 1), l / 2, 0, l % 2);
      OrDouble(l / 2, Shl(h, k - 1), l % 2, 0);
    }
  }

  lemma {:induction false} ShlMul(a: nat, k: nat)
    ensures Shl(a, k) == a * Pow2(k)
  {
    if k > 0 {
      ShlMul(a, k - 1);
      var p := Pow2(k - 1);
      assert a * (2 * p) == 2 * (a * p);
    }
  }

  lemma {:induction false} ShlShl(a: nat, j: nat, k: nat)
    ensures Shl(Shl(a, j), k) == Shl(a, j + k)
  {
    if k > 0 {
      ShlShl(a, j, k - 1);
    }
  }

  lemma {:induction false} ShrShl(h: nat, l: nat, k: nat)
    requires l < Pow2(k)
    ensures Shr(Shl(h, k) + l, k) == h
  {
    if k > 0 {
      ShrShl(h, l / 2, k - 1);
      assert (Shl(h, k) + l) / 2 == Shl(h, k - 1) + l / 2;
    }
  }
}
