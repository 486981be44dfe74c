// Byte order: the swaps of endian.c as shift-and-mask expressions, and why the bytes on the wire
// are the same on every host.
module Endian {
  import opened Bits
  import opened ByteStrings
  import V = VarInts

  // Byte j of a word, counted from the least significant one.
  function Byte(v: nat, j: nat): byte {
    Shr(v, 8 * j) % 256
  }

  // The n low bytes of a word, least significant first, as a little-endian host keeps them in memory.
  function LittleBytes(v: nat, n: nat): (s: Bytes)
    ensures |s| == n
  {
    if n == 0 then [] else [v % 256] + LittleBytes(v / 256, n - 1)
  }

  // The same with the most significant one first: the order of a big-endian host and of the wire.
  function BigBytes(v: nat, n: nat): (s: Bytes)
    ensures |s| == n
  {
    if n == 0 then [] else [Byte(v, n - 1)] + BigBytes(v, n - 1)
  }

  // What memcpy sees of a word of n bytes.
  function Memory(v: nat, n: nat, little: bool): (s: Bytes)
    ensures |s| == n
  {
    if little then LittleBytes(v, n) else BigBytes(v, n)
  }

  function LittleValue(s: Bytes, j: nat): nat
    requires j <= |s|
    decreases |s| - j
  {
    if j == |s| then 0 else s[j] + 256 * LittleValue(s, j + 1)
  }

  // The value of the first j bytes, most significant first.
  function BigValue(s: Bytes, j: nat): nat
    requires j <= |s|
  {
    if j == 0 then 0 else 256 * BigValue(s, j - 1) + s[j - 1]
  }

  // The word that memcpy makes of bytes.
  function FromMemory(s: Bytes, little: bool): nat {
    if little then LittleValue(s, 0) else BigValue(s, |s|)
  }

  // ---- endian.c ----

  function Swap16(v: nat): nat {
    Or(Shl(v, 8), Shr(v, 8)) % 0x1_0000
  }

  function Swap32(v: nat): nat {
    Or(Or(Or(And(Shl(v, 24) % 0x1_0000_0000, 0xff00_0000),
             And(Shl(v, 8) % 0x1_0000_0000, 0x00ff_0000)),
          And(Shr(v, 8), 0x0000_ff00)),
       And(Shr(v, 24), 0x0000_00ff))
  }

  function Swap64(v: nat): nat {
    Or(Or(Or(Or(Or(Or(Or(And(Shl(v, 56) % 0x1_0000_0000_0000_0000, 0xff00_0000_0000_0000),
                         And(Shl(v, 40) % 0x1_0000_0000_0000_0000, 0x00ff_0000_0000_0000)),
                      And(Shl(v, 24) % 0x1_0000_0000_0000_0000, 0x0000_ff00_0000_0000)),
                   And(Shl(v, 8) % 0x1_0000_0000_0000_0000, 0x0000_00ff_0000_0000)),
                And(Shr(v, 8), 0x0000_0000_ff00_0000)),
             And(Shr(v, 24), 0x0000_0000_00ff_0000)),
          And(Shr(v, 40), 0x0000_0000_0000_ff00)),
       And(Shr(v, 56), 0x0000_0000_0000_00ff))
  }

  // to_be16, to_be32 and to_be64; the from_be functions are the same expressions.

  function ToBe16(v: nat, little: bool): nat {
    if little then Swap16(v) else v
  }

  function ToBe32(v: nat, little: bool): nat {
    if little then Swap32(v) else v
  }

  function ToBe64(v: nat, little: bool): nat {
    if little then Swap64(v) else v
  }

  // ---- a swap reverses the bytes ----

  // The number whose bytes are the first j bytes of v in the opposite order.
  function Turned(v: nat, j: nat): nat {
    if j == 0 then 0 else 256 * Turned(v, j - 1) + Byte(v, j - 1)
  }

  lemma {:induction false} ShrShr(v: nat, j: nat, k: nat)
    ensures Shr(Shr(v, j), k) == Shr(v, j + k)
    decreases j
  {
    if j > 0 {
      ShrShr(v / 2, j - 1, k);
    }
  }

  lemma {:induction false} ShrOfShl(v: nat, s: nat, k: nat)
    requires s <= k
    ensures Shr(Shl(v, s), k) == Shr(v, k - s)
    decreases s
  {
    if s > 0 {
      assert Shl(v, s) / 2 == Shl(v, s - 1);
      ShrOfShl(v, s - 1, k - 1);
    }
  }

  lemma {:induction false} ShrSplit(x: nat, k: nat) returns (l: nat)
    ensures l < Pow2(k) && x == Shl(Shr(x, k), k) + l
  {
    if k == 0 {
      l := 0;
    } else {
      var l' := ShrSplit(x / 2, k - 1);
      l := 2 * l' + x % 2;
    }
  }

  // Masking one byte of a number leaves that byte in its place.
  lemma Masked(x: nat, k: nat)
    ensures And(x, Shl(255, k)) == Shl(Shr(x, k) % 256, k)
  {
    var l := ShrSplit(x, k);
    var h := Shr(x, k);
    AndSplit(h, l, 255, 0, k);
    assert Pow2(8) == 256;
    ShlMul(h / 256, 8);
    AndLow(h / 256, h % 256, 8);
  }

  // Cutting a number off above the mask changes nothing.
  lemma CutMasked(x: nat, n: nat, m: nat)
    requires m < Pow2(n)
    ensures And(x % Pow2(n), m) == And(x, m)
  {
    var l := ShrSplit(x, n);
    ShlMul(Shr(x, n), n);
    CutIs(Shr(x, n), Pow2(n), l);
    AndSplit(Shr(x, n), l, 0, m, n);
    V.ShlZero(n);
  }

  lemma CutIs(q: nat, m: nat, l: nat)
    requires l < m
    ensures (q * m + l) % m == l
  {
    var d := (q * m + l) / m;
    var r := (q * m + l) % m;
    assert q * m + l == d * m + r;
    if d < q {
      V.Below(d, q, m);
    } else if q < d {
      V.Below(q, d, m);
    }
  }

  // The term of a swap that moves byte j up to bit k.
  lemma UpTerm(v: nat, s: nat, n: nat, k: nat, j: nat, mask: nat)
    requires s <= k && k - s == 8 * j && mask == Shl(255, k) < Pow2(n)
    ensures And(Shl(v, s) % Pow2(n), mask) == Shl(Byte(v, j), k)
  {
    CutMasked(Shl(v, s), n, mask);
    Masked(Shl(v, s), k);
    ShrOfShl(v, s, k);
  }

  // The term of a swap that moves byte j down to bit k.
  lemma DownTerm(v: nat, s: nat, k: nat, j: nat, mask: nat)
    requires s + k == 8 * j && mask == Shl(255, k)
    ensures And(Shr(v, s), mask) == Shl(Byte(v, j), k)
  {
    Masked(Shr(v, s), k);
    ShrShr(v, s, k);
  }

  // One more term joins the bytes that are already turned.
  lemma JoinTerm(v: nat, j: nat, k: nat)
    ensures Or(Shl(Turned(v, j), k + 8), Shl(Byte(v, j), k)) == Shl(Turned(v, j + 1), k)
  {
    var a, b := Turned(v, j), Byte(v, j);
    ShlMul(b, k);
    V.PowSum(8, k);
    assert Pow2(8) == 256;
    V.Below(b, 256, Pow2(k));
    OrAdd(a, Shl(b, k), k + 8);
    ShlMul(a, 8);
    ShlShl(a, 8, k);
    V.ShlAdd(256 * a, b, k);
  }

  lemma Powers()
    ensures Pow2(8) == 0x100 && Pow2(16) == 0x1_0000 && Pow2(24) == 0x100_0000 && Pow2(32) == 0x1_0000_0000
    ensures Pow2(40) == 0x100_0000_0000 && Pow2(48) == 0x1_0000_0000_0000
    ensures Pow2(56) == 0x100_0000_0000_0000 && Pow2(64) == 0x1_0000_0000_0000_0000
  {
    assert Pow2(8) == 0x100;
    V.PowSum(8, 8);
    V.PowSum(16, 8);
    V.PowSum(16, 16);
    V.PowSum(32, 8);
    V.PowSum(32, 16);
    V.PowSum(32, 24);
    V.PowSum(32, 32);
  }

  lemma FirstTurned(v: nat, k: nat)
    ensures Shl(Turned(v, 1), k) == Shl(Byte(v, 0), k)
  {
  }

  lemma Distribute(h: nat, l: nat, p: nat)
    ensures (h * p + l) * p == h * (p * p) + l * p
  {
  }

  // Or of a word of 2k bits and its upper half, cut to the word, exchanges the halves.
  lemma HalvesSwap(v: nat, h: nat, l: nat, k: nat, p: nat)
    requires p == Pow2(k) && h < p && l < p && v == h * p + l
    ensures Shr(v, k) == h && Or(Shl(v, k), h) % (p * p) == l * p + h
  {
    ShlMul(h, k);
    ShrShl(h, l, k);
    ShlMul(v, k);
    OrAdd(v, h, k);
    CutHalf(v, h, l, p);
  }

  lemma CutHalf(v: nat, h: nat, l: nat, p: nat)
    requires h < p && l < p && v == h * p + l
    ensures (v * p + h) % (p * p) == l * p + h
  {
    var q, low := p * p, l * p + h;
    Distribute(h, l, p);
    V.Below(l, p, p);
    CutOf(v * p + h, h, q, low);
  }

  lemma CutOf(x: nat, q: nat, m: nat, l: nat)
    requires x == q * m + l && l < m
    ensures x % m == l
  {
    CutIs(q, m, l);
  }

  lemma TurnedTwo(v: nat, h: nat, l: nat)
    requires l < 256 && h < 256 && v == 256 * h + l && Shr(v, 8) == h
    ensures Turned(v, 2) == 256 * l + h
  {
    assert Byte(v, 0) == l && Byte(v, 1) == h;
    assert Turned(v, 1) == l;
  }

  lemma Swap16Turns(v: nat)
    requires v < 0x1_0000
    ensures Swap16(v) == Turned(v, 2)
  {
    var h, l := v / 256, v % 256;
    assert Pow2(8) == 256;
    HalvesSwap(v, h, l, 8, 256);
    TurnedTwo(v, h, l);
  }

  lemma Swap32Turns(v: nat)
    ensures Swap32(v) == Turned(v, 4)
  {
    Swap32Terms(v);
    FirstTurned(v, 24);
    JoinTerm(v, 1, 16);
    JoinTerm(v, 2, 8);
    JoinTerm(v, 3, 0);
  }

  lemma Swap32Terms(v: nat)
    ensures And(Shl(v, 24) % 0x1_0000_0000, 0xff00_0000) == Shl(Byte(v, 0), 24)
    ensures And(Shl(v, 8) % 0x1_0000_0000, 0x00ff_0000) == Shl(Byte(v, 1), 16)
    ensures And(Shr(v, 8), 0x0000_ff00) == Shl(Byte(v, 2), 8)
    ensures And(Shr(v, 24), 0x0000_00ff) == Shl(Byte(v, 3), 0)
  {
    Powers();
    ShlMul(255, 24);
    ShlMul(255, 16);
    ShlMul(255, 8);
    UpTerm(v, 24, 32, 24, 0, 0xff00_0000);
    UpTerm(v, 8, 32, 16, 1, 0x00ff_0000);
    DownTerm(v, 8, 8, 2, 0x0000_ff00);
    DownTerm(v, 24, 0, 3, 0x0000_00ff);
  }

  lemma Swap64Turns(v: nat)
    ensures Swap64(v) == Turned(v, 8)
  {
    Swap64Up(v);
    Swap64Down(v);
    FourTurned(v);
    JoinTerm(v, 4, 24);
    JoinTerm(v, 5, 16);
    JoinTerm(v, 6, 8);
    JoinTerm(v, 7, 0);
  }

  lemma FourTurned(v: nat)
    ensures Or(Or(Or(Shl(Byte(v, 0), 56), Shl(Byte(v, 1), 48)), Shl(Byte(v, 2), 40)), Shl(Byte(v, 3), 32)) == Shl(Turned(v, 4), 32)
  {
    FirstTurned(v, 56);
    JoinTerm(v, 1, 48);
    JoinTerm(v, 2, 40);
    JoinTerm(v, 3, 32);
  }

  lemma Swap64Up(v: nat)
    ensures And(Shl(v, 56) % 0x1_0000_0000_0000_0000, 0xff00_0000_0000_0000) == Shl(Byte(v, 0), 56)
    ensures And(Shl(v, 40) % 0x1_0000_0000_0000_0000, 0x00ff_0000_0000_0000) == Shl(Byte(v, 1), 48)
    ensures And(Shl(v, 24) % 0x1_0000_0000_0000_0000, 0x0000_ff00_0000_0000) == Shl(Byte(v, 2), 40)
    ensures And(Shl(v, 8) % 0x1_0000_0000_0000_0000, 0x0000_00ff_0000_0000) == Shl(Byte(v, 3), 32)
  {
    Powers();
    ShlMul(255, 56);
    ShlMul(255, 48);
    ShlMul(255, 40);
    ShlMul(255, 32);
    UpTerm(v, 56, 64, 56, 0, 0xff00_0000_0000_0000);
    UpTerm(v, 40, 64, 48, 1, 0x00ff_0000_0000_0000);
    UpTerm(v, 24, 64, 40, 2, 0x0000_ff00_0000_0000);
    UpTerm(v, 8, 64, 32, 3, 0x0000_00ff_0000_0000);
  }

  lemma Swap64Down(v: nat)
    ensures And(Shr(v, 8), 0x0000_0000_ff00_0000) == Shl(Byte(v, 4), 24)
    ensures And(Shr(v, 24), 0x0000_0000_00ff_0000) == Shl(Byte(v, 5), 16)
    ensures And(Shr(v, 40), 0x0000_0000_0000_ff00) == Shl(Byte(v, 6), 8)
    ensures And(Shr(v, 56), 0x0000_0000_0000_00ff) == Shl(Byte(v, 7), 0)
  {
    Powers();
    ShlMul(255, 24);
    ShlMul(255, 16);
    ShlMul(255, 8);
    DownTerm(v, 8, 24, 4, 0x0000_0000_ff00_0000);
    DownTerm(v, 24, 16, 5, 0x0000_0000_00ff_0000);
    DownTerm(v, 40, 8, 6, 0x0000_0000_0000_ff00);
    DownTerm(v, 56, 0, 7, 0x0000_0000_0000_00ff);
  }

  // ---- the same bytes on every host ----

  lemma {:induction false} TurnedBytes(v: nat, n: nat)
    ensures LittleBytes(Turned(v, n), n) == BigBytes(v, n)
  {
    if n > 0 {
      var m := n - 1;
      TurnedBytes(v, m);
    }
  }

  lemma WireBytes16(v: nat, little: bool)
    requires v < 0x1_0000
    ensures Memory(ToBe16(v, little), 2, little) == BigBytes(v, 2)
  {
    Swap16Turns(v);
    TurnedBytes(v, 2);
  }

  lemma WireBytes32(v: nat, little: bool)
    ensures Memory(ToBe32(v, little), 4, little) == BigBytes(v, 4)
  {
    Swap32Turns(v);
    TurnedBytes(v, 4);
  }

  lemma WireBytes64(v: nat, little: bool)
    ensures Memory(ToBe64(v, little), 8, little) == BigBytes(v, 8)
  {
    Swap64Turns(v);
    TurnedBytes(v, 8);
  }

  lemma {:induction false} LittleByte(s: Bytes, j: nat, i: nat)
    requires j + i < |s|
    ensures Byte(LittleValue(s, j), i) == s[j + i]
    decreases i
  {
    if i > 0 {
      LittleByte(s, j + 1, i - 1);
      UpperByte(LittleValue(s, j + 1), s[j], i - 1);
    }
  }

  lemma UpperByte(v: nat, b: byte, i: nat)
    ensures Byte(b + 256 * v, i + 1) == Byte(v, i)
  {
    assert Pow2(8) == 256;
    ShlMul(v, 8);
    ShrShl(v, b, 8);
    ShrShr(b + 256 * v, 8, 8 * i);
  }

  lemma {:induction false} TurnedValue(s: Bytes, j: nat)
    requires j <= |s|
    ensures Turned(LittleValue(s, 0), j) == BigValue(s, j)
  {
    if j > 0 {
      LittleByte(s, 0, j - 1);
      TurnedValue(s, j - 1);
    }
  }

  lemma {:induction false} LittleBound(s: Bytes, j: nat)
    requires j <= |s|
    ensures LittleValue(s, j) < Pow2(8 * (|s| - j))
    decreases |s| - j
  {
    if j < |s| {
      LittleBound(s, j + 1);
      OneByteMore(|s| - j - 1, s[j], LittleValue(s, j + 1));
    }
  }

  lemma OneByteMore(n: nat, b: byte, v: nat)
    requires v < Pow2(8 * n)
    ensures b + 256 * v < Pow2(8 * (n + 1))
  {
    V.PowSum(8, 8 * n);
    assert Pow2(8) == 256;
  }

  lemma FromWire16(s: Bytes, little: bool)
    requires |s| == 2
    ensures ToBe16(FromMemory(s, little), little) == BigValue(s, 2)
  {
    LittleBound(s, 0);
    assert Pow2(16) == 0x1_0000 by {
      Powers();
    }
    Swap16Turns(LittleValue(s, 0));
    TurnedValue(s, 2);
  }

  lemma FromWire32(s: Bytes, little: bool)
    requires |s| == 4
    ensures ToBe32(FromMemory(s, little), little) == BigValue(s, 4)
  {
    Swap32Turns(LittleValue(s, 0));
    TurnedValue(s, 4);
  }

  lemma FromWire64(s: Bytes, little: bool)
    requires |s| == 8
    ensures ToBe64(FromMemory(s, little), little) == BigValue(s, 8)
  {
    Swap64Turns(LittleValue(s, 0));
    TurnedValue(s, 8);
  }

  // ---- the value of the bytes on the wire ----

  lemma {:induction false} BigByte(v: nat, n: nat, i: nat)
    requires i < n
    ensures BigBytes(v, n)[i] == Byte(v, n - 1 - i)
    decreases i
  {
    if i > 0 {
      BigByte(v, n - 1, i - 1);
    }
  }

  lemma {:induction false} ShrSmall(v: nat, k: nat)
    requires v < Pow2(k)
    ensures Shr(v, k) == 0
  {
    if k > 0 {
      ShrSmall(v / 2, k - 1);
    }
  }

  lemma {:induction false} BigPrefix(v: nat, n: nat, j: nat, s: Bytes)
    requires v < Pow2(8 * n) && j <= n && s == BigBytes(v, n)
    ensures BigValue(s, j) == Shr(v, 8 * (n - j))
    decreases j
  {
    if j == 0 {
      ShrSmall(v, 8 * n);
    } else {
      BigPrefix(v, n, j - 1, s);
      BigByte(v, n, j - 1);
      var k := 8 * (n - j);
      ShrShr(v, k, 8);
      DivideByte(Shr(v, k));
    }
  }

  lemma DivideByte(x: nat)
    ensures Shr(x, 8) == x / 256
  {
    assert Pow2(8) == 256;
    ShlMul(x / 256, 8);
    ShrShl(x / 256, x % 256, 8);
  }

  // Reading the bytes of a word gives the word back.
  lemma BigRoundTrip(v: nat, n: nat)
    requires v < Pow2(8 * n)
    ensures BigValue(BigBytes(v, n), n) == v
  {
    BigPrefix(v, n, n, BigBytes(v, n));
  }
}
