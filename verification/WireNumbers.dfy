// The bytes of numbers and fields on the wire, one by one.
module WireNumbers {
  import opened Bits
  import opened ByteStrings
  import opened VarInts
  import opened Endian
  import opened PacketFields

  // ---- words in network order ----

  function TwoBytes(v: nat): Bytes
    requires v < 0x1_0000
  {
    [v / 256, v % 256]
  }

  function FourBytes(v: nat): Bytes
    requires v < 0x1_0000_0000
  {
    [v / 0x100_0000, v / 0x1_0000 % 256, v / 0x100 % 256, v % 256]
  }

  function EightBytes(v: nat): Bytes
    requires v < 0x1_0000_0000_0000_0000
  {
    FourBytes(v / 0x1_0000_0000) + FourBytes(v % 0x1_0000_0000)
  }

  // A byte further up.
  lemma ShiftMore(v: nat, k: nat, x: nat)
    requires x == Shr(v, k)
    ensures Shr(v, k + 8) == x / 256
  {
    ShrShr(v, k, 8);
    DivideByte(x);
  }

  lemma LowBytes(v: nat)
    ensures Byte(v, 0) == v % 256 && Byte(v, 1) == v / 0x100 % 256
    ensures Byte(v, 2) == v / 0x1_0000 % 256 && Byte(v, 3) == v / 0x100_0000 % 256
  {
    assert Shr(v, 0) == v;
    ShiftMore(v, 0, v);
    ShiftMore(v, 8, v / 0x100);
    ShiftMore(v, 16, v / 0x1_0000);
  }

  // Behind four bytes the higher ones follow.
  lemma UpperBytes(v: nat, h: nat, l: nat, j: nat)
    requires v == h * 0x1_0000_0000 + l && l < 0x1_0000_0000
    ensures Byte(v, 4 + j) == Byte(h, j)
  {
    assert Shr(v, 0) == v;
    ShiftMore(v, 0, v);
    ShiftMore(v, 8, v / 0x100);
    ShiftMore(v, 16, v / 0x1_0000);
    ShiftMore(v, 24, v / 0x100_0000);
    assert Shr(v, 32) == h;
    ShrShr(v, 32, 8 * j);
  }

  lemma LowerBytes(v: nat, h: nat, l: nat)
    requires v == h * 0x1_0000_0000 + l && l < 0x1_0000_0000
    ensures Byte(v, 0) == Byte(l, 0) && Byte(v, 1) == Byte(l, 1) && Byte(v, 2) == Byte(l, 2) && Byte(v, 3) == Byte(l, 3)
  {
    LowBytes(v);
    LowBytes(l);
    SameLow(v, h, l);
  }

  lemma SameLow(v: nat, h: nat, l: nat)
    requires v == h * 0x1_0000_0000 + l && l < 0x1_0000_0000
    ensures v % 256 == l % 256 && v / 0x100 % 256 == l / 0x100 % 256
    ensures v / 0x1_0000 % 256 == l / 0x1_0000 % 256 && v / 0x100_0000 % 256 == l / 0x100_0000 % 256
  {
    Carries(v, h, l);
    DropsUpper(h * 0x100_0000, l);
    DropsUpper(h * 0x1_0000, l / 0x100);
    DropsUpper(h * 0x100, l / 0x1_0000);
    DropsUpper(h, l / 0x100_0000);
  }

  lemma Carries(v: nat, h: nat, l: nat)
    requires v == h * 0x1_0000_0000 + l
    ensures v / 0x100 == 256 * (h * 0x1_0000) + l / 0x100
    ensures v / 0x1_0000 == 256 * (h * 0x100) + l / 0x1_0000
    ensures v / 0x100_0000 == 256 * h + l / 0x100_0000
  {
  }

  lemma DropsUpper(k: nat, x: nat)
    ensures (256 * k + x) % 256 == x % 256
  {
  }

  lemma BigTwo(v: nat)
    requires v < 0x1_0000
    ensures BigBytes(v, 2) == TwoBytes(v)
  {
    LowBytes(v);
    BigByte(v, 2, 0);
    BigByte(v, 2, 1);
  }

  lemma BigFour(v: nat)
    requires v < 0x1_0000_0000
    ensures BigBytes(v, 4) == FourBytes(v)
  {
    LowBytes(v);
    BigByte(v, 4, 0);
    BigByte(v, 4, 1);
    BigByte(v, 4, 2);
    BigByte(v, 4, 3);
  }

  lemma BigEight(v: nat)
    requires v < 0x1_0000_0000_0000_0000
    ensures BigBytes(v, 8) == EightBytes(v)
  {
    var h, l := v / 0x1_0000_0000, v % 0x1_0000_0000;
    BigFour(h);
    BigFour(l);
    LowerBytes(v, h, l);
    forall i | 0 <= i < 4 ensures BigBytes(v, 8)[i] == BigBytes(h, 4)[i] && BigBytes(v, 8)[4 + i] == BigBytes(l, 4)[i] {
      BigByte(v, 8, i);
      BigByte(h, 4, i);
      BigByte(v, 8, 4 + i);
      BigByte(l, 4, i);
      UpperBytes(v, h, l, 3 - i);
    }
  }

  // ---- variable-length integers ----

  lemma Quotients(v: nat)
    ensures v / 128 / 128 == v / 0x4000 && v / 128 / 0x4000 == v / 0x20_0000 && v / 128 / 0x20_0000 == v / 0x1000_0000
  {
  }

  lemma VarIntOne(v: nat)
    requires v < 0x80
    ensures VarInt(v) == [v]
  {
  }

  lemma VarIntTwo(v: nat)
    requires 0x80 <= v < 0x4000
    ensures VarInt(v) == [128 + v % 128, v / 128]
  {
    VarIntOne(v / 128);
  }

  lemma VarIntThree(v: nat)
    requires 0x4000 <= v < 0x20_0000
    ensures VarInt(v) == [128 + v % 128, 128 + v / 128 % 128, v / 0x4000]
  {
    Quotients(v);
    VarIntTwo(v / 128);
  }

  lemma VarIntFour(v: nat)
    requires 0x20_0000 <= v < 0x1000_0000
    ensures VarInt(v) == [128 + v % 128, 128 + v / 128 % 128, 128 + v / 0x4000 % 128, v / 0x20_0000]
  {
    Quotients(v);
    VarIntThree(v / 128);
  }

  lemma VarIntFive(v: nat)
    requires 0x1000_0000 <= v < 0x8000_0000
    ensures VarInt(v) == [128 + v % 128, 128 + v / 128 % 128, 128 + v / 0x4000 % 128, 128 + v / 0x20_0000 % 128, v / 0x1000_0000]
  {
    Quotients(v);
    VarIntFour(v / 128);
  }

  // Seven bits a byte from the lowest on, each byte but the last with 128 added.
  lemma VarIntBytes(v: nat)
    requires v < 0x8000_0000
    ensures VarInt(v) ==
      if v < 0x80 then [v]
      else if v < 0x4000 then [128 + v % 128, v / 128]
      else if v < 0x20_0000 then [128 + v % 128, 128 + v / 128 % 128, v / 0x4000]
      else if v < 0x1000_0000 then [128 + v % 128, 128 + v / 128 % 128, 128 + v / 0x4000 % 128, v / 0x20_0000]
      else [128 + v % 128, 128 + v / 128 % 128, 128 + v / 0x4000 % 128, 128 + v / 0x20_0000 % 128, v / 0x1000_0000]
  {
    if v < 0x80 {
      VarIntOne(v);
    } else if v < 0x4000 {
      VarIntTwo(v);
    } else if v < 0x20_0000 {
      VarIntThree(v);
    } else if v < 0x1000_0000 {
      VarIntFour(v);
    } else {
      VarIntFive(v);
    }
  }

  // ---- fields ----

  lemma UnsignedIs(i: int)
    requires -0x8000_0000_0000_0000 <= i < 0x8000_0000_0000_0000
    ensures Unsigned64(i) == if i < 0 then i + 0x1_0000_0000_0000_0000 else i
  {
  }

  lemma LongBytes(i: int)
    requires -0x8000_0000_0000_0000 <= i < 0x8000_0000_0000_0000
    ensures Encode(I64(i)) == EightBytes(if i < 0 then i + 0x1_0000_0000_0000_0000 else i)
  {
    UnsignedIs(i);
    BigEight(Unsigned64(i));
  }

  lemma UuidBytes(a: nat, b: nat)
    requires a < 0x1_0000_0000_0000_0000 && b < 0x1_0000_0000_0000_0000
    ensures Encode(Uuid(a, b)) == EightBytes(a) + EightBytes(b)
  {
    BigEight(a);
    BigEight(b);
  }

  // The word of a position has x in the highest 26 bits, then z in 26, then y in 12.
  lemma PositionBytes(x: int, y: int, z: int)
    requires InRange(Position(x, y, z))
    ensures var word := x % 0x400_0000 * 0x40_0000_0000 + z % 0x400_0000 * 0x1000 + y % 0x1000;
      word < 0x1_0000_0000_0000_0000 && Encode(Position(x, y, z)) == EightBytes(word)
  {
    PositionBack(x, y, z);
    BigEight(PositionWord(x, y, z));
  }

  // The bytes of the other kinds of fields.
  lemma FieldBytes(n: nat, s: Bytes)
    ensures n < 0x100 ==> Encode(U8(n)) == [n]
    ensures n < 0x1_0000 ==> Encode(U16(n)) == TwoBytes(n)
    ensures n < 0x1_0000_0000 ==> Encode(U32(n)) == FourBytes(n)
    ensures n < 0x1_0000_0000_0000_0000 ==> Encode(U64(n)) == EightBytes(n)
    ensures n < 0x8000_0000 ==> Encode(VarIntField(n)) == VarInt(n)
    ensures |s| < 0x8000_0000 ==> Encode(StringField(s)) == VarInt(|s|) + s
  {
    if n < 0x1_0000 {
      BigTwo(n);
    }
    if n < 0x1_0000_0000 {
      BigFour(n);
    }
    if n < 0x1_0000_0000_0000_0000 {
      BigEight(n);
    }
  }
}
