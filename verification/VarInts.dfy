// Variable-length integers: seven bits a byte, least significant first, the top bit saying that
// more bytes follow.
module VarInts {
  import opened Bits
  import opened ByteStrings

  const SEGMENT_BITS: nat := 0x7F
  const CONTINUE_BIT: nat := 0x80
  const MAX_VARINT_LEN: nat := 5
  const VALUE_LIMIT: nat := 0x8000_0000

  // The bytes of a value.
  function VarInt(v: nat): (s: Bytes)
    ensures s != []
  {
    if v < 128 then [v] else [128 + v % 128] + VarInt(v / 128)
  }

  // The value that bytes denote, whatever their top bits are.
  function Value(s: Bytes, j: nat): nat
    requires j <= |s|
    decreases |s| - j
  {
    if j == |s| then 0 else s[j] % 128 + 128 * Value(s, j + 1)
  }

  // Every byte but the last says that more follow.
  predicate Chained(s: Bytes) {
    s != [] && s[|s| - 1] < 128 && forall k :: 0 <= k < |s| - 1 ==> s[k] >= 128
  }

  lemma {:induction false} ValueTail(a: byte, s: Bytes, j: nat)
    requires j <= |s|
    ensures Value([a] + s, j + 1) == Value(s, j)
    decreases |s| - j
  {
    if j < |s| {
      ValueTail(a, s, j + 1);
    }
  }

  lemma {:induction false} VarIntValue(v: nat)
    ensures Chained(VarInt(v)) && Value(VarInt(v), 0) == v
  {
    if v >= 128 {
      VarIntValue(v / 128);
      ValueTail(128 + v % 128, VarInt(v / 128), 0);
    }
  }

  // No other byte string that denotes the value is shorter.
  lemma {:induction false} VarIntShortest(v: nat, s: Bytes)
    requires Chained(s) && Value(s, 0) == v
    ensures |VarInt(v)| <= |s|
    decreases |s|
  {
    if |s| > 1 {
      var t := s[1..];
      assert s == [s[0]] + t;
      ValueTail(s[0], t, 0);
      VarIntShortest(v / 128, t);
    }
  }

  lemma {:induction false} VarIntLength(v: nat, n: nat)
    requires v < Pow2(7 * n) && n > 0
    ensures |VarInt(v)| <= n
    decreases n
  {
    if v >= 128 {
      assert Pow2(7) == 128;
      SevenMore(n - 1);
      VarIntLength(v / 128, n - 1);
    }
  }

  lemma {:induction false} PowSum(a: nat, b: nat)
    ensures Pow2(a + b) == Pow2(a) * Pow2(b)
  {
    if a > 0 {
      PowSum(a - 1, b);
      Double(Pow2(a - 1), Pow2(b));
    }
  }

  lemma Double(x: nat, y: nat)
    ensures 2 * (x * y) == (2 * x) * y
  {
  }

  lemma SevenMore(n: nat)
    ensures Pow2(7 * (n + 1)) == 128 * Pow2(7 * n)
  {
    PowSum(7, 7 * n);
    assert Pow2(7) == 128;
  }

  // ---- reading ----

  // value |= (byte & VARINT_SEGMENT_BITS) << position
  function AddSegment(value: nat, position: nat, b: byte): nat {
    Or(value, Shl(And(b, SEGMENT_BITS), position))
  }

  predicate Continues(b: byte) {
    And(b, CONTINUE_BIT) != 0
  }

  // What build_varint makes of the bytes from p on, called for one after the other: the value and
  // the position behind the byte that ends it.
  function Build(s: Bytes, p: nat, position: nat, value: nat): (r: Parsed<nat>)
    ensures r.Parsed? ==> p < r.next <= |s|
    decreases |s| - p
  {
    if p >= |s| then Rejected
    else if Continues(s[p]) then Build(s, p + 1, position + 7, AddSegment(value, position, s[p]))
    else Parsed(AddSegment(value, position, s[p]), p + 1)
  }

  // The bits of a value in a signed 32-bit integer.
  function Int32(x: nat): (i: int)
    ensures -0x8000_0000 <= i < 0x8000_0000
    ensures x < VALUE_LIMIT ==> i == x
  {
    var y := x % 0x1_0000_0000;
    if y < VALUE_LIMIT then y else y - 0x1_0000_0000
  }

  // The loop of pr_read_varint; rejected means that one of its assertions fails.
  function ReadVarInt(s: Bytes, p: nat, position: nat, value: nat): (r: Parsed<int>)
    ensures r.Parsed? ==> p < r.next <= |s|
    decreases |s| - p
  {
    if p >= |s| then Rejected
    else
      var v := AddSegment(value, position, s[p]);
      if !Continues(s[p]) then Parsed(Int32(v), p + 1)
      else if position + 7 >= 32 then Rejected
      else ReadVarInt(s, p + 1, position + 7, v)
  }

  lemma SegmentBits(b: byte)
    ensures And(b, SEGMENT_BITS) == b % 128
    ensures Continues(b) <==> b >= 128
  {
    var h, l := b / 128, b % 128;
    assert Pow2(7) == 128;
    ShlMul(h, 7);
    AndLow(h, l, 7);
    AndSplit(h, l, 1, 0, 7);
    ShlMul(1, 7);
    ShlMul(And(h, 1), 7);
  }

  lemma SegmentAdds(value: nat, position: nat, b: byte)
    requires value < Pow2(position)
    ensures AddSegment(value, position, b) == value + Shl(b % 128, position) < Pow2(position + 7)
  {
    SegmentBits(b);
    OrAdd(b % 128, value, position);
    ShlMul(b % 128, position);
    PowSum(7, position);
    assert Pow2(7) == 128;
    Below(b % 128, 128, Pow2(position));
  }

  lemma Below(a: nat, b: nat, m: nat)
    requires a < b
    ensures a * m + m <= b * m
  {
    var d := b - a - 1;
    assert b * m == a * m + m + d * m;
  }

  lemma ShlAdd(a: nat, b: nat, k: nat)
    ensures Shl(a + b, k) == Shl(a, k) + Shl(b, k)
  {
    ShlMul(a + b, k);
    ShlMul(a, k);
    ShlMul(b, k);
    var m := Pow2(k);
    assert (a + b) * m == a * m + b * m;
  }

  lemma ShlSeven(a: nat, k: nat)
    ensures Shl(128 * a, k) == Shl(a, k + 7)
  {
    assert Pow2(7) == 128;
    ShlMul(a, 7);
    ShlShl(a, 7, k);
  }

  // Chained bytes are taken as their value, up to the last of them whatever follows.
  lemma {:induction false} Builds(s: Bytes, p: nat, piece: Bytes, j: nat, position: nat, value: nat)
    requires Chained(piece) && j < |piece| && At(s, p, piece) && value < Pow2(position)
    ensures Build(s, p + j, position, value) == Parsed(value + Shl(Value(piece, j), position), p + |piece|)
    decreases |piece| - j
  {
    var b, rest := piece[j], Value(piece, j + 1);
    AtIndex(s, p, piece, j);
    SegmentBits(b);
    SegmentAdds(value, position, b);
    ShlAdd(b % 128, 128 * rest, position);
    ShlSeven(rest, position);
    if j + 1 < |piece| {
      Builds(s, p, piece, j + 1, position + 7, AddSegment(value, position, b));
    } else {
      ShlMul(0, position);
      ShlMul(0, position + 7);
    }
  }

  // build_varint recovers every value from its bytes and stops behind them.
  lemma BuildsVarInt(s: Bytes, p: nat, v: nat)
    requires At(s, p, VarInt(v))
    ensures Build(s, p, 0, 0) == Parsed(v, p + |VarInt(v)|)
  {
    VarIntValue(v);
    Builds(s, p, VarInt(v), 0, 0, 0);
  }

  // pr_read_varint stops where build_varint stops, unless that is behind more than five bytes.
  lemma {:induction false} ReadAgrees(s: Bytes, p: nat, position: nat, value: nat, b: Parsed<nat>)
    requires b == Build(s, p, position, value) && position < 32
    ensures ReadVarInt(s, p, position, value)
         == if b.Parsed? && position + 7 * (b.next - p - 1) < 32 then Parsed(Int32(b.value), b.next) else Rejected
    decreases |s| - p
  {
    if p < |s| && Continues(s[p]) {
      assert b == Build(s, p + 1, position + 7, AddSegment(value, position, s[p]));
      if position + 7 < 32 {
        ReadAgrees(s, p + 1, position + 7, AddSegment(value, position, s[p]), b);
      }
    }
  }

  lemma VarIntLengthFive(v: nat)
    requires v < VALUE_LIMIT
    ensures |VarInt(v)| <= MAX_VARINT_LEN
  {
    assert Pow2(7) == 128 && Pow2(14) == 0x4000;
    PowSum(14, 14);
    PowSum(28, 7);
    VarIntLength(v, 5);
  }

  lemma ReadsVarInt(s: Bytes, p: nat, v: nat)
    requires At(s, p, VarInt(v)) && v < VALUE_LIMIT
    ensures ReadVarInt(s, p, 0, 0) == Parsed(v, p + |VarInt(v)|)
  {
    BuildsVarInt(s, p, v);
    ReadAgrees(s, p, 0, 0, Build(s, p, 0, 0));
    VarIntLengthFive(v);
  }

  // No encoding is a proper prefix of another one.
  lemma PrefixFree(u: nat, v: nat, x: Bytes, y: Bytes)
    requires VarInt(u) + x == VarInt(v) + y
    ensures u == v && x == y
  {
    var s := VarInt(u) + x;
    assert At(s, 0, VarInt(u)) && At(s, 0, VarInt(v));
    BuildsVarInt(s, 0, u);
    BuildsVarInt(s, 0, v);
    assert x == s[|VarInt(u)|..] && y == s[|VarInt(v)|..];
  }

  // ---- writing ----

  // ~VARINT_SEGMENT_BITS in 32 bits
  const HIGH_BITS: nat := 0xFFFF_FF80

  lemma SegmentSplit(v: nat)
    ensures And(v, SEGMENT_BITS) == v % 128 && Shr(v, 7) == v / 128
    ensures Or(v % 128, CONTINUE_BIT) == 128 + v % 128
  {
    var h, l := v / 128, v % 128;
    assert Pow2(7) == 128;
    ShlMul(h, 7);
    AndLow(h, l, 7);
    ShrShl(h, l, 7);
    ShlMul(1, 7);
    OrAdd(1, l, 7);
  }

  lemma PowTwentyFive()
    ensures Pow2(25) == 0x200_0000
  {
    assert Pow2(5) == 32 && Pow2(10) == 1024;
    PowSum(10, 10);
    PowSum(20, 5);
  }

  lemma HighBits(v: nat, mask: nat)
    requires v < VALUE_LIMIT && mask == HIGH_BITS
    ensures And(v, mask) == v / 128 * 128
  {
    var h, l, k := v / 128, v % 128, 25;
    PowTwentyFive();
    var all := Pow2(k) - 1;
    Times128(h);
    Times128(all);
    HighSplit(h, l, all);
    AndAll(h, k);
  }

  lemma Times128(a: nat)
    ensures Shl(a, 7) == 128 * a
  {
    assert Pow2(7) == 128;
    ShlMul(a, 7);
  }

  lemma HighSplit(h: nat, l: nat, all: nat)
    requires l < 128
    ensures And(Shl(h, 7) + l, Shl(all, 7)) == 128 * And(h, all)
  {
    assert Pow2(7) == 128;
    AndSplit(h, l, all, 0, 7);
    Times128(And(h, all));
  }

  lemma {:induction false} ShlZero(k: nat)
    ensures Shl(0, k) == 0
  {
    if k > 0 {
      ShlZero(k - 1);
    }
  }

  lemma AndAll(h: nat, k: nat)
    requires h < Pow2(k)
    ensures And(h, Pow2(k) - 1) == h
  {
    AndLow(0, h, k);
    ShlZero(k);
  }

  // varint_from_int: it ends for every value that is not negative, within the five bytes it has.
  method VarIntFromInt(v: int) returns (bytes: array<byte>, byteCount: nat)
    requires 0 <= v < VALUE_LIMIT
    ensures fresh(bytes) && bytes.Length == MAX_VARINT_LEN
    ensures 1 <= byteCount <= MAX_VARINT_LEN && bytes[..byteCount] == VarInt(v)
  {
    bytes := new byte[MAX_VARINT_LEN](_ => 0);
    var val: nat, pos := v, 0;
    VarIntLengthFive(v);
    assert bytes[..0] + VarInt(v) == VarInt(v);
    while true
      invariant val < VALUE_LIMIT && 0 <= pos && pos + |VarInt(val)| <= MAX_VARINT_LEN
      invariant VarInt(v) == bytes[..pos] + VarInt(val)
      decreases val
    {
      ghost var done, rest := bytes[..pos], VarInt(val / 128);
      SegmentSplit(val);
      HighBits(val, HIGH_BITS);
      if And(val, HIGH_BITS) == 0 {
        bytes[pos] := val;
        assert bytes[..pos + 1] == done + [val];
        break;
      }
      bytes[pos] := Or(And(val, SEGMENT_BITS), CONTINUE_BIT);
      assert bytes[..pos + 1] == done + [128 + val % 128];
      Regroup(done, [128 + val % 128], rest);
      pos := pos + 1;
      val := Shr(val, 7);
    }
    byteCount := pos + 1;
  }

  // The value after k arithmetic shifts by seven.
  function Shifted(v: int, k: nat): int {
    if k == 0 then v else Shifted(v, k - 1) / 128
  }

  // The loop of varint_from_int ends for exactly the values that are not negative: a negative one
  // stays negative, so the bits above the lowest seven never become zero.
  lemma {:induction false} StaysNegative(v: int, k: nat)
    requires v < 0
    ensures Shifted(v, k) < 0
  {
    if k > 0 {
      StaysNegative(v, k - 1);
    }
  }

  lemma {:induction false} BecomesSmall(v: nat) returns (k: nat)
    ensures 0 <= Shifted(v, k) < 128
  {
    if v < 128 {
      k := 0;
    } else {
      var j := BecomesSmall(v / 128);
      ShiftedMore(v, j);
      k := j + 1;
    }
  }

  lemma {:induction false} ShiftedMore(v: int, k: nat)
    ensures Shifted(v / 128, k) == Shifted(v, k + 1)
  {
    if k > 0 {
      ShiftedMore(v, k - 1);
    }
  }

  lemma EndsForNonNegative(v: int)
    ensures (exists k: nat :: 0 <= Shifted(v, k) < 128) <==> v >= 0
  {
    if v >= 0 {
      var k := BecomesSmall(v);
      assert 0 <= Shifted(v, k) < 128;
    } else {
      forall k: nat ensures !(0 <= Shifted(v, k) < 128) {
        StaysNegative(v, k);
      }
    }
  }
}
