// The fields of a packet: how each is written and how it is read back.
module PacketFields {
  import opened Bits
  import opened ByteStrings
  import opened VarInts
  import opened Endian

  datatype Field =
    | U8(n: nat)
    | U16(n: nat)
    | U32(n: nat)
    | U64(n: nat)
    | I64(i: int)
    | VarIntField(i: int)
    | StringField(text: Bytes)
    | Uuid(first: nat, second: nat)
    | Position(x: int, y: int, z: int)

  datatype Kind = U8Kind | U16Kind | U32Kind | U64Kind | I64Kind | VarIntKind | StringKind | UuidKind | PositionKind

  const LIMIT_16: nat := 0x1_0000
  const LIMIT_32: nat := 0x1_0000_0000
  const LIMIT_64: nat := 0x1_0000_0000_0000_0000

  predicate Fits(i: int, limit: int) {
    -limit <= i < limit
  }

  // The values the C types have; only varints that are not negative are written.
  predicate InRange(f: Field) {
    match f
    case U8(n) => n < 256
    case U16(n) => n < LIMIT_16
    case U32(n) => n < LIMIT_32
    case U64(n) => n < LIMIT_64
    case I64(i) => Fits(i, 0x8000_0000_0000_0000)
    case VarIntField(i) => 0 <= i < VALUE_LIMIT
    case StringField(s) => |s| < VALUE_LIMIT
    case Uuid(a, b) => a < LIMIT_64 && b < LIMIT_64
    case Position(x, y, z) => Fits(x, 0x8000_0000) && Fits(y, 0x8000_0000) && Fits(z, 0x8000_0000)
  }

  // A position has 26 bits for x and z and 12 for y.
  predicate Packable(f: Field) {
    f.Position? ==> Fits(f.x, 0x200_0000) && Fits(f.y, 0x800) && Fits(f.z, 0x200_0000)
  }

  function KindOf(f: Field): Kind {
    match f
    case U8(_) => U8Kind
    case U16(_) => U16Kind
    case U32(_) => U32Kind
    case U64(_) => U64Kind
    case I64(_) => I64Kind
    case VarIntField(_) => VarIntKind
    case StringField(_) => StringKind
    case Uuid(_, _) => UuidKind
    case Position(_, _, _) => PositionKind
  }

  // ---- 64-bit words ----

  // The bits of a signed word, as an unsigned one.
  function Unsigned64(i: int): nat {
    i % LIMIT_64
  }

  function Signed64(n: nat): int {
    var m := n % LIMIT_64;
    if m < 0x8000_0000_0000_0000 then m else m - LIMIT_64
  }

  // data >> k for a signed word
  function Sar(i: int, k: nat): int {
    i / Pow2(k)
  }

  // data << k for a signed word
  function Shl64(i: int, k: nat): int {
    Signed64(Shl(Unsigned64(i), k))
  }

  const BITS_26: nat := 0x400_0000
  const BITS_12: nat := 0x1000

  // The three fields of a position stand side by side in its word.
  function Joined(a: nat, b: nat, c: nat): nat {
    (a * BITS_26 + b) * BITS_12 + c
  }

  // The number whose lowest bits are v, taken as signed.
  function SignExtended(v: nat, half: nat): int {
    if v < half then v else v - 2 * half
  }

  // The word of a position: 26 bits of x, 26 bits of z, 12 bits of y.
  function PositionWord(x: int, y: int, z: int): nat {
    Joined(x % BITS_26, z % BITS_26, y % BITS_12)
  }

  function WordPosition(n: nat): Field {
    Position(SignExtended(n / 0x40_0000_0000 % BITS_26, 0x200_0000),
      SignExtended(n % BITS_12, 0x800),
      SignExtended(n / BITS_12 % BITS_26, 0x200_0000))
  }

  // ---- writing and reading ----

  function Encode(f: Field): Bytes
    requires InRange(f)
  {
    match f
    case U8(n) => [n]
    case U16(n) => BigBytes(n, 2)
    case U32(n) => BigBytes(n, 4)
    case U64(n) => BigBytes(n, 8)
    case I64(i) => BigBytes(Unsigned64(i), 8)
    case VarIntField(i) => VarInt(i)
    case StringField(s) => VarInt(|s|) + s
    case Uuid(a, b) => BigBytes(a, 8) + BigBytes(b, 8)
    case Position(x, y, z) => BigBytes(PositionWord(x, y, z), 8)
  }

  // The n bytes at p as a number in network order; rejected means that an assertion fails.
  function ReadWord(s: Bytes, p: nat, n: nat): (r: Parsed<nat>)
    ensures r.Parsed? ==> r.next == p + n <= |s|
  {
    if p + n <= |s| then Parsed(BigValue(s[p..p + n], n), p + n) else Rejected
  }

  // pr_read_string; a negative length, which would move the position back, counts as rejected.
  function ReadText(s: Bytes, p: nat): (r: Parsed<Bytes>)
    ensures r.Parsed? ==> p < r.next <= |s|
  {
    match ReadVarInt(s, p, 0, 0)
    case Rejected => Rejected
    case Parsed(len, q) => if len < 0 || q + len > |s| then Rejected else Parsed(s[q..q + len], q + len)
  }

  function Decode(kind: Kind, s: Bytes, p: nat): Parsed<Field> {
    match kind
    case U8Kind => (match ReadWord(s, p, 1) case Rejected => Rejected case Parsed(n, q) => Parsed(U8(n), q))
    case U16Kind => (match ReadWord(s, p, 2) case Rejected => Rejected case Parsed(n, q) => Parsed(U16(n), q))
    case U32Kind => (match ReadWord(s, p, 4) case Rejected => Rejected case Parsed(n, q) => Parsed(U32(n), q))
    case U64Kind => (match ReadWord(s, p, 8) case Rejected => Rejected case Parsed(n, q) => Parsed(U64(n), q))
    case I64Kind =>
      (match ReadWord(s, p, 8) case Rejected => Rejected case Parsed(n, q) => Parsed(I64(Signed64(n)), q))
    case VarIntKind =>
      (match ReadVarInt(s, p, 0, 0) case Rejected => Rejected case Parsed(i, q) => Parsed(VarIntField(i), q))
    case StringKind => (match ReadText(s, p) case Rejected => Rejected case Parsed(t, q) => Parsed(StringField(t), q))
    case UuidKind =>
      (match ReadWord(s, p, 8)
       case Rejected => Rejected
       case Parsed(a, q) => match ReadWord(s, q, 8) case Rejected => Rejected case Parsed(b, e) => Parsed(Uuid(a, b), e))
    case PositionKind =>
      (match ReadWord(s, p, 8) case Rejected => Rejected case Parsed(n, q) => Parsed(WordPosition(n), q))
  }

  // ---- round trips ----

  lemma WordAt(s: Bytes, p: nat, v: nat, n: nat)
    requires At(s, p, BigBytes(v, n)) && v < Pow2(8 * n)
    ensures ReadWord(s, p, n) == Parsed(v, p + n)
  {
    BigRoundTrip(v, n);
    assert s[p..p + n] == BigBytes(v, n);
  }

  lemma ByteAt(s: Bytes, p: nat, n: nat)
    requires n < 256 && At(s, p, [n])
    ensures ReadWord(s, p, 1) == Parsed(n, p + 1)
  {
    AtByte(s, p, n);
    assert s[p..p + 1] == [n];
    assert BigValue([n], 0) == 0;
  }

  lemma SignedBack(i: int)
    requires Fits(i, 0x8000_0000_0000_0000)
    ensures Unsigned64(i) < LIMIT_64 && Signed64(Unsigned64(i)) == i
  {
  }

  lemma TextAt(s: Bytes, p: nat, t: Bytes)
    requires At(s, p, VarInt(|t|) + t) && |t| < VALUE_LIMIT
    ensures ReadText(s, p) == Parsed(t, p + |VarInt(|t|)| + |t|)
  {
    AtSplit(s, p, VarInt(|t|), t);
    ReadsVarInt(s, p, |t|);
    var q := p + |VarInt(|t|)|;
    assert s[q..q + |t|] == t;
  }

  // ---- positions, as they are packed and unpacked with shifts and masks ----

  // pb_write_position
  function Packed(x: int, y: int, z: int): nat {
    Or(Or(Shl(And(Unsigned64(x), 0x3FF_FFFF), 38), Shl(And(Unsigned64(z), 0x3FF_FFFF), 12)), And(Unsigned64(y), 0xFFF))
  }

  // pr_read_position
  function Unpacked(data: int): Field {
    Position(Sar(data, 38), Sar(Shl64(data, 52), 52), Sar(Shl64(data, 26), 38))
  }

  lemma PositionPowers()
    ensures Pow2(12) == BITS_12 && Pow2(26) == BITS_26 && Pow2(38) == 0x40_0000_0000 && Pow2(52) == 0x10_0000_0000_0000
  {
    assert Pow2(12) == 0x1000;
    PowSum(12, 12);
    PowSum(24, 2);
    PowSum(26, 12);
    PowSum(26, 26);
  }

  lemma Mod26(i: int, a: int, m: nat)
    requires i == a * BITS_26 + m && m < BITS_26
    ensures i % BITS_26 == m
  {
  }

  lemma Mod12(i: int, a: int, m: nat)
    requires i == a * BITS_12 + m && m < BITS_12
    ensures i % BITS_12 == m
  {
  }

  lemma ModMod(i: int)
    ensures (i % LIMIT_64) % BITS_26 == i % BITS_26
    ensures (i % LIMIT_64) % BITS_12 == i % BITS_12
  {
    var q, r := i / LIMIT_64, i % LIMIT_64;
    Mod26(i, q * 0x40_0000_0000 + r / BITS_26, r % BITS_26);
    Mod12(i, q * 0x10_0000_0000_0000 + r / BITS_12, r % BITS_12);
  }

  lemma LowBits(h: nat, l: nat, k: nat, limit: nat, u: nat)
    requires limit == Pow2(k) && l < limit && u == Shl(h, k) + l
    ensures And(u, limit - 1) == l
  {
    AndLow(h, l, k);
  }

  lemma LowBits26(i: int)
    ensures And(Unsigned64(i), 0x3FF_FFFF) == i % BITS_26
  {
    var u := Unsigned64(i);
    var h, l := u / BITS_26, u % BITS_26;
    ModMod(i);
    PositionPowers();
    ShlMul(h, 26);
    LowBits(h, l, 26, BITS_26, u);
  }

  lemma LowBits12(i: int)
    ensures And(Unsigned64(i), 0xFFF) == i % BITS_12
  {
    var u := Unsigned64(i);
    var h, l := u / BITS_12, u % BITS_12;
    ModMod(i);
    PositionPowers();
    ShlMul(h, 12);
    LowBits(h, l, 12, BITS_12, u);
  }

  lemma PackedJoins(x: int, y: int, z: int)
    ensures Packed(x, y, z) == PositionWord(x, y, z)
  {
    LowBits26(x);
    LowBits26(z);
    LowBits12(y);
    OrJoins(x % BITS_26, z % BITS_26, y % BITS_12);
  }

  lemma Shl12(a: nat)
    ensures Shl(a, 12) == a * BITS_12
  {
    PositionPowers();
    ShlMul(a, 12);
  }

  lemma Shl26(a: nat)
    ensures Shl(a, 26) == a * BITS_26
  {
    PositionPowers();
    ShlMul(a, 26);
  }

  lemma OrJoins(a: nat, b: nat, c: nat)
    requires a < BITS_26 && b < BITS_26 && c < BITS_12
    ensures Or(Or(Shl(a, 38), Shl(b, 12)), c) == Joined(a, b, c)
  {
    PositionPowers();
    Shl12(b);
    Shl26(a);
    Shl12(Shl(a, 26) + b);
    OrFields(a, b, c, 26, 12);
  }

  lemma OrFields(a: nat, b: nat, c: nat, m: nat, n: nat)
    requires Shl(b, n) < Pow2(m + n) && c < Pow2(n)
    ensures Or(Or(Shl(a, m + n), Shl(b, n)), c) == Shl(Shl(a, m) + b, n) + c
  {
    OrAdd(a, Shl(b, n), m + n);
    ShlShl(a, m, n);
    ShlAdd(Shl(a, m), b, n);
    OrAdd(Shl(a, m) + b, c, n);
  }

  lemma HighField(a: nat, low: nat)
    requires a < BITS_26 && low < 0x40_0000_0000
    ensures Signed64(a * 0x40_0000_0000 + low) / 0x40_0000_0000 == SignExtended(a, 0x200_0000)
  {
  }

  lemma LowField(c: nat)
    requires c < BITS_12
    ensures Signed64(c * 0x10_0000_0000_0000) / 0x10_0000_0000_0000 == SignExtended(c, 0x800)
  {
  }

  lemma UnsignedBack(data: nat)
    requires data < LIMIT_64
    ensures Unsigned64(Signed64(data)) == data
  {
  }

  lemma DropsHigh(high: nat, low: nat)
    ensures Signed64(high * LIMIT_64 + low) == Signed64(low)
  {
  }

  // A shift to the left drops what leaves the word.
  lemma ShiftedOut(data: nat, k: nat, up: nat, high: nat, low: nat)
    requires data < LIMIT_64 && up == Pow2(k) && data * up == high * LIMIT_64 + low && low < LIMIT_64
    ensures Shl64(Signed64(data), k) == Signed64(low)
  {
    UnsignedBack(data);
    ShlMul(data, k);
    DropsHigh(high, low);
  }

  lemma UnpacksJoined(a: nat, b: nat, c: nat)
    requires a < BITS_26 && b < BITS_26 && c < BITS_12
    ensures Joined(a, b, c) < LIMIT_64
    ensures Unpacked(Signed64(Joined(a, b, c)))
         == Position(SignExtended(a, 0x200_0000), SignExtended(c, 0x800), SignExtended(b, 0x200_0000))
  {
    var data := Joined(a, b, c);
    PositionPowers();
    HighField(a, b * BITS_12 + c);
    ShiftedOut(data, 52, 0x10_0000_0000_0000, a * BITS_26 + b, c * 0x10_0000_0000_0000);
    LowField(c);
    ShiftedOut(data, 26, BITS_26, a, (b * BITS_12 + c) * BITS_26);
    HighField(b, c * BITS_26);
  }

  lemma UnpacksWord(n: nat)
    requires n < LIMIT_64
    ensures Unpacked(Signed64(n)) == WordPosition(n)
  {
    var a, b, c := Unjoin(n);
    UnpacksJoined(a, b, c);
    JoinedSplits(a, b, c);
  }

  lemma Unjoin(n: nat) returns (a: nat, b: nat, c: nat)
    requires n < LIMIT_64
    ensures a < BITS_26 && b < BITS_26 && c < BITS_12 && n == Joined(a, b, c)
  {
    var m := n / BITS_12;
    a, b, c := m / BITS_26, m % BITS_26, n % BITS_12;
  }

  // A position is read back as it was written exactly when its coordinates fit their bits.
  lemma PositionBack(x: int, y: int, z: int)
    ensures PositionWord(x, y, z) < LIMIT_64
    ensures WordPosition(PositionWord(x, y, z)) == Position(x, y, z) <==> Packable(Position(x, y, z))
  {
    JoinedSplits(x % BITS_26, z % BITS_26, y % BITS_12);
    Extends26(x);
    Extends26(z);
    Extends12(y);
  }

  lemma JoinedSplits(a: nat, b: nat, c: nat)
    requires a < BITS_26 && b < BITS_26 && c < BITS_12
    ensures var n := Joined(a, b, c);
      n < LIMIT_64 && n / 0x40_0000_0000 % BITS_26 == a && n / BITS_12 % BITS_26 == b && n % BITS_12 == c
  {
  }

  lemma Extends26(i: int)
    ensures SignExtended(i % BITS_26, 0x200_0000) == i <==> Fits(i, 0x200_0000)
  {
  }

  lemma Extends12(i: int)
    ensures SignExtended(i % BITS_12, 0x800) == i <==> Fits(i, 0x800)
  {
  }

  // ---- any field, any list of fields ----

  lemma ShortAt(s: Bytes, p: nat, n: nat)
    requires n < LIMIT_16 && At(s, p, BigBytes(n, 2))
    ensures Decode(U16Kind, s, p) == Parsed(U16(n), p + 2)
  {
    Powers();
    WordAt(s, p, n, 2);
  }

  lemma IntAt(s: Bytes, p: nat, n: nat)
    requires n < LIMIT_32 && At(s, p, BigBytes(n, 4))
    ensures Decode(U32Kind, s, p) == Parsed(U32(n), p + 4)
  {
    Powers();
    WordAt(s, p, n, 4);
  }

  // A word of eight bytes, signed or not.
  lemma LongAt(s: Bytes, p: nat, n: nat)
    requires n < LIMIT_64 && At(s, p, BigBytes(n, 8))
    ensures Decode(U64Kind, s, p) == Parsed(U64(n), p + 8) && Decode(I64Kind, s, p) == Parsed(I64(Signed64(n)), p + 8)
  {
    Powers();
    WordAt(s, p, n, 8);
  }

  lemma UuidAt(s: Bytes, p: nat, a: nat, b: nat)
    requires a < LIMIT_64 && b < LIMIT_64 && At(s, p, BigBytes(a, 8) + BigBytes(b, 8))
    ensures Decode(UuidKind, s, p) == Parsed(Uuid(a, b), p + 16)
  {
    Powers();
    AtSplit(s, p, BigBytes(a, 8), BigBytes(b, 8));
    WordAt(s, p, a, 8);
    WordAt(s, p + 8, b, 8);
  }

  lemma PositionAt(s: Bytes, p: nat, x: int, y: int, z: int)
    requires At(s, p, BigBytes(PositionWord(x, y, z), 8))
    ensures Decode(PositionKind, s, p) == Parsed(ReadBack(Position(x, y, z)), p + 8)
  {
    Powers();
    PositionBack(x, y, z);
    WordAt(s, p, PositionWord(x, y, z), 8);
  }

  // What a field is read back as: a position keeps the bits that its word has for it.
  function ReadBack(f: Field): Field {
    match f
    case Position(x, y, z) => WordPosition(PositionWord(x, y, z))
    case _ => f
  }

  lemma ReadBackSame(f: Field)
    ensures ReadBack(f) == f <==> Packable(f)
  {
    match f
    case Position(x, y, z) => PositionBack(x, y, z);
    case _ =>
  }

  // Whatever follows a field, it is read back as that.
  lemma FieldReadBack(s: Bytes, p: nat, f: Field)
    requires InRange(f) && At(s, p, Encode(f))
    ensures Decode(KindOf(f), s, p) == Parsed(ReadBack(f), p + |Encode(f)|)
  {
    match f
    case U8(n) => ByteAt(s, p, n);
    case U16(n) => ShortAt(s, p, n);
    case U32(n) => IntAt(s, p, n);
    case U64(n) => LongAt(s, p, n);
    case I64(i) =>
      SignedBack(i);
      LongAt(s, p, Unsigned64(i));
    case VarIntField(i) => ReadsVarInt(s, p, i);
    case StringField(t) => TextAt(s, p, t);
    case Uuid(a, b) => UuidAt(s, p, a, b);
    case Position(x, y, z) => PositionAt(s, p, x, y, z);
  }

  // A field is read back as it was written, whatever follows it, exactly unless it is a position that does not fit.
  lemma FieldAt(s: Bytes, p: nat, f: Field)
    requires InRange(f) && At(s, p, Encode(f))
    ensures Decode(KindOf(f), s, p) == Parsed(f, p + |Encode(f)|) <==> Packable(f)
  {
    FieldReadBack(s, p, f);
    ReadBackSame(f);
  }

  // The fields from index j on have values of their types.
  predicate AllInRange(fs: seq<Field>, j: nat)
    requires j <= |fs|
    decreases |fs| - j
  {
    j < |fs| ==> InRange(fs[j]) && AllInRange(fs, j + 1)
  }

  predicate AllPackable(fs: seq<Field>, j: nat)
    requires j <= |fs|
    decreases |fs| - j
  {
    j < |fs| ==> Packable(fs[j]) && AllPackable(fs, j + 1)
  }

  function EncodeAll(fs: seq<Field>, j: nat): Bytes
    requires j <= |fs| && AllInRange(fs, j)
    decreases |fs| - j
  {
    if j == |fs| then [] else Encode(fs[j]) + EncodeAll(fs, j + 1)
  }

  // Reads fields of the given kinds one after the other.
  function DecodeAll(kinds: seq<Kind>, j: nat, s: Bytes, p: nat): Parsed<seq<Field>>
    requires j <= |kinds|
    decreases |kinds| - j
  {
    if j == |kinds| then Parsed([], p)
    else
      match Decode(kinds[j], s, p)
      case Rejected => Rejected
      case Parsed(f, q) =>
        match DecodeAll(kinds, j + 1, s, q)
        case Rejected => Rejected
        case Parsed(fs, e) => Parsed([f] + fs, e)
  }

  function ReadBackAll(fs: seq<Field>, j: nat): seq<Field>
    requires j <= |fs|
    decreases |fs| - j
  {
    if j == |fs| then [] else [ReadBack(fs[j])] + ReadBackAll(fs, j + 1)
  }

  predicate AreKinds(kinds: seq<Kind>, fs: seq<Field>, j: nat)
    requires j <= |fs|
    decreases |fs| - j
  {
    |kinds| == |fs| && (j < |fs| ==> kinds[j] == KindOf(fs[j]) && AreKinds(kinds, fs, j + 1))
  }

  lemma {:induction false} FieldsAt(s: Bytes, p: nat, e: nat, fs: seq<Field>, kinds: seq<Kind>, j: nat, r: Bytes)
    requires j <= |fs| && AllInRange(fs, j) && AreKinds(kinds, fs, j)
    requires r == EncodeAll(fs, j) && At(s, p, r) && e == p + |r|
    ensures DecodeAll(kinds, j, s, p) == Parsed(ReadBackAll(fs, j), e)
    decreases |fs| - j
  {
    if j < |fs| {
      var q, rest := HeadField(s, p, e, fs, kinds, j, r);
      FieldsAt(s, q, e, fs, kinds, j + 1, rest);
    }
  }

  lemma HeadField(s: Bytes, p: nat, e: nat, fs: seq<Field>, kinds: seq<Kind>, j: nat, r: Bytes) returns (q: nat, rest: Bytes)
    requires j < |fs| == |kinds| && AllInRange(fs, j) && kinds[j] == KindOf(fs[j])
    requires r == EncodeAll(fs, j) && At(s, p, r) && e == p + |r|
    ensures rest == EncodeAll(fs, j + 1) && At(s, q, rest) && e == q + |rest|
    ensures Decode(kinds[j], s, p) == Parsed(ReadBack(fs[j]), q)
  {
    var first := Encode(fs[j]);
    rest := EncodeAll(fs, j + 1);
    q := p + |first|;
    AtSplit(s, p, first, rest);
    FieldReadBack(s, p, fs[j]);
  }

  lemma {:induction false} AllReadBackSame(fs: seq<Field>, j: nat)
    requires j <= |fs|
    ensures ReadBackAll(fs, j) == fs[j..] <==> AllPackable(fs, j)
    decreases |fs| - j
  {
    if j < |fs| {
      AllReadBackSame(fs, j + 1);
      ReadBackSame(fs[j]);
      HeadsAndTails(ReadBack(fs[j]), ReadBackAll(fs, j + 1), fs[j], fs[j + 1..]);
      assert fs[j..] == [fs[j]] + fs[j + 1..];
    }
  }

  // Any list of fields is read back up to its own last byte, whatever follows it, and as it was written exactly
  // if every position in it fits its bits.
  lemma FieldsRoundTrip(fs: seq<Field>, kinds: seq<Kind>, suffix: Bytes)
    requires AllInRange(fs, 0) && AreKinds(kinds, fs, 0)
    ensures var s := EncodeAll(fs, 0);
      && DecodeAll(kinds, 0, s + suffix, 0) == Parsed(ReadBackAll(fs, 0), |s|)
      && (DecodeAll(kinds, 0, s + suffix, 0) == Parsed(fs, |s|) <==> AllPackable(fs, 0))
  {
    FieldsAt(EncodeAll(fs, 0) + suffix, 0, |EncodeAll(fs, 0)|, fs, kinds, 0, EncodeAll(fs, 0));
    AllReadBackSame(fs, 0);
    assert fs[0..] == fs;
  }
}
