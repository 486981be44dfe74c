// PacketBuilder and PacketReader as they run, on a host of either byte order.
module PacketBuffers {
  import opened Bits
  import opened ByteStrings
  import opened VarInts
  import opened Endian
  import opened PacketFields
  import opened Framing

  class PacketBuilder {
    var bytes: array<byte>
    var cap: nat
    var pos: nat
    // IS_LITTLE_ENDIAN
    const little: bool

    // The capacity at the start, the furthest end of a write and the largest single write.
    ghost const start: nat
    ghost var highWater: nat
    ghost var largest: nat

    ghost predicate Valid()
      reads this
    {
      && bytes.Length == cap && pos <= cap && pos <= highWater
      && cap <= Max(start, highWater + largest)
    }

    ghost function Contents(): Bytes
      reads this, bytes
      requires Valid()
    {
      bytes[..pos]
    }

    // piece has been written behind the contents, by writes that are each at most as long as it is.
    twostate predicate Appended(piece: Bytes)
      requires old(Valid())
      reads this, bytes
    {
      && Valid() && Contents() == old(Contents()) + piece
      && (bytes == old(bytes) || fresh(bytes))
      && highWater == Max(old(highWater), pos) && largest <= Max(old(largest), |piece|)
    }

    // pb_with_cap
    constructor (cap: nat, little: bool)
      ensures Valid() && fresh(bytes) && Contents() == [] && this.little == little
      ensures start == cap && highWater == 0 && largest == 0
    {
      bytes := new byte[cap];
      this.cap, this.little, start := cap, little, cap;
      pos, highWater, largest := 0, 0, 0;
    }

    // pb_extend: the capacity grows by exactly the length asked for, if it grows.
    method Extend(len: nat)
      requires Valid()
      modifies this`bytes, this`cap, this`highWater, this`largest
      ensures Valid() && pos + len <= cap && Contents() == old(Contents())
      ensures bytes == old(bytes) || fresh(bytes)
      ensures cap == old(cap) || cap == old(cap) + len
      ensures highWater == Max(old(highWater), pos + len) && largest == Max(old(largest), len)
    {
      if pos + len + 1 > cap {
        var grown := new byte[cap + len];
        forall k | 0 <= k < cap {
          grown[k] := bytes[k];
        }
        cap := cap + len;
        bytes := grown;
      }
      highWater, largest := Max(highWater, pos + len), Max(largest, len);
    }

    // pb_reset
    method Reset()
      requires Valid()
      modifies this`pos
      ensures Valid() && Contents() == []
    {
      pos := 0;
    }

    // pb_write_copy
    method WriteCopy(src: Bytes)
      requires Valid()
      modifies this, bytes
      ensures Appended(src)
    {
      Extend(|src|);
      ghost var before := bytes[..pos];
      forall k | 0 <= k < |src| {
        bytes[pos + k] := src[k];
      }
      pos := pos + |src|;
      assert bytes[..pos] == before + src;
    }

    method WriteU8(val: byte)
      requires Valid()
      modifies this, bytes
      ensures Appended([val])
    {
      Extend(1);
      ghost var before := bytes[..pos];
      bytes[pos] := val;
      pos := pos + 1;
      assert bytes[..pos] == before + [val];
    }

    method WriteU16(val: nat)
      requires Valid() && val < LIMIT_16
      modifies this, bytes
      ensures Appended(BigBytes(val, 2))
    {
      WireBytes16(val, little);
      WriteCopy(Memory(ToBe16(val, little), 2, little));
    }

    method WriteU32(val: nat)
      requires Valid() && val < LIMIT_32
      modifies this, bytes
      ensures Appended(BigBytes(val, 4))
    {
      WireBytes32(val, little);
      WriteCopy(Memory(ToBe32(val, little), 4, little));
    }

    method WriteU64(val: nat)
      requires Valid() && val < LIMIT_64
      modifies this, bytes
      ensures Appended(BigBytes(val, 8))
    {
      WireBytes64(val, little);
      WriteCopy(Memory(ToBe64(val, little), 8, little));
    }

    // pb_write_varint reserves its bytes twice.
    method WriteVarInt(val: int)
      requires Valid() && 0 <= val < VALUE_LIMIT
      modifies this, bytes
      ensures Appended(VarInt(val))
    {
      var varVal, byteCount := VarIntFromInt(val);
      Extend(byteCount);
      WriteCopy(varVal[..byteCount]);
    }

    method WriteText(str: Bytes)
      requires Valid() && |str| < VALUE_LIMIT
      modifies this, bytes
      ensures Appended(VarInt(|str|) + str)
    {
      WriteVarInt(|str|);
      WriteCopy(str);
      Regroup(old(Contents()), VarInt(|str|), str);
    }

    method WriteUuid(first: nat, second: nat)
      requires Valid() && first < LIMIT_64 && second < LIMIT_64
      modifies this, bytes
      ensures Appended(Encode(Uuid(first, second)))
    {
      WriteU64(first);
      WriteU64(second);
      Regroup(old(Contents()), BigBytes(first, 8), BigBytes(second, 8));
    }

    method WritePosition(x: int, y: int, z: int)
      requires Valid() && InRange(Position(x, y, z))
      modifies this, bytes
      ensures Appended(Encode(Position(x, y, z)))
    {
      PackedJoins(x, y, z);
      PositionBack(x, y, z);
      WriteU64(Packed(x, y, z));
    }

    // Writes a field with the function for its type.
    method Write(f: Field)
      requires Valid() && InRange(f)
      modifies this, bytes
      ensures Appended(Encode(f))
    {
      match f
      case U8(n) => WriteU8(n);
      case U16(n) => WriteU16(n);
      case U32(n) => WriteU32(n);
      case U64(n) => WriteU64(n);
      case I64(i) => WriteU64(Unsigned64(i));
      case VarIntField(i) => WriteVarInt(i);
      case StringField(s) => WriteText(s);
      case Uuid(a, b) => WriteUuid(a, b);
      case Position(x, y, z) => WritePosition(x, y, z);
    }

    // Writes a list of fields.
    method WriteAll(fs: seq<Field>)
      requires Valid() && AllInRange(fs, 0)
      modifies this, bytes
      ensures Valid() && (bytes == old(bytes) || fresh(bytes))
      ensures Contents() == old(Contents()) + EncodeAll(fs, 0)
    {
      var j := 0;
      while j < |fs|
        invariant 0 <= j <= |fs| && AllInRange(fs, j)
        invariant Valid() && (bytes == old(bytes) || fresh(bytes))
        invariant Contents() + EncodeAll(fs, j) == old(Contents()) + EncodeAll(fs, 0)
      {
        Regroup(Contents(), Encode(fs[j]), EncodeAll(fs, j + 1));
        Write(fs[j]);
        j := j + 1;
      }
      assert Contents() + [] == Contents();
    }

    // pb_finalize: the contents with their length in front.
    method Finalize() returns (packet: array<byte>)
      requires Valid() && pos < VALUE_LIMIT
      modifies this`bytes, this`cap, this`highWater, this`largest
      ensures Valid() && Contents() == old(Contents()) && (bytes == old(bytes) || fresh(bytes))
      ensures fresh(packet) && packet[..] == Frame(Contents())
    {
      Extend(0);
      var packetSize, byteCount := VarIntFromInt(pos);
      packet := new byte[byteCount + pos];
      forall k | 0 <= k < byteCount {
        packet[k] := packetSize[k];
      }
      forall k | 0 <= k < pos {
        packet[byteCount + k] := bytes[k];
      }
      assert packet[..byteCount] == packetSize[..byteCount];
      assert packet[byteCount..] == bytes[..pos];
    }
  }

  class PacketReader {
    const data: Bytes
    var pos: nat
    const little: bool

    // pr_from_pointer_len
    constructor (data: Bytes, little: bool)
      ensures this.data == data && pos == 0 && this.little == little
    {
      this.data, this.little, pos := data, little, 0;
    }

    // A result that an assertion prevents is None; otherwise pos is behind what was read.
    ghost predicate Meets<T>(r: Option<T>, spec: Parsed<T>)
      reads this
    {
      match spec
      case Rejected => r == None
      case Parsed(value, next) => r == Some(value) && pos == next
    }

    // pr_read_copy, with pr_check_length
    method ReadCopy(count: nat) returns (r: Option<Bytes>)
      modifies this`pos
      ensures r == if old(pos) + count <= |data| then Some(data[old(pos)..old(pos) + count]) else None
      ensures pos == if r.Some? then old(pos) + count else old(pos)
    {
      if pos + count > |data| {
        return None;
      }
      r := Some(data[pos..pos + count]);
      pos := pos + count;
    }

    method ReadU8() returns (r: Option<byte>)
      modifies this`pos
      ensures r == if old(pos) < |data| then Some(data[old(pos)]) else None
      ensures pos == if r.Some? then old(pos) + 1 else old(pos)
    {
      if pos + 1 > |data| {
        return None;
      }
      r := Some(data[pos]);
      pos := pos + 1;
    }

    method ReadU16() returns (r: Option<nat>)
      modifies this`pos
      ensures Meets(r, ReadWord(data, old(pos), 2))
    {
      var val := ReadCopy(2);
      if val.None? {
        return None;
      }
      FromWire16(val.value, little);
      r := Some(ToBe16(FromMemory(val.value, little), little));
    }

    method ReadU32() returns (r: Option<nat>)
      modifies this`pos
      ensures Meets(r, ReadWord(data, old(pos), 4))
    {
      var val := ReadCopy(4);
      if val.None? {
        return None;
      }
      FromWire32(val.value, little);
      r := Some(ToBe32(FromMemory(val.value, little), little));
    }

    method ReadU64() returns (r: Option<nat>)
      modifies this`pos
      ensures Meets(r, ReadWord(data, old(pos), 8))
    {
      var val := ReadCopy(8);
      if val.None? {
        return None;
      }
      FromWire64(val.value, little);
      r := Some(ToBe64(FromMemory(val.value, little), little));
    }

    // pr_read_varint: an int keeps 32 bits of the value.
    method ReadVarint() returns (r: Option<int>)
      modifies this`pos
      ensures Meets(r, ReadVarInt(data, old(pos), 0, 0))
    {
      var value, position := 0, 0;
      while true
        invariant position < 32 && old(pos) <= pos
        invariant ReadVarInt(data, old(pos), 0, 0) == ReadVarInt(data, pos, position, value)
        decreases |data| - pos
      {
        var b := ReadU8();
        if b.None? {
          return None;
        }
        value := AddSegment(value, position, b.value);
        if And(b.value, CONTINUE_BIT) == 0 {
          break;
        }
        position := position + 7;
        if position >= 32 {
          return None;
        }
      }
      r := Some(Int32(value));
    }

    // pr_read_string; a negative length, which would move the position back, ends like a failed assertion.
    method ReadString() returns (r: Option<Bytes>)
      modifies this`pos
      ensures Meets(r, ReadText(data, old(pos)))
    {
      var len := ReadVarint();
      if len.None? || len.value < 0 {
        return None;
      }
      r := ReadCopy(len.value);
    }

    method ReadI64() returns (r: Option<int>)
      modifies this`pos
      ensures match ReadWord(data, old(pos), 8)
        case Rejected => r == None
        case Parsed(n, next) => r == Some(Signed64(n)) && pos == next
    {
      var val := ReadU64();
      r := if val.Some? then Some(Signed64(val.value)) else None;
    }

    method ReadUuid() returns (r: Option<Field>)
      modifies this`pos
      ensures Meets(r, Decode(UuidKind, data, old(pos)))
    {
      var first := ReadU64();
      if first.None? {
        return None;
      }
      var second := ReadU64();
      if second.None? {
        return None;
      }
      r := Some(Uuid(first.value, second.value));
    }

    method ReadPosition() returns (r: Option<Field>)
      modifies this`pos
      ensures Meets(r, Decode(PositionKind, data, old(pos)))
    {
      var word := ReadI64();
      if word.None? {
        return None;
      }
      WordBound(data, old(pos));
      UnpacksWord(ReadWord(data, old(pos), 8).value);
      r := Some(Unpacked(word.value));
    }

    // Reads a field of a kind with the function for its type.
    method Read(kind: Kind) returns (r: Option<Field>)
      modifies this`pos
      ensures Meets(r, Decode(kind, data, old(pos)))
    {
      match kind
      case U8Kind =>
        ByteWord(data, pos);
        var n := ReadU8();
        r := if n.Some? then Some(U8(n.value)) else None;
      case U16Kind =>
        var n := ReadU16();
        r := if n.Some? then Some(U16(n.value)) else None;
      case U32Kind =>
        var n := ReadU32();
        r := if n.Some? then Some(U32(n.value)) else None;
      case U64Kind =>
        var n := ReadU64();
        r := if n.Some? then Some(U64(n.value)) else None;
      case I64Kind =>
        var i := ReadI64();
        r := if i.Some? then Some(I64(i.value)) else None;
      case VarIntKind =>
        var i := ReadVarint();
        r := if i.Some? then Some(VarIntField(i.value)) else None;
      case StringKind =>
        var s := ReadString();
        r := if s.Some? then Some(StringField(s.value)) else None;
      case UuidKind => r := ReadUuid();
      case PositionKind => r := ReadPosition();
    }

    // Reads fields of the given kinds.
    method ReadAll(kinds: seq<Kind>) returns (r: Option<seq<Field>>)
      modifies this`pos
      ensures Meets(r, DecodeAll(kinds, 0, data, old(pos)))
    {
      var fs: seq<Field> := [];
      BehindNone(DecodeAll(kinds, 0, data, pos));
      var j := 0;
      while j < |kinds|
        invariant 0 <= j <= |kinds|
        invariant DecodeAll(kinds, 0, data, old(pos)) == Behind(fs, DecodeAll(kinds, j, data, pos))
      {
        var f := Read(kinds[j]);
        if f.None? {
          return None;
        }
        BehindOne(fs, f.value, DecodeAll(kinds, j + 1, data, pos));
        fs := fs + [f.value];
        j := j + 1;
      }
      assert fs + [] == fs;
      r := Some(fs);
    }
  }

  // What is read behind fields that have been read already.
  function Behind(fs: seq<Field>, r: Parsed<seq<Field>>): Parsed<seq<Field>> {
    match r
    case Rejected => Rejected
    case Parsed(more, next) => Parsed(fs + more, next)
  }

  lemma BehindNone(r: Parsed<seq<Field>>)
    ensures Behind([], r) == r
  {
    if r.Parsed? {
      assert [] + r.value == r.value;
    }
  }

  lemma BehindOne(fs: seq<Field>, f: Field, r: Parsed<seq<Field>>)
    ensures Behind(fs, Behind([f], r)) == Behind(fs + [f], r)
  {
    if r.Parsed? {
      assert fs + ([f] + r.value) == (fs + [f]) + r.value;
    }
  }

  lemma ByteWord(s: Bytes, p: nat)
    ensures ReadWord(s, p, 1) == if p < |s| then Parsed(s[p] as int, p + 1) else Rejected
  {
    if p < |s| {
      assert s[p..p + 1] == [s[p]];
      assert BigValue([s[p]], 0) == 0;
    }
  }

  lemma {:induction false} BigBound(s: Bytes, j: nat)
    requires j <= |s|
    ensures BigValue(s, j) < Pow2(8 * j)
  {
    if j > 0 {
      BigBound(s, j - 1);
      PowSum(8, 8 * (j - 1));
      assert Pow2(8) == 256;
    }
  }

  lemma WordBound(s: Bytes, p: nat)
    requires ReadWord(s, p, 8).Parsed?
    ensures ReadWord(s, p, 8).value < LIMIT_64
  {
    BigBound(s[p..p + 8], 8);
    Powers();
  }
}
