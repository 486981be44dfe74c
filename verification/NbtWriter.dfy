// pb_nbt_from_json as it runs: recursion over a tree that appends to a packet builder.
module NbtWriter {
  import opened Bits
  import opened ByteStrings
  import opened Endian
  import opened PacketFields
  import opened PacketBuffers
  import opened JsonData
  import opened NbtFormat

  // What a builder has before and after some pieces are written; alive is false when an assertion failed.
  twostate predicate Wrote(pb: PacketBuilder, alive: bool, spec: Option<Bytes>)
    requires old(pb.Valid())
    reads pb, pb.bytes
  {
    && pb.Valid() && (pb.bytes == old(pb.bytes) || fresh(pb.bytes))
    && (alive <==> spec.Some?)
    && (alive ==> pb.Contents() == old(pb.Contents()) + spec.value)
  }

  // pb_nbt_write_name
  method WriteName(pb: PacketBuilder, name: Bytes)
    requires pb.Valid()
    modifies pb, pb.bytes
    ensures Wrote(pb, true, Some(Name(name)))
  {
    if name != [] {
      pb.WriteU16(|name| % LIMIT_16);
      pb.WriteCopy(name);
      Regroup(old(pb.Contents()), BigBytes(|name| % LIMIT_16, 2), name);
    } else {
      assert pb.Contents() + [] == pb.Contents();
    }
  }

  // A tag and a name, the start of every entry.
  method WriteHead(pb: PacketBuilder, tag: byte, name: Bytes)
    requires pb.Valid()
    modifies pb, pb.bytes
    ensures Wrote(pb, true, Some([tag] + Name(name)))
  {
    pb.WriteU8(tag);
    WriteName(pb, name);
    Regroup(old(pb.Contents()), [tag], Name(name));
  }

  // pb_nbt_byte
  method NbtByte(pb: PacketBuilder, val: byte, name: Bytes)
    requires pb.Valid()
    modifies pb, pb.bytes
    ensures Wrote(pb, true, Some([TAG_BYTE] + Name(name) + [val]))
  {
    WriteHead(pb, TAG_BYTE, name);
    pb.WriteU8(val);
    Regroup(old(pb.Contents()), [TAG_BYTE] + Name(name), [val]);
  }

  // pb_nbt_int
  method NbtInt(pb: PacketBuilder, val: int, name: Bytes)
    requires pb.Valid() && INT_MIN <= val <= INT_MAX
    modifies pb, pb.bytes
    ensures Wrote(pb, true, Some([TAG_INT] + Name(name) + BigBytes(Unsigned32(val), 4)))
  {
    WriteHead(pb, TAG_INT, name);
    pb.WriteU32(Unsigned32(val));
    Regroup(old(pb.Contents()), [TAG_INT] + Name(name), BigBytes(Unsigned32(val), 4));
  }

  // pb_nbt_string
  method NbtString(pb: PacketBuilder, str: Bytes, name: Bytes)
    requires pb.Valid()
    modifies pb, pb.bytes
    ensures Wrote(pb, true, Some([TAG_STRING] + Name(name) + ShortString(str)))
  {
    WriteHead(pb, TAG_STRING, name);
    ghost var before := pb.Contents();
    pb.WriteU16(|str| % LIMIT_16);
    pb.WriteCopy(str);
    Regroup(before, BigBytes(|str| % LIMIT_16, 2), str);
    Regroup(old(pb.Contents()), [TAG_STRING] + Name(name), ShortString(str));
  }

  // pb_nbt_list
  method NbtList(pb: PacketBuilder, elementType: byte, size: nat, name: Bytes)
    requires pb.Valid() && size < LIMIT_32
    modifies pb, pb.bytes
    ensures Wrote(pb, true, Some([TAG_LIST] + Name(name) + ([elementType] + BigBytes(size, 4))))
  {
    WriteHead(pb, TAG_LIST, name);
    ghost var before := pb.Contents();
    pb.WriteU8(elementType);
    pb.WriteU32(size);
    Regroup(before, [elementType], BigBytes(size, 4));
    Regroup(old(pb.Contents()), [TAG_LIST] + Name(name), [elementType] + BigBytes(size, 4));
  }

  // One round of the loop of pb_json_to_nbt_recur.
  method WriteEntry(pb: PacketBuilder, name: Bytes, t: Json) returns (alive: bool)
    requires pb.Valid() && Integers(t)
    modifies pb, pb.bytes
    ensures Wrote(pb, alive, Entry(name, t))
    decreases t, 1
  {
    alive := true;
    match t
    case Text(s) => NbtString(pb, s, name);
    case Array(items) => alive := WriteArray(pb, name, items);
    case Object(members) => alive := WriteObject(pb, name, members);
    case Number(v) => NbtInt(pb, v.Floor, name);
    case True => NbtByte(pb, 1, name);
    case False => NbtByte(pb, 0, name);
    case Null => alive := false;
  }

  method WriteArray(pb: PacketBuilder, name: Bytes, items: seq<Json>) returns (alive: bool)
    requires pb.Valid() && IntegerItems(items, 0)
    modifies pb, pb.bytes
    ensures Wrote(pb, alive, Entry(name, Array(items)))
    decreases items, |items| + 1
  {
    if items == [] || !items[0].Object? {
      return false;
    }
    NbtList(pb, TAG_COMPOUND, |items| % LIMIT_32, name);
    ghost var head := [TAG_LIST] + Name(name);
    ghost var count := [TAG_COMPOUND] + BigBytes(|items| % LIMIT_32, 4);
    alive := WriteItems(pb, items);
    if alive {
      ghost var list := Items(items, 0).value;
      Regroup(head, count, list);
      Regroup(old(pb.Contents()), head + count, list);
    }
  }

  method WriteObject(pb: PacketBuilder, name: Bytes, members: seq<Member>) returns (alive: bool)
    requires pb.Valid() && IntegerMembers(members, 0)
    modifies pb, pb.bytes
    ensures Wrote(pb, alive, Entry(name, Object(members)))
    decreases members, |members| + 1
  {
    WriteHead(pb, TAG_COMPOUND, name);
    alive := WriteMembers(pb, members);
    if alive {
      pb.WriteU8(TAG_END);
      ghost var head, list := [TAG_COMPOUND] + Name(name), Members(members, 0).value;
      Regroup(old(pb.Contents()) + head, list, [TAG_END]);
      Regroup(old(pb.Contents()), head, list + [TAG_END]);
    }
  }

  // The loop over the elements of a list.
  method WriteItems(pb: PacketBuilder, items: seq<Json>) returns (alive: bool)
    requires pb.Valid() && IntegerItems(items, 0)
    modifies pb, pb.bytes
    ensures Wrote(pb, alive, Items(items, 0))
    decreases items, |items|
  {
    var j := 0;
    ghost var done: Bytes := [];
    AppendNothing(Items(items, 0));
    assert pb.Contents() + [] == pb.Contents();
    while j < |items|
      invariant 0 <= j <= |items| && IntegerItems(items, j)
      invariant Wrote(pb, true, Some(done)) && Items(items, 0) == Append(done, Items(items, j))
    {
      var ok := WriteEntry(pb, [], items[j]);
      if !ok {
        return false;
      }
      ghost var piece := Entry([], items[j]).value;
      Regroup(old(pb.Contents()), done, piece);
      AppendMore(done, piece, Items(items, j + 1));
      done := done + piece;
      j := j + 1;
    }
    assert done + [] == done;
    return true;
  }

  // The loop over the members of a compound.
  method WriteMembers(pb: PacketBuilder, members: seq<Member>) returns (alive: bool)
    requires pb.Valid() && IntegerMembers(members, 0)
    modifies pb, pb.bytes
    ensures Wrote(pb, alive, Members(members, 0))
    decreases members, |members|
  {
    var j := 0;
    ghost var done: Bytes := [];
    AppendNothing(Members(members, 0));
    assert pb.Contents() + [] == pb.Contents();
    while j < |members|
      invariant 0 <= j <= |members| && IntegerMembers(members, j)
      invariant Wrote(pb, true, Some(done)) && Members(members, 0) == Append(done, Members(members, j))
    {
      var ok := WriteEntry(pb, members[j].name, members[j].value);
      if !ok {
        return false;
      }
      ghost var piece := Entry(members[j].name, members[j].value).value;
      Regroup(old(pb.Contents()), done, piece);
      AppendMore(done, piece, Members(members, j + 1));
      done := done + piece;
      j := j + 1;
    }
    assert done + [] == done;
    return true;
  }

  lemma AppendNothing(r: Option<Bytes>)
    ensures Append([], r) == r
  {
    if r.Some? {
      assert [] + r.value == r.value;
    }
  }

  lemma AppendMore(a: Bytes, b: Bytes, r: Option<Bytes>)
    ensures Append(a, Append(b, r)) == Append(a + b, r)
  {
    if r.Some? {
      Regroup(a, b, r.value);
    }
  }

  // pb_nbt_from_json
  method NbtFromJson(pb: PacketBuilder, t: Json) returns (alive: bool)
    requires pb.Valid() && Integers(t)
    modifies pb, pb.bytes
    ensures Wrote(pb, alive, FromJson(t))
  {
    WriteHead(pb, TAG_COMPOUND, []);
    match t {
      case Array(items) => alive := WriteItems(pb, items);
      case Object(members) => alive := WriteMembers(pb, members);
      case _ =>
        alive := true;
        assert pb.Contents() + [] == pb.Contents();
    }
    if alive {
      pb.WriteU8(TAG_END);
      ghost var head, list: Bytes := [TAG_COMPOUND], Children(t).value;
      assert head + Name([]) == head;
      Regroup(old(pb.Contents()) + head, list, [TAG_END]);
      Regroup(old(pb.Contents()), head, list + [TAG_END]);
    }
  }
}
