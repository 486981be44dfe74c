// The bytes of NBT entries, with the numbers of the format.
module NbtBytes {
  import opened Bits
  import opened ByteStrings
  import opened JsonData
  import opened PacketFields
  import opened WireNumbers
  import opened NbtFormat

  // A name or a string with its length in front.
  function Short(s: Bytes): Bytes
    requires |s| < 0x1_0000
  {
    TwoBytes(|s|) + s
  }

  lemma ShortIs(s: Bytes)
    requires |s| < 0x1_0000
    ensures ShortString(s) == Short(s)
  {
    BigTwo(|s|);
  }

  // Every entry starts with the number of its kind.
  lemma KindNumbers(name: Bytes, t: Json)
    requires Entry(name, t).Some?
    ensures Entry(name, t).value[0] == match t
      case Object(_) => 10
      case Array(_) => 9
      case Text(_) => 8
      case Number(_) => 3
      case _ => 1
  {
    assert Entry(name, t).value == [TagOf(t)] + Name(name) + Body(t).value;
  }

  // A named entry starts with its kind, then its name: 8 for a string, 3 for a number, 1 for a truth value.
  lemma ScalarBytes(name: Bytes, s: Bytes, n: int)
    requires 0 < |name| < 0x1_0000 && -0x8000_0000 <= n < 0x8000_0000
    ensures |s| < 0x1_0000 ==> Entry(name, Text(s)) == Some([8] + Short(name) + Short(s))
    ensures Entry(name, Number(n as real)) == Some([3] + Short(name) + FourBytes(if n < 0 then n + 0x1_0000_0000 else n))
    ensures Entry(name, True) == Some([1] + Short(name) + [1]) && Entry(name, False) == Some([1] + Short(name) + [0])
    ensures Entry(name, Null) == None
  {
    ShortIs(name);
    if |s| < 0x1_0000 {
      ShortIs(s);
    }
    NumberIs(n);
  }

  lemma NumberIs(n: int)
    requires -0x8000_0000 <= n < 0x8000_0000
    ensures Body(Number(n as real)) == Some(FourBytes(if n < 0 then n + 0x1_0000_0000 else n))
  {
    assert (n as real).Floor == n;
    assert Unsigned32(n) == if n < 0 then n + 0x1_0000_0000 else n;
    BigFour(Unsigned32(n));
  }

  // A compound is 10, its name, its entries and 0.
  lemma CompoundBytes(name: Bytes, members: seq<Member>, inner: Bytes)
    requires 0 < |name| < 0x1_0000 && Members(members, 0) == Some(inner)
    ensures Entry(name, Object(members)) == Some([10] + Short(name) + inner + [0])
  {
    ShortIs(name);
    Regroup([10] + Short(name), inner, [0]);
  }

  // A list is 9, its name, the kind of its elements, which is 10, their number and the elements.
  lemma ListBytes(name: Bytes, items: seq<Json>, inner: Bytes)
    requires 0 < |name| < 0x1_0000 && 0 < |items| < 0x1_0000_0000 && items[0].Object? && Items(items, 0) == Some(inner)
    ensures Entry(name, Array(items)) == Some([9] + Short(name) + ([10] + FourBytes(|items|) + inner))
  {
    ShortIs(name);
    ListBody(items, |items|, inner);
  }

  lemma ListBody(items: seq<Json>, n: nat, inner: Bytes)
    requires 0 < n == |items| < 0x1_0000_0000 && items[0].Object? && Items(items, 0) == Some(inner)
    ensures Body(Array(items)) == Some([10] + FourBytes(n) + inner)
  {
    assert n % LIMIT_32 == n;
    BigFour(n);
  }

  // An element of a list is a compound without a name, with its kind nevertheless.
  lemma ElementBytes(members: seq<Member>, inner: Bytes)
    requires Members(members, 0) == Some(inner)
    ensures Entry([], Object(members)) == Some([10] + inner + [0])
  {
    Regroup([10], inner, [0]);
    assert [10] + [] == [10];
  }

  // Entries of a compound and elements of a list follow one another.
  lemma InOrder(members: seq<Member>, items: seq<Json>, j: nat, first: Bytes, rest: Bytes)
    ensures j < |members| && Entry(members[j].name, members[j].value) == Some(first) && Members(members, j + 1) == Some(rest) ==>
      Members(members, j) == Some(first + rest)
    ensures j < |items| && Entry([], items[j]) == Some(first) && Items(items, j + 1) == Some(rest) ==> Items(items, j) == Some(first + rest)
    ensures Members(members, |members|) == Some([]) && Items(items, |items|) == Some([])
  {
  }

  // A document is a compound without a name.
  lemma DocumentBytes(members: seq<Member>, inner: Bytes)
    requires Members(members, 0) == Some(inner)
    ensures Document(members) == Some([10] + inner + [0])
  {
    Regroup([10], inner, [0]);
  }

  // The smallest document with a number in it.
  lemma OneNumber()
    ensures Document([Member([97], Number(1.0))]) == Some([10, 3, 0, 1, 97, 0, 0, 0, 1, 0])
  {
    var members := [Member([97], Number(1.0))];
    var entry := [3] + Short([97]) + FourBytes(1);
    ScalarBytes([97], [], 1);
    InOrder(members, [], 0, entry, []);
    DocumentBytes(members, entry + []);
    assert [10] + (entry + []) + [0] == [10, 3, 0, 1, 97, 0, 0, 0, 1, 0];
  }
}
