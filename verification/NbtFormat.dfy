// The NBT that pb_nbt_from_json makes of a JSON tree, and a decoder that recovers the tree.
module NbtFormat {
  import opened Bits
  import opened ByteStrings
  import opened Endian
  import opened PacketFields
  import opened JsonData

  const TAG_END: byte := 0
  const TAG_BYTE: byte := 1
  const TAG_INT: byte := 3
  const TAG_STRING: byte := 8
  const TAG_LIST: byte := 9
  const TAG_COMPOUND: byte := 10

  // A string with its length in 16 bits.
  function ShortString(s: Bytes): Bytes {
    BigBytes(|s| % LIMIT_16, 2) + s
  }

  // pb_nbt_write_name: an empty name is no bytes at all.
  function Name(name: Bytes): Bytes {
    if name == [] then [] else ShortString(name)
  }

  function Unsigned32(i: int): nat {
    i % LIMIT_32
  }

  function Signed32(n: nat): int {
    var m := n % LIMIT_32;
    if m < 0x8000_0000 then m else m - LIMIT_32
  }

  function Append(a: Bytes, b: Option<Bytes>): Option<Bytes> {
    match b
    case None => None
    case Some(s) => Some(a + s)
  }

  function TagOf(t: Json): byte {
    match t
    case Text(_) => TAG_STRING
    case Array(_) => TAG_LIST
    case Object(_) => TAG_COMPOUND
    case Number(_) => TAG_INT
    case _ => TAG_BYTE
  }

  // What pb_json_to_nbt_recur writes for one child; None when an assertion fails.
  function Entry(name: Bytes, t: Json): Option<Bytes>
    decreases t, 1
  {
    Append([TagOf(t)] + Name(name), Body(t))
  }

  // What it writes behind the tag and the name. Numbers are 32-bit integers.
  function Body(t: Json): Option<Bytes>
    decreases t, 0
  {
    match t
    case Text(s) => Some(ShortString(s))
    case Array(items) =>
      if items != [] && items[0].Object? then
        Append([TAG_COMPOUND] + BigBytes(|items| % LIMIT_32, 4), Items(items, 0))
      else None
    case Object(members) => Ended(Members(members, 0))
    case Number(v) => Some(BigBytes(Unsigned32(v.Floor), 4))
    case True => Some([1])
    case False => Some([0])
    case Null => None
  }

  function Ended(b: Option<Bytes>): Option<Bytes> {
    match b
    case None => None
    case Some(s) => Some(s + [TAG_END])
  }

  function Items(items: seq<Json>, j: nat): Option<Bytes>
    requires j <= |items|
    decreases items, |items| - j
  {
    if j == |items| then Some([])
    else
      match Entry([], items[j])
      case None => None
      case Some(s) => Append(s, Items(items, j + 1))
  }

  function Members(members: seq<Member>, j: nat): Option<Bytes>
    requires j <= |members|
    decreases members, |members| - j
  {
    if j == |members| then Some([])
    else
      match Entry(members[j].name, members[j].value)
      case None => None
      case Some(s) => Append(s, Members(members, j + 1))
  }

  // What pb_json_to_nbt_recur writes for the children of any item; a scalar has none.
  function Children(t: Json): Option<Bytes> {
    match t
    case Array(items) => Items(items, 0)
    case Object(members) => Members(members, 0)
    case _ => Some([])
  }

  // pb_nbt_from_json: a compound without a name around the children.
  function FromJson(t: Json): Option<Bytes> {
    Append([TAG_COMPOUND], Ended(Children(t)))
  }

  function Document(members: seq<Member>): Option<Bytes> {
    FromJson(Object(members))
  }

  // ---- a decoder ----

  function ReadShortString(s: Bytes, p: nat): (r: Parsed<Bytes>)
    ensures r.Parsed? ==> p < r.next <= |s|
  {
    match ReadWord(s, p, 2)
    case Rejected => Rejected
    case Parsed(n, q) => if q + n <= |s| then Parsed(s[q..q + n], q + n) else Rejected
  }

  // What stands behind the tag and the name. A list holds compounds; tagged says whether each of them
  // carries its own tag, as this code writes them, or not, as the format has it.
  function Payload(tag: byte, s: Bytes, p: nat, tagged: bool): (r: Parsed<Json>)
    ensures r.Parsed? ==> p < r.next <= |s|
    decreases |s| - p, 2
  {
    if tag == TAG_STRING then
      match ReadShortString(s, p) case Rejected => Rejected case Parsed(text, q) => Parsed(Text(text), q)
    else if tag == TAG_INT then
      match ReadWord(s, p, 4) case Rejected => Rejected case Parsed(n, q) => Parsed(Number(Signed32(n) as real), q)
    else if tag == TAG_BYTE then
      if p >= |s| then Rejected
      else if s[p] == 1 then Parsed(True, p + 1) else if s[p] == 0 then Parsed(False, p + 1) else Rejected
    else if tag == TAG_COMPOUND then
      match ReadMembers(s, p, tagged) case Rejected => Rejected case Parsed(members, q) => Parsed(Object(members), q)
    else if tag == TAG_LIST && p < |s| && s[p] == TAG_COMPOUND then
      match ReadWord(s, p + 1, 4)
      case Rejected => Rejected
      case Parsed(n, q) =>
        match ReadItems(s, q, n, tagged) case Rejected => Rejected case Parsed(items, e) => Parsed(Array(items), e)
    else Rejected
  }

  // Named entries up to the end tag.
  function ReadMembers(s: Bytes, p: nat, tagged: bool): (r: Parsed<seq<Member>>)
    ensures r.Parsed? ==> p < r.next <= |s|
    decreases |s| - p, 1
  {
    if p >= |s| then Rejected
    else if s[p] == TAG_END then Parsed([], p + 1)
    else
      match ReadShortString(s, p + 1)
      case Rejected => Rejected
      case Parsed(name, q) =>
        match Payload(s[p], s, q, tagged)
        case Rejected => Rejected
        case Parsed(value, next) =>
          match ReadMembers(s, next, tagged)
          case Rejected => Rejected
          case Parsed(members, e) => Parsed([Member(name, value)] + members, e)
  }

  // The n compounds of a list.
  function ReadItems(s: Bytes, p: nat, n: nat, tagged: bool): (r: Parsed<seq<Json>>)
    requires p <= |s|
    ensures r.Parsed? ==> p <= r.next <= |s|
    decreases |s| - p, 3, n
  {
    if n == 0 then Parsed([], p)
    else if tagged && (p >= |s| || s[p] != TAG_COMPOUND) then Rejected
    else
      match ReadMembers(s, if tagged then p + 1 else p, tagged)
      case Rejected => Rejected
      case Parsed(members, q) =>
        match ReadItems(s, q, n - 1, tagged)
        case Rejected => Rejected
        case Parsed(items, e) => Parsed([Object(members)] + items, e)
  }

  function ReadDocument(s: Bytes, p: nat, tagged: bool): Parsed<seq<Member>> {
    if p < |s| && s[p] == TAG_COMPOUND then ReadMembers(s, p + 1, tagged) else Rejected
  }

  // ---- the documents it is for ----

  // Strings and keys of at most 65535 bytes, no empty key, 32-bit integers, no null, and only arrays
  // of objects, none of them empty.
  predicate Encodable(t: Json)
    decreases t, 0
  {
    match t
    case Null => false
    case Number(v) => v.Floor as real == v && INT_MIN <= v.Floor <= INT_MAX
    case Text(s) => |s| < LIMIT_16
    case Array(items) => 0 < |items| < LIMIT_32 && EncodableItems(items, 0)
    case Object(members) => EncodableMembers(members, 0)
    case _ => true
  }

  predicate EncodableItems(items: seq<Json>, j: nat)
    requires j <= |items|
    decreases items, |items| - j
  {
    j < |items| ==> items[j].Object? && Encodable(items[j]) && EncodableItems(items, j + 1)
  }

  predicate EncodableMembers(members: seq<Member>, j: nat)
    requires j <= |members|
    decreases members, |members| - j
  {
    j < |members| ==>
      0 < |members[j].name| < LIMIT_16 && Encodable(members[j].value) && EncodableMembers(members, j + 1)
  }

  predicate ArrayFree(t: Json)
    decreases t, 0
  {
    match t
    case Array(_) => false
    case Object(members) => ArrayFreeMembers(members, 0)
    case _ => true
  }

  predicate ArrayFreeMembers(members: seq<Member>, j: nat)
    requires j <= |members|
    decreases members, |members| - j
  {
    j < |members| ==> ArrayFree(members[j].value) && ArrayFreeMembers(members, j + 1)
  }

  // ---- decoding what was written ----

  lemma ShortStringAt(s: Bytes, p: nat, t: Bytes)
    requires |t| < LIMIT_16 && At(s, p, ShortString(t))
    ensures ReadShortString(s, p) == Parsed(t, p + |ShortString(t)|)
  {
    var length := BigBytes(|t|, 2);
    AtSplit(s, p, length, t);
    LengthAt(s, p, |t|, length);
    assert s[p + 2..p + 2 + |t|] == t;
  }

  lemma LengthAt(s: Bytes, p: nat, n: nat, length: Bytes)
    requires n < LIMIT_16 && length == BigBytes(n, 2) && At(s, p, length)
    ensures ReadWord(s, p, 2) == Parsed(n, p + 2) && |length| == 2
  {
    Powers();
    WordAt(s, p, n, 2);
  }

  lemma IntAt(s: Bytes, p: nat, i: int)
    requires INT_MIN <= i <= INT_MAX && At(s, p, BigBytes(Unsigned32(i), 4))
    ensures ReadWord(s, p, 4) == Parsed(Unsigned32(i), p + 4) && Signed32(Unsigned32(i)) == i
  {
    Powers();
    WordAt(s, p, Unsigned32(i), 4);
  }

  // Every document of the kind is written without a failed assertion.
  lemma {:induction false} BodyExists(t: Json)
    requires Encodable(t)
    ensures Body(t).Some?
    decreases t, 0
  {
    match t
    case Array(items) => ItemsExist(items, 0);
    case Object(members) => MembersExist(members, 0);
    case _ =>
  }

  lemma {:induction false} ItemsExist(items: seq<Json>, j: nat)
    requires j <= |items| && EncodableItems(items, j)
    ensures Items(items, j).Some?
    decreases items, |items| - j
  {
    if j < |items| {
      BodyExists(items[j]);
      ItemsExist(items, j + 1);
    }
  }

  lemma {:induction false} MembersExist(members: seq<Member>, j: nat)
    requires j <= |members| && EncodableMembers(members, j)
    ensures Members(members, j).Some?
    decreases members, |members| - j
  {
    if j < |members| {
      BodyExists(members[j].value);
      MembersExist(members, j + 1);
    }
  }

  lemma {:induction false} BodyAt(s: Bytes, p: nat, e: nat, t: Json, b: Bytes, tagged: bool)
    requires Encodable(t) && (tagged || ArrayFree(t)) && Body(t) == Some(b) && At(s, p, b) && e == p + |b|
    ensures Payload(TagOf(t), s, p, tagged) == Parsed(t, e)
    decreases t, 0
  {
    match t
    case Array(items) =>
      var list := ArrayBodyAt(s, p, items, b);
      ItemsAt(s, p + 5, e, items, 0, list, ReadItems(s, p + 5, |items|, true));
    case Object(members) =>
      var list := ObjectBody(members, b);
      MembersAt(s, p, e, members, 0, list, tagged, ReadMembers(s, p, tagged));
    case _ => ScalarBodyAt(s, p, t, b, tagged);
  }

  lemma ObjectBody(members: seq<Member>, b: Bytes) returns (list: Bytes)
    requires Body(Object(members)) == Some(b)
    ensures Members(members, 0) == Some(list) && b == list + [TAG_END]
  {
    list := Members(members, 0).value;
  }

  lemma ScalarBodyAt(s: Bytes, p: nat, t: Json, b: Bytes, tagged: bool)
    requires Encodable(t) && !t.Array? && !t.Object? && Body(t) == Some(b) && At(s, p, b)
    ensures Payload(TagOf(t), s, p, tagged) == Parsed(t, p + |b|)
  {
    match t
    case Text(text) => ShortStringAt(s, p, text);
    case Number(v) => IntAt(s, p, v.Floor);
    case True => AtByte(s, p, 1);
    case False => AtByte(s, p, 0);
    case Null =>
  }

  lemma ArrayBodyAt(s: Bytes, p: nat, items: seq<Json>, b: Bytes) returns (list: Bytes)
    requires 0 < |items| < LIMIT_32 && Body(Array(items)) == Some(b) && At(s, p, b)
    ensures Items(items, 0) == Some(list) && At(s, p + 5, list) && |b| == 5 + |list|
    ensures p < |s| && s[p] == TAG_COMPOUND && ReadWord(s, p + 1, 4) == Parsed(|items|, p + 5)
  {
    list := Items(items, 0).value;
    AtSplit(s, p, [TAG_COMPOUND] + BigBytes(|items|, 4), list);
    ListHeadAt(s, p, |items|);
  }

  lemma ListHeadAt(s: Bytes, p: nat, n: nat)
    requires n < LIMIT_32 && At(s, p, [TAG_COMPOUND] + BigBytes(n, 4))
    ensures p < |s| && s[p] == TAG_COMPOUND && ReadWord(s, p + 1, 4) == Parsed(n, p + 5)
  {
    Powers();
    AtSplit(s, p, [TAG_COMPOUND], BigBytes(n, 4));
    AtByte(s, p, TAG_COMPOUND);
    WordAt(s, p + 1, n, 4);
  }

  lemma {:induction false} MembersAt(s: Bytes, p: nat, e: nat, members: seq<Member>, j: nat, b: Bytes, tagged: bool, r: Parsed<seq<Member>>)
    requires j <= |members| && EncodableMembers(members, j) && (tagged || ArrayFreeMembers(members, j))
    requires Members(members, j) == Some(b) && At(s, p, b + [TAG_END]) && e == p + |b| + 1 && r == ReadMembers(s, p, tagged)
    ensures r == Parsed(members[j..], e)
    decreases members, |members| - j
  {
    if j == |members| {
      EndAt(s, p, e, b, tagged);
      assert members[j..] == [];
    } else {
      var value := members[j].value;
      var q, next, body, rest := HeadMember(s, p, e, members, j, b);
      BodyAt(s, q, next, value, body, tagged);
      MembersAt(s, next, e, members, j + 1, rest, tagged, ReadMembers(s, next, tagged));
      StepMembers(s, p, q, next, e, members, j, tagged, r);
    }
  }

  // Where the parts of the member at index j stand: its body from q on, the next member from next on.
  lemma HeadMember(s: Bytes, p: nat, e: nat, members: seq<Member>, j: nat, b: Bytes) returns (q: nat, next: nat, body: Bytes, rest: Bytes)
    requires j < |members| && 0 < |members[j].name| < LIMIT_16
    requires Members(members, j) == Some(b) && At(s, p, b + [TAG_END]) && e == p + |b| + 1
    ensures p < |s| && s[p] == TagOf(members[j].value) != TAG_END && ReadShortString(s, p + 1) == Parsed(members[j].name, q)
    ensures Body(members[j].value) == Some(body) && At(s, q, body) && next == q + |body|
    ensures Members(members, j + 1) == Some(rest) && At(s, next, rest + [TAG_END]) && e == next + |rest| + 1
  {
    var name, value := members[j].name, members[j].value;
    body, rest := SplitMembers(members, j, b);
    var head := [TagOf(value)] + Name(name);
    MemberPieces(s, p, b, head, body, rest);
    q := p + |head|;
    next := q + |body|;
    NameAt(s, p, value, name);
  }

  lemma EndAt(s: Bytes, p: nat, e: nat, b: Bytes, tagged: bool)
    requires b == [] && At(s, p, b + [TAG_END]) && e == p + 1
    ensures ReadMembers(s, p, tagged) == Parsed([], e)
  {
    AtSplit(s, p, b, [TAG_END]);
    AtByte(s, p, TAG_END);
  }

  lemma SplitMembers(members: seq<Member>, j: nat, b: Bytes) returns (body: Bytes, rest: Bytes)
    requires j < |members| && Members(members, j) == Some(b)
    ensures Body(members[j].value) == Some(body) && Members(members, j + 1) == Some(rest)
    ensures b == [TagOf(members[j].value)] + Name(members[j].name) + body + rest
  {
    body, rest := Body(members[j].value).value, Members(members, j + 1).value;
  }

  lemma StepMembers(s: Bytes, p: nat, q: nat, next: nat, e: nat, members: seq<Member>, j: nat, tagged: bool, r: Parsed<seq<Member>>)
    requires p < |s| && j < |members| && s[p] != TAG_END && r == ReadMembers(s, p, tagged)
    requires ReadShortString(s, p + 1) == Parsed(members[j].name, q)
    requires Payload(s[p], s, q, tagged) == Parsed(members[j].value, next)
    requires ReadMembers(s, next, tagged) == Parsed(members[j + 1..], e)
    ensures r == Parsed(members[j..], e)
  {
    assert members[j..] == [Member(members[j].name, members[j].value)] + members[j + 1..];
  }

  lemma MemberPieces(s: Bytes, p: nat, b: Bytes, head: Bytes, body: Bytes, rest: Bytes)
    requires b == head + body + rest && At(s, p, b + [TAG_END])
    ensures At(s, p, head) && At(s, p + |head|, body) && At(s, p + |head| + |body|, rest + [TAG_END])
  {
    Regroup(head + body, rest, [TAG_END]);
    AtSplit(s, p, head + body, rest + [TAG_END]);
    AtSplit(s, p, head, body);
  }

  lemma NameAt(s: Bytes, p: nat, value: Json, name: Bytes)
    requires 0 < |name| < LIMIT_16 && At(s, p, [TagOf(value)] + Name(name))
    ensures p < |s| && s[p] == TagOf(value) != TAG_END
    ensures ReadShortString(s, p + 1) == Parsed(name, p + |[TagOf(value)] + Name(name)|)
  {
    AtSplit(s, p, [TagOf(value)], Name(name));
    AtByte(s, p, TagOf(value));
    ShortStringAt(s, p + 1, name);
  }

  lemma {:induction false} ItemsAt(s: Bytes, p: nat, e: nat, items: seq<Json>, j: nat, b: Bytes, r: Parsed<seq<Json>>)
    requires j <= |items| && EncodableItems(items, j)
    requires Items(items, j) == Some(b) && At(s, p, b) && e == p + |b| && r == ReadItems(s, p, |items| - j, true)
    ensures r == Parsed(items[j..], e)
    decreases items, |items| - j
  {
    if j < |items| {
      var q, list, rest := HeadItem(s, p, e, items, j, b);
      MembersAt(s, p + 1, q, items[j].members, 0, list, true, ReadMembers(s, p + 1, true));
      ItemsAt(s, q, e, items, j + 1, rest, ReadItems(s, q, |items| - j - 1, true));
      StepItems(s, p, q, e, items, j, r);
    } else {
      assert items[j..] == [];
    }
  }

  // Where the parts of the element at index j stand: its members behind its tag, the next element from q on.
  lemma HeadItem(s: Bytes, p: nat, e: nat, items: seq<Json>, j: nat, b: Bytes) returns (q: nat, list: Bytes, rest: Bytes)
    requires j < |items| && items[j].Object? && Items(items, j) == Some(b) && At(s, p, b) && e == p + |b|
    ensures p < |s| && s[p] == TAG_COMPOUND
    ensures Members(items[j].members, 0) == Some(list) && At(s, p + 1, list + [TAG_END]) && q == p + 1 + |list| + 1 <= |s|
    ensures Items(items, j + 1) == Some(rest) && At(s, q, rest) && e == q + |rest|
  {
    list, rest := SplitItems(items, j, b);
    q := p + 1 + |list| + 1;
    ItemPieces(s, p, list, rest);
  }

  lemma SplitItems(items: seq<Json>, j: nat, b: Bytes) returns (list: Bytes, rest: Bytes)
    requires j < |items| && items[j].Object? && Items(items, j) == Some(b)
    ensures Members(items[j].members, 0) == Some(list) && Items(items, j + 1) == Some(rest)
    ensures b == [TAG_COMPOUND] + (list + [TAG_END]) + rest
  {
    rest := Items(items, j + 1).value;
    list := ObjectEntry(items[j]);
  }

  lemma ObjectEntry(t: Json) returns (list: Bytes)
    requires t.Object? && Entry([], t).Some?
    ensures Members(t.members, 0) == Some(list) && Entry([], t) == Some([TAG_COMPOUND] + (list + [TAG_END]))
  {
    assert Body(t) == Ended(Members(t.members, 0));
    list := Members(t.members, 0).value;
    assert [TAG_COMPOUND] + Name([]) == [TAG_COMPOUND];
  }

  lemma ItemPieces(s: Bytes, p: nat, list: Bytes, rest: Bytes)
    requires At(s, p, [TAG_COMPOUND] + (list + [TAG_END]) + rest)
    ensures p < |s| && s[p] == TAG_COMPOUND && At(s, p + 1, list + [TAG_END]) && At(s, p + 1 + |list| + 1, rest)
  {
    AtSplit(s, p, [TAG_COMPOUND] + (list + [TAG_END]), rest);
    AtSplit(s, p, [TAG_COMPOUND], list + [TAG_END]);
    AtByte(s, p, TAG_COMPOUND);
  }

  lemma StepItems(s: Bytes, p: nat, q: nat, e: nat, items: seq<Json>, j: nat, r: Parsed<seq<Json>>)
    requires p < |s| && s[p] == TAG_COMPOUND && q <= |s| && j < |items| && items[j].Object?
    requires r == ReadItems(s, p, |items| - j, true)
    requires ReadMembers(s, p + 1, true) == Parsed(items[j].members, q)
    requires ReadItems(s, q, |items| - j - 1, true) == Parsed(items[j + 1..], e)
    ensures r == Parsed(items[j..], e)
  {
    assert items[j..] == [Object(items[j].members)] + items[j + 1..];
  }

  // The bytes of a document, whatever follows them, give back the document and their own end.
  lemma DocumentRoundTrip(members: seq<Member>, suffix: Bytes)
    requires EncodableMembers(members, 0)
    ensures Document(members).Some?
    ensures ReadDocument(Document(members).value + suffix, 0, true) == Parsed(members, |Document(members).value|)
  {
    DocumentAt(members, suffix, true);
  }

  // The bytes of a document: a tag, its members and an end.
  lemma DocumentBytes(members: seq<Member>, suffix: Bytes) returns (b: Bytes, d: Bytes)
    requires EncodableMembers(members, 0)
    ensures Members(members, 0) == Some(b) && Document(members) == Some(d) && |d| == 1 + |b| + 1
    ensures d[0] == TAG_COMPOUND && At(d + suffix, 1, b + [TAG_END])
  {
    MembersExist(members, 0);
    b := Members(members, 0).value;
    d := [TAG_COMPOUND] + (b + [TAG_END]);
    assert At(d + suffix, 0, d);
    AtSplit(d + suffix, 0, [TAG_COMPOUND], b + [TAG_END]);
  }

  lemma DocumentAt(members: seq<Member>, suffix: Bytes, tagged: bool)
    requires EncodableMembers(members, 0) && (tagged || ArrayFreeMembers(members, 0))
    ensures Document(members).Some?
    ensures ReadDocument(Document(members).value + suffix, 0, tagged) == Parsed(members, |Document(members).value|)
  {
    var b, d := DocumentBytes(members, suffix);
    var s := d + suffix;
    MembersAt(s, 1, |d|, members, 0, b, tagged, ReadMembers(s, 1, tagged));
  }

  // Two documents with the same bytes are the same document.
  lemma DocumentInjective(a: seq<Member>, b: seq<Member>)
    requires EncodableMembers(a, 0) && EncodableMembers(b, 0) && Document(a) == Document(b)
    ensures a == b
  {
    DocumentRoundTrip(a, []);
    DocumentRoundTrip(b, []);
  }

  // ---- where the format's own convention goes wrong ----

  // Bytes that are each equal to the next are all the same.
  lemma {:induction false} AllSame(s: Bytes, i: nat, n: nat)
    requires i + n < |s| && forall k :: i <= k < i + n ==> s[k] == s[k + 1]
    ensures s[i + n] == s[i]
    decreases n
  {
    if n > 0 {
      AllSame(s, i, n - 1);
    }
  }

  lemma WordValue(s: Bytes, p: nat)
    requires p + 2 <= |s|
    ensures ReadWord(s, p, 2) == Parsed(256 * (s[p] as int) + s[p + 1] as int, p + 2)
  {
    var w := s[p..p + 2];
    assert BigValue(w, 0) == 0 && BigValue(w, 1) == w[0];
  }

  // A string that reads the same from two neighbouring positions, the first of them at a tag of a compound,
  // is 2570 bytes of that tag.
  lemma ReadsTwice(s: Bytes, p: nat, t: Bytes, x: nat, y: nat)
    requires ReadShortString(s, p) == Parsed(t, x) && ReadShortString(s, p + 1) == Parsed(t, y) && s[p] == TAG_COMPOUND
    ensures y == x + 1 && s[x] == TAG_COMPOUND
  {
    WordValue(s, p);
    WordValue(s, p + 1);
    assert |t| == 2570 && s[p + 2] == TAG_COMPOUND;
    var i := p + 2;
    forall k | i <= k < i + |t| ensures s[k] == s[k + 1] {
      assert t[k - i] == s[i..i + |t|][k - i];
      assert t[k - i] == s[i + 1..i + 1 + |t|][k - i];
    }
    AllSame(s, i, |t|);
  }

  // Reading from a tag before the members never gives the members: the first name would be 2570 bytes with
  // the value of the tag, and the same would hold of the first member's value.
  lemma {:induction false} NeverPlain(s: Bytes, p: nat, members: seq<Member>, b: Bytes, r: Parsed<seq<Member>>)
    requires EncodableMembers(members, 0) && Members(members, 0) == Some(b) && r == ReadMembers(s, p, false)
    requires p < |s| && s[p] == TAG_COMPOUND && At(s, p + 1, b + [TAG_END])
    ensures r.Parsed? ==> r.value != members
    decreases members
  {
    if r.Parsed? && r.value == members {
      var x, inner, list := OneDown(s, p, members, b, r);
      NeverPlain(s, x, inner, list, ReadMembers(s, x, false));
    }
  }

  // The same situation one level down.
  lemma OneDown(s: Bytes, p: nat, members: seq<Member>, b: Bytes, r: Parsed<seq<Member>>) returns (x: nat, inner: seq<Member>, list: Bytes)
    requires EncodableMembers(members, 0) && Members(members, 0) == Some(b) && r == ReadMembers(s, p, false)
    requires p < |s| && s[p] == TAG_COMPOUND && At(s, p + 1, b + [TAG_END]) && r.Parsed? && r.value == members
    ensures members != [] && members[0].value == Object(inner) && EncodableMembers(inner, 0) && Members(inner, 0) == Some(list)
    ensures x < |s| && s[x] == TAG_COMPOUND && At(s, x + 1, list + [TAG_END])
    ensures ReadMembers(s, x, false).Parsed? && ReadMembers(s, x, false).value == inner
  {
    x := FirstOf(s, p, members, r);
    inner := members[0].value.members;
    var y, _, body, _ := HeadMember(s, p + 1, p + 1 + |b| + 1, members, 0, b);
    ReadsTwice(s, p + 1, members[0].name, x, y);
    list := ObjectBody(inner, body);
  }

  // What it takes to read members from the tag of a compound on.
  lemma FirstOf(s: Bytes, p: nat, members: seq<Member>, r: Parsed<seq<Member>>) returns (x: nat)
    requires p < |s| && s[p] == TAG_COMPOUND && r == ReadMembers(s, p, false) && r.Parsed? && r.value == members
    ensures members != [] && ReadShortString(s, p + 1) == Parsed(members[0].name, x) && members[0].value.Object?
    ensures ReadMembers(s, x, false).Parsed? && ReadMembers(s, x, false).value == members[0].value.members
  {
    x := ReadShortString(s, p + 1).next;
  }

  lemma {:induction false} PlainBody(s: Bytes, p: nat, t: Json, b: Bytes, r: Parsed<Json>)
    requires Encodable(t) && !ArrayFree(t) && Body(t) == Some(b) && At(s, p, b) && r == Payload(TagOf(t), s, p, false)
    ensures r.Parsed? ==> r.value != t
    decreases t, 0
  {
    match t
    case Array(items) => PlainArray(s, p, items, b, r);
    case Object(members) =>
      var list := ObjectBody(members, b);
      PlainMembers(s, p, p + |b|, members, 0, list, ReadMembers(s, p, false));
      assert members[0..] == members;
    case _ =>
  }

  lemma PlainArray(s: Bytes, p: nat, items: seq<Json>, b: Bytes, r: Parsed<Json>)
    requires Encodable(Array(items)) && Body(Array(items)) == Some(b) && At(s, p, b) && r == Payload(TAG_LIST, s, p, false)
    ensures r.Parsed? ==> r.value != Array(items)
  {
    var list := ArrayBodyAt(s, p, items, b);
    assert EncodableItems(items, 0);
    var _, first, _ := HeadItem(s, p + 5, p + 5 + |list|, items, 0, list);
    assert Encodable(items[0]);
    assert EncodableMembers(items[0].members, 0);
    NeverPlain(s, p + 5, items[0].members, first, ReadMembers(s, p + 5, false));
    FirstItem(s, p + 5, items, ReadItems(s, p + 5, |items|, false));
  }

  lemma FirstItem(s: Bytes, p: nat, items: seq<Json>, r: Parsed<seq<Json>>)
    requires p <= |s| && items != [] && items[0].Object? && r == ReadItems(s, p, |items|, false)
    requires var first := ReadMembers(s, p, false); first.Parsed? ==> first.value != items[0].members
    ensures r.Parsed? ==> r.value != items
  {
  }

  lemma {:induction false} PlainMembers(s: Bytes, p: nat, e: nat, members: seq<Member>, j: nat, b: Bytes, r: Parsed<seq<Member>>)
    requires j <= |members| && EncodableMembers(members, j) && !ArrayFreeMembers(members, j)
    requires Members(members, j) == Some(b) && At(s, p, b + [TAG_END]) && e == p + |b| + 1 && r == ReadMembers(s, p, false)
    ensures r.Parsed? ==> r.value != members[j..]
    decreases members, |members| - j
  {
    var value := members[j].value;
    var q, next, body, rest := HeadMember(s, p, e, members, j, b);
    if ArrayFree(value) {
      BodyAt(s, q, next, value, body, false);
      PlainMembers(s, next, e, members, j + 1, rest, ReadMembers(s, next, false));
    } else {
      PlainBody(s, q, value, body, Payload(s[p], s, q, false));
    }
    PlainStep(s, p, q, next, members, j, r);
  }

  lemma PlainStep(s: Bytes, p: nat, q: nat, next: nat, members: seq<Member>, j: nat, r: Parsed<seq<Member>>)
    requires p < |s| && j < |members| && s[p] != TAG_END && r == ReadMembers(s, p, false)
    requires ReadShortString(s, p + 1) == Parsed(members[j].name, q)
    requires var v := Payload(s[p], s, q, false);
      || (v.Parsed? ==> v.value != members[j].value)
      || (v == Parsed(members[j].value, next) && var m := ReadMembers(s, next, false); m.Parsed? ==> m.value != members[j + 1..])
    ensures r.Parsed? ==> r.value != members[j..]
  {
    assert members[j..] == [members[j]] + members[j + 1..];
    match Payload(s[p], s, q, false)
    case Rejected =>
    case Parsed(value, n) =>
      var rest := ReadMembers(s, n, false);
      if rest.Parsed? {
        HeadsAndTails(Member(members[j].name, value), rest.value, members[j], members[j + 1..]);
      }
  }

  // The format's own convention gives back a document exactly if there is no array in it; otherwise it never
  // reads those members, wherever it ends.
  lemma PlainDocument(members: seq<Member>, suffix: Bytes)
    requires EncodableMembers(members, 0)
    ensures Document(members).Some?
    ensures var d := Document(members).value; var r := ReadDocument(d + suffix, 0, false);
      && (r == Parsed(members, |d|) <==> ArrayFreeMembers(members, 0))
      && (r.Parsed? && r.value == members <==> ArrayFreeMembers(members, 0))
  {
    if ArrayFreeMembers(members, 0) {
      DocumentAt(members, suffix, false);
    } else {
      var b, d := DocumentBytes(members, suffix);
      PlainMembers(d + suffix, 1, |d|, members, 0, b, ReadMembers(d + suffix, 1, false));
      assert members[0..] == members;
    }
  }

  // The smallest document that is misread: {"a":[{}]}.
  lemma ListMisread(suffix: Bytes)
    ensures var members := [Member([97], Array([Object([])]))];
      EncodableMembers(members, 0) && Document(members).Some? && var r := ReadDocument(Document(members).value + suffix, 0, false);
      r.Parsed? ==> r.value != members
  {
    var items := [Object([])];
    var members := [Member([97], Array(items))];
    assert EncodableMembers([], 0) && EncodableItems(items, 1) && EncodableMembers(members, 1);
    assert EncodableItems(items, 0);
    PlainDocument(members, suffix);
  }
}
