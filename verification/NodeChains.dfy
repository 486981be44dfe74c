// The chains of items that parse_array and parse_object build, and how they become children.
module NodeChains {
  import opened ByteStrings
  import opened JsonData
  import opened NodeLists
  import opened NodeTrees
  import opened NodeValues

  // The trees read so far: their roots are linked, but the head does not know the tail.
  ghost predicate Strung(done: seq<Tree>)
    reads Below(done)`child, Below(done)`next, Below(done)`prev
  {
    RootsBelow(done);
    ApartKids(done) && JoinedKids(done) && Chain(Roots(done))
  }

  ghost predicate IsItem(t: Tree, value: Json)
    reads All(t)`kind, All(t)`valueDouble, All(t)`valueInt, All(t)`valueString, All(t)`key
  {
    Typed(t) && Value(t) == value
  }

  ghost predicate IsMember(t: Tree, member: Member)
    reads All(t)`kind, All(t)`valueDouble, All(t)`valueInt, All(t)`valueString, All(t)`key
  {
    t.root.key == Some(member.name) && IsItem(t, member.value)
  }

  ghost predicate AreItems(done: seq<Tree>, items: seq<Json>)
    reads Below(done)`kind, Below(done)`valueDouble, Below(done)`valueInt, Below(done)`valueString, Below(done)`key
  {
    |done| == |items| && forall i :: 0 <= i < |done| ==> (RootBelow(done, i); IsItem(done[i], items[i]))
  }

  ghost predicate AreMembers(done: seq<Tree>, members: seq<Member>)
    reads Below(done)`kind, Below(done)`valueDouble, Below(done)`valueInt, Below(done)`valueString, Below(done)`key
  {
    |done| == |members| && forall i :: 0 <= i < |done| ==> (RootBelow(done, i); IsMember(done[i], members[i]))
  }

  lemma {:induction false} ItemsTyped(done: seq<Tree>, items: seq<Json>, j: nat)
    requires AreItems(done, items) && j <= |done|
    ensures TypedKids(done, false, j) && Values(done, j) == items[j..]
    decreases |done| - j
  {
    if j < |done| {
      ItemsTyped(done, items, j + 1);
      assert IsItem(done[j], items[j]);
      assert items[j..] == [items[j]] + items[j + 1..];
    }
  }

  lemma {:induction false} MembersTyped(done: seq<Tree>, members: seq<Member>, j: nat)
    requires AreMembers(done, members) && j <= |done|
    ensures TypedKids(done, true, j) && MembersOf(done, j) == members[j..]
    decreases |done| - j
  {
    if j < |done| {
      MembersTyped(done, members, j + 1);
      assert IsMember(done[j], members[j]);
      assert members[j..] == [Member(members[j].name, members[j].value)] + members[j + 1..];
    }
  }

  lemma MoreItems(done: seq<Tree>, items: seq<Json>, c: Tree, value: Json)
    requires AreItems(done, items) && IsItem(c, value)
    ensures AreItems(done + [c], items + [value])
  {
    forall i | 0 <= i < |done + [c]| ensures IsItem((done + [c])[i], (items + [value])[i]) {
      assert i < |done| ==> IsItem(done[i], items[i]);
    }
  }

  lemma MoreMembers(done: seq<Tree>, members: seq<Member>, c: Tree, member: Member)
    requires AreMembers(done, members) && IsMember(c, member)
    ensures AreMembers(done + [c], members + [member])
  {
    forall i | 0 <= i < |done + [c]| ensures IsMember((done + [c])[i], (members + [member])[i]) {
      assert i < |done| ==> IsMember(done[i], members[i]);
    }
  }

  // The chain with the values read so far.

  ghost predicate ItemChain(head: Node?, current: Node?, done: seq<Tree>, items: seq<Json>)
    reads Below(done)`child, Below(done)`next, Below(done)`prev
    reads Below(done)`kind, Below(done)`valueDouble, Below(done)`valueInt, Below(done)`valueString, Below(done)`key
  {
    Strung(done) && AreItems(done, items) && head == ChildOf(done, 0) && current == LastOf(done)
  }

  ghost predicate MemberChain(head: Node?, current: Node?, done: seq<Tree>, members: seq<Member>)
    reads Below(done)`child, Below(done)`next, Below(done)`prev
    reads Below(done)`kind, Below(done)`valueDouble, Below(done)`valueInt, Below(done)`valueString, Below(done)`key
  {
    Strung(done) && AreMembers(done, members) && head == ChildOf(done, 0) && current == LastOf(done)
  }

  // The chain goes on with an item whose contents are still to be read.
  ghost predicate Open(done: seq<Tree>, newItem: Node)
    reads Below(done)`child, Below(done)`next, Below(done)`prev, newItem`next, newItem`prev
  {
    RootsBelow(done);
    ApartKids(done) && JoinedKids(done) && newItem !in Below(done) && Chain(Roots(done) + [newItem])
  }

  // A new item goes to the end of the chain before it has any contents.
  method LinkNext(head: Node?, current: Node?, newItem: Node, ghost done: seq<Tree>) returns (first: Node)
    requires Strung(done) && head == ChildOf(done, 0) && current == LastOf(done) && newItem !in Below(done) && newItem.next == null
    modifies If(current)`next, newItem`prev
    ensures Open(done, newItem) && first == if done == [] then newItem else head
  {
    assert allocated(Below(done));
    RootsBelow(done);
    RootsDistinct(done);
    first := if head == null then newItem else head;
    Append(current, newItem, Roots(done));
    assert current != null ==> Roots(done)[|done| - 1] == current;
    StayJoined(done);
  }

  method AddNew(head: Node?, current: Node?, ghost done: seq<Tree>) returns (first: Node, newItem: Node)
    requires Strung(done) && head == ChildOf(done, 0) && current == LastOf(done)
    modifies If(current)`next
    ensures fresh(newItem) && newItem.child == null && Open(done, newItem) && first == if done == [] then newItem else head
  {
    assert allocated(Below(done));
    newItem := new Node(InvalidKind);
    first := LinkNext(head, current, newItem, done);
  }

  // With the contents read it is one more tree of the chain.
  lemma StrungMore(done: seq<Tree>, c: Tree)
    requires Open(done, c.root) && Apart(c) && Joined(c) && All(c) !! Below(done)
    ensures Strung(done + [c])
  {
    RootsMore(done, c);
    ApartMore(done, c);
    forall i | 0 <= i < |done + [c]| ensures Joined((done + [c])[i]) {
      KidJoined(done, c, i);
    }
  }

  lemma {:induction false} OneMoreItem(head: Node, done: seq<Tree>, items: seq<Json>, c: Tree, value: Json)
    requires Open(done, c.root) && AreItems(done, items) && Holds(c, value) && All(c) !! Below(done)
    requires head == if done == [] then c.root else ChildOf(done, 0)
    ensures ItemChain(head, c.root, done + [c], items + [value]) && Below(done + [c]) == Below(done) + All(c)
  {
    StrungMore(done, c);
    MoreItems(done, items, c, value);
    BelowMore(done, c);
  }

  lemma {:induction false} OneMoreMember(head: Node, done: seq<Tree>, members: seq<Member>, c: Tree, member: Member)
    requires Open(done, c.root) && AreMembers(done, members) && All(c) !! Below(done)
    requires Holds(c, member.value) && c.root.key == Some(member.name)
    requires head == if done == [] then c.root else ChildOf(done, 0)
    ensures MemberChain(head, c.root, done + [c], members + [member]) && Below(done + [c]) == Below(done) + All(c)
  {
    StrungMore(done, c);
    MoreMembers(done, members, c, member);
    BelowMore(done, c);
  }

  // The head learns the tail.
  method CloseChain(head: Node?, current: Node?, ghost done: seq<Tree>)
    requires Strung(done) && head == ChildOf(done, 0) && current == LastOf(done)
    modifies If(head)`prev
    ensures JoinedKids(done) && Linked(Roots(done))
  {
    assert allocated(Below(done));
    RootsBelow(done);
    RootsDistinct(done);
    if head != null {
      assert Roots(done)[0] == head;
      head.prev := current;
      StayJoined(done);
    }
  }

  // The end of parse_array and parse_object: the chain becomes the children of the item.
  method CloseList(item: Node, head: Node?, current: Node?, kind: Kind, ghost done: seq<Tree>)
    requires Strung(done) && head == ChildOf(done, 0) && current == LastOf(done) && item !in Below(done)
    modifies If(head)`prev, item`kind, item`child
    ensures Apart(Tree(item, done)) && Joined(Tree(item, done)) && item.kind == kind
  {
    assert allocated(Below(done));
    RootsBelow(done);
    CloseChain(head, current, done);
    item.kind := kind;
    item.child := head;
    Adopted(item, done);
  }

  lemma Adopted(item: Node, done: seq<Tree>)
    requires ApartKids(done) && JoinedKids(done) && Linked(Roots(done)) && item !in Below(done) && item.child == ChildOf(done, 0)
    ensures Apart(Tree(item, done)) && Joined(Tree(item, done))
  {
    RootsBelow(done);
    RootsDistinct(done);
  }

  lemma ArrayHolds(item: Node, done: seq<Tree>, items: seq<Json>)
    requires AreItems(done, items) && item.kind == ArrayKind && Apart(Tree(item, done)) && Joined(Tree(item, done))
    ensures Holds(Tree(item, done), Array(items))
  {
    ItemsTyped(done, items, 0);
    assert items[0..] == items;
  }

  lemma ObjectHolds(item: Node, done: seq<Tree>, members: seq<Member>)
    requires AreMembers(done, members) && item.kind == ObjectKind && Apart(Tree(item, done)) && Joined(Tree(item, done))
    ensures Holds(Tree(item, done), Object(members))
  {
    MembersTyped(done, members, 0);
    assert members[0..] == members;
  }

  method CloseArray(item: Node, head: Node?, current: Node?, ghost done: seq<Tree>, ghost items: seq<Json>)
    requires ItemChain(head, current, done, items) && item !in Below(done)
    modifies If(head)`prev, item`kind, item`child
    ensures Holds(Tree(item, done), Array(items))
  {
    assert allocated(Below(done));
    CloseList(item, head, current, ArrayKind, done);
    assert AreItems(done, items);
    ArrayHolds(item, done, items);
  }

  method CloseObject(item: Node, head: Node?, current: Node?, ghost done: seq<Tree>, ghost members: seq<Member>)
    requires MemberChain(head, current, done, members) && item !in Below(done)
    modifies If(head)`prev, item`kind, item`child
    ensures Holds(Tree(item, done), Object(members))
  {
    assert allocated(Below(done));
    CloseList(item, head, current, ObjectKind, done);
    assert AreMembers(done, members);
    ObjectHolds(item, done, members);
  }

  // An item without children.
  lemma LeafHolds(item: Node)
    requires item.child == null
    ensures item.kind == NullKind ==> Holds(Tree(item, []), Null)
    ensures item.kind == FalseKind ==> Holds(Tree(item, []), False)
    ensures item.kind == TrueKind ==> Holds(Tree(item, []), True)
    ensures item.kind == NumberKind && item.valueInt == ToInt(item.valueDouble) ==> Holds(Tree(item, []), Number(item.valueDouble))
    ensures item.kind == StringKind && item.valueString.Some? ==> Holds(Tree(item, []), Text(item.valueString.value))
  {
  }
}
