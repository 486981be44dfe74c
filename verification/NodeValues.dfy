// What trees of cJSON items stand for.
module NodeValues {
  import opened ByteStrings
  import opened JsonData
  import opened NodeLists
  import opened NodeTrees

  // Items as the parser and the create functions make them: only arrays and objects have children, strings
  // have text, numbers their int, and members have keys.
  ghost predicate Typed(t: Tree)
    reads All(t)`kind, All(t)`valueDouble, All(t)`valueInt, All(t)`valueString, All(t)`key
    decreases t, 1
  {
    && t.root.kind != InvalidKind
    && (t.root.kind == NumberKind ==> t.root.valueInt == ToInt(t.root.valueDouble))
    && (t.root.kind == StringKind ==> t.root.valueString.Some?)
    && (t.root.kind != ArrayKind && t.root.kind != ObjectKind ==> t.kids == [])
    && (t.root.kind == ArrayKind ==> TypedKids(t.kids, false, 0))
    && (t.root.kind == ObjectKind ==> TypedKids(t.kids, true, 0))
  }

  ghost predicate TypedKids(kids: seq<Tree>, keyed: bool, j: nat)
    requires j <= |kids|
    reads Below(kids)`kind, Below(kids)`valueDouble, Below(kids)`valueInt, Below(kids)`valueString, Below(kids)`key
    decreases kids, 0, |kids| - j
  {
    j < |kids| ==>
      (RootBelow(kids, j);
       (keyed ==> kids[j].root.key.Some?) && Typed(kids[j]) && TypedKids(kids, keyed, j + 1))
  }

  lemma KidsTyped(t: Tree)
    requires Typed(t)
    ensures t.root.kind == ArrayKind ==> TypedKids(t.kids, false, 0)
    ensures t.root.kind == ObjectKind ==> TypedKids(t.kids, true, 0)
  {
  }

  ghost function Value(t: Tree): Json
    requires Typed(t)
    reads All(t)`kind, All(t)`valueDouble, All(t)`valueInt, All(t)`valueString, All(t)`key
    decreases t, 1
  {
    match t.root.kind
    case NullKind => Null
    case FalseKind => False
    case TrueKind => True
    case NumberKind => Number(t.root.valueDouble)
    case StringKind => Text(t.root.valueString.value)
    case ArrayKind => Array(Values(t.kids, 0))
    case ObjectKind => Object(MembersOf(t.kids, 0))
  }

  ghost function Values(kids: seq<Tree>, j: nat): seq<Json>
    requires j <= |kids| && TypedKids(kids, false, j)
    reads Below(kids)`kind, Below(kids)`valueDouble, Below(kids)`valueInt, Below(kids)`valueString, Below(kids)`key
    decreases kids, 0, |kids| - j
  {
    if j == |kids| then [] else RootBelow(kids, j); [Value(kids[j])] + Values(kids, j + 1)
  }

  ghost function MembersOf(kids: seq<Tree>, j: nat): seq<Member>
    requires j <= |kids| && TypedKids(kids, true, j)
    reads Below(kids)`kind, Below(kids)`valueDouble, Below(kids)`valueInt, Below(kids)`valueString, Below(kids)`key
    decreases kids, 0, |kids| - j
  {
    if j == |kids| then []
    else RootBelow(kids, j); [Member(kids[j].root.key.value, Value(kids[j]))] + MembersOf(kids, j + 1)
  }

  // What a tree is that is in order: no item occurs twice, every list is linked, every kind has its data.
  ghost predicate WellFormed(t: Tree)
    reads t.root`child, Below(t.kids)`child, Below(t.kids)`next, Below(t.kids)`prev
    reads All(t)`kind, All(t)`valueDouble, All(t)`valueInt, All(t)`valueString, All(t)`key
  {
    Apart(t) && Joined(t) && Typed(t)
  }

  // A tree in order that stands for a value.
  ghost predicate Holds(t: Tree, v: Json)
    reads All(t)`child, All(t)`next, All(t)`prev, All(t)`kind, All(t)`valueDouble, All(t)`valueInt, All(t)`valueString, All(t)`key
  {
    WellFormed(t) && Value(t) == v
  }

  // Structurally equal trees have the same value.
  lemma {:induction false} SameValue(a: Tree, b: Tree)
    requires Same(a, b) && Typed(a)
    ensures Typed(b) && Value(a) == Value(b)
    decreases a, 1
  {
    if a.root.kind == ArrayKind {
      SameTyped(a.kids, b.kids, false, 0);
      SameValues(a.kids, b.kids, 0);
    } else if a.root.kind == ObjectKind {
      SameTyped(a.kids, b.kids, true, 0);
      SameMembers(a.kids, b.kids, 0);
    }
  }

  lemma {:induction false} SameTyped(a: seq<Tree>, b: seq<Tree>, keyed: bool, j: nat)
    requires j <= |a| == |b| && SameKids(a, b, |a|) && TypedKids(a, keyed, j)
    ensures TypedKids(b, keyed, j)
    decreases a, 0, |a| - j
  {
    if j < |a| {
      SameValue(a[j], b[j]);
      SameTyped(a, b, keyed, j + 1);
    }
  }

  lemma {:induction false} SameValues(a: seq<Tree>, b: seq<Tree>, j: nat)
    requires j <= |a| == |b| && SameKids(a, b, |a|) && TypedKids(a, false, j) && TypedKids(b, false, j)
    ensures Values(a, j) == Values(b, j)
    decreases a, 0, |a| - j
  {
    if j < |a| {
      SameValue(a[j], b[j]);
      SameValues(a, b, j + 1);
    }
  }

  lemma {:induction false} SameMembers(a: seq<Tree>, b: seq<Tree>, j: nat)
    requires j <= |a| == |b| && SameKids(a, b, |a|) && TypedKids(a, true, j) && TypedKids(b, true, j)
    ensures MembersOf(a, j) == MembersOf(b, j)
    decreases a, 0, |a| - j
  {
    if j < |a| {
      assert Same(a[j], b[j]);
      SameValue(a[j], b[j]);
      SameMembers(a, b, j + 1);
    }
  }

  // ---- the children of a tree in order ----

  lemma KidWellFormed(t: Tree, i: nat)
    requires WellFormed(t) && i < |t.kids| && (t.root.kind == ArrayKind || t.root.kind == ObjectKind)
    ensures WellFormed(t.kids[i])
  {
    RootBelow(t.kids, i);
    ChildAt(t, i);
    KidsTyped(t);
    assert ApartKids(t.kids);
    if t.root.kind == ObjectKind {
      TypedKid(t.kids, true, 0, i);
    } else {
      TypedKid(t.kids, false, 0, i);
    }
  }

  lemma KidSmaller(t: Tree, i: nat)
    requires i < |t.kids|
    ensures All(t.kids[i]) <= All(t) && Height(t.kids[i]) < Height(t)
  {
    RootBelow(t.kids, i);
    HeightOne(t.kids, 0, i);
  }

  lemma {:induction false} TypedKid(kids: seq<Tree>, keyed: bool, j: nat, i: nat)
    requires j <= i < |kids| && TypedKids(kids, keyed, j)
    ensures Typed(kids[i]) && (keyed ==> kids[i].root.key.Some?) && TypedKids(kids, keyed, i)
    decreases i - j
  {
    if j < i {
      TypedKid(kids, keyed, j + 1, i);
    }
  }

  // The children of an object, as members; those of an array, as items.
  lemma {:induction false} MemberIs(kids: seq<Tree>, j: nat, i: nat)
    requires j <= i <= |kids| && TypedKids(kids, true, j)
    ensures TypedKids(kids, true, i) && |MembersOf(kids, j)| == |kids| - j
    ensures i < |kids| ==> kids[i].root.key.Some? && Typed(kids[i])
    ensures i < |kids| ==> MembersOf(kids, j)[i - j] == Member(kids[i].root.key.value, Value(kids[i]))
    decreases |kids| - j
  {
    if j < i {
      MemberIs(kids, j + 1, i);
    } else if j < |kids| {
      MemberIs(kids, j + 1, j + 1);
    }
  }

  lemma {:induction false} ItemIs(kids: seq<Tree>, j: nat, i: nat)
    requires j <= i <= |kids| && TypedKids(kids, false, j)
    ensures TypedKids(kids, false, i) && |Values(kids, j)| == |kids| - j
    ensures i < |kids| ==> Typed(kids[i]) && Values(kids, j)[i - j] == Value(kids[i])
    decreases |kids| - j
  {
    if j < i {
      ItemIs(kids, j + 1, i);
    } else if j < |kids| {
      ItemIs(kids, j + 1, j + 1);
    }
  }

  lemma FirstChild(t: Tree)
    requires Joined(t)
    ensures t.root.child == ChildOf(t.kids, 0)
  {
  }

  ghost predicate HasItems(t: Tree, items: seq<Json>)
    reads All(t)`child, All(t)`next, All(t)`prev, All(t)`kind, All(t)`valueDouble, All(t)`valueInt, All(t)`valueString, All(t)`key
  {
    WellFormed(t) && t.root.kind == ArrayKind && TypedKids(t.kids, false, 0) && Values(t.kids, 0) == items
  }

  ghost predicate HasMembers(t: Tree, members: seq<Member>)
    reads All(t)`child, All(t)`next, All(t)`prev, All(t)`kind, All(t)`valueDouble, All(t)`valueInt, All(t)`valueString, All(t)`key
  {
    WellFormed(t) && t.root.kind == ObjectKind && TypedKids(t.kids, true, 0) && MembersOf(t.kids, 0) == members
  }

  lemma ItemHolds(t: Tree, items: seq<Json>, i: nat)
    requires HasItems(t, items) && i < |t.kids|
    ensures |items| == |t.kids| && Holds(t.kids[i], items[i])
  {
    KidWellFormed(t, i);
    ItemIs(t.kids, 0, i);
  }

  lemma MemberHolds(t: Tree, members: seq<Member>, i: nat)
    requires HasMembers(t, members) && i < |t.kids|
    ensures |members| == |t.kids| && Holds(t.kids[i], members[i].value) && t.kids[i].root.key == Some(members[i].name)
  {
    KidWellFormed(t, i);
    MemberIs(t.kids, 0, i);
  }

  // The item at index i, and whether there is one after it.
  lemma ItemNext(t: Tree, items: seq<Json>, i: nat)
    requires HasItems(t, items) && i < |t.kids|
    ensures |items| == |t.kids| && t.kids[i].root.next == ChildOf(t.kids, i + 1)
  {
    ItemIs(t.kids, 0, 0);
    ChildAt(t, i);
  }

  lemma MemberNext(t: Tree, members: seq<Member>, i: nat)
    requires HasMembers(t, members) && i < |t.kids|
    ensures |members| == |t.kids| && t.kids[i].root.next == ChildOf(t.kids, i + 1)
  {
    MemberIs(t.kids, 0, 0);
    ChildAt(t, i);
  }

  lemma FirstItem(t: Tree, items: seq<Json>)
    requires HasItems(t, items)
    ensures |items| == |t.kids| && t.root.child == ChildOf(t.kids, 0)
  {
    ItemIs(t.kids, 0, 0);
  }

  lemma FirstMember(t: Tree, members: seq<Member>)
    requires HasMembers(t, members)
    ensures |members| == |t.kids| && t.root.child == ChildOf(t.kids, 0)
  {
    MemberIs(t.kids, 0, 0);
  }
}
