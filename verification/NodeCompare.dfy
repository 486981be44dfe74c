// cJSON_Compare as it runs on trees of items, proved against the comparison of their values.
module NodeCompare {
  import opened ByteStrings
  import opened JsonData
  import opened NodeLists
  import opened NodeTrees
  import opened NodeValues
  import Spec = JsonCompare

  // case_insensitive_strcmp: whether it gives 0
  method EqualIgnoringCase(string1: Bytes, string2: Bytes) returns (equal: bool)
    ensures equal <==> Spec.Lower(string1, 0) == Spec.Lower(string2, 0)
    ensures equal <==> Spec.SameLetters(string1, string2, false)
  {
    Spec.KeysAlike(string1, string2, false);
    var i := 0;
    while i < |string1| && i < |string2| && Spec.ToLower(string1[i]) == Spec.ToLower(string2[i])
      invariant 0 <= i <= |string1| && i <= |string2|
      invariant Spec.Lower(string1, 0) == Spec.Lower(string2, 0) <==> Spec.Lower(string1, i) == Spec.Lower(string2, i)
    {
      HeadsAndTails(Spec.ToLower(string1[i]), Spec.Lower(string1, i + 1), Spec.ToLower(string2[i]), Spec.Lower(string2, i + 1));
      i := i + 1;
    }
    equal := i == |string1| && i == |string2|;
    if i < |string1| && i < |string2| {
      HeadsAndTails(Spec.ToLower(string1[i]), Spec.Lower(string1, i + 1), Spec.ToLower(string2[i]), Spec.Lower(string2, i + 1));
    }
  }

  ghost predicate HasKeys(kids: seq<Tree>, keys: seq<Option<Bytes>>)
    reads Below(kids)`key
  {
    |kids| == |keys| && forall i :: 0 <= i < |kids| ==> (RootBelow(kids, i); kids[i].root.key == keys[i])
  }

  // get_object_item, with the index of the item it finds; children may lack a key.
  method GetObjectItem(object_: Node?, name: Option<Bytes>, caseSensitive: bool, ghost t: Tree, ghost keys: seq<Option<Bytes>>)
      returns (item: Node?, ghost k: Option<nat>)
    requires object_ != null ==> object_ == t.root && Joined(t) && HasKeys(t.kids, keys)
    ensures object_ == null || name == None ==> item == null
    ensures object_ != null && name.Some? ==>
      item == match Spec.FindKey(keys, Spec.KeyOf(name.value, caseSensitive), caseSensitive, 0)
        case None => null
        case Some(i) => ChildOf(t.kids, i)
    ensures object_ == null || name == None ==> k == None
    ensures object_ != null && name.Some? ==> k == Spec.FindKey(keys, Spec.KeyOf(name.value, caseSensitive), caseSensitive, 0)
    ensures k.Some? ==> k.value < |t.kids|
  {
    if object_ == null || name == None {
      return null, None;
    }
    assert allocated(All(t)) && allocated(Below(t.kids));
    ghost var key := Spec.KeyOf(name.value, caseSensitive);
    FirstChild(t);
    item := object_.child;
    ghost var i: nat := 0;
    while item != null
      invariant Joined(t) && HasKeys(t.kids, keys) && i <= |t.kids| && item == ChildOf(t.kids, i)
      invariant Spec.FindKey(keys, key, caseSensitive, 0) == Spec.FindKey(keys, key, caseSensitive, i)
      decreases |t.kids| - i
    {
      ChildAt(t, i);
      var found := Matches(name.value, item.key, caseSensitive);
      if found {
        return item, Some(i);
      }
      if caseSensitive && item.key == None {
        return null, None;
      }
      item := item.next;
      i := i + 1;
    }
    k := None;
  }

  // Whether a key is there and equals the name.
  method Matches(name: Bytes, key: Option<Bytes>, caseSensitive: bool) returns (equal: bool)
    ensures equal <==> key.Some? && Spec.KeyOf(key.value, caseSensitive) == Spec.KeyOf(name, caseSensitive)
  {
    if key == None {
      return false;
    }
    if caseSensitive {
      equal := name == key.value;
    } else {
      equal := EqualIgnoringCase(name, key.value);
    }
  }

  // cJSON_Compare of two items: identical ones are equal; otherwise their trees have no item in common.
  method CompareItems(a: Node, b: Node, caseSensitive: bool, ghost ta: Tree, ghost tb: Tree, ghost va: Json, ghost vb: Json)
      returns (r: bool)
    requires a == ta.root && b == tb.root && Holds(ta, va) && Holds(tb, vb)
    requires a != b ==> All(ta) !! All(tb)
    ensures r <==> a == b || Spec.Compare(va, vb, caseSensitive)
    decreases Height(ta) + Height(tb), 3
  {
    KidsTyped(ta);
    KidsTyped(tb);
    if a.kind != b.kind {
      return false;
    }
    if a == b {
      return true;
    }
    match a.kind
    case InvalidKind => r := false;
    case NullKind => r := true;
    case FalseKind => r := true;
    case TrueKind => r := true;
    case NumberKind => r := Spec.CompareDouble(a.valueDouble, b.valueDouble);
    case StringKind => r := a.valueString.value == b.valueString.value;
    case ArrayKind => r := CompareElements(a, b, caseSensitive, ta, tb, va.items, vb.items);
    case ObjectKind => r := CompareObjects(a, b, caseSensitive, ta, tb, va.members, vb.members);
  }

  // The two loops over the members of objects.
  method CompareObjects(a: Node, b: Node, caseSensitive: bool, ghost ta: Tree, ghost tb: Tree, ghost xs: seq<Member>, ghost ys: seq<Member>)
      returns (r: bool)
    requires a == ta.root && b == tb.root && HasMembers(ta, xs) && HasMembers(tb, ys) && All(ta) !! All(tb)
    ensures r <==> Spec.Covers(xs, 0, ys, caseSensitive) && Spec.Covers(ys, 0, xs, caseSensitive)
    decreases Height(ta) + Height(tb), 2
  {
    assert allocated(All(ta)) && allocated(All(tb));
    r := CoversMembers(a, b, caseSensitive, ta, tb, xs, ys);
    if r {
      r := CoversMembers(b, a, caseSensitive, tb, ta, ys, xs);
    }
  }

  // The loop over two arrays.
  method CompareElements(a: Node, b: Node, caseSensitive: bool, ghost ta: Tree, ghost tb: Tree, ghost xs: seq<Json>, ghost ys: seq<Json>)
      returns (r: bool)
    requires a == ta.root && b == tb.root && HasItems(ta, xs) && HasItems(tb, ys) && All(ta) !! All(tb)
    ensures r <==> Spec.CompareItems(xs, ys, 0, caseSensitive)
    decreases Height(ta) + Height(tb), 1
  {
    assert allocated(All(ta)) && allocated(All(tb));
    FirstItem(ta, xs);
    FirstItem(tb, ys);
    var aElement, bElement := a.child, b.child;
    ghost var i: nat := 0;
    while aElement != null && bElement != null
      invariant HasItems(ta, xs) && HasItems(tb, ys)
      invariant i <= |ta.kids| == |xs| && i <= |tb.kids| == |ys|
      invariant aElement == ChildOf(ta.kids, i) && bElement == ChildOf(tb.kids, i)
      invariant Spec.CompareItems(xs, ys, 0, caseSensitive) == Spec.CompareItems(xs, ys, i, caseSensitive)
      decreases |xs| - i
    {
      ghost var had := HasItems(ta, xs) && HasItems(tb, ys);
      var equal := CompareElement(aElement, bElement, caseSensitive, ta, tb, xs, ys, i);
      if !equal {
        return false;
      }
      assert had == (HasItems(ta, xs) && HasItems(tb, ys));
      ItemNext(ta, xs, i);
      ItemNext(tb, ys, i);
      aElement, bElement := aElement.next, bElement.next;
      i := i + 1;
    }
    r := aElement == bElement;
  }

  // One round of that loop.
  method CompareElement(aElement: Node, bElement: Node, caseSensitive: bool, ghost ta: Tree, ghost tb: Tree, ghost xs: seq<Json>, ghost ys: seq<Json>, ghost i: nat)
      returns (r: bool)
    requires HasItems(ta, xs) && HasItems(tb, ys) && All(ta) !! All(tb)
    requires i < |ta.kids| == |xs| && i < |tb.kids| == |ys| && aElement == ta.kids[i].root && bElement == tb.kids[i].root
    ensures r <==> Spec.Compare(xs[i], ys[i], caseSensitive)
    decreases Height(ta) + Height(tb), 0
  {
    ItemHolds(ta, xs, i);
    ItemHolds(tb, ys, i);
    KidSmaller(ta, i);
    KidSmaller(tb, i);
    r := CompareItems(aElement, bElement, caseSensitive, ta.kids[i], tb.kids[i], xs[i], ys[i]);
  }

  // The loop over the members of one object, each looked up in the other.
  method CoversMembers(a: Node, b: Node, caseSensitive: bool, ghost ta: Tree, ghost tb: Tree, ghost xs: seq<Member>, ghost ys: seq<Member>)
      returns (r: bool)
    requires a == ta.root && b == tb.root && HasMembers(ta, xs) && HasMembers(tb, ys) && All(ta) !! All(tb)
    ensures r <==> Spec.Covers(xs, 0, ys, caseSensitive)
    decreases Height(ta) + Height(tb), 1
  {
    assert allocated(All(ta)) && allocated(All(tb));
    FirstMember(ta, xs);
    var aElement := a.child;
    ghost var i: nat := 0;
    while aElement != null
      invariant HasMembers(ta, xs) && HasMembers(tb, ys)
      invariant i <= |ta.kids| == |xs| && aElement == ChildOf(ta.kids, i)
      invariant Spec.Covers(xs, 0, ys, caseSensitive) == Spec.Covers(xs, i, ys, caseSensitive)
      decreases |xs| - i
    {
      ghost var had := HasMembers(ta, xs) && HasMembers(tb, ys);
      var covered := CoversMember(aElement, b, caseSensitive, ta, tb, xs, ys, i);
      if !covered {
        return false;
      }
      assert had == (HasMembers(ta, xs) && HasMembers(tb, ys));
      MemberNext(ta, xs, i);
      aElement := aElement.next;
      i := i + 1;
    }
    r := true;
  }

  lemma MemberKeys(t: Tree, members: seq<Member>) returns (keys: seq<Option<Bytes>>)
    requires HasMembers(t, members)
    ensures Joined(t) && HasKeys(t.kids, keys) && |keys| == |members|
    ensures forall k :: 0 <= k < |keys| ==> keys[k] == Some(members[k].name)
  {
    MemberIs(t.kids, 0, 0);
    keys := seq(|members|, k requires 0 <= k < |members| => Some(members[k].name));
    forall k | 0 <= k < |t.kids| ensures t.kids[k].root.key == keys[k] {
      MemberHolds(t, members, k);
    }
  }

  // One round of that loop.
  method CoversMember(aElement: Node, b: Node, caseSensitive: bool, ghost ta: Tree, ghost tb: Tree, ghost xs: seq<Member>, ghost ys: seq<Member>, ghost i: nat)
      returns (r: bool)
    requires HasMembers(ta, xs) && HasMembers(tb, ys) && All(ta) !! All(tb) && b == tb.root
    requires i < |xs| && i < |ta.kids| && aElement == ta.kids[i].root
    ensures r <==> Spec.CoversOne(xs, i, ys, caseSensitive)
    decreases Height(ta) + Height(tb), 0
  {
    assert allocated(All(ta)) && allocated(All(tb));
    MemberHolds(ta, xs, i);
    ghost var keys := MemberKeys(tb, ys);
    ghost var k;
    var bElement;
    bElement, k := GetObjectItem(b, aElement.key, caseSensitive, tb, keys);
    Spec.FindsMember(keys, ys, Spec.KeyOf(xs[i].name, caseSensitive), caseSensitive, 0);
    if bElement == null {
      return false;
    }
    MemberHolds(ta, xs, i);
    MemberHolds(tb, ys, k.value);
    KidSmaller(ta, i);
    KidSmaller(tb, k.value);
    r := CompareItems(aElement, bElement, caseSensitive, ta.kids[i], tb.kids[k.value], xs[i].value, ys[k.value].value);
  }

  // cJSON_Compare
  method Compare(a: Node?, b: Node?, caseSensitive: bool, ghost ta: Tree, ghost tb: Tree, ghost va: Json, ghost vb: Json) returns (r: bool)
    requires a != null ==> a == ta.root && Holds(ta, va)
    requires b != null ==> b == tb.root && Holds(tb, vb)
    requires a != null && b != null && a != b ==> All(ta) !! All(tb)
    ensures r <==> a != null && b != null && (a == b || Spec.Compare(va, vb, caseSensitive))
  {
    if a == null || b == null {
      return false;
    }
    r := CompareItems(a, b, caseSensitive, ta, tb, va, vb);
  }

  // A recursive copy has the value of what it was copied from, so with integers it compares equal exactly
  // if the tree is consistent.
  lemma CopyComparesEqual(t: Tree, c: Tree, caseSensitive: bool)
    requires Same(t, c) && Typed(t) && Integers(Value(t))
    ensures Typed(c) && (Spec.Compare(Value(t), Value(c), caseSensitive) <==> Spec.Consistent(Value(t), caseSensitive))
  {
    SameValue(t, c);
    Spec.CompareIsCanonical(Value(t), Value(t), caseSensitive);
  }
}
