// Trees of cJSON items on the heap, and cJSON_Duplicate.
module NodeTrees {
  import opened ByteStrings
  import opened NodeLists

  // Which items form a tree; what is in them is on the heap.
  datatype Tree = Tree(root: Node, kids: seq<Tree>)

  ghost function Roots(kids: seq<Tree>): (r: seq<Node>)
    ensures |r| == |kids|
  {
    seq(|kids|, i requires 0 <= i < |kids| => kids[i].root)
  }

  // The items of a tree, and those below its root.
  ghost function All(t: Tree): set<Node>
    decreases t, 1
  {
    {t.root} + Below(t.kids)
  }

  ghost function Below(kids: seq<Tree>): set<Node>
    decreases kids, 0
  {
    set i, n | 0 <= i < |kids| && n in All(kids[i]) :: n
  }

  // No item occurs twice.
  ghost predicate Apart(t: Tree)
    decreases t, 1
  {
    t.root !in Below(t.kids) && ApartKids(t.kids)
  }

  ghost predicate ApartKids(kids: seq<Tree>)
    decreases kids, 0
  {
    && (forall i :: 0 <= i < |kids| ==> Apart(kids[i]))
    && (forall i, j :: 0 <= i < j < |kids| ==> All(kids[i]) !! All(kids[j]))
  }

  lemma RootBelow(kids: seq<Tree>, i: nat)
    requires i < |kids|
    ensures kids[i].root in All(kids[i]) && kids[i].root in Below(kids) && All(kids[i]) <= Below(kids)
  {
  }

  lemma RootsBelow(kids: seq<Tree>)
    ensures forall n :: n in Roots(kids) ==> n in Below(kids)
  {
    forall n | n in Roots(kids) ensures n in Below(kids) {
      var i :| 0 <= i < |kids| && Roots(kids)[i] == n;
      RootBelow(kids, i);
    }
  }

  // Every item has its children in its list.
  ghost predicate Joined(t: Tree)
    reads t.root`child, Below(t.kids)`child, Below(t.kids)`next, Below(t.kids)`prev
    decreases t, 1
  {
    RootsBelow(t.kids);
    Children(t.root, Roots(t.kids)) && JoinedKids(t.kids)
  }

  ghost predicate JoinedKids(kids: seq<Tree>)
    reads Below(kids)`child, Below(kids)`next, Below(kids)`prev
    decreases kids, 0
  {
    forall i :: 0 <= i < |kids| ==> (RootBelow(kids, i); Joined(kids[i]))
  }

  // Two items with the same contents, apart from where they are linked.
  ghost predicate SameData(a: Node, b: Node)
    reads a`kind, a`valueDouble, a`valueInt, a`valueString, a`key, b`kind, b`valueDouble, b`valueInt, b`valueString, b`key
  {
    a.kind == b.kind && a.valueDouble == b.valueDouble && a.valueInt == b.valueInt && a.valueString == b.valueString && a.key == b.key
  }

  // Structural equality.
  ghost predicate Same(a: Tree, b: Tree)
    reads All(a)`kind, All(a)`valueDouble, All(a)`valueInt, All(a)`valueString, All(a)`key
    reads All(b)`kind, All(b)`valueDouble, All(b)`valueInt, All(b)`valueString, All(b)`key
    decreases a, 1
  {
    SameData(a.root, b.root) && |a.kids| == |b.kids| && SameKids(a.kids, b.kids, |a.kids|)
  }

  // The same for the first n children.
  ghost predicate SameKids(a: seq<Tree>, b: seq<Tree>, n: nat)
    requires n <= |a| && n <= |b|
    reads Below(a)`kind, Below(a)`valueDouble, Below(a)`valueInt, Below(a)`valueString, Below(a)`key
    reads Below(b)`kind, Below(b)`valueDouble, Below(b)`valueInt, Below(b)`valueString, Below(b)`key
    decreases a, 0
  {
    forall i :: 0 <= i < n ==> (RootBelow(a, i); RootBelow(b, i); Same(a[i], b[i]))
  }

  // How many levels of children there are.
  ghost function Height(t: Tree): nat
    decreases t, 1
  {
    HeightFrom(t.kids, 0)
  }

  ghost function HeightFrom(kids: seq<Tree>, j: nat): nat
    requires j <= |kids|
    decreases kids, 0, |kids| - j
  {
    if j == |kids| then 0 else Max(1 + Height(kids[j]), HeightFrom(kids, j + 1))
  }

  lemma RootsMore(kids: seq<Tree>, c: Tree)
    ensures Roots(kids + [c]) == Roots(kids) + [c.root]
  {
  }

  lemma ApartMore(kids: seq<Tree>, c: Tree)
    requires ApartKids(kids) && Apart(c) && All(c) !! Below(kids)
    ensures ApartKids(kids + [c])
  {
  }

  // The copies made so far, linked below their new parent but not closed.
  ghost predicate Copies(parent: Node, done: seq<Tree>)
    reads parent, Below(done)
  {
    RootsBelow(done);
    Growing(parent, Roots(done)) && ApartKids(done) && JoinedKids(done) && parent !in Below(done)
  }

  // One more copy is linked.
  method LinkCopy(parent: Node, last: Node?, newchild: Node, ghost done: seq<Tree>, ghost c: Tree)
    requires Copies(parent, done) && last == (if done == [] then null else done[|done| - 1].root)
    requires newchild == c.root && Apart(c) && Joined(c) && newchild.next == null
    requires All(c) !! Below(done) && parent !in All(c)
    modifies parent`child, Below(done)`next, newchild`prev
    ensures Copies(parent, done + [c])
  {
    ghost var more := done + [c];
    RootsMore(done, c);
    RootsBelow(done);
    ApartMore(done, c);
    forall i | 0 <= i < |more| ensures Joined(more[i]) {
      KidJoined(done, c, i);
    }
    Extend(parent, last, newchild, Roots(done));
    forall i | 0 <= i < |more| ensures Joined(more[i]) {
      RootsOutside(more, i);
      Outside(done, c, parent, i);
      StaysJoined(more[i]);
    }
  }

  // A tree stays joined as long as the links below its root stay.
  twostate lemma StaysJoined(t: Tree)
    requires old(Joined(t)) && t.root.child == old(t.root.child)
    requires old(allocated(Below(t.kids))) && unchanged(Below(t.kids)`child, Below(t.kids)`next, Below(t.kids)`prev)
    ensures Joined(t)
  {
  }

  lemma Outside(done: seq<Tree>, c: Tree, parent: Node, i: nat)
    requires i <= |done| && parent !in Below(done) && parent !in All(c)
    ensures parent !in All((done + [c])[i])
  {
  }

  lemma KidJoined(done: seq<Tree>, c: Tree, i: nat)
    requires JoinedKids(done) && Joined(c) && i <= |done|
    ensures Joined((done + [c])[i])
  {
  }

  lemma RootsOutside(kids: seq<Tree>, i: nat)
    requires i < |kids| && ApartKids(kids)
    ensures forall n :: n in Roots(kids) ==> n !in Below(kids[i].kids)
  {
  }

  // Trees stay joined whatever happens to the links between their roots.
  twostate lemma StayJoined(done: seq<Tree>)
    requires old(JoinedKids(done)) && ApartKids(done) && old(allocated(Below(done))) && unchanged(Below(done)`child)
    requires forall n :: n in Below(done) && n !in Roots(done) ==> n.next == old(n.next) && n.prev == old(n.prev)
    ensures JoinedKids(done)
  {
    forall i | 0 <= i < |done| ensures Joined(done[i]) {
      RootsOutside(done, i);
      RootBelow(done, i);
      assert old(Joined(done[i]));
      StaysJoined(done[i]);
    }
  }

  lemma RootsDistinct(done: seq<Tree>)
    requires ApartKids(done)
    ensures Distinct(Roots(done))
  {
    forall i, j | 0 <= i < j < |done| ensures Roots(done)[i] != Roots(done)[j] {
      RootBelow(done, i);
      RootBelow(done, j);
      assert All(done[i]) !! All(done[j]);
    }
  }

  lemma SameMore(a: seq<Tree>, done: seq<Tree>, copy: Tree)
    requires |done| < |a| && SameKids(a, done, |done|) && Same(a[|done|], copy)
    ensures SameKids(a, done + [copy], |done| + 1)
  {
  }

  const CIRCULAR_LIMIT: nat := 10000

  lemma {:induction false} HeightOne(kids: seq<Tree>, j: nat, i: nat)
    requires j <= i < |kids|
    ensures 1 + Height(kids[i]) <= HeightFrom(kids, j)
    decreases i - j
  {
    if j < i {
      HeightOne(kids, j + 1, i);
    }
  }

  lemma HeightStep(kids: seq<Tree>, i: nat, depth: nat)
    requires i < |kids|
    ensures depth + HeightFrom(kids, i) <= CIRCULAR_LIMIT <==>
      depth + 1 + Height(kids[i]) <= CIRCULAR_LIMIT && depth + HeightFrom(kids, i + 1) <= CIRCULAR_LIMIT
  {
  }

  // The pointers of an item to its children.
  lemma ChildAt(t: Tree, i: nat)
    requires Joined(t) && i < |t.kids|
    ensures t.root.child == t.kids[0].root && Joined(t.kids[i])
    ensures t.kids[i].root.next == if i + 1 < |t.kids| then t.kids[i + 1].root else null
  {
    assert Roots(t.kids)[i].next == After(Roots(t.kids), i);
  }

  // cJSON_Duplicate_rec: the copy is made of new items only, and nothing else is changed.
  method DuplicateRec(item: Node, depth: nat, recurse: bool, ghost t: Tree) returns (newitem: Node?, ghost c: Tree)
    requires t.root == item && Apart(t) && Joined(t) && depth <= CIRCULAR_LIMIT
    ensures newitem == null <==> recurse && depth + Height(t) > 10000
    ensures newitem != null ==> c.root == newitem && fresh(All(c)) && Unlinked(newitem) && Apart(c) && Joined(c)
    ensures newitem != null ==> if recurse then Same(t, c) else c.kids == [] && SameData(item, newitem)
    decreases t, 3
  {
    assert allocated(All(t));
    newitem := new Node(item.kind);
    newitem.valueDouble := item.valueDouble;
    newitem.valueInt := item.valueInt;
    newitem.valueString := item.valueString;
    newitem.key := item.key;
    c := Tree(newitem, []);
    if recurse {
      var ok;
      ghost var done;
      ok, done := DuplicateKids(newitem, item, depth, t);
      if ok {
        c := Tree(newitem, done);
      } else {
        newitem := null;
      }
    }
  }

  // Its loop over the children.
  method DuplicateKids(newitem: Node, item: Node, depth: nat, ghost t: Tree) returns (ok: bool, ghost done: seq<Tree>)
    requires t.root == item && Apart(t) && Joined(t) && newitem !in All(t) && newitem.child == null && depth <= CIRCULAR_LIMIT
    modifies newitem`child
    ensures ok <==> depth + Height(t) <= CIRCULAR_LIMIT
    ensures ok ==> fresh(Below(done)) && Apart(Tree(newitem, done)) && Joined(Tree(newitem, done))
    ensures ok ==> |done| == |t.kids| && SameKids(t.kids, done, |done|)
    decreases t, 2
  {
    var child := item.child;
    var last: Node? := null;
    done := [];
    ghost var i: nat, made := 0, {};
    while child != null
      invariant Copied(newitem, t, done) && Joined(t) && Below(done) !! All(t) && made == Below(done) && fresh(made)
      invariant i == |done| && child == ChildOf(t.kids, i) && last == LastOf(done)
      invariant depth + Height(t) <= CIRCULAR_LIMIT <==> depth + HeightFrom(t.kids, i) <= CIRCULAR_LIMIT
      decreases |t.kids| - i
    {
      ChildAt(t, i);
      if depth >= CIRCULAR_LIMIT {
        return false, done;
      }
      ghost var more, added;
      HeightStep(t.kids, i, depth);
      last, more, added := CopyChild(newitem, last, child, depth, t, done);
      if last == null {
        return false, done;
      }
      done, made := more, made + added;
      child := child.next;
      i := i + 1;
    }
    CloseCopies(newitem, last, t, done);
    ok := true;
  }

  lemma BelowMore(done: seq<Tree>, copy: Tree)
    ensures Below(done + [copy]) == Below(done) + All(copy)
  {
    RootBelow(done + [copy], |done|);
    assert (done + [copy])[|done|] == copy;
    forall n | n in Below(done) ensures n in Below(done + [copy]) {
      var i :| 0 <= i < |done| && n in All(done[i]);
      assert (done + [copy])[i] == done[i];
    }
  }

  // The item that child points to after i rounds.
  ghost function ChildOf(kids: seq<Tree>, i: nat): Node? {
    if i < |kids| then kids[i].root else null
  }

  ghost function LastOf(done: seq<Tree>): Node? {
    if done == [] then null else done[|done| - 1].root
  }

  // The first children of t are copied.
  ghost predicate Copied(newitem: Node, t: Tree, done: seq<Tree>)
    reads newitem, Below(done), Below(t.kids)
  {
    |done| <= |t.kids| && Copies(newitem, done) && SameKids(t.kids, done, |done|)
  }

  // The list of the copies is closed.
  method CloseCopies(parent: Node, last: Node?, ghost t: Tree, ghost done: seq<Tree>)
    requires Copied(parent, t, done) && last == LastOf(done)
    modifies Below(done)`prev
    ensures Apart(Tree(parent, done)) && Joined(Tree(parent, done)) && SameKids(t.kids, done, |done|)
  {
    assert allocated(Below(done)) && allocated(Below(t.kids));
    RootsBelow(done);
    Close(parent, last, Roots(done));
    StayJoined(done);
    assert SameKids(t.kids, done, |done|);
  }

  // One round of that loop.
  method CopyChild(newitem: Node, last: Node?, child: Node, depth: nat, ghost t: Tree, ghost done: seq<Tree>)
      returns (newchild: Node?, ghost more: seq<Tree>, ghost added: set<Node>)
    requires |done| < |t.kids| && t.kids[|done|].root == child && Apart(t) && Joined(t) && depth < CIRCULAR_LIMIT
    requires Copied(newitem, t, done) && last == LastOf(done) && newitem !in All(t) && Below(done) !! All(t)
    modifies newitem`child, Below(done)`next
    ensures newchild == null <==> depth + 1 + Height(t.kids[|done|]) > CIRCULAR_LIMIT
    ensures newchild != null ==> |more| == |done| + 1 && newchild == LastOf(more) && Below(more) == Below(done) + added && fresh(added)
    ensures newchild != null ==> Copied(newitem, t, more) && Joined(t) && Below(more) !! All(t)
    ensures newchild != null ==> child.next == ChildOf(t.kids, |more|)
    decreases t, 1
  {
    ghost var copy;
    newchild, copy := CopyOne(newitem, last, child, depth, t, done);
    more, added := done + [copy], All(copy);
  }

  method CopyOne(newitem: Node, last: Node?, child: Node, depth: nat, ghost t: Tree, ghost done: seq<Tree>)
      returns (newchild: Node?, ghost copy: Tree)
    requires |done| < |t.kids| && t.kids[|done|].root == child && Apart(t) && Joined(t) && depth < CIRCULAR_LIMIT
    requires Copied(newitem, t, done) && last == LastOf(done) && newitem !in All(t) && Below(done) !! All(t)
    modifies newitem`child, Below(done)`next
    ensures newchild == null <==> depth + 1 + Height(t.kids[|done|]) > CIRCULAR_LIMIT
    ensures newchild != null ==> newchild == copy.root && fresh(All(copy)) && Below(done + [copy]) == Below(done) + All(copy)
    ensures newchild != null ==> Copied(newitem, t, done + [copy]) && Joined(t) && All(copy) !! All(t)
    ensures newchild != null ==> child.next == ChildOf(t.kids, |done| + 1)
    decreases t, 0
  {
    assert allocated(Below(done)) && allocated(All(t));
    newchild, copy := DuplicateRec(child, depth + 1, true, t.kids[|done|]);
    if newchild != null {
      AddCopy(newitem, last, newchild, t, done, copy);
      BelowMore(done, copy);
      ChildAt(t, |done|);
    }
  }

  method AddCopy(newitem: Node, last: Node?, newchild: Node, ghost t: Tree, ghost done: seq<Tree>, ghost copy: Tree)
    requires Copied(newitem, t, done) && last == LastOf(done) && |done| < |t.kids| && Joined(t)
    requires newchild == copy.root && Apart(copy) && Joined(copy) && newchild.next == null && Same(t.kids[|done|], copy)
    requires All(copy) !! Below(done) && newitem !in All(copy)
    requires newitem !in All(t) && Below(done) !! All(t) && All(copy) !! All(t)
    modifies newitem`child, Below(done)`next, newchild`prev
    ensures Copied(newitem, t, done + [copy]) && Joined(t)
  {
    ghost var kid := t.kids[|done|];
    assert allocated(Below(done)) && allocated(Below(t.kids)) && allocated(All(kid)) && allocated(All(copy));
    LinkCopy(newitem, last, newchild, done, copy);
    assert Same(kid, copy);
    assert SameKids(t.kids, done, |done|);
    SameMore(t.kids, done, copy);
    StaysJoined(t);
  }

  // cJSON_Duplicate
  method Duplicate(item: Node?, recurse: bool, ghost t: Tree) returns (newitem: Node?, ghost c: Tree)
    requires item != null ==> t.root == item && Apart(t) && Joined(t)
    ensures newitem == null <==> item == null || (recurse && Height(t) > 10000)
    ensures newitem != null ==> c.root == newitem && fresh(All(c)) && Unlinked(newitem) && Apart(c) && Joined(c)
    ensures newitem != null ==> if recurse then Same(t, c) else c.kids == [] && SameData(item, newitem)
  {
    if item == null {
      return null, t;
    }
    newitem, c := DuplicateRec(item, 0, recurse, t);
  }
}
