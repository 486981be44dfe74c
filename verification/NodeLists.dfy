// The children of a cJSON item: a doubly linked list whose head points back to the tail.
module NodeLists {
  import opened ByteStrings
  import opened JsonData

  datatype Kind = InvalidKind | NullKind | FalseKind | TrueKind | NumberKind | StringKind | ArrayKind | ObjectKind

  // cJSON
  class Node {
    var next: Node?
    var prev: Node?
    var child: Node?
    var kind: Kind
    var valueDouble: real
    var valueInt: int
    var valueString: Option<Bytes>
    var key: Option<Bytes>

    // cJSON_New_Item, with a type
    constructor (kind: Kind)
      ensures next == null && prev == null && child == null
      ensures this.kind == kind && valueDouble == 0.0 && valueInt == 0 && valueString == None && key == None
    {
      next, prev, child := null, null, null;
      this.kind, valueDouble, valueInt, valueString, key := kind, 0.0, 0, None, None;
    }
  }

  ghost predicate Distinct(kids: seq<Node>) {
    forall i, j :: 0 <= i < j < |kids| ==> kids[i] != kids[j]
  }

  // The node after index i, or null at the end.
  ghost function After(kids: seq<Node>, i: nat): Node?
    requires i < |kids|
  {
    if i + 1 < |kids| then kids[i + 1] else null
  }

  // The node before index i; the head has the tail before it.
  ghost function Before(kids: seq<Node>, i: nat): Node
    requires i < |kids|
  {
    if i > 0 then kids[i - 1] else kids[|kids| - 1]
  }

  // The list of the children: the tail ends it, and everyone knows the node before.
  ghost predicate Linked(kids: seq<Node>)
    reads kids`next, kids`prev
  {
    && (forall i {:trigger kids[i].next} :: 0 <= i < |kids| ==> kids[i].next == After(kids, i))
    && (forall i {:trigger kids[i].prev} :: 0 <= i < |kids| ==> kids[i].prev == Before(kids, i))
  }

  ghost predicate Children(parent: Node, kids: seq<Node>)
    reads parent`child, kids`next, kids`prev
  {
    && Distinct(kids) && parent !in kids && Linked(kids)
    && parent.child == if kids == [] then null else kids[0]
  }

  // Where next leads in k steps.
  ghost function Onward(kids: seq<Node>, node: Node?, k: nat): Node?
    requires Linked(kids) && (node == null || node in kids)
    reads kids`next, kids`prev
  {
    if k == 0 || node == null then node else Onward(kids, node.next, k - 1)
  }

  // Where prev leads in k steps.
  ghost function Backward(kids: seq<Node>, node: Node, k: nat): Node
    requires Linked(kids) && node in kids
    reads kids`next, kids`prev
  {
    if k == 0 then node else Backward(kids, node.prev, k - 1)
  }

  lemma {:induction false} OnwardFrom(kids: seq<Node>, i: nat, k: nat)
    requires Linked(kids) && i < |kids|
    ensures Onward(kids, kids[i], k) == if i + k < |kids| then kids[i + k] else null
    decreases k
  {
    if k > 0 && i + 1 < |kids| {
      OnwardFrom(kids, i + 1, k - 1);
    }
  }

  lemma {:induction false} BackwardFrom(kids: seq<Node>, i: nat, k: nat)
    requires Linked(kids) && i < |kids| && k <= i
    ensures Backward(kids, kids[i], k) == kids[i - k]
    decreases k
  {
    if k > 0 {
      BackwardFrom(kids, i - 1, k - 1);
    }
  }

  // The list reads the same from both ends: next leads from the first child through all of them to the end, and prev
  // leads from the first child to the last and through all of them back to the first.
  lemma BothWays(parent: Node, kids: seq<Node>, k: nat)
    requires Children(parent, kids) && k < |kids|
    ensures Onward(kids, parent.child, k) == kids[k] && Onward(kids, parent.child, |kids|) == null
    ensures Backward(kids, parent.child, k + 1) == kids[|kids| - 1 - k]
  {
    OnwardFrom(kids, 0, k);
    OnwardFrom(kids, 0, |kids|);
    BackwardFrom(kids, |kids| - 1, k);
  }

  ghost function If(node: Node?): set<Node> {
    if node == null then {} else {node}
  }

  // A node in no list, as cJSON_New_Item makes it or a detach leaves it.
  ghost predicate Unlinked(node: Node)
    reads node`next, node`prev
  {
    node.next == null && node.prev == null
  }

  // add_item_to_array
  method AddItemToArray(parent: Node?, item: Node?, ghost kids: seq<Node>) returns (ok: bool)
    requires (parent != null ==> Children(parent, kids)) && (item != null ==> item !in kids && Unlinked(item))
    modifies If(parent)`child, If(item)`next, If(item)`prev, kids`next, kids`prev
    ensures ok <==> parent != null && item != null && parent != item
    ensures parent != null ==> Children(parent, if ok then kids + [item] else kids)
  {
    if item == null || parent == null || parent == item {
      return false;
    }
    var child := parent.child;
    if child == null {
      parent.child := item;
      item.prev := item;
      item.next := null;
    } else {
      if child.prev != null {
        SuffixObject(child.prev, item);
        parent.child.prev := item;
      }
    }
    return true;
  }

  // suffix_object
  method SuffixObject(prev: Node, item: Node)
    modifies prev`next, item`prev
    ensures prev.next == item && item.prev == prev
  {
    prev.next := item;
    item.prev := prev;
  }

  // get_array_item
  method GetArrayItem(parent: Node?, index: nat, ghost kids: seq<Node>) returns (item: Node?)
    requires parent != null ==> Children(parent, kids)
    ensures item == if parent != null && index < |kids| then kids[index] else null
  {
    if parent == null {
      return null;
    }
    item := parent.child;
    var left := index;
    ghost var i := 0;
    while item != null && left > 0
      invariant 0 <= i <= |kids| && i + left == index
      invariant item == if i < |kids| then kids[i] else null
      decreases left
    {
      left := left - 1;
      item := item.next;
      i := i + 1;
    }
  }

  ghost function Inserted(s: seq<Node>, i: nat, x: Node): seq<Node> {
    if i < |s| then s[..i] + [x] + s[i..] else s + [x]
  }

  ghost function Removed(s: seq<Node>, i: nat): seq<Node>
    requires i < |s|
  {
    s[..i] + s[i + 1..]
  }

  // The index that has index i before it, going round.
  ghost function Following(kids: seq<Node>, i: nat): nat
    requires i < |kids|
  {
    if i + 1 < |kids| then i + 1 else 0
  }

  // The neighbours in a list from which index i was removed, in terms of the old list.
  lemma RemovedNeighbours(kids: seq<Node>, i: nat, k: nat)
    requires i < |kids| && k < |kids| - 1
    ensures var j := if k < i then k else k + 1;
      && Removed(kids, i)[k] == kids[j]
      && After(Removed(kids, i), k) == (if j + 1 == i then After(kids, i) else After(kids, j))
      && Before(Removed(kids, i), k) == (if j == Following(kids, i) then Before(kids, i) else Before(kids, j))
  {
    RemovedAt(kids, i, k);
    if k + 2 < |kids| {
      RemovedAt(kids, i, k + 1);
    }
    RemovedAt(kids, i, if k > 0 then k - 1 else |kids| - 2);
  }

  lemma RemovedAt(kids: seq<Node>, i: nat, k: nat)
    requires i < |kids| && k < |kids| - 1
    ensures |Removed(kids, i)| == |kids| - 1 && Removed(kids, i)[k] == kids[if k < i then k else k + 1]
  {
  }

  // cJSON_InsertItemInArray
  method InsertItemInArray(parent: Node?, which: int, newitem: Node?, ghost kids: seq<Node>) returns (ok: bool)
    requires (parent != null ==> Children(parent, kids)) && (newitem != null ==> newitem !in kids && newitem != parent && Unlinked(newitem))
    modifies If(parent)`child, kids`next, kids`prev, If(newitem)`next, If(newitem)`prev
    ensures ok <==> parent != null && which >= 0 && newitem != null
    ensures parent != null ==> Children(parent, if ok then Inserted(kids, which, newitem) else kids)
  {
    if which < 0 || newitem == null {
      return false;
    }
    var afterInserted := GetArrayItem(parent, which, kids);
    if afterInserted == null {
      ok := AddItemToArray(parent, newitem, kids);
      return;
    }
    assert afterInserted.prev == Before(kids, which);
    if afterInserted != parent.child && afterInserted.prev == null {
      return false;
    }
    LinkBefore(parent, afterInserted, newitem, kids, which);
    InsertedChildren(parent, kids, which, newitem);
    return true;
  }

  method LinkBefore(parent: Node, afterInserted: Node, newitem: Node, ghost kids: seq<Node>, ghost w: nat)
    requires Children(parent, kids) && w < |kids| && afterInserted == kids[w]
    requires newitem !in kids && newitem != parent
    modifies parent`child, kids`next, kids`prev, newitem`next, newitem`prev
    ensures Enters(kids, w, newitem) && parent.child == Inserted(kids, w, newitem)[0]
  {
    newitem.next := afterInserted;
    newitem.prev := afterInserted.prev;
    afterInserted.prev := newitem;
    if afterInserted == parent.child {
      parent.child := newitem;
    } else {
      newitem.prev.next := newitem;
    }
  }

  // x has been linked in before index w.
  ghost predicate Enters(kids: seq<Node>, w: nat, x: Node)
    requires w < |kids|
    reads x`next, x`prev, kids`next, kids`prev
  {
    && x.next == kids[w] && x.prev == Before(kids, w)
    && (forall j :: 0 <= j < |kids| ==> kids[j].next == if j + 1 == w then x else After(kids, j))
    && (forall j :: 0 <= j < |kids| ==> kids[j].prev == if j == w then x else Before(kids, j))
  }

  lemma InsertedChildren(parent: Node, kids: seq<Node>, w: nat, x: Node)
    requires w < |kids| && Enters(kids, w, x) && parent.child == Inserted(kids, w, x)[0]
    requires Distinct(kids) && parent !in kids && x !in kids && x != parent
    ensures Children(parent, Inserted(kids, w, x))
  {
    var list := Inserted(kids, w, x);
    forall k | 0 <= k < |list| ensures list[k].next == After(list, k) && list[k].prev == Before(list, k) {
      InsertedNeighbours(kids, w, x, k);
      assert k != w ==> list[k] in kids;
    }
  }

  // The neighbours in a list into which x was put at index w, in terms of the old list.
  lemma InsertedNeighbours(kids: seq<Node>, w: nat, x: Node, k: nat)
    requires w < |kids| && k <= |kids|
    ensures var list := Inserted(kids, w, x); var j := if k < w then k else k - 1;
      if k == w then list[k] == x && After(list, k) == kids[w] && Before(list, k) == Before(kids, w)
      else
        && list[k] == kids[j]
        && After(list, k) == (if j + 1 == w then x else After(kids, j))
        && Before(list, k) == (if j == w then x else Before(kids, j))
  {
  }

  // What an operation is told about the item: it is the child at index i, or it is in no list.
  ghost predicate Locates(kids: seq<Node>, item: Node, i: nat)
    reads item`next, item`prev
  {
    if item in kids then i < |kids| && item == kids[i] else Unlinked(item)
  }

  // cJSON_DetachItemViaPointer: an item that is no child is left alone.
  method DetachItemViaPointer(parent: Node?, item: Node?, ghost kids: seq<Node>, ghost i: nat) returns (detached: Node?)
    requires parent != null ==> Children(parent, kids) && (item != null ==> Locates(kids, item, i))
    modifies If(parent)`child, kids`next, kids`prev
    ensures detached == if parent != null && item in kids then item else null
    ensures parent != null ==> Children(parent, if detached != null then Removed(kids, i) else kids)
    ensures detached != null ==> Unlinked(detached)
  {
    if parent == null || item == null || (item != parent.child && item.prev == null) {
      return null;
    }
    Bypass(parent, item, kids, i);
    item.prev := null;
    item.next := null;
    RemovedChildren(parent, kids, i);
    return item;
  }

  // cJSON_DetachItemFromArray
  method DetachItemFromArray(parent: Node?, which: int, ghost kids: seq<Node>) returns (detached: Node?)
    requires parent != null ==> Children(parent, kids)
    modifies If(parent)`child, kids`next, kids`prev
    ensures detached == if parent != null && 0 <= which < |kids| then kids[which] else null
    ensures parent != null ==> Children(parent, if 0 <= which < |kids| then Removed(kids, which) else kids)
    ensures detached != null ==> Unlinked(detached)
  {
    if which < 0 {
      return null;
    }
    var item := GetArrayItem(parent, which, kids);
    detached := DetachItemViaPointer(parent, item, kids, which);
  }

  // What the pointers of an item tell about its index.
  lemma Position(parent: Node, item: Node, kids: seq<Node>, i: nat)
    requires Children(parent, kids) && i < |kids| && item == kids[i]
    ensures (item == parent.child <==> i == 0) && (item.next == null <==> i == |kids| - 1)
    ensures item.prev == Before(kids, i) && item.next == After(kids, i) && parent.child == kids[0]
    ensures parent.child.prev == kids[|kids| - 1]
  {
  }

  // The neighbours of the item are linked to each other.
  method Bypass(parent: Node, item: Node, ghost kids: seq<Node>, ghost i: nat)
    requires Children(parent, kids) && i < |kids| && item == kids[i]
    modifies parent`child, kids`next, kids`prev
    ensures Leaves(kids, i) && parent.child == if |kids| == 1 then null else kids[if i == 0 then 1 else 0]
  {
    Position(parent, item, kids, i);
    if item != parent.child {
      item.prev.next := item.next;
    }
    if item.next != null {
      item.next.prev := item.prev;
    }
    if item == parent.child {
      parent.child := item.next;
    } else if item.next == null {
      parent.child.prev := item.prev;
    }
  }

  // The item at index i is linked to by none of the others.
  ghost predicate Leaves(kids: seq<Node>, i: nat)
    requires i < |kids|
    reads kids`next, kids`prev
  {
    && (forall j :: 0 <= j < |kids| && j != i ==> kids[j].next == if j + 1 == i then After(kids, i) else After(kids, j))
    && (forall j :: 0 <= j < |kids| && j != i ==> kids[j].prev == if j == Following(kids, i) then Before(kids, i) else Before(kids, j))
  }

  lemma RemovedChildren(parent: Node, kids: seq<Node>, i: nat)
    requires i < |kids| && Leaves(kids, i) && Distinct(kids) && parent !in kids
    requires parent.child == if |kids| == 1 then null else kids[if i == 0 then 1 else 0]
    ensures Children(parent, Removed(kids, i))
  {
    forall k | 0 <= k < |kids| - 1
      ensures Removed(kids, i)[k].next == After(Removed(kids, i), k) && Removed(kids, i)[k].prev == Before(Removed(kids, i), k)
    {
      RemovedNeighbours(kids, i, k);
    }
  }

  // cJSON_ReplaceItemViaPointer, without the release of the old item
  method ReplaceItemViaPointer(parent: Node?, item: Node?, replacement: Node?, ghost kids: seq<Node>, ghost i: nat) returns (ok: bool)
    requires parent != null ==> Children(parent, kids) && (item != null ==> i < |kids| && item == kids[i])
    requires replacement != null && replacement != item ==> replacement !in kids && replacement != parent && Unlinked(replacement)
    modifies If(parent)`child, kids`next, kids`prev, If(replacement)`next, If(replacement)`prev
    ensures ok <==> parent != null && item != null && replacement != null
    ensures parent != null ==> Children(parent, if ok then kids[i := replacement] else kids)
    ensures ok && replacement != item ==> Unlinked(item)
  {
    if parent == null || parent.child == null || replacement == null || item == null {
      return false;
    }
    if replacement == item {
      assert kids[i := item] == kids;
      return true;
    }
    Relink(parent, item, replacement, kids, i);
    item.next := null;
    item.prev := null;
    ReplacedChildren(parent, kids, i, replacement);
    return true;
  }

  // cJSON_ReplaceItemInArray
  method ReplaceItemInArray(parent: Node?, which: int, newitem: Node?, ghost kids: seq<Node>) returns (ok: bool)
    requires (parent != null ==> Children(parent, kids)) && (newitem != null ==> newitem !in kids && newitem != parent && Unlinked(newitem))
    modifies If(parent)`child, kids`next, kids`prev, If(newitem)`next, If(newitem)`prev
    ensures ok <==> parent != null && 0 <= which < |kids| && newitem != null
    ensures parent != null ==> Children(parent, if ok then kids[which := newitem] else kids)
  {
    if which < 0 {
      return false;
    }
    var item := GetArrayItem(parent, which, kids);
    ok := ReplaceItemViaPointer(parent, item, newitem, kids, which);
  }

  // The replacement takes over the links of the item.
  method Relink(parent: Node, item: Node, replacement: Node, ghost kids: seq<Node>, ghost i: nat)
    requires Children(parent, kids) && i < |kids| && item == kids[i]
    requires replacement !in kids && replacement != parent
    modifies parent`child, kids`next, kids`prev, replacement`next, replacement`prev
    ensures Takes(kids, i, replacement) && parent.child == kids[i := replacement][0]
  {
    Position(parent, item, kids, i);
    replacement.next := item.next;
    replacement.prev := item.prev;
    if replacement.next != null {
      replacement.next.prev := replacement;
    }
    if parent.child == item {
      if parent.child.prev == parent.child {
        replacement.prev := replacement;
      }
      parent.child := replacement;
    } else {
      if replacement.prev != null {
        replacement.prev.next := replacement;
      }
      if replacement.next == null {
        parent.child.prev := replacement;
      }
    }
  }

  ghost predicate Takes(kids: seq<Node>, i: nat, x: Node)
    requires i < |kids|
    reads x`next, x`prev, kids`next, kids`prev
  {
    && x.next == After(kids, i) && x.prev == (if |kids| == 1 then x else Before(kids, i))
    && (forall j :: 0 <= j < |kids| && j != i ==> kids[j].next == if j + 1 == i then x else After(kids, j))
    && (forall j :: 0 <= j < |kids| && j != i ==> kids[j].prev == if j == Following(kids, i) then x else Before(kids, j))
  }

  lemma ReplacedChildren(parent: Node, kids: seq<Node>, i: nat, x: Node)
    requires i < |kids| && Takes(kids, i, x) && parent.child == kids[i := x][0]
    requires Distinct(kids) && parent !in kids && x !in kids && x != parent
    ensures Children(parent, kids[i := x])
  {
    var list := kids[i := x];
    forall k | 0 <= k < |list| ensures list[k].next == After(list, k) && list[k].prev == Before(list, k) {
      ReplacedNeighbours(kids, i, x, k);
    }
  }

  lemma ReplacedNeighbours(kids: seq<Node>, i: nat, x: Node, k: nat)
    requires i < |kids| && k < |kids|
    ensures var list := kids[i := x];
      if k == i then
        list[k] == x && After(list, k) == After(kids, i) && Before(list, k) == if |kids| == 1 then x else Before(kids, i)
      else
        && list[k] == kids[k]
        && After(list, k) == (if k + 1 == i then x else After(kids, k))
        && Before(list, k) == (if k == Following(kids, i) then x else Before(kids, k))
  {
  }

  // A list under construction, whose head does not know the tail yet: what the loops of parse_array,
  // parse_object, cJSON_CreateIntArray and cJSON_Duplicate_rec build.
  ghost predicate Chain(kids: seq<Node>)
    reads kids`next, kids`prev
  {
    && (forall i {:trigger kids[i].next} :: 0 <= i < |kids| ==> kids[i].next == After(kids, i))
    && (forall i {:trigger kids[i].prev} :: 0 < i < |kids| ==> kids[i].prev == kids[i - 1])
  }

  // A node goes behind the last one of a chain, if there is one.
  method Append(last: Node?, node: Node, ghost kids: seq<Node>)
    requires Distinct(kids) && Chain(kids) && last == (if kids == [] then null else kids[|kids| - 1])
    requires node !in kids && node.next == null
    modifies If(last)`next, node`prev
    ensures Chain(kids + [node])
  {
    if last != null {
      SuffixObject(last, node);
    }
  }

  // One round of the loops of cJSON_CreateIntArray and cJSON_Duplicate_rec.
  method Extend(parent: Node, last: Node?, node: Node, ghost kids: seq<Node>)
    requires Growing(parent, kids) && last == (if kids == [] then null else kids[|kids| - 1])
    requires node !in kids && node != parent && node.next == null
    modifies parent`child, kids`next, node`prev
    ensures Growing(parent, kids + [node])
  {
    if last == null {
      parent.child := node;
    } else {
      Append(last, node, kids);
    }
  }

  ghost predicate Growing(parent: Node, kids: seq<Node>)
    reads parent`child, kids`next, kids`prev
  {
    Distinct(kids) && parent !in kids && Chain(kids) && parent.child == if kids == [] then null else kids[0]
  }

  // The head learns the tail.
  method Close(parent: Node, last: Node?, ghost kids: seq<Node>)
    requires Growing(parent, kids) && last == (if kids == [] then null else kids[|kids| - 1])
    modifies kids`prev
    ensures Children(parent, kids)
  {
    if parent.child != null {
      parent.child.prev := last;
    }
  }

  // cJSON_CreateNumber
  method CreateNumber(num: real) returns (item: Node)
    ensures fresh(item) && Unlinked(item) && item.child == null
    ensures item.kind == NumberKind && item.valueDouble == num && item.valueInt == ToInt(num)
  {
    item := new Node(NumberKind);
    item.valueDouble := num;
    item.valueInt := ToInt(num);
  }

  // cJSON_CreateIntArray
  method CreateIntArray(numbers: Option<seq<int>>, count: int) returns (a: Node?, ghost kids: seq<Node>)
    requires numbers.Some? ==> count <= |numbers.value|
    ensures a == null <==> count < 0 || numbers == None
    ensures a != null ==> fresh(a) && fresh(kids) && a.kind == ArrayKind && Children(a, kids) && |kids| == count
    ensures a != null ==> forall i :: 0 <= i < count ==> IsNumber(kids[i], numbers.value[i])
  {
    kids := [];
    if count < 0 || numbers == None {
      return null, [];
    }
    a := new Node(ArrayKind);
    var i := 0;
    var p: Node? := null;
    while i < count
      invariant 0 <= i <= count && |kids| == i && fresh(a) && fresh(kids) && Growing(a, kids)
      invariant a.kind == ArrayKind && p == (if kids == [] then null else kids[i - 1])
      invariant forall k :: 0 <= k < i ==> IsNumber(kids[k], numbers.value[k])
    {
      var n := CreateNumber(numbers.value[i] as real);
      Extend(a, p, n, kids);
      p := n;
      kids := kids + [n];
      i := i + 1;
    }
    Close(a, p, kids);
  }

  ghost predicate IsNumber(node: Node, n: int)
    reads node`kind, node`valueDouble, node`valueInt
  {
    node.kind == NumberKind && node.valueDouble == n as real && node.valueInt == ToInt(n as real)
  }
}
