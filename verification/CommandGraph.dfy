// The command graph packet: nodes with a packed byte of flags and parts of variable length.
module CommandGraph {
  import opened Bits
  import opened ByteStrings
  import opened VarInts
  import opened PacketFields
  import opened PacketBuffers

  const COMMANDS_ID: nat := 0x10

  datatype NodeKind = Root | Literal(name: Bytes) | Argument(name: Bytes, parserId: nat)

  datatype Node = Node(kind: NodeKind, children: seq<nat>, executable: bool, redirect: Option<nat>, suggestion: Option<Bytes>)

  function Bit(b: bool): nat {
    if b then 1 else 0
  }

  function TypeOf(kind: NodeKind): nat {
    match kind
    case Root => 0
    case Literal(_) => 1
    case Argument(_, _) => 2
  }

  // Two bits for the type, one each for executable, redirect and suggestion.
  function FlagByte(n: Node): byte {
    TypeOf(n.kind) + 4 * Bit(n.executable) + 8 * Bit(n.redirect.Some?) + 16 * Bit(n.suggestion.Some?)
  }

  function StringText(s: Bytes): Bytes {
    VarInt(|s|) + s
  }

  function ChildrenText(children: seq<nat>, j: nat): Bytes
    requires j <= |children|
    decreases |children| - j
  {
    if j == |children| then [] else VarInt(children[j]) + ChildrenText(children, j + 1)
  }

  function KindText(kind: NodeKind): Bytes {
    match kind
    case Root => []
    case Literal(name) => StringText(name)
    case Argument(name, parserId) => StringText(name) + VarInt(parserId)
  }

  function SuggestionText(suggestion: Option<Bytes>): Bytes {
    match suggestion
    case None => []
    case Some(s) => StringText(s)
  }

  // What P_P_CB_Commands_write writes for a node. The index of a redirect is not written.
  function NodeText(n: Node): Bytes {
    [FlagByte(n)] + (VarInt(|n.children|) + (ChildrenText(n.children, 0) + (KindText(n.kind) + SuggestionText(n.suggestion))))
  }

  function NodesText(nodes: seq<Node>, j: nat): Bytes
    requires j <= |nodes|
    decreases |nodes| - j
  {
    if j == |nodes| then [] else NodeText(nodes[j]) + NodesText(nodes, j + 1)
  }

  function GraphText(nodes: seq<Node>, rootIdx: nat): Bytes {
    VarInt(COMMANDS_ID) + (VarInt(|nodes|) + (NodesText(nodes, 0) + VarInt(rootIdx)))
  }

  // ---- what is left of a graph ----

  // A redirect to nowhere in particular.
  function SomeRedirect(present: bool): Option<nat> {
    if present then Some(0) else None
  }

  // The node without the index of its redirect: whether it has one is kept.
  function Blurred(n: Node): Node {
    n.(redirect := SomeRedirect(n.redirect.Some?))
  }

  // The nodes from index j on, blurred.
  function BlurredAll(nodes: seq<Node>, j: nat): (r: seq<Node>)
    requires j <= |nodes|
    ensures |r| == |nodes| - j
    decreases |nodes| - j
  {
    if j == |nodes| then [] else [Blurred(nodes[j])] + BlurredAll(nodes, j + 1)
  }

  // ---- a decoder that follows the flags and reads what is written: nothing for a redirect ----

  function ReadNat(s: Bytes, p: nat): (r: Parsed<nat>)
    ensures r.Parsed? ==> p < r.next <= |s|
  {
    match ReadVarInt(s, p, 0, 0)
    case Rejected => Rejected
    case Parsed(v, q) => if v < 0 then Rejected else Parsed(v, q)
  }

  function ReadChildren(s: Bytes, p: nat, n: nat): (r: Parsed<seq<nat>>)
    requires p <= |s|
    ensures r.Parsed? ==> p <= r.next <= |s|
    decreases n
  {
    if n == 0 then Parsed([], p)
    else
      match ReadNat(s, p)
      case Rejected => Rejected
      case Parsed(child, q) =>
        match ReadChildren(s, q, n - 1)
        case Rejected => Rejected
        case Parsed(children, e) => Parsed([child] + children, e)
  }

  function ReadKind(s: Bytes, p: nat, type_: nat): (r: Parsed<NodeKind>)
    requires p <= |s|
    ensures r.Parsed? ==> p <= r.next <= |s|
  {
    if type_ == 0 then Parsed(Root, p)
    else
      match ReadText(s, p)
      case Rejected => Rejected
      case Parsed(name, q) =>
        if type_ == 1 then Parsed(Literal(name), q)
        else if type_ == 2 then
          match ReadNat(s, q) case Rejected => Rejected case Parsed(id, e) => Parsed(Argument(name, id), e)
        else Rejected
  }

  function ReadSuggestion(s: Bytes, p: nat, present: bool): (r: Parsed<Option<Bytes>>)
    requires p <= |s|
    ensures r.Parsed? ==> p <= r.next <= |s|
  {
    if !present then Parsed(None, p)
    else match ReadText(s, p) case Rejected => Rejected case Parsed(t, q) => Parsed(Some(t), q)
  }

  function ReadNode(s: Bytes, p: nat): (r: Parsed<Node>)
    ensures r.Parsed? ==> p < r.next <= |s|
  {
    if p >= |s| then Rejected
    else
      var f := s[p];
      match ReadNat(s, p + 1)
      case Rejected => Rejected
      case Parsed(count, p1) =>
        match ReadChildren(s, p1, count)
        case Rejected => Rejected
        case Parsed(children, p2) =>
          match ReadKind(s, p2, f % 4)
          case Rejected => Rejected
          case Parsed(kind, p3) =>
            match ReadSuggestion(s, p3, f / 16 % 2 == 1)
            case Rejected => Rejected
            case Parsed(suggestion, p4) =>
              Parsed(Node(kind, children, f / 4 % 2 == 1, SomeRedirect(f / 8 % 2 == 1), suggestion), p4)
  }

  function ReadNodes(s: Bytes, p: nat, n: nat): (r: Parsed<seq<Node>>)
    requires p <= |s|
    ensures r.Parsed? ==> p <= r.next <= |s|
    decreases n
  {
    if n == 0 then Parsed([], p)
    else
      match ReadNode(s, p)
      case Rejected => Rejected
      case Parsed(node, q) =>
        match ReadNodes(s, q, n - 1)
        case Rejected => Rejected
        case Parsed(nodes, e) => Parsed([node] + nodes, e)
  }

  // The nodes and the index of the root.
  function ReadGraph(s: Bytes, p: nat): Parsed<(seq<Node>, nat)> {
    match ReadNat(s, p)
    case Rejected => Rejected
    case Parsed(id, p1) =>
      if id != COMMANDS_ID then Rejected
      else
        match ReadNat(s, p1)
        case Rejected => Rejected
        case Parsed(count, p2) =>
          match ReadNodes(s, p2, count)
          case Rejected => Rejected
          case Parsed(nodes, p3) =>
            match ReadNat(s, p3) case Rejected => Rejected case Parsed(root, p4) => Parsed((nodes, root), p4)
  }

  // ---- the graphs it is for ----

  predicate FitsChildren(children: seq<nat>, j: nat)
    requires j <= |children|
    decreases |children| - j
  {
    j < |children| ==> children[j] < VALUE_LIMIT && FitsChildren(children, j + 1)
  }

  predicate FitsKind(kind: NodeKind) {
    match kind
    case Root => true
    case Literal(name) => |name| < VALUE_LIMIT
    case Argument(name, parserId) => |name| < VALUE_LIMIT && parserId < VALUE_LIMIT
  }

  predicate FitsNode(n: Node) {
    && |n.children| < VALUE_LIMIT && FitsChildren(n.children, 0) && FitsKind(n.kind)
    && (n.suggestion.Some? ==> |n.suggestion.value| < VALUE_LIMIT)
  }

  // No count and no index is beyond an int.
  predicate FitsNodes(nodes: seq<Node>, j: nat)
    requires j <= |nodes|
    decreases |nodes| - j
  {
    j < |nodes| ==> FitsNode(nodes[j]) && FitsNodes(nodes, j + 1)
  }

  // Counts and indices are ints in all of the graph.
  predicate FitsGraph(nodes: seq<Node>, rootIdx: nat) {
    |nodes| < VALUE_LIMIT && rootIdx < VALUE_LIMIT && FitsNodes(nodes, 0)
  }

  predicate NoRedirects(nodes: seq<Node>) {
    forall k :: 0 <= k < |nodes| ==> nodes[k].redirect == None
  }

  // ---- decoding what was written ----

  lemma NatAt(s: Bytes, p: nat, v: nat)
    requires v < VALUE_LIMIT && At(s, p, VarInt(v))
    ensures ReadNat(s, p) == Parsed(v, p + |VarInt(v)|)
  {
    ReadsVarInt(s, p, v);
  }

  lemma {:induction false} ChildrenAt(s: Bytes, p: nat, e: nat, children: seq<nat>, j: nat, b: Bytes)
    requires j <= |children| && FitsChildren(children, j)
    requires b == ChildrenText(children, j) && At(s, p, b) && e == p + |b|
    ensures ReadChildren(s, p, |children| - j) == Parsed(children[j..], e)
    decreases |children| - j
  {
    if j < |children| {
      var first, rest := VarInt(children[j]), ChildrenText(children, j + 1);
      AtSplit(s, p, first, rest);
      NatAt(s, p, children[j]);
      ChildrenAt(s, p + |first|, e, children, j + 1, rest);
      assert children[j..] == [children[j]] + children[j + 1..];
    } else {
      assert children[j..] == [];
    }
  }

  lemma KindAt(s: Bytes, p: nat, kind: NodeKind, b: Bytes)
    requires FitsKind(kind) && b == KindText(kind) && At(s, p, b)
    ensures ReadKind(s, p, TypeOf(kind)) == Parsed(kind, p + |b|)
  {
    match kind
    case Root =>
    case Literal(name) => TextAt(s, p, name);
    case Argument(name, parserId) =>
      AtSplit(s, p, StringText(name), VarInt(parserId));
      TextAt(s, p, name);
      NatAt(s, p + |StringText(name)|, parserId);
  }

  lemma SuggestionAt(s: Bytes, p: nat, suggestion: Option<Bytes>, b: Bytes)
    requires b == SuggestionText(suggestion) && At(s, p, b) && (suggestion.Some? ==> |suggestion.value| < VALUE_LIMIT)
    ensures ReadSuggestion(s, p, suggestion.Some?) == Parsed(suggestion, p + |b|)
  {
    if suggestion.Some? {
      TextAt(s, p, suggestion.value);
    }
  }

  lemma FlagsBack(n: Node)
    ensures FlagByte(n) % 4 == TypeOf(n.kind) && FlagByte(n) / 4 % 2 == Bit(n.executable)
    ensures FlagByte(n) / 8 % 2 == Bit(n.redirect.Some?) && FlagByte(n) / 16 % 2 == Bit(n.suggestion.Some?)
  {
  }

  // One step of reading a node, given what its parts are.
  lemma StepNode(s: Bytes, p: nat, n: Node, p1: nat, p2: nat, p3: nat, p4: nat)
    requires p < |s| && s[p] == FlagByte(n) && p2 <= |s| && p3 <= |s|
    requires ReadNat(s, p + 1) == Parsed(|n.children|, p1)
    requires p1 <= |s| && ReadChildren(s, p1, |n.children|) == Parsed(n.children, p2)
    requires ReadKind(s, p2, TypeOf(n.kind)) == Parsed(n.kind, p3)
    requires ReadSuggestion(s, p3, n.suggestion.Some?) == Parsed(n.suggestion, p4)
    ensures ReadNode(s, p) == Parsed(Blurred(n), p4)
  {
    FlagsBack(n);
  }

  lemma NodePieces(s: Bytes, p: nat, flags: Bytes, count: Bytes, children: Bytes, kind: Bytes, suggestion: Bytes)
    requires At(s, p, flags + (count + (children + (kind + suggestion))))
    ensures At(s, p, flags) && At(s, p + |flags|, count) && At(s, p + |flags| + |count|, children)
    ensures At(s, p + |flags| + |count| + |children|, kind)
    ensures At(s, p + |flags| + |count| + |children| + |kind|, suggestion)
  {
    AtSplit(s, p, flags, count + (children + (kind + suggestion)));
    AtSplit(s, p + |flags|, count, children + (kind + suggestion));
    AtSplit(s, p + |flags| + |count|, children, kind + suggestion);
    AtSplit(s, p + |flags| + |count| + |children|, kind, suggestion);
  }

  lemma NodeAt(s: Bytes, p: nat, n: Node, e: nat)
    requires FitsNode(n) && At(s, p, NodeText(n)) && e == p + |NodeText(n)|
    ensures ReadNode(s, p) == Parsed(Blurred(n), e)
  {
    var flags, count, children, kind, suggestion := [FlagByte(n)], VarInt(|n.children|), ChildrenText(n.children, 0), KindText(n.kind), SuggestionText(n.suggestion);
    NodePieces(s, p, flags, count, children, kind, suggestion);
    var p1 := p + 1 + |count|;
    var p2 := p1 + |children|;
    var p3 := p2 + |kind|;
    AtByte(s, p, FlagByte(n));
    NumberAt(s, p + 1, |n.children|, count);
    WholeChildrenAt(s, p1, p2, n.children, children);
    KindAt(s, p2, n.kind, kind);
    SuggestionAt(s, p3, n.suggestion, suggestion);
    StepNode(s, p, n, p1, p2, p3, e);
  }

  lemma WholeChildrenAt(s: Bytes, p: nat, e: nat, children: seq<nat>, b: Bytes)
    requires FitsChildren(children, 0) && b == ChildrenText(children, 0) && At(s, p, b) && e == p + |b|
    ensures ReadChildren(s, p, |children|) == Parsed(children, e)
  {
    ChildrenAt(s, p, e, children, 0, b);
    assert children[0..] == children;
  }

  lemma {:induction false} NodesAt(s: Bytes, p: nat, e: nat, nodes: seq<Node>, j: nat, b: Bytes)
    requires j <= |nodes| && FitsNodes(nodes, j)
    requires b == NodesText(nodes, j) && At(s, p, b) && e == p + |b|
    ensures ReadNodes(s, p, |nodes| - j) == Parsed(BlurredAll(nodes, j), e)
    decreases |nodes| - j
  {
    var n := j + 1;
    if n <= |nodes| {
      var q, rest := FirstNode(s, p, e, nodes, j, b);
      NodesAt(s, q, e, nodes, n, rest);
    }
  }

  lemma FirstNode(s: Bytes, p: nat, e: nat, nodes: seq<Node>, j: nat, b: Bytes) returns (q: nat, rest: Bytes)
    requires j < |nodes| && FitsNode(nodes[j])
    requires b == NodesText(nodes, j) && At(s, p, b) && e == p + |b|
    ensures ReadNode(s, p) == Parsed(Blurred(nodes[j]), q)
    ensures rest == NodesText(nodes, j + 1) && At(s, q, rest) && e == q + |rest|
  {
    var first := NodeText(nodes[j]);
    rest := NodesText(nodes, j + 1);
    q := p + |first|;
    AtSplit(s, p, first, rest);
    NodeAt(s, p, nodes[j], q);
  }

  // Everything of a graph but the indices of its redirects is recovered from its bytes, which end where they were
  // written to end.
  lemma GraphRoundTrip(nodes: seq<Node>, rootIdx: nat, suffix: Bytes)
    requires FitsGraph(nodes, rootIdx)
    ensures ReadGraph(GraphText(nodes, rootIdx) + suffix, 0) == Parsed((BlurredAll(nodes, 0), rootIdx), |GraphText(nodes, rootIdx)|)
  {
    var s := GraphText(nodes, rootIdx) + suffix;
    GraphAt(s, GraphText(nodes, rootIdx), nodes, rootIdx);
  }

  lemma GraphAt(s: Bytes, b: Bytes, nodes: seq<Node>, rootIdx: nat)
    requires FitsGraph(nodes, rootIdx) && b == GraphText(nodes, rootIdx) && At(s, 0, b)
    ensures ReadGraph(s, 0) == Parsed((BlurredAll(nodes, 0), rootIdx), |b|)
  {
    var p1, p2, p3, list := GraphParts(s, b, nodes, rootIdx);
    NodesAt(s, p2, p3, nodes, 0, list);
  }

  // The numbers of a graph and where its nodes stand.
  lemma GraphParts(s: Bytes, b: Bytes, nodes: seq<Node>, rootIdx: nat) returns (p1: nat, p2: nat, p3: nat, list: Bytes)
    requires |nodes| < VALUE_LIMIT && rootIdx < VALUE_LIMIT && b == GraphText(nodes, rootIdx) && At(s, 0, b)
    ensures ReadNat(s, 0) == Parsed(COMMANDS_ID, p1) && ReadNat(s, p1) == Parsed(|nodes|, p2)
    ensures list == NodesText(nodes, 0) && At(s, p2, list) && p3 == p2 + |list| && ReadNat(s, p3) == Parsed(rootIdx, |b|)
  {
    var id, count, root := VarInt(COMMANDS_ID), VarInt(|nodes|), VarInt(rootIdx);
    list := NodesText(nodes, 0);
    GraphPieces(s, id, count, list, root);
    p1 := |id|;
    p2 := p1 + |count|;
    p3 := p2 + |list|;
    NumberAt(s, 0, COMMANDS_ID, id);
    NumberAt(s, p1, |nodes|, count);
    NumberAt(s, p3, rootIdx, root);
  }

  lemma NumberAt(s: Bytes, p: nat, v: nat, b: Bytes)
    requires v < VALUE_LIMIT && b == VarInt(v) && At(s, p, b)
    ensures ReadNat(s, p) == Parsed(v, p + |b|)
  {
    NatAt(s, p, v);
  }

  lemma GraphPieces(s: Bytes, id: Bytes, count: Bytes, list: Bytes, root: Bytes)
    requires At(s, 0, id + (count + (list + root)))
    ensures At(s, 0, id) && At(s, |id|, count) && At(s, |id| + |count|, list) && At(s, |id| + |count| + |list|, root)
  {
    AtSplit(s, 0, id, count + (list + root));
    AtSplit(s, |id|, count, list + root);
    AtSplit(s, |id| + |count|, list, root);
  }

  // ---- the bytes with the numbers of the protocol ----

  // The packet starts with its id, then come the number of nodes, the nodes and the index of the root.
  lemma GraphBytes(nodes: seq<Node>, rootIdx: nat)
    ensures GraphText(nodes, rootIdx) == [0x10] + VarInt(|nodes|) + NodesText(nodes, 0) + VarInt(rootIdx)
    ensures GraphText(nodes, rootIdx)[0] == 0x10
  {
    assert VarInt(0x10) == [0x10];
  }

  // The first byte of a node: 0, 1 or 2 for a root, a literal or an argument, and 4, 8 and 16 for being executable,
  // having a redirect and having a suggestion.
  lemma NodeBytes(n: Node)
    ensures NodeText(n)[0] == (match n.kind case Root => 0 case Literal(_) => 1 case Argument(_, _) => 2)
      + (if n.executable then 4 else 0) + (if n.redirect.Some? then 8 else 0) + (if n.suggestion.Some? then 16 else 0)
    ensures NodeText(n)[1..] == VarInt(|n.children|) + (ChildrenText(n.children, 0) + (KindText(n.kind) + SuggestionText(n.suggestion)))
  {
  }

  // A name has its length in front, and the parser of an argument comes behind its name.
  lemma KindBytes(name: Bytes, parserId: nat)
    ensures KindText(Root) == [] && KindText(Literal(name)) == VarInt(|name|) + name
    ensures KindText(Argument(name, parserId)) == VarInt(|name|) + name + VarInt(parserId)
    ensures SuggestionText(None) == [] && SuggestionText(Some(name)) == VarInt(|name|) + name
  {
  }

  // ---- which graphs share their bytes ----

  lemma {:induction false} BlurredText(nodes: seq<Node>, j: nat)
    requires j <= |nodes|
    ensures NodesText(BlurredAll(nodes, j), 0) == NodesText(nodes, j)
    decreases |nodes| - j
  {
    var n := j + 1;
    if n <= |nodes| {
      BlurredText(nodes, n);
      BlurredNode(nodes[j]);
      ConsText(Blurred(nodes[j]), BlurredAll(nodes, n));
    }
  }

  lemma BlurredNode(n: Node)
    ensures NodeText(Blurred(n)) == NodeText(n)
  {
  }

  lemma ConsText(first: Node, rest: seq<Node>)
    ensures NodesText([first] + rest, 0) == NodeText(first) + NodesText(rest, 0)
  {
    TailText(rest, [first] + rest, 0, 1);
  }

  lemma {:induction false} TailText(rest: seq<Node>, all: seq<Node>, j: nat, k: nat)
    requires k == j + 1 <= |all| == |rest| + 1 && forall i :: 0 <= i < |rest| ==> rest[i] == all[i + 1]
    ensures NodesText(all, k) == NodesText(rest, j)
    decreases |rest| - j
  {
    var m := k + 1;
    if m <= |all| {
      assert rest[j] == all[k];
      TailText(rest, all, k, m);
    }
  }

  // Two graphs have the same bytes exactly if they differ in nothing but the indices of their redirects.
  lemma SameBytes(a: seq<Node>, x: nat, b: seq<Node>, y: nat)
    requires FitsGraph(a, x) && FitsGraph(b, y)
    ensures GraphText(a, x) == GraphText(b, y) <==> x == y && BlurredAll(a, 0) == BlurredAll(b, 0)
  {
    GraphRoundTrip(a, x, []);
    GraphRoundTrip(b, y, []);
    BlurredText(a, 0);
    BlurredText(b, 0);
    assert GraphText(a, x) + [] == GraphText(a, x) && GraphText(b, y) + [] == GraphText(b, y);
  }

  lemma {:induction false} BlurredAt(nodes: seq<Node>, j: nat, k: nat)
    requires j <= k < |nodes|
    ensures BlurredAll(nodes, j)[k - j] == Blurred(nodes[k])
    decreases k - j
  {
    if j < k {
      BlurredAt(nodes, j + 1, k);
    }
  }

  lemma SameBlurred(a: seq<Node>, b: seq<Node>)
    requires BlurredAll(a, 0) == BlurredAll(b, 0) && NoRedirects(a)
    ensures a == b
  {
    forall k | 0 <= k < |a| ensures a[k] == b[k] {
      BlurredAt(a, 0, k);
      BlurredAt(b, 0, k);
    }
  }

  // The graph with the redirect at j leading elsewhere.
  function Redirected(nodes: seq<Node>, j: nat, i: nat): seq<Node>
    requires j < |nodes|
  {
    nodes[j := nodes[j].(redirect := Some(i))]
  }

  lemma {:induction false} RedirectedBlurs(nodes: seq<Node>, j: nat, i: nat, k: nat)
    requires j < |nodes| && nodes[j].redirect.Some? && k <= |nodes|
    ensures BlurredAll(Redirected(nodes, j, i), k) == BlurredAll(nodes, k)
    ensures FitsNodes(nodes, k) ==> FitsNodes(Redirected(nodes, j, i), k)
    decreases |nodes| - k
  {
    if k < |nodes| {
      RedirectedBlurs(nodes, j, i, k + 1);
    }
  }

  // A redirect is lost: the graphs whose redirect leads elsewhere have the same bytes.
  lemma RedirectLost(nodes: seq<Node>, j: nat, i: nat, rootIdx: nat)
    requires j < |nodes| && nodes[j].redirect.Some? && nodes[j].redirect != Some(i)
    ensures Redirected(nodes, j, i) != nodes && GraphText(Redirected(nodes, j, i), rootIdx) == GraphText(nodes, rootIdx)
  {
    assert Redirected(nodes, j, i)[j] != nodes[j];
    RedirectedBlurs(nodes, j, i, 0);
    BlurredText(nodes, 0);
    BlurredText(Redirected(nodes, j, i), 0);
  }

  // So the bytes of a graph determine it exactly if it has no redirect.
  lemma BytesDetermine(nodes: seq<Node>, rootIdx: nat)
    requires FitsGraph(nodes, rootIdx)
    ensures NoRedirects(nodes) <==>
      forall others: seq<Node>, y: nat :: FitsGraph(others, y) && GraphText(others, y) == GraphText(nodes, rootIdx) ==> others == nodes && y == rootIdx
  {
    if NoRedirects(nodes) {
      forall others: seq<Node>, y: nat | FitsGraph(others, y) && GraphText(others, y) == GraphText(nodes, rootIdx)
        ensures others == nodes && y == rootIdx
      {
        SameBytes(nodes, rootIdx, others, y);
        SameBlurred(nodes, others);
      }
    } else {
      var j :| 0 <= j < |nodes| && nodes[j].redirect != None;
      var i := nodes[j].redirect.value + 1;
      RedirectLost(nodes, j, i, rootIdx);
      RedirectedBlurs(nodes, j, i, 0);
    }
  }

  // ---- P_P_CB_Commands_write as it runs ----

  lemma FlagBits(n: Node)
    ensures Or(Or(Or(TypeOf(n.kind), Shl(Bit(n.executable), 2)), Shl(Bit(n.redirect.Some?), 3)), Shl(Bit(n.suggestion.Some?), 4))
         == FlagByte(n)
  {
    var e, r, g := Bit(n.executable), Bit(n.redirect.Some?), Bit(n.suggestion.Some?);
    assert Pow2(2) == 4 && Pow2(3) == 8 && Pow2(4) == 16;
    ShlMul(e, 2);
    ShlMul(r, 3);
    ShlMul(g, 4);
    OrAdd(e, TypeOf(n.kind), 2);
    OrAdd(r, TypeOf(n.kind) + 4 * e, 3);
    OrAdd(g, TypeOf(n.kind) + 4 * e + 8 * r, 4);
  }

  method WriteNode(pb: PacketBuilder, n: Node)
    requires pb.Valid() && FitsNode(n)
    modifies pb, pb.bytes
    ensures pb.Valid() && (pb.bytes == old(pb.bytes) || fresh(pb.bytes))
    ensures pb.Contents() == old(pb.Contents()) + NodeText(n)
  {
    FlagBits(n);
    var flags: byte := Or(Or(Or(TypeOf(n.kind), Shl(Bit(n.executable), 2)), Shl(Bit(n.redirect.Some?), 3)), Shl(Bit(n.suggestion.Some?), 4));
    pb.WriteU8(flags);
    pb.WriteVarInt(|n.children|);
    WriteChildren(pb, n.children);
    WriteKind(pb, n.kind);
    WriteSuggestion(pb, n.suggestion);
    RegroupFive(old(pb.Contents()), [FlagByte(n)], VarInt(|n.children|), ChildrenText(n.children, 0), KindText(n.kind), SuggestionText(n.suggestion));
  }

  method WriteKind(pb: PacketBuilder, kind: NodeKind)
    requires pb.Valid() && FitsKind(kind)
    modifies pb, pb.bytes
    ensures pb.Valid() && (pb.bytes == old(pb.bytes) || fresh(pb.bytes))
    ensures pb.Contents() == old(pb.Contents()) + KindText(kind)
  {
    match kind {
      case Root => assert pb.Contents() + [] == pb.Contents();
      case Literal(name) => pb.WriteText(name);
      case Argument(name, parserId) =>
        Regroup(pb.Contents(), StringText(name), VarInt(parserId));
        pb.WriteText(name);
        pb.WriteVarInt(parserId);
    }
  }

  method WriteSuggestion(pb: PacketBuilder, suggestion: Option<Bytes>)
    requires pb.Valid() && (suggestion.Some? ==> |suggestion.value| < VALUE_LIMIT)
    modifies pb, pb.bytes
    ensures pb.Valid() && (pb.bytes == old(pb.bytes) || fresh(pb.bytes))
    ensures pb.Contents() == old(pb.Contents()) + SuggestionText(suggestion)
  {
    if suggestion.Some? {
      pb.WriteText(suggestion.value);
    } else {
      assert pb.Contents() + [] == pb.Contents();
    }
  }

  lemma RegroupFive(c: Bytes, a: Bytes, b: Bytes, d: Bytes, e: Bytes, f: Bytes)
    ensures c + (a + (b + (d + (e + f)))) == c + a + b + d + e + f
  {
  }

  method WriteChildren(pb: PacketBuilder, children: seq<nat>)
    requires pb.Valid() && FitsChildren(children, 0)
    modifies pb, pb.bytes
    ensures pb.Valid() && (pb.bytes == old(pb.bytes) || fresh(pb.bytes))
    ensures pb.Contents() == old(pb.Contents()) + ChildrenText(children, 0)
  {
    var j := 0;
    while j < |children|
      invariant 0 <= j <= |children| && FitsChildren(children, j)
      invariant pb.Valid() && (pb.bytes == old(pb.bytes) || fresh(pb.bytes))
      invariant pb.Contents() + ChildrenText(children, j) == old(pb.Contents()) + ChildrenText(children, 0)
    {
      Regroup(pb.Contents(), VarInt(children[j]), ChildrenText(children, j + 1));
      pb.WriteVarInt(children[j]);
      j := j + 1;
    }
    assert pb.Contents() + [] == pb.Contents();
  }

  method WriteCommands(pb: PacketBuilder, nodes: seq<Node>, rootIdx: nat)
    requires pb.Valid() && FitsGraph(nodes, rootIdx)
    modifies pb, pb.bytes
    ensures pb.Valid() && (pb.bytes == old(pb.bytes) || fresh(pb.bytes))
    ensures pb.Contents() == old(pb.Contents()) + GraphText(nodes, rootIdx)
  {
    pb.WriteVarInt(COMMANDS_ID);
    pb.WriteVarInt(|nodes|);
    WriteNodes(pb, nodes);
    pb.WriteVarInt(rootIdx);
    RegroupFour(old(pb.Contents()), VarInt(COMMANDS_ID), VarInt(|nodes|), NodesText(nodes, 0), VarInt(rootIdx));
  }

  method WriteNodes(pb: PacketBuilder, nodes: seq<Node>)
    requires pb.Valid() && FitsNodes(nodes, 0)
    modifies pb, pb.bytes
    ensures pb.Valid() && (pb.bytes == old(pb.bytes) || fresh(pb.bytes))
    ensures pb.Contents() == old(pb.Contents()) + NodesText(nodes, 0)
  {
    var i := 0;
    while i < |nodes|
      invariant 0 <= i <= |nodes| && FitsNodes(nodes, i)
      invariant pb.Valid() && (pb.bytes == old(pb.bytes) || fresh(pb.bytes))
      invariant pb.Contents() + NodesText(nodes, i) == old(pb.Contents()) + NodesText(nodes, 0)
    {
      Regroup(pb.Contents(), NodeText(nodes[i]), NodesText(nodes, i + 1));
      WriteNode(pb, nodes[i]);
      i := i + 1;
    }
    assert pb.Contents() + [] == pb.Contents();
  }

  lemma RegroupFour(c: Bytes, a: Bytes, b: Bytes, d: Bytes, e: Bytes)
    ensures c + (a + (b + (d + e))) == c + a + b + d + e
  {
  }
}
