/** Trees of nodes on the heap: what a well-formed list structure is, which nodes it consists of, and the
    JSON value that it holds. */
module JsonTrees {
  import opened Bytes
  import opened Json
  import opened JsonNodes

  /** A node with the trees of its children: the shape that the links below it have. */
  datatype NodeTree = NodeTree(node: JsonNode, kids: seq<NodeTree>)

  function Roots(ts: seq<NodeTree>): (r: seq<JsonNode>)
    ensures |r| == |ts| && forall i | 0 <= i < |ts| :: r[i] == ts[i].node
  {
    if ts == [] then [] else [ts[0].node] + Roots(ts[1..])
  }

  function Nodes(t: NodeTree): set<JsonNode> {
    {t.node} + set i, x | 0 <= i < |t.kids| && x in Nodes(t.kids[i]) :: x
  }

  /** The nodes of a tree exist, so a call that writes nothing leaves them as they are. */
  lemma {:induction false} NodesExist(t: NodeTree)
    ensures forall x | x in Nodes(t) :: allocated(x)
  {
    forall i | 0 <= i < |t.kids| ensures forall x | x in Nodes(t.kids[i]) :: allocated(x) {
      NodesExist(t.kids[i]);
    }
  }

  lemma NodesOfAllExist(ts: seq<NodeTree>)
    ensures forall i, x | 0 <= i < |ts| && x in Nodes(ts[i]) :: allocated(x)
  {
    forall i | 0 <= i < |ts| {
      NodesExist(ts[i]);
    }
  }

  function NodesOf(ts: seq<NodeTree>): set<JsonNode> {
    set i, x | 0 <= i < |ts| && x in Nodes(ts[i]) :: x
  }

  /** Every node stands in the tree once. */
  ghost predicate Separate(t: NodeTree) {
    && t.node !in NodesOf(t.kids)
    && (forall i, j | 0 <= i < j < |t.kids| :: Nodes(t.kids[i]) !! Nodes(t.kids[j]))
    && forall i | 0 <= i < |t.kids| :: Separate(t.kids[i])
  }

  /** The children's lists are as they should be, from the head and tail of the root on down. */
  ghost predicate Shape(t: NodeTree)
    reads t.node`tag, t.node`head, t.node`tail, NodesOf(t.kids)
    decreases t
  {
    KidsAreBelow(t.kids);
    && (if t.node.tag == ArrayTag || t.node.tag == ObjectTag then ChildrenLinked(t) else t.kids == [])
    && forall i | 0 <= i < |t.kids| :: Shape(t.kids[i])
  }

  /** As Linked, without reading more of the parent than its head and tail. */
  ghost predicate ChildrenLinked(t: NodeTree)
    reads t.node`head, t.node`tail, NodesOf(t.kids)
  {
    var kids := Roots(t.kids);
    RootsAreBelow(t.kids);
    && Distinct(kids) && t.node !in kids
    && t.node.head == ChildAt(kids, 0) && t.node.tail == ChildAt(kids, |kids| - 1)
    && forall i | 0 <= i < |kids| :: LinkedAt(t.node, kids, i)
  }

  lemma KidsAreBelow(ts: seq<NodeTree>)
    ensures forall i | 0 <= i < |ts| :: ts[i].node in NodesOf(ts) && NodesOf(ts[i].kids) <= NodesOf(ts)
  {
    forall i | 0 <= i < |ts| ensures ts[i].node in NodesOf(ts) && NodesOf(ts[i].kids) <= NodesOf(ts) {
      assert Nodes(ts[i]) == {ts[i].node} + NodesOf(ts[i].kids);
      assert forall x | x in Nodes(ts[i]) :: x in NodesOf(ts);
    }
  }

  lemma RootsAreBelow(ts: seq<NodeTree>)
    ensures forall x | x in Roots(ts) :: x in NodesOf(ts)
  {
    forall x | x in Roots(ts) ensures x in NodesOf(ts) {
      var i :| 0 <= i < |ts| && Roots(ts)[i] == x;
      assert x in Nodes(ts[i]);
    }
  }

  lemma RootIsInside(t: NodeTree)
    ensures t.node in Nodes(t) && Nodes(t) == {t.node} + NodesOf(t.kids)
    ensures Separate(t) ==> t.node !in NodesOf(t.kids)
  {
  }

  // ----- Forests -----

  function RootSet(ts: seq<NodeTree>): set<JsonNode> {
    set i | 0 <= i < |ts| :: ts[i].node
  }

  function Inner(ts: seq<NodeTree>): set<JsonNode> {
    set i, x | 0 <= i < |ts| && x in NodesOf(ts[i].kids) :: x
  }

  ghost predicate Shapes(ts: seq<NodeTree>)
    reads RootSet(ts)`tag, RootSet(ts)`head, RootSet(ts)`tail, Inner(ts)
  {
    forall i | 0 <= i < |ts| :: Shape(ts[i])
  }

  ghost predicate Forest(p: JsonNode, ts: seq<NodeTree>) {
    && p !in NodesOf(ts)
    && (forall i, j | 0 <= i < j < |ts| :: Nodes(ts[i]) !! Nodes(ts[j]))
    && forall i | 0 <= i < |ts| :: Separate(ts[i])
  }

  lemma ForestTail(p: JsonNode, ts: seq<NodeTree>)
    requires Forest(p, ts) && ts != []
    ensures Forest(p, ts[1..]) && Separate(ts[0])
    ensures NodesOf(ts) == Nodes(ts[0]) + NodesOf(ts[1..]) && Nodes(ts[0]) !! NodesOf(ts[1..])
  {
    hide Separate, Nodes;
    var rest := ts[1..];
    forall x | x in NodesOf(rest) ensures x in NodesOf(ts) && x !in Nodes(ts[0]) {
      var i :| 0 <= i < |rest| && x in Nodes(rest[i]);
      assert ts[i + 1] == rest[i] && Nodes(ts[0]) !! Nodes(ts[i + 1]);
    }
    forall x | x in NodesOf(ts) && x !in Nodes(ts[0]) ensures x in NodesOf(rest) {
      var i :| 0 <= i < |ts| && x in Nodes(ts[i]);
      assert rest[i - 1] == ts[i];
    }
  }

  lemma InnerOfForest(p: JsonNode, ts: seq<NodeTree>)
    requires Forest(p, ts)
    ensures Inner(ts) <= NodesOf(ts) && RootSet(ts) <= NodesOf(ts) && RootSet(ts) !! Inner(ts)
  {
    hide Nodes, Separate, NodesOf;
    forall i | 0 <= i < |ts|
      ensures ts[i].node in Nodes(ts[i]) && NodesOf(ts[i].kids) <= Nodes(ts[i])
      ensures ts[i].node !in NodesOf(ts[i].kids)
    {
      RootIsInside(ts[i]);
    }
    KidsAreBelow(ts);
    forall i, j | 0 <= i < |ts| && 0 <= j < |ts| ensures ts[i].node !in NodesOf(ts[j].kids) {
      if i < j {
        assert Nodes(ts[i]) !! Nodes(ts[j]);
      } else if j < i {
        assert Nodes(ts[j]) !! Nodes(ts[i]);
      }
    }
  }


  // ----- A well-formed list structure has every node once -----

  lemma {:induction false} ParentsAreInside(t: NodeTree, x: JsonNode)
    requires Shape(t) && x in NodesOf(t.kids)
    ensures x.parent in Nodes(t)
    decreases t
  {
    RootIsInside(t);
    var i :| 0 <= i < |t.kids| && x in Nodes(t.kids[i]);
    if x == t.kids[i].node {
      assert LinkedAt(t.node, Roots(t.kids), i);
    } else {
      RootIsInside(t.kids[i]);
      ParentsAreInside(t.kids[i], x);
      assert x.parent in NodesOf(t.kids);
    }
  }

  function Size(t: NodeTree): nat
    decreases t, 1
  {
    1 + Sizes(t.kids)
  }

  function Sizes(ts: seq<NodeTree>): nat
    decreases ts, 0
  {
    if ts == [] then 0 else Size(ts[0]) + Sizes(ts[1..])
  }

  lemma {:induction false} SizeOfOne(ts: seq<NodeTree>, i: nat)
    requires i < |ts|
    ensures Size(ts[i]) <= Sizes(ts)
  {
    if i > 0 {
      SizeOfOne(ts[1..], i - 1);
    }
  }

  /** The list of children is determined by its parent. */
  lemma {:induction false} SameRoots(s: NodeTree, t: NodeTree, i: nat)
    requires ChildrenLinked(s) && ChildrenLinked(t) && s.node == t.node && i < |s.kids|
    ensures i < |t.kids| && s.kids[i].node == t.kids[i].node
  {
    if i > 0 {
      SameRoots(s, t, i - 1);
      assert LinkedAt(s.node, Roots(s.kids), i - 1) && LinkedAt(t.node, Roots(t.kids), i - 1);
    }
  }

  lemma NotMoreChildren(s: NodeTree, t: NodeTree)
    requires ChildrenLinked(s) && ChildrenLinked(t) && s.node == t.node
    ensures |s.kids| <= |t.kids|
  {
    if s.kids != [] {
      SameRoots(s, t, |s.kids| - 1);
    }
  }

  /** So is the whole tree below it. */
  lemma {:induction false} SameTree(s: NodeTree, t: NodeTree)
    requires Shape(s) && Shape(t) && s.node == t.node
    ensures s == t
    decreases s
  {
    if s.node.tag == ArrayTag || s.node.tag == ObjectTag {
      forall i | 0 <= i < |s.kids| ensures i < |t.kids| && s.kids[i].node == t.kids[i].node {
        SameRoots(s, t, i);
      }
      NotMoreChildren(s, t);
      NotMoreChildren(t, s);
      forall i | 0 <= i < |s.kids| ensures s.kids[i] == t.kids[i] {
        SameTree(s.kids[i], t.kids[i]);
      }
      assert s.kids == t.kids;
    }
  }

  lemma {:induction false} TreeBelow(t: NodeTree, x: JsonNode) returns (s: NodeTree)
    requires Shape(t) && x in Nodes(t)
    ensures Shape(s) && s.node == x && Size(s) <= Size(t) && (x in NodesOf(t.kids) ==> Size(s) < Size(t))
    decreases t
  {
    if x in NodesOf(t.kids) {
      var i :| 0 <= i < |t.kids| && x in Nodes(t.kids[i]);
      s := TreeBelow(t.kids[i], x);
      SizeOfOne(t.kids, i);
    } else {
      RootIsInside(t);
      s := t;
    }
  }

  /** No node is its own descendant. */
  lemma NotBelowItself(t: NodeTree)
    requires Shape(t)
    ensures t.node !in NodesOf(t.kids)
  {
    if t.node in NodesOf(t.kids) {
      RootIsInside(t);
      var s := TreeBelow(t, t.node);
      SameTree(s, t);
    }
  }

  /** `n` steps from child to parent lead from `x` to the root, through the tree. */
  ghost predicate Climbs(t: NodeTree, x: JsonNode, n: nat)
    requires x in Nodes(t)
    reads Nodes(t)
    decreases n
  {
    if n == 0 then x == t.node else x.parent != null && x.parent in Nodes(t) && Climbs(t, x.parent, n - 1)
  }

  lemma {:induction false} ClimbsOn(t: NodeTree, i: nat, x: JsonNode, n: nat)
    requires Shape(t) && i < |t.kids| && x in Nodes(t.kids[i]) && Climbs(t.kids[i], x, n)
    ensures x in Nodes(t) && Climbs(t, x, n + 1)
    decreases n
  {
    hide Nodes;
    KidIsInside(t, i);
    if n == 0 {
      assert Climbs(t, t.node, 0);
    } else {
      ClimbsOn(t, i, x.parent, n - 1);
    }
  }

  lemma KidIsInside(t: NodeTree, i: nat)
    requires Shape(t) && i < |t.kids|
    ensures Nodes(t.kids[i]) <= NodesOf(t.kids) <= Nodes(t) && t.node in Nodes(t) && t.kids[i].node.parent == t.node
  {
    RootIsInside(t);
    assert LinkedAt(t.node, Roots(t.kids), i);
  }

  lemma KidAbove(t: NodeTree, x: JsonNode) returns (i: nat)
    requires Shape(t) && x in Nodes(t) && x != t.node
    ensures i < |t.kids| && x in Nodes(t.kids[i]) && Shape(t.kids[i])
  {
    i :| 0 <= i < |t.kids| && x in Nodes(t.kids[i]);
  }

  lemma {:induction false} ClimbExists(t: NodeTree, x: JsonNode) returns (n: nat)
    requires Shape(t) && x in Nodes(t)
    ensures Climbs(t, x, n)
    decreases t
  {
    hide Nodes, Shape;
    n := 0;
    if x != t.node {
      var i := KidAbove(t, x);
      var m := ClimbExists(t.kids[i], x);
      ClimbsOn(t, i, x, m);
      n := m + 1;
    }
  }

  /** Two children of the same node that have a node in common are the same child. */
  lemma {:induction false} OneRootAbove(a: NodeTree, b: NodeTree, p: JsonNode, x: JsonNode, n: nat)
    requires Shape(a) && Shape(b) && a.node.parent == p && b.node.parent == p && p !in Nodes(a) && p !in Nodes(b)
    requires x in Nodes(a) && x in Nodes(b) && Climbs(a, x, n)
    ensures a.node == b.node
    decreases n
  {
    hide Nodes, NodesOf;
    RootIsInside(b);
    if x != b.node {
      ParentsAreInside(b, x);
      if n > 0 {
        OneRootAbove(a, b, p, x.parent, n - 1);
      }
    }
  }

  /** So a tree whose lists of children are well formed has every node once. */
  lemma {:induction false} ShapeIsSeparate(t: NodeTree)
    requires Shape(t)
    ensures Separate(t)
    decreases t
  {
    hide Nodes, NodesOf;
    NotBelowItself(t);
    forall i, j | 0 <= i < j < |t.kids| ensures Nodes(t.kids[i]) !! Nodes(t.kids[j]) {
      forall x | x in Nodes(t.kids[i]) && x in Nodes(t.kids[j]) ensures false {
        KidIsInside(t, i);
        KidIsInside(t, j);
        var n := ClimbExists(t.kids[i], x);
        OneRootAbove(t.kids[i], t.kids[j], t.node, x, n);
        RootsDiffer(t, i, j);
      }
    }
    forall i | 0 <= i < |t.kids| ensures Separate(t.kids[i]) {
      ShapeIsSeparate(t.kids[i]);
    }
  }

  lemma RootsDiffer(t: NodeTree, i: nat, j: nat)
    requires Shape(t) && i < j < |t.kids|
    ensures t.kids[i].node != t.kids[j].node
  {
    assert Roots(t.kids)[i] != Roots(t.kids)[j];
  }

  // ----- The value of a tree -----

  /** Which texts stand for which double. */
  type Naming = (bytes, Double) -> bool

  /** A text stands for the double that strtod reads from it. */
  function ReadAs(strtod: bytes -> Double): Naming {
    (text: bytes, d: Double) => d == strtod(text)
  }

  /** A text stands for the double that sprintf writes as it. */
  function WrittenAs(sprintf: Double -> bytes): Naming {
    (text: bytes, d: Double) => text == sprintf(d)
  }

  /** The tree holds the JSON value `v`, whose numbers stand for the doubles of the nodes. Neither the key
      of its root nor the links of its root to parent and siblings matter. */
  ghost predicate Holds(t: NodeTree, v: Tree, num: Naming)
    reads t.node`tag, t.node`str, t.node`b, t.node`number, t.node`head, t.node`tail, NodesOf(t.kids)
    decreases t, 1
  {
    KidsAreBelow(t.kids);
    match v
    case Null => t.node.tag == NullTag && t.kids == []
    case Bool(b) => t.node.tag == BoolTag && t.node.b == b && t.kids == []
    case String(str) => t.node.tag == StringTag && t.node.str == Some(str) && t.kids == []
    case Number(text) => t.node.tag == NumberTag && num(text, t.node.number) && t.kids == []
    case Container(isObject, children) =>
      t.node.tag == (if isObject then ObjectTag else ArrayTag) && ChildrenLinked(t) && AllHold(t.kids, children, num)
  }

  ghost predicate AllHold(ts: seq<NodeTree>, cs: seq<Child>, num: Naming)
    reads RootSet(ts)`key, RootSet(ts)`tag, RootSet(ts)`str, RootSet(ts)`b, RootSet(ts)`number
    reads RootSet(ts)`head, RootSet(ts)`tail, Inner(ts)
    decreases ts, 0
  {
    |ts| == |cs| && forall i | 0 <= i < |ts| :: ts[i].node.key == cs[i].key && Holds(ts[i], cs[i].value, num)
  }

  lemma {:induction false} HoldsHasShape(t: NodeTree, v: Tree, num: Naming)
    requires Holds(t, v, num)
    ensures Shape(t)
    decreases t
  {
    forall i | 0 <= i < |t.kids| ensures Shape(t.kids[i]) {
      HoldsHasShape(t.kids[i], v.children[i].value, num);
    }
  }

  /** A tree holds one value, if no two texts stand for the same double. */
  lemma {:induction false} HoldsOne(t: NodeTree, v: Tree, w: Tree, num: Naming)
    requires Holds(t, v, num) && Holds(t, w, num)
    requires forall p, q, d | num(p, d) && num(q, d) :: p == q
    ensures v == w
    decreases t
  {
    if v.Container? {
      forall i | 0 <= i < |t.kids| ensures v.children[i] == w.children[i] {
        HoldsOne(t.kids[i], v.children[i].value, w.children[i].value, num);
      }
      assert v.children == w.children;
    }
  }

  predicate Detached(n: JsonNode)
    reads n
  {
    n.parent == null && n.prev == null && n.next == null && n.key == None
  }

  /** A node without parent, siblings and key at the root of a tree that holds `v`. */
  ghost predicate IsRoot(n: JsonNode, t: NodeTree, v: Tree, num: Naming)
    reads n, Nodes(t)
  {
    RootIsInside(t);
    n == t.node && Holds(t, v, num) && Detached(n)
  }

  // ----- Building trees -----

  method JsonMkNull(heap: Heap, ghost num: Naming) returns (n: JsonNode, ghost t: NodeTree)
    modifies heap
    ensures heap.live == old(heap.live) + Nodes(t) && heap.freed == old(heap.freed)
    ensures fresh(Nodes(t)) && IsRoot(n, t, Null, num)
  {
    n := MkNode(NullTag, heap);
    t := NodeTree(n, []);
  }

  method JsonMkBool(b: bool, heap: Heap, ghost num: Naming) returns (n: JsonNode, ghost t: NodeTree)
    modifies heap
    ensures heap.live == old(heap.live) + Nodes(t) && heap.freed == old(heap.freed)
    ensures fresh(Nodes(t)) && IsRoot(n, t, Bool(b), num)
  {
    n := MkNode(BoolTag, heap);
    n.b := b;
    t := NodeTree(n, []);
  }

  method MkString(s: bytes, heap: Heap, ghost num: Naming) returns (n: JsonNode, ghost t: NodeTree)
    modifies heap
    ensures heap.live == old(heap.live) + Nodes(t) && heap.freed == old(heap.freed)
    ensures fresh(Nodes(t)) && IsRoot(n, t, String(s), num)
  {
    n := MkNode(StringTag, heap);
    n.str := Some(s);
    t := NodeTree(n, []);
  }

  method JsonMkNumber(d: Double, heap: Heap, ghost text: bytes, ghost num: Naming)
    returns (n: JsonNode, ghost t: NodeTree)
    requires num(text, d)
    modifies heap
    ensures heap.live == old(heap.live) + Nodes(t) && heap.freed == old(heap.freed)
    ensures fresh(Nodes(t)) && IsRoot(n, t, Number(text), num)
  {
    n := MkNode(NumberTag, heap);
    n.number := d;
    t := NodeTree(n, []);
  }

  /** An array or object with the children `ts` so far, which hold `cs`. */
  ghost predicate Growing(p: JsonNode, isObject: bool, ts: seq<NodeTree>, cs: seq<Child>, num: Naming)
    reads p, NodesOf(ts)
  {
    KidsAreBelow(ts);
    RootsAreBelow(ts);
    && p.tag == (if isObject then ObjectTag else ArrayTag) && Detached(p)
    && Linked(p, Roots(ts)) && AllHold(ts, cs, num) && p !in NodesOf(ts) && RootSet(ts) !! Inner(ts)
  }

  lemma Grown(p: JsonNode, isObject: bool, ts: seq<NodeTree>, cs: seq<Child>, num: Naming)
    requires Growing(p, isObject, ts, cs, num)
    ensures IsRoot(p, NodeTree(p, ts), Container(isObject, cs), num)
  {
    hide AllHold;
  }

  /** json_mkarray and json_mkobject */
  method MkContainer(isObject: bool, heap: Heap, ghost num: Naming) returns (p: JsonNode)
    modifies heap
    ensures fresh(p) && Growing(p, isObject, [], [], num)
    ensures heap.live == old(heap.live) + {p} && heap.freed == old(heap.freed)
  {
    p := MkNode(if isObject then ObjectTag else ArrayTag, heap);
    assert Roots([]) == [];
  }

  lemma OneMore(ts: seq<NodeTree>, t: NodeTree)
    ensures Roots(ts + [t]) == Roots(ts) + [t.node] && RootSet(ts + [t]) == RootSet(ts) + {t.node}
    ensures NodesOf(ts + [t]) == NodesOf(ts) + Nodes(t) && Inner(ts + [t]) == Inner(ts) + NodesOf(t.kids)
  {
    hide Nodes, NodesOf, Inner, RootSet;
    assert Roots(ts + [t]) == Roots(ts) + [t.node];
    OneMoreNodes(ts, t);
    OneMoreInner(ts, t);
  }

  lemma OneMoreNodes(ts: seq<NodeTree>, t: NodeTree)
    ensures RootSet(ts + [t]) == RootSet(ts) + {t.node} && NodesOf(ts + [t]) == NodesOf(ts) + Nodes(t)
  {
    hide Nodes;
    var all := ts + [t];
    assert (forall i | 0 <= i < |ts| :: all[i] == ts[i]) && all[|ts|] == t;
  }

  lemma OneMoreInner(ts: seq<NodeTree>, t: NodeTree)
    ensures Inner(ts + [t]) == Inner(ts) + NodesOf(t.kids)
  {
    hide NodesOf;
    var all := ts + [t];
    assert (forall i | 0 <= i < |ts| :: all[i] == ts[i]) && all[|ts|] == t;
  }

  lemma OneMoreHolds(ts: seq<NodeTree>, cs: seq<Child>, t: NodeTree, c: Child, num: Naming)
    requires AllHold(ts, cs, num) && Holds(t, c.value, num) && t.node.key == c.key
    ensures AllHold(ts + [t], cs + [c], num)
  {
    hide Holds;
  }

  lemma Grows(p: JsonNode, isObject: bool, ts: seq<NodeTree>, cs: seq<Child>, t: NodeTree, c: Child, num: Naming)
    requires p.tag == (if isObject then ObjectTag else ArrayTag) && Detached(p)
    requires Linked(p, Roots(ts) + [t.node]) && AllHold(ts, cs, num) && Holds(t, c.value, num) && t.node.key == c.key
    requires RootSet(ts) !! Inner(ts) && RootSet(ts) <= NodesOf(ts) && Inner(ts) <= NodesOf(ts)
    requires Nodes(t) !! {p} + NodesOf(ts) && p !in NodesOf(ts)
    ensures Growing(p, isObject, ts + [t], cs + [c], num)
  {
    hide Holds, AllHold, Linked, NodesOf, Nodes, Inner, RootSet, Shape;
    OneMore(ts, t);
    OneMoreHolds(ts, cs, t, c, num);
    RootIsInside(t);
    HoldsHasShape(t, c.value, num);
    NotBelowItself(t);
  }

  lemma InsideOf(ts: seq<NodeTree>)
    ensures RootSet(ts) <= NodesOf(ts) && Inner(ts) <= NodesOf(ts) && forall x | x in Roots(ts) :: x in RootSet(ts)
  {
    hide Nodes;
    KidsAreBelow(ts);
    forall x | x in Roots(ts) ensures x in RootSet(ts) {
      var i :| 0 <= i < |ts| && Roots(ts)[i] == x;
    }
  }

  lemma TheseExist(ts: seq<NodeTree>)
    ensures forall x | x in NodesOf(ts) :: allocated(x)
  {
    NodesOfAllExist(ts);
  }

  /** json_append_element, on a tree that shares no node with what is there. */
  method AppendElement(p: JsonNode, child: JsonNode,
                       ghost ts: seq<NodeTree>, ghost cs: seq<Child>, ghost t: NodeTree, ghost v: Tree,
                       ghost num: Naming)
    requires Growing(p, false, ts, cs, num) && IsRoot(child, t, v, num) && Nodes(t) !! {p} + NodesOf(ts)
    modifies p`head, p`tail, child`parent, child`prev, child`next, Node(p.tail)`next
    ensures Growing(p, false, ts + [t], cs + [Child(None, v)], num)
  {
    hide Holds, AllHold, NodesOf, Nodes, Inner, RootSet, Roots, Shape;
    InsideOf(ts);
    RootIsInside(t);
    HoldsHasShape(t, v, num);
    NotBelowItself(t);
    assert p.tail != null ==> p.tail in Roots(ts);
    NodesExist(t);
    TheseExist(ts);
    AppendNode(p, child, Roots(ts), {});
    Grows(p, false, ts, cs, t, Child(None, v), num);
  }

  /** append_member, the same for an object. */
  method AppendKeyed(p: JsonNode, key: bytes, child: JsonNode,
                     ghost ts: seq<NodeTree>, ghost cs: seq<Child>, ghost t: NodeTree, ghost v: Tree, ghost num: Naming)
    requires Growing(p, true, ts, cs, num) && IsRoot(child, t, v, num) && Nodes(t) !! {p} + NodesOf(ts)
    modifies p`head, p`tail, child`parent, child`prev, child`next, child`key, Node(p.tail)`next
    ensures Growing(p, true, ts + [t], cs + [Child(Some(key), v)], num)
  {
    hide Holds, AllHold, NodesOf, Nodes, Inner, RootSet, Roots, Shape;
    InsideOf(ts);
    RootIsInside(t);
    HoldsHasShape(t, v, num);
    NotBelowItself(t);
    assert p.tail != null ==> p.tail in Roots(ts);
    NodesExist(t);
    TheseExist(ts);
    AppendMember(p, key, child, Roots(ts), {});
    Grows(p, true, ts, cs, t, Child(Some(key), v), num);
  }
}
