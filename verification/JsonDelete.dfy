/** json_delete: a node leaves its parent's list, and every node below it and the node itself are freed
    exactly once. */
module JsonDelete {
  import opened Bytes
  import opened JsonNodes
  import opened JsonTrees

  /** The order in which nodes are freed: children before their parent. */
  function PostOrder(t: NodeTree): seq<JsonNode>
    decreases t, 1
  {
    PostOrders(t.kids) + [t.node]
  }

  function PostOrders(ts: seq<NodeTree>): seq<JsonNode>
    decreases ts, 0
  {
    if ts == [] then [] else PostOrders(ts[..|ts| - 1]) + PostOrder(ts[|ts| - 1])
  }

  lemma {:induction false} PostOrderIsComplete(t: NodeTree, x: JsonNode)
    ensures x in PostOrder(t) <==> x in Nodes(t)
    decreases t, 1
  {
    PostOrdersAreComplete(t.kids, x);
  }

  lemma {:induction false} PostOrdersAreComplete(ts: seq<NodeTree>, x: JsonNode)
    ensures x in PostOrders(ts) <==> x in NodesOf(ts)
    decreases ts, 0
  {
    if ts != [] {
      var front, last := ts[..|ts| - 1], ts[|ts| - 1];
      PostOrdersAreComplete(front, x);
      PostOrderIsComplete(last, x);
      LastOf(ts);
    }
  }

  lemma LastOf(ts: seq<NodeTree>)
    requires ts != []
    ensures NodesOf(ts) == NodesOf(ts[..|ts| - 1]) + Nodes(ts[|ts| - 1])
  {
  }

  /** Every node of the tree is freed, and none of them twice. */
  lemma {:induction false} FreedOnce(t: NodeTree)
    requires Separate(t)
    ensures Distinct(PostOrder(t)) && forall x :: x in PostOrder(t) <==> x in Nodes(t)
    decreases t, 1
  {
    forall x ensures x in PostOrder(t) <==> x in Nodes(t) {
      PostOrderIsComplete(t, x);
    }
    FreedOnceBelow(t, |t.kids|);
    assert t.kids[..|t.kids|] == t.kids;
    PostOrdersAreComplete(t.kids, t.node);
  }

  lemma {:induction false} FreedOnceBelow(t: NodeTree, n: nat)
    requires Separate(t) && n <= |t.kids|
    ensures Distinct(PostOrders(t.kids[..n]))
    decreases t, 0, n
  {
    hide Nodes;
    if n > 0 {
      var front, last := t.kids[..n - 1], t.kids[n - 1];
      assert t.kids[..n][..n - 1] == front;
      FreedOnceBelow(t, n - 1);
      FreedOnce(last);
      forall x | x in PostOrders(front) ensures x !in PostOrder(last) {
        PostOrdersAreComplete(front, x);
        var i :| 0 <= i < |front| && x in Nodes(front[i]);
        assert front[i] == t.kids[i] && Nodes(t.kids[i]) !! Nodes(t.kids[n - 1]);
        PostOrderIsComplete(last, x);
      }
      Joined(PostOrders(front), PostOrder(last));
    }
  }

  lemma Joined(p: seq<JsonNode>, q: seq<JsonNode>)
    requires Distinct(p) && Distinct(q) && forall x | x in p :: x !in q
    ensures Distinct(p + q)
  {
    forall i, j | 0 <= i < j < |p + q| ensures (p + q)[i] != (p + q)[j] {
      if i < |p| <= j {
        assert p[i] in p && q[j - |p|] in q;
      }
    }
  }

  // ----- json_delete -----

  /** What json_remove_from_parent touches around a node. */
  function Around(n: JsonNode?): set<JsonNode>
    reads Node(n)
  {
    Parent(n) + Before(n) + Behind(n)
  }

  /** The body of json_delete. */
  method DeleteNode(node: JsonNode, heap: Heap, ghost t: NodeTree, ghost siblings: seq<JsonNode>, ghost k: nat)
    requires t.node == node && Shape(t) && Separate(t) && Nodes(t) + Around(node) <= heap.live
    requires Around(node) !! Nodes(t)
    requires node.parent != null ==> Linked(node.parent, siblings) && k < |siblings| && siblings[k] == node
    modifies heap, Nodes(t)
    modifies Parent(node)`head, Parent(node)`tail, Before(node)`next, Behind(node)`prev
    ensures heap.live == old(heap.live) - Nodes(t) && heap.freed == old(heap.freed) + PostOrder(t)
    ensures old(node.parent) != null ==> Linked(old(node.parent), Cut(siblings, k))
    decreases t, 1
  {
    hide Linked, Separate, PostOrders, ChildrenLinked, NodesOf, Nodes, Shape;
    RootIsInside(t);
    NodesExist(t);
    ghost var rest := if node.parent == null then [] else Cut(siblings, k);
    if node.parent != null {
      SiblingsAreOutside(t, siblings, k);
    }
    RemoveFromParent(node, siblings, k, {});
    if node.tag == ArrayTag || node.tag == ObjectTag {
      DeleteChildren(node, heap, t);
    } else {
      LeafFreesItself(t);
    }
    heap.Free(node);
  }

  lemma LeafFreesItself(t: NodeTree)
    requires Shape(t) && t.node.tag != ArrayTag && t.node.tag != ObjectTag
    ensures t.kids == [] && PostOrders(t.kids) == [] && NodesOf(t.kids) == {}
  {
  }

  lemma SiblingsAreOutside(t: NodeTree, siblings: seq<JsonNode>, k: nat)
    requires Shape(t) && t.node.parent != null && t.node.parent !in Nodes(t)
    requires Linked(t.node.parent, siblings) && k < |siblings| && siblings[k] == t.node
    ensures forall x | x in Cut(siblings, k) :: x !in Nodes(t)
  {
    hide Shape, Nodes, NodesOf;
    RootIsInside(t);
    CutDistinct(siblings, k);
    ChildrenOf(t.node.parent, siblings);
    forall x | x in Cut(siblings, k) ensures x !in Nodes(t) {
      if x in NodesOf(t.kids) {
        ParentsAreInside(t, x);
      }
    }
  }

  lemma ChildrenStart(t: NodeTree)
    requires Shape(t) && Separate(t) && (t.node.tag == ArrayTag || t.node.tag == ObjectTag)
    ensures Forest(t.node, t.kids) && Shapes(t.kids) && Linked(t.node, Roots(t.kids))
    ensures t.node in Nodes(t) && NodesOf(t.kids) <= Nodes(t) && PostOrders(t.kids[..0]) == [] && t.kids[0..] == t.kids
  {
    RootIsInside(t);
  }

  /** The first of the children that are left, and what is around it. */
  lemma ChildrenStep(p: JsonNode, ts: seq<NodeTree>)
    requires Forest(p, ts) && Shapes(ts) && Linked(p, Roots(ts)) && Roots(ts) != []
    ensures ts != [] && Shape(ts[0]) && Shapes(ts[1..])
    ensures ts[0].node == Roots(ts)[0] && Cut(Roots(ts), 0) == Roots(ts[1..])
    ensures ts[0].node.parent == p && ts[0].node.prev == null && ts[0].node.next == ChildAt(Roots(ts[1..]), 0)
    ensures Around(ts[0].node) == {p} + Node(ts[0].node.next)
  {
    hide Shape, Forest;
    assert LinkedAt(p, Roots(ts), 0);
    assert Roots(ts)[1..] == Roots(ts[1..]);
  }

  lemma NextIsARoot(ts: seq<NodeTree>)
    ensures Node(ChildAt(Roots(ts), 0)) <= RootSet(ts)
  {
    if ts != [] {
      assert ts[0].node in RootSet(ts);
    }
  }

  lemma FreedNext(freed: seq<JsonNode>, ts: seq<NodeTree>, i: nat)
    requires i < |ts|
    ensures freed + PostOrders(ts[..i]) + PostOrder(ts[i]) == freed + PostOrders(ts[..i + 1])
  {
    hide PostOrder;
    assert ts[..i + 1][..i] == ts[..i];
    assert freed + PostOrders(ts[..i]) + PostOrder(ts[i]) == freed + (PostOrders(ts[..i]) + PostOrder(ts[i]));
  }

  lemma ChildrenEnd(t: NodeTree, i: nat, rest: seq<NodeTree>)
    requires i <= |t.kids| && rest == t.kids[i..] && ChildAt(Roots(rest), 0) == null
    ensures t.kids[..i] == t.kids && NodesOf(rest) == {}
  {
  }

  /** The loop over the children. */
  method DeleteChildren(node: JsonNode, heap: Heap, ghost t: NodeTree)
    requires t.node == node && Shape(t) && Separate(t) && Nodes(t) <= heap.live
    requires node.tag == ArrayTag || node.tag == ObjectTag
    modifies heap, NodesOf(t.kids), node`head, node`tail
    ensures heap.live == old(heap.live) - NodesOf(t.kids) && heap.freed == old(heap.freed) + PostOrders(t.kids)
    decreases t, 0
  {
    hide Shape, Separate, Nodes, NodesOf, Inner, RootSet, Roots, PostOrders, Linked, Forest, Shapes;
    ChildrenStart(t);
    NodesExist(t);
    var child := node.head;
    ghost var i, rest := 0, t.kids;
    while child != null
      invariant i <= |t.kids| && rest == t.kids[i..] && Forest(node, rest) && Shapes(rest)
      invariant Linked(node, Roots(rest)) && child == ChildAt(Roots(rest), 0)
      invariant NodesOf(rest) <= NodesOf(t.kids) && {node} + NodesOf(rest) <= heap.live
      invariant heap.live == old(heap.live) - (NodesOf(t.kids) - NodesOf(rest))
      invariant heap.freed == old(heap.freed) + PostOrders(t.kids[..i])
      decreases |rest|
    {
      ChildrenStep(node, rest);
      ForestTail(node, rest);
      InnerOfForest(node, rest[1..]);
      NextIsARoot(rest[1..]);
      FreedNext(old(heap.freed), t.kids, i);
      RootIsInside(rest[0]);
      ghost var after := rest[1..];
      assert child in heap.live;
      var next := child.next;
      DeleteNode(child, heap, rest[0], Roots(rest), 0);
      child := next;
      i, rest := i + 1, after;
    }
    ChildrenEnd(t, i, rest);
  }

  // ----- json_delete -----

  function TreeNodes(node: JsonNode?, t: NodeTree): set<JsonNode> {
    if node == null then {} else Nodes(t)
  }

  lemma NeighboursAreOutside(t: NodeTree, siblings: seq<JsonNode>, k: nat)
    requires t.node.parent != null ==>
               && Linked(t.node.parent, siblings) && k < |siblings| && siblings[k] == t.node
               && t.node.parent !in Nodes(t)
    requires Shape(t)
    ensures Around(t.node) !! Nodes(t)
  {
    hide Shape, Nodes;
    if t.node.parent != null {
      SiblingsAreOutside(t, siblings, k);
      assert LinkedAt(t.node.parent, siblings, k);
      CutNeighbours(siblings, k);
    }
  }

  lemma CutNeighbours(siblings: seq<JsonNode>, k: nat)
    requires k < |siblings|
    ensures Node(ChildAt(siblings, k - 1)) <= (set x | x in Cut(siblings, k))
    ensures Node(ChildAt(siblings, k + 1)) <= (set x | x in Cut(siblings, k))
  {
  }

  /** json_delete of the child at position `k`, of a root, or of NULL. Every node of the tree is freed, once
      and after the nodes below it; nothing that was freed is touched; the siblings stay in order. */
  method JsonDelete(node: JsonNode?, heap: Heap, ghost t: NodeTree, ghost siblings: seq<JsonNode>, ghost k: nat)
    requires node != null ==> t.node == node && Shape(t) && Nodes(t) + Around(node) <= heap.live
    requires node != null && node.parent != null ==>
               Linked(node.parent, siblings) && k < |siblings| && siblings[k] == node && node.parent !in Nodes(t)
    modifies heap, TreeNodes(node, t)
    modifies Parent(node)`head, Parent(node)`tail, Before(node)`next, Behind(node)`prev
    ensures heap.live == old(heap.live) - TreeNodes(node, t)
    ensures heap.freed == old(heap.freed) + if node == null then [] else PostOrder(t)
    ensures node != null && old(node.parent) != null ==> Linked(old(node.parent), Cut(siblings, k))
  {
    if node != null {
      hide Shape, Separate, Nodes, Linked;
      ShapeIsSeparate(t);
      NeighboursAreOutside(t, siblings, k);
      DeleteNode(node, heap, t, siblings, k);
    }
  }
}
