/** json_check on an arbitrary heap. What it returns, if it returns, is the value of a function; it passes
    exactly on well-formed trees. When it returns is the subject of `JsonCheckEnds`. */
module JsonCheck {
  import opened Bytes
  import opened JsonNodes
  import opened JsonTrees
  import Utf8

  /** What json_check demands of the contents of a node. */
  predicate ContentsOk(n: JsonNode)
    reads n
  {
    (n.key.Some? ==> Utf8.Valid(n.key.value)) && (n.tag == StringTag ==> n.str.Some? && Utf8.Valid(n.str.value))
  }

  predicate IsContainer(n: JsonNode)
    reads n
  {
    n.tag == ArrayTag || n.tag == ObjectTag
  }

  predicate KeyFits(p: JsonNode, c: JsonNode)
    reads p, c
  {
    (p.tag == ArrayTag ==> c.key.None?) && (p.tag == ObjectTag ==> c.key.Some?)
  }

  /** The node and everything below it is well formed: one doubly linked list of children for every
      array and object, keys exactly in objects, and valid strings. */
  ghost predicate IsTree(t: NodeTree)
    reads Nodes(t)
    decreases t, 1
  {
    && ContentsOk(t.node)
    && if IsContainer(t.node) then ContainerOk(t) else t.kids == []
  }

  ghost predicate ContainerOk(t: NodeTree)
    reads Nodes(t)
    decreases t, 0
  {
    ChildrenOk(t) && forall i | 0 <= i < |t.kids| :: IsTree(t.kids[i])
  }

  ghost predicate ChildrenOk(t: NodeTree)
    reads Nodes(t)
  {
    RootsAreNodes(t);
    Linked(t.node, Roots(t.kids)) && forall i | 0 <= i < |t.kids| :: KeyFits(t.node, t.kids[i].node)
  }

  lemma RootsAreNodes(t: NodeTree)
    ensures forall x | x in Roots(t.kids) :: x in Nodes(t)
  {
    forall x | x in Roots(t.kids) ensures x in Nodes(t) {
      var i :| 0 <= i < |t.kids| && Roots(t.kids)[i] == x;
      assert x in Nodes(t.kids[i]);
    }
  }

  /** The children that the walk has seen so far are roots of trees. */
  ghost predicate AreTrees(p: JsonNode, seen: seq<JsonNode>, kids: seq<NodeTree>)
    reads p, seen, set i, x | 0 <= i < |kids| && x in Nodes(kids[i]) :: x
  {
    |seen| == |kids| && forall i | 0 <= i < |kids| :: kids[i].node == seen[i] && IsTree(kids[i]) && KeyFits(p, seen[i])
  }

  lemma TreesExtend(p: JsonNode, seen: seq<JsonNode>, kids: seq<NodeTree>, t: NodeTree)
    requires AreTrees(p, seen, kids) && IsTree(t) && KeyFits(p, t.node)
    ensures AreTrees(p, seen + [t.node], kids + [t])
  {
    hide IsTree, KeyFits;
    forall i | 0 <= i < |kids| + 1 ensures (kids + [t])[i].node == (seen + [t.node])[i] {
    }
  }

  /** What the walk over the siblings has established for the children it has seen. */
  ghost predicate Seen(p: JsonNode, seen: seq<JsonNode>)
    reads p, seen
  {
    && Distinct(seen) && p !in seen
    && forall i | 0 <= i < |seen| :: SeenAt(p, seen, i)
  }

  ghost predicate SeenAt(p: JsonNode, seen: seq<JsonNode>, i: nat)
    requires i < |seen|
    reads p, seen
  {
    && seen[i].parent == p && seen[i].prev == ChildAt(seen, i - 1) && (i + 1 < |seen| ==> seen[i].next == seen[i + 1])
    && (i == 0 ==> p.head == seen[0])
  }

  /** The walk visits no node twice: the next sibling, whose prev points back and which is not the
      head, is not among those seen. */
  lemma NextIsNew(p: JsonNode, seen: seq<JsonNode>, next: JsonNode)
    requires Seen(p, seen) && seen != [] && next.prev == seen[|seen| - 1] && next != seen[0]
    ensures next !in seen
  {
    forall j: nat | j < |seen| ensures seen[j] != next {
      assert SeenAt(p, seen, j);
    }
  }

  lemma SeenExtends(p: JsonNode, seen: seq<JsonNode>, child: JsonNode)
    requires Seen(p, seen) && child !in seen && child != p && child.parent == p
    requires child.prev == ChildAt(seen, |seen| - 1)
    requires if seen == [] then p.head == child else seen[|seen| - 1].next == child
    ensures Seen(p, seen + [child])
  {
    var all := seen + [child];
    forall i | 0 <= i < |all| ensures SeenAt(p, all, i) {
      if i < |seen| {
        assert SeenAt(p, seen, i);
      }
    }
  }

  lemma SeenIsLinked(p: JsonNode, seen: seq<JsonNode>)
    requires Seen(p, seen) && seen != [] && seen[|seen| - 1].next == null && p.tail == seen[|seen| - 1]
    ensures Linked(p, seen)
  {
    forall i | 0 <= i < |seen| ensures LinkedAt(p, seen, i) {
      assert SeenAt(p, seen, i);
    }
    assert SeenAt(p, seen, 0);
  }

  // ----- The walk over the siblings -----

  /** The links and the key that json_check demands of a child, in the order of the code. */
  predicate ChildFits(p: JsonNode, head: JsonNode, c: JsonNode)
    reads p, c, c.next
  {
    && c != p && c.next != c && c.next != head
    && c.parent == p && (c.next != null ==> c.next.prev == c)
    && KeyFits(p, c)
  }

  /** `kids` is the list of children of `p`, with the right keys, and `verdict` passes all of them. */
  ghost predicate AllPass(p: JsonNode, kids: seq<JsonNode>, verdict: JsonNode -> bool)
    reads p, kids
  {
    Linked(p, kids) && forall i | 0 <= i < |kids| :: KeyFits(p, kids[i]) && verdict(kids[i])
  }

  /** Following the next pointers from `world` stays in `world`. */
  ghost predicate ClosedUnderNext(world: set<JsonNode>)
    reads world
  {
    forall x | x in world && x.next != null :: x.next in world
  }

  /** The part of json_check for arrays and objects, with `verdict` in place of the recursive call. It
      returns on every heap, whatever cycles the links have, and passes exactly when they form one doubly
      linked list of children that pass. */
  method SiblingWalk(node: JsonNode, verdict: JsonNode -> bool, ghost world: set<JsonNode>) returns (ok: bool)
    requires ClosedUnderNext(world) && (node.head != null ==> node.head in world)
    ensures ok <==> exists kids: seq<JsonNode> :: AllPass(node, kids, verdict)
  {
    hide AllPass, Linked, Seen, ChildFits, KeyFits;
    ghost var claimed, claim: seq<JsonNode> := exists kids: seq<JsonNode> :: AllPass(node, kids, verdict), [];
    if claimed {
      claim :| AllPass(node, claim, verdict);
    }
    ok := false;
    var head, tail := node.head, node.tail;
    WalkStarts(node, claim, verdict);
    if head == null || tail == null {
      return head == null && tail == null;
    }
    if head.prev != null {
      return;
    }
    var child: JsonNode?, last: JsonNode? := head, null;
    ghost var seen: seq<JsonNode>, unseen := [], world;
    while child != null
      invariant !ok && Seen(node, seen) && last == ChildAt(seen, |seen| - 1) && (seen != [] ==> seen[0] == head)
      invariant child == if seen == [] then head else seen[|seen| - 1].next
      invariant child != null ==> child in world && child !in seen && child.prev == last
      invariant forall i | 0 <= i < |seen| :: KeyFits(node, seen[i]) && verdict(seen[i])
      invariant claimed == exists kids: seq<JsonNode> :: AllPass(node, kids, verdict)
      invariant claimed ==> AllPass(node, claim, verdict) && seen <= claim
      invariant forall x | x in world && x !in seen :: x in unseen
      decreases unseen
    {
      if claimed {
        ListFits(node, claim, verdict, seen, child);
      }
      if !ChildFits(node, head, child) {
        return;
      }
      if !verdict(child) {
        return;
      }
      FitsGives(node, head, child);
      SeenExtends(node, seen, child);
      seen, unseen := seen + [child], unseen - {child};
      if child.next != null {
        NextIsNew(node, seen, child.next);
      }
      last, child := child, child.next;
    }
    if claimed {
      ListEnds(node, claim, verdict, seen);
    }
    if last != tail {
      return;
    }
    SeenIsLinked(node, seen);
    assert AllPass(node, seen, verdict) by { AllSeenPass(node, seen, verdict); }
    return true;
  }

  lemma AllSeenPass(p: JsonNode, seen: seq<JsonNode>, verdict: JsonNode -> bool)
    requires Linked(p, seen) && forall i | 0 <= i < |seen| :: KeyFits(p, seen[i]) && verdict(seen[i])
    ensures AllPass(p, seen, verdict)
  {
  }

  lemma WalkStarts(p: JsonNode, claim: seq<JsonNode>, verdict: JsonNode -> bool)
    ensures Seen(p, []) && (p.head == null && p.tail == null ==> AllPass(p, [], verdict))
    ensures AllPass(p, claim, verdict) ==>
              (p.head == null <==> p.tail == null) && (p.head != null ==> p.head.prev == null)
  {
    if AllPass(p, claim, verdict) && claim != [] {
      assert LinkedAt(p, claim, 0);
    }
  }

  lemma FitsGives(p: JsonNode, head: JsonNode, c: JsonNode)
    requires ChildFits(p, head, c)
    ensures c != p && c.next != head && c.parent == p && (c.next != null ==> c.next.prev == c) && KeyFits(p, c)
  {
  }

  /** Where a well-formed list agrees with the walk so far, it also fits in the next step. */
  lemma ListFits(p: JsonNode, list: seq<JsonNode>, verdict: JsonNode -> bool, seen: seq<JsonNode>, child: JsonNode)
    requires AllPass(p, list, verdict) && seen <= list
    requires if seen == [] then p.head == child else seen[|seen| - 1].next == child
    ensures seen + [child] <= list && p.head != null && ChildFits(p, p.head, child) && verdict(child)
  {
    var k := |seen|;
    if k > 0 {
      assert LinkedAt(p, list, k - 1);
    }
    assert LinkedAt(p, list, k);
    if k + 1 < |list| {
      assert LinkedAt(p, list, k + 1);
    }
  }

  lemma ListEnds(p: JsonNode, list: seq<JsonNode>, verdict: JsonNode -> bool, seen: seq<JsonNode>)
    requires AllPass(p, list, verdict) && seen <= list && seen != [] && seen[|seen| - 1].next == null
    ensures p.tail == seen[|seen| - 1]
  {
    assert LinkedAt(p, list, |seen| - 1);
  }

  // ----- json_check -----

  /** Following the links from `world` stays in `world`. The set of all nodes is one such world. */
  ghost predicate Closed(world: set<JsonNode>)
    reads world
  {
    forall x | x in world ::
      (IsContainer(x) && x.head != null ==> x.head in world) && (x.next != null ==> x.next in world)
  }

  /** json_check: the result, if it takes at most `fuel` nested calls and rounds of the walk. */
  ghost function Check(world: set<JsonNode>, n: JsonNode, fuel: nat): Option<bool>
    requires Closed(world) && n in world
    reads world
    decreases fuel
  {
    if fuel == 0 then None
    else if !ContentsOk(n) then Some(false)
    else if !IsContainer(n) then Some(true)
    else if n.head == null || n.tail == null then Some(n.head == null && n.tail == null)
    else if n.head.prev != null then Some(false)
    else Walk(world, n, n.head, null, fuel - 1)
  }

  /** The walk from `child` on, behind `last`. */
  ghost function Walk(world: set<JsonNode>, p: JsonNode, child: JsonNode?, last: JsonNode?, fuel: nat): Option<bool>
    requires Closed(world) && p in world && p.head != null && (child != null ==> child in world)
    reads world
    decreases fuel
  {
    if fuel == 0 then None
    else if child == null then Some(last == p.tail)
    else if !ChildFits(p, p.head, child) then Some(false)
    else
      var r := Check(world, child, fuel - 1);
      if r == Some(true) then Walk(world, p, child.next, child, fuel - 1) else r
  }

  /** json_check, wherever it returns. */
  method JsonCheck(node: JsonNode, ghost world: set<JsonNode>, ghost fuel: nat) returns (ok: bool)
    requires Closed(world) && node in world && Check(world, node, fuel).Some?
    ensures Check(world, node, fuel) == Some(ok)
    decreases fuel
  {
    if node.key.Some? && !Utf8.Valid(node.key.value) {
      return false;
    }
    if node.tag == StringTag {
      if node.str.None? {
        return false;
      }
      if !Utf8.Valid(node.str.value) {
        return false;
      }
    } else if node.tag == ArrayTag || node.tag == ObjectTag {
      ok := CheckChildren(node, world, fuel);
      return;
    }
    return true;
  }

  /** The part of json_check for arrays and objects. */
  method CheckChildren(node: JsonNode, ghost world: set<JsonNode>, ghost fuel: nat) returns (ok: bool)
    requires Closed(world) && node in world && Check(world, node, fuel).Some? && IsContainer(node) && ContentsOk(node)
    ensures Check(world, node, fuel) == Some(ok)
    decreases fuel, 0
  {
    hide ContentsOk, ChildFits;
    var head, tail := node.head, node.tail;
    if head == null || tail == null {
      return head == null && tail == null;
    }
    if head.prev != null {
      return false;
    }
    var child: JsonNode?, last: JsonNode? := head, null;
    ghost var f: nat := fuel - 1;
    while child != null
      invariant Closed(world) && f < fuel && (child != null ==> child in world)
      invariant node.head != null && Walk(world, node, child, last, f) == Check(world, node, fuel)
      decreases f
    {
      if !ChildFits(node, head, child) {
        return false;
      }
      ok := JsonCheck(child, world, f - 1);
      if !ok {
        return;
      }
      last, child, f := child, child.next, f - 1;
    }
    return last == tail;
  }

  // ----- json_check passes exactly on well-formed trees -----

  lemma {:induction false} CheckSound(world: set<JsonNode>, n: JsonNode, fuel: nat) returns (t: NodeTree)
    requires Closed(world) && n in world && Check(world, n, fuel) == Some(true)
    ensures t.node == n && IsTree(t)
    decreases fuel, 0
  {
    hide Closed, ContentsOk, Walk, ContainerOk;
    t := NodeTree(n, []);
    if IsContainer(n) {
      if n.head == null {
        NoChildrenOk(n);
      } else {
        NothingSeen(n);
        HeadInside(world, n);
        var kids := WalkSound(world, n, [], [], n.head, null, fuel - 1);
        t := NodeTree(n, kids);
      }
    }
  }

  lemma NoChildrenOk(n: JsonNode)
    requires n.head == null && n.tail == null
    ensures ContainerOk(NodeTree(n, []))
  {
    assert Roots([]) == [];
  }

  lemma NothingSeen(p: JsonNode)
    ensures Seen(p, []) && AreTrees(p, [], [])
  {
  }

  /** The walk from `child` on, behind the children `seen`. */
  lemma {:induction false} WalkSound(world: set<JsonNode>, p: JsonNode, seen: seq<JsonNode>, kids: seq<NodeTree>,
                                     child: JsonNode?, last: JsonNode?, fuel: nat) returns (all: seq<NodeTree>)
    requires Closed(world) && p in world && p.head != null && (child != null ==> child in world)
    requires Seen(p, seen) && AreTrees(p, seen, kids) && last == ChildAt(seen, |seen| - 1)
    requires child == (if seen == [] then p.head else seen[|seen| - 1].next) && (seen != [] ==> seen[0] == p.head)
    requires child != null ==> child !in seen && child.prev == last
    requires Walk(world, p, child, last, fuel) == Some(true)
    ensures ContainerOk(NodeTree(p, all))
    decreases fuel, 1
  {
    hide Closed, ChildFits, Seen, AreTrees, ContainerOk, Check, IsTree, KeyFits;
    if child == null {
      SeenIsLinked(p, seen);
      WalkGivesTree(p, seen, kids);
      all := kids;
    } else {
      FitsGives(p, p.head, child);
      var t := CheckSound(world, child, fuel - 1);
      SeenExtends(p, seen, child);
      TreesExtend(p, seen, kids, t);
      if child.next != null {
        NextIsNew(p, seen + [child], child.next);
        NextInside(world, child);
      }
      all := WalkSound(world, p, seen + [child], kids + [t], child.next, child, fuel - 1);
    }
  }

  lemma HeadInside(world: set<JsonNode>, x: JsonNode)
    requires Closed(world) && x in world && IsContainer(x) && x.head != null
    ensures x.head in world
  {
  }

  lemma NextInside(world: set<JsonNode>, x: JsonNode)
    requires Closed(world) && x in world && x.next != null
    ensures x.next in world
  {
  }

  lemma WalkGivesTree(node: JsonNode, seen: seq<JsonNode>, kids: seq<NodeTree>)
    requires Linked(node, seen) && AreTrees(node, seen, kids)
    ensures ContainerOk(NodeTree(node, kids))
  {
    hide IsTree, Linked;
    assert Roots(kids) == seen;
  }

  /** More fuel does not change a result. */
  lemma {:induction false} MoreFuel(world: set<JsonNode>, n: JsonNode, f: nat, g: nat)
    requires Closed(world) && n in world && Check(world, n, f).Some? && f <= g
    ensures Check(world, n, g) == Check(world, n, f)
    decreases f, 0
  {
    hide Closed, ContentsOk;
    if Check(world, n, f) != Check(world, n, g) {
      HeadInside(world, n);
      MoreFuelToWalk(world, n, n.head, null, f - 1, g - 1);
    }
  }

  lemma {:induction false} MoreFuelToWalk(world: set<JsonNode>, p: JsonNode, child: JsonNode?, last: JsonNode?,
                                          f: nat, g: nat)
    requires Closed(world) && p in world && p.head != null && (child != null ==> child in world)
    requires Walk(world, p, child, last, f).Some? && f <= g
    ensures Walk(world, p, child, last, g) == Walk(world, p, child, last, f)
    decreases f, 1
  {
    hide Closed, ChildFits, Check;
    if child != null && ChildFits(p, p.head, child) {
      MoreFuel(world, child, f - 1, g - 1);
      if child.next != null {
        NextInside(world, child);
      }
      if Check(world, child, f - 1) == Some(true) {
        MoreFuelToWalk(world, p, child.next, child, f - 1, g - 1);
      }
    }
  }

  lemma {:induction false} CheckComplete(world: set<JsonNode>, t: NodeTree) returns (fuel: nat)
    requires Closed(world) && t.node in world && IsTree(t)
    ensures Check(world, t.node, fuel) == Some(true)
    decreases t, |t.kids| + 1
  {
    fuel := 1;
    if IsContainer(t.node) && t.kids != [] {
      RootsOfKids(t, 0);
      var f := WalkComplete(world, t, 0);
      fuel := f + 1;
    }
  }

  /** The walk from child `i` on. */
  lemma {:induction false} WalkComplete(world: set<JsonNode>, t: NodeTree, i: nat) returns (fuel: nat)
    requires Closed(world) && t.node in world && ContainerOk(t) && t.kids != [] && i <= |t.kids|
    requires t.node.head != null && (i < |t.kids| ==> t.kids[i].node in world)
    ensures Walk(world, t.node, ChildAt(Roots(t.kids), i), ChildAt(Roots(t.kids), i - 1), fuel) == Some(true)
    decreases t, |t.kids| - i
  {
    hide Closed, Check, ChildFits, IsTree;
    RootsOfKids(t, i);
    if i == |t.kids| {
      fuel := 1;
    } else {
      var kid := t.kids[i];
      RootsOfKids(t, i + 1);
      if kid.node.next != null {
        NextInside(world, kid.node);
      }
      var f := CheckComplete(world, kid);
      var g := WalkComplete(world, t, i + 1);
      var m := if f < g then g else f;
      MoreFuel(world, kid.node, f, m);
      MoreFuelToWalk(world, t.node, ChildAt(Roots(t.kids), i + 1), kid.node, g, m);
      fuel := m + 1;
    }
  }

  /** What the links say around child `i`. */
  lemma RootsOfKids(t: NodeTree, i: nat)
    requires ContainerOk(t) && t.kids != [] && i <= |t.kids|
    ensures t.node.head == t.kids[0].node && t.node.tail == t.kids[|t.kids| - 1].node && t.node.head.prev == null
    ensures ChildAt(Roots(t.kids), i) == (if i < |t.kids| then t.kids[i].node else null)
    ensures ChildAt(Roots(t.kids), i - 1) == (if i > 0 then t.kids[i - 1].node else null)
    ensures i < |t.kids| ==> IsTree(t.kids[i]) && ChildFits(t.node, t.node.head, t.kids[i].node)
    ensures i < |t.kids| ==> t.kids[i].node.next == ChildAt(Roots(t.kids), i + 1)
  {
    hide IsTree;
    assert LinkedAt(t.node, Roots(t.kids), 0);
    if i < |t.kids| {
      assert LinkedAt(t.node, Roots(t.kids), i) && KeyFits(t.node, t.kids[i].node);
      if i + 1 < |t.kids| {
        assert LinkedAt(t.node, Roots(t.kids), i + 1);
      }
    }
  }

  /** On every heap: json_check returns true if and only if the node is the root of a well-formed tree. */
  lemma PassesExactlyTrees(world: set<JsonNode>, n: JsonNode)
    requires Closed(world) && n in world
    ensures (exists fuel: nat :: Check(world, n, fuel) == Some(true))
       <==> (exists t: NodeTree :: t.node == n && IsTree(t))
  {
    hide Check, IsTree, Closed;
    if fuel: nat :| Check(world, n, fuel) == Some(true) {
      var t := CheckSound(world, n, fuel);
      assert t.node == n && IsTree(t);
    }
    if t: NodeTree :| t.node == n && IsTree(t) {
      var fuel := CheckComplete(world, t);
    }
  }
}
