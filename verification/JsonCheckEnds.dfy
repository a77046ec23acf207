/** When json_check returns: exactly when it never enters a node below itself. */
module JsonCheckEnds {
  import opened Bytes
  import opened JsonNodes
  import opened JsonCheck

  ghost predicate Returns(world: set<JsonNode>, n: JsonNode)
    requires Closed(world) && n in world
    reads world
  {
    exists fuel: nat :: Check(world, n, fuel).Some?
  }

  ghost predicate Passes(world: set<JsonNode>, n: JsonNode)
    requires Closed(world) && n in world
    reads world
  {
    exists fuel: nat :: Check(world, n, fuel) == Some(true)
  }

  /** json_check gets as far as the walk over the children of `p`. */
  ghost predicate Opens(world: set<JsonNode>, p: JsonNode)
    requires Closed(world) && p in world
    reads world
  {
    ContentsOk(p) && IsContainer(p) && p.head != null && p.tail != null && p.head.prev == null
  }

  /** The node that `k` next pointers lead to from the head of `p`. */
  ghost function Sibling(world: set<JsonNode>, p: JsonNode, k: nat): (c: JsonNode?)
    requires Closed(world) && p in world && IsContainer(p)
    reads world
    ensures c != null ==> c in world
  {
    if k == 0 then p.head
    else
      var c := Sibling(world, p, k - 1);
      if c == null then null else c.next
  }

  /** The walk over the children of `p` reaches number `k`: it exists and its links fit. */
  ghost predicate Fits(world: set<JsonNode>, p: JsonNode, k: nat)
    requires Closed(world) && p in world && Opens(world, p)
    reads world
  {
    var c := Sibling(world, p, k);
    c != null && ChildFits(p, p.head, c)
  }

  /** The check of `p` calls itself on its child number `k`: all children up to it fit, and those in front
      of it pass. */
  ghost predicate EntersChild(world: set<JsonNode>, p: JsonNode, k: nat)
    requires Closed(world) && p in world
    reads world
  {
    Opens(world, p) && forall j: nat | j <= k :: Fits(world, p, j) && (j < k ==> Passes(world, Sibling(world, p, j)))
  }

  ghost predicate Enters(world: set<JsonNode>, p: JsonNode, c: JsonNode)
    requires Closed(world) && p in world
    reads world
  {
    exists k: nat :: EntersChild(world, p, k) && Sibling(world, p, k) == c
  }

  /** A sequence of nested calls. */
  ghost predicate IsDescent(world: set<JsonNode>, path: seq<JsonNode>)
    requires Closed(world)
    reads world
  {
    && path != [] && (forall i | 0 <= i < |path| :: path[i] in world)
    && forall i: nat | i + 1 < |path| :: Enters(world, path[i], path[i + 1])
  }

  // ----- A nested call takes less fuel -----

  lemma PassesNow(world: set<JsonNode>, c: JsonNode, fuel: nat)
    requires Closed(world) && c in world && Passes(world, c) && Check(world, c, fuel).Some?
    ensures Check(world, c, fuel) == Some(true)
  {
    var f: nat :| Check(world, c, f) == Some(true);
    if f <= fuel {
      MoreFuel(world, c, f, fuel);
    } else {
      MoreFuel(world, c, fuel, f);
    }
  }

  /** Where the walk gets to child `k`, so much fuel is left. */
  lemma {:induction false} WalkGetsTo(world: set<JsonNode>, p: JsonNode, k: nat, fuel: nat) returns (f: nat)
    requires Closed(world) && p in world && EntersChild(world, p, k) && Check(world, p, fuel).Some?
    ensures f < fuel
    ensures var last := if k == 0 then null else Sibling(world, p, k - 1);
            Walk(world, p, Sibling(world, p, k), last, f) == Check(world, p, fuel)
  {
    hide ChildFits, ContentsOk, Passes;
    if k == 0 {
      f := fuel - 1;
    } else {
      var g := WalkGetsTo(world, p, k - 1, fuel);
      var c := Sibling(world, p, k - 1);
      assert Fits(world, p, k - 1) && Passes(world, c);
      PassesNow(world, c, g - 1);
      f := g - 1;
    }
  }

  lemma EnteredReturns(world: set<JsonNode>, p: JsonNode, c: JsonNode, fuel: nat) returns (f: nat)
    requires Closed(world) && p in world && Enters(world, p, c) && Check(world, p, fuel).Some?
    ensures c in world && f < fuel && Check(world, c, f).Some?
  {
    hide ChildFits, Check;
    var k: nat :| EntersChild(world, p, k) && Sibling(world, p, k) == c;
    assert Fits(world, p, k);
    var g := WalkGetsTo(world, p, k, fuel);
    f := g - 1;
  }

  /** Every call in a descent takes less fuel than the one it is made from. */
  lemma {:induction false} DescentShrinks(world: set<JsonNode>, path: seq<JsonNode>, i: nat, j: nat, fuel: nat)
    returns (f: nat)
    requires Closed(world) && IsDescent(world, path) && i <= j < |path| && Check(world, path[i], fuel).Some?
    ensures f <= fuel - (j - i) && Check(world, path[j], f).Some?
    decreases j
  {
    hide Check, Enters;
    if i == j {
      f := fuel;
    } else {
      var g := DescentShrinks(world, path, i, j - 1, fuel);
      assert Enters(world, path[j - 1], path[j - 1 + 1]);
      f := EnteredReturns(world, path[j - 1], path[j], g);
    }
  }

  lemma {:induction false} LeastFuel(world: set<JsonNode>, n: JsonNode, fuel: nat) returns (f: nat)
    requires Closed(world) && n in world && Check(world, n, fuel).Some?
    ensures Check(world, n, f).Some? && forall g: nat | g < f :: Check(world, n, g).None?
  {
    hide Check;
    if g: nat :| g < fuel && Check(world, n, g).Some? {
      f := LeastFuel(world, n, g);
    } else {
      f := fuel;
    }
  }

  /** If json_check returns, no descent from the node enters a node twice. */
  lemma NoNodeTwice(world: set<JsonNode>, path: seq<JsonNode>)
    requires Closed(world) && IsDescent(world, path) && Returns(world, path[0])
    ensures Distinct(path)
  {
    hide Check, Enters;
    forall i, j | 0 <= i < j < |path| ensures path[i] != path[j] {
      var fuel: nat :| Check(world, path[0], fuel).Some?;
      var f := DescentShrinks(world, path, 0, i, fuel);
      var least := LeastFuel(world, path[i], f);
      var g := DescentShrinks(world, path, i, j, least);
    }
  }

  // ----- Without repetition, it returns -----

  function Others(world: set<JsonNode>, s: seq<JsonNode>): set<JsonNode> {
    world - set x | x in s
  }

  lemma FewerOthers(world: set<JsonNode>, s: seq<JsonNode>, c: JsonNode)
    requires c in world && c !in s
    ensures Others(world, s + [c]) < Others(world, s)
  {
    assert c in Others(world, s) && c !in Others(world, s + [c]);
  }

  lemma DescentExtends(world: set<JsonNode>, path: seq<JsonNode>, c: JsonNode)
    requires Closed(world) && IsDescent(world, path) && c in world && Enters(world, path[|path| - 1], c)
    ensures IsDescent(world, path + [c])
  {
    hide Enters;
    var q := path + [c];
    forall i: nat | i + 1 < |q| ensures Enters(world, q[i], q[i + 1]) {
      if i + 1 < |path| {
        assert Enters(world, path[i], path[i + 1]);
      }
    }
  }

  /** A call returns if no descent enters a node twice: every call inside it enters one node more. */
  lemma {:induction false} CallReturns(world: set<JsonNode>, path: seq<JsonNode>) returns (fuel: nat)
    requires Closed(world) && path != [] && IsDescent(world, path)
    requires forall q: seq<JsonNode> | IsDescent(world, q) && q[0] == path[0] :: Distinct(q)
    ensures Check(world, path[|path| - 1], fuel).Some?
    decreases Others(world, path), 1, world
  {
    hide Closed, IsDescent, Walk, ContentsOk, Distinct, Others;
    var p := path[|path| - 1];
    LastInside(world, path);
    fuel := 1;
    if Opens(world, p) {
      HeadInside(world, p);
      NothingSeen(p);
      var f := WalkReturns(world, path, [], p.head, null);
      fuel := f + 1;
    }
  }

  lemma LastInside(world: set<JsonNode>, path: seq<JsonNode>)
    requires Closed(world) && IsDescent(world, path)
    ensures path[|path| - 1] in world
  {
  }

  /** The walk from `child` on, behind the children `seen`, all of which passed. */
  ghost predicate AllPassed(world: set<JsonNode>, p: JsonNode, seen: seq<JsonNode>)
    requires Closed(world) && p in world && Opens(world, p)
    reads world
  {
    forall j: nat | j < |seen| ::
      Sibling(world, p, j) == seen[j] && Fits(world, p, j) && Passes(world, Sibling(world, p, j))
  }

  lemma {:induction false} WalkReturns(world: set<JsonNode>, path: seq<JsonNode>, seen: seq<JsonNode>,
                                       child: JsonNode?, last: JsonNode?) returns (fuel: nat)
    requires Closed(world) && path != [] && IsDescent(world, path)
    requires forall q: seq<JsonNode> | IsDescent(world, q) && q[0] == path[0] :: Distinct(q)
    requires var p := path[|path| - 1]; p in world && Opens(world, p) && Seen(p, seen) && AllPassed(world, p, seen)
    requires var p := path[|path| - 1];
             child == (if seen == [] then p.head else seen[|seen| - 1].next) && (seen != [] ==> seen[0] == p.head)
    requires last == ChildAt(seen, |seen| - 1)
    requires child != null ==> child in world && child !in seen && child.prev == last
    ensures Walk(world, path[|path| - 1], child, last, fuel).Some?
    decreases Others(world, path), 0, Others(world, seen)
  {
    hide Closed, IsDescent, Check, Opens, Seen, ChildFits, Passes, Distinct, Others;
    var p := path[|path| - 1];
    fuel := 1;
    if child != null && ChildFits(p, p.head, child) {
      var q := path + [child];
      EntersNext(world, p, seen, child);
      DescentExtends(world, path, child);
      NewInPath(path, child);
      FewerOthers(world, path, child);
      FewerOthers(world, seen, child);
      var f := CallReturns(world, q);
      fuel := f + 1;
      if Check(world, child, f) == Some(true) {
        FitsGives(p, p.head, child);
        SeenExtends(p, seen, child);
        PassedExtends(world, p, seen, child, f);
        if child.next != null {
          NextIsNew(p, seen + [child], child.next);
          NextInside(world, child);
        }
        var g := WalkReturns(world, path, seen + [child], child.next, child);
        var m := if f < g then g else f;
        MoreFuel(world, child, f, m);
        MoreFuelToWalk(world, p, child.next, child, g, m);
        fuel := m + 1;
      }
    }
  }

  lemma EntersNext(world: set<JsonNode>, p: JsonNode, seen: seq<JsonNode>, child: JsonNode)
    requires Closed(world) && p in world && Opens(world, p) && AllPassed(world, p, seen)
    requires child == (if seen == [] then p.head else seen[|seen| - 1].next)
    requires child in world && ChildFits(p, p.head, child)
    ensures Sibling(world, p, |seen|) == child && Fits(world, p, |seen|) && Enters(world, p, child)
  {
    hide Closed, ChildFits, Passes;
    assert Sibling(world, p, |seen|) == child;
    assert EntersChild(world, p, |seen|);
  }

  lemma PassedExtends(world: set<JsonNode>, p: JsonNode, seen: seq<JsonNode>, child: JsonNode, fuel: nat)
    requires Closed(world) && p in world && Opens(world, p) && AllPassed(world, p, seen) && child in world
    requires Sibling(world, p, |seen|) == child && Fits(world, p, |seen|) && Check(world, child, fuel) == Some(true)
    ensures AllPassed(world, p, seen + [child])
  {
    hide Closed, Opens, ChildFits, Check, Fits, Sibling;
  }

  lemma NewInPath(path: seq<JsonNode>, c: JsonNode)
    requires Distinct(path + [c])
    ensures c !in path
  {
    forall i | 0 <= i < |path| ensures path[i] != c {
      assert (path + [c])[i] != (path + [c])[|path|];
    }
  }

  /** json_check returns if and only if no descent from the node enters a node twice: no node is entered
      below itself. */
  lemma ReturnsExactly(world: set<JsonNode>, n: JsonNode)
    requires Closed(world) && n in world
    ensures Returns(world, n) <==>
            forall path: seq<JsonNode> | IsDescent(world, path) && path[0] == n :: Distinct(path)
  {
    hide Enters, Check, Distinct;
    if Returns(world, n) {
      forall path: seq<JsonNode> | IsDescent(world, path) && path[0] == n ensures Distinct(path) {
        NoNodeTwice(world, path);
      }
    } else if forall path: seq<JsonNode> | IsDescent(world, path) && path[0] == n :: Distinct(path) {
      var fuel := CallReturns(world, [n]);
    }
  }

  // ----- A heap on which it does not return -----

  /** The array `a` has the only child `b`. */
  ghost predicate OnlyChild(a: JsonNode, b: JsonNode)
    reads a, b
  {
    && a.tag == ArrayTag && a.head == b && a.tail == b
    && b.parent == a && b.prev == null && b.next == null && b.key == None
  }

  /** Two arrays that are each other's only child pass every check of their links, and json_check calls itself
      on one from the other for ever. */
  lemma {:induction false} CycleNeverReturns(world: set<JsonNode>, a: JsonNode, b: JsonNode, fuel: nat)
    requires Closed(world) && a in world && b in world && a != b && OnlyChild(a, b) && OnlyChild(b, a)
    ensures Check(world, a, fuel) == None
    decreases fuel
  {
    if fuel > 1 {
      assert Check(world, a, fuel) == Walk(world, a, b, null, fuel - 1);
      CycleNeverReturns(world, b, a, fuel - 2);
    }
  }

  /** Such a heap: both lists of children are well formed. */
  method TwoNodeCycle() returns (a: JsonNode, b: JsonNode)
    ensures fresh(a) && fresh(b) && a != b && Linked(a, [b]) && Linked(b, [a]) && Closed({a, b})
    ensures !Returns({a, b}, a) && !Returns({a, b}, b)
  {
    a := new JsonNode(ArrayTag);
    b := new JsonNode(ArrayTag);
    a.parent, a.head, a.tail := b, b, b;
    b.parent, b.head, b.tail := a, a, a;
    forall fuel: nat ensures Check({a, b}, a, fuel) == None && Check({a, b}, b, fuel) == None {
      CycleNeverReturns({a, b}, a, b, fuel);
      CycleNeverReturns({a, b}, b, a, fuel);
    }
  }
}
