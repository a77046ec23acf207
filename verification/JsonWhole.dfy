/** The parts of the JSON library put together: the nodes that json_decode returns are the ones that
    json_check passes, json_stringify prints, and json_delete frees. */
module JsonWhole {
  import opened Bytes
  import opened Json
  import opened JsonNodes
  import opened JsonTrees
  import opened JsonParser
  import opened JsonPrinter
  import opened JsonCheck
  import opened JsonDelete
  import opened JsonRoundTrip
  import Utf8

  lemma {:induction false} PrintableIsTree(t: NodeTree, v: Tree, num: Naming)
    requires Holds(t, v, num) && TreeOk(v) && (t.node.key.Some? ==> Utf8.Valid(t.node.key.value))
    ensures IsTree(t)
    decreases t
  {
    if v.Container? {
      forall i | 0 <= i < |t.kids| ensures IsTree(t.kids[i]) && KeyFits(t.node, t.kids[i].node) {
        assert ChildOk(v.children[i], v.isObject);
        PrintableIsTree(t.kids[i], v.children[i].value, num);
      }
    }
  }

  /** The links of a tree do not leave it, except for the next pointer of its root. */
  lemma {:induction false} LinksInside(t: NodeTree, x: JsonNode)
    requires IsTree(t) && x in Nodes(t)
    ensures IsContainer(x) && x.head != null ==> x.head in Nodes(t)
    ensures x != t.node && x.next != null ==> x.next in Nodes(t)
    decreases t
  {
    hide ContentsOk, KeyFits;
    if x == t.node {
      RootsAreNodes(t);
    } else {
      RootIsInside(t);
      var i :| 0 <= i < |t.kids| && x in Nodes(t.kids[i]);
      LinksInside(t.kids[i], x);
      RootsAreNodes(t);
      assert LinkedAt(t.node, Roots(t.kids), i);
    }
  }

  lemma RootClosesTree(t: NodeTree)
    requires IsTree(t) && t.node.next == null
    ensures Closed(Nodes(t)) && t.node in Nodes(t)
  {
    hide IsTree, Nodes;
    RootIsInside(t);
    forall x | x in Nodes(t)
      ensures (IsContainer(x) && x.head != null ==> x.head in Nodes(t)) && (x.next != null ==> x.next in Nodes(t))
    {
      LinksInside(t, x);
    }
  }

  /** json_check returns, and passes, on everything that json_decode returns. */
  lemma DecodedPassesCheck(json: bytes, r: JsonNode, t: NodeTree, strtod: bytes -> Double) returns (fuel: nat)
    requires CString(json) && Decoded(json).Some? && IsRoot(r, t, Decoded(json).value, ReadAs(strtod))
    ensures IsTree(t) && Closed(Nodes(t)) && r in Nodes(t) && Check(Nodes(t), r, fuel) == Some(true)
  {
    hide Check, Nodes, IsTree, Closed;
    DecodedIsOk(json);
    PrintableIsTree(t, Decoded(json).value, ReadAs(strtod));
    RootClosesTree(t);
    fuel := CheckComplete(Nodes(t), t);
  }

  /** What the parser builds from the texts of numbers, the printer sees as the texts they are rendered as. */
  lemma {:induction false} RenderedHolds(t: NodeTree, v: Tree, strtod: bytes -> Double, sprintf: Double -> bytes)
    requires Holds(t, v, ReadAs(strtod))
    ensures Holds(t, Rendered(v, Render(strtod, sprintf)), WrittenAs(sprintf))
    decreases t
  {
    if v.Container? {
      forall i | 0 <= i < |t.kids|
        ensures Holds(t.kids[i], Rendered(v.children[i].value, Render(strtod, sprintf)), WrittenAs(sprintf))
      {
        RenderedHolds(t.kids[i], v.children[i].value, strtod, sprintf);
      }
    }
  }

  /** Strings of C, which end at their NUL. */
  ghost predicate CStrings(t: NodeTree)
    reads Nodes(t)
  {
    RootIsInside(t);
    && (t.node.tag == StringTag && t.node.str.Some? ==> CString(t.node.str.value))
    && (t.node.key.Some? ==> CString(t.node.key.value))
    && forall i | 0 <= i < |t.kids| :: CStrings(t.kids[i])
  }

  /** What json_check passes holds a value that json_stringify can print. */
  lemma {:induction false} CheckedIsPrintable(t: NodeTree, sprintf: Double -> bytes) returns (v: Tree)
    requires IsTree(t) && CStrings(t) && forall d: Double :: CString(sprintf(d))
    ensures Holds(t, v, WrittenAs(sprintf)) && TreeOk(v)
    decreases t, 1
  {
    match t.node.tag
    case NullTag => v := Null;
    case BoolTag => v := Bool(t.node.b);
    case StringTag => v := String(t.node.str.value);
    case NumberTag => v := Number(sprintf(t.node.number));
    case ArrayTag => v := CheckedContainer(t, sprintf);
    case ObjectTag => v := CheckedContainer(t, sprintf);
  }

  lemma {:induction false} CheckedContainer(t: NodeTree, sprintf: Double -> bytes) returns (v: Tree)
    requires ContainerOk(t) && CStrings(t) && (forall d: Double :: CString(sprintf(d))) && IsContainer(t.node)
    ensures Holds(t, v, WrittenAs(sprintf)) && TreeOk(v)
    decreases t, 0, |t.kids| + 1
  {
    var cs := CheckedKids(t, |t.kids|, sprintf);
    v := Container(t.node.tag == ObjectTag, cs);
  }

  lemma {:induction false} CheckedKids(t: NodeTree, n: nat, sprintf: Double -> bytes) returns (cs: seq<Child>)
    requires ContainerOk(t) && CStrings(t) && (forall d: Double :: CString(sprintf(d)))
    requires IsContainer(t.node) && n <= |t.kids|
    ensures |cs| == n
    ensures forall i | 0 <= i < n ::
              t.kids[i].node.key == cs[i].key && Holds(t.kids[i], cs[i].value, WrittenAs(sprintf))
    ensures forall i | 0 <= i < n :: ChildOk(cs[i], t.node.tag == ObjectTag)
    decreases t, 0, n
  {
    cs := [];
    if n > 0 {
      cs := CheckedKids(t, n - 1, sprintf);
      var v := CheckedIsPrintable(t.kids[n - 1], sprintf);
      cs := cs + [Child(t.kids[n - 1].node.key, v)];
    }
  }

  /** What json_check passes can be given to json_delete. */
  lemma {:induction false} CheckedHasShape(t: NodeTree)
    requires IsTree(t)
    ensures Shape(t)
    decreases t
  {
    forall i | 0 <= i < |t.kids| ensures Shape(t.kids[i]) {
      CheckedHasShape(t.kids[i]);
    }
  }

  /** json_decode, json_check, json_stringify and json_delete in a row: the check passes, the text is the one
      that Reencoding is about, every node of the tree is freed once, and no node is left over, whether the
      text is accepted or not. */
  method Reformat(json: bytes, space: Option<bytes>, strtod: bytes -> Double, sprintf: Double -> bytes, heap: Heap)
    returns (text: Option<bytes>, ghost t: Option<NodeTree>)
    requires CString(json) && (space.Some? ==> CString(space.value)) && forall d: Double :: CString(sprintf(d))
    modifies heap
    ensures text.Some? == Decoded(json).Some? == t.Some?
    ensures heap.live == old(heap.live)
    ensures text.Some? ==>
              var w := Rendered(Decoded(json).value, Render(strtod, sprintf));
              && TreeOk(w) && text.value == Printed(w, if space.None? then Compact else Indented(space.value), 0)
              && fresh(Nodes(t.value)) && heap.freed == old(heap.freed) + PostOrder(t.value)
              && Distinct(PostOrder(t.value))
  {
    hide IsRoot, Holds, Nodes, NodesOf, IsTree, Shape, Check, Closed, Rendered, Printed, TreeOk, PostOrder;
    var r;
    r, t := JsonDecode(json, strtod, heap);
    if r == null {
      return None, None;
    }
    ghost var tree, v := t.value, Decoded(json).value;
    ghost var w := Rendered(v, Render(strtod, sprintf));
    RootFacts(r, tree, v, strtod, sprintf);
    NodesExist(tree);
    RootIsInside(tree);
    DecodedIsPrintable(json, Render(strtod, sprintf));
    ghost var fuel := DecodedPassesCheck(json, r, tree, strtod);
    var ok := JsonCheck.JsonCheck(r, Nodes(tree), fuel);
    assert ok;
    var printed := JsonStringify(r, space, sprintf, tree, w);
    JsonDelete.JsonDelete(r, heap, tree, [], 0);
    return Some(printed), t;
  }

  lemma RootFacts(r: JsonNode, t: NodeTree, v: Tree, strtod: bytes -> Double, sprintf: Double -> bytes)
    requires IsRoot(r, t, v, ReadAs(strtod))
    ensures r == t.node && r in Nodes(t) && r.parent == null && Shape(t) && Distinct(PostOrder(t))
    ensures Holds(t, Rendered(v, Render(strtod, sprintf)), WrittenAs(sprintf))
  {
    RenderedHolds(t, v, strtod, sprintf);
    HoldsHasShape(t, v, ReadAs(strtod));
    ShapeIsSeparate(t);
    FreedOnce(t);
  }
}
