/** The nodes of the JSON library on the heap: children in a doubly linked list with parent pointers, and
    the operations that edit such lists. */
module JsonNodes {
  import opened Bytes

  datatype Tag = NullTag | BoolTag | StringTag | NumberTag | ArrayTag | ObjectTag

  /** A `double`, as its 64 bits. */
  type Double = x: int | 0 <= x < 0x1_0000_0000_0000_0000

  /** `struct JsonNode`. `str`, `b` and `number` are the value of a string, boolean or number node. */
  class JsonNode {
    var parent: JsonNode?
    var prev: JsonNode?
    var next: JsonNode?
    var key: Option<bytes>
    var tag: Tag
    var str: Option<bytes>
    var b: bool
    var number: Double
    var head: JsonNode?
    var tail: JsonNode?

    constructor (tag: Tag)
      ensures this.tag == tag && key == None && str == None
      ensures parent == null && prev == null && next == null && head == null && tail == null
    {
      this.tag := tag;
      parent, prev, next, head, tail := null, null, null, null, null;
      key, str := None, None;
    }
  }

  /** The allocator: the nodes that are allocated and not freed, and those that were freed, in order. */
  class Heap {
    ghost var live: set<JsonNode>
    ghost var freed: seq<JsonNode>

    ghost method Free(n: JsonNode)
      requires n in live
      modifies this
      ensures live == old(live) - {n} && freed == old(freed) + [n]
    {
      live, freed := live - {n}, freed + [n];
    }
  }

  /** mknode */
  method MkNode(tag: Tag, heap: Heap) returns (n: JsonNode)
    modifies heap
    ensures fresh(n) && n.tag == tag && n.key == None && n.str == None
    ensures n.parent == null && n.prev == null && n.next == null && n.head == null && n.tail == null
    ensures heap.live == old(heap.live) + {n} && heap.freed == old(heap.freed)
  {
    n := new JsonNode(tag);
    heap.live := heap.live + {n};
  }

  /** `kids` is the list of children of `p`, all links included. */
  ghost predicate Linked(p: JsonNode, kids: seq<JsonNode>)
    reads p, kids
  {
    && Distinct(kids) && p !in kids
    && p.head == ChildAt(kids, 0) && p.tail == ChildAt(kids, |kids| - 1)
    && forall i | 0 <= i < |kids| :: LinkedAt(p, kids, i)
  }

  /** The links of the child at position `i`. */
  ghost predicate LinkedAt(p: JsonNode, kids: seq<JsonNode>, i: nat)
    requires i < |kids|
    reads kids
  {
    kids[i].parent == p && kids[i].prev == ChildAt(kids, i - 1) && kids[i].next == ChildAt(kids, i + 1)
  }

  function ChildAt(kids: seq<JsonNode>, i: int): JsonNode? {
    if 0 <= i < |kids| then kids[i] else null
  }

  ghost predicate Distinct(kids: seq<JsonNode>) {
    forall i, j | 0 <= i < j < |kids| :: kids[i] != kids[j]
  }

  // ----- Editing the list of children -----

  // The `modifies` clauses name the fields that are written: no operation changes a tag or a value, and a
  // key only where its comment says so.

  function Node(n: JsonNode?): set<JsonNode> {
    if n == null then {} else {n}
  }

  // The parent of a node and its siblings, as sets.

  function Parent(n: JsonNode?): set<JsonNode>
    reads Node(n)
  {
    if n == null then {} else Node(n.parent)
  }

  function Before(n: JsonNode?): set<JsonNode>
    reads Node(n)
  {
    if n == null || n.parent == null then {} else Node(n.prev)
  }

  function Behind(n: JsonNode?): set<JsonNode>
    reads Node(n)
  {
    if n == null || n.parent == null then {} else Node(n.next)
  }

  /** Among the nodes of `world`, only children of `p` and nodes without a parent had their links
      changed, and only `p` its head and tail. */
  twostate predicate OnlyListOf(p: JsonNode, world: set<JsonNode>)
    reads world
  {
    && (forall q | q in world && q != p :: q.head == old(q.head) && q.tail == old(q.tail))
    && (forall x | x in world && old(x.parent) != p && old(x.parent) != null ::
          x.parent == old(x.parent) && x.prev == old(x.prev) && x.next == old(x.next))
  }

  /** Then the list of every other node is what it was. */
  twostate lemma OtherListsKept(p: JsonNode, world: set<JsonNode>, q: JsonNode, qs: seq<JsonNode>)
    requires OnlyListOf(p, world) && q in world && (forall x | x in qs :: x in world)
    requires q != p && old(Linked(q, qs))
    ensures Linked(q, qs)
  {
    forall i | 0 <= i < |qs| ensures LinkedAt(q, qs, i) {
      assert qs[i] in qs && old(LinkedAt(q, qs, i));
    }
  }

  lemma ChildrenOf(p: JsonNode, kids: seq<JsonNode>)
    requires Linked(p, kids)
    ensures forall x | x in kids :: x.parent == p
    ensures forall i | 0 <= i < |kids| :: kids[i].parent == p
  {
    forall i | 0 <= i < |kids| ensures kids[i].parent == p {
      assert LinkedAt(p, kids, i);
    }
  }

  /** append_node */
  method AppendNode(parent: JsonNode, child: JsonNode, ghost kids: seq<JsonNode>, ghost world: set<JsonNode>)
    requires Linked(parent, kids) && child.parent == null && child != parent
    modifies parent`head, parent`tail, child`parent, child`prev, child`next, Node(parent.tail)`next
    ensures Linked(parent, kids + [child]) && OnlyListOf(parent, world)
  {
    ChildrenOf(parent, kids);
    child.parent := parent;
    child.prev := parent.tail;
    child.next := null;
    if parent.tail != null {
      parent.tail.next := child;
    } else {
      parent.head := child;
    }
    parent.tail := child;
    forall i | 0 <= i < |kids| ensures LinkedAt(parent, kids + [child], i) {
      assert old(LinkedAt(parent, kids, i));
    }
    AppendLinks(parent, child, kids);
  }

  lemma AppendLinks(parent: JsonNode, child: JsonNode, kids: seq<JsonNode>)
    requires Distinct(kids) && parent !in kids && child !in kids && child != parent
    requires child.parent == parent && child.prev == ChildAt(kids, |kids| - 1) && child.next == null
    requires parent.head == (if kids == [] then child else kids[0]) && parent.tail == child
    requires forall i | 0 <= i < |kids| :: LinkedAt(parent, kids + [child], i)
    ensures Linked(parent, kids + [child])
  {
  }

  /** prepend_node */
  method PrependNode(parent: JsonNode, child: JsonNode, ghost kids: seq<JsonNode>, ghost world: set<JsonNode>)
    requires Linked(parent, kids) && child.parent == null && child != parent
    modifies parent`head, parent`tail, child`parent, child`prev, child`next, Node(parent.head)`prev
    ensures Linked(parent, [child] + kids) && OnlyListOf(parent, world)
  {
    ChildrenOf(parent, kids);
    child.parent := parent;
    child.prev := null;
    child.next := parent.head;
    if parent.head != null {
      parent.head.prev := child;
    } else {
      parent.tail := child;
    }
    parent.head := child;
    forall i | 0 < i <= |kids| ensures LinkedAt(parent, [child] + kids, i) {
      assert old(LinkedAt(parent, kids, i - 1));
    }
    PrependLinks(parent, child, kids);
  }

  lemma PrependLinks(parent: JsonNode, child: JsonNode, kids: seq<JsonNode>)
    requires Distinct(kids) && parent !in kids && child !in kids && child != parent
    requires child.parent == parent && child.prev == null && child.next == ChildAt(kids, 0)
    requires parent.head == child && parent.tail == (if kids == [] then child else kids[|kids| - 1])
    requires forall i | 0 < i <= |kids| :: LinkedAt(parent, [child] + kids, i)
    ensures Linked(parent, [child] + kids)
  {
  }

  /** json_append_member: the key is set, then the node appended. */
  method AppendMember(parent: JsonNode, key: bytes, value: JsonNode,
                      ghost kids: seq<JsonNode>, ghost world: set<JsonNode>)
    requires Linked(parent, kids) && value.parent == null && value != parent
    modifies parent`head, parent`tail, value`parent, value`prev, value`next, value`key, Node(parent.tail)`next
    ensures Linked(parent, kids + [value]) && OnlyListOf(parent, world)
    ensures value.key == Some(key)
  {
    value.key := Some(key);
    forall i | 0 <= i < |kids| ensures LinkedAt(parent, kids, i) {
      assert old(LinkedAt(parent, kids, i));
    }
    AppendNode(parent, value, kids, world + {value});
  }

  /** json_remove_from_parent of the child at position `k`. */
  method RemoveFromParent(node: JsonNode, ghost kids: seq<JsonNode>, ghost k: nat, ghost world: set<JsonNode>)
    requires node.parent != null ==> Linked(node.parent, kids) && k < |kids| && kids[k] == node
    modifies node`parent, node`prev, node`next, node`key
    modifies Parent(node)`head, Parent(node)`tail, Before(node)`next, Behind(node)`prev
    ensures old(node.parent) == null ==> unchanged(node)
    ensures old(node.parent) != null ==>
              && Linked(old(node.parent), Cut(kids, k)) && OnlyListOf(old(node.parent), world)
              && node.parent == null && node.prev == null && node.next == null && node.key == None
  {
    if node.parent != null {
      ChildrenOf(node.parent, kids);
      assert LinkedAt(node.parent, kids, k);
      Unlink(node, node.parent, kids, k);
    }
  }

  /** The body of json_remove_from_parent. */
  method Unlink(node: JsonNode, parent: JsonNode, ghost kids: seq<JsonNode>, ghost k: nat)
    requires Linked(parent, kids) && k < |kids| && kids[k] == node
    modifies node`parent, node`prev, node`next, node`key
    modifies parent`head, parent`tail, Node(node.prev)`next, Node(node.next)`prev
    ensures Linked(parent, Cut(kids, k))
    ensures node.parent == null && node.prev == null && node.next == null && node.key == None
  {
    ChildrenOf(parent, kids);
    assert LinkedAt(parent, kids, k);
    if node.prev != null {
      node.prev.next := node.next;
    } else {
      parent.head := node.next;
    }
    if node.next != null {
      node.next.prev := node.prev;
    } else {
      parent.tail := node.prev;
    }
    node.parent := null;
    node.prev, node.next := null, null;
    node.key := None;
    forall i | 0 <= i < |kids| && i != k ensures LinkedAround(parent, kids, k, i) {
      assert old(LinkedAt(parent, kids, i));
    }
    RemoveLinks(parent, kids, k);
  }

  /** The links of the child at position `i` when the list leaves out position `k`. */
  ghost predicate LinkedAround(p: JsonNode, kids: seq<JsonNode>, k: nat, i: nat)
    requires i < |kids|
    reads kids
  {
    && kids[i].parent == p
    && kids[i].prev == ChildAt(kids, if i == k + 1 then k - 1 else i - 1)
    && kids[i].next == ChildAt(kids, if i + 1 == k then k + 1 else i + 1)
  }

  lemma RemoveLinks(parent: JsonNode, kids: seq<JsonNode>, k: nat)
    requires k < |kids| && Distinct(kids) && parent !in kids
    requires parent.head == ChildAt(kids, if k == 0 then 1 else 0)
    requires parent.tail == ChildAt(kids, if k == |kids| - 1 then k - 1 else |kids| - 1)
    requires forall i | 0 <= i < |kids| && i != k :: LinkedAround(parent, kids, k, i)
    ensures Linked(parent, Cut(kids, k))
  {
    var rest := Cut(kids, k);
    forall i | 0 <= i < |rest| ensures LinkedAt(parent, rest, i) {
      CutAt(kids, k, i);
      assert LinkedAround(parent, kids, k, if i < k then i else i + 1);
    }
    CutAt(kids, k, 0);
    CutAt(kids, k, |rest| - 1);
    CutDistinct(kids, k);
  }

  /** The list without the child at position `k`. */
  function Cut(kids: seq<JsonNode>, k: nat): seq<JsonNode>
    requires k < |kids|
  {
    kids[..k] + kids[k + 1..]
  }

  lemma CutAt(kids: seq<JsonNode>, k: nat, i: int)
    requires k < |kids| && -1 <= i < |kids|
    ensures var j := if i < k then i else i + 1;
            && ChildAt(Cut(kids, k), i) == ChildAt(kids, j)
            && ChildAt(Cut(kids, k), i + 1) == ChildAt(kids, if j + 1 == k then k + 1 else j + 1)
            && ChildAt(Cut(kids, k), i - 1) == ChildAt(kids, if j == k + 1 then k - 1 else j - 1)
  {
  }

  lemma CutDistinct(kids: seq<JsonNode>, k: nat)
    requires k < |kids| && Distinct(kids)
    ensures Distinct(Cut(kids, k)) && forall x | x in Cut(kids, k) :: x in kids && x != kids[k]
  {
  }
}
