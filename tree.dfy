/** The node type of cJSON2.h, the arena that stands for the C heap, and the
    shape that every tree built by the parser keeps.

    A `cJSON *` is a `Ref`: NULL, or the index of a node in the arena. Nodes are
    appended one at a time and never move, so an index is a stable address. */
module Tree {

  datatype Option<T> = None | Some(value: T)

  /** cJSON_ValueType, in the order of the C enum: a zero-filled node is False. */
  datatype ValueType = False | True | Null | Number | String | Array | Object

  predicate IsContainer(t: ValueType) { t == Array || t == Object }

  /** A node pointer: NULL, or the arena index of a node. */
  datatype Ref = Nil | Ptr(index: nat)

  /** `valuedouble`, kept opaque: the text strtod converted, or one of the
      three special values the parser recognises itself. Zero is what memset
      leaves in a fresh node. */
  datatype NumberValue = Zero | Converted(text: string) | NegativeInfinity | PositiveInfinity | NotANumber

  /** struct cJSON. The C field `string` (an object member's key) is `key`. */
  datatype Node = Node(prev: Ref, next: Ref, parent: Ref, child: Ref, kind: ValueType,
                       valuestring: Option<string>, number: NumberValue, key: Option<string>)

  /** A node as new_node returns it: every byte zero. */
  const Blank: Node := Node(Nil, Nil, Nil, Nil, False, None, Zero, None)

  /** One call of the free_fn hook: a node's key, its valuestring, or the node itself. */
  datatype Release = ReleaseKey(owner: nat) | ReleaseValue(owner: nat) | ReleaseNode(node: nat)

  /** The free_fn calls that releasing `order`, node after node, makes. */
  function ReleaseCalls(order: seq<nat>): (calls: seq<Release>)
    ensures |calls| == 3 * |order|
  {
    if order == [] then []
    else ReleaseCalls(order[..|order| - 1]) + [ReleaseKey(order[|order| - 1]), ReleaseValue(order[|order| - 1]), ReleaseNode(order[|order| - 1])]
  }

  /** The k-th released node is preceded by the release of its key and its
      valuestring, in that order, and by nothing else since the previous node. */
  lemma {:induction false} ReleaseCallsInTriples(order: seq<nat>, k: nat)
    requires k < |order|
    ensures ReleaseCalls(order)[3 * k] == ReleaseKey(order[k])
    ensures ReleaseCalls(order)[3 * k + 1] == ReleaseValue(order[k])
    ensures ReleaseCalls(order)[3 * k + 2] == ReleaseNode(order[k])
    decreases |order|
  {
    var init := order[..|order| - 1];
    if k < |order| - 1 {
      ReleaseCallsInTriples(init, k);
    }
  }

  /** Releasing one node more appends its three calls. */
  lemma ReleaseCallsAppend(order: seq<nat>, c: nat)
    ensures ReleaseCalls(order + [c]) == ReleaseCalls(order) + [ReleaseKey(c), ReleaseValue(c), ReleaseNode(c)]
  {
    assert (order + [c])[..|order|] == order;
  }

  /** The memory the hooks manage. `nodes` holds every node ever allocated;
      `freed` records the nodes passed to free_fn, in order, and `calls` every
      free_fn call; `refused` whether malloc_fn has ever failed. The three
      are ghost: C keeps no such record. */
  class Heap {
    var nodes: seq<Node>
    ghost var freed: seq<nat>
    ghost var calls: seq<Release>
    ghost var refused: bool

    constructor ()
      ensures nodes == [] && freed == [] && calls == [] && !refused
    {
      nodes, freed, calls, refused := [], [], [], false;
    }

    /** malloc_fn: any request may fail. */
    method Malloc() returns (ok: bool)
      modifies this
      ensures nodes == old(nodes) && freed == old(freed) && calls == old(calls)
      ensures refused == (old(refused) || !ok)
    {
      ok :| true;
      if !ok {
        refused := true;
      }
    }

    /** new_node: allocate a node and zero it; NULL when malloc_fn fails. */
    method NewNode() returns (r: Ref)
      modifies this
      ensures freed == old(freed) && calls == old(calls) && refused == (old(refused) || r.Nil?)
      ensures r.Nil? ==> nodes == old(nodes)
      ensures r.Ptr? ==> r.index == |old(nodes)| && nodes == old(nodes) + [Blank]
    {
      var ok := Malloc();
      if ok {
        r := Ptr(|nodes|);
        nodes := nodes + [Blank];
      } else {
        r := Nil;
      }
    }

    /** free_fn: the call is logged; a released node is recorded in `freed`. */
    method Free(block: Release)
      modifies this
      ensures nodes == old(nodes) && calls == old(calls) + [block] && refused == old(refused)
      ensures freed == if block.ReleaseNode? then old(freed) + [block.node] else old(freed)
    {
      calls := calls + [block];
      if block.ReleaseNode? {
        freed := freed + [block.node];
      }
    }
  }

  predicate InRange(nodes: seq<Node>, r: Ref) { r.Ptr? ==> r.index < |nodes| }

  /** Node `i`'s links stay inside the arena and agree with the nodes they
      point at: a first child is the very next node allocated, a sibling comes
      later and shares the parent, a parent is a container with a child, and
      exactly node 0 has no parent. */
  ghost predicate LinkedAt(nodes: seq<Node>, i: nat)
    requires i < |nodes|
  {
    var n := nodes[i];
    && InRange(nodes, n.prev) && InRange(nodes, n.next) && InRange(nodes, n.parent) && InRange(nodes, n.child)
    && (n.child.Ptr? ==> n.child.index == i + 1 && nodes[i + 1].parent == Ptr(i) && nodes[i + 1].prev.Nil?)
    && (n.next.Ptr? ==> i < n.next.index && nodes[n.next.index].prev == Ptr(i) && nodes[n.next.index].parent == n.parent)
    && (n.prev.Ptr? ==> n.prev.index < i && nodes[n.prev.index].next == Ptr(i))
    && (n.parent.Ptr? ==> n.parent.index < i && IsContainer(nodes[n.parent.index].kind) && nodes[n.parent.index].child.Ptr?)
    && (n.parent.Ptr? && n.prev.Nil? ==> nodes[n.parent.index].child == Ptr(i))
    && (i == 0 <==> n.parent.Nil?)
  }

  ghost predicate Linked(nodes: seq<Node>) {
    forall i :: 0 <= i < |nodes| ==> LinkedAt(nodes, i)
  }

  /** `a` is a proper ancestor of `x`: it lies on x's chain of parents. */
  ghost predicate IsAncestor(nodes: seq<Node>, a: nat, x: nat)
    decreases x
  {
    x < |nodes| && nodes[x].parent.Ptr? && nodes[x].parent.index < x &&
    (a == nodes[x].parent.index || IsAncestor(nodes, a, nodes[x].parent.index))
  }

  /** Every node allocated after `c` lies in c's subtree. */
  ghost predicate Open(nodes: seq<Node>, c: nat) {
    forall x :: c < x < |nodes| ==> IsAncestor(nodes, c, x)
  }

  /** The arena lists the tree in pre-order: a subtree is a run of
      consecutive indices starting at its root. */
  ghost predicate PreOrder(nodes: seq<Node>) {
    // between an ancestor and its descendant lie only descendants
    && (forall a: nat, x: nat, y: nat :: a < x < y < |nodes| && IsAncestor(nodes, a, y) ==> IsAncestor(nodes, a, x))
    // between a node and its next sibling lie only its descendants
    && (forall i: nat, x: nat :: i < x < |nodes| && nodes[i].next.Ptr? && x < nodes[i].next.index ==> IsAncestor(nodes, i, x))
    // what follows the last child of p inside p's subtree is inside the last child's subtree
    && (forall c: nat, x: nat {:trigger IsAncestor(nodes, nodes[c].parent.index, x)} ::
          (c < x < |nodes| && nodes[c].next.Nil? && nodes[c].parent.Ptr? && IsAncestor(nodes, nodes[c].parent.index, x))
          ==> IsAncestor(nodes, c, x))
  }

  /** A tree rooted at node 0, as the parser builds it. */
  ghost predicate IsTree(nodes: seq<Node>) {
    |nodes| > 0 && Linked(nodes) && PreOrder(nodes)
  }

  /** The sibling chain that starts at `r`, following `next`. */
  ghost function Siblings(nodes: seq<Node>, r: Ref): seq<nat>
    requires Linked(nodes) && InRange(nodes, r)
    decreases if r.Ptr? then |nodes| - r.index else 0
  {
    if r.Nil? then []
    else
      assert LinkedAt(nodes, r.index);
      [r.index] + Siblings(nodes, nodes[r.index].next)
  }

  /** The members of node `i`, in order: its child, then that child's siblings. */
  ghost function Children(nodes: seq<Node>, i: nat): seq<nat>
    requires Linked(nodes) && i < |nodes|
  {
    assert LinkedAt(nodes, i);
    Siblings(nodes, nodes[i].child)
  }

  // ---------------------------------------------------------------------
  // Ancestry

  lemma {:induction false} AncestorBelow(nodes: seq<Node>, a: nat, x: nat)
    requires IsAncestor(nodes, a, x)
    ensures a < x < |nodes|
    decreases x
  {
    var p := nodes[x].parent.index;
    if a != p {
      AncestorBelow(nodes, a, p);
    }
  }

  lemma {:induction false} AncestorTransitive(nodes: seq<Node>, a: nat, b: nat, x: nat)
    requires IsAncestor(nodes, a, b) && IsAncestor(nodes, b, x)
    ensures IsAncestor(nodes, a, x)
    decreases x
  {
    var p := nodes[x].parent.index;
    if b != p {
      AncestorTransitive(nodes, a, b, p);
    }
  }

  /** A node without a child has no descendants. */
  lemma {:induction false} LeafHasNoDescendant(nodes: seq<Node>, c: nat, x: nat)
    requires Linked(nodes) && c < |nodes| && nodes[c].child.Nil?
    ensures !IsAncestor(nodes, c, x)
    decreases x
  {
    if x < |nodes| && nodes[x].parent.Ptr? && nodes[x].parent.index < x {
      var p := nodes[x].parent.index;
      assert LinkedAt(nodes, x);
      LeafHasNoDescendant(nodes, c, p);
    }
  }

  /** Every node but the root descends from the root. */
  lemma {:induction false} RootIsAncestorOfAll(nodes: seq<Node>, x: nat)
    requires Linked(nodes) && 0 < x < |nodes|
    ensures IsAncestor(nodes, 0, x)
    decreases x
  {
    assert LinkedAt(nodes, x);
    var p := nodes[x].parent.index;
    if p != 0 {
      RootIsAncestorOfAll(nodes, p);
    }
  }

  /** Ancestry depends only on the parent links, so it survives any change
      that keeps them and any growth of the arena. */
  lemma {:induction false} AncestorFrame(nodes: seq<Node>, nodes': seq<Node>, a: nat, x: nat)
    requires |nodes| <= |nodes'| && x < |nodes|
    requires forall i :: 0 <= i < |nodes| ==> nodes'[i].parent == nodes[i].parent
    ensures IsAncestor(nodes', a, x) == IsAncestor(nodes, a, x)
    decreases x
  {
    if nodes[x].parent.Ptr? && nodes[x].parent.index < x {
      AncestorFrame(nodes, nodes', a, nodes[x].parent.index);
    }
  }

  /** The node allocated last is open, and so is the parent of an open node. */
  lemma OpenParent(nodes: seq<Node>, c: nat)
    requires IsTree(nodes) && c < |nodes| && Open(nodes, c) && nodes[c].parent.Ptr?
    ensures Open(nodes, nodes[c].parent.index)
  {
    assert LinkedAt(nodes, c);
    var p := nodes[c].parent.index;
    forall x | p < x < |nodes|
      ensures IsAncestor(nodes, p, x)
    {
      assert IsAncestor(nodes, p, c);
      if x > c {
        AncestorTransitive(nodes, p, c, x);
      }
    }
  }

  /** An open node is the last of its siblings. */
  lemma OpenHasNoNext(nodes: seq<Node>, c: nat)
    requires Linked(nodes) && c < |nodes| && Open(nodes, c)
    ensures nodes[c].next.Nil?
  {
    assert LinkedAt(nodes, c);
    if nodes[c].next.Ptr? {
      var j := nodes[c].next.index;
      assert IsAncestor(nodes, c, j);
      assert LinkedAt(nodes, j);
      if nodes[c].parent.Ptr? {
        AncestorBelow(nodes, c, nodes[c].parent.index);
      }
      assert false;
    }
  }

  // ---------------------------------------------------------------------
  // Sibling chains

  lemma {:induction false} SiblingsAscend(nodes: seq<Node>, r: Ref)
    requires Linked(nodes) && InRange(nodes, r)
    ensures forall k :: 0 <= k < |Siblings(nodes, r)| ==> Siblings(nodes, r)[k] < |nodes|
    ensures forall k, l :: 0 <= k < l < |Siblings(nodes, r)| ==> Siblings(nodes, r)[k] < Siblings(nodes, r)[l]
    ensures r.Ptr? ==> forall k :: 0 <= k < |Siblings(nodes, r)| ==> r.index <= Siblings(nodes, r)[k]
    decreases if r.Ptr? then |nodes| - r.index else 0
  {
    if r.Ptr? {
      assert LinkedAt(nodes, r.index);
      SiblingsAscend(nodes, nodes[r.index].next);
    }
  }

  /** Every node of a chain has the parent of the chain's first node. */
  lemma {:induction false} SiblingsShareParent(nodes: seq<Node>, r: Ref, x: nat)
    requires Linked(nodes) && InRange(nodes, r) && x in Siblings(nodes, r)
    ensures r.Ptr? && x < |nodes| && nodes[x].parent == nodes[r.index].parent
    decreases if r.Ptr? then |nodes| - r.index else 0
  {
    assert LinkedAt(nodes, r.index);
    if x != r.index {
      SiblingsShareParent(nodes, nodes[r.index].next, x);
    }
  }

  /** A chain that holds a node holds that node's next sibling. */
  lemma {:induction false} SiblingsHoldNext(nodes: seq<Node>, r: Ref, q: nat)
    requires Linked(nodes) && InRange(nodes, r) && q < |nodes| && q in Siblings(nodes, r) && nodes[q].next.Ptr?
    ensures nodes[q].next.index in Siblings(nodes, r)
    decreases if r.Ptr? then |nodes| - r.index else 0
  {
    assert LinkedAt(nodes, r.index);
    if q != r.index {
      SiblingsHoldNext(nodes, nodes[r.index].next, q);
    }
  }

  /** The chain of i's members holds exactly the nodes whose parent is i,
      in the order they were allocated. */
  lemma {:induction false} ChildrenAreTheNodesWithThatParent(nodes: seq<Node>, i: nat, x: nat)
    requires Linked(nodes) && i < |nodes| && x < |nodes|
    ensures x in Children(nodes, i) <==> nodes[x].parent == Ptr(i)
    decreases x
  {
    assert LinkedAt(nodes, i);
    assert LinkedAt(nodes, x);
    if x in Children(nodes, i) {
      SiblingsShareParent(nodes, nodes[i].child, x);
      assert LinkedAt(nodes, i + 1);
    } else if nodes[x].parent == Ptr(i) {
      if nodes[x].prev.Ptr? {
        var q := nodes[x].prev.index;
        assert LinkedAt(nodes, q);
        ChildrenAreTheNodesWithThatParent(nodes, i, q);
        SiblingsHoldNext(nodes, nodes[i].child, q);
      }
      assert false;
    }
  }
}
