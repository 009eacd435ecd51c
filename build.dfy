/** How the parser grows the tree (crnt_node_add_child and
    crnt_node_add_sibling in cJSON2_Parse.c) and how it fills in a node,
    as functions on the arena, with the proofs that each step keeps the
    arena a tree listed in pre-order. */
module Build {
  import opened Tree

  /** crnt_node_add_child on node `c`: a blank node whose parent is `c`
      becomes c's `child`. */
  function AddChild(nodes: seq<Node>, c: nat): (nodes': seq<Node>)
    requires c < |nodes|
    ensures |nodes'| == |nodes| + 1
  {
    nodes[c := nodes[c].(child := Ptr(|nodes|))] + [Blank.(parent := Ptr(c))]
  }

  /** crnt_node_add_sibling on node `c`: a blank node with c's parent and
      `prev` link to `c` becomes c's `next`. */
  function AddSibling(nodes: seq<Node>, c: nat): (nodes': seq<Node>)
    requires c < |nodes|
    ensures |nodes'| == |nodes| + 1
  {
    nodes[c := nodes[c].(next := Ptr(|nodes|))] + [Blank.(prev := Ptr(c), parent := nodes[c].parent)]
  }

  /** Two nodes with the same four links. */
  predicate SameLinks(n: Node, n': Node) {
    n.prev == n'.prev && n.next == n'.next && n.parent == n'.parent && n.child == n'.child
  }

  /** The arena grows by one node and keeps the parent links of the old ones,
      so ancestry among the old nodes is unchanged. */
  lemma AncestryKept(nodes: seq<Node>, nodes': seq<Node>)
    requires |nodes'| == |nodes| + 1
    requires forall i :: 0 <= i < |nodes| ==> nodes'[i].parent == nodes[i].parent
    ensures forall a: nat, x: nat :: x < |nodes| ==> (IsAncestor(nodes', a, x) <==> IsAncestor(nodes, a, x))
  {
    forall a: nat, x: nat | x < |nodes|
      ensures IsAncestor(nodes', a, x) <==> IsAncestor(nodes, a, x)
    {
      AncestorFrame(nodes, nodes', a, x);
    }
  }

  /** Every node after an ancestor of an open node `p`, or after `p`
      itself, lies in that ancestor's subtree: a node appended under `p`
      keeps the listing in pre-order. */
  lemma AboveOpenNode(nodes: seq<Node>, p: nat, a: nat, x: nat)
    requires IsTree(nodes) && p < |nodes| && Open(nodes, p)
    requires a < x < |nodes| && (a == p || IsAncestor(nodes, a, p))
    ensures IsAncestor(nodes, a, x)
  {
    if x < p {
      assert IsAncestor(nodes, a, p);
    } else if p < x {
      assert IsAncestor(nodes, p, x);
      if a != p {
        AncestorTransitive(nodes, a, p, x);
      }
    }
  }

  /** Adding a first child to the node allocated last, once it is a
      container, keeps the tree; the new node is open. */
  lemma AddChildKeepsTree(nodes: seq<Node>, c: nat)
    requires IsTree(nodes) && c == |nodes| - 1 && IsContainer(nodes[c].kind) && nodes[c].child.Nil?
    ensures IsTree(AddChild(nodes, c)) && Open(AddChild(nodes, c), |nodes|)
    ensures AddChild(nodes, c)[|nodes|].parent == Ptr(c)
  {
    var nodes' := AddChild(nodes, c);
    var n := |nodes|;
    AncestryKept(nodes, nodes');
    assert LinkedAt(nodes, c);
    forall i | 0 <= i < |nodes'|
      ensures LinkedAt(nodes', i)
    {
      if i < n {
        assert LinkedAt(nodes, i);
        if nodes[i].parent == Ptr(c) {
          assert false;
        }
      }
    }
    // the new node's ancestors: c and c's ancestors
    assert forall a: nat :: IsAncestor(nodes', a, n) <==> a == c || IsAncestor(nodes, a, c);
    forall a: nat, x: nat, y: nat | a < x < y < n + 1 && IsAncestor(nodes', a, y)
      ensures IsAncestor(nodes', a, x)
    {
      if y == n {
        AboveOpenNode(nodes, c, a, x);
      }
    }
    forall i: nat, x: nat | i < x < n + 1 && nodes'[i].next.Ptr? && x < nodes'[i].next.index
      ensures IsAncestor(nodes', i, x)
    {
      assert LinkedAt(nodes, i);
    }
    forall d: nat, x: nat |
      d < x < n + 1 && nodes'[d].next.Nil? && nodes'[d].parent.Ptr? && IsAncestor(nodes', nodes'[d].parent.index, x)
      ensures IsAncestor(nodes', d, x)
    {
      if x == n && d != c {
        var q := nodes[d].parent.index;
        assert LinkedAt(nodes, d);
        assert IsAncestor(nodes, q, c);
        assert IsAncestor(nodes, d, c);
      }
    }
  }

  /** Adding a next sibling to an open node that has a parent keeps the tree;
      the new node is open. */
  lemma AddSiblingKeepsTree(nodes: seq<Node>, c: nat)
    requires IsTree(nodes) && c < |nodes| && Open(nodes, c) && nodes[c].parent.Ptr?
    ensures IsTree(AddSibling(nodes, c)) && Open(AddSibling(nodes, c), |nodes|)
    ensures AddSibling(nodes, c)[|nodes|].parent == nodes[c].parent
  {
    var nodes' := AddSibling(nodes, c);
    var n := |nodes|;
    var p := nodes[c].parent.index;
    AncestryKept(nodes, nodes');
    assert LinkedAt(nodes, c);
    OpenHasNoNext(nodes, c);
    OpenParent(nodes, c);
    forall i | 0 <= i < |nodes'|
      ensures LinkedAt(nodes', i)
    {
      if i < n {
        assert LinkedAt(nodes, i);
      }
    }
    // the new node's ancestors: p and p's ancestors
    assert forall a: nat :: IsAncestor(nodes', a, n) <==> a == p || IsAncestor(nodes, a, p);
    forall a: nat, x: nat, y: nat | a < x < y < n + 1 && IsAncestor(nodes', a, y)
      ensures IsAncestor(nodes', a, x)
    {
      if y == n {
        AboveOpenNode(nodes, p, a, x);
      }
    }
    forall i: nat, x: nat | i < x < n + 1 && nodes'[i].next.Ptr? && x < nodes'[i].next.index
      ensures IsAncestor(nodes', i, x)
    {
      assert LinkedAt(nodes, i);
    }
    forall d: nat, x: nat |
      d < x < n + 1 && nodes'[d].next.Nil? && nodes'[d].parent.Ptr? && IsAncestor(nodes', nodes'[d].parent.index, x)
      ensures IsAncestor(nodes', d, x)
    {
      if x == n {
        assert d != c;
        LastMemberAboveSibling(nodes, c, d);
      }
    }
  }

  /** A last member `d` whose container holds c's parent `p` holds `p`
      itself, when `c` is open: the new sibling of `c` then lies in d's
      subtree, as the pre-order listing demands. */
  lemma LastMemberAboveSibling(nodes: seq<Node>, c: nat, d: nat)
    requires IsTree(nodes) && c < |nodes| && Open(nodes, c) && nodes[c].parent.Ptr?
    requires d < |nodes| && d != c && nodes[d].next.Nil? && nodes[d].parent.Ptr?
    requires var p := nodes[c].parent.index; var q := nodes[d].parent.index;
      q == p || IsAncestor(nodes, q, p)
    ensures d == nodes[c].parent.index || IsAncestor(nodes, d, nodes[c].parent.index)
  {
    var p := nodes[c].parent.index;
    var q := nodes[d].parent.index;
    assert LinkedAt(nodes, c);
    assert LinkedAt(nodes, d);
    OpenParent(nodes, c);
    assert IsAncestor(nodes, q, d);
    if q == p {
      if d < c {
        assert IsAncestor(nodes, p, c);
        assert IsAncestor(nodes, d, c);
        AncestorBelow(nodes, d, p);
      } else {
        assert IsAncestor(nodes, c, d);
        AncestorBelow(nodes, c, p);
      }
    } else if d < p {
      assert IsAncestor(nodes, d, p);
    } else if p < d {
      assert IsAncestor(nodes, p, d);
      AncestorBelow(nodes, p, q);
      AncestorBelow(nodes, q, p);
    }
  }

  /** Rewriting one node without touching its links keeps the tree, as long
      as a node that has members stays the container it was. */
  lemma SetPayloadKeepsTree(nodes: seq<Node>, c: nat, n: Node)
    requires IsTree(nodes) && c < |nodes| && SameLinks(nodes[c], n)
    requires n.kind == nodes[c].kind || nodes[c].child.Nil?
    ensures IsTree(nodes[c := n])
    ensures forall a: nat, x: nat :: IsAncestor(nodes[c := n], a, x) <==> IsAncestor(nodes, a, x)
  {
    var nodes' := nodes[c := n];
    forall a: nat, x: nat
      ensures IsAncestor(nodes', a, x) <==> IsAncestor(nodes, a, x)
    {
      if x < |nodes| {
        AncestorFrame(nodes, nodes', a, x);
      }
    }
    forall i | 0 <= i < |nodes'|
      ensures LinkedAt(nodes', i)
    {
      assert LinkedAt(nodes, i);
    }
  }
}
