/** cJSON2_Utils.c: the two tests of a node's parent that steer the parser
    after every finished value. Both only read the node and its parent. */
module Utils {
  import opened Tree

  /** parent_node_is_array */
  predicate ParentIsArray(nodes: seq<Node>, i: nat)
    requires i < |nodes| && InRange(nodes, nodes[i].parent)
  {
    nodes[i].parent.Ptr? && nodes[nodes[i].parent.index].kind == Array
  }

  /** parent_node_is_object */
  predicate ParentIsObject(nodes: seq<Node>, i: nat)
    requires i < |nodes| && InRange(nodes, nodes[i].parent)
  {
    nodes[i].parent.Ptr? && nodes[nodes[i].parent.index].kind == Object
  }

  /** A node is never both an array element and an object member, and a node
      without a parent is neither. */
  lemma ParentTestsExclusive(nodes: seq<Node>, i: nat)
    requires i < |nodes| && InRange(nodes, nodes[i].parent)
    ensures !(ParentIsArray(nodes, i) && ParentIsObject(nodes, i))
    ensures nodes[i].parent.Nil? ==> !ParentIsArray(nodes, i) && !ParentIsObject(nodes, i)
  {
  }

  /** In a linked arena a node that has a parent is an array element or an
      object member, since only containers have children. */
  lemma ParentTestsCover(nodes: seq<Node>, i: nat)
    requires Linked(nodes) && i < |nodes|
    ensures InRange(nodes, nodes[i].parent)
    ensures nodes[i].parent.Ptr? <==> ParentIsArray(nodes, i) || ParentIsObject(nodes, i)
  {
    assert LinkedAt(nodes, i);
  }

  /** parent_node_is_array holds exactly of the members of some array, the
      nodes its member chain reaches. */
  lemma ParentIsArrayIffArrayMember(nodes: seq<Node>, i: nat)
    requires Linked(nodes) && i < |nodes|
    ensures InRange(nodes, nodes[i].parent)
    ensures ParentIsArray(nodes, i) <==>
      exists p :: 0 <= p < |nodes| && nodes[p].kind == Array && i in Children(nodes, p)
  {
    assert LinkedAt(nodes, i);
    if ParentIsArray(nodes, i) {
      var p := nodes[i].parent.index;
      ChildrenAreTheNodesWithThatParent(nodes, p, i);
    }
    if exists p :: 0 <= p < |nodes| && nodes[p].kind == Array && i in Children(nodes, p) {
      var p :| 0 <= p < |nodes| && nodes[p].kind == Array && i in Children(nodes, p);
      ChildrenAreTheNodesWithThatParent(nodes, p, i);
    }
  }

  /** parent_node_is_object holds exactly of the members of some object. */
  lemma ParentIsObjectIffObjectMember(nodes: seq<Node>, i: nat)
    requires Linked(nodes) && i < |nodes|
    ensures InRange(nodes, nodes[i].parent)
    ensures ParentIsObject(nodes, i) <==>
      exists p :: 0 <= p < |nodes| && nodes[p].kind == Object && i in Children(nodes, p)
  {
    assert LinkedAt(nodes, i);
    if ParentIsObject(nodes, i) {
      var p := nodes[i].parent.index;
      ChildrenAreTheNodesWithThatParent(nodes, p, i);
    }
    if exists p :: 0 <= p < |nodes| && nodes[p].kind == Object && i in Children(nodes, p) {
      var p :| 0 <= p < |nodes| && nodes[p].kind == Object && i in Children(nodes, p);
      ChildrenAreTheNodesWithThatParent(nodes, p, i);
    }
  }
}
