/** The state machine that drives the parser in cJSON2_Parse.c: its states,
    the choice next_parse_state makes once a value is finished, and what
    holds of the tree and the position between two steps, with the proofs
    that each kind of step keeps it. */
module Machine {
  import opened Tree
  import opened Text
  import opened Utils
  import opened Build

  /** parse_state */
  datatype ParseState = Value | NextArrayValue | NextObjectValue | ObjectKey | Error | Complete

  // ---------------------------------------------------------------------
  // next_parse_state

  /** The state next_parse_state picks after a value is finished at node
      `c`, with `ch` the character at the current position. */
  function Route(nodes: seq<Node>, c: nat, state: ParseState, ch: char): ParseState
    requires c < |nodes| && InRange(nodes, nodes[c].parent)
  {
    if state == Error then Error
    else if nodes[c].parent.Nil? && ch == '\0' then Complete
    else if ParentIsArray(nodes, c) then NextArrayValue
    else if ParentIsObject(nodes, c) then NextObjectValue
    else Error
  }

  /** The parse completes exactly when the finished value is the top-level
      one and the text ends right after it; a top-level value followed by
      anything, whitespace included, is an error; a nested value goes on
      with its container. */
  lemma RouteCases(nodes: seq<Node>, c: nat, state: ParseState, ch: char)
    requires Linked(nodes) && c < |nodes|
    ensures InRange(nodes, nodes[c].parent)
    ensures Route(nodes, c, state, ch) == Complete <==> state != Error && nodes[c].parent.Nil? && ch == '\0'
    ensures Route(nodes, c, state, ch) == Error <==> state == Error || (nodes[c].parent.Nil? && ch != '\0')
    ensures Route(nodes, c, state, ch) == NextArrayValue <==> state != Error && ParentIsArray(nodes, c)
    ensures Route(nodes, c, state, ch) == NextObjectValue <==> state != Error && ParentIsObject(nodes, c)
    ensures Route(nodes, c, state, ch) == Complete ==> c == 0
  {
    ParentTestsCover(nodes, c);
    assert LinkedAt(nodes, c);
  }

  // ---------------------------------------------------------------------
  // What holds of the tree between two steps

  /** Node `c` was just allocated for the value about to be parsed. */
  ghost predicate Pending(nodes: seq<Node>, c: nat) {
    && c == |nodes| - 1 && nodes[c].child.Nil? && nodes[c].kind == False
    && nodes[c].valuestring.None? && nodes[c].number == Zero
  }

  /** Exactly the members of objects carry a key, save `waiting`, a member
      whose key is yet to be parsed. */
  ghost predicate Keyed(nodes: seq<Node>, waiting: Ref) {
    forall i {:trigger ParentIsObject(nodes, i)} :: 0 <= i < |nodes| && InRange(nodes, nodes[i].parent) && waiting != Ptr(i) ==>
      (nodes[i].key.Some? <==> ParentIsObject(nodes, i))
  }

  /** A string node carries a valuestring and a number node a value, and no
      other node carries either. */
  predicate TypedNode(n: Node) {
    (n.valuestring.Some? <==> n.kind == String) && (n.number != Zero <==> n.kind == Number)
  }

  ghost predicate Typed(nodes: seq<Node>) {
    forall i :: 0 <= i < |nodes| ==> TypedNode(nodes[i])
  }

  /** Every extracted key and string stops short of a quote and a terminator. */
  ghost predicate AllClean(nodes: seq<Node>) {
    forall i :: 0 <= i < |nodes| ==>
      (nodes[i].key.Some? ==> Clean(nodes[i].key.value)) && (nodes[i].valuestring.Some? ==> Clean(nodes[i].valuestring.value))
  }

  /** A document as cJSON_ParseWithHooks returns it. */
  ghost predicate Document(nodes: seq<Node>) {
    IsTree(nodes) && Keyed(nodes, Nil) && Typed(nodes) && AllClean(nodes)
  }

  /** The nodes form a tree, `crnt` is an open node of it, and every
      extracted string is clean. */
  ghost predicate Shape(nodes: seq<Node>, crnt: Ref) {
    match crnt
    case Nil => false
    case Ptr(c) => IsTree(nodes) && c < |nodes| && LinkedAt(nodes, c) && Open(nodes, c) && AllClean(nodes)
  }

  /** The value at `crnt` is finished: besides the shape, keys and types are
      where they belong. */
  ghost predicate Finished(nodes: seq<Node>, crnt: Ref) {
    match crnt
    case Nil => false
    case Ptr(_) => Shape(nodes, crnt) && Keyed(nodes, Nil) && Typed(nodes)
  }

  /** What holds between two steps of the parse loop, for the nodes, the
      current node, the state and the position in the text `s` (empty when
      the text is NULL, `hasText` false). */
  ghost predicate Between(nodes: seq<Node>, crnt: Ref, state: ParseState, s: string, pos: nat, hasText: bool) {
    pos <= |s| &&
    match state
    case Value => Finished(nodes, crnt) && (!hasText ==> pos == 0) && Pending(nodes, crnt.index)
    case ObjectKey =>
      && Shape(nodes, crnt) && hasText && Pending(nodes, crnt.index) && nodes[crnt.index].key.None?
      && ParentIsObject(nodes, crnt.index) && Keyed(nodes, crnt) && Typed(nodes)
    case NextArrayValue => Finished(nodes, crnt) && hasText && ParentIsArray(nodes, crnt.index)
    case NextObjectValue => Finished(nodes, crnt) && hasText && ParentIsObject(nodes, crnt.index)
    case Complete => Finished(nodes, crnt) && hasText && crnt == Ptr(0) && At(s, pos) == '\0'
    case Error => Shape(nodes, crnt) && (!hasText ==> pos == 0)
  }

  /** Once the value at `c` is finished, the state next_parse_state picks
      holds between steps. */
  lemma Routed(nodes: seq<Node>, c: nat, prev: ParseState, s: string, pos: nat)
    requires Finished(nodes, Ptr(c)) && pos <= |s|
    ensures c < |nodes| && InRange(nodes, nodes[c].parent)
    ensures Between(nodes, Ptr(c), Route(nodes, c, prev, At(s, pos)), s, pos, true)
  {
    RouteCases(nodes, c, prev, At(s, pos));
  }

  /** An error can be raised at any point. */
  lemma Failed(nodes: seq<Node>, crnt: Ref, s: string, pos: nat, hasText: bool)
    requires Shape(nodes, crnt) && pos <= |s| && (!hasText ==> pos == 0)
    ensures Between(nodes, crnt, Error, s, pos, hasText)
  {
  }

  /** Changing a node that nobody has as parent, or keeping its type, leaves
      every parent test as it was. */
  lemma ParentTestsKept(nodes: seq<Node>, nodes': seq<Node>)
    requires Linked(nodes) && |nodes| <= |nodes'|
    requires forall i :: 0 <= i < |nodes| ==>
      nodes'[i].parent == nodes[i].parent && (nodes'[i].kind == nodes[i].kind || nodes[i].child.Nil?)
    ensures forall i :: 0 <= i < |nodes| ==> InRange(nodes, nodes[i].parent) && InRange(nodes', nodes'[i].parent)
    ensures forall i :: 0 <= i < |nodes| ==>
      ParentIsObject(nodes', i) == ParentIsObject(nodes, i) && ParentIsArray(nodes', i) == ParentIsArray(nodes, i)
  {
    forall i | 0 <= i < |nodes|
      ensures InRange(nodes, nodes[i].parent) && InRange(nodes', nodes'[i].parent)
      ensures ParentIsObject(nodes', i) == ParentIsObject(nodes, i) && ParentIsArray(nodes', i) == ParentIsArray(nodes, i)
    {
      assert LinkedAt(nodes, i);
    }
  }

  /** Filling in node `c`, which has no members yet, without touching its
      links keeps the tree, keeps `c` open, and keeps the invariants on keys
      and types when the new contents obey them. */
  lemma FillKeeps(nodes: seq<Node>, c: nat, n: Node, waiting: Ref)
    requires Shape(nodes, Ptr(c)) && nodes[c].child.Nil? && SameLinks(nodes[c], n)
    requires n.key.Some? ==> Clean(n.key.value)
    requires n.valuestring.Some? ==> Clean(n.valuestring.value)
    ensures Shape(nodes[c := n], Ptr(c))
    ensures Keyed(nodes, waiting) && n.key == nodes[c].key ==> Keyed(nodes[c := n], waiting)
    ensures Keyed(nodes, Ptr(c)) && n.key.Some? && ParentIsObject(nodes, c) ==> Keyed(nodes[c := n], Nil)
    ensures Typed(nodes) && TypedNode(n) ==> Typed(nodes[c := n])
    ensures Finished(nodes, Ptr(c)) && n.key == nodes[c].key && TypedNode(n) ==> Finished(nodes[c := n], Ptr(c))
  {
    var nodes' := nodes[c := n];
    SetPayloadKeepsTree(nodes, c, n);
    assert LinkedAt(nodes', c);
    forall x | c < x < |nodes'|
      ensures IsAncestor(nodes', c, x)
    {
      assert IsAncestor(nodes, c, x);
    }
    forall i | 0 <= i < |nodes|
      ensures InRange(nodes, nodes[i].parent) && InRange(nodes', nodes'[i].parent)
      ensures ParentIsObject(nodes', i) == ParentIsObject(nodes, i)
    {
      assert LinkedAt(nodes, i);
    }
  }

  /** Giving the node allocated last its first member (parse_array and
      parse_object): the member is pending, and it waits for a key exactly
      when the container is an object. */
  lemma ChildKeeps(nodes: seq<Node>, c: nat, s: string, pos: nat)
    requires Finished(nodes, Ptr(c)) && c == |nodes| - 1 && IsContainer(nodes[c].kind) && nodes[c].child.Nil? && pos <= |s|
    ensures Between(AddChild(nodes, c), Ptr(|nodes|), if nodes[c].kind == Object then ObjectKey else Value, s, pos, true)
  {
    var nodes' := AddChild(nodes, c);
    var n := |nodes|;
    AddChildKeepsTree(nodes, c);
    assert LinkedAt(nodes', n);
    ParentTestsKept(nodes, nodes');
  }

  /** Giving an open member a next sibling (next_array_value and
      next_object_value): the sibling is pending, in the same container, and
      waits for a key exactly when that container is an object. */
  lemma SiblingKeeps(nodes: seq<Node>, c: nat, s: string, pos: nat)
    requires Finished(nodes, Ptr(c)) && nodes[c].parent.Ptr? && pos <= |s|
    ensures c < |nodes| && InRange(nodes, nodes[c].parent)
    ensures Between(AddSibling(nodes, c), Ptr(|nodes|), if ParentIsObject(nodes, c) then ObjectKey else Value, s, pos, true)
  {
    var nodes' := AddSibling(nodes, c);
    var n := |nodes|;
    AddSiblingKeepsTree(nodes, c);
    assert LinkedAt(nodes', n);
    ParentTestsKept(nodes, nodes');
  }
}
