/** cJSON2_Interface.c: releasing a document and the read-only accessors.

    cJSON_DeleteWithHooks walks the tree without recursion or a stack: it goes
    down to a first child, across to a next sibling, or up to the parent,
    releasing a node once it has no child left and nulling the parent's
    `child` on the way up. The proof tracks the set of released nodes as a
    function of the cursor: everything before the cursor that is not one of
    its ancestors, plus, once the cursor has been reached by climbing, the
    whole subtree below it. */
module Interface {
  import opened Tree

  // ---------------------------------------------------------------------
  // cJSON_DeleteWithHooks

  /** Whether node `x` has already been released when the cursor stands at
      `c`; `up` says the cursor came to `c` from its last child. */
  ghost predicate Released(nodes: seq<Node>, c: nat, up: bool, x: nat) {
    (x < c && !IsAncestor(nodes, x, c)) || (up && IsAncestor(nodes, c, x))
  }

  ghost predicate Distinct(order: seq<nat>) {
    forall k, l :: 0 <= k < l < |order| ==> order[k] != order[l]
  }

  /** No node is released before one of its descendants. */
  ghost predicate PostOrder(nodes: seq<Node>, order: seq<nat>) {
    forall k, l :: 0 <= k < l < |order| ==> !IsAncestor(nodes, order[k], order[l])
  }

  /** The cursor is neither released nor below a released node. */
  lemma ReleasedNotAncestor(nodes: seq<Node>, c: nat, up: bool, x: nat)
    requires Released(nodes, c, up, x)
    ensures x != c && !IsAncestor(nodes, x, c)
  {
    if up && IsAncestor(nodes, c, x) {
      AncestorBelow(nodes, c, x);
      if IsAncestor(nodes, x, c) {
        AncestorBelow(nodes, x, c);
      }
    }
  }

  /** `nodes` is `orig` with the `child` link of every node in `cleared` set to NULL. */
  ghost predicate Cleared(nodes: seq<Node>, orig: seq<Node>, cleared: set<nat>) {
    |nodes| == |orig| &&
    forall i :: 0 <= i < |orig| ==> nodes[i] == if i in cleared then orig[i].(child := Nil) else orig[i]
  }

  /** The indices below `n`. */
  ghost function UpTo(n: nat): (r: set<nat>)
    ensures forall x: nat :: x in r <==> x < n
  {
    if n == 0 then {} else UpTo(n - 1) + {n - 1}
  }

  /** Nulling one more `child` link. */
  lemma ClearOne(nodes: seq<Node>, orig: seq<Node>, cleared: set<nat>, p: nat)
    requires Cleared(nodes, orig, cleared) && p < |nodes|
    ensures Cleared(nodes[p := nodes[p].(child := Nil)], orig, cleared + {p})
  {
  }

  /** A node whose `child` link is already NULL counts as cleared. */
  lemma ClearLeaf(nodes: seq<Node>, orig: seq<Node>, cleared: set<nat>, c: nat)
    requires Cleared(nodes, orig, cleared) && c < |nodes| && nodes[c].child.Nil?
    ensures Cleared(nodes, orig, cleared + {c})
  {
  }

  /** Appending a node that no released node lies below keeps the release
      order duplicate-free and post-order. */
  lemma ReleaseOne(nodes: seq<Node>, order: seq<nat>, c: nat, up: bool)
    requires Distinct(order) && PostOrder(nodes, order)
    requires forall x :: x in order ==> Released(nodes, c, up, x)
    ensures Distinct(order + [c]) && PostOrder(nodes, order + [c])
  {
    forall k | 0 <= k < |order|
      ensures order[k] != c && !IsAncestor(nodes, order[k], c)
    {
      assert order[k] in order;
      ReleasedNotAncestor(nodes, c, up, order[k]);
    }
  }

  /** Going down to the first child releases nothing. */
  lemma DescendStep(nodes: seq<Node>, c: nat)
    requires IsTree(nodes) && c < |nodes| && nodes[c].child.Ptr?
    ensures forall x: nat :: Released(nodes, c, false, x) <==> Released(nodes, c + 1, false, x)
  {
    assert LinkedAt(nodes, c);
    assert LinkedAt(nodes, c + 1);
  }

  /** Two siblings have the same proper ancestors. */
  lemma SiblingAncestors(nodes: seq<Node>, c: nat, j: nat, x: nat)
    requires Linked(nodes) && c < |nodes| && nodes[c].next == Ptr(j)
    ensures IsAncestor(nodes, x, j) <==> IsAncestor(nodes, x, c)
  {
    assert LinkedAt(nodes, c);
    assert LinkedAt(nodes, j);
  }

  /** Moving across to the next sibling releases the cursor, once its
      subtree is gone. */
  lemma SiblingStep(nodes: seq<Node>, c: nat, up: bool, j: nat)
    requires IsTree(nodes) && c < |nodes| && nodes[c].next == Ptr(j)
    requires up || nodes[c].child.Nil?
    ensures forall x: nat :: (Released(nodes, c, up, x) || x == c) <==> Released(nodes, j, false, x)
  {
    assert LinkedAt(nodes, c);
    assert LinkedAt(nodes, j);
    forall x: nat
      ensures (Released(nodes, c, up, x) || x == c) <==> Released(nodes, j, false, x)
    {
      SiblingAncestors(nodes, c, j, x);
      SiblingAncestors(nodes, c, j, c);
      if IsAncestor(nodes, c, c) {
        AncestorBelow(nodes, c, c);
      }
      if IsAncestor(nodes, c, x) {
        AncestorBelow(nodes, c, x);
        if IsAncestor(nodes, x, j) {
          AncestorBelow(nodes, x, c);
        }
      }
      if c < x < j {
        assert IsAncestor(nodes, c, x);
        if !up {
          LeafHasNoDescendant(nodes, c, x);
        }
      }
    }
  }

  /** Climbing to the parent releases the cursor, the parent's last child,
      and leaves the parent's whole subtree released. */
  lemma ClimbStep(nodes: seq<Node>, c: nat, up: bool, p: nat)
    requires IsTree(nodes) && c < |nodes| && nodes[c].next.Nil? && nodes[c].parent == Ptr(p)
    requires up || nodes[c].child.Nil?
    ensures forall x: nat :: (Released(nodes, c, up, x) || x == c) <==> Released(nodes, p, true, x)
  {
    assert LinkedAt(nodes, c);
    assert IsAncestor(nodes, p, c);
    forall x: nat
      ensures (Released(nodes, c, up, x) || x == c) <==> Released(nodes, p, true, x)
    {
      if IsAncestor(nodes, x, p) {
        AncestorTransitive(nodes, x, p, c);
        AncestorBelow(nodes, x, p);
      }
      if p < x < c {
        assert IsAncestor(nodes, p, x);
      }
      if up && IsAncestor(nodes, c, x) {
        AncestorTransitive(nodes, p, c, x);
      }
      if IsAncestor(nodes, p, x) {
        AncestorBelow(nodes, p, x);
        if c < x {
          assert IsAncestor(nodes, c, x);
          if !up {
            LeafHasNoDescendant(nodes, c, x);
          }
        }
      }
    }
  }

  /** Leaving the root releases it, and with it the last of the tree. */
  lemma RootStep(nodes: seq<Node>, c: nat, up: bool)
    requires IsTree(nodes) && c < |nodes| && nodes[c].parent.Nil?
    requires up || nodes[c].child.Nil?
    ensures forall x: nat :: x < |nodes| ==> Released(nodes, c, up, x) || x == c
  {
    assert LinkedAt(nodes, c);
    forall x: nat | x < |nodes|
      ensures Released(nodes, c, up, x) || x == c
    {
      if x != 0 {
        RootIsAncestorOfAll(nodes, x);
        if !up {
          LeafHasNoDescendant(nodes, c, x);
        }
      }
    }
  }

  /** Releasing a node takes it out of the live set. */
  lemma LiveShrinks(live: set<nat>, freed: seq<nat>, c: nat, n: nat)
    requires forall x: nat :: x in live <==> x < n && x !in freed
    ensures forall x: nat :: x in live - {c} <==> x < n && x !in freed + [c]
  {
  }

  lemma AppendAssociative<T>(a: seq<T>, b: seq<T>, c: seq<T>)
    ensures a + b + c == a + (b + c)
  {
  }

  /** Releasing one node: its key, its valuestring, then the node itself. */
  method FreeNode(heap: Heap, c: nat)
    modifies heap
    ensures heap.nodes == old(heap.nodes) && heap.freed == old(heap.freed) + [c] && heap.refused == old(heap.refused)
    ensures heap.calls == old(heap.calls) + [ReleaseKey(c), ReleaseValue(c), ReleaseNode(c)]
  {
    heap.Free(ReleaseKey(c));
    heap.Free(ReleaseValue(c));
    heap.Free(ReleaseNode(c));
  }

  /** The state of the delete walk with the cursor at `crnt`: `freed` is the
      release order so far, `cleared` the nodes whose `child` link is NULL. */
  ghost predicate Walk(orig: seq<Node>, nodes: seq<Node>, freed: seq<nat>, crnt: Ref, up: bool, cleared: set<nat>) {
    && IsTree(orig) && InRange(orig, crnt)
    && Distinct(freed) && PostOrder(orig, freed)
    && (crnt.Ptr? ==> forall x: nat :: x in freed <==> x < |orig| && Released(orig, crnt.index, up, x))
    && (crnt.Nil? ==> forall x: nat :: x in freed <==> x < |orig|)
    && (forall x: nat :: x in cleared <==> x in freed || (up && crnt == Ptr(x)))
    && Cleared(nodes, orig, cleared)
  }

  /** The walk starts at the root with nothing released. */
  lemma WalkStart(nodes: seq<Node>)
    requires IsTree(nodes)
    ensures Walk(nodes, nodes, [], Ptr(0), false, {})
  {
  }

  /** When the walk ends, every node is released and has lost its `child` link. */
  lemma WalkDone(orig: seq<Node>, nodes: seq<Node>, freed: seq<nat>, up: bool, cleared: set<nat>)
    requires Walk(orig, nodes, freed, Nil, up, cleared)
    ensures |nodes| == |orig|
    ensures forall i :: 0 <= i < |nodes| ==> nodes[i] == orig[i].(child := Nil)
    ensures forall x: nat :: x in freed <==> x < |nodes|
  {
  }

  /** The walk goes down to a first child. */
  lemma WalkDescend(orig: seq<Node>, nodes: seq<Node>, freed: seq<nat>, c: nat, up: bool, cleared: set<nat>)
    requires Walk(orig, nodes, freed, Ptr(c), up, cleared) && nodes[c].child.Ptr?
    ensures Walk(orig, nodes, freed, nodes[c].child, false, cleared)
  {
    assert c !in cleared;
    assert LinkedAt(orig, c);
    DescendStep(orig, c);
  }

  /** The walk releases a node whose subtree is gone and moves across to its
      next sibling. */
  lemma WalkAcross(orig: seq<Node>, nodes: seq<Node>, freed: seq<nat>, c: nat, up: bool, cleared: set<nat>)
    requires Walk(orig, nodes, freed, Ptr(c), up, cleared) && nodes[c].child.Nil? && nodes[c].next.Ptr?
    ensures Walk(orig, nodes, freed + [c], nodes[c].next, false, cleared + {c})
  {
    assert LinkedAt(orig, c);
    ReleaseOne(orig, freed, c, up);
    ClearLeaf(nodes, orig, cleared, c);
    SiblingStep(orig, c, up, nodes[c].next.index);
  }

  /** The walk releases the last child of a node and climbs to that node,
      nulling its `child` link. */
  lemma WalkClimb(orig: seq<Node>, nodes: seq<Node>, freed: seq<nat>, c: nat, up: bool, cleared: set<nat>, p: nat)
    requires Walk(orig, nodes, freed, Ptr(c), up, cleared) && nodes[c].child.Nil? && nodes[c].next.Nil?
    requires nodes[c].parent == Ptr(p) && p < |nodes|
    ensures Walk(orig, nodes[p := nodes[p].(child := Nil)], freed + [c], Ptr(p), true, cleared + {c, p})
  {
    assert LinkedAt(orig, c);
    ReleaseOne(orig, freed, c, up);
    ClearLeaf(nodes, orig, cleared, c);
    ClearOne(nodes, orig, cleared + {c}, p);
    assert cleared + {c} + {p} == cleared + {c, p};
    ClimbStep(orig, c, up, p);
  }

  /** The walk releases the root and ends. */
  lemma WalkEnd(orig: seq<Node>, nodes: seq<Node>, freed: seq<nat>, c: nat, up: bool, cleared: set<nat>)
    requires Walk(orig, nodes, freed, Ptr(c), up, cleared) && nodes[c].child.Nil? && nodes[c].next.Nil?
    requires nodes[c].parent.Nil?
    ensures Walk(orig, nodes, freed + [c], Nil, false, cleared + {c})
  {
    assert LinkedAt(orig, c);
    ReleaseOne(orig, freed, c, up);
    ClearLeaf(nodes, orig, cleared, c);
    RootStep(orig, c, up);
  }

  /** The part of the delete loop for a node without children left: pick
      the next sibling or else the parent (nulling the parent's `child`
      link), then release the node. */
  method LeaveNode(heap: Heap, c: nat, ghost orig: seq<Node>, ghost up: bool, ghost cleared: set<nat>)
    returns (nextNode: Ref, ghost up': bool, ghost cleared': set<nat>)
    requires Walk(orig, heap.nodes, heap.freed, Ptr(c), up, cleared) && heap.nodes[c].child.Nil?
    modifies heap
    ensures Walk(orig, heap.nodes, heap.freed, nextNode, up', cleared')
    ensures heap.freed == old(heap.freed) + [c] && heap.refused == old(heap.refused)
    ensures heap.calls == old(heap.calls) + [ReleaseKey(c), ReleaseValue(c), ReleaseNode(c)]
  {
    assert LinkedAt(orig, c);
    if heap.nodes[c].next.Ptr? {
      WalkAcross(orig, heap.nodes, heap.freed, c, up, cleared);
      nextNode := heap.nodes[c].next;
      cleared', up' := cleared + {c}, false;
    } else {
      nextNode := heap.nodes[c].parent;
      if nextNode.Ptr? {
        var p := nextNode.index;
        WalkClimb(orig, heap.nodes, heap.freed, c, up, cleared, p);
        heap.nodes := heap.nodes[p := heap.nodes[p].(child := Nil)];
        cleared', up' := cleared + {c, p}, true;
      } else {
        WalkEnd(orig, heap.nodes, heap.freed, c, up, cleared);
        cleared', up' := cleared + {c}, false;
      }
    }
    // safe to release the whole node now
    FreeNode(heap, c);
  }

  /** cJSON_DeleteWithHooks on a parsed document (its root node 0) or NULL.
      Every node is passed to free_fn exactly once, its key and valuestring
      immediately before it, never before one of its descendants; the nodes
      are otherwise untouched except that every `child` link is NULL. */
  method DeleteWithHooks(heap: Heap, json: Ref)
    requires json.Nil? || (json == Ptr(0) && IsTree(heap.nodes) && heap.freed == [])
    modifies heap
    ensures heap.refused == old(heap.refused)
    ensures json.Nil? ==> heap.nodes == old(heap.nodes) && heap.freed == old(heap.freed) && heap.calls == old(heap.calls)
    ensures json.Ptr? ==> |heap.nodes| == |old(heap.nodes)|
    ensures json.Ptr? ==> forall i :: 0 <= i < |heap.nodes| ==> heap.nodes[i] == old(heap.nodes)[i].(child := Nil)
    ensures json.Ptr? ==> forall x: nat :: x in heap.freed <==> x < |heap.nodes|
    ensures json.Ptr? ==> Distinct(heap.freed) && PostOrder(old(heap.nodes), heap.freed)
    ensures json.Ptr? ==> heap.calls == old(heap.calls) + ReleaseCalls(heap.freed)
  {
    ghost var orig := heap.nodes;
    ghost var n := |orig|;
    ghost var calls0 := heap.calls;
    ghost var up := false;
    // the nodes whose `child` link is NULL by now, and those not yet released
    ghost var cleared: set<nat> := {};
    ghost var live: set<nat> := UpTo(n);
    if json.Nil? {
      return;
    }
    var crnt := json;
    WalkStart(orig);
    while crnt.Ptr?
      invariant Walk(orig, heap.nodes, heap.freed, crnt, up, cleared)
      invariant heap.calls == calls0 + ReleaseCalls(heap.freed) && heap.refused == old(heap.refused)
      invariant forall x: nat :: x in live <==> x < n && x !in heap.freed
      decreases live, if crnt.Ptr? then n - crnt.index else 0
    {
      var c := crnt.index;
      var nextNode: Ref;
      if heap.nodes[c].child.Ptr? {
        // a node's children go before the node
        WalkDescend(orig, heap.nodes, heap.freed, c, up, cleared);
        assert LinkedAt(orig, c);
        nextNode := heap.nodes[c].child;
        up := false;
      } else {
        ghost var freed0 := heap.freed;
        nextNode, up, cleared := LeaveNode(heap, c, orig, up, cleared);
        ReleaseCallsAppend(freed0, c);
        AppendAssociative(calls0, ReleaseCalls(freed0), [ReleaseKey(c), ReleaseValue(c), ReleaseNode(c)]);
        LiveShrinks(live, freed0, c, n);
        live := live - {c};
      }
      crnt := nextNode;
    }
    WalkDone(orig, heap.nodes, heap.freed, up, cleared);
  }

  /** The release order stays a post-order once the `child` links are
      cleared: ancestry depends only on the parent links. */
  lemma PostOrderKept(nodes: seq<Node>, nodes': seq<Node>, order: seq<nat>)
    requires |nodes| == |nodes'| && forall i :: 0 <= i < |nodes| ==> nodes'[i].parent == nodes[i].parent
    requires forall k :: 0 <= k < |order| ==> order[k] < |nodes|
    requires PostOrder(nodes, order)
    ensures PostOrder(nodes', order)
  {
    forall k, l | 0 <= k < l < |order|
      ensures !IsAncestor(nodes', order[k], order[l])
    {
      AncestorFrame(nodes, nodes', order[k], order[l]);
    }
  }

  // ---------------------------------------------------------------------
  // Accessors

  /** cJSON_GetArraySize: -1 unless `json` is an array, otherwise the number
      of its members. */
  method GetArraySize(nodes: seq<Node>, json: Ref) returns (size: int)
    requires Linked(nodes) && InRange(nodes, json)
    ensures size == if json.Nil? || nodes[json.index].kind != Array then -1 else |Children(nodes, json.index)|
  {
    size := 0;
    if json.Nil? {
      return -1;
    } else if nodes[json.index].kind != Array {
      return -1;
    }
    assert LinkedAt(nodes, json.index);
    var crnt := nodes[json.index].child;
    while crnt.Ptr?
      invariant InRange(nodes, crnt)
      invariant size + |Siblings(nodes, crnt)| == |Children(nodes, json.index)|
      decreases if crnt.Ptr? then |nodes| - crnt.index else 0
    {
      assert LinkedAt(nodes, crnt.index);
      size := size + 1;
      crnt := nodes[crnt.index].next;
    }
  }

  /** cJSON_GetArrayItem: the member at position `index` of an array, NULL
      for a negative or too large index and for anything but an array. */
  method GetArrayItem(nodes: seq<Node>, json: Ref, index: int) returns (item: Ref)
    requires Linked(nodes) && InRange(nodes, json)
    ensures item == if index < 0 || json.Nil? || nodes[json.index].kind != Array || index >= |Children(nodes, json.index)|
                    then Nil else Ptr(Children(nodes, json.index)[index])
  {
    item := Nil;
    var crntIdx := 0;
    if index < 0 {
      return Nil;
    }
    if json.Nil? {
      return Nil;
    } else if nodes[json.index].kind != Array {
      return Nil;
    }
    assert LinkedAt(nodes, json.index);
    ghost var members := Children(nodes, json.index);
    item := nodes[json.index].child;
    while item.Ptr? && crntIdx < index
      invariant 0 <= crntIdx <= index && crntIdx <= |members|
      invariant InRange(nodes, item)
      invariant Siblings(nodes, item) == members[crntIdx..]
      decreases if item.Ptr? then |nodes| - item.index else 0
    {
      assert LinkedAt(nodes, item.index);
      item := nodes[item.index].next;
      crntIdx := crntIdx + 1;
    }
    if crntIdx != index {
      // the index was past the last member
      item := Nil;
    } else if item.Ptr? {
      assert LinkedAt(nodes, item.index);
      assert members[crntIdx] == Siblings(nodes, item)[0];
    }
  }

  /** The first node of `chain` whose key is `key`, or NULL. */
  ghost function FirstWithKey(nodes: seq<Node>, chain: seq<nat>, key: string): (r: Ref)
    requires forall k :: 0 <= k < |chain| ==> chain[k] < |nodes|
    ensures r.Nil? <==> forall k :: 0 <= k < |chain| ==> nodes[chain[k]].key != Some(key)
    ensures r.Ptr? ==> exists k :: 0 <= k < |chain| && chain[k] == r.index && nodes[r.index].key == Some(key) &&
                                   forall l :: 0 <= l < k ==> nodes[chain[l]].key != Some(key)
  {
    if chain == [] then Nil
    else if nodes[chain[0]].key == Some(key) then Ptr(chain[0])
    else
      var r := FirstWithKey(nodes, chain[1..], key);
      assert forall k :: 1 <= k < |chain| ==> chain[k] == chain[1..][k - 1];
      r
  }

  /** What cJSON_GetObjectItem finds: NULL for anything but an object or for
      a NULL key, otherwise the first member with that key. */
  ghost function ObjectItem(nodes: seq<Node>, json: Ref, key: Option<string>): Ref
    requires Linked(nodes) && InRange(nodes, json)
  {
    if json.Nil? || nodes[json.index].kind != Object || key.None? then Nil
    else
      assert LinkedAt(nodes, json.index);
      SiblingsAscend(nodes, nodes[json.index].child);
      FirstWithKey(nodes, Children(nodes, json.index), key.value)
  }

  /** Every member of an object carries a key, as the parser guarantees;
      strcmp on a member without one is undefined. */
  ghost predicate MembersKeyed(nodes: seq<Node>, json: Ref)
    requires Linked(nodes) && InRange(nodes, json)
  {
    json.Ptr? && nodes[json.index].kind == Object ==>
      forall x :: x in Children(nodes, json.index) ==> x < |nodes| && nodes[x].key.Some?
  }

  /** cJSON_GetObjectItem: the first member of an object whose key equals
      `key`; NULL when there is none, when `json` is not an object, or when
      `key` is NULL. */
  method GetObjectItem(nodes: seq<Node>, json: Ref, key: Option<string>) returns (found: Ref)
    requires Linked(nodes) && InRange(nodes, json) && MembersKeyed(nodes, json)
    ensures found == ObjectItem(nodes, json, key)
  {
    found := Nil;
    if json.Nil? {
      return Nil;
    } else if nodes[json.index].kind != Object {
      return Nil;
    } else if key.None? {
      return Nil;
    }
    assert LinkedAt(nodes, json.index);
    SiblingsAscend(nodes, nodes[json.index].child);
    ghost var members := Children(nodes, json.index);
    var crnt := nodes[json.index].child;
    ghost var k := 0;
    while crnt.Ptr? && found.Nil?
      invariant 0 <= k <= |members| && InRange(nodes, crnt)
      invariant Siblings(nodes, crnt) == members[k..]
      invariant found.Nil? ==> FirstWithKey(nodes, members[k..], key.value) == FirstWithKey(nodes, members, key.value)
      invariant found.Ptr? ==> found == FirstWithKey(nodes, members, key.value)
      decreases if crnt.Ptr? then |nodes| - crnt.index else 0, if found.Nil? then 1 else 0
    {
      assert LinkedAt(nodes, crnt.index);
      assert members[k] == crnt.index;
      if nodes[crnt.index].key.value == key.value {
        found := crnt;
      } else {
        crnt := nodes[crnt.index].next;
        assert members[k..][1..] == members[k + 1..];
        k := k + 1;
      }
    }
  }

  /** cJSON_ObjectHasItem: 1 when the object has a member with that key
      (exactly when cJSON_GetObjectItem finds one), 0 otherwise. */
  method ObjectHasItem(nodes: seq<Node>, json: Ref, key: Option<string>) returns (has: int)
    requires Linked(nodes) && InRange(nodes, json) && MembersKeyed(nodes, json)
    ensures has == if ObjectItem(nodes, json, key).Ptr? then 1 else 0
    ensures has == 1 <==> json.Ptr? && nodes[json.index].kind == Object && key.Some? &&
                          exists x :: x in Children(nodes, json.index) && nodes[x].key == key
  {
    var item := GetObjectItem(nodes, json, key);
    has := if item.Ptr? then 1 else 0;
    if json.Ptr? && nodes[json.index].kind == Object && key.Some? {
      assert LinkedAt(nodes, json.index);
      SiblingsAscend(nodes, nodes[json.index].child);
      ghost var members := Children(nodes, json.index);
      if exists x :: x in members && nodes[x].key == key {
        var x :| x in members && nodes[x].key == key;
        var k :| 0 <= k < |members| && members[k] == x;
      }
    }
  }
}
