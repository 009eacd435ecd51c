/** cJSON2_Parse.c: the parser. It is a loop over a small state machine that
    builds the tree top-down without recursion. `crnt` is the node being
    filled in; a container's first member is added as its child, and every
    further member as the next sibling of the previous one; when a container
    closes, `crnt` climbs back to it. Each handler is proved to do what its
    step function in `Steps` says. */
module Parse {
  import opened Tree
  import opened Text
  import opened Utils
  import opened Build
  import opened Number
  import opened Machine
  import opened Steps
  import Interface

  /** parse_context. `json_str` is `text` (None for a NULL pointer), the
      current position `crnt_posn` is the index `pos`, and the hooks are the
      heap's allocation methods. */
  class ParseContext {
    const text: Option<string>
    const scan: Scanner
    const heap: Heap
    var pos: nat
    var root: Ref
    var crnt: Ref
    var state: ParseState

    /** The characters json_str points at; only parse_value looks at a NULL
        json_str, and it checks first. */
    function Input(): string {
      if text.Some? then text.value else ""
    }

    /** The configuration the step functions describe. */
    ghost function Current(): Config
      reads this, heap
    {
      Config(heap.nodes, crnt, state, pos)
    }

    /** What holds between two passes of the parse loop; once malloc_fn has
        failed, the parse is in error. */
    ghost predicate Valid()
      reads this, heap
    {
      ScannerFits(scan) && heap.freed == [] && root == Ptr(0) && (heap.refused ==> state == Error)
      && Holds(Input(), Current(), text.Some?)
    }

    /** What a handler needs: the current node and its parent exist, the
        position is inside the text, and malloc_fn has not failed yet. */
    ghost predicate Ready()
      reads this, heap
    {
      ScannerFits(scan) && pos <= |Input()| && Sound(Current()) && !heap.refused
    }

    /** The context cJSON_ParseWithHooks sets up once the root is allocated. */
    constructor (text: Option<string>, scan: Scanner, heap: Heap)
      requires ScannerFits(scan) && heap.nodes == [Blank] && heap.freed == [] && !heap.refused
      ensures this.text == text && this.scan == scan && this.heap == heap
      ensures root == Ptr(0) && Current() == Start
      ensures Valid()
    {
      this.text := text;
      this.scan := scan;
      this.heap := heap;
      pos := 0;
      root := Ptr(0);
      crnt := Ptr(0);
      state := Value;
      new;
      StartHolds(Input(), text.Some?);
    }

    /** next_parse_state */
    method NextParseState()
      requires Sound(Current())
      modifies this
      ensures root == old(root)
      ensures Current() == Settle(Input(), old(Current()), old(state))
    {
      var c := crnt.index;
      if state == Error {
        // not reached: every caller has just finished a value
      } else if heap.nodes[c].parent.Nil? && At(Input(), pos) == '\0' {
        state := Complete;
      } else if ParentIsArray(heap.nodes, c) {
        state := NextArrayValue;
      } else if ParentIsObject(heap.nodes, c) {
        state := NextObjectValue;
      } else {
        state := Error;
      }
    }

    /** crnt_node_add_child: on success the new node is current. */
    method AddChildNode()
      requires crnt.Ptr? && crnt.index < |heap.nodes| && !heap.refused
      modifies this, heap
      ensures pos == old(pos) && root == old(root) && heap.freed == old(heap.freed)
      ensures heap.refused ==> state == Error && heap.nodes == old(heap.nodes) && crnt == old(crnt)
      ensures !heap.refused ==>
        state == old(state) && heap.nodes == AddChild(old(heap.nodes), old(crnt).index) && crnt == Ptr(|old(heap.nodes)|)
    {
      var child := heap.NewNode();
      if child.Nil? {
        state := Error;
      } else {
        ghost var nodes0 := old(heap.nodes);
        heap.nodes := heap.nodes[child.index := heap.nodes[child.index].(parent := crnt)];
        heap.nodes := heap.nodes[crnt.index := heap.nodes[crnt.index].(child := child)];
        assert heap.nodes == AddChild(nodes0, crnt.index);
        crnt := child;
      }
    }

    /** crnt_node_add_sibling: on success the new node is current. */
    method AddSiblingNode()
      requires crnt.Ptr? && crnt.index < |heap.nodes| && !heap.refused
      modifies this, heap
      ensures pos == old(pos) && root == old(root) && heap.freed == old(heap.freed)
      ensures heap.refused ==> state == Error && heap.nodes == old(heap.nodes) && crnt == old(crnt)
      ensures !heap.refused ==>
        state == old(state) && heap.nodes == AddSibling(old(heap.nodes), old(crnt).index) && crnt == Ptr(|old(heap.nodes)|)
    {
      var sibling := heap.NewNode();
      if sibling.Nil? {
        state := Error;
      } else {
        ghost var nodes0 := old(heap.nodes);
        heap.nodes := heap.nodes[sibling.index := heap.nodes[sibling.index].(prev := crnt)];
        heap.nodes := heap.nodes[sibling.index := heap.nodes[sibling.index].(parent := heap.nodes[crnt.index].parent)];
        heap.nodes := heap.nodes[crnt.index := heap.nodes[crnt.index].(next := sibling)];
        assert heap.nodes == AddSibling(nodes0, crnt.index);
        crnt := sibling;
      }
    }

    /** string_extract_from_crnt_posn: skip whitespace, require an opening
        quote, and copy everything up to the next quote; the quotes are
        consumed. Running into the terminator, or malloc_fn failing, is an
        error. */
    method StringExtract() returns (ok: bool, extracted: Option<string>)
      requires text.Some? && pos <= |Input()|
      modifies this, heap
      ensures crnt == old(crnt) && root == old(root) && pos <= |Input()| && old(pos) <= pos
      ensures heap.nodes == old(heap.nodes) && heap.freed == old(heap.freed)
      ensures heap.refused == (old(heap.refused) || (!ok && QuotedAt(Input(), old(pos)).Some?))
      ensures ok <==> extracted.Some?
      ensures QuotedAt(Input(), old(pos)).None? ==> !ok
      ensures ok ==> QuotedAt(Input(), old(pos)) == Some((extracted.value, pos)) && state == old(state)
      ensures !ok ==> state == Error && pos == WhitespaceEnd(Input(), old(pos))
    {
      var s := text.value;
      var r := SkipWhitespace(text, pos);
      pos := r.value;
      if At(s, pos) != '"' {
        // not a string
        state := Error;
        return false, None;
      }
      var j := pos + 1;
      var length := 0;
      while At(s, j) != '\0' && At(s, j) != '"'
        invariant pos + 1 <= j && length == j - (pos + 1)
        invariant QuoteOrEnd(s, j) == QuoteOrEnd(s, pos + 1)
        decreases |s| - j
      {
        j := j + 1;
        length := length + 1;
      }
      if At(s, j) != '"' {
        // the text ended inside the string
        state := Error;
        return false, None;
      }
      var copied := heap.Malloc();
      if !copied {
        state := Error;
        return false, None;
      }
      extracted := Some(s[pos + 1..pos + 1 + length]);
      pos := pos + length + 2;
      ok := true;
    }

    /** One of the literal branches of parse_value: null, false, true,
        -Infinity, NaN and Infinity set the type (and the value) and step
        over the literal. */
    method ParseLiteral(kind: ValueType, number: NumberValue, width: nat)
      requires Ready() && state == Value && pos + width <= |Input()|
      modifies this, heap
      ensures root == old(root) && heap.freed == old(heap.freed) && !heap.refused
      ensures var c := old(crnt).index;
        Current() == Settle(Input(), Config(old(heap.nodes)[c := old(heap.nodes)[c].(kind := kind, number := number)],
                                            old(crnt), Value, old(pos) + width), Value)
    {
      var c := crnt.index;
      heap.nodes := heap.nodes[c := heap.nodes[c].(kind := kind, number := number)];
      pos := pos + width;
      NextParseState();
    }

    /** parse_number: the value is taken when strtod consumed something and
        did not overflow or underflow to zero; the position moves to where
        strtod stopped. */
    method ParseNumber()
      requires Ready() && state == Value
      modifies this, heap
      ensures root == old(root) && heap.freed == old(heap.freed) && !heap.refused
      ensures Current() == NumberStep(Input(), scan, old(Current()))
    {
      var s := Input();
      var c := crnt.index;
      var conv := scan(s, pos);
      assert ConversionFits(s, pos, conv);
      AcceptedMeansConverted(s, pos, conv);
      if conv.magnitude == HugeValue {
        // overflow
        state := Error;
      } else if conv.magnitude == ZeroValue && conv.range {
        // underflow
        state := Error;
      } else if conv.magnitude == ZeroValue && conv.consumed == 0 {
        // nothing converted
        state := Error;
      } else {
        heap.nodes := heap.nodes[c := heap.nodes[c].(kind := Number, number := Converted(s[pos..pos + conv.consumed]))];
        pos := pos + conv.consumed;
        NextParseState();
      }
    }

    /** parse_string: the node becomes a string holding the characters up to
        the closing quote. */
    method ParseString()
      requires Ready() && state == Value && text.Some?
      modifies this, heap
      ensures root == old(root) && heap.freed == old(heap.freed) && (heap.refused ==> state == Error)
      ensures Current() == StringStep(Input(), old(Current()), !heap.refused)
    {
      var c := crnt.index;
      var ok, v := StringExtract();
      heap.nodes := heap.nodes[c := heap.nodes[c].(kind := String, valuestring := v)];
      if ok {
        NextParseState();
      }
    }

    /** parse_array: an empty array is finished at once; otherwise its first
        member is added and becomes the value to parse. */
    method ParseArray()
      requires Ready() && state == Value && text.Some? && At(Input(), pos) == '['
      modifies this, heap
      ensures root == old(root) && heap.freed == old(heap.freed) && (heap.refused ==> state == Error)
      ensures Current() == ContainerStep(Input(), old(Current()), Array, !heap.refused)
    {
      ghost var g := Current();
      var c := crnt.index;
      heap.nodes := heap.nodes[c := heap.nodes[c].(kind := Array)];
      ghost var filled := heap.nodes;
      var r := SkipWhitespace(text, pos + 1);
      pos := r.value;
      if At(Input(), pos) == ']' {
        // empty array
        pos := pos + 1;
        NextParseState();
        assert Current() == Settle(Input(), Config(filled, g.crnt, Value, pos), Value);
      } else {
        AddChildNode();
        if state != Error {
          state := Value;
        }
      }
    }

    /** parse_object: an empty object is finished at once; otherwise its
        first member is added and its key is parsed next. */
    method ParseObject()
      requires Ready() && state == Value && text.Some? && At(Input(), pos) == '{'
      modifies this, heap
      ensures root == old(root) && heap.freed == old(heap.freed) && (heap.refused ==> state == Error)
      ensures Current() == ContainerStep(Input(), old(Current()), Object, !heap.refused)
    {
      ghost var g := Current();
      var c := crnt.index;
      heap.nodes := heap.nodes[c := heap.nodes[c].(kind := Object)];
      ghost var filled := heap.nodes;
      var r := SkipWhitespace(text, pos + 1);
      pos := r.value;
      if At(Input(), pos) == '}' {
        // empty object
        pos := pos + 1;
        NextParseState();
        assert Current() == Settle(Input(), Config(filled, g.crnt, Value, pos), Value);
      } else {
        AddChildNode();
        if state != Error {
          state := ObjectKey;
        }
      }
    }

    /** parse_value: skip whitespace and take the branch its lead characters
        select; a NULL text is an error. */
    method ParseValue()
      requires Ready() && state == Value
      modifies this, heap
      ensures root == old(root) && heap.freed == old(heap.freed) && (heap.refused ==> state == Error)
      ensures text.None? ==> state == Error
      ensures Current() == ValueStep(Input(), scan, old(Current()), !heap.refused)
    {
      var r := SkipWhitespace(text, pos);
      if r.None? {
        DispatchAtEnd(Input(), pos);
        state := Error;
        return;
      }
      pos := r.value;
      ParseBranch();
    }

    /** The branches of parse_value, taken at the first non-space character. */
    method ParseBranch()
      requires Ready() && state == Value && text.Some?
      modifies this, heap
      ensures root == old(root) && heap.freed == old(heap.freed) && (heap.refused ==> state == Error)
      ensures Current() == BranchStep(Input(), scan, old(Current()), !heap.refused)
    {
      ghost var g := Current();
      match Dispatch(Input(), pos)
      case StringBranch =>
        ParseString();
        assert Current() == BranchStep(Input(), scan, g, !heap.refused);
      case ArrayBranch =>
        ParseArray();
        assert Current() == BranchStep(Input(), scan, g, !heap.refused);
      case ObjectBranch =>
        ParseObject();
        assert Current() == BranchStep(Input(), scan, g, !heap.refused);
      case LiteralBranch(kind, number, width) =>
        DispatchLiteral(Input(), pos);
        ParseLiteral(kind, number, width);
      case NumberBranch =>
        ParseNumber();
        assert Current() == BranchStep(Input(), scan, g, !heap.refused);
      case InvalidBranch =>
        state := Error;
    }

    /** parse_object_key: a quoted key, then ':'; the value comes next. */
    method ParseObjectKey()
      requires Ready() && state == ObjectKey && text.Some?
      modifies this, heap
      ensures root == old(root) && heap.freed == old(heap.freed) && (heap.refused ==> state == Error)
      ensures Current() == KeyStep(Input(), old(Current()), !heap.refused)
    {
      var c := crnt.index;
      var ok, k := StringExtract();
      heap.nodes := heap.nodes[c := heap.nodes[c].(key := k)];
      if ok {
        var r := SkipWhitespace(text, pos);
        pos := r.value;
        if At(Input(), pos) == ':' {
          pos := pos + 1;
          state := Value;
        } else {
          state := Error;
        }
      }
    }

    /** next_array_value: ']' closes the array and its value is finished;
        ',' adds the next member. */
    method NextInArray()
      requires Ready() && ParentSound(Current()) && state == NextArrayValue && text.Some?
      modifies this, heap
      ensures root == old(root) && heap.freed == old(heap.freed) && (heap.refused ==> state == Error)
      ensures Current() == MemberStep(Input(), old(Current()), Array, !heap.refused)
    {
      var r := SkipWhitespace(text, pos);
      pos := r.value;
      var c := crnt.index;
      if At(Input(), pos) == ']' && ParentIsArray(heap.nodes, c) {
        // end of the array: its value is finished
        pos := pos + 1;
        crnt := heap.nodes[c].parent;
        NextParseState();
      } else if At(Input(), pos) == ',' && ParentIsArray(heap.nodes, c) {
        pos := pos + 1;
        AddSiblingNode();
        if state != Error {
          state := Value;
        }
      } else {
        state := Error;
      }
    }

    /** next_object_value: '}' closes the object and its value is finished;
        ',' adds the next member, whose key is parsed next. */
    method NextInObject()
      requires Ready() && ParentSound(Current()) && state == NextObjectValue && text.Some?
      modifies this, heap
      ensures root == old(root) && heap.freed == old(heap.freed) && (heap.refused ==> state == Error)
      ensures Current() == MemberStep(Input(), old(Current()), Object, !heap.refused)
    {
      var r := SkipWhitespace(text, pos);
      pos := r.value;
      var c := crnt.index;
      if At(Input(), pos) == '}' && ParentIsObject(heap.nodes, c) {
        // end of the object: its value is finished
        pos := pos + 1;
        crnt := heap.nodes[c].parent;
        NextParseState();
      } else if At(Input(), pos) == ',' && ParentIsObject(heap.nodes, c) {
        pos := pos + 1;
        AddSiblingNode();
        if state != Error {
          state := ObjectKey;
        }
      } else {
        state := Error;
      }
    }

    /** One pass of the loop in parse: the handler for the current state. */
    method Step()
      requires Valid() && state != Complete && state != Error
      modifies this, heap
      ensures Valid() && root == old(root)
      ensures Current() == NextConfig(Input(), scan, old(Current()), !heap.refused)
    {
      HoldsSound(Input(), Current(), text.Some?);
      ghost var g := Current();
      match state {
        case Value => ParseValue();
        case ObjectKey => ParseObjectKey();
        case NextArrayValue => NextInArray();
        case NextObjectValue => NextInObject();
      }
      NextConfigKeeps(Input(), scan, g, !heap.refused, text.Some?);
    }

    /** parse: run the state machine until it completes or fails; on failure
        the whole tree is released, children before their parents, and the
        root cleared. Unless malloc_fn failed, the outcome is the one `Run`
        gives. */
    method Parse()
      requires Valid() && state == Value
      modifies this, heap
      ensures state == Complete || state == Error
      ensures text.None? || heap.refused ==> state == Error
      ensures !heap.refused ==> state == Run(Input(), scan, old(Current())).state
      ensures state == Complete ==>
        && Valid() && Document(heap.nodes) && At(Input(), pos) == '\0'
        && Current() == Run(Input(), scan, old(Current()))
      ensures state == Error ==>
        && root.Nil? && (forall x: nat :: x in heap.freed <==> x < |heap.nodes|)
        && Interface.Distinct(heap.freed) && Interface.PostOrder(heap.nodes, heap.freed)
    {
      while state != Complete && state != Error
        invariant Valid() && old(Current()).pos <= |Input()|
        invariant !heap.refused ==> Run(Input(), scan, Current()) == Run(Input(), scan, old(Current()))
        decreases |Input()| - pos, if state == Complete || state == Error then 0 else 1
      {
        Step();
      }
      if state == Error {
        ghost var nodes0 := heap.nodes;
        Interface.DeleteWithHooks(heap, root);
        root := Nil;
        forall k | 0 <= k < |heap.freed|
          ensures heap.freed[k] < |nodes0|
        {
          assert heap.freed[k] in heap.freed;
        }
        Interface.PostOrderKept(nodes0, heap.nodes, heap.freed);
      }
    }
  }

  /** cJSON2_ParseWithHooks: allocate the root, run the parse, and return
      the root of a document, or nothing with every node released. Unless
      malloc_fn failed, a document comes back exactly when `Run` completes
      from the start. */
  method ParseWithHooks(text: Option<string>, scan: Scanner) returns (heap: Heap, root: Ref)
    requires ScannerFits(scan)
    ensures text.None? ==> root.Nil?
    ensures text.Some? && !heap.refused ==> (root.Ptr? <==> Run(text.value, scan, Start).state == Complete)
    ensures root.Ptr? ==>
      && root == Ptr(0) && text.Some? && !heap.refused && heap.freed == []
      && heap.nodes == Run(text.value, scan, Start).nodes && Document(heap.nodes)
    ensures root.Nil? ==>
      && (forall x: nat :: x in heap.freed <==> x < |heap.nodes|)
      && Interface.Distinct(heap.freed) && Interface.PostOrder(heap.nodes, heap.freed)
  {
    heap := new Heap();
    root := heap.NewNode();
    if root.Nil? {
      return;
    }
    var context := new ParseContext(text, scan, heap);
    context.Parse();
    root := context.root;
  }
}
