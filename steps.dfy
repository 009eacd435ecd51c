/** The parse loop of cJSON2_Parse.c as functions of a configuration: which
    branch parse_value takes, what each handler does to the nodes, the
    current node, the state and the position, and the loop run to its end.
    The methods of the parse context are proved to do exactly what these
    functions say; the invariant of the tree is proved here, once, about the
    functions. */
module Steps {
  import opened Tree
  import opened Text
  import opened Utils
  import opened Build
  import opened Number
  import opened Machine

  // ---------------------------------------------------------------------
  // parse_value's choice of branch

  /** The branches of parse_value, in the order its tests are tried. */
  datatype Branch =
    | StringBranch
    | ArrayBranch
    | ObjectBranch
    | LiteralBranch(kind: ValueType, number: NumberValue, width: nat)
    | NumberBranch
    | InvalidBranch

  /** Which branch parse_value takes at position `i`. */
  function Dispatch(s: string, i: nat): Branch {
    var ch := At(s, i);
    if ch == '"' then StringBranch
    else if ch == '[' then ArrayBranch
    else if ch == '{' then ObjectBranch
    else if HasPrefix(s, i, "null") then LiteralBranch(Null, Zero, 4)
    else if HasPrefix(s, i, "false") then LiteralBranch(False, Zero, 5)
    else if HasPrefix(s, i, "true") then LiteralBranch(True, Zero, 4)
    else if HasPrefix(s, i, "-Infinity") then LiteralBranch(Number, NegativeInfinity, 9)
    else if ch == '-' || IsDigit(ch) then NumberBranch
    else if HasPrefix(s, i, "NaN") then LiteralBranch(Number, NotANumber, 3)
    else if HasPrefix(s, i, "Infinity") then LiteralBranch(Number, PositiveInfinity, 8)
    else InvalidBranch
  }

  /** The text of the literal that gives a node this type and value. */
  function Spelling(kind: ValueType, number: NumberValue): string {
    match (kind, number)
    case (Null, _) => "null"
    case (False, _) => "false"
    case (True, _) => "true"
    case (Number, NegativeInfinity) => "-Infinity"
    case (Number, NotANumber) => "NaN"
    case (Number, PositiveInfinity) => "Infinity"
    case _ => ""
  }

  /** A literal branch is taken only where the text spells that literal, and
      stepping over it stays inside the text. */
  lemma DispatchLiteral(s: string, i: nat)
    requires Dispatch(s, i).LiteralBranch?
    ensures var b := Dispatch(s, i);
      && 0 < b.width == |Spelling(b.kind, b.number)| && i + b.width <= |s|
      && s[i..i + b.width] == Spelling(b.kind, b.number)
  {
    var b := Dispatch(s, i);
    var lit := Spelling(b.kind, b.number);
    assert HasPrefix(s, i, lit);
    PrefixInside(s, i, lit);
    forall k | 0 <= k < |lit|
      ensures s[i + k] == lit[k]
    {
      assert At(s, i + k) == lit[k];
    }
    assert s[i..i + b.width] == lit;
  }

  /** strtod sees the text exactly when it starts with '-' or a digit but
      does not spell -Infinity, which is recognised before it. */
  lemma DispatchNumber(s: string, i: nat)
    ensures Dispatch(s, i) == NumberBranch <==>
      (At(s, i) == '-' || IsDigit(At(s, i))) && !HasPrefix(s, i, "-Infinity")
  {
    if At(s, i) == '-' || IsDigit(At(s, i)) {
      assert !HasPrefix(s, i, "null") by { assert At(s, i + 0) != "null"[0]; }
      assert !HasPrefix(s, i, "false") by { assert At(s, i + 0) != "false"[0]; }
      assert !HasPrefix(s, i, "true") by { assert At(s, i + 0) != "true"[0]; }
    }
  }

  /** Every lead character that starts no string, container, literal or
      number is rejected. */
  lemma DispatchInvalid(s: string, i: nat)
    ensures Dispatch(s, i) == InvalidBranch <==>
      && At(s, i) !in {'"', '[', '{', '-'} && !IsDigit(At(s, i))
      && !HasPrefix(s, i, "null") && !HasPrefix(s, i, "false") && !HasPrefix(s, i, "true")
      && !HasPrefix(s, i, "NaN") && !HasPrefix(s, i, "Infinity")
  {
    if HasPrefix(s, i, "-Infinity") {
      assert At(s, i + 0) == "-Infinity"[0];
    }
  }

  /** What parse_object_key reads at `i`: a quoted key, then after
      whitespace a ':'. The result is the key and the position after the
      colon. */
  function ObjectKeyAt(s: string, i: nat): (r: Option<(string, nat)>)
    ensures r.Some? ==> i < r.value.1 <= |s| && Clean(r.value.0)
  {
    match QuotedAt(s, i)
    case None => None
    case Some((k, j)) =>
      var p := WhitespaceEnd(s, j);
      if At(s, p) == ':' then Some((k, p + 1)) else None
  }

  /** At the terminator no branch but the error applies. */
  lemma DispatchAtEnd(s: string, i: nat)
    requires At(s, i) == '\0'
    ensures Dispatch(s, i) == InvalidBranch
  {
    assert !HasPrefix(s, i, "null") by { assert At(s, i + 0) != "null"[0]; }
    assert !HasPrefix(s, i, "false") by { assert At(s, i + 0) != "false"[0]; }
    assert !HasPrefix(s, i, "true") by { assert At(s, i + 0) != "true"[0]; }
    assert !HasPrefix(s, i, "-Infinity") by { assert At(s, i + 0) != "-Infinity"[0]; }
    assert !HasPrefix(s, i, "NaN") by { assert At(s, i + 0) != "NaN"[0]; }
    assert !HasPrefix(s, i, "Infinity") by { assert At(s, i + 0) != "Infinity"[0]; }
  }

  // ---------------------------------------------------------------------
  // One pass of the parse loop

  /** The part of parse_context that the loop changes: the nodes,
      crnt_node, the state and crnt_posn. */
  datatype Config = Config(nodes: seq<Node>, crnt: Ref, state: ParseState, pos: nat)

  /** Where cJSON_ParseWithHooks starts the loop: the root allocated and
      zeroed, nothing read. */
  const Start: Config := Config([Blank], Ptr(0), Value, 0)

  /** The current node exists and so does its parent. */
  predicate Sound(g: Config) {
    g.crnt.Ptr? && g.crnt.index < |g.nodes| && InRange(g.nodes, g.nodes[g.crnt.index].parent)
  }

  /** The parent of the current node is sound in turn, so the loop can climb
      to it. */
  predicate ParentSound(g: Config)
    requires Sound(g)
  {
    var p := g.nodes[g.crnt.index].parent;
    p.Ptr? ==> Sound(g.(crnt := p))
  }

  /** What holds between two passes, for a configuration. */
  ghost predicate Holds(s: string, g: Config, hasText: bool) {
    Between(g.nodes, g.crnt, g.state, s, g.pos, hasText)
  }

  /** A pass never moves back, stays inside the text, and either reads
      something or ends the parse. */
  predicate Advances(s: string, g: Config, r: Config) {
    g.pos <= r.pos <= |s| && (r.state == Error || r.state == Complete || g.pos < r.pos)
  }

  /** The character that closes a container of this type. */
  function Close(kind: ValueType): char {
    if kind == Array then ']' else '}'
  }

  /** next_parse_state: only the state changes, to the one `Route` picks.
      The loop never reaches it without a current node and its parent; such
      a configuration is sent to ERROR. */
  function Settle(s: string, g: Config, prev: ParseState): (r: Config)
    ensures r.nodes == g.nodes && r.crnt == g.crnt && r.pos == g.pos
    ensures r.state == Complete ==> At(s, r.pos) == '\0'
  {
    if Sound(g) then
      g.(state := Route(g.nodes, g.crnt.index, prev, At(s, g.pos)))
    else
      g.(state := Error)
  }

  /** parse_string: the node becomes a string; it holds what
      string_extract_from_crnt_posn copies, or NULL when there is no closed
      string or malloc_fn refuses the copy (`ok` false). */
  function StringStep(s: string, g: Config, ok: bool): (r: Config)
    requires Sound(g) && g.pos <= |s|
    ensures Advances(s, g, r) && |r.nodes| == |g.nodes| && r.nodes[g.crnt.index].kind == String
    ensures r.state != Error ==> ok && QuotedAt(s, g.pos).Some? && r.nodes[g.crnt.index].valuestring == Some(QuotedAt(s, g.pos).value.0)
  {
    var c := g.crnt.index;
    var quoted := QuotedAt(s, g.pos);
    if quoted.Some? && ok then
      var (v, e) := quoted.value;
      Settle(s, Config(g.nodes[c := g.nodes[c].(kind := String, valuestring := Some(v))], g.crnt, Value, e), Value)
    else
      Config(g.nodes[c := g.nodes[c].(kind := String, valuestring := None)], g.crnt, Error, WhitespaceEnd(s, g.pos))
  }

  /** parse_number: an accepted conversion stores the text strtod consumed
      and moves past it; a rejected one changes nothing but the state. */
  function NumberStep(s: string, scan: Scanner, g: Config): (r: Config)
    requires ScannerFits(scan) && Sound(g) && g.pos <= |s|
    ensures Advances(s, g, r) && |r.nodes| == |g.nodes|
    ensures !Accepted(scan(s, g.pos)) ==> r == g.(state := Error)
    ensures Accepted(scan(s, g.pos)) ==> r.pos == g.pos + scan(s, g.pos).consumed
  {
    var c := g.crnt.index;
    var conv := scan(s, g.pos);
    assert ConversionFits(s, g.pos, conv);
    AcceptedMeansConverted(s, g.pos, conv);
    if Accepted(conv) then
      var n := g.nodes[c].(kind := Number, number := Converted(s[g.pos..g.pos + conv.consumed]));
      Settle(s, Config(g.nodes[c := n], g.crnt, Value, g.pos + conv.consumed), Value)
    else
      g.(state := Error)
  }

  /** parse_array and parse_object: the node becomes a container; a closing
      bracket after whitespace finishes it empty, anything else is its first
      member, added as a child unless malloc_fn refuses it. */
  function ContainerStep(s: string, g: Config, kind: ValueType, ok: bool): (r: Config)
    requires Sound(g) && g.pos < |s|
    ensures Advances(s, g, r) && |g.nodes| <= |r.nodes| && r.nodes[g.crnt.index].kind == kind
  {
    var c := g.crnt.index;
    var filled := g.nodes[c := g.nodes[c].(kind := kind)];
    var q := WhitespaceEnd(s, g.pos + 1);
    if At(s, q) == Close(kind) then
      Settle(s, Config(filled, g.crnt, Value, q + 1), Value)
    else if ok then
      Config(AddChild(filled, c), Ptr(|filled|), if kind == Object then ObjectKey else Value, q)
    else
      Config(filled, g.crnt, Error, q)
  }

  /** The branch of parse_value taken at the current position. */
  function BranchStep(s: string, scan: Scanner, g: Config, ok: bool): (r: Config)
    requires ScannerFits(scan) && Sound(g) && g.pos <= |s|
    ensures Advances(s, g, r)
  {
    var c := g.crnt.index;
    match Dispatch(s, g.pos)
    case StringBranch => StringStep(s, g, ok)
    case ArrayBranch => ContainerStep(s, g, Array, ok)
    case ObjectBranch => ContainerStep(s, g, Object, ok)
    case LiteralBranch(kind, number, width) =>
      DispatchLiteral(s, g.pos);
      Settle(s, Config(g.nodes[c := g.nodes[c].(kind := kind, number := number)], g.crnt, Value, g.pos + width), Value)
    case NumberBranch => NumberStep(s, scan, g)
    case InvalidBranch => g.(state := Error)
  }

  /** parse_value: skip whitespace, then the branch its first character
      selects. */
  function ValueStep(s: string, scan: Scanner, g: Config, ok: bool): (r: Config)
    requires ScannerFits(scan) && Sound(g) && g.pos <= |s|
    ensures Advances(s, g, r)
  {
    BranchStep(s, scan, g.(pos := WhitespaceEnd(s, g.pos)), ok)
  }

  /** parse_object_key: the key is stored (NULL when there is no closed
      string or malloc_fn refuses the copy), and the value comes next exactly
      when `ObjectKeyAt` reads a key and a colon. */
  function KeyStep(s: string, g: Config, ok: bool): (r: Config)
    requires Sound(g) && g.pos <= |s|
    ensures Advances(s, g, r) && |r.nodes| == |g.nodes| && r.crnt == g.crnt
    ensures r.state == Value || r.state == Error
    ensures r.state == Value <==> ok && ObjectKeyAt(s, g.pos).Some?
    ensures r.state == Value ==>
      r.pos == ObjectKeyAt(s, g.pos).value.1 && r.nodes[g.crnt.index].key == Some(ObjectKeyAt(s, g.pos).value.0)
  {
    var c := g.crnt.index;
    var quoted := QuotedAt(s, g.pos);
    if quoted.Some? && ok then
      var (k, e) := quoted.value;
      var keyed := g.nodes[c := g.nodes[c].(key := Some(k))];
      var q := WhitespaceEnd(s, e);
      if At(s, q) == ':' then Config(keyed, g.crnt, Value, q + 1) else Config(keyed, g.crnt, Error, q)
    else
      Config(g.nodes[c := g.nodes[c].(key := None)], g.crnt, Error, WhitespaceEnd(s, g.pos))
  }

  /** next_array_value and next_object_value: the closing bracket climbs to
      the container, whose value is then finished; ',' adds the next member
      as a sibling unless malloc_fn refuses it; anything else is an error. */
  function MemberStep(s: string, g: Config, kind: ValueType, ok: bool): (r: Config)
    requires Sound(g) && g.pos <= |s|
    ensures Advances(s, g, r)
    ensures var p := WhitespaceEnd(s, g.pos); At(s, p) != Close(kind) && At(s, p) != ',' ==> r.state == Error
  {
    var c := g.crnt.index;
    var p := WhitespaceEnd(s, g.pos);
    var inside := if kind == Array then ParentIsArray(g.nodes, c) else ParentIsObject(g.nodes, c);
    var prev := if kind == Array then NextArrayValue else NextObjectValue;
    if At(s, p) == Close(kind) && inside then
      Settle(s, Config(g.nodes, g.nodes[c].parent, prev, p + 1), prev)
    else if At(s, p) == ',' && inside && ok then
      Config(AddSibling(g.nodes, c), Ptr(|g.nodes|), if kind == Object then ObjectKey else Value, p + 1)
    else if At(s, p) == ',' && inside then
      g.(state := Error, pos := p + 1)
    else
      g.(state := Error, pos := p)
  }

  /** One pass of the loop in parse: the handler for the current state, `ok`
      telling whether malloc_fn grants the one request it may make. COMPLETE
      and ERROR are final. */
  function NextConfig(s: string, scan: Scanner, g: Config, ok: bool): (r: Config)
    requires ScannerFits(scan) && g.pos <= |s|
    ensures g.state != Complete && g.state != Error ==> Advances(s, g, r)
    ensures g.state == Complete || g.state == Error ==> r == g
  {
    if g.state == Complete || g.state == Error then g
    else if !Sound(g) then g.(state := Error)
    else if g.state == Value then ValueStep(s, scan, g, ok)
    else if g.state == ObjectKey then KeyStep(s, g, ok)
    else if g.state == NextArrayValue then MemberStep(s, g, Array, ok)
    else MemberStep(s, g, Object, ok)
  }

  /** The loop in parse when malloc_fn grants every request: passes until
      the state is COMPLETE or ERROR. */
  function Run(s: string, scan: Scanner, g: Config): (r: Config)
    requires ScannerFits(scan) && g.pos <= |s|
    ensures r.state == Complete || r.state == Error
    ensures g.pos <= r.pos <= |s|
    ensures r.state == Complete && g.state != Complete ==> At(s, r.pos) == '\0'
    decreases |s| - g.pos, if g.state == Complete || g.state == Error then 0 else 1
  {
    if g.state == Complete || g.state == Error then g
    else Run(s, scan, NextConfig(s, scan, g, true))
  }

  // ---------------------------------------------------------------------
  // Every pass keeps the tree invariant

  /** The invariant names a current node that exists, with its parent. */
  lemma HoldsSound(s: string, g: Config, hasText: bool)
    requires Holds(s, g, hasText)
    ensures Sound(g) && ParentSound(g) && g.pos <= |s| && Shape(g.nodes, g.crnt)
  {
    var p := g.nodes[g.crnt.index].parent;
    if p.Ptr? {
      assert LinkedAt(g.nodes, p.index);
    }
  }

  /** next_parse_state after a finished value. */
  lemma SettleKeeps(s: string, g: Config, prev: ParseState)
    requires Finished(g.nodes, g.crnt) && g.pos <= |s|
    ensures Holds(s, Settle(s, g, prev), true)
  {
    Routed(g.nodes, g.crnt.index, prev, s, g.pos);
  }

  /** Giving the pending node its type and payload finishes its value. */
  lemma FillPending(nodes: seq<Node>, c: nat, n: Node)
    requires Finished(nodes, Ptr(c)) && Pending(nodes, c) && SameLinks(nodes[c], n) && n.key == nodes[c].key
    requires TypedNode(n) && (n.valuestring.Some? ==> Clean(n.valuestring.value))
    ensures Finished(nodes[c := n], Ptr(c))
  {
    assert nodes[c].key.Some? ==> Clean(nodes[c].key.value);
    FillKeeps(nodes, c, n, Nil);
  }

  /** A node that fails to become a string keeps the shape. */
  lemma FailedStringKeeps(nodes: seq<Node>, c: nat)
    requires Shape(nodes, Ptr(c)) && nodes[c].child.Nil?
    ensures Shape(nodes[c := nodes[c].(kind := String, valuestring := None)], Ptr(c))
    ensures Shape(nodes[c := nodes[c].(key := None)], Ptr(c))
  {
    assert nodes[c].key.Some? ==> Clean(nodes[c].key.value);
    FillKeeps(nodes, c, nodes[c].(kind := String, valuestring := None), Nil);
    FillKeeps(nodes, c, nodes[c].(key := None), Nil);
  }

  lemma StringStepKeeps(s: string, g: Config, ok: bool)
    requires Holds(s, g, true) && g.state == Value
    ensures Holds(s, StringStep(s, g, ok), true)
  {
    var c := g.crnt.index;
    FailedStringKeeps(g.nodes, c);
    match QuotedAt(s, g.pos)
    case Some((v, e)) =>
      var n := g.nodes[c].(kind := String, valuestring := Some(v));
      FillPending(g.nodes, c, n);
      SettleKeeps(s, Config(g.nodes[c := n], g.crnt, Value, e), Value);
    case None =>
  }

  lemma NumberStepKeeps(s: string, scan: Scanner, g: Config)
    requires ScannerFits(scan) && Holds(s, g, true) && g.state == Value
    ensures Holds(s, NumberStep(s, scan, g), true)
  {
    var c := g.crnt.index;
    var conv := scan(s, g.pos);
    assert ConversionFits(s, g.pos, conv);
    AcceptedMeansConverted(s, g.pos, conv);
    if Accepted(conv) {
      var n := g.nodes[c].(kind := Number, number := Converted(s[g.pos..g.pos + conv.consumed]));
      FillPending(g.nodes, c, n);
      SettleKeeps(s, Config(g.nodes[c := n], g.crnt, Value, g.pos + conv.consumed), Value);
    }
  }

  lemma ContainerStepKeeps(s: string, g: Config, kind: ValueType, ok: bool)
    requires Holds(s, g, true) && g.state == Value && IsContainer(kind) && g.pos < |s|
    ensures Holds(s, ContainerStep(s, g, kind, ok), true)
  {
    var c := g.crnt.index;
    var n := g.nodes[c].(kind := kind);
    var filled := g.nodes[c := n];
    var q := WhitespaceEnd(s, g.pos + 1);
    FillPending(g.nodes, c, n);
    if At(s, q) == Close(kind) {
      SettleKeeps(s, Config(filled, g.crnt, Value, q + 1), Value);
    } else if ok {
      ChildKeeps(filled, c, s, q);
    }
  }

  lemma LiteralKeeps(s: string, g: Config)
    requires Holds(s, g, true) && g.state == Value && Dispatch(s, g.pos).LiteralBranch?
    ensures var b := Dispatch(s, g.pos); var c := g.crnt.index;
      && c < |g.nodes| && g.pos + b.width <= |s|
      && Holds(s, Settle(s, Config(g.nodes[c := g.nodes[c].(kind := b.kind, number := b.number)], g.crnt, Value, g.pos + b.width), Value), true)
  {
    var b := Dispatch(s, g.pos);
    var c := g.crnt.index;
    DispatchLiteral(s, g.pos);
    var n := g.nodes[c].(kind := b.kind, number := b.number);
    FillPending(g.nodes, c, n);
    SettleKeeps(s, Config(g.nodes[c := n], g.crnt, Value, g.pos + b.width), Value);
  }

  lemma BranchStepKeeps(s: string, scan: Scanner, g: Config, ok: bool)
    requires ScannerFits(scan) && Holds(s, g, true) && g.state == Value
    ensures Holds(s, BranchStep(s, scan, g, ok), true)
  {
    var c := g.crnt.index;
    match Dispatch(s, g.pos)
    case StringBranch => StringStepKeeps(s, g, ok);
    case ArrayBranch => ContainerStepKeeps(s, g, Array, ok);
    case ObjectBranch => ContainerStepKeeps(s, g, Object, ok);
    case LiteralBranch(kind, number, width) => LiteralKeeps(s, g);
    case NumberBranch => NumberStepKeeps(s, scan, g);
    case InvalidBranch =>
  }

  lemma KeyStepKeeps(s: string, g: Config, ok: bool)
    requires Holds(s, g, true) && g.state == ObjectKey
    ensures Holds(s, KeyStep(s, g, ok), true)
  {
    var c := g.crnt.index;
    FailedStringKeeps(g.nodes, c);
    match QuotedAt(s, g.pos)
    case Some((k, e)) =>
      var n := g.nodes[c].(key := Some(k));
      assert TypedNode(g.nodes[c]);
      FillKeeps(g.nodes, c, n, Ptr(c));
    case None =>
  }

  lemma MemberStepKeeps(s: string, g: Config, kind: ValueType, ok: bool)
    requires Holds(s, g, true) && IsContainer(kind)
    requires g.state == (if kind == Array then NextArrayValue else NextObjectValue)
    ensures Holds(s, MemberStep(s, g, kind, ok), true)
  {
    var c := g.crnt.index;
    var p := WhitespaceEnd(s, g.pos);
    var inside := if kind == Array then ParentIsArray(g.nodes, c) else ParentIsObject(g.nodes, c);
    var prev := if kind == Array then NextArrayValue else NextObjectValue;
    if At(s, p) == Close(kind) && inside {
      var parent := g.nodes[c].parent.index;
      OpenParent(g.nodes, c);
      assert LinkedAt(g.nodes, parent);
      SettleKeeps(s, Config(g.nodes, g.nodes[c].parent, prev, p + 1), prev);
    } else if At(s, p) == ',' && inside && ok {
      SiblingKeeps(g.nodes, c, s, p + 1);
    }
  }

  /** Every pass of the loop keeps the invariant, whatever malloc_fn does. */
  lemma NextConfigKeeps(s: string, scan: Scanner, g: Config, ok: bool, hasText: bool)
    requires ScannerFits(scan) && Holds(s, g, hasText) && (hasText || s == "")
    ensures Holds(s, NextConfig(s, scan, g, ok), hasText)
  {
    HoldsSound(s, g, hasText);
    if g.state == Value {
      var g' := g.(pos := WhitespaceEnd(s, g.pos));
      if hasText {
        BranchStepKeeps(s, scan, g', ok);
      } else {
        DispatchAtEnd(s, g'.pos);
      }
    } else if g.state == ObjectKey {
      KeyStepKeeps(s, g, ok);
    } else if g.state == NextArrayValue {
      MemberStepKeeps(s, g, Array, ok);
    } else if g.state == NextObjectValue {
      MemberStepKeeps(s, g, Object, ok);
    }
  }

  /** The run keeps the invariant to its end. */
  lemma {:induction false} RunKeeps(s: string, scan: Scanner, g: Config, hasText: bool)
    requires ScannerFits(scan) && Holds(s, g, hasText) && (hasText || s == "")
    ensures Holds(s, Run(s, scan, g), hasText)
    decreases |s| - g.pos, if g.state == Complete || g.state == Error then 0 else 1
  {
    if g.state != Complete && g.state != Error {
      NextConfigKeeps(s, scan, g, true, hasText);
      RunKeeps(s, scan, NextConfig(s, scan, g, true), hasText);
    }
  }

  /** The invariant holds at the start. */
  lemma StartHolds(s: string, hasText: bool)
    ensures Holds(s, Start, hasText)
  {
    assert LinkedAt(Start.nodes, 0);
  }

  /** A run that completes has built a document and read the whole text,
      up to the terminator. */
  lemma CompleteIsDocument(s: string, scan: Scanner, g: Config)
    requires ScannerFits(scan) && Holds(s, g, true)
    ensures var r := Run(s, scan, g); r.state == Complete ==> Document(r.nodes) && At(s, r.pos) == '\0'
  {
    RunKeeps(s, scan, g, true);
  }
}
