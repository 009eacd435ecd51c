/** What the parse loop of cJSON2_Parse.c makes of particular texts when
    malloc_fn grants every request: the documents the library's own tests
    expect, and the texts it must reject. strtod is any scanner that keeps
    to what the C library promises of it. */
module Outcomes {
  import opened Tree
  import opened Build
  import opened Text
  import opened Number
  import opened Machine
  import opened Steps
  import opened Utils
  import Interface

  /** "[]" is an array with no members (cJSON2_Test.c, test_parse_array_empty). */
  lemma EmptyArrayParses(scan: Scanner)
    requires ScannerFits(scan)
    ensures Run("[]", scan, Start) == Config([Blank.(kind := Array)], Ptr(0), Complete, 2)
  {
    var s := "[]";
    assert WhitespaceEnd(s, 0) == 0 && WhitespaceEnd(s, 1) == 1;
    assert Dispatch(s, 0) == ArrayBranch;
    assert NextConfig(s, scan, Start, true) == Config([Blank.(kind := Array)], Ptr(0), Complete, 2);
  }

  /** "{}" is an object with no members (test_parse_object_empty). */
  lemma EmptyObjectParses(scan: Scanner)
    requires ScannerFits(scan)
    ensures Run("{}", scan, Start) == Config([Blank.(kind := Object)], Ptr(0), Complete, 2)
  {
    var s := "{}";
    assert WhitespaceEnd(s, 0) == 0 && WhitespaceEnd(s, 1) == 1;
    assert Dispatch(s, 0) == ObjectBranch;
    assert NextConfig(s, scan, Start, true) == Config([Blank.(kind := Object)], Ptr(0), Complete, 2);
  }

  /** "true" is a single true node (test_parse_true). */
  lemma TrueParses(scan: Scanner)
    requires ScannerFits(scan)
    ensures Run("true", scan, Start) == Config([Blank.(kind := True)], Ptr(0), Complete, 4)
  {
    var s := "true";
    assert WhitespaceEnd(s, 0) == 0;
    assert !HasPrefix(s, 0, "null") by { assert At(s, 0 + 0) != "null"[0]; }
    assert !HasPrefix(s, 0, "false") by { assert At(s, 0 + 0) != "false"[0]; }
    assert HasPrefix(s, 0, "true");
    assert Dispatch(s, 0) == LiteralBranch(True, Zero, 4);
    assert NextConfig(s, scan, Start, true) == Config([Blank.(kind := True)], Ptr(0), Complete, 4);
  }

  /** "-Infinity" is recognised by the parser itself, before strtod could
      see the '-' (test_parse_number). */
  lemma NegativeInfinityParses(scan: Scanner)
    requires ScannerFits(scan)
    ensures Run("-Infinity", scan, Start) == Config([Blank.(kind := Number, number := NegativeInfinity)], Ptr(0), Complete, 9)
  {
    var s := "-Infinity";
    assert WhitespaceEnd(s, 0) == 0;
    assert !HasPrefix(s, 0, "null") by { assert At(s, 0 + 0) != "null"[0]; }
    assert !HasPrefix(s, 0, "false") by { assert At(s, 0 + 0) != "false"[0]; }
    assert !HasPrefix(s, 0, "true") by { assert At(s, 0 + 0) != "true"[0]; }
    assert HasPrefix(s, 0, "-Infinity");
    assert Dispatch(s, 0) == LiteralBranch(Number, NegativeInfinity, 9);
    assert NextConfig(s, scan, Start, true) == Config([Blank.(kind := Number, number := NegativeInfinity)], Ptr(0), Complete, 9);
  }

  /** "1" is a number exactly when strtod accepts it and takes the whole
      text; the node then holds what strtod converted (test_parse_number). */
  lemma DigitParses(scan: Scanner)
    requires ScannerFits(scan)
    ensures Run("1", scan, Start).state == Complete <==> Accepted(scan("1", 0))
    ensures Run("1", scan, Start).state == Complete ==>
      Run("1", scan, Start).nodes == [Blank.(kind := Number, number := Converted("1"))]
  {
    var s := "1";
    assert WhitespaceEnd(s, 0) == 0 && At(s, 0) == '1';
    DispatchNumber(s, 0);
    assert !HasPrefix(s, 0, "-Infinity") by { assert At(s, 0 + 0) != "-Infinity"[0]; }
    assert Dispatch(s, 0) == NumberBranch;
    var conv := scan(s, 0);
    assert ConversionFits(s, 0, conv);
    AcceptedMeansConverted(s, 0, conv);
    if Accepted(conv) {
      assert conv.consumed == 1 && s[0..1] == "1";
      assert NextConfig(s, scan, Start, true) == Config([Blank.(kind := Number, number := Converted("1"))], Ptr(0), Complete, 1);
    }
  }

  /** "\"hello\"" is a string node holding hello (test_parse_string). */
  lemma StringParses(scan: Scanner)
    requires ScannerFits(scan)
    ensures Run("\"hello\"", scan, Start) ==
      Config([Blank.(kind := String, valuestring := Some("hello"))], Ptr(0), Complete, 7)
  {
    var s := "\"hello\"";
    HelloQuoted();
    assert WhitespaceEnd(s, 0) == 0 && At(s, 0) == '"';
    assert Dispatch(s, 0) == StringBranch;
    assert NextConfig(s, scan, Start, true) ==
      Config([Blank.(kind := String, valuestring := Some("hello"))], Ptr(0), Complete, 7);
  }

  lemma HelloQuoted()
    ensures QuotedAt("\"hello\"", 0) == Some(("hello", 7))
  {
    assert "\"hello\"" == "\"" + "hello" + "\"" + "";
    QuotedRoundTrip("hello", "");
  }

  /** "tru" spells no literal and starts no other value: NULL. */
  lemma TruncatedLiteralFails(scan: Scanner)
    requires ScannerFits(scan)
    ensures Run("tru", scan, Start).state == Error
  {
    var s := "tru";
    assert WhitespaceEnd(s, 0) == 0;
    assert !HasPrefix(s, 0, "true") by { assert At(s, 0 + 3) != "true"[3]; }
    DispatchInvalid(s, 0);
    assert !HasPrefix(s, 0, "null") by { assert At(s, 0 + 0) != "null"[0]; }
    assert !HasPrefix(s, 0, "false") by { assert At(s, 0 + 0) != "false"[0]; }
    assert !HasPrefix(s, 0, "NaN") by { assert At(s, 0 + 0) != "NaN"[0]; }
    assert !HasPrefix(s, 0, "Infinity") by { assert At(s, 0 + 0) != "Infinity"[0]; }
    assert NextConfig(s, scan, Start, true).state == Error;
  }

  /** A number at the start of the text followed by a character strtod
      cannot take, other than the terminator, leaves a top-level value
      with text after it: NULL, whatever strtod makes of the digit. */
  lemma NumberThenJunkFails(s: string, scan: Scanner)
    requires ScannerFits(scan) && 2 <= |s| && IsDigit(s[0]) && !NumberChar(s[1]) && s[1] != '\0'
    ensures Run(s, scan, Start).state == Error
  {
    assert WhitespaceEnd(s, 0) == 0 && At(s, 0) == s[0] && At(s, 1) == s[1];
    DispatchNumber(s, 0);
    assert Dispatch(s, 0) == NumberBranch;
    var conv := scan(s, 0);
    assert ConversionFits(s, 0, conv);
    assert conv.consumed <= 1;
    assert NextConfig(s, scan, Start, true).state == Error;
  }

  /** "1 2": two top-level values (test_parse_number's table has the like). */
  lemma TwoNumbersFail(scan: Scanner)
    requires ScannerFits(scan)
    ensures Run("1 2", scan, Start).state == Error
  {
    NumberThenJunkFails("1 2", scan);
  }

  /** "1,0hello" is NULL (test_parse_number). */
  lemma CommaNumberFails(scan: Scanner)
    requires ScannerFits(scan)
    ensures Run("1,0hello", scan, Start).state == Error
  {
    NumberThenJunkFails("1,0hello", scan);
  }

  /** "[1,2": an array that never closes is NULL, whatever strtod makes
      of the two digits. */
  lemma UnclosedArrayFails(scan: Scanner)
    requires ScannerFits(scan)
    ensures Run("[1,2", scan, Start).state == Error
  {
    var s := "[1,2";
    var g1 := Config(AddChild([Blank.(kind := Array)], 0), Ptr(1), Value, 1);
    assert NextConfig(s, scan, Start, true) == g1 by {
      assert WhitespaceEnd(s, 0) == 0 && WhitespaceEnd(s, 1) == 1;
      assert Dispatch(s, 0) == ArrayBranch;
    }
    var g2 := NextConfig(s, scan, g1, true);
    DigitThenStop(s, scan, g1);
    if g2.state != Error {
      SecondElementFails(scan, g2);
    }
    FailsNext(s, scan, g1);
  }

  /** "[1,2" after its first element: the second one is rejected, or it is
      taken and the text ends where ']' or ',' should follow. */
  lemma SecondElementFails(scan: Scanner, g2: Config)
    requires ScannerFits(scan) && g2.state == NextArrayValue && g2.pos == 2 && g2.crnt == Ptr(1)
    requires |g2.nodes| == 2 && g2.nodes[1].parent == Ptr(0) && g2.nodes[0].kind == Array
    ensures Run("[1,2", scan, g2).state == Error
  {
    var s := "[1,2";
    var g3 := NextConfig(s, scan, g2, true);
    assert g3 == Config(AddSibling(g2.nodes, 1), Ptr(2), Value, 3) by {
      assert WhitespaceEnd(s, 2) == 2 && At(s, 2) == ',';
    }
    DigitThenStop(s, scan, g3);
    var g4 := NextConfig(s, scan, g3, true);
    if g4.state != Error {
      assert NextConfig(s, scan, g4, true).state == Error by {
        assert g4.state == NextArrayValue && g4.pos == 4 && WhitespaceEnd(s, 4) == 4;
      }
      FailsNext(s, scan, g4);
    }
    FailsNext(s, scan, g3);
    FailsNext(s, scan, g2);
  }

  /** A pass that ends in ERROR ends the loop in ERROR. */
  lemma FailsNext(s: string, scan: Scanner, g: Config)
    requires ScannerFits(scan) && g.pos <= |s| && g.state != Complete
    requires Run(s, scan, NextConfig(s, scan, g, true)).state == Error
    ensures Run(s, scan, g).state == Error
  {
  }

  /** A digit where an array element starts, followed by a character strtod
      cannot take: the element is rejected, or it is a number of one
      character and the array expects its next member. */
  lemma DigitThenStop(s: string, scan: Scanner, g: Config)
    requires ScannerFits(scan) && g.state == Value && g.pos + 1 <= |s|
    requires 2 <= |g.nodes| && g.crnt == Ptr(|g.nodes| - 1) && g.nodes[|g.nodes| - 1].parent == Ptr(0)
    requires g.nodes[0].kind == Array && IsDigit(s[g.pos]) && !NumberChar(At(s, g.pos + 1))
    ensures var r := NextConfig(s, scan, g, true);
      r.state == Error ||
      (r.state == NextArrayValue && r.pos == g.pos + 1 && r.nodes[|r.nodes| - 1].parent == Ptr(0) &&
       r.crnt == g.crnt && |r.nodes| == |g.nodes| && r.nodes[0].kind == Array)
  {
    var i := g.pos;
    assert WhitespaceEnd(s, i) == i && At(s, i) == s[i];
    DispatchNumber(s, i);
    assert !HasPrefix(s, i, "-Infinity") by { assert At(s, i + 0) != "-Infinity"[0]; }
    assert Dispatch(s, i) == NumberBranch;
    var conv := scan(s, i);
    assert ConversionFits(s, i, conv);
    assert conv.consumed <= 1;
  }

  /** "[] ": whitespace after the top-level value is an error. */
  lemma TrailingSpaceFails(scan: Scanner)
    requires ScannerFits(scan)
    ensures Run("[] ", scan, Start).state == Error
  {
    var s := "[] ";
    assert WhitespaceEnd(s, 0) == 0 && WhitespaceEnd(s, 1) == 1;
    assert Dispatch(s, 0) == ArrayBranch;
    assert NextConfig(s, scan, Start, true).state == Error;
  }

  /** "{\"a\":}": a member without a value is NULL. */
  lemma MissingMemberValueFails(scan: Scanner)
    requires ScannerFits(scan)
    ensures Run("{\"a\":}", scan, Start).state == Error
  {
    var s := "{\"a\":}";
    var g1 := Config(AddChild([Blank.(kind := Object)], 0), Ptr(1), ObjectKey, 1);
    assert NextConfig(s, scan, Start, true) == g1 by {
      assert WhitespaceEnd(s, 0) == 0 && WhitespaceEnd(s, 1) == 1;
      assert Dispatch(s, 0) == ObjectBranch;
    }
    var g2 := NextConfig(s, scan, g1, true);
    assert g2.state == Value && g2.pos == 5 by {
      KeyBeforeClose();
    }
    assert WhitespaceEnd(s, 5) == 5;
    CloseStartsNoValue(s, 5);
    var g3 := NextConfig(s, scan, g2, true);
    assert g3.state == Error;
    assert Run(s, scan, g2) == g3;
  }

  /** The key of "{\"a\":}" and the colon after it. */
  lemma KeyBeforeClose()
    ensures ObjectKeyAt("{\"a\":}", 1) == Some(("a", 5))
  {
    var s := "{\"a\":}";
    assert WhitespaceEnd(s, 1) == 1;
    assert At(s, 1) == '"' && At(s, 2) == 'a' && At(s, 3) == '"';
    QuoteStopsAt(s, 2, 3);
    assert s[2..3] == "a";
    assert QuotedAt(s, 1) == Some(("a", 4));
    assert WhitespaceEnd(s, 4) == 4 && At(s, 4) == ':';
  }

  /** A closing bracket where a value should start is rejected. */
  lemma CloseStartsNoValue(s: string, i: nat)
    requires At(s, i) == ']' || At(s, i) == '}'
    ensures Dispatch(s, i) == InvalidBranch
  {
    DispatchInvalid(s, i);
    assert !HasPrefix(s, i, "null") by { assert At(s, i + 0) != "null"[0]; }
    assert !HasPrefix(s, i, "false") by { assert At(s, i + 0) != "false"[0]; }
    assert !HasPrefix(s, i, "true") by { assert At(s, i + 0) != "true"[0]; }
    assert !HasPrefix(s, i, "NaN") by { assert At(s, i + 0) != "NaN"[0]; }
    assert !HasPrefix(s, i, "Infinity") by { assert At(s, i + 0) != "Infinity"[0]; }
  }

  // ---------------------------------------------------------------------
  // What a parsed document offers the accessors

  /** Every object in a document that cJSON_ParseWithHooks returns has a key
      on each member, which is what cJSON_GetObjectItem needs of it. */
  lemma DocumentMembersKeyed(nodes: seq<Node>, j: nat)
    requires Document(nodes) && j < |nodes|
    ensures Interface.MembersKeyed(nodes, Ptr(j))
  {
    assert LinkedAt(nodes, j);
    if nodes[j].kind == Object {
      forall x | x in Children(nodes, j)
        ensures x < |nodes| && nodes[x].key.Some?
      {
        SiblingsShareParent(nodes, nodes[j].child, x);
        ChildrenAreTheNodesWithThatParent(nodes, j, x);
        assert LinkedAt(nodes, x);
        assert ParentIsObject(nodes, x);
      }
    }
  }
}
