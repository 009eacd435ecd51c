# cJSON2 parser and accessors in Dafny

This project models the core of cJSON2, a small C JSON library. It has three parts:

- **The parser.** `cJSON_ParseWithHooks` turns a NUL-terminated string into a tree of `cJSON` nodes. It uses a state machine loop (VALUE, OBJECT_KEY, NEXT_ARRAY_VALUE, NEXT_OBJECT_VALUE, ERROR, COMPLETE) rather than recursion.
- **The interface.** `cJSON_DeleteWithHooks` releases a tree in post-order without recursion. `cJSON_GetArraySize`, `cJSON_GetArrayItem`, `cJSON_GetObjectItem` and `cJSON_ObjectHasItem` read a tree.
- **The two parent tests** that steer the parser: `parent_node_is_array` and `parent_node_is_object`.

How the C is represented:

- **Memory.** The nodes live in an arena: `Tree.Heap` holds `nodes: seq<Node>`, and a pointer is a `Ref`, either `Nil` or `Ptr(index)`. The root is index 0.
- **Allocation.** `malloc_fn` is `Heap.Malloc`/`Heap.NewNode`, which may fail on any call. `free_fn` is `Heap.Free`; it records the freed node and every call in ghost logs.
- **The parse context.** `Parse.ParseContext` is a class. Its mutable fields are `pos` (`crnt_posn` as an index), `crnt`, `root` and `state`. Its methods are the static functions of cJSON2_Parse.c.
- **Text.** The JSON text is `Option<string>`, where `None` is a NULL pointer. Reading at or past the end gives `'\0'`.
- **strtod.** strtod is a parameter, a `Scanner`. It reports how many characters it consumed, whether the result was ±HUGE_VAL, zero or anything else, and whether it set ERANGE.

The properties proved:

- The tree invariant is `Tree.IsTree`: the links agree, and the arena lists the tree in pre-order. Every parser step keeps it.
- On COMPLETE, the arena is a `Machine.Document`:
  - it is a tree;
  - exactly the object members carry keys;
  - a string node carries a valuestring and a number node a value;
  - every extracted string stops short of a quote and a NUL;
  - and the text is at its terminator.
- On ERROR, every node has been released and the root is NULL.
- Each handler of the parse loop is proved to compute a step function of module `Steps` on the configuration (nodes, current node, state, position). `Steps.Run` iterates them. Unless malloc_fn refuses a request, `cJSON_ParseWithHooks` returns a document exactly when `Run` completes, and that document is the tree `Run` built. A refused request always ends in NULL.
- Module `Outcomes` works out `Run` on the library's own test inputs ("[]", "{}", "true", "-Infinity", "1", "\"hello\"", "1,0hello") and on texts that must be rejected ("tru", "[1,2", "{\"a\":}", "1 2", "[] ").
- Deletion releases every node once, in post-order. The key and valuestring are released just before their node.

## Model

| member | source | states |
|---|---|---|
| Utils.ParentTestsExclusive | cJSON2_Utils.c:11-32 | a node is never both an array element and an object member, and a node without a parent is neither |
| Utils.ParentTestsCover | cJSON2_Utils.c:11-32 | in a linked tree, a node has a parent exactly when one of the two parent tests holds |
| Utils.ParentIsArrayIffArrayMember | cJSON2_Utils.c:11-17 | parent_node_is_array holds exactly of the nodes on the member chain of some array |
| Utils.ParentIsObjectIffObjectMember | cJSON2_Utils.c:26-32 | parent_node_is_object holds exactly of the nodes on the member chain of some object |
| Tree.ChildrenAreTheNodesWithThatParent | cJSON2.h:25-38 | the chain from a node's `child` along `next` is exactly the set of nodes whose `parent` is that node |
| Tree.Heap.NewNode | cJSON2_Parse.c:484-499 | new_node either fails (NULL) or appends one zeroed node, leaving the rest of the arena as it was |
| Text.WhitespaceEnd | cJSON2_Parse.c:1057-1073 | the stopping point is at or after the start, is not a space, and everything skipped is a space and not the terminator; it never passes the end of the text |
| Text.SkipWhitespace | cJSON2_Parse.c:1057-1073 | skip_whitespace returns NULL exactly for a NULL string; otherwise its loop stops where `WhitespaceEnd` says |
| Text.PrefixInside | cJSON2_Parse.c:934-975 | a strncmp match of a literal without NUL lies inside the text, so stepping over the literal never passes the terminator |
| Text.QuoteOrEnd | cJSON2_Parse.c:1021-1025 | the copying loop stops at the first quote or terminator and nothing before it is either |
| Text.QuotedAt | cJSON2_Parse.c:994-1045 | a successful extraction ends after the start, inside the text, 2 characters plus the contents after the skipped whitespace, and its contents hold no quote and no terminator |
| Text.QuotedRoundTrip | cJSON2_Parse.c:994-1045 | quoting a string free of quotes and NULs and extracting it gives back that string and the position after the closing quote, whatever follows |
| Text.QuoteStopsAt | cJSON2_Parse.c:1021-1025 | the copying loop's stopping point is the first quote or NUL from where it starts |
| Number.AcceptedMeansConverted | cJSON2_Parse.c:769-803 | with errno clear, a number is accepted exactly when strtod consumed something and neither overflowed nor underflowed to zero; what it consumed lies inside the text |
| Number.StaleErrnoRejectsZero | cJSON2_Parse.c:782-786 | as written, "0" is rejected when errno already holds ERANGE; the corrected test accepts it |
| Number.EarlierSubnormalRejectsLaterZero | cJSON2_Parse.c:777-786 | as written, an accepted subnormal leaves ERANGE behind, which makes a later 0 in the same document fail |
| Number.AsWrittenAgrees | cJSON2_Parse.c:779-791 | the code as written agrees with the corrected test unless errno is stale and the value is zero, and never accepts more |
| Build.AddChildKeepsTree | cJSON2_Parse.c:426-444 | giving the last-allocated container its first child keeps the arena a pre-ordered tree, and the child is open with the container as parent |
| Build.AddSiblingKeepsTree | cJSON2_Parse.c:455-474 | giving an open node with a parent a next sibling keeps the arena a pre-ordered tree, and the sibling is open with the same parent |
| Build.SetPayloadKeepsTree | cJSON2_Parse.c:886-901 | filling in a node's type, value or key without touching its links keeps the tree and all ancestry |
| Machine.RouteCases | cJSON2_Parse.c:595-624 | next_parse_state gives COMPLETE exactly for a parentless value at the terminator (then it is the root), ERROR exactly for a parentless value followed by anything (whitespace included), and the NEXT states exactly by the parent's type |
| Machine.Routed | cJSON2_Parse.c:595-624 | after a finished value at any position, whatever state next_parse_state picks satisfies the loop invariant |
| Machine.FillKeeps | cJSON2_Parse.c:849-901 | filling in the current node keeps its shape, keeps it open, and keeps the key and type invariants when the new contents obey them |
| Machine.ChildKeeps | cJSON2_Parse.c:710-740 | after a first member is added, the invariant holds for VALUE, or for OBJECT_KEY when the container is an object |
| Machine.SiblingKeeps | cJSON2_Parse.c:509-585 | after a next member is added, the invariant holds for VALUE, or for OBJECT_KEY when the container is an object |
| Steps.DispatchLiteral | cJSON2_Parse.c:934-975 | a literal branch is taken only where the text spells that literal; its width is the literal's length (null 4, false 5, true 4, -Infinity 9, NaN 3, Infinity 8), and it lies inside the text |
| Steps.DispatchNumber | cJSON2_Parse.c:952-963 | strtod is tried exactly when the lead character is '-' or a digit and the text does not spell -Infinity, which is tested first |
| Steps.DispatchInvalid | cJSON2_Parse.c:914-982 | the value is rejected exactly when no lead character or literal of any branch matches |
| Steps.DispatchAtEnd | cJSON2_Parse.c:914-982 | at the terminator parse_value takes no branch but the error |
| Steps.ObjectKeyAt | cJSON2_Parse.c:849-874 | a key that parses ends after the start, inside the text, and holds no quote and no terminator |
| Steps.Settle | cJSON2_Parse.c:595-624 | next_parse_state changes only the state, and picks COMPLETE only at the terminator |
| Steps.StringStep | cJSON2_Parse.c:886-901 | the node becomes a string; the parse goes on only if malloc_fn granted the copy and `QuotedAt` reads a closed string, whose contents the node then holds |
| Steps.NumberStep | cJSON2_Parse.c:769-803 | a rejected number changes nothing but the state, to ERROR; an accepted one moves the position past exactly what strtod consumed |
| Steps.ContainerStep | cJSON2_Parse.c:710-740 | parse_array, and parse_object (lines 812-840) with '}': the node takes the container's type, nodes are only added, and the position never passes the end of the text |
| Steps.KeyStep | cJSON2_Parse.c:849-874 | the next state is VALUE exactly when malloc_fn granted the copy and `ObjectKeyAt` reads a key and a ':'; the position is then after the ':' and the node holds the key; otherwise ERROR |
| Steps.MemberStep | cJSON2_Parse.c:509-585 | after whitespace, any character but the container's closing bracket and ',' is ERROR |
| Steps.NextConfig | cJSON2_Parse.c:664-701 | a pass in a working state never moves back and reads at least one character unless it ends the parse; COMPLETE and ERROR are left as they are |
| Steps.Run | cJSON2_Parse.c:664-701 | the loop ends in COMPLETE or ERROR inside the text, and COMPLETE is reached only at the terminator |
| Steps.HoldsSound | cJSON2_Parse.c:664-701 | between passes the current node and its parent exist and the position is inside the text, so every handler can run |
| Steps.SettleKeeps | cJSON2_Parse.c:595-624 | after a finished value, the state next_parse_state picks satisfies the loop invariant |
| Steps.StringStepKeeps | cJSON2_Parse.c:886-901 | parse_string keeps the loop invariant whether the string extracts or not |
| Steps.NumberStepKeeps | cJSON2_Parse.c:769-803 | parse_number keeps the loop invariant whether strtod's result is accepted or not |
| Steps.ContainerStepKeeps | cJSON2_Parse.c:710-740 | parse_array, and likewise parse_object (lines 812-840), keep the loop invariant, for an empty container, a first member, and a refused allocation |
| Steps.LiteralKeeps | cJSON2_Parse.c:934-975 | a literal stays inside the text and filling it in keeps the loop invariant |
| Steps.BranchStepKeeps | cJSON2_Parse.c:910-982 | every branch of parse_value keeps the loop invariant |
| Steps.KeyStepKeeps | cJSON2_Parse.c:849-874 | parse_object_key keeps the loop invariant whether a key is read or not |
| Steps.MemberStepKeeps | cJSON2_Parse.c:509-585 | next_array_value and next_object_value keep the loop invariant, when the container closes, a member is added, or the parse fails |
| Steps.NextConfigKeeps | cJSON2_Parse.c:669-693 | every pass of the loop keeps the invariant, whatever malloc_fn does |
| Steps.RunKeeps | cJSON2_Parse.c:664-701 | the invariant holds when the loop ends |
| Steps.StartHolds | cJSON2_Parse.c:396-411 | the invariant holds for the freshly allocated root in state VALUE at position 0 |
| Steps.CompleteIsDocument | cJSON2_Parse.c:664-701 | a loop that completes has built a `Document` and stopped at the terminator |
| Parse.ParseContext.constructor | cJSON2_Parse.c:396-408 | the context starts at position 0, in state VALUE, on the freshly allocated root, with the invariant |
| Parse.ParseContext.NextParseState | cJSON2_Parse.c:595-624 | the new state is the one `Settle` gives for the finished value; the position and the tree stay as they were |
| Parse.ParseContext.AddChildNode | cJSON2_Parse.c:426-444 | either fails with the tree unchanged, or adds the child as `AddChild` and makes it current |
| Parse.ParseContext.AddSiblingNode | cJSON2_Parse.c:455-474 | either fails with the tree unchanged, or adds the sibling as `AddSibling` and makes it current |
| Parse.ParseContext.StringExtract | cJSON2_Parse.c:994-1045 | succeeds exactly with `QuotedAt`'s contents and end position; fails on a missing opening quote, a text that ends inside the string or a failed allocation, leaving the position on the opening quote |
| Parse.ParseContext.ParseLiteral | cJSON2_Parse.c:934-975 | sets the node's type and value, steps over the literal and routes to the next state as `Settle` does |
| Parse.ParseContext.ParseNumber | cJSON2_Parse.c:769-803 | the new configuration is the one `NumberStep` gives |
| Parse.ParseContext.ParseString | cJSON2_Parse.c:886-901 | the new configuration is the one `StringStep` gives, with a failed copy as its refused allocation |
| Parse.ParseContext.ParseArray | cJSON2_Parse.c:710-740 | the new configuration is the one `ContainerStep` gives for an array; a refused allocation ends in ERROR |
| Parse.ParseContext.ParseObject | cJSON2_Parse.c:812-840 | the new configuration is the one `ContainerStep` gives for an object; a refused allocation ends in ERROR |
| Parse.ParseContext.ParseValue | cJSON2_Parse.c:910-982 | a NULL text is ERROR; otherwise the new configuration is the one `ValueStep` gives: the branch `Dispatch` picks after the whitespace, with that branch's outcome |
| Parse.ParseContext.ParseBranch | cJSON2_Parse.c:921-981 | the new configuration is the one `BranchStep` gives for the branch `Dispatch` picks |
| Parse.ParseContext.ParseObjectKey | cJSON2_Parse.c:849-874 | the new configuration is the one `KeyStep` gives |
| Parse.ParseContext.NextInArray | cJSON2_Parse.c:509-542 | the new configuration is the one `MemberStep` gives for an array |
| Parse.ParseContext.NextInObject | cJSON2_Parse.c:552-585 | the new configuration is the one `MemberStep` gives for an object |
| Parse.ParseContext.Step | cJSON2_Parse.c:669-693 | one pass of the loop is the pass `NextConfig` describes, with malloc_fn's answer, and keeps the invariant |
| Parse.ParseContext.Parse | cJSON2_Parse.c:664-701 | the loop ends in COMPLETE or ERROR; unless malloc_fn refused a request, it ends as `Run` does; a refused request or a NULL text gives ERROR. COMPLETE leaves a `Document` with the text at its terminator. ERROR releases every node once, children before parents, and clears the root |
| Parse.ParseWithHooks | cJSON2_Parse.c:390-416 | a NULL text gives NULL. Unless malloc_fn refused a request, a document comes back exactly when `Run` completes from the start, and it is the tree `Run` built. Otherwise the result is NULL with every allocated node released in post-order |
| Outcomes.EmptyArrayParses | cJSON2_Test.c:326-331 | "[]" completes as a single array node with no members |
| Outcomes.EmptyObjectParses | cJSON2_Test.c:532-534 | "{}" completes as a single object node with no members |
| Outcomes.TrueParses | cJSON2_Test.c:609-612 | "true" completes as a single true node |
| Outcomes.NegativeInfinityParses | cJSON2_Test.c:453 | "-Infinity" completes as a single number node holding -Infinity, whatever strtod does |
| Outcomes.DigitParses | cJSON2_Test.c:450 | "1" completes exactly when strtod's result is accepted, and the node then holds the digit strtod consumed |
| Outcomes.StringParses | cJSON2_Test.c:556-561 | "\"hello\"" completes as a single string node holding hello |
| Outcomes.TruncatedLiteralFails | cJSON2_Parse.c:914-982 | "tru" spells no literal and starts no other value, so the parse fails |
| Outcomes.NumberThenJunkFails | cJSON2_Parse.c:595-624 | a digit followed by a character strtod cannot take leaves text after the top-level value, so the parse fails whatever strtod makes of the digit |
| Outcomes.TwoNumbersFail | cJSON2_Parse.c:595-624 | "1 2" fails |
| Outcomes.CommaNumberFails | cJSON2_Test.c:457 | "1,0hello" fails |
| Outcomes.UnclosedArrayFails | cJSON2_Parse.c:509-542 | "[1,2" fails: the array never closes |
| Outcomes.TrailingSpaceFails | cJSON2_Parse.c:605-608 | "[] " fails: the character after the top-level value must be the terminator |
| Outcomes.MissingMemberValueFails | cJSON2_Parse.c:910-982 | "{\"a\":}" fails: '}' starts no value |
| Outcomes.CloseStartsNoValue | cJSON2_Parse.c:914-982 | a closing bracket where a value should start takes the error branch |
| Outcomes.DocumentMembersKeyed | cJSON2_Interface.c:181-219 | every member of every object in a parsed document has a key, which cJSON_GetObjectItem needs |
| Interface.DeleteWithHooks | cJSON2_Interface.c:36-82 | Delete(NULL) changes nothing. On a tree, every node is released exactly once, never before a descendant, and each free_fn call on a node comes right after the calls on its key and valuestring |
| Interface.GetArraySize | cJSON2_Interface.c:142-170 | -1 for NULL or a non-array, otherwise the length of the member chain |
| Interface.GetArrayItem | cJSON2_Interface.c:93-132 | NULL for a negative index, NULL or a non-array, or an index past the end; otherwise the member at that position |
| Interface.FirstWithKey | cJSON2_Interface.c:206-216 | NULL exactly when no node of the chain has the key; otherwise the first node that has it |
| Interface.GetObjectItem | cJSON2_Interface.c:181-219 | NULL for NULL, a non-object or a NULL key; otherwise the first member whose key equals `key` |
| Interface.PostOrderKept | cJSON2_Interface.c:36-82 | clearing links as deletion goes keeps the release order a post-order of the tree as the parser built it |
| Interface.ObjectHasItem | cJSON2_Interface.c:229-236 | 1 exactly when the object has a member with that key, 0 otherwise |

## Left out

- The serializer (cJSON2_Serialize.c) and the earlier draft cJSON2.c: they are not part of this model.
- strtod is not modelled. Decimal-to-binary conversion, `valuedouble` and the `(int)` truncation into `valueint` are left out; a number node records the text strtod consumed (`Converted`). NaN and ±Infinity are recorded symbolically.
- `realloc_fn` is never used by the core. The hooks pointer itself is not modelled, because its two functions are the heap's methods. `snprintf` copying into the allocated buffer is modelled as taking the slice of the text.
- The C test harnesses (cJSON2_Test.c, cJSON2_test.c) are not part of this model.
- Interface.DeleteWithHooks: modelled for the root of a tree the parser built, and for NULL. Deleting a node inside a tree, or a tree other than a whole arena, is not modelled.
- Interface.GetArraySize: `int` overflow of the count and of the index in Interface.GetArrayItem is not modelled, because sizes are unbounded integers.
- Parse.ParseContext.Step: the `default` branch of the switch in parse cannot be reached, since the loop runs only in the four working states, so it is left out of the match.
- Parse.ParseContext.NextParseState: its first test, that the state is already ERROR, is kept, but no caller reaches it with ERROR.
- Parse.ParseContext.ParseNumber: uses the corrected test `Number.Accepted`. ERANGE left in errno by a call before the parse is not modelled in the parser; `Number.AcceptedAsWritten` and the lemmas beside it show what it changes.
- Steps.Settle: the branch for a configuration without a current node or its parent is never taken by the loop, which keeps both; it sends such a configuration to ERROR so that the step functions are total.
- The ghost field `refused` of `Tree.Heap` records that malloc_fn has refused a request. The C code keeps no such flag; it reacts to a NULL from malloc_fn at once, which the flag stands for.
- Steps.Run: describes the loop when malloc_fn grants every request. With refusals, Parse.ParseContext.Parse ends in ERROR, and Parse.ParseContext.Step ties each pass to Steps.NextConfig with malloc_fn's answer.
- strtod's choice of how far to read is only bounded by its alphabet (`Number.NumberChar`). Texts such as "1.hello" and "-hello", which the real strtod reads only in part, are therefore not pinned down by the model.
- Escapes inside strings are not interpreted. A backslash is copied as is, and `\"` ends the string, as in the code.
- Trailing whitespace after the top-level value: the code reaches COMPLETE only when the character right after the value is the terminator. Whitespace after the top-level value therefore makes the parse fail, although section 2 of RFC 8259 allows whitespace on both sides of the value (JSON-text = ws value ws). The model follows the code (Machine.RouteCases, Outcomes.TrailingSpaceFails).
- Character classes are those of the C locale. A NUL inside the text ends it, as it does for C.

## Findings

| source | as written | input that shows it | evidently intended | confidence | as-written member | corrected member |
|---|---|---|---|---|---|---|
| cJSON2_Parse.c:777-786 | errno is never cleared before strtod, so the underflow test sees ERANGE left by any earlier call, including an earlier number in the same document | "0" when errno already holds ERANGE; "[1e-310,0]", where the subnormal 1e-310 sets ERANGE and is accepted, and the following 0 is then rejected | clear errno before the conversion, so a zero is rejected only when this conversion underflowed | not executed | Number.AcceptedAsWritten (with Number.StaleErrnoRejectsZero, Number.EarlierSubnormalRejectsLaterZero) | Number.Accepted (with Number.AcceptedMeansConverted; used by Parse.ParseContext.ParseNumber) |
