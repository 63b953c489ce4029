# JSON Patch utilities: a verified model

This project models the core of a small Java library that edits JSON documents.
The library applies JSON Patch (RFC 6902) and JSON Merge Patch (RFC 7396) to JSON
texts and to Java objects. In front of the patch pipeline it has a blocked-path guard.
It keeps a lazily built default object mapper, and it has a typed `JsonPatch`/`Operation`
record pair with an operation-type enum.

The library hands the actual application to Jakarta JSON-P (`Json.createPatch(...).apply`,
`mergePatch.apply`). Here that call is replaced by a reference implementation of the
standards the library claims to follow:

- JSON Pointer: sections 3 and 4 of RFC 6901.
- The six operations: sections 4.1 to 4.6 of RFC 6902, with whole-patch failure as in section 5.
- The merge algorithm: section 2 of RFC 7396.

The reference implementation is constrained only by what the standards and the
repository's tests fix.

Modules:

- `Wrappers`: `Option`, `Result`, and `Outcome` (pass or fail, for members that return nothing).
- `Errors`: the failure kinds, and the umbrella `JsonPatchProcessingException` that wraps them.
- `JsonTree`: the JSON value (null, booleans, integers, strings, arrays, objects as ordered
  member lists), member lookup, put and removal, and JSON-P's value equality.
- `Pointer`: RFC 6901 pointers. Covers token escaping, splitting, parsing and rendering,
  array-index tokens and the `-` token.
- `JsonPatchTypes`: the `OperationType` enum codec (`jsonValue`, `toString`, `fromJson`),
  and the `Operation`/`JsonPatch` records with their JSON form.
- `Rfc6902`: pointer evaluation and the six operations, applied in order. It also holds
  the library's decode-then-apply loop over the operation objects.
- `Rfc7396`: the merge algorithm.
- `MapperConfig`: the default-mapper state machine, as class `MapperRegistry`
  (pending configurations, `frozen` flag, built mapper).
- `JsonPatchUtil`: the blocked-path guard (a read-only loop, proved against a
  specification function), the patch and merge pipelines as total functions, and the
  typed overloads.

JSON texts are modelled by what the JSON reader makes of them: `Parsed = Option<Json>`,
where `None` is a text that is not JSON.

## Model

| member | source | states |
|---|---|---|
| JsonTree.Put | src/main/java/edu/kit/datamanager/util/json/JsonPatchUtil.java:202-207 | setting an object member makes the key look up to the new value and leaves every other key's lookup unchanged |
| JsonTree.PutKeys | src/main/java/edu/kit/datamanager/util/json/JsonPatchUtil.java:202-207 | overwriting an existing member keeps every key at its position |
| JsonTree.PutAppends | src/main/java/edu/kit/datamanager/util/json/JsonPatchUtil.java:202-207 | setting a key the object lacks appends the new member at the end |
| JsonTree.Without | src/main/java/edu/kit/datamanager/util/json/JsonPatchUtil.java:202-207 | removing a member makes its key absent and leaves every other key's lookup unchanged |
| JsonTree.WithoutWellFormed | src/main/java/edu/kit/datamanager/util/json/JsonPatchUtil.java:202-207 | removing a member keeps keys unique and shrinks the object by one when the key was present |
| JsonTree.PutSame | src/main/java/edu/kit/datamanager/util/json/JsonPatchUtil.java:202-207 | writing back a member's own value changes nothing |
| JsonTree.PutTwice | src/main/java/edu/kit/datamanager/util/json/JsonPatchUtil.java:202-207 | of two writes to one key the second wins, as if the first had not happened |
| JsonTree.WithoutAppended | src/main/java/edu/kit/datamanager/util/json/JsonPatchUtil.java:202-207 | removing the member just appended under a fresh key gives the member list back |
| JsonTree.WithoutMultiset | src/main/java/edu/kit/datamanager/util/json/JsonPatchUtil.java:202-207 | removing a present key takes out exactly its member and keeps all others |
| JsonTree.EquivalentReflexive | src/test/java/edu/kit/datamanager/util/json/JsonPatchAdditionalOpsTest.java:57-72 | every well-formed value equals itself under JSON-P equality, which is what a `test` of the current value relies on |
| JsonTree.EquivalentIgnoresMemberOrder | src/test/java/edu/kit/datamanager/util/json/JsonPatchAdditionalOpsTest.java:57-72 | any two well-formed objects with the same members, as a multiset, are equal whatever the member order |
| Pointer.Escape | src/main/java/edu/kit/datamanager/util/json/JsonPatchUtil.java:202-207 | an escaped reference token contains no `/` |
| Pointer.UnescapeEscape | src/main/java/edu/kit/datamanager/util/json/JsonPatchUtil.java:202-207 | unescaping an escaped token (`~` to `~0`, `/` to `~1`) gives the token back |
| Pointer.EscapeUnescape | src/main/java/edu/kit/datamanager/util/json/JsonPatchUtil.java:202-207 | a slash-free text that unescapes to a token is exactly that token's escape, so escaping is a bijection |
| Pointer.UnescapeOrder | src/main/java/edu/kit/datamanager/util/json/JsonPatchUtil.java:202-207 | `~01` decodes to `~1`, not `/` (RFC 6901 section 4 decoding order) |
| Pointer.SplitJoin | src/main/java/edu/kit/datamanager/util/json/JsonPatchUtil.java:202-207 | splitting a join of slash-free segments gives the segments back |
| Pointer.JoinSplit | src/main/java/edu/kit/datamanager/util/json/JsonPatchUtil.java:202-207 | joining the split of a text gives the text back |
| Pointer.ParseRender | src/main/java/edu/kit/datamanager/util/json/JsonPatchUtil.java:202-207 | parsing the rendered pointer of any token list gives that list back |
| Pointer.RenderParse | src/main/java/edu/kit/datamanager/util/json/JsonPatchUtil.java:202-207 | rendering the tokens of a parsed pointer gives the original pointer string |
| Pointer.SamePointerSameString | src/main/java/edu/kit/datamanager/util/json/JsonPatchUtil.java:202-207 | two valid pointers have the same tokens if and only if they are the same string |
| Pointer.IndexToken | src/test/java/edu/kit/datamanager/util/json/JsonPatchAdditionalOpsTest.java:87-99 | the written index is a non-empty digit string with no leading zero |
| Pointer.ParseIndexToken | src/test/java/edu/kit/datamanager/util/json/JsonPatchAdditionalOpsTest.java:87-99 | the decimal token of an index reads back as that index |
| Pointer.IndexTokenCanonical | src/main/java/edu/kit/datamanager/util/json/JsonPatchUtil.java:202-207 | every token accepted as an array index is the canonical decimal token of its value, so no leading zeros |
| Pointer.NewElementIsNotIndex | src/test/java/edu/kit/datamanager/util/json/JsonPatchAdditionalOpsTest.java:74-85 | `-` is not an array index |
| JsonPatchTypes.Find | src/main/java/edu/kit/datamanager/util/json/JsonPatch.java:60-64 | the scan returns a listed type whose token matches ignoring case; it returns none exactly when no listed type matches |
| JsonPatchTypes.ValuesComplete | src/main/java/edu/kit/datamanager/util/json/JsonPatch.java:33 | `values()` lists every operation type |
| JsonPatchTypes.TokensAreLowerCase | src/main/java/edu/kit/datamanager/util/json/JsonPatch.java:33-49 | every token is a non-empty string of the letters a-z |
| JsonPatchTypes.JsonValueInjective | src/main/java/edu/kit/datamanager/util/json/JsonPatch.java:33-49 | distinct operation types have distinct tokens |
| JsonPatchTypes.TokensDistinctIgnoringCase | src/main/java/edu/kit/datamanager/util/json/JsonPatch.java:60-64 | at most one type's token matches any string ignoring case |
| JsonPatchTypes.FindOrderIrrelevant | src/main/java/edu/kit/datamanager/util/json/JsonPatch.java:60-64 | scanning the types in any order that lists them all gives the same result |
| JsonPatchTypes.FromJsonJsonValue | src/main/java/edu/kit/datamanager/util/json/JsonPatch.java:57-72 | `fromJson(jsonValue(t)) == fromJson(toString(t)) == t` for every type |
| JsonPatchTypes.FromJsonIgnoresCase | src/main/java/edu/kit/datamanager/util/json/JsonPatch.java:62 | any casing of a type's token reads as that type |
| JsonPatchTypes.FoldOntoLetter | src/main/java/edu/kit/datamanager/util/json/JsonPatch.java:62 | a character folds onto a letter a-z exactly when `equalsIgnoreCase` takes it for that letter: the letter, its capital, and also long s for s, dotless i and dotted capital I for i, the Kelvin sign for k |
| JsonPatchTypes.FromJsonLongS | src/main/java/edu/kit/datamanager/util/json/JsonPatch.java:62 | `fromJson("teſt")` is TEST, because Java upper-cases long s to S |
| JsonPatchTypes.FromJsonNull | src/main/java/edu/kit/datamanager/util/json/JsonPatch.java:59 | `fromJson(null)` is null |
| JsonPatchTypes.FromJsonUnknown | src/main/java/edu/kit/datamanager/util/json/JsonPatch.java:66 | `fromJson` fails if and only if no token matches, and then with `IllegalArgumentException("Unknown operation type: " + value)` |
| JsonPatchTypes.ReadOperationTypeRoundTrip | src/main/java/edu/kit/datamanager/util/json/JsonPatch.java:89-93 | a written operation type (a token or null) reads back unchanged |
| JsonPatchTypes.OperationRoundTrip | src/main/java/edu/kit/datamanager/util/json/JsonPatch.java:99 | an operation record written as its four members reads back as the same record |
| JsonPatchTypes.ReadStringShapes | src/main/java/edu/kit/datamanager/util/json/JsonPatch.java:99 | a `path` or `from` component reads a string, null or absent as itself and a number or boolean as its text (Jackson's scalar coercion); it fails only on an array or object, and a number's text denotes that number |
| JsonPatchTypes.OperationsRoundTrip | src/main/java/edu/kit/datamanager/util/json/JsonPatch.java:89-93 | a written operation list reads back with the same operations in the same order |
| JsonPatchTypes.PatchRoundTrip | src/main/java/edu/kit/datamanager/util/json/JsonPatch.java:80-93 | a patch serialises as the bare array of its operations and reads back as the same patch |
| JsonPatchTypes.OperationsFromJsonShape | src/main/java/edu/kit/datamanager/util/json/JsonPatch.java:80-82 | a successfully read list has one operation per array item, each read from its own item |
| JsonPatchTypes.PatchFromJsonShape | src/main/java/edu/kit/datamanager/util/json/JsonPatch.java:80-82 | only an array reads as a patch; the count and order of its items are kept |
| Rfc6902.GetAppend | src/main/java/edu/kit/datamanager/util/json/JsonPatchUtil.java:202-207 | evaluating `p` followed by token `t` is evaluating `p` and then taking child `t` |
| Rfc6902.ChildSetChild | src/main/java/edu/kit/datamanager/util/json/JsonPatchUtil.java:202-207 | after replacing a child, that child reads as the new value |
| Rfc6902.EditAtParent | src/main/java/edu/kit/datamanager/util/json/JsonPatchUtil.java:202-207 | an edit at `p/t` succeeds exactly when `p` resolves and the last-step edit succeeds there, and `p` then holds the edited container |
| Rfc6902.InsertedChild | src/main/java/edu/kit/datamanager/util/json/JsonPatchUtil.java:202-207 | after an insert at a named or indexed token, that token reads as the inserted value |
| Rfc6902.InsertThenGet | src/main/java/edu/kit/datamanager/util/json/JsonPatchUtil.java:202-207 | after an insert at a pointer whose last token is not `-`, that pointer reads as the inserted value |
| Rfc6902.AddThenGet | src/test/java/edu/kit/datamanager/util/json/JsonPatchIntegrationTest.java:67-71 | after a successful `add` (not at `-`), the target path reads as the added value |
| Rfc6902.AddNeedsContainer | src/test/java/edu/kit/datamanager/util/json/JsonPatchUtilErrorTest.java:138-154 | `add` below a location succeeds only when that location holds an object or an array, so adding under a null member fails |
| Rfc6902.AddAppends | src/test/java/edu/kit/datamanager/util/json/JsonPatchAdditionalOpsTest.java:74-85 | `add` at `arr/-` always succeeds and appends the value |
| Rfc6902.AddInsertsAtIndex | src/test/java/edu/kit/datamanager/util/json/JsonPatchIntegrationTest.java:67-71 | `add` at index i succeeds if and only if i is at most the length, and then inserts there, shifting later elements up |
| Rfc6902.RemoveAtIndex | src/test/java/edu/kit/datamanager/util/json/JsonPatchAdditionalOpsTest.java:87-99 | `remove` at index i succeeds if and only if i is below the length, and then deletes that element, shifting later ones down |
| Rfc6902.RemoveMember | src/main/java/edu/kit/datamanager/util/json/JsonPatchUtil.java:202-207 | `remove` of an object member succeeds if and only if the member exists, and afterwards the member is gone and the rest are kept |
| Rfc6902.ExistingTarget | src/main/java/edu/kit/datamanager/util/json/JsonPatchUtil.java:202-207 | a remove or replace at the last step succeeds exactly when the target exists |
| Rfc6902.RemoveNeedsTarget | src/test/java/edu/kit/datamanager/util/json/JsonPatchUtilErrorTest.java:107-115 | `remove` succeeds if and only if the path is not the root and resolves |
| Rfc6902.ReplaceNeedsTarget | src/main/java/edu/kit/datamanager/util/json/JsonPatchUtil.java:202-207 | `replace` succeeds if and only if the path resolves, and the path then reads as the new value |
| Rfc6902.EditFrame | src/main/java/edu/kit/datamanager/util/json/JsonPatchUtil.java:202-207 | an edit leaves unchanged every location whose pointer branches away from the edited path at an object |
| Rfc6902.EditKeepsObjectsAbove | src/main/java/edu/kit/datamanager/util/json/JsonPatchUtil.java:202-207 | an edit keeps every object on the way to its target an object |
| Rfc6902.MoveMovesValue | src/test/java/edu/kit/datamanager/util/json/JsonPatchAdditionalOpsTest.java:29-41 | after `move`, `path` holds the value that was at `from` and `from` no longer resolves |
| Rfc6902.CopyCopiesValue | src/test/java/edu/kit/datamanager/util/json/JsonPatchAdditionalOpsTest.java:43-55 | after `copy`, both `path` and `from` hold the value that was at `from` |
| Rfc6902.MoveCopyNeedSource | src/main/java/edu/kit/datamanager/util/json/JsonPatchUtil.java:202-207 | `move` and `copy` fail with the source's error when `from` does not resolve; a `move` into a descendant fails before that |
| Rfc6902.MoveIntoDescendantFails | src/main/java/edu/kit/datamanager/util/json/JsonPatchUtil.java:202-207 | a `move` whose `from` is a proper prefix of its `path` fails whatever the document, so a successful move never has one (section 4.4 of RFC 6902) |
| Rfc6902.MoveIsRemoveThenAdd | src/main/java/edu/kit/datamanager/util/json/JsonPatchUtil.java:202-207 | any other `move` is a `remove` at `from` followed by an `add` at `path` of the value read first |
| Rfc6902.GetWellFormed | src/main/java/edu/kit/datamanager/util/json/JsonPatchUtil.java:202-207 | every part of a document with unique keys also has unique keys |
| Rfc6902.TestChecksOnly | src/test/java/edu/kit/datamanager/util/json/JsonPatchAdditionalOpsTest.java:57-72 | `test` succeeds if and only if the path resolves to an equal value; it then returns the document unchanged, and an unequal value fails with a test failure |
| Rfc6902.TestCurrentValue | src/test/java/edu/kit/datamanager/util/json/JsonPatchAdditionalOpsTest.java:57-72 | testing a location against its own current value succeeds |
| Rfc6902.ApplyOpsConcat | src/test/java/edu/kit/datamanager/util/json/JsonPatchIntegrationTest.java:101-133 | applying two operation lists one after the other is applying the second to the result of the first |
| Rfc6902.ApplyOpsAtomic | src/main/java/edu/kit/datamanager/util/json/JsonPatchUtil.java:207-214 | once an operation fails, the whole patch fails with that error, whatever follows |
| Rfc6902.RemoveThenAddAtIndex | src/test/java/edu/kit/datamanager/util/json/JsonPatchIntegrationTest.java:101-133 | `remove` at index i followed by `add` at index i replaces element i and keeps the length |
| Rfc6902.ReplaceGet | src/main/java/edu/kit/datamanager/util/json/JsonPatchUtil.java:202-207 | after the value at a resolving pointer is replaced, the pointer reads as the new value |
| Rfc6902.ReplaceTwice | src/main/java/edu/kit/datamanager/util/json/JsonPatchUtil.java:202-207 | of two replacements at one pointer the second wins |
| Rfc6902.ReplaceSame | src/main/java/edu/kit/datamanager/util/json/JsonPatchUtil.java:202-207 | replacing a value by itself changes nothing |
| Rfc6902.ReplaceEquivalent | src/main/java/edu/kit/datamanager/util/json/JsonPatchUtil.java:202-207 | replacing a value by an equal one gives an equal document |
| Rfc6902.EditAtReplace | src/main/java/edu/kit/datamanager/util/json/JsonPatchUtil.java:202-207 | an edit at `p/t` is the last-step edit of the container at `p`, put back at `p` with everything else kept |
| Rfc6902.EditUndo | src/main/java/edu/kit/datamanager/util/json/JsonPatchUtil.java:202-207 | two edits at one location whose last steps undo each other give the document back |
| Rfc6902.AddThenRemoveMember | src/test/java/edu/kit/datamanager/util/json/JsonPatchIntegrationTest.java:67-71 | `add` of a member the object lacks, then `remove` of it, gives the document back |
| Rfc6902.AddThenRemoveAtIndex | src/test/java/edu/kit/datamanager/util/json/JsonPatchIntegrationTest.java:67-71 | `add` at an index up to the array length, then `remove` at that index, gives the document back |
| Rfc6902.MoveWithin | src/test/java/edu/kit/datamanager/util/json/JsonPatchAdditionalOpsTest.java:29-41 | `move` of a member to a fresh name of the same object renames it: the other members keep their order and the moved one goes last |
| Rfc6902.MoveThereAndBack | src/test/java/edu/kit/datamanager/util/json/JsonPatchAdditionalOpsTest.java:29-41 | moving a member to a fresh name and back leaves it under its old name, after its siblings |
| Rfc6902.MoveThenMoveBack | src/test/java/edu/kit/datamanager/util/json/JsonPatchAdditionalOpsTest.java:29-41 | moving a member to a fresh name and back succeeds and gives a document equal to the original |
| Rfc6902.ArrayEditWellFormed | src/main/java/edu/kit/datamanager/util/json/JsonPatchUtil.java:202-207 | an array built from well-formed elements and a well-formed new value is well-formed |
| Rfc6902.EditLastWellFormed | src/main/java/edu/kit/datamanager/util/json/JsonPatchUtil.java:202-207 | a last-step edit with a well-formed value keeps the container well-formed |
| Rfc6902.SetChildWellFormed | src/main/java/edu/kit/datamanager/util/json/JsonPatchUtil.java:202-207 | replacing a child by a well-formed value keeps the parent well-formed |
| Rfc6902.EditAtWellFormed | src/main/java/edu/kit/datamanager/util/json/JsonPatchUtil.java:202-207 | an edit at any depth keeps the document well-formed |
| Rfc6902.ApplyOpWellFormed | src/main/java/edu/kit/datamanager/util/json/JsonPatchUtil.java:202-207 | one operation with well-formed values keeps the document's keys unique |
| Rfc6902.ApplyOpsWellFormed | src/main/java/edu/kit/datamanager/util/json/JsonPatchUtil.java:202-207 | a whole patch with well-formed values keeps the document's keys unique |
| Rfc6902.ExecuteDecodes | src/main/java/edu/kit/datamanager/util/json/JsonPatchUtil.java:202-207 | the decode-then-apply loop equals applying the decoded operation list, and it succeeds only when every operation decodes |
| Rfc6902.FindToken | src/main/java/edu/kit/datamanager/util/json/JsonPatch.java:60-64 | a string that matches a type's token ignoring case finds that type |
| Rfc6902.BuildOpKind | src/main/java/edu/kit/datamanager/util/json/JsonPatchUtil.java:202-207 | an operation built for a type has that type and the given path |
| Rfc6902.DecodeOpName | src/main/java/edu/kit/datamanager/util/json/JsonPatchUtil.java:202-207 | an operation object is decoded as the type its `op` names, ignoring case; an unknown name fails as an invalid operation |
| Rfc6902.DecodeKnownOp | src/main/java/edu/kit/datamanager/util/json/JsonPatchUtil.java:202-207 | an object with a valid `path` and an exact token in `op` decodes to the operation built for that type |
| Rfc6902.DecodeWrittenOperation | src/main/java/edu/kit/datamanager/util/json/JsonPatchUtil.java:225-227 | a written `Operation` record decodes to an operation of its type, with its parsed `path`, its parsed `from` for move and copy, and its `value` for add, replace and test |
| Rfc6902.DecodeAllKinds | src/main/java/edu/kit/datamanager/util/json/JsonPatchUtil.java:225-227 | decoding a list whose items each decode keeps their count, order and types |
| Rfc7396.MergeFromKey | src/main/java/edu/kit/datamanager/util/json/JsonPatchUtil.java:334-340 | merging members from index i onward gives each key the prior value changed by that key's patch member |
| Rfc7396.MergeKey | src/test/java/edu/kit/datamanager/util/json/JsonPatchUtilErrorTest.java:156-164 | an object merge patch gives an object where each key is as before if the patch omits it, absent if the patch sets it to null, and otherwise the recursive merge of the old value (or null) with the patch value |
| Rfc7396.MergeWellFormed | src/main/java/edu/kit/datamanager/util/json/JsonPatchUtil.java:334-340 | merging well-formed values gives a well-formed value |
| Rfc7396.MergeFromWellFormed | src/main/java/edu/kit/datamanager/util/json/JsonPatchUtil.java:334-340 | merging members keeps the keys unique |
| Rfc7396.MergeFromSettled | src/main/java/edu/kit/datamanager/util/json/JsonPatchUtil.java:334-340 | merging members already reflected in the target leaves the target unchanged |
| Rfc7396.MergeIdempotent | src/main/java/edu/kit/datamanager/util/json/JsonPatchUtil.java:334-340 | applying the same merge patch twice gives the same result as applying it once |
| MapperConfig.ConfiguredLastWins | src/main/java/edu/kit/datamanager/util/json/JsonPatchUtil.java:89-92 | after the callbacks run in registration order, a feature is set exactly when some callback sets it, and it has the value of the last callback that sets it |
| MapperConfig.BuildSettings | src/main/java/edu/kit/datamanager/util/json/JsonPatchUtil.java:85-97 | the built mapper always fails on unknown properties; any other feature has the last registered setting, or the library default when none was registered |
| MapperConfig.MapperRegistry.constructor | src/main/java/edu/kit/datamanager/util/json/JsonPatchUtil.java:41-46 | the initial state has no pending configurations, is not frozen and has no mapper |
| MapperConfig.MapperRegistry.ConfigureMapper | src/main/java/edu/kit/datamanager/util/json/JsonPatchUtil.java:71-83 | a null callback fails; after the mapper was built the call fails and nothing changes; otherwise the callback is appended |
| MapperConfig.MapperRegistry.BuildMapper | src/main/java/edu/kit/datamanager/util/json/JsonPatchUtil.java:85-97 | builds from the pending callbacks in order with FAIL_ON_UNKNOWN_PROPERTIES forced on, then freezes and clears the list |
| MapperConfig.MapperRegistry.GetDefaultMapper | src/main/java/edu/kit/datamanager/util/json/JsonPatchUtil.java:51-64 | the first call builds, stores and returns the mapper; later calls return the stored mapper and change nothing |
| MapperConfig.MapperRegistry.ResetForTesting | src/main/java/edu/kit/datamanager/util/json/JsonPatchUtil.java:409-418 | when not allowed it fails and nothing changes; when allowed it restores the initial state |
| MapperConfig.ConfigureThenUse | src/test/java/edu/kit/datamanager/util/json/JsonPatchUtilErrorTest.java:50-55 | a setting registered before first use is in effect on the default mapper |
| MapperConfig.ConfigureAfterUse | src/test/java/edu/kit/datamanager/util/json/JsonPatchUtilErrorTest.java:57-62 | registering after first use fails, and the mapper is the same and without the new setting |
| MapperConfig.ResetRefused | src/test/java/edu/kit/datamanager/util/json/JsonPatchUtilErrorTest.java:64-71 | a reset that is not allowed fails and keeps the built mapper |
| MapperConfig.ResetThenConfigure | src/main/java/edu/kit/datamanager/util/json/JsonPatchUtil.java:409-418 | after an allowed reset, configuration is accepted again and takes effect |
| JsonPatchUtil.OffenceTouches | src/main/java/edu/kit/datamanager/util/json/JsonPatchUtil.java:359-369 | an operation is refused exactly when it is an object whose string `path` or `from` is literally in the blocked set |
| JsonPatchUtil.FirstOffenceIsFirst | src/main/java/edu/kit/datamanager/util/json/JsonPatchUtil.java:358-370 | the guard passes if and only if no operation touches a blocked location; otherwise it reports the complaint of the first operation that does |
| JsonPatchUtil.ValidateBlockedPaths | src/main/java/edu/kit/datamanager/util/json/JsonPatchUtil.java:353-372 | the loop decides as the specification function does: an unreadable patch fails, a non-array passes, otherwise the first touching operation fails it, checking `path` before `from` |
| JsonPatchUtil.GuardRunsFirst | src/main/java/edu/kit/datamanager/util/json/JsonPatchUtil.java:186-188 | with a non-empty blocked set, a patch touching a blocked location fails with the guard's complaint, whatever the original is |
| JsonPatchUtil.GuardTransparent | src/main/java/edu/kit/datamanager/util/json/JsonPatchUtil.java:186-188 | the guard changes the result only for an array patch with an operation that touches a blocked location; for any other patch, and for every patch when the set is empty, the result is the one without options |
| JsonPatchUtil.PatchMustBeArray | src/main/java/edu/kit/datamanager/util/json/JsonPatchUtil.java:194-198 | a patch that is not an array fails |
| JsonPatchUtil.ApplyPatchSucceeds | src/main/java/edu/kit/datamanager/util/json/JsonPatchUtil.java:183-215 | the pipeline succeeds if and only if the guard passes, the patch is an array, the original is an object or array, every operation decodes and applies, and the result is a structure; the result is then the operations applied in order, and every failure is one `JsonPatchProcessingException` with the patch message |
| JsonPatchUtil.WrittenOperationDecodes | src/main/java/edu/kit/datamanager/util/json/JsonPatchUtil.java:225-227 | each valid record of a typed patch decodes, from its written form, to an operation of its own type |
| JsonPatchUtil.WrittenKinds | src/main/java/edu/kit/datamanager/util/json/JsonPatchUtil.java:225-227 | the written operations of a typed patch decode one by one with the records' types |
| JsonPatchUtil.WrittenOperationsDecode | src/main/java/edu/kit/datamanager/util/json/JsonPatchUtil.java:225-227 | a typed patch of valid records decodes as a whole, one operation per record, in order and of the record's type |
| JsonPatchUtil.ApplyJsonPatchRunsRecords | src/main/java/edu/kit/datamanager/util/json/JsonPatchUtil.java:225-227 | a typed patch runs its records' operations in order, and succeeds if and only if they apply and leave a structure |
| JsonPatchUtil.ApplyJsonPatchBlocked | src/test/java/edu/kit/datamanager/util/json/JsonPatchUtilErrorTest.java:117-126 | a typed patch whose record has a blocked `path` is refused by the guard |
| JsonPatchUtil.MergePatchMustBeObject | src/main/java/edu/kit/datamanager/util/json/JsonPatchUtil.java:331-333 | a merge patch that is not an object fails, though RFC 7396 would accept it |
| JsonPatchUtil.ApplyMergePatchKeys | src/test/java/edu/kit/datamanager/util/json/JsonPatchUtilTest.java:101-112 | merging an object patch into an object succeeds: a null member removes the key, a non-null scalar replaces it, and keys the patch omits are kept |
| JsonPatchUtil.ApplyMergePatchSucceeds | src/main/java/edu/kit/datamanager/util/json/JsonPatchUtil.java:324-346 | the merge pipeline succeeds if and only if the patch is an object and the original an object or array; the result is then the RFC 7396 merge, and every failure is one `JsonPatchProcessingException` with the merge message |
| JsonPatchUtil.FirstUndeclared | src/main/java/edu/kit/datamanager/util/json/JsonPatchUtil.java:401-407 | the key found is in the object and not declared by the type; none is found only when every key is declared |
| JsonPatchUtil.WrittenLookup | src/main/java/edu/kit/datamanager/util/json/JsonPatchUtil.java:378-384 | a written record has unique keys, each declared name with its component, and no other key |
| JsonPatchUtil.RecordRoundTrip | src/main/java/edu/kit/datamanager/util/json/JsonPatchUtil.java:287-300 | reading back a written record gives the same record |
| JsonPatchUtil.TypedPatchRejectsUndeclaredKey | src/test/java/edu/kit/datamanager/util/json/JsonPatchUtilErrorTest.java:92-105 | with the built default mapper, a typed patch whose patched tree has an undeclared key fails as an unknown-field error nested in the outer exception, though the string-level patch succeeded |
| JsonPatchUtil.TypedMergeRejectsUndeclaredKey | src/main/java/edu/kit/datamanager/util/json/JsonPatchUtil.java:309-317 | with the built default mapper, a typed merge whose merged tree has an undeclared key fails as an unknown-field error |
| JsonPatchUtil.MergeNullIntoRecord | src/test/java/edu/kit/datamanager/util/json/JsonPatchUtilErrorTest.java:156-164 | merging `{name: null}` into a written record removes exactly that member |
| JsonPatchUtil.TypedMergeNullsComponent | src/test/java/edu/kit/datamanager/util/json/JsonPatchUtilErrorTest.java:156-164 | a typed merge that sets a component to null succeeds, and yields the record with that component null and the rest unchanged |
| JsonPatchUtil.PatchWithTypedPatch | src/main/java/edu/kit/datamanager/util/json/JsonPatchUtil.java:225-227 | writing the typed patch takes the default mapper, so the configuration is frozen afterwards (the mapper built from the pending callbacks when there was none) whatever the patch does; the result is the string pipeline on the written patch |
| JsonPatchUtil.PatchRecord | src/main/java/edu/kit/datamanager/util/json/JsonPatchUtil.java:287-300 | the typed patch freezes the configuration by taking the default mapper, even when the patch then fails, and its result is the record pipeline run with that mapper |
| JsonPatchUtil.MergeRecord | src/main/java/edu/kit/datamanager/util/json/JsonPatchUtil.java:309-317 | the typed merge freezes the configuration by taking the default mapper, even when the merge then fails, and its result is the record pipeline run with that mapper |
| JsonPatchUtil.TypedCallFreezes | src/main/java/edu/kit/datamanager/util/json/JsonPatchUtil.java:309-317 | after a typed call, even a failing one, registering a callback fails with the configuration frozen, while a callback registered before the call is in effect |

## Left out

- JSON text reading and writing (Jakarta `JsonReader`, Jackson `readTree`/`writeValueAsString`) are abstracted: a text is what the reader makes of it (`Parsed`). Whitespace, number formatting, indentation and output key order are not modelled.
- The `JsonNode` overloads (src/main/java/edu/kit/datamanager/util/json/JsonPatchUtil.java:237-275) and the string/`JsonPatch`/`JsonNode` mixes (src/main/java/edu/kit/datamanager/util/json/JsonPatchUtil.java:101-172) only convert between a tree and its text around the string pipeline. They are not separate members; `ApplyPatch` and `ApplyJsonPatch` stand for all of them. The overloads that return a `JsonNode` also take the default mapper (`jsonStringToNode`) once the patch has succeeded, and so freeze the mapper configuration; that effect on the registry is modelled only for the typed entry points `PatchWithTypedPatch`, `PatchRecord` and `MergeRecord`.
- `jsonObjectToString` failing on a value Jackson cannot serialise, and `jsonStringToNode` as a stand-alone helper, are not modelled. Records always serialise here.
- Synchronisation (`synchronized`, `volatile`, the `AtomicReference` double-checked build) is left out; the mapper registry is modelled as sequential calls.
- Logging and the `System.out.println` inside `fromJson` are left out: they have no effect on results.
- The `json.patch.resetForTesting` system property is passed to `ResetForTesting` as a boolean.
- Floating-point JSON numbers are left out; numbers are integers.
- JsonPatchTypes.ReadString: a number coerced to a `String` component reads as its canonical decimal text, not the text as written (`1.0`, `1e2`), since numbers are integers here.
- JsonPatchTypes.ReadOperationType: a number or boolean `op` fails as an unsupported shape. Jackson would coerce it to text, and `fromJson` would then refuse it, so only the failure kind differs.
- Array indices are unbounded naturals. The 32-bit limit of the library's index parsing is not modelled.
- JsonPatchTypes.EqualsIgnoreCase: Java's case folding is modelled as far as it reaches the letters a-z (the ASCII letters, long s, dotless i, dotted capital I and the Kelvin sign). Other non-ASCII case pairs, such as `é` and `É`, are not folded. That changes nothing when one side is one of the six lower-case tokens, which is the only use. Java compares UTF-16 units, so characters outside the Basic Multilingual Plane are not modelled.
- A configuration callback is modelled as one feature setting. Arbitrary code in a `Consumer<JsonMapper.Builder>` is not modelled, and a feature never set reads as the library default (`None`).
- Jackson binding to a Java type is reduced to a schema of component names. A typed read fails on a non-object or on an undeclared key when FAIL_ON_UNKNOWN_PROPERTIES is on; absent components read as null. Component types, `int[]` and `Map` values, and FAIL_ON_EMPTY_BEANS are not checked.
- Exceptions thrown and caught inside the same method (the guard's complaint, the "has to be an array/object" checks) are represented by their kind as the cause of the outer `JsonPatchProcessingException`, not as a nested exception.
- JSON-P's error messages are not modelled, only the error kinds.
- A `move` into a descendant of its `from` is refused with its own error kind, as section 4.4 of RFC 6902 requires. JSON-P's wording of that error is not modelled.
- Rfc6902.MoveMovesValue: stated only when `from` and `path` branch apart at an object and `from`'s parent is an object. A move into or out of an array shifts indices. A move into a descendant is refused (Rfc6902.MoveIntoDescendantFails).
- Rfc6902.MoveThenMoveBack: the move back is stated for a member renamed within one object. Moves between different containers and moves within arrays get no move-back lemma. The restored document equals the original only up to member order, which JSON-P's equality ignores.
- Rfc6902.CopyCopiesValue: stated only when `from` and `path` branch apart at an object, for the same reason.
- JsonPatchUtil.ApplyPatchSucceeds: JSON-P reads each intermediate document as a `JsonStructure`. The model checks only that the original and the final result are structures; a scalar intermediate result that a later operation turns back into a structure is accepted here.
- JsonPatchUtil.ApplyMergePatchKeys: states the merge result for null and scalar patch members and absent keys. Object-valued patch members are covered by Rfc7396.MergeKey.
- Rfc7396.MergeIdempotent: requires that every object in the patch has unique keys. The reader gives no guarantee for duplicate keys, so texts with duplicate keys are out of scope.
- Merge of an object-valued patch member under a key that is absent, or not an object, in the target follows RFC 7396 section 2 and the library: the member is merged into an empty object, which drops its nested null members. A prose description that sets such a value wholesale would keep those nulls; the model follows the code.
