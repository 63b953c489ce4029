/**
 * `JsonPatchUtil`: the string-level patch and merge pipelines, the blocked-path
 * guard in front of the patch pipeline, and the typed overloads that go
 * record -> tree -> patched tree -> record through the default mapper.
 *
 * Texts are modelled by what the JSON reader makes of them (`Parsed`); the
 * library calls that apply a patch or a merge patch are replaced by the
 * reference semantics of modules Rfc6902 and Rfc7396.
 */
module JsonPatchUtil {
  import opened Wrappers
  import opened Errors
  import opened JsonTree
  import Pointer
  import JsonPatchTypes
  import Rfc6902
  import Rfc7396
  import MapperConfig

  /** A text as the JSON reader sees it: the value it holds, or None when it is not JSON at all. */
  type Parsed = Option<Json>

  /** `PatchOptions`: the locations no operation may name. */
  datatype PatchOptions = PatchOptions(blockedPaths: set<string>)

  const PathReadOnly := "Path is read only and can't be changed: "
  const FromReadOnly := "Path (from) is read only and can't be changed:: "
  const PatchFailed := "Error while executing patch!"
  const MergeFailed := "Error while applying JSON Merge Patch"
  const ReadFailed := "Error while parsing JSON string to object!"

  // ---- The blocked-path guard ----

  /** `getString(name, null)`: the member's text when it is a string, and null otherwise. */
  function StringMember(ms: seq<Member>, name: string): Option<string> {
    match Lookup(ms, name)
    case Some(Str(s)) => Some(s)
    case _ => None
  }

  /** The operation names a blocked location, literally, as its "path" or its "from". */
  predicate Touches(op: Json, blocked: set<string>) {
    op.Obj? &&
    ((StringMember(op.members, "path").Some? && StringMember(op.members, "path").value in blocked) ||
     (StringMember(op.members, "from").Some? && StringMember(op.members, "from").value in blocked))
  }

  /** The complaint about one operation: its "path" is checked before its "from"; entries that are not objects pass. */
  function Offence(op: Json, blocked: set<string>): Option<string> {
    if !op.Obj? then None
    else
      var path := StringMember(op.members, "path");
      var from := StringMember(op.members, "from");
      if path.Some? && path.value in blocked then Some(PathReadOnly + path.value)
      else if from.Some? && from.value in blocked then Some(FromReadOnly + from.value)
      else None
  }

  /** The complaint about the first offending operation, in patch order. */
  function FirstOffence(ops: seq<Json>, blocked: set<string>): Option<string> {
    if ops == [] then None
    else if Offence(ops[0], blocked).Some? then Offence(ops[0], blocked)
    else FirstOffence(ops[1..], blocked)
  }

  /** What `validateBlockedPaths` decides: an unreadable patch fails, a non-array patch passes. */
  function CheckBlockedPaths(patch: Parsed, blocked: set<string>): Outcome<PatchError> {
    match patch
    case None => Fail(MalformedJson)
    case Some(Arr(ops)) =>
      (match FirstOffence(ops, blocked)
       case Some(m) => Fail(BlockedPath(m))
       case None => Pass)
    case Some(_) => Pass
  }

  lemma OffenceTouches(op: Json, blocked: set<string>)
    ensures Offence(op, blocked).Some? <==> Touches(op, blocked)
  {
  }

  /**
   * The guard passes exactly when no operation touches a blocked location, and
   * otherwise reports the first operation (in patch order) that does.
   */
  lemma {:induction false} FirstOffenceIsFirst(ops: seq<Json>, blocked: set<string>)
    ensures FirstOffence(ops, blocked).None? <==> forall i :: 0 <= i < |ops| ==> !Touches(ops[i], blocked)
    ensures FirstOffence(ops, blocked).Some? ==>
      exists i :: 0 <= i < |ops| && FirstOffence(ops, blocked) == Offence(ops[i], blocked) &&
        forall j :: 0 <= j < i ==> !Touches(ops[j], blocked)
  {
    if ops != [] {
      OffenceTouches(ops[0], blocked);
      if Offence(ops[0], blocked).None? {
        FirstOffenceIsFirst(ops[1..], blocked);
        if FirstOffence(ops, blocked).None? {
          forall i | 0 <= i < |ops| ensures !Touches(ops[i], blocked) {
            if i > 0 {
              assert ops[i] == ops[1..][i - 1];
            }
          }
        } else {
          var i :| 0 <= i < |ops[1..]| && FirstOffence(ops[1..], blocked) == Offence(ops[1..][i], blocked) &&
            forall j :: 0 <= j < i ==> !Touches(ops[1..][j], blocked);
          forall j | 0 <= j < i + 1 ensures !Touches(ops[j], blocked) {
            if j > 0 {
              assert ops[j] == ops[1..][j - 1];
            }
          }
          assert FirstOffence(ops, blocked) == Offence(ops[i + 1], blocked);
        }
        if forall i :: 0 <= i < |ops| ==> !Touches(ops[i], blocked) {
          forall i | 0 <= i < |ops[1..]| ensures !Touches(ops[1..][i], blocked) {
            assert ops[1..][i] == ops[i + 1];
          }
        }
      } else {
        assert FirstOffence(ops, blocked) == Offence(ops[0], blocked);
      }
    }
  }

  /** `validateBlockedPaths`: scans the operations in order and stops at the first blocked one. */
  method ValidateBlockedPaths(patch: Parsed, blocked: set<string>) returns (r: Outcome<PatchError>)
    ensures r == CheckBlockedPaths(patch, blocked)
  {
    if patch.None? {
      return Fail(MalformedJson);
    }
    var v := patch.value;
    if !v.Arr? {
      return Pass;
    }
    var ops := v.items;
    var i := 0;
    while i < |ops|
      invariant 0 <= i <= |ops|
      invariant FirstOffence(ops, blocked) == FirstOffence(ops[i..], blocked)
    {
      assert ops[i..][0] == ops[i] && ops[i..][1..] == ops[i + 1..];
      var op := ops[i];
      if op.Obj? {
        var path := StringMember(op.members, "path");
        var from := StringMember(op.members, "from");
        if path.Some? && path.value in blocked {
          return Fail(BlockedPath(PathReadOnly + path.value));
        }
        if from.Some? && from.value in blocked {
          return Fail(BlockedPath(FromReadOnly + from.value));
        }
      }
      i := i + 1;
    }
    assert ops[i..] == [];
    r := Pass;
  }

  // ---- The patch pipeline ----

  /** The guard runs only when options are given and their blocked set is not empty. */
  predicate GuardEnabled(options: Option<PatchOptions>) {
    options.Some? && options.value.blockedPaths != {}
  }

  /** Read the patch (it must be an array), read the original (it must be an object or an array), apply. */
  function ExecutePatch(original: Parsed, patch: Parsed): Result<Json, PatchError> {
    if patch.None? then Err(MalformedJson)
    else if !patch.value.Arr? then Err(UnsupportedShape)
    else if original.None? then Err(MalformedJson)
    else if !IsStructure(original.value) then Err(UnsupportedShape)
    else
      var patched :- Rfc6902.Execute(original.value, patch.value.items);
      if IsStructure(patched) then Ok(patched) else Err(UnsupportedShape)
  }

  /** `applyPatch(String, String, PatchOptions)`: every failure becomes one JsonPatchProcessingException. */
  function ApplyPatch(original: Parsed, patch: Parsed, options: Option<PatchOptions>): Result<Json, ProcessingError> {
    var guard := if GuardEnabled(options) then CheckBlockedPaths(patch, options.value.blockedPaths) else Pass;
    if guard.Fail? then Err(JsonPatchProcessingException(PatchFailed, guard.error))
    else
      match ExecutePatch(original, patch)
      case Ok(patched) => Ok(patched)
      case Err(e) => Err(JsonPatchProcessingException(PatchFailed, e))
  }

  /** `applyPatch(String, JsonPatch, PatchOptions)`: the typed patch is written out and goes the same way. */
  function ApplyJsonPatch(original: Parsed, p: JsonPatchTypes.JsonPatch, options: Option<PatchOptions>): Result<Json, ProcessingError> {
    ApplyPatch(original, Some(JsonPatchTypes.PatchToJson(p)), options)
  }

  /**
   * A patch touching a blocked location fails with the guard's complaint,
   * whatever the original is (readable or not) and whatever the patch would do.
   */
  lemma GuardRunsFirst(original: Parsed, ops: seq<Json>, blocked: set<string>, i: nat)
    requires i < |ops| && Touches(ops[i], blocked)
    ensures ApplyPatch(original, Some(Arr(ops)), Some(PatchOptions(blocked))).Err?
    ensures ApplyPatch(original, Some(Arr(ops)), Some(PatchOptions(blocked))).error.cause.BlockedPath?
  {
    FirstOffenceIsFirst(ops, blocked);
  }

  /**
   * The guard changes the outcome only for a patch that touches a blocked location:
   * for every other patch (an unreadable or a non-array one included, and every patch
   * when the blocked set is empty) the result is the one without options.
   */
  lemma GuardTransparent(original: Parsed, patch: Parsed, blocked: set<string>)
    requires patch.Some? && patch.value.Arr? ==>
      forall i :: 0 <= i < |patch.value.items| ==> !Touches(patch.value.items[i], blocked)
    ensures ApplyPatch(original, patch, Some(PatchOptions(blocked))) == ApplyPatch(original, patch, None)
  {
    if patch.Some? && patch.value.Arr? {
      FirstOffenceIsFirst(patch.value.items, blocked);
    }
  }

  /** A patch that is not an array fails, with or without a guard. */
  lemma PatchMustBeArray(original: Parsed, x: Json, options: Option<PatchOptions>)
    requires !x.Arr?
    ensures ApplyPatch(original, Some(x), options) == Err(JsonPatchProcessingException(PatchFailed, UnsupportedShape))
  {
  }

  /**
   * The pipeline succeeds exactly when the guard passes, both texts are of the
   * right shape, every operation decodes and the operations apply in order to a
   * structure; its result is then that of the operations.
   */
  lemma ApplyPatchSucceeds(original: Parsed, patch: Parsed, options: Option<PatchOptions>)
    ensures ApplyPatch(original, patch, options).Ok? <==>
      (!GuardEnabled(options) || CheckBlockedPaths(patch, options.value.blockedPaths).Pass?) &&
      patch.Some? && patch.value.Arr? && original.Some? && IsStructure(original.value) &&
      Rfc6902.DecodeAll(patch.value.items).Ok? &&
      Rfc6902.ApplyOps(original.value, Rfc6902.DecodeAll(patch.value.items).value).Ok? &&
      IsStructure(Rfc6902.ApplyOps(original.value, Rfc6902.DecodeAll(patch.value.items).value).value)
    ensures ApplyPatch(original, patch, options).Ok? ==>
      ApplyPatch(original, patch, options).value ==
        Rfc6902.ApplyOps(original.value, Rfc6902.DecodeAll(patch.value.items).value).value
    ensures ApplyPatch(original, patch, options).Err? ==> ApplyPatch(original, patch, options).error.message == PatchFailed
  {
    if patch.Some? && patch.value.Arr? && original.Some? {
      Rfc6902.ExecuteDecodes(original.value, patch.value.items);
    }
  }

  lemma WrittenOperationDecodes(os: seq<JsonPatchTypes.Operation>, i: nat)
    requires i < |os| && ValidOperation(os[i])
    ensures var item := JsonPatchTypes.PatchToJson(JsonPatchTypes.JsonPatch(os)).items[i];
      Rfc6902.DecodeOp(item).Ok? && Rfc6902.KindOf(Rfc6902.DecodeOp(item).value) == os[i].op.value
  {
    assert JsonPatchTypes.PatchToJson(JsonPatchTypes.JsonPatch(os)).items[i] == JsonPatchTypes.OperationToJson(os[i]);
    Rfc6902.DecodeWrittenOperation(os[i]);
  }

  lemma WrittenKinds(os: seq<JsonPatchTypes.Operation>)
    requires forall i :: 0 <= i < |os| ==> ValidOperation(os[i])
    ensures Rfc6902.DecodesWithKinds(JsonPatchTypes.PatchToJson(JsonPatchTypes.JsonPatch(os)).items, Kinds(os))
  {
    var items := JsonPatchTypes.PatchToJson(JsonPatchTypes.JsonPatch(os)).items;
    forall i | 0 <= i < |items|
      ensures Rfc6902.DecodeOp(items[i]).Ok? && Rfc6902.KindOf(Rfc6902.DecodeOp(items[i]).value) == Kinds(os)[i]
    {
      WrittenOperationDecodes(os, i);
    }
  }

  function Kinds(os: seq<JsonPatchTypes.Operation>): seq<JsonPatchTypes.OperationType>
    requires forall i :: 0 <= i < |os| ==> ValidOperation(os[i])
  {
    seq(|os|, i requires 0 <= i < |os| => assert ValidOperation(os[i]); os[i].op.value)
  }

  /** Written out and read back by the executor, valid operation records keep their number, order and types. */
  lemma WrittenOperationsDecode(os: seq<JsonPatchTypes.Operation>)
    requires forall i :: 0 <= i < |os| ==> ValidOperation(os[i])
    ensures var ops := Rfc6902.DecodeAll(JsonPatchTypes.PatchToJson(JsonPatchTypes.JsonPatch(os)).items);
      ops.Ok? && |ops.value| == |os| &&
      forall i :: 0 <= i < |os| ==> os[i].op == Some(Rfc6902.KindOf(ops.value[i]))
  {
    WrittenKinds(os);
    Rfc6902.DecodeAllKinds(JsonPatchTypes.PatchToJson(JsonPatchTypes.JsonPatch(os)).items, Kinds(os));
  }

  /** An operation record the executor can run: a type, a valid path, and a valid "from" for move and copy. */
  predicate ValidOperation(o: JsonPatchTypes.Operation) {
    o.op.Some? && o.path.Some? && Pointer.Parse(o.path.value).Ok? &&
    (o.op.value == JsonPatchTypes.Move || o.op.value == JsonPatchTypes.Copy ==>
      o.from.Some? && Pointer.Parse(o.from.value).Ok?)
  }

  /**
   * A typed patch of valid operations runs its operations, one per record and
   * of the record's type, in the record order.
   */
  lemma ApplyJsonPatchRunsRecords(original: Json, p: JsonPatchTypes.JsonPatch)
    requires IsStructure(original)
    requires forall i :: 0 <= i < |p.operations| ==> ValidOperation(p.operations[i])
    ensures var ops := Rfc6902.DecodeAll(JsonPatchTypes.PatchToJson(p).items);
      ops.Ok? && |ops.value| == |p.operations| &&
      (forall i :: 0 <= i < |p.operations| ==> p.operations[i].op == Some(Rfc6902.KindOf(ops.value[i]))) &&
      (ApplyJsonPatch(Some(original), p, None).Ok? <==>
         Rfc6902.ApplyOps(original, ops.value).Ok? && IsStructure(Rfc6902.ApplyOps(original, ops.value).value))
  {
    WrittenOperationsDecode(p.operations);
    ApplyPatchSucceeds(Some(original), Some(JsonPatchTypes.PatchToJson(p)), None);
  }

  /** The guard sees a typed operation's path as written: a blocked one fails the typed patch. */
  lemma ApplyJsonPatchBlocked(original: Parsed, p: JsonPatchTypes.JsonPatch, blocked: set<string>, i: nat)
    requires i < |p.operations| && p.operations[i].path.Some? && p.operations[i].path.value in blocked
    ensures ApplyJsonPatch(original, p, Some(PatchOptions(blocked))).Err?
    ensures ApplyJsonPatch(original, p, Some(PatchOptions(blocked))).error.cause.BlockedPath?
  {
    var items := JsonPatchTypes.PatchToJson(p).items;
    JsonPatchTypes.MemberLookups(p.operations[i]);
    assert items[i] == JsonPatchTypes.OperationToJson(p.operations[i]);
    assert Touches(items[i], blocked);
    GuardRunsFirst(original, items, blocked, i);
  }

  // ---- The merge pipeline ----

  /** Read the merge patch (it must be an object), read the original (an object or an array), merge. */
  function ExecuteMerge(original: Parsed, patch: Parsed): Result<Json, PatchError> {
    if patch.None? then Err(MalformedJson)
    else if !patch.value.Obj? then Err(UnsupportedShape)
    else if original.None? then Err(MalformedJson)
    else if !IsStructure(original.value) then Err(UnsupportedShape)
    else Ok(Rfc7396.MergePatch(original.value, patch.value))
  }

  /** `applyMergePatch(String, String)`: every failure becomes one JsonPatchProcessingException. */
  function ApplyMergePatch(original: Parsed, patch: Parsed): Result<Json, ProcessingError> {
    match ExecuteMerge(original, patch)
    case Ok(merged) => Ok(merged)
    case Err(e) => Err(JsonPatchProcessingException(MergeFailed, e))
  }

  /** A merge patch that is not an object fails, though RFC 7396 would accept it. */
  lemma MergePatchMustBeObject(original: Parsed, x: Json)
    requires !x.Obj?
    ensures ApplyMergePatch(original, Some(x)) == Err(JsonPatchProcessingException(MergeFailed, UnsupportedShape))
  {
  }

  /**
   * On a readable object original, an object merge patch succeeds; a null member
   * removes its key, any other non-object member becomes the key's value, and
   * keys the patch does not mention keep their values.
   */
  lemma ApplyMergePatchKeys(original: Json, patch: Json, k: string)
    requires original.Obj? && patch.Obj? && UniqueKeys(patch.members)
    ensures ApplyMergePatch(Some(original), Some(patch)).Ok?
    ensures ApplyMergePatch(Some(original), Some(patch)).value.Obj?
    ensures var merged := ApplyMergePatch(Some(original), Some(patch)).value.members;
      (Lookup(patch.members, k) == Some(Null) ==> Lookup(merged, k) == None) &&
      (Lookup(patch.members, k).Some? && !Lookup(patch.members, k).value.Obj? && Lookup(patch.members, k) != Some(Null) ==>
         Lookup(merged, k) == Lookup(patch.members, k)) &&
      (Lookup(patch.members, k).None? ==> Lookup(merged, k) == Lookup(original.members, k))
  {
    Rfc7396.MergeKey(original, patch, k);
  }

  /**
   * The merge pipeline succeeds exactly when the patch is an object and the original a
   * structure, with the RFC 7396 result; every failure carries the one merge message.
   */
  lemma ApplyMergePatchSucceeds(original: Parsed, patch: Parsed)
    ensures ApplyMergePatch(original, patch).Ok? <==>
      patch.Some? && patch.value.Obj? && original.Some? && IsStructure(original.value)
    ensures ApplyMergePatch(original, patch).Ok? ==>
      ApplyMergePatch(original, patch).value == Rfc7396.MergePatch(original.value, patch.value)
    ensures ApplyMergePatch(original, patch).Err? ==> ApplyMergePatch(original, patch).error.message == MergeFailed
  {
  }

  // ---- Typed overloads ----

  /** A record type as the mapper sees it: its component names, in declaration order. */
  type Schema = seq<string>

  /** A record value: its component values, in declaration order. */
  datatype Record = Record(components: seq<Json>)

  predicate Conforms(schema: Schema, r: Record) {
    |r.components| == |schema|
  }

  predicate DistinctNames(schema: Schema) {
    forall i, j :: 0 <= i < j < |schema| ==> schema[i] != schema[j]
  }

  /** Writing a record: one member per component, in declaration order. */
  function WriteRecord(schema: Schema, r: Record): Json
    requires Conforms(schema, r)
  {
    Obj(seq(|schema|, i requires 0 <= i < |schema| => Member(schema[i], r.components[i])))
  }

  /** The first key the record type does not declare. */
  function FirstUndeclared(ms: seq<Member>, schema: Schema): (r: Option<string>)
    ensures r.Some? ==> r.value in Keys(ms) && r.value !in schema
    ensures r.None? ==> forall i :: 0 <= i < |ms| ==> ms[i].key in schema
  {
    if ms == [] then None
    else if ms[0].key !in schema then Some(ms[0].key)
    else FirstUndeclared(ms[1..], schema)
  }

  /**
   * Reading a record: the value must be an object; an undeclared key fails when
   * the mapper fails on unknown properties; a missing component reads as null.
   */
  function ReadRecord(failOnUnknown: bool, schema: Schema, j: Json): Result<Record, PatchError> {
    match j
    case Obj(ms) =>
      if failOnUnknown && FirstUndeclared(ms, schema).Some? then Err(UnknownTargetField(FirstUndeclared(ms, schema).value))
      else Ok(Record(seq(|schema|, i requires 0 <= i < |schema| => Rfc7396.ValueOrNull(Lookup(ms, schema[i])))))
    case _ => Err(TargetTypeMismatch)
  }

  function FailsOnUnknown(m: MapperConfig.Mapper): bool {
    MapperConfig.IsEnabled(m, MapperConfig.FailOnUnknownProperties) == Some(true)
  }

  /** The written tree has exactly the declared names as keys, each with its component. */
  lemma WrittenLookup(schema: Schema, r: Record, k: string)
    requires Conforms(schema, r) && DistinctNames(schema)
    ensures UniqueKeys(WriteRecord(schema, r).members)
    ensures forall i :: 0 <= i < |schema| ==> Lookup(WriteRecord(schema, r).members, schema[i]) == Some(r.components[i])
    ensures k !in schema ==> Lookup(WriteRecord(schema, r).members, k) == None
  {
    var ms := WriteRecord(schema, r).members;
    forall i | 0 <= i < |schema| ensures Lookup(ms, schema[i]) == Some(r.components[i]) {
      LookupAt(ms, i);
    }
    if k in Keys(ms) {
      var i :| 0 <= i < |ms| && Keys(ms)[i] == k;
      assert ms[i].key == schema[i];
    }
  }

  /** Reading back what was written gives the record again. */
  lemma RecordRoundTrip(failOnUnknown: bool, schema: Schema, r: Record)
    requires Conforms(schema, r) && DistinctNames(schema)
    ensures ReadRecord(failOnUnknown, schema, WriteRecord(schema, r)) == Ok(r)
  {
    var ms := WriteRecord(schema, r).members;
    WrittenLookup(schema, r, "");
    assert FirstUndeclared(ms, schema).None? by {
      forall i | 0 <= i < |ms| ensures ms[i].key in schema {
        assert ms[i].key == schema[i];
      }
    }
    var comps := seq(|schema|, i requires 0 <= i < |schema| => Rfc7396.ValueOrNull(Lookup(ms, schema[i])));
    assert comps == r.components;
  }

  /**
   * `applyPatch(T, String, Class<T>, PatchOptions)`: record to tree, the string
   * pipeline, tree to record; a failure of either step is wrapped once more.
   */
  function ApplyPatchToRecord(mapper: MapperConfig.Mapper, schema: Schema, original: Record, patch: Parsed,
                              options: Option<PatchOptions>): Result<Record, ProcessingError>
    requires Conforms(schema, original)
  {
    match ApplyPatch(Some(WriteRecord(schema, original)), patch, options)
    case Err(e) => Err(JsonPatchProcessingException(PatchFailed, Nested(e)))
    case Ok(patched) =>
      match ReadRecord(FailsOnUnknown(mapper), schema, patched)
      case Err(k) => Err(JsonPatchProcessingException(PatchFailed, Nested(JsonPatchProcessingException(ReadFailed, k))))
      case Ok(r) => Ok(r)
  }

  /** `applyMergePatch(T, String, Class<T>)`: the same composition around the merge pipeline. */
  function ApplyMergePatchToRecord(mapper: MapperConfig.Mapper, schema: Schema, original: Record,
                                   patch: Parsed): Result<Record, ProcessingError>
    requires Conforms(schema, original)
  {
    match ApplyMergePatch(Some(WriteRecord(schema, original)), patch)
    case Err(e) => Err(JsonPatchProcessingException(MergeFailed, Nested(e)))
    case Ok(merged) =>
      match ReadRecord(FailsOnUnknown(mapper), schema, merged)
      case Err(k) => Err(JsonPatchProcessingException(MergeFailed, k))
      case Ok(r) => Ok(r)
  }

  /**
   * With the default mapper, whatever callbacks built it, a patch whose tree
   * result has a key the record type does not declare fails at the typed level,
   * although the string-level patch succeeds.
   */
  lemma TypedPatchRejectsUndeclaredKey(cs: seq<MapperConfig.Config>, schema: Schema, original: Record,
                                       patch: Parsed, options: Option<PatchOptions>, k: string)
    requires Conforms(schema, original)
    requires ApplyPatch(Some(WriteRecord(schema, original)), patch, options).Ok?
    requires ApplyPatch(Some(WriteRecord(schema, original)), patch, options).value.Obj?
    requires k in Keys(ApplyPatch(Some(WriteRecord(schema, original)), patch, options).value.members) && k !in schema
    ensures ApplyPatchToRecord(MapperConfig.Build(cs), schema, original, patch, options).Err?
    ensures ApplyPatchToRecord(MapperConfig.Build(cs), schema, original, patch, options).error.cause.Nested?
    ensures ApplyPatchToRecord(MapperConfig.Build(cs), schema, original, patch, options).error.cause.inner.cause.UnknownTargetField?
  {
    MapperConfig.BuildSettings(cs, MapperConfig.FailOnUnknownProperties);
    var ms := ApplyPatch(Some(WriteRecord(schema, original)), patch, options).value.members;
    var i :| 0 <= i < |ms| && ms[i].key == k;
  }

  /** The merge overload likewise fails on an undeclared key in the merged tree. */
  lemma TypedMergeRejectsUndeclaredKey(cs: seq<MapperConfig.Config>, schema: Schema, original: Record,
                                       patch: Parsed, k: string)
    requires Conforms(schema, original)
    requires ApplyMergePatch(Some(WriteRecord(schema, original)), patch).Ok?
    requires k in Keys(ApplyMergePatch(Some(WriteRecord(schema, original)), patch).value.members) && k !in schema
    ensures ApplyMergePatchToRecord(MapperConfig.Build(cs), schema, original, patch) ==
      Err(JsonPatchProcessingException(MergeFailed,
        UnknownTargetField(FirstUndeclared(ApplyMergePatch(Some(WriteRecord(schema, original)), patch).value.members, schema).value)))
  {
    MapperConfig.BuildSettings(cs, MapperConfig.FailOnUnknownProperties);
    var ms := ApplyMergePatch(Some(WriteRecord(schema, original)), patch).value.members;
    var i :| 0 <= i < |ms| && ms[i].key == k;
  }

  /** Merging `{name: null}` into a written record drops that key and keeps every other one. */
  lemma MergeNullIntoRecord(schema: Schema, original: Record, j: nat, k: string)
    requires Conforms(schema, original) && DistinctNames(schema) && j < |schema|
    ensures var merged := Rfc7396.MergePatch(WriteRecord(schema, original), Obj([Member(schema[j], Null)]));
      merged.Obj? &&
      Lookup(merged.members, k) == if k == schema[j] then None else Lookup(WriteRecord(schema, original).members, k)
  {
    var patch := Obj([Member(schema[j], Null)]);
    Rfc7396.MergeKey(WriteRecord(schema, original), patch, k);
  }

  /**
   * A typed merge patch that sets a declared component to null leaves that
   * component null and the others as they were.
   */
  lemma TypedMergeNullsComponent(mapper: MapperConfig.Mapper, schema: Schema, original: Record, j: nat)
    requires Conforms(schema, original) && DistinctNames(schema) && j < |schema|
    ensures var r := ApplyMergePatchToRecord(mapper, schema, original, Some(Obj([Member(schema[j], Null)])));
      r.Ok? && r.value.components == original.components[j := Null]
  {
    var w := WriteRecord(schema, original);
    var patch := Obj([Member(schema[j], Null)]);
    var merged := Rfc7396.MergePatch(w, patch);
    MergeNullIntoRecord(schema, original, j, "");
    assert ApplyMergePatch(Some(w), Some(patch)) == Ok(merged);
    MergedNullDeclared(schema, original, j);
    MergedNullComponents(schema, original, j);
  }

  lemma MergedNullDeclared(schema: Schema, original: Record, j: nat)
    requires Conforms(schema, original) && DistinctNames(schema) && j < |schema|
    ensures var merged := Rfc7396.MergePatch(WriteRecord(schema, original), Obj([Member(schema[j], Null)]));
      merged.Obj? && FirstUndeclared(merged.members, schema).None?
  {
    var merged := Rfc7396.MergePatch(WriteRecord(schema, original), Obj([Member(schema[j], Null)]));
    MergeNullIntoRecord(schema, original, j, "");
    var ms := merged.members;
    forall i | 0 <= i < |ms| ensures ms[i].key in schema {
      LookupIn(ms, ms[i].key) by {
        assert ms[i].key in Keys(ms) by { assert Keys(ms)[i] == ms[i].key; }
      }
      MergeNullIntoRecord(schema, original, j, ms[i].key);
      WrittenLookup(schema, original, ms[i].key);
    }
  }

  lemma MergedNullComponents(schema: Schema, original: Record, j: nat)
    requires Conforms(schema, original) && DistinctNames(schema) && j < |schema|
    ensures var merged := Rfc7396.MergePatch(WriteRecord(schema, original), Obj([Member(schema[j], Null)]));
      merged.Obj? &&
      seq(|schema|, i requires 0 <= i < |schema| => Rfc7396.ValueOrNull(Lookup(merged.members, schema[i])))
        == original.components[j := Null]
  {
    var merged := Rfc7396.MergePatch(WriteRecord(schema, original), Obj([Member(schema[j], Null)]));
    MergeNullIntoRecord(schema, original, j, "");
    var ms := merged.members;
    var comps := seq(|schema|, i requires 0 <= i < |schema| => Rfc7396.ValueOrNull(Lookup(ms, schema[i])));
    forall i | 0 <= i < |schema| ensures comps[i] == original.components[j := Null][i] {
      MergeNullIntoRecord(schema, original, j, schema[i]);
      WrittenLookup(schema, original, schema[i]);
    }
  }

  // ---- The typed overloads against the static mapper state ----

  /**
   * `applyPatch(String, JsonPatch, PatchOptions)`: writing the typed patch (`jsonObjectToString`)
   * takes the default mapper first, so the mapper configuration is frozen from then on,
   * whatever the patch then does.
   */
  method PatchWithTypedPatch(reg: MapperConfig.MapperRegistry, original: Parsed, p: JsonPatchTypes.JsonPatch,
                             options: Option<PatchOptions>) returns (r: Result<Json, ProcessingError>)
    requires reg.Valid()
    modifies reg
    ensures reg.Valid() && reg.frozen && reg.pending == []
    ensures reg.mapper == if old(reg.mapper).Some? then old(reg.mapper) else Some(MapperConfig.Build(old(reg.pending)))
    ensures r == ApplyJsonPatch(original, p, options)
  {
    var _ := reg.GetDefaultMapper();
    r := ApplyJsonPatch(original, p, options);
  }

  /**
   * `applyPatch(T, String, Class<T>, PatchOptions)`: the record is written and read back with
   * the default mapper, which is built and frozen by the first of these calls.
   */
  method PatchRecord(reg: MapperConfig.MapperRegistry, schema: Schema, original: Record, patch: Parsed,
                     options: Option<PatchOptions>) returns (r: Result<Record, ProcessingError>)
    requires reg.Valid() && Conforms(schema, original)
    modifies reg
    ensures reg.Valid() && reg.frozen && reg.pending == []
    ensures reg.mapper == if old(reg.mapper).Some? then old(reg.mapper) else Some(MapperConfig.Build(old(reg.pending)))
    ensures r == ApplyPatchToRecord(reg.mapper.value, schema, original, patch, options)
  {
    var m := reg.GetDefaultMapper();
    r := ApplyPatchToRecord(m, schema, original, patch, options);
  }

  /** `applyMergePatch(T, String, Class<T>)`: the same, around the merge pipeline. */
  method MergeRecord(reg: MapperConfig.MapperRegistry, schema: Schema, original: Record, patch: Parsed)
    returns (r: Result<Record, ProcessingError>)
    requires reg.Valid() && Conforms(schema, original)
    modifies reg
    ensures reg.Valid() && reg.frozen && reg.pending == []
    ensures reg.mapper == if old(reg.mapper).Some? then old(reg.mapper) else Some(MapperConfig.Build(old(reg.pending)))
    ensures r == ApplyMergePatchToRecord(reg.mapper.value, schema, original, patch)
  {
    var m := reg.GetDefaultMapper();
    r := ApplyMergePatchToRecord(m, schema, original, patch);
  }

  /**
   * A typed call freezes the configuration even when it fails: a callback registered
   * afterwards is refused, and the callback registered before it shows in the mapper.
   */
  method TypedCallFreezes(schema: Schema, original: Record, patch: Parsed)
    returns (r: Outcome<PatchError>, indent: Option<bool>)
    requires Conforms(schema, original)
    ensures r == Fail(ConfigurationFrozen) && indent == Some(true)
  {
    var reg := new MapperConfig.MapperRegistry();
    var c := MapperConfig.Configure(MapperConfig.IndentOutput, true);
    var _ := reg.ConfigureMapper(Some(c));
    var _ := MergeRecord(reg, schema, original, patch);
    r := reg.ConfigureMapper(Some(MapperConfig.Configure(MapperConfig.IndentOutput, false)));
    MapperConfig.BuildSettings([c], MapperConfig.IndentOutput);
    assert MapperConfig.LastToSet([c], MapperConfig.IndentOutput, 0);
    indent := MapperConfig.IsEnabled(reg.mapper.value, MapperConfig.IndentOutput);
  }
}
