/**
 * Reference semantics of JSON Patch (RFC 6902), standing in for the JSON-P library
 * call `Json.createPatch(ops).apply(target)`: pointer evaluation (RFC 6901
 * section 4), the six operations (RFC 6902 sections 4.1 to 4.6), and whole-patch
 * application in which any failing operation fails the patch (section 5).
 */
module Rfc6902 {
  import opened Wrappers
  import opened Errors
  import opened JsonTree
  import Pointer
  import JsonPatchTypes

  /** A decoded operation; pointers are already split into reference tokens. */
  datatype PatchOp =
    | AddOp(path: seq<string>, value: Json)
    | RemoveOp(path: seq<string>)
    | ReplaceOp(path: seq<string>, value: Json)
    | MoveOp(from: seq<string>, path: seq<string>)
    | CopyOp(from: seq<string>, path: seq<string>)
    | TestOp(path: seq<string>, value: Json)

  function KindOf(op: PatchOp): JsonPatchTypes.OperationType {
    match op
    case AddOp(_, _) => JsonPatchTypes.Add
    case RemoveOp(_) => JsonPatchTypes.Remove
    case ReplaceOp(_, _) => JsonPatchTypes.Replace
    case MoveOp(_, _) => JsonPatchTypes.Move
    case CopyOp(_, _) => JsonPatchTypes.Copy
    case TestOp(_, _) => JsonPatchTypes.Test
  }

  // ---- Pointer evaluation ----

  /** One step of evaluation: a member of an object, or an element of an array by its index token. */
  function Child(x: Json, t: string): Result<Json, PatchError> {
    match x
    case Obj(ms) =>
      (match Lookup(ms, t)
       case Some(c) => Ok(c)
       case None => Err(PathNotFound))
    case Arr(a) =>
      (match Pointer.ParseIndex(t)
       case Some(i) => if i < |a| then Ok(a[i]) else Err(PathNotFound)
       case None => Err(InvalidPointer))
    case _ => Err(PathNotFound)
  }

  /** The value a pointer's tokens address. */
  function Get(x: Json, ts: seq<string>): Result<Json, PatchError>
    decreases ts
  {
    if ts == [] then Ok(x)
    else
      var c :- Child(x, ts[0]);
      Get(c, ts[1..])
  }

  /** Replaces an existing child in place. */
  function SetChild(x: Json, t: string, c: Json): Json
    requires Child(x, t).Ok?
  {
    match x
    case Obj(ms) => Obj(Put(ms, t, c))
    case Arr(a) => Arr(a[Pointer.ParseIndex(t).value := c])
  }

  // ---- Editing at a location ----

  /** What happens at the target location: insert (add), delete (remove) or overwrite (replace). */
  datatype Edit = Insert(v: Json) | Erase | Overwrite(v: Json)

  /** The edit on the container `x` that holds the target, `t` being the last token. */
  function EditLast(x: Json, t: string, e: Edit): Result<Json, PatchError> {
    match x
    case Obj(ms) =>
      (match e
       case Insert(v) => Ok(Obj(Put(ms, t, v)))
       case Erase => if Lookup(ms, t).Some? then Ok(Obj(Without(ms, t))) else Err(PathNotFound)
       case Overwrite(v) => if Lookup(ms, t).Some? then Ok(Obj(Put(ms, t, v))) else Err(PathNotFound))
    case Arr(a) =>
      if e.Insert? && t == Pointer.NewElement then Ok(Arr(a + [e.v]))
      else
        (match Pointer.ParseIndex(t)
         case None => Err(InvalidPointer)
         case Some(i) =>
           (match e
            case Insert(v) => if i <= |a| then Ok(Arr(a[..i] + [v] + a[i..])) else Err(PathNotFound)
            case Erase => if i < |a| then Ok(Arr(a[..i] + a[i + 1..])) else Err(PathNotFound)
            case Overwrite(v) => if i < |a| then Ok(Arr(a[i := v])) else Err(PathNotFound)))
    case _ => Err(PathNotFound)
  }

  /** Walks to the container of the target and edits it there; nothing outside that path changes. */
  function EditAt(x: Json, ts: seq<string>, e: Edit): Result<Json, PatchError>
    requires ts != []
    decreases ts
  {
    if |ts| == 1 then EditLast(x, ts[0], e)
    else
      match Child(x, ts[0])
      case Err(err) => Err(err)
      case Ok(c) =>
        match EditAt(c, ts[1..], e)
        case Err(err) => Err(err)
        case Ok(c') => Ok(SetChild(x, ts[0], c'))
  }

  /** "add" (section 4.1): the empty pointer replaces the whole document. */
  function AddValue(doc: Json, path: seq<string>, v: Json): Result<Json, PatchError> {
    if path == [] then Ok(v) else EditAt(doc, path, Insert(v))
  }

  /** "remove" (section 4.2): the target must exist; the whole document cannot be removed. */
  function RemoveValue(doc: Json, path: seq<string>): Result<Json, PatchError> {
    if path == [] then Err(InvalidPointer) else EditAt(doc, path, Erase)
  }

  /** "replace" (section 4.3): the target must exist. */
  function ReplaceValue(doc: Json, path: seq<string>, v: Json): Result<Json, PatchError> {
    if path == [] then Ok(v) else EditAt(doc, path, Overwrite(v))
  }

  function ApplyOp(doc: Json, op: PatchOp): Result<Json, PatchError> {
    match op
    case AddOp(path, v) => AddValue(doc, path, v)
    case RemoveOp(path) => RemoveValue(doc, path)
    case ReplaceOp(path, v) => ReplaceValue(doc, path, v)
    case MoveOp(from, path) =>
      // section 4.4: "from" must not be a proper prefix of "path" (a value cannot move into
      // one of its own children); otherwise remove the value at "from", then add it at "path"
      if from < path then Err(MoveIntoDescendant)
      else
      var v :- Get(doc, from);
      var d :- RemoveValue(doc, from);
      AddValue(d, path, v)
    case CopyOp(from, path) =>
      // section 4.5: values are immutable, so the copy is independent of its source
      var v :- Get(doc, from);
      AddValue(doc, path, v)
    case TestOp(path, v) =>
      // section 4.6: compare with JSON-P's value equality
      var actual :- Get(doc, path);
      if Equivalent(v, actual) then Ok(doc) else Err(TestFailed)
  }

  /** The operations in order, each on the result of the previous one; the first failure fails the patch. */
  function ApplyOps(doc: Json, ops: seq<PatchOp>): Result<Json, PatchError>
    decreases ops
  {
    if ops == [] then Ok(doc)
    else
      var d :- ApplyOp(doc, ops[0]);
      ApplyOps(d, ops[1..])
  }

  // ---- Decoding operation objects ----

  function PointerMember(ms: seq<Member>, name: string): Result<seq<string>, PatchError> {
    match Lookup(ms, name)
    case Some(Str(p)) => Pointer.Parse(p)
    case _ => Err(MissingMember(name))
  }

  function ValueMember(ms: seq<Member>): Result<Json, PatchError> {
    match Lookup(ms, "value")
    case Some(v) => Ok(v)
    case None => Err(MissingMember("value"))
  }

  function OpName(ms: seq<Member>): Result<string, PatchError> {
    match Lookup(ms, "op")
    case Some(Str(s)) => Ok(s)
    case _ => Err(MissingMember("op"))
  }

  /** The operation of type `t` on `path`, with the members that type needs. */
  function BuildOp(t: JsonPatchTypes.OperationType, path: seq<string>, ms: seq<Member>): Result<PatchOp, PatchError> {
    match t
    case Add => var v :- ValueMember(ms); Ok(AddOp(path, v))
    case Remove => Ok(RemoveOp(path))
    case Replace => var v :- ValueMember(ms); Ok(ReplaceOp(path, v))
    case Move => var from :- PointerMember(ms, "from"); Ok(MoveOp(from, path))
    case Copy => var from :- PointerMember(ms, "from"); Ok(CopyOp(from, path))
    case Test => var v :- ValueMember(ms); Ok(TestOp(path, v))
  }

  /**
   * Reads one operation object: "path" always, the "op" name ignoring case,
   * "from" for move and copy, "value" for add, replace and test.
   */
  function DecodeOp(j: Json): Result<PatchOp, PatchError> {
    match j
    case Obj(ms) =>
      var path :- PointerMember(ms, "path");
      var name :- OpName(ms);
      (match JsonPatchTypes.Find(JsonPatchTypes.Values, name)
       case None => Err(InvalidOperation(name))
       case Some(t) => BuildOp(t, path, ms))
    case _ => Err(UnsupportedShape)
  }

  function DecodeAll(items: seq<Json>): Result<seq<PatchOp>, PatchError> {
    if items == [] then Ok([])
    else
      var op :- DecodeOp(items[0]);
      var ops :- DecodeAll(items[1..]);
      Ok([op] + ops)
  }

  /** The library's loop: decode an operation, apply it, go on with the next. */
  function Execute(doc: Json, items: seq<Json>): Result<Json, PatchError>
    decreases items
  {
    if items == [] then Ok(doc)
    else
      var op :- DecodeOp(items[0]);
      var d :- ApplyOp(doc, op);
      Execute(d, items[1..])
  }

  // ---- Locality of edits ----

  lemma {:induction false} GetAppend(x: Json, p: seq<string>, t: string)
    ensures Get(x, p + [t]) == match Get(x, p) case Ok(y) => Child(y, t) case Err(e) => Err(e)
    decreases p
  {
    if p == [] {
      assert [] + [t] == [t];
      assert [t][1..] == [];
    } else {
      assert (p + [t])[0] == p[0];
      assert (p + [t])[1..] == p[1..] + [t];
      if Child(x, p[0]).Ok? {
        GetAppend(Child(x, p[0]).value, p[1..], t);
      }
    }
  }

  lemma ChildSetChild(x: Json, t: string, c: Json)
    requires Child(x, t).Ok?
    ensures Child(SetChild(x, t, c), t) == Ok(c)
  {
  }

  /**
   * Editing at `p + [t]` succeeds exactly when `p` resolves and the edit succeeds
   * on the container found there, and the container at `p` is then the edited one.
   */
  lemma {:induction false} EditAtParent(doc: Json, p: seq<string>, t: string, e: Edit)
    ensures EditAt(doc, p + [t], e).Ok? <==> Get(doc, p).Ok? && EditLast(Get(doc, p).value, t, e).Ok?
    ensures EditAt(doc, p + [t], e).Ok? ==>
      Get(EditAt(doc, p + [t], e).value, p) == EditLast(Get(doc, p).value, t, e)
    decreases p
  {
    if p == [] {
      assert [] + [t] == [t];
    } else {
      assert (p + [t])[0] == p[0];
      assert (p + [t])[1..] == p[1..] + [t];
      if Child(doc, p[0]).Ok? {
        var c := Child(doc, p[0]).value;
        EditAtParent(c, p[1..], t, e);
        if EditAt(c, p[1..] + [t], e).Ok? {
          ChildSetChild(doc, p[0], EditAt(c, p[1..] + [t], e).value);
        }
      }
    }
  }

  /** The value just inserted is the child named by the same token (the append token aside). */
  lemma InsertedChild(x: Json, t: string, v: Json)
    requires EditLast(x, t, Insert(v)).Ok? && t != Pointer.NewElement
    ensures Child(EditLast(x, t, Insert(v)).value, t) == Ok(v)
  {
    if x.Arr? {
      var i := Pointer.ParseIndex(t).value;
      assert (x.items[..i] + [v] + x.items[i..])[i] == v;
    }
  }

  /** After an insert at a pointer (the append token aside), the pointer reads as the inserted value. */
  lemma {:induction false} InsertThenGet(doc: Json, ts: seq<string>, v: Json)
    requires ts != [] && ts[|ts| - 1] != Pointer.NewElement && EditAt(doc, ts, Insert(v)).Ok?
    ensures Get(EditAt(doc, ts, Insert(v)).value, ts) == Ok(v)
    decreases ts
  {
    var d := EditAt(doc, ts, Insert(v)).value;
    if |ts| == 1 {
      InsertedChild(doc, ts[0], v);
      assert Get(d, ts) == Child(d, ts[0]);
    } else {
      var c := Child(doc, ts[0]).value;
      var c' := EditAt(c, ts[1..], Insert(v)).value;
      InsertThenGet(c, ts[1..], v);
      ChildSetChild(doc, ts[0], c');
    }
  }

  /** After a successful "add", the pointer addresses the added value. */
  lemma AddThenGet(doc: Json, path: seq<string>, v: Json)
    requires AddValue(doc, path, v).Ok?
    requires path == [] || path[|path| - 1] != Pointer.NewElement
    ensures Get(AddValue(doc, path, v).value, path) == Ok(v)
  {
    if path != [] {
      InsertThenGet(doc, path, v);
    }
  }

  /** "add" needs the parent of the target to exist and to be an object or an array. */
  lemma AddNeedsContainer(doc: Json, p: seq<string>, t: string, v: Json)
    ensures AddValue(doc, p + [t], v).Ok? ==> Get(doc, p).Ok? && IsStructure(Get(doc, p).value)
  {
    EditAtParent(doc, p, t, Insert(v));
  }

  /** The token "-" appends to the array at `p`. */
  lemma AddAppends(doc: Json, p: seq<string>, a: seq<Json>, v: Json)
    requires Get(doc, p) == Ok(Arr(a))
    ensures AddValue(doc, p + [Pointer.NewElement], v).Ok?
    ensures Get(AddValue(doc, p + [Pointer.NewElement], v).value, p) == Ok(Arr(a + [v]))
  {
    EditAtParent(doc, p, Pointer.NewElement, Insert(v));
  }

  /** "add" at index `i` inserts before the element at `i`, shifting the rest; `i` may be the length. */
  lemma AddInsertsAtIndex(doc: Json, p: seq<string>, a: seq<Json>, i: nat, v: Json)
    requires Get(doc, p) == Ok(Arr(a))
    ensures AddValue(doc, p + [Pointer.IndexToken(i)], v).Ok? <==> i <= |a|
    ensures i <= |a| ==>
      Get(AddValue(doc, p + [Pointer.IndexToken(i)], v).value, p) == Ok(Arr(a[..i] + [v] + a[i..]))
  {
    Pointer.ParseIndexToken(i);
    Pointer.NewElementIsNotIndex();
    EditAtParent(doc, p, Pointer.IndexToken(i), Insert(v));
  }

  /** "remove" at index `i` drops that element and shifts the rest left; past the end it fails. */
  lemma RemoveAtIndex(doc: Json, p: seq<string>, a: seq<Json>, i: nat)
    requires Get(doc, p) == Ok(Arr(a))
    ensures RemoveValue(doc, p + [Pointer.IndexToken(i)]).Ok? <==> i < |a|
    ensures i < |a| ==>
      Get(RemoveValue(doc, p + [Pointer.IndexToken(i)]).value, p) == Ok(Arr(a[..i] + a[i + 1..]))
  {
    Pointer.ParseIndexToken(i);
    Pointer.NewElementIsNotIndex();
    EditAtParent(doc, p, Pointer.IndexToken(i), Erase);
  }

  /** "remove" of an object member deletes exactly that member and fails when it is absent. */
  lemma RemoveMember(doc: Json, p: seq<string>, ms: seq<Member>, k: string)
    requires Get(doc, p) == Ok(Obj(ms))
    ensures RemoveValue(doc, p + [k]).Ok? <==> Lookup(ms, k).Some?
    ensures RemoveValue(doc, p + [k]).Ok? ==>
      Get(RemoveValue(doc, p + [k]).value, p) == Ok(Obj(Without(ms, k))) &&
      Get(RemoveValue(doc, p + [k]).value, p + [k]) == Err(PathNotFound)
  {
    EditAtParent(doc, p, k, Erase);
    if RemoveValue(doc, p + [k]).Ok? {
      GetAppend(RemoveValue(doc, p + [k]).value, p, k);
    }
  }

  /** The target of an erase or an overwrite must already exist. */
  lemma ExistingTarget(x: Json, t: string, e: Edit)
    requires !e.Insert?
    ensures EditLast(x, t, e).Ok? <==> Child(x, t).Ok?
  {
  }

  /** "remove" succeeds exactly when its target exists and is not the whole document. */
  lemma RemoveNeedsTarget(doc: Json, path: seq<string>)
    ensures RemoveValue(doc, path).Ok? <==> path != [] && Get(doc, path).Ok?
  {
    if path != [] {
      var p, t := path[..|path| - 1], path[|path| - 1];
      assert path == p + [t];
      EditAtParent(doc, p, t, Erase);
      GetAppend(doc, p, t);
      if Get(doc, p).Ok? {
        ExistingTarget(Get(doc, p).value, t, Erase);
      }
    }
  }

  /** "replace" succeeds exactly when its target exists, and the target then holds the new value. */
  lemma ReplaceNeedsTarget(doc: Json, path: seq<string>, v: Json)
    ensures ReplaceValue(doc, path, v).Ok? <==> Get(doc, path).Ok?
    ensures ReplaceValue(doc, path, v).Ok? ==> Get(ReplaceValue(doc, path, v).value, path) == Ok(v)
  {
    if path != [] {
      var p, t := path[..|path| - 1], path[|path| - 1];
      assert path == p + [t];
      OverwriteAt(doc, p, t, v);
    }
  }

  lemma OverwriteAt(doc: Json, p: seq<string>, t: string, v: Json)
    ensures EditAt(doc, p + [t], Overwrite(v)).Ok? <==> Get(doc, p + [t]).Ok?
    ensures EditAt(doc, p + [t], Overwrite(v)).Ok? ==> Get(EditAt(doc, p + [t], Overwrite(v)).value, p + [t]) == Ok(v)
  {
    EditAtParent(doc, p, t, Overwrite(v));
    GetAppend(doc, p, t);
    if Get(doc, p).Ok? {
      var x := Get(doc, p).value;
      ExistingTarget(x, t, Overwrite(v));
      if EditAt(doc, p + [t], Overwrite(v)).Ok? {
        GetAppend(EditAt(doc, p + [t], Overwrite(v)).value, p, t);
        OverwrittenChild(x, t, v);
      }
    }
  }

  lemma OverwrittenChild(x: Json, t: string, v: Json)
    requires EditLast(x, t, Overwrite(v)).Ok?
    ensures Child(EditLast(x, t, Overwrite(v)).value, t) == Ok(v)
  {
    if x.Arr? {
      assert t != Pointer.NewElement by { Pointer.NewElementIsNotIndex(); }
    }
  }

  // ---- Paths that part at an object ----

  /**
   * `p` and `q` share their first `k` tokens, which lead to an object in `doc`,
   * and then name different members of it.
   */
  ghost predicate DivergeAtObject(doc: Json, p: seq<string>, q: seq<string>, k: nat) {
    k < |p| && k < |q| && p[..k] == q[..k] && p[k] != q[k] &&
    Get(doc, p[..k]).Ok? && Get(doc, p[..k]).value.Obj?
  }

  lemma {:induction false} DivergeAtObjectStep(doc: Json, p: seq<string>, q: seq<string>, k: nat)
    requires DivergeAtObject(doc, p, q, k) && k > 0
    ensures p[0] == q[0] && Child(doc, p[0]).Ok?
    ensures DivergeAtObject(Child(doc, p[0]).value, p[1..], q[1..], k - 1)
  {
    assert p[0] == p[..k][0] == q[..k][0] == q[0];
    assert p[..k][1..] == p[1..][..k - 1];
    assert q[..k][1..] == q[1..][..k - 1];
  }

  /** Editing at `q` leaves every value at a path that parts from `q` at an object unchanged. */
  lemma {:induction false} EditFrame(doc: Json, q: seq<string>, e: Edit, p: seq<string>, k: nat)
    requires q != [] && DivergeAtObject(doc, p, q, k) && EditAt(doc, q, e).Ok?
    ensures Get(EditAt(doc, q, e).value, p) == Get(doc, p)
    decreases k
  {
    var d := EditAt(doc, q, e).value;
    if k == 0 {
      assert p[..0] == [];
      var ms := doc.members;
      if |q| == 1 {
        var ms' := EditLast(doc, q[0], e).value.members;
        assert Lookup(ms', p[0]) == Lookup(ms, p[0]);
      } else {
        assert Lookup(d.members, p[0]) == Lookup(ms, p[0]);
      }
      assert Child(d, p[0]) == Child(doc, p[0]);
    } else {
      DivergeAtObjectStep(doc, p, q, k);
      var c := Child(doc, p[0]).value;
      EditFrame(c, q[1..], e, p[1..], k - 1);
      ChildSetChild(doc, q[0], EditAt(c, q[1..], e).value);
    }
  }

  /** An object on the way to an edited location is still an object afterwards. */
  lemma {:induction false} EditKeepsObjectsAbove(doc: Json, q: seq<string>, e: Edit, j: nat)
    requires q != [] && j < |q| && EditAt(doc, q, e).Ok?
    requires Get(doc, q[..j]).Ok? && Get(doc, q[..j]).value.Obj?
    ensures Get(EditAt(doc, q, e).value, q[..j]).Ok? && Get(EditAt(doc, q, e).value, q[..j]).value.Obj?
    decreases j
  {
    var d := EditAt(doc, q, e).value;
    if j == 0 {
      assert q[..0] == [];
    } else {
      assert q[..j][0] == q[0];
      assert q[..j][1..] == q[1..][..j - 1];
      var c := Child(doc, q[0]).value;
      EditKeepsObjectsAbove(c, q[1..], e, j - 1);
      ChildSetChild(doc, q[0], EditAt(c, q[1..], e).value);
    }
  }

  /**
   * "move" out of an object member to a path that parts from it at an object:
   * the target then holds the moved value and the source no longer exists.
   */
  lemma MoveMovesValue(doc: Json, from: seq<string>, path: seq<string>, k: nat)
    requires DivergeAtObject(doc, from, path, k)
    requires Get(doc, from[..|from| - 1]).Ok? && Get(doc, from[..|from| - 1]).value.Obj?
    requires path[|path| - 1] != Pointer.NewElement
    requires ApplyOp(doc, MoveOp(from, path)).Ok?
    ensures Get(ApplyOp(doc, MoveOp(from, path)).value, path) == Get(doc, from)
    ensures Get(ApplyOp(doc, MoveOp(from, path)).value, from) == Err(PathNotFound)
  {
    var v := Get(doc, from).value;
    var d1 := RemoveValue(doc, from).value;
    var fp, ft := from[..|from| - 1], from[|from| - 1];
    assert from == fp + [ft];
    RemoveMember(doc, fp, Get(doc, fp).value.members, ft);
    AddThenGet(d1, path, v);
    EditKeepsObjectsAbove(doc, from, Erase, k);
    assert DivergeAtObject(d1, from, path, k);
    EditFrame(d1, path, Insert(v), from, k);
  }

  /** "copy" to a path that parts from the source at an object: both locations then hold the value. */
  lemma CopyCopiesValue(doc: Json, from: seq<string>, path: seq<string>, k: nat)
    requires DivergeAtObject(doc, from, path, k)
    requires path[|path| - 1] != Pointer.NewElement
    requires ApplyOp(doc, CopyOp(from, path)).Ok?
    ensures Get(ApplyOp(doc, CopyOp(from, path)).value, path) == Get(doc, from)
    ensures Get(ApplyOp(doc, CopyOp(from, path)).value, from) == Get(doc, from)
  {
    var v := Get(doc, from).value;
    AddThenGet(doc, path, v);
    EditFrame(doc, path, Insert(v), from, k);
  }

  /** "move" and "copy" fail when "from" does not resolve (a move into a descendant fails before that). */
  lemma MoveCopyNeedSource(doc: Json, from: seq<string>, path: seq<string>)
    requires Get(doc, from).Err?
    ensures ApplyOp(doc, MoveOp(from, path)) ==
      if from < path then Err(MoveIntoDescendant) else Err(Get(doc, from).error)
    ensures ApplyOp(doc, CopyOp(from, path)) == Err(Get(doc, from).error)
  {
  }

  /**
   * "move" refuses a "path" below its own "from", whatever the document, and a move that
   * succeeds therefore never had one; "copy" has no such restriction.
   */
  lemma MoveIntoDescendantFails(doc: Json, from: seq<string>, path: seq<string>)
    ensures from < path ==> ApplyOp(doc, MoveOp(from, path)) == Err(MoveIntoDescendant)
    ensures ApplyOp(doc, MoveOp(from, path)).Ok? ==> !(from < path)
  {
  }

  // ---- "test" ----

  lemma {:induction false} GetWellFormed(doc: Json, path: seq<string>)
    requires WellFormed(doc) && Get(doc, path).Ok?
    ensures WellFormed(Get(doc, path).value)
    decreases path
  {
    if path != [] {
      var c := Child(doc, path[0]).value;
      if doc.Obj? {
        LookupIn(doc.members, path[0]);
      }
      GetWellFormed(c, path[1..]);
    }
  }

  /** "test" never changes the document, and fails with TestFailed when the values differ. */
  lemma TestChecksOnly(doc: Json, path: seq<string>, v: Json)
    ensures ApplyOp(doc, TestOp(path, v)).Ok? <==> Get(doc, path).Ok? && Equivalent(v, Get(doc, path).value)
    ensures ApplyOp(doc, TestOp(path, v)).Ok? ==> ApplyOp(doc, TestOp(path, v)).value == doc
    ensures Get(doc, path).Ok? && !Equivalent(v, Get(doc, path).value) ==>
      ApplyOp(doc, TestOp(path, v)) == Err(TestFailed)
  {
  }

  /** Testing a location against its current value succeeds. */
  lemma TestCurrentValue(doc: Json, path: seq<string>)
    requires WellFormed(doc) && Get(doc, path).Ok?
    ensures ApplyOp(doc, TestOp(path, Get(doc, path).value)) == Ok(doc)
  {
    GetWellFormed(doc, path);
    EquivalentReflexive(Get(doc, path).value);
  }

  // ---- Whole patches ----

  /** Operations apply in order: a patch split in two is the second part applied to the result of the first. */
  lemma {:induction false} ApplyOpsConcat(doc: Json, ops1: seq<PatchOp>, ops2: seq<PatchOp>)
    ensures ApplyOps(doc, ops1 + ops2) ==
      match ApplyOps(doc, ops1) case Ok(d) => ApplyOps(d, ops2) case Err(e) => Err(e)
    decreases ops1
  {
    if ops1 == [] {
      assert ops1 + ops2 == ops2;
    } else {
      assert (ops1 + ops2)[0] == ops1[0];
      assert (ops1 + ops2)[1..] == ops1[1..] + ops2;
      if ApplyOp(doc, ops1[0]).Ok? {
        ApplyOpsConcat(ApplyOp(doc, ops1[0]).value, ops1[1..], ops2);
      }
    }
  }

  /** A failing operation fails the whole patch, whatever follows it. */
  lemma ApplyOpsAtomic(doc: Json, ops1: seq<PatchOp>, op: PatchOp, ops2: seq<PatchOp>)
    requires ApplyOps(doc, ops1).Ok? && ApplyOp(ApplyOps(doc, ops1).value, op).Err?
    ensures ApplyOps(doc, ops1 + [op] + ops2) == Err(ApplyOp(ApplyOps(doc, ops1).value, op).error)
  {
    ApplyOpsConcat(doc, ops1, [op] + ops2);
    assert ops1 + [op] + ops2 == ops1 + ([op] + ops2);
  }

  /** A two-operation patch runs its operations one after the other. */
  lemma ApplyTwo(doc: Json, op1: PatchOp, op2: PatchOp, d1: Json, d2: Json)
    requires ApplyOp(doc, op1) == Ok(d1) && ApplyOp(d1, op2) == Ok(d2)
    ensures ApplyOps(doc, [op1, op2]) == Ok(d2)
  {
    assert ApplyOps(d2, []) == Ok(d2);
    assert ApplyOps(d1, [op2]) == Ok(d2) by {
      assert [op2][0] == op2 && [op2][1..] == [];
    }
    assert [op1, op2][0] == op1 && [op1, op2][1..] == [op2];
  }

  /** Removing the element at index `i` and adding one at the same index replaces that element. */
  lemma RemoveThenAddAtIndex(doc: Json, p: seq<string>, a: seq<Json>, i: nat, v: Json)
    requires Get(doc, p) == Ok(Arr(a)) && i < |a|
    ensures ApplyOps(doc, [RemoveOp(p + [Pointer.IndexToken(i)]), AddOp(p + [Pointer.IndexToken(i)], v)]).Ok?
    ensures Get(ApplyOps(doc, [RemoveOp(p + [Pointer.IndexToken(i)]), AddOp(p + [Pointer.IndexToken(i)], v)]).value, p)
      == Ok(Arr(a[i := v]))
  {
    var path := p + [Pointer.IndexToken(i)];
    RemoveAtIndex(doc, p, a, i);
    var d1 := RemoveValue(doc, path).value;
    var a1 := a[..i] + a[i + 1..];
    AddInsertsAtIndex(d1, p, a1, i, v);
    var d2 := AddValue(d1, path, v).value;
    EraseThenInsert(a, i, v);
    ApplyTwo(doc, RemoveOp(path), AddOp(path, v), d1, d2);
  }

  lemma EraseThenInsert(a: seq<Json>, i: nat, v: Json)
    requires i < |a|
    ensures (a[..i] + a[i + 1..])[..i] + [v] + (a[..i] + a[i + 1..])[i..] == a[i := v]
  {
    var a1 := a[..i] + a[i + 1..];
    assert a1[..i] == a[..i];
    assert a1[i..] == a[i + 1..];
  }

  // ---- Undoing edits ----

  /** The document with the value at `ts` replaced by `y`; everything off that path is kept. */
  function Replace(x: Json, ts: seq<string>, y: Json): Json
    requires Get(x, ts).Ok?
    decreases ts
  {
    if ts == [] then y else SetChild(x, ts[0], Replace(Child(x, ts[0]).value, ts[1..], y))
  }

  lemma SetChildTwice(x: Json, t: string, c1: Json, c2: Json)
    requires Child(x, t).Ok?
    ensures Child(SetChild(x, t, c1), t) == Ok(c1)
    ensures SetChild(SetChild(x, t, c1), t, c2) == SetChild(x, t, c2)
  {
    if x.Obj? {
      PutTwice(x.members, t, c1, c2);
    } else {
      var i := Pointer.ParseIndex(t).value;
      assert x.items[i := c1][i := c2] == x.items[i := c2];
    }
  }

  lemma SetChildSame(x: Json, t: string)
    requires Child(x, t).Ok?
    ensures SetChild(x, t, Child(x, t).value) == x
  {
    if x.Obj? {
      PutSame(x.members, t);
    } else {
      var i := Pointer.ParseIndex(t).value;
      assert x.items[i := x.items[i]] == x.items;
    }
  }

  /** Replacing by an equal value gives an equal document. */
  lemma SetChildEquivalent(x: Json, t: string, c: Json)
    requires WellFormed(x) && Child(x, t).Ok? && Equivalent(c, Child(x, t).value)
    ensures Equivalent(SetChild(x, t, c), x)
  {
    match x
    case Obj(ms) =>
      var r := Put(ms, t, c);
      PutKeys(ms, t, c);
      assert |r| == |Keys(r)| == |Keys(ms)| == |ms|;
      assert forall i :: 0 <= i < |r| ==> r[i].key == ms[i].key by {
        forall i | 0 <= i < |r| ensures r[i].key == ms[i].key {
          assert Keys(r)[i] == Keys(ms)[i];
        }
      }
      assert UniqueKeys(r);
      forall i | 0 <= i < |r|
        ensures Lookup(ms, r[i].key).Some? && Equivalent(r[i].value, Lookup(ms, r[i].key).value)
      {
        LookupAt(ms, i);
        LookupAt(r, i);
        EquivalentReflexive(ms[i].value);
      }
    case Arr(a) =>
      var k := Pointer.ParseIndex(t).value;
      forall i | 0 <= i < |a| ensures Equivalent(a[k := c][i], a[i]) {
        if i != k { EquivalentReflexive(a[i]); }
      }
  }

  lemma {:induction false} ReplaceGet(x: Json, ts: seq<string>, y: Json)
    requires Get(x, ts).Ok?
    ensures Get(Replace(x, ts, y), ts) == Ok(y)
    decreases ts
  {
    if ts != [] {
      var c := Child(x, ts[0]).value;
      ReplaceGet(c, ts[1..], y);
      ChildSetChild(x, ts[0], Replace(c, ts[1..], y));
    }
  }

  lemma {:induction false} ReplaceTwice(x: Json, ts: seq<string>, y1: Json, y2: Json)
    requires Get(x, ts).Ok?
    ensures Get(Replace(x, ts, y1), ts).Ok?
    ensures Replace(Replace(x, ts, y1), ts, y2) == Replace(x, ts, y2)
    decreases ts
  {
    ReplaceGet(x, ts, y1);
    if ts != [] {
      var c := Child(x, ts[0]).value;
      var c1 := Replace(c, ts[1..], y1);
      ReplaceTwice(c, ts[1..], y1, y2);
      SetChildTwice(x, ts[0], c1, Replace(c1, ts[1..], y2));
    }
  }

  lemma {:induction false} ReplaceSame(x: Json, ts: seq<string>)
    requires Get(x, ts).Ok?
    ensures Replace(x, ts, Get(x, ts).value) == x
    decreases ts
  {
    if ts != [] {
      ReplaceSame(Child(x, ts[0]).value, ts[1..]);
      SetChildSame(x, ts[0]);
    }
  }

  lemma {:induction false} ReplaceEquivalent(x: Json, ts: seq<string>, y: Json)
    requires WellFormed(x) && Get(x, ts).Ok? && Equivalent(y, Get(x, ts).value)
    ensures Equivalent(Replace(x, ts, y), x)
    decreases ts
  {
    if ts != [] {
      var c := Child(x, ts[0]).value;
      GetWellFormed(x, [ts[0]]);
      assert Get(x, [ts[0]]) == Ok(c);
      ReplaceEquivalent(c, ts[1..], y);
      SetChildEquivalent(x, ts[0], Replace(c, ts[1..], y));
    }
  }

  /** An edit at `p + [t]` is the edit of the container at `p`, put back in place. */
  lemma {:induction false} EditAtReplace(x: Json, p: seq<string>, t: string, e: Edit)
    requires EditAt(x, p + [t], e).Ok?
    ensures Get(x, p).Ok? && EditLast(Get(x, p).value, t, e).Ok?
    ensures EditAt(x, p + [t], e).value == Replace(x, p, EditLast(Get(x, p).value, t, e).value)
    decreases p
  {
    EditAtParent(x, p, t, e);
    if p == [] {
      assert p + [t] == [t];
    } else {
      assert (p + [t])[0] == p[0];
      assert (p + [t])[1..] == p[1..] + [t];
      EditAtReplace(Child(x, p[0]).value, p[1..], t, e);
    }
  }

  /** An edit at `p + [t]` whose container step turns `x` into `y` replaces `x` by `y` at `p`. */
  lemma EditAtStep(doc: Json, p: seq<string>, t: string, e: Edit, x: Json, y: Json)
    requires Get(doc, p) == Ok(x) && EditLast(x, t, e) == Ok(y)
    ensures EditAt(doc, p + [t], e) == Ok(Replace(doc, p, y))
    ensures Get(Replace(doc, p, y), p) == Ok(y)
  {
    EditAtParent(doc, p, t, e);
    EditAtReplace(doc, p, t, e);
    ReplaceGet(doc, p, y);
  }

  /** Two edits at one location whose container steps undo each other restore the document. */
  lemma EditUndo(doc: Json, p: seq<string>, t: string, e1: Edit, e2: Edit, x: Json, y: Json)
    requires Get(doc, p) == Ok(x) && EditLast(x, t, e1) == Ok(y) && EditLast(y, t, e2) == Ok(x)
    ensures EditAt(doc, p + [t], e1).Ok?
    ensures EditAt(EditAt(doc, p + [t], e1).value, p + [t], e2) == Ok(doc)
  {
    EditAtStep(doc, p, t, e1, x, y);
    EditAtStep(Replace(doc, p, y), p, t, e2, y, x);
    ReplaceTwice(doc, p, y, x);
    ReplaceSame(doc, p);
  }

  /** "add" of a new object member followed by "remove" of it gives the document back. */
  lemma AddThenRemoveMember(doc: Json, p: seq<string>, ms: seq<Member>, k: string, v: Json)
    requires Get(doc, p) == Ok(Obj(ms)) && k !in Keys(ms)
    ensures AddValue(doc, p + [k], v).Ok?
    ensures RemoveValue(AddValue(doc, p + [k], v).value, p + [k]) == Ok(doc)
  {
    PutAppends(ms, k, v);
    WithoutAppended(ms, k, v);
    var y := Obj(ms + [Member(k, v)]);
    assert EditLast(Obj(ms), k, Insert(v)) == Ok(y);
    assert EditLast(y, k, Erase) == Ok(Obj(ms));
    EditUndo(doc, p, k, Insert(v), Erase, Obj(ms), y);
  }

  /** "add" at an index up to the length followed by "remove" at it gives the document back. */
  lemma AddThenRemoveAtIndex(doc: Json, p: seq<string>, a: seq<Json>, i: nat, v: Json)
    requires Get(doc, p) == Ok(Arr(a)) && i <= |a|
    ensures AddValue(doc, p + [Pointer.IndexToken(i)], v).Ok?
    ensures RemoveValue(AddValue(doc, p + [Pointer.IndexToken(i)], v).value, p + [Pointer.IndexToken(i)]) == Ok(doc)
  {
    var t := Pointer.IndexToken(i);
    Pointer.ParseIndexToken(i);
    Pointer.NewElementIsNotIndex();
    var b := a[..i] + [v] + a[i..];
    assert b[..i] + b[i + 1..] == a by {
      assert b[..i] == a[..i];
      assert b[i + 1..] == a[i..];
    }
    assert EditLast(Arr(a), t, Insert(v)) == Ok(Arr(b));
    assert EditLast(Arr(b), t, Erase) == Ok(Arr(a));
    EditUndo(doc, p, t, Insert(v), Erase, Arr(a), Arr(b));
  }

  /** A "move" that is not into a descendant is a "remove" followed by an "add" of the value read first. */
  lemma MoveIsRemoveThenAdd(doc: Json, from: seq<string>, path: seq<string>, v: Json, d: Json)
    requires !(from < path) && Get(doc, from) == Ok(v) && RemoveValue(doc, from) == Ok(d)
    ensures ApplyOp(doc, MoveOp(from, path)) == AddValue(d, path, v)
  {
  }

  /** A "move" of member `a` to a fresh name `b` of the same object: the member is renamed and goes last. */
  lemma MoveWithin(doc: Json, p: seq<string>, ms: seq<Member>, a: string, b: string)
    requires Get(doc, p) == Ok(Obj(ms)) && Lookup(ms, a).Some? && b !in Keys(ms)
    ensures ApplyOp(doc, MoveOp(p + [a], p + [b]))
      == Ok(Replace(doc, p, Obj(Without(ms, a) + [Member(b, Lookup(ms, a).value)])))
  {
    var u := Lookup(ms, a).value;
    var w := Without(ms, a);
    var there := w + [Member(b, u)];
    var d1 := Replace(doc, p, Obj(w));
    assert Get(doc, p + [a]) == Ok(u) by {
      GetAppend(doc, p, a);
    }
    assert RemoveValue(doc, p + [a]) == Ok(d1) && Get(d1, p) == Ok(Obj(w)) by {
      assert EditLast(Obj(ms), a, Erase) == Ok(Obj(w));
      EditAtStep(doc, p, a, Erase, Obj(ms), Obj(w));
    }
    assert AddValue(d1, p + [b], u) == Ok(Replace(doc, p, Obj(there))) by {
      assert Lookup(w, b) == Lookup(ms, b) == None;
      PutAppends(w, b, u);
      assert EditLast(Obj(w), b, Insert(u)) == Ok(Obj(there));
      EditAtStep(d1, p, b, Insert(u), Obj(w), Obj(there));
      ReplaceTwice(doc, p, Obj(w), Obj(there));
    }
    assert !(p + [a] < p + [b]);
    MoveIsRemoveThenAdd(doc, p + [a], p + [b], u, d1);
  }

  /** Moving member `a` to the fresh name `b` and back leaves it under `a`, after its siblings. */
  lemma MoveThereAndBack(doc: Json, p: seq<string>, ms: seq<Member>, a: string, b: string)
    requires Get(doc, p) == Ok(Obj(ms)) && Lookup(ms, a).Some? && b !in Keys(ms)
    ensures ApplyOps(doc, [MoveOp(p + [a], p + [b]), MoveOp(p + [b], p + [a])])
      == Ok(Replace(doc, p, Obj(Without(ms, a) + [Member(a, Lookup(ms, a).value)])))
  {
    var u := Lookup(ms, a).value;
    var w := Without(ms, a);
    var there := w + [Member(b, u)];
    var back := w + [Member(a, u)];
    var d2 := Replace(doc, p, Obj(there));
    var d4 := Replace(doc, p, Obj(back));
    MoveWithin(doc, p, ms, a, b);
    assert ApplyOp(d2, MoveOp(p + [b], p + [a])) == Ok(d4) by {
      ReplaceGet(doc, p, Obj(there));
      assert Lookup(w, b) == Lookup(ms, b) == None;
      PutAppends(w, b, u);
      assert Lookup(there, b) == Some(u);
      assert Lookup(there, a) == Lookup(w, a) == None;
      WithoutAppended(w, b, u);
      MoveWithin(d2, p, there, b, a);
      ReplaceTwice(doc, p, Obj(there), Obj(back));
    }
    ApplyTwo(doc, MoveOp(p + [a], p + [b]), MoveOp(p + [b], p + [a]), d2, d4);
  }

  /** Taking a member out and appending it again keeps the same members, in another order. */
  lemma ReinsertedMember(ms: seq<Member>, a: string)
    requires UniqueKeys(ms) && ValuesWellFormed(ms) && Lookup(ms, a).Some?
    ensures WellFormed(Obj(Without(ms, a) + [Member(a, Lookup(ms, a).value)]))
    ensures multiset(Without(ms, a) + [Member(a, Lookup(ms, a).value)]) == multiset(ms)
  {
    var u := Lookup(ms, a).value;
    var w := Without(ms, a);
    LookupIn(ms, a);
    WithoutWellFormed(ms, a);
    PutAppends(w, a, u);
    PutWellFormed(w, a, u);
    WithoutMultiset(ms, a);
  }

  /**
   * Moving an object member to a fresh name and back gives a document equal to the original:
   * the member comes back under its name, only its position among its siblings may differ.
   */
  lemma MoveThenMoveBack(doc: Json, p: seq<string>, ms: seq<Member>, a: string, b: string)
    requires WellFormed(doc) && Get(doc, p) == Ok(Obj(ms))
    requires Lookup(ms, a).Some? && b !in Keys(ms)
    ensures ApplyOps(doc, [MoveOp(p + [a], p + [b]), MoveOp(p + [b], p + [a])]).Ok?
    ensures Equivalent(ApplyOps(doc, [MoveOp(p + [a], p + [b]), MoveOp(p + [b], p + [a])]).value, doc)
  {
    var back := Without(ms, a) + [Member(a, Lookup(ms, a).value)];
    MoveThereAndBack(doc, p, ms, a, b);
    GetWellFormed(doc, p);
    ReinsertedMember(ms, a);
    EquivalentIgnoresMemberOrder(back, ms);
    ReplaceEquivalent(doc, p, Obj(back));
  }

  // ---- Well-formedness is preserved ----

  predicate EditWellFormed(e: Edit) {
    e.Erase? || WellFormed(e.v)
  }

  predicate OpWellFormed(op: PatchOp) {
    match op
    case AddOp(_, v) => WellFormed(v)
    case ReplaceOp(_, v) => WellFormed(v)
    case TestOp(_, v) => WellFormed(v)
    case _ => true
  }

  lemma ArrayEditWellFormed(a: seq<Json>, b: seq<Json>, v: Json)
    requires forall i :: 0 <= i < |a| ==> WellFormed(a[i])
    requires WellFormed(v)
    requires forall y :: y in b ==> y in a || y == v
    ensures WellFormed(Arr(b))
  {
    forall i | 0 <= i < |b| ensures WellFormed(b[i]) {
      assert b[i] in b;
    }
  }

  lemma EditLastWellFormed(x: Json, t: string, e: Edit)
    requires WellFormed(x) && EditWellFormed(e) && EditLast(x, t, e).Ok?
    ensures WellFormed(EditLast(x, t, e).value)
  {
    match x
    case Obj(ms) =>
      if e.Erase? {
        WithoutWellFormed(ms, t);
      } else {
        PutWellFormed(ms, t, e.v);
      }
    case Arr(a) =>
      var b := EditLast(x, t, e).value.items;
      if e.Erase? {
        ArrayEditWellFormed(a, b, Null);
      } else {
        ArrayEditWellFormed(a, b, e.v);
      }
  }

  lemma SetChildWellFormed(x: Json, t: string, c: Json)
    requires WellFormed(x) && WellFormed(c) && Child(x, t).Ok?
    ensures WellFormed(SetChild(x, t, c))
  {
    match x
    case Obj(ms) => PutWellFormed(ms, t, c);
    case Arr(a) => ArrayEditWellFormed(a, SetChild(x, t, c).items, c);
  }

  lemma {:induction false} EditAtWellFormed(x: Json, ts: seq<string>, e: Edit)
    requires ts != [] && WellFormed(x) && EditWellFormed(e) && EditAt(x, ts, e).Ok?
    ensures WellFormed(EditAt(x, ts, e).value)
    decreases ts
  {
    if |ts| == 1 {
      EditLastWellFormed(x, ts[0], e);
    } else {
      var c := Child(x, ts[0]).value;
      GetWellFormed(x, ts[..1]);
      assert Get(x, ts[..1]) == Child(x, ts[0]);
      EditAtWellFormed(c, ts[1..], e);
      SetChildWellFormed(x, ts[0], EditAt(c, ts[1..], e).value);
    }
  }

  lemma ApplyOpWellFormed(doc: Json, op: PatchOp)
    requires WellFormed(doc) && OpWellFormed(op) && ApplyOp(doc, op).Ok?
    ensures WellFormed(ApplyOp(doc, op).value)
  {
    match op
    case AddOp(path, v) =>
      if path != [] { EditAtWellFormed(doc, path, Insert(v)); }
    case RemoveOp(path) =>
      EditAtWellFormed(doc, path, Erase);
    case ReplaceOp(path, v) =>
      if path != [] { EditAtWellFormed(doc, path, Overwrite(v)); }
    case MoveOp(from, path) =>
      assert !(from < path);
      var v := Get(doc, from).value;
      GetWellFormed(doc, from);
      EditAtWellFormed(doc, from, Erase);
      var d := RemoveValue(doc, from).value;
      if path != [] { EditAtWellFormed(d, path, Insert(v)); }
    case CopyOp(from, path) =>
      GetWellFormed(doc, from);
      if path != [] { EditAtWellFormed(doc, path, Insert(Get(doc, from).value)); }
    case TestOp(_, _) =>
  }

  /** Applying a patch to a document without duplicate keys never introduces any. */
  lemma {:induction false} ApplyOpsWellFormed(doc: Json, ops: seq<PatchOp>)
    requires WellFormed(doc) && forall i :: 0 <= i < |ops| ==> OpWellFormed(ops[i])
    ensures ApplyOps(doc, ops).Ok? ==> WellFormed(ApplyOps(doc, ops).value)
    decreases ops
  {
    if ops != [] && ApplyOp(doc, ops[0]).Ok? {
      ApplyOpWellFormed(doc, ops[0]);
      ApplyOpsWellFormed(ApplyOp(doc, ops[0]).value, ops[1..]);
    }
  }

  // ---- Decoding and the library's loop ----

  /** Decoding each item and then applying them in order is what the library's loop computes. */
  lemma {:induction false} ExecuteDecodes(doc: Json, items: seq<Json>)
    ensures DecodeAll(items).Ok? ==> Execute(doc, items) == ApplyOps(doc, DecodeAll(items).value)
    ensures Execute(doc, items).Ok? ==> DecodeAll(items).Ok?
    decreases items
  {
    if items != [] && DecodeOp(items[0]).Ok? {
      var op := DecodeOp(items[0]).value;
      if ApplyOp(doc, op).Ok? {
        ExecuteDecodes(ApplyOp(doc, op).value, items[1..]);
      }
      if DecodeAll(items).Ok? {
        var ops := DecodeAll(items).value;
        assert ops[0] == op && ops[1..] == DecodeAll(items[1..]).value;
      }
    }
  }

  lemma FindToken(t: JsonPatchTypes.OperationType, s: string)
    requires JsonPatchTypes.EqualsIgnoreCase(JsonPatchTypes.JsonValue(t), s)
    ensures JsonPatchTypes.Find(JsonPatchTypes.Values, s) == Some(t)
  {
    JsonPatchTypes.ValuesComplete(t);
    var r := JsonPatchTypes.Find(JsonPatchTypes.Values, s);
    JsonPatchTypes.TokensDistinctIgnoringCase(r.value, t, s);
  }

  lemma BuildOpKind(t: JsonPatchTypes.OperationType, path: seq<string>, ms: seq<Member>)
    requires BuildOp(t, path, ms).Ok?
    ensures KindOf(BuildOp(t, path, ms).value) == t && BuildOp(t, path, ms).value.path == path
  {
  }

  /**
   * The "op" name is matched ignoring case; a name no operation matches fails
   * with InvalidOperation naming it.
   */
  lemma DecodeOpName(ms: seq<Member>, s: string, t: JsonPatchTypes.OperationType)
    requires PointerMember(ms, "path").Ok? && Lookup(ms, "op") == Some(Str(s))
    ensures JsonPatchTypes.EqualsIgnoreCase(JsonPatchTypes.JsonValue(t), s) && DecodeOp(Obj(ms)).Ok? ==>
      KindOf(DecodeOp(Obj(ms)).value) == t
    ensures (forall u :: !JsonPatchTypes.EqualsIgnoreCase(JsonPatchTypes.JsonValue(u), s)) ==>
      DecodeOp(Obj(ms)) == Err(InvalidOperation(s))
  {
    var path := PointerMember(ms, "path").value;
    assert OpName(ms) == Ok(s);
    var r := JsonPatchTypes.Find(JsonPatchTypes.Values, s);
    assert DecodeOp(Obj(ms)) == if r.None? then Err(InvalidOperation(s)) else BuildOp(r.value, path, ms);
    if JsonPatchTypes.EqualsIgnoreCase(JsonPatchTypes.JsonValue(t), s) {
      FindToken(t, s);
      if BuildOp(t, path, ms).Ok? {
        BuildOpKind(t, path, ms);
      }
    }
  }

  lemma DecodeKnownOp(ms: seq<Member>, t: JsonPatchTypes.OperationType, path: seq<string>)
    requires Lookup(ms, "op") == Some(Str(JsonPatchTypes.JsonValue(t))) && PointerMember(ms, "path") == Ok(path)
    ensures DecodeOp(Obj(ms)) == BuildOp(t, path, ms)
  {
    assert OpName(ms) == Ok(JsonPatchTypes.JsonValue(t));
    JsonPatchTypes.EqualsIgnoreCaseReflexive(JsonPatchTypes.JsonValue(t));
    FindToken(t, JsonPatchTypes.JsonValue(t));
  }

  /**
   * An operation record as Jackson writes it, with a type and valid pointers,
   * decodes to an operation of that type on those pointers carrying its value.
   */
  lemma DecodeWrittenOperation(o: JsonPatchTypes.Operation)
    requires o.op.Some? && o.path.Some? && Pointer.Parse(o.path.value).Ok?
    requires o.op.value == JsonPatchTypes.Move || o.op.value == JsonPatchTypes.Copy ==>
      o.from.Some? && Pointer.Parse(o.from.value).Ok?
    ensures var r := DecodeOp(JsonPatchTypes.OperationToJson(o));
      r.Ok? && KindOf(r.value) == o.op.value && r.value.path == Pointer.Parse(o.path.value).value &&
      (r.value.MoveOp? || r.value.CopyOp? ==> r.value.from == Pointer.Parse(o.from.value).value) &&
      (r.value.AddOp? || r.value.ReplaceOp? || r.value.TestOp? ==> r.value.value == o.value)
  {
    JsonPatchTypes.MemberLookups(o);
    DecodeMembers(JsonPatchTypes.OperationToJson(o).members, o);
  }

  /** An object holding an operation's written members decodes as DecodeWrittenOperation states. */
  lemma DecodeMembers(ms: seq<Member>, o: JsonPatchTypes.Operation)
    requires o.op.Some? && o.path.Some? && Pointer.Parse(o.path.value).Ok?
    requires o.op.value == JsonPatchTypes.Move || o.op.value == JsonPatchTypes.Copy ==>
      o.from.Some? && Pointer.Parse(o.from.value).Ok?
    requires Lookup(ms, "op") == Some(JsonPatchTypes.OperationTypeToJson(o.op))
    requires Lookup(ms, "path") == Some(JsonPatchTypes.StringOrNull(o.path))
    requires Lookup(ms, "from") == Some(JsonPatchTypes.StringOrNull(o.from))
    requires Lookup(ms, "value") == Some(o.value)
    ensures var r := DecodeOp(Obj(ms));
      r.Ok? && KindOf(r.value) == o.op.value && r.value.path == Pointer.Parse(o.path.value).value &&
      (r.value.MoveOp? || r.value.CopyOp? ==> r.value.from == Pointer.Parse(o.from.value).value) &&
      (r.value.AddOp? || r.value.ReplaceOp? || r.value.TestOp? ==> r.value.value == o.value)
  {
    var t := o.op.value;
    var path := Pointer.Parse(o.path.value).value;
    DecodeKnownOp(ms, t, path);
    assert ValueMember(ms) == Ok(o.value);
    if t == JsonPatchTypes.Move || t == JsonPatchTypes.Copy {
      assert PointerMember(ms, "from") == Pointer.Parse(o.from.value);
    }
    BuildOpKind(t, path, ms);
  }

  /** Each item decodes to an operation of the given type. */
  predicate DecodesWithKinds(items: seq<Json>, kinds: seq<JsonPatchTypes.OperationType>) {
    |items| == |kinds| &&
    forall i :: 0 <= i < |items| ==> DecodeOp(items[i]).Ok? && KindOf(DecodeOp(items[i]).value) == kinds[i]
  }

  /** Decoding a list decodes each item on its own, keeping count, order and types. */
  lemma {:induction false} DecodeAllKinds(items: seq<Json>, kinds: seq<JsonPatchTypes.OperationType>)
    requires DecodesWithKinds(items, kinds)
    ensures DecodeAll(items).Ok? && |DecodeAll(items).value| == |items|
    ensures forall i :: 0 <= i < |items| ==> KindOf(DecodeAll(items).value[i]) == kinds[i]
    decreases items
  {
    if items != [] {
      assert DecodesWithKinds(items[1..], kinds[1..]) by {
        forall i | 0 <= i < |items[1..]|
          ensures DecodeOp(items[1..][i]).Ok? && KindOf(DecodeOp(items[1..][i]).value) == kinds[1..][i]
        {
          assert items[1..][i] == items[i + 1];
        }
      }
      DecodeAllKinds(items[1..], kinds[1..]);
      var ops := DecodeAll(items).value;
      forall i | 0 <= i < |items| ensures KindOf(ops[i]) == kinds[i] {
        if i > 0 {
          assert ops[i] == DecodeAll(items[1..]).value[i - 1];
        }
      }
    }
  }
}
