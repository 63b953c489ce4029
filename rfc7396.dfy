/**
 * JSON Merge Patch (RFC 7396), standing in for the JSON-P library call
 * `Json.createMergePatch(patch).apply(target)`.
 */
module Rfc7396 {
  import opened Wrappers
  import opened JsonTree

  function ValueOrNull(o: Option<Json>): Json {
    match o
    case Some(v) => v
    case None => Null
  }

  /**
   * The algorithm of section 2 of RFC 7396: a non-object patch replaces the
   * target; an object patch is merged member by member into the target, or
   * into an empty object when the target is not an object.
   */
  function MergePatch(target: Json, patch: Json): Json
    decreases patch, if patch.Obj? then |patch.members| + 1 else 0
  {
    if patch.Obj? then Obj(MergeFrom(if target.Obj? then target.members else [], patch, 0))
    else patch
  }

  /** The members of `patch` from position `i` on, merged into `tms` in order. */
  function MergeFrom(tms: seq<Member>, patch: Json, i: nat): seq<Member>
    requires patch.Obj? && i <= |patch.members|
    decreases patch, |patch.members| - i
  {
    if i == |patch.members| then tms
    else
      var m := patch.members[i];
      assert m in patch.members;
      var next :=
        if m.value == Null then Without(tms, m.key)
        else Put(tms, m.key, MergePatch(ValueOrNull(Lookup(tms, m.key)), m.value));
      MergeFrom(next, patch, i + 1)
  }

  /** What one patch member does to the value under its key. */
  function MergeMember(prior: Option<Json>, change: Option<Json>): Option<Json> {
    match change
    case None => prior
    case Some(Null) => None
    case Some(v) => Some(MergePatch(ValueOrNull(prior), v))
  }

  lemma {:induction false} MergeFromKey(tms: seq<Member>, patch: Json, i: nat, k: string)
    requires patch.Obj? && i <= |patch.members| && UniqueKeys(patch.members)
    ensures Lookup(MergeFrom(tms, patch, i), k) == MergeMember(Lookup(tms, k), Lookup(patch.members[i..], k))
    decreases |patch.members| - i
  {
    var pms := patch.members;
    if i < |pms| {
      var m := pms[i];
      var next :=
        if m.value == Null then Without(tms, m.key)
        else Put(tms, m.key, MergePatch(ValueOrNull(Lookup(tms, m.key)), m.value));
      assert pms[i..][0] == m && pms[i..][1..] == pms[i + 1..];
      MergeFromKey(next, patch, i + 1, k);
      if m.key == k {
        var rest := pms[i + 1..];
        assert k !in Keys(rest) by {
          forall j | 0 <= j < |rest| ensures Keys(rest)[j] != k {
            assert rest[j] == pms[i + 1 + j];
          }
        }
      }
    }
  }

  /**
   * Each key of the result: untouched when the patch does not mention it, gone
   * when the patch sets it to null, and otherwise the patch value merged into
   * the prior value (replacing it outright unless the patch value is an object).
   */
  lemma MergeKey(target: Json, patch: Json, k: string)
    requires patch.Obj? && UniqueKeys(patch.members)
    ensures MergePatch(target, patch).Obj?
    ensures Lookup(MergePatch(target, patch).members, k) ==
      MergeMember(if target.Obj? then Lookup(target.members, k) else None, Lookup(patch.members, k))
  {
    MergeFromKey(if target.Obj? then target.members else [], patch, 0, k);
    assert patch.members[0..] == patch.members;
  }

  lemma {:induction false} MergeWellFormed(target: Json, patch: Json)
    requires WellFormed(target) && WellFormed(patch)
    ensures WellFormed(MergePatch(target, patch))
    decreases patch, if patch.Obj? then |patch.members| + 1 else 0
  {
    if patch.Obj? {
      MergeFromWellFormed(if target.Obj? then target.members else [], patch, 0);
    }
  }

  lemma {:induction false} MergeFromWellFormed(tms: seq<Member>, patch: Json, i: nat)
    requires patch.Obj? && i <= |patch.members| && WellFormed(patch)
    requires UniqueKeys(tms) && ValuesWellFormed(tms)
    ensures UniqueKeys(MergeFrom(tms, patch, i)) && ValuesWellFormed(MergeFrom(tms, patch, i))
    decreases patch, |patch.members| - i
  {
    var pms := patch.members;
    if i < |pms| {
      var m := pms[i];
      assert WellFormed(m.value);
      if m.value == Null {
        WithoutWellFormed(tms, m.key);
        MergeFromWellFormed(Without(tms, m.key), patch, i + 1);
      } else {
        var prior := ValueOrNull(Lookup(tms, m.key));
        if Lookup(tms, m.key).Some? {
          LookupIn(tms, m.key);
        }
        MergeWellFormed(prior, m.value);
        var v := MergePatch(prior, m.value);
        PutWellFormed(tms, m.key, v);
        MergeFromWellFormed(Put(tms, m.key, v), patch, i + 1);
      }
    }
  }

  // ---- Idempotence ----

  /** Member `m` of a patch would leave `tms` as it is. */
  ghost predicate Settled(tms: seq<Member>, m: Member) {
    if m.value == Null then m.key !in Keys(tms)
    else Lookup(tms, m.key).Some? && MergePatch(Lookup(tms, m.key).value, m.value) == Lookup(tms, m.key).value
  }

  lemma {:induction false} MergeFromSettled(tms: seq<Member>, patch: Json, i: nat)
    requires patch.Obj? && i <= |patch.members|
    requires forall j :: i <= j < |patch.members| ==> Settled(tms, patch.members[j])
    ensures MergeFrom(tms, patch, i) == tms
    decreases |patch.members| - i
  {
    var pms := patch.members;
    if i < |pms| {
      var m := pms[i];
      assert Settled(tms, m);
      if m.value == Null {
        WithoutAbsent(tms, m.key);
      } else {
        PutSame(tms, m.key);
      }
      MergeFromSettled(tms, patch, i + 1);
    }
  }

  /** Applying the same merge patch twice gives what applying it once gives. */
  lemma {:induction false} MergeIdempotent(target: Json, patch: Json)
    requires WellFormed(patch)
    ensures MergePatch(MergePatch(target, patch), patch) == MergePatch(target, patch)
    decreases patch
  {
    if patch.Obj? {
      var pms := patch.members;
      var r := MergePatch(target, patch);
      forall j | 0 <= j < |pms| ensures Settled(r.members, pms[j]) {
        var m := pms[j];
        assert m in pms;
        LookupAt(pms, j);
        MergeKey(target, patch, m.key);
        if m.value != Null {
          var prior := if target.Obj? then Lookup(target.members, m.key) else None;
          MergeIdempotent(ValueOrNull(prior), m.value);
        }
      }
      MergeFromSettled(r.members, patch, 0);
    }
  }
}
