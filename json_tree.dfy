/**
 * The in-memory JSON value the patch engine works on: null, booleans, integer
 * numbers, strings, arrays and objects. An object is an ordered list of members;
 * a well-formed object has pairwise distinct keys.
 */
module JsonTree {
  import opened Wrappers

  datatype Json =
    | Null
    | Bool(b: bool)
    | Num(n: int)
    | Str(s: string)
    | Arr(items: seq<Json>)
    | Obj(members: seq<Member>)

  datatype Member = Member(key: string, value: Json)

  /** A JSON structure, the kind of value a JSON reader's `read()` yields: an object or an array. */
  predicate IsStructure(j: Json) {
    j.Arr? || j.Obj?
  }

  function Keys(ms: seq<Member>): (ks: seq<string>)
    ensures |ks| == |ms|
    ensures forall i :: 0 <= i < |ms| ==> ks[i] == ms[i].key
  {
    if ms == [] then [] else [ms[0].key] + Keys(ms[1..])
  }

  predicate UniqueKeys(ms: seq<Member>) {
    forall i, j :: 0 <= i < j < |ms| ==> ms[i].key != ms[j].key
  }

  /** Every object inside the value, at any depth, has pairwise distinct keys. */
  predicate WellFormed(j: Json) {
    match j
    case Arr(items) => forall i :: 0 <= i < |items| ==> WellFormed(items[i])
    case Obj(ms) => UniqueKeys(ms) && forall i :: 0 <= i < |ms| ==> WellFormed(ms[i].value)
    case _ => true
  }

  predicate ValuesWellFormed(ms: seq<Member>) {
    forall i :: 0 <= i < |ms| ==> WellFormed(ms[i].value)
  }

  /** The value of the first member named `k`, as `JsonObject.get` finds it. */
  function Lookup(ms: seq<Member>, k: string): (r: Option<Json>)
    ensures r.None? <==> k !in Keys(ms)
  {
    if ms == [] then None
    else if ms[0].key == k then Some(ms[0].value)
    else Lookup(ms[1..], k)
  }

  lemma {:induction false} LookupAt(ms: seq<Member>, i: nat)
    requires UniqueKeys(ms) && i < |ms|
    ensures Lookup(ms, ms[i].key) == Some(ms[i].value)
  {
    if i > 0 {
      assert ms[0].key != ms[i].key;
      assert ms[1..][i - 1] == ms[i];
      LookupAt(ms[1..], i - 1);
    }
  }

  lemma {:induction false} LookupIn(ms: seq<Member>, k: string)
    requires Lookup(ms, k).Some?
    ensures Member(k, Lookup(ms, k).value) in ms
    ensures ValuesWellFormed(ms) ==> WellFormed(Lookup(ms, k).value)
  {
    if ms[0].key != k {
      LookupIn(ms[1..], k);
    }
  }

  /**
   * Sets member `k` to `v`: an existing member is overwritten where it stands,
   * a new one is appended at the end.
   */
  function Put(ms: seq<Member>, k: string, v: Json): (r: seq<Member>)
    ensures Lookup(r, k) == Some(v)
    ensures forall k' :: k' != k ==> Lookup(r, k') == Lookup(ms, k')
  {
    if ms == [] then [Member(k, v)]
    else if ms[0].key == k then [Member(k, v)] + ms[1..]
    else [ms[0]] + Put(ms[1..], k, v)
  }

  /** Overwriting keeps every key at its position. */
  lemma {:induction false} PutKeys(ms: seq<Member>, k: string, v: Json)
    requires k in Keys(ms)
    ensures Keys(Put(ms, k, v)) == Keys(ms)
  {
    var rest := ms[1..];
    var r := Put(ms, k, v);
    assert r[1..] == (if ms[0].key == k then rest else Put(rest, k, v));
    if ms[0].key != k {
      PutKeys(rest, k, v);
    }
  }

  /** A new key goes to the end. */
  lemma {:induction false} PutAppends(ms: seq<Member>, k: string, v: Json)
    requires k !in Keys(ms)
    ensures Put(ms, k, v) == ms + [Member(k, v)]
  {
    if ms != [] {
      var rest, m := ms[1..], Member(k, v);
      assert Keys(ms) == [ms[0].key] + Keys(rest);
      PutAppends(rest, k, v);
      assert Put(ms, k, v) == [ms[0]] + (rest + [m]);
      assert [ms[0]] + (rest + [m]) == ms + [m];
    }
  }

  lemma {:induction false} PutWellFormed(ms: seq<Member>, k: string, v: Json)
    requires UniqueKeys(ms) && ValuesWellFormed(ms) && WellFormed(v)
    ensures UniqueKeys(Put(ms, k, v)) && ValuesWellFormed(Put(ms, k, v))
  {
    if ms != [] {
      var rest := ms[1..];
      var r := Put(ms, k, v);
      if ms[0].key == k {
        forall j | 0 < j < |r| ensures r[j] == ms[j] {
        }
      } else {
        PutWellFormed(rest, k, v);
        var r' := Put(rest, k, v);
        assert ms[0].key !in Keys(rest) by {
          forall j | 0 <= j < |rest| ensures Keys(rest)[j] != ms[0].key {
            assert rest[j] == ms[j + 1];
          }
        }
        assert Lookup(r', ms[0].key) == None;
        forall j | 0 <= j < |r'| ensures r'[j].key != ms[0].key {
          assert Keys(r')[j] == r'[j].key;
        }
        assert r == [ms[0]] + r';
      }
    }
  }

  /** Removes member `k`, keeping the order of the others. */
  function Without(ms: seq<Member>, k: string): (r: seq<Member>)
    ensures Lookup(r, k) == None
    ensures forall k' :: k' != k ==> Lookup(r, k') == Lookup(ms, k')
  {
    if ms == [] then []
    else if ms[0].key == k then Without(ms[1..], k)
    else [ms[0]] + Without(ms[1..], k)
  }

  lemma {:induction false} WithoutAbsent(ms: seq<Member>, k: string)
    requires k !in Keys(ms)
    ensures Without(ms, k) == ms
  {
    if ms != [] {
      WithoutAbsent(ms[1..], k);
    }
  }

  lemma {:induction false} WithoutSubset(ms: seq<Member>, k: string, m: Member)
    requires m in Without(ms, k)
    ensures m in ms[..]
  {
    if ms != [] && m != ms[0] {
      WithoutSubset(ms[1..], k, m);
    }
  }

  lemma {:induction false} WithoutWellFormed(ms: seq<Member>, k: string)
    requires UniqueKeys(ms) && ValuesWellFormed(ms)
    ensures UniqueKeys(Without(ms, k)) && ValuesWellFormed(Without(ms, k))
    ensures k in Keys(ms) ==> |Without(ms, k)| == |ms| - 1
  {
    if ms != [] {
      var rest := ms[1..];
      WithoutWellFormed(rest, k);
      if ms[0].key == k {
        assert k !in Keys(rest) by {
          forall j | 0 <= j < |rest| ensures Keys(rest)[j] != k {
            assert rest[j] == ms[j + 1];
          }
        }
        WithoutAbsent(rest, k);
      } else {
        var r' := Without(rest, k);
        forall m | m in r' ensures m.key != ms[0].key && WellFormed(m.value) {
          WithoutSubset(rest, k, m);
          var j :| 0 <= j < |rest| && rest[j] == m;
          assert ms[j + 1] == m;
        }
        assert k in Keys(ms) ==> k in Keys(rest);
      }
    }
  }

  /** Putting back the value a key already has changes nothing. */
  lemma {:induction false} PutSame(ms: seq<Member>, k: string)
    requires Lookup(ms, k).Some?
    ensures Put(ms, k, Lookup(ms, k).value) == ms
  {
    if ms[0].key != k {
      PutSame(ms[1..], k);
    }
  }

  /** The second of two puts on one key wins. */
  lemma {:induction false} PutTwice(ms: seq<Member>, k: string, a: Json, b: Json)
    ensures Put(Put(ms, k, a), k, b) == Put(ms, k, b)
  {
    if ms == [] {
      assert [Member(k, a)][1..] == [];
    } else if ms[0].key == k {
      assert ([Member(k, a)] + ms[1..])[1..] == ms[1..];
    } else {
      PutTwice(ms[1..], k, a, b);
      assert Put(ms, k, a)[1..] == Put(ms[1..], k, a);
    }
  }

  /** Removing the member just appended gives the list back. */
  lemma {:induction false} WithoutAppended(ms: seq<Member>, k: string, v: Json)
    requires k !in Keys(ms)
    ensures Without(ms + [Member(k, v)], k) == ms
  {
    if ms == [] {
      assert [Member(k, v)][1..] == [];
    } else {
      assert (ms + [Member(k, v)])[1..] == ms[1..] + [Member(k, v)];
      assert Keys(ms) == [ms[0].key] + Keys(ms[1..]);
      WithoutAppended(ms[1..], k, v);
      assert ms == [ms[0]] + ms[1..];
    }
  }

  /** Removing a present key takes exactly its member out of the list. */
  lemma {:induction false} WithoutMultiset(ms: seq<Member>, k: string)
    requires UniqueKeys(ms) && Lookup(ms, k).Some?
    ensures multiset(Without(ms, k)) + multiset{Member(k, Lookup(ms, k).value)} == multiset(ms)
  {
    var rest := ms[1..];
    assert ms == [ms[0]] + rest;
    if ms[0].key == k {
      assert k !in Keys(rest) by {
        forall j | 0 <= j < |rest| ensures Keys(rest)[j] != k {
          assert rest[j] == ms[j + 1];
        }
      }
      WithoutAbsent(rest, k);
    } else {
      WithoutMultiset(rest, k);
    }
  }

  /**
   * Value equality as JSON-P's `equals` defines it: arrays element by element in
   * order, objects as maps (same number of members, and every member of `a` has an
   * equivalent value under the same key in `b`, wherever it stands), scalars by value.
   */
  predicate Equivalent(a: Json, b: Json) {
    match a
    case Arr(xs) =>
      b.Arr? && |xs| == |b.items| &&
      forall i :: 0 <= i < |xs| ==> Equivalent(xs[i], b.items[i])
    case Obj(ms) =>
      b.Obj? && |ms| == |b.members| &&
      forall i :: 0 <= i < |ms| ==>
        Lookup(b.members, ms[i].key).Some? && Equivalent(ms[i].value, Lookup(b.members, ms[i].key).value)
    case _ => a == b
  }

  lemma {:induction false} EquivalentReflexive(a: Json)
    requires WellFormed(a)
    ensures Equivalent(a, a)
  {
    match a
    case Arr(xs) =>
      forall i | 0 <= i < |xs| ensures Equivalent(xs[i], xs[i]) {
        EquivalentReflexive(xs[i]);
      }
    case Obj(ms) =>
      forall i | 0 <= i < |ms|
        ensures Lookup(ms, ms[i].key) == Some(ms[i].value) && Equivalent(ms[i].value, ms[i].value)
      {
        LookupAt(ms, i);
        EquivalentReflexive(ms[i].value);
      }
    case _ =>
  }

  /** In a list with unique keys, every member is what its key looks up to. */
  lemma MemberLookup(ms: seq<Member>, m: Member)
    requires UniqueKeys(ms) && m in ms
    ensures Lookup(ms, m.key) == Some(m.value)
  {
    var j :| 0 <= j < |ms| && ms[j] == m;
    LookupAt(ms, j);
  }

  /** Member order does not matter to equality: two objects with the same members, in any order, are equal. */
  lemma EquivalentIgnoresMemberOrder(ms: seq<Member>, ns: seq<Member>)
    requires WellFormed(Obj(ms)) && WellFormed(Obj(ns)) && multiset(ms) == multiset(ns)
    ensures Equivalent(Obj(ms), Obj(ns))
  {
    assert |ms| == |multiset(ms)| == |multiset(ns)| == |ns|;
    forall i | 0 <= i < |ms|
      ensures Lookup(ns, ms[i].key) == Some(ms[i].value) && Equivalent(ms[i].value, ms[i].value)
    {
      assert ms[i] in multiset(ns);
      MemberLookup(ns, ms[i]);
      EquivalentReflexive(ms[i].value);
    }
  }
}
