/**
 * The records of JsonPatch.java: the enum `OperationType` with its lower-case
 * wire tokens and case-insensitive reader, and the `JsonPatch`/`Operation` records
 * together with the way Jackson writes and reads them (a patch is written as the
 * bare array of its operations).
 */
module JsonPatchTypes {
  import opened Wrappers
  import opened Errors
  import opened JsonTree
  import Pointer

  datatype OperationType = Add | Remove | Replace | Move | Copy | Test

  /** `values()`: the declaration order, which is the order `fromJson` scans. */
  const Values: seq<OperationType> := [Add, Remove, Replace, Move, Copy, Test]

  /** `jsonValue()`: the wire token of an operation type. */
  function JsonValue(t: OperationType): string {
    match t
    case Add => "add"
    case Remove => "remove"
    case Replace => "replace"
    case Move => "move"
    case Copy => "copy"
    case Test => "test"
  }

  /** `toString()`. */
  function ToString(t: OperationType): string {
    JsonValue(t)
  }

  /**
   * The case folding of `String.equalsIgnoreCase`, which compares `toUpperCase` and then
   * `toLowerCase` of that, as far as it reaches the letters a-z: an ASCII letter folds to its
   * lower case, and so do the four other characters whose Java case mapping lands on one
   * (long s U+017F and dotless i U+0131 upper-case to S and I; dotted capital I U+0130 and
   * the Kelvin sign U+212A lower-case to i and k).
   */
  function Fold(c: char): char {
    if 'A' <= c <= 'Z' then (c as int + 32) as char
    else if c == '\U{017F}' then 's'
    else if c == '\U{0131}' || c == '\U{0130}' then 'i'
    else if c == '\U{212A}' then 'k'
    else c
  }

  predicate IsLowerCase(s: string) {
    forall i :: 0 <= i < |s| ==> 'a' <= s[i] <= 'z'
  }

  /** `String.equalsIgnoreCase` when one side is lower-case ASCII, as the six tokens are. */
  predicate EqualsIgnoreCase(a: string, b: string) {
    |a| == |b| && forall i :: 0 <= i < |a| ==> Fold(a[i]) == Fold(b[i])
  }

  /**
   * Exactly the characters Java's `equalsIgnoreCase` takes for a given letter a-z fold to it:
   * the letter itself, its capital, and the four special characters above.
   */
  lemma FoldOntoLetter(c: char, x: char)
    requires 'a' <= x <= 'z'
    ensures Fold(c) == x <==>
      c == x || c as int == x as int - 32 ||
      (x == 's' && c == '\U{017F}') || (x == 'i' && (c == '\U{0131}' || c == '\U{0130}')) ||
      (x == 'k' && c == '\U{212A}')
  {
  }

  /** The scan of `fromJson`: the first type, in the order given, whose token matches ignoring case. */
  function Find(types: seq<OperationType>, value: string): (r: Option<OperationType>)
    ensures r.Some? ==> r.value in types && EqualsIgnoreCase(JsonValue(r.value), value)
    ensures r.None? <==> forall t :: t in types ==> !EqualsIgnoreCase(JsonValue(t), value)
  {
    if types == [] then None
    else if EqualsIgnoreCase(JsonValue(types[0]), value) then Some(types[0])
    else Find(types[1..], value)
  }

  const UnknownOperationTypeMessage: string := "Unknown operation type: "

  datatype IllegalArgument = IllegalArgumentException(message: string)

  /** `fromJson`: null reads as null; otherwise the matching type, or an error naming the token. */
  function FromJson(value: Option<string>): Result<Option<OperationType>, IllegalArgument> {
    match value
    case None => Ok(None)
    case Some(v) =>
      match Find(Values, v)
      case Some(t) => Ok(Some(t))
      case None => Err(IllegalArgumentException(UnknownOperationTypeMessage + v))
  }

  lemma ValuesComplete(t: OperationType)
    ensures t in Values
  {
    assert Values[0] == Add && Values[1] == Remove && Values[2] == Replace;
    assert Values[3] == Move && Values[4] == Copy && Values[5] == Test;
  }

  lemma TokensAreLowerCase(t: OperationType)
    ensures |JsonValue(t)| > 0 && IsLowerCase(JsonValue(t))
  {
  }

  lemma JsonValueInjective(a: OperationType, b: OperationType)
    requires JsonValue(a) == JsonValue(b)
    ensures a == b
  {
  }

  /** No text matches two of the six tokens, even ignoring case. */
  lemma TokensDistinctIgnoringCase(a: OperationType, b: OperationType, s: string)
    requires EqualsIgnoreCase(JsonValue(a), s) && EqualsIgnoreCase(JsonValue(b), s)
    ensures a == b
  {
    var x, y := JsonValue(a), JsonValue(b);
    TokensAreLowerCase(a);
    TokensAreLowerCase(b);
    forall i | 0 <= i < |x| ensures x[i] == y[i] {
      assert Fold(x[i]) == Fold(s[i]) == Fold(y[i]);
    }
    assert x == y;
    JsonValueInjective(a, b);
  }

  /** The order of the scan cannot change its result: at most one type matches. */
  lemma FindOrderIrrelevant(order: seq<OperationType>, s: string)
    requires forall t: OperationType :: t in order
    ensures Find(order, s) == Find(Values, s)
  {
    var r1, r2 := Find(order, s), Find(Values, s);
    forall t: OperationType ensures t in Values {
      ValuesComplete(t);
    }
    if r1.Some? {
      assert r2.Some?;
      TokensDistinctIgnoringCase(r1.value, r2.value, s);
    }
  }

  lemma EqualsIgnoreCaseReflexive(s: string)
    ensures EqualsIgnoreCase(s, s)
  {
  }

  /** Reading a written token gives back the type: fromJson(jsonValue(t)) == fromJson(toString(t)) == t. */
  lemma FromJsonJsonValue(t: OperationType)
    ensures FromJson(Some(JsonValue(t))) == Ok(Some(t))
    ensures FromJson(Some(ToString(t))) == Ok(Some(t))
  {
    FromJsonIgnoresCase(t, JsonValue(t));
  }

  /** Java's case folding reaches beyond ASCII: "teſt", with a long s, reads as "test". */
  lemma FromJsonLongS()
    ensures FromJson(Some("te\U{017F}t")) == Ok(Some(Test))
  {
    var s := "te\U{017F}t";
    assert JsonValue(Test) == "test";
    assert EqualsIgnoreCase("test", s) by {
      assert Fold(s[0]) == 't' && Fold(s[1]) == 'e' && Fold(s[2]) == 's' && Fold(s[3]) == 't';
    }
    FromJsonIgnoresCase(Test, s);
  }

  /** Any casing of a token reads as its type. */
  lemma FromJsonIgnoresCase(t: OperationType, s: string)
    requires EqualsIgnoreCase(JsonValue(t), s)
    ensures FromJson(Some(s)) == Ok(Some(t))
  {
    ValuesComplete(t);
    var r := Find(Values, s);
    TokensDistinctIgnoringCase(t, r.value, s);
  }

  lemma FromJsonNull()
    ensures FromJson(None) == Ok(None)
  {
  }

  /** A token that is none of the six, in any casing, is refused with a message naming it. */
  lemma FromJsonUnknown(s: string)
    ensures FromJson(Some(s)).Err? <==> forall t: OperationType :: !EqualsIgnoreCase(JsonValue(t), s)
    ensures FromJson(Some(s)).Err? ==>
      FromJson(Some(s)).error == IllegalArgumentException(UnknownOperationTypeMessage + s)
  {
    forall t: OperationType ensures t in Values {
      ValuesComplete(t);
    }
  }

  // ---- The JsonPatch and Operation records ----

  /** `Operation(op, path, from, value)`; the reference fields may be null (None), a null value is Null. */
  datatype Operation = Operation(op: Option<OperationType>, path: Option<string>, from: Option<string>, value: Json)

  /** `JsonPatch(operations)`. */
  datatype JsonPatch = JsonPatch(operations: seq<Operation>)

  function StringOrNull(s: Option<string>): Json {
    match s
    case None => Null
    case Some(x) => Str(x)
  }

  /** An operation as Jackson writes it: its four components in declaration order, the type as its token. */
  function OperationToJson(o: Operation): Json {
    Obj([
      Member("op", OperationTypeToJson(o.op)),
      Member("path", StringOrNull(o.path)),
      Member("from", StringOrNull(o.from)),
      Member("value", o.value)
    ])
  }

  /** A patch as Jackson writes it (`@JsonValue operations()`): the bare array of its operations. */
  function PatchToJson(p: JsonPatch): Json {
    Arr(seq(|p.operations|, i requires 0 <= i < |p.operations| => OperationToJson(p.operations[i])))
  }

  /** The decimal text of an integer, with a leading '-' when it is negative. */
  function NumberText(n: int): string {
    if n < 0 then "-" + Pointer.IndexToken(-n) else Pointer.IndexToken(n)
  }

  /**
   * A `String` component as Jackson reads it: null or absent is null, a string is itself,
   * and a number or a boolean is coerced to its text; an array or an object is refused.
   */
  function ReadString(m: Option<Json>): Result<Option<string>, PatchError> {
    match m
    case None => Ok(None)
    case Some(Null) => Ok(None)
    case Some(Str(s)) => Ok(Some(s))
    case Some(Bool(b)) => Ok(Some(if b then "true" else "false"))
    case Some(Num(n)) => Ok(Some(NumberText(n)))
    case Some(_) => Err(UnsupportedShape)
  }

  /** Only a structure fails to read as a string, and a number reads as text denoting that number. */
  lemma ReadStringShapes(m: Option<Json>)
    ensures ReadString(m).Err? <==> m.Some? && IsStructure(m.value)
    ensures m.Some? && m.value.Num? && m.value.n >= 0 ==>
      Pointer.ParseIndex(ReadString(m).value.value) == Some(m.value.n)
    ensures m.Some? && m.value.Num? && m.value.n < 0 ==>
      ReadString(m).value.value[0] == '-' && Pointer.ParseIndex(ReadString(m).value.value[1..]) == Some(-m.value.n)
  {
    if m.Some? && m.value.Num? {
      var n := m.value.n;
      if n >= 0 {
        Pointer.ParseIndexToken(n);
      } else {
        Pointer.ParseIndexToken(-n);
        assert NumberText(n)[1..] == Pointer.IndexToken(-n);
      }
    }
  }

  /** The "op" member, read through `fromJson`. */
  function ReadOperationType(m: Option<Json>): Result<Option<OperationType>, PatchError> {
    match m
    case None => Ok(None)
    case Some(Null) => Ok(None)
    case Some(Str(s)) =>
      (match FromJson(Some(s))
       case Ok(t) => Ok(t)
       case Err(_) => Err(InvalidOperation(s)))
    case Some(_) => Err(UnsupportedShape)
  }

  /** Reads one operation object; an absent member reads as null. */
  function OperationFromJson(j: Json): Result<Operation, PatchError> {
    match j
    case Obj(ms) =>
      var op :- ReadOperationType(Lookup(ms, "op"));
      var path :- ReadString(Lookup(ms, "path"));
      var from :- ReadString(Lookup(ms, "from"));
      Ok(Operation(op, path, from, match Lookup(ms, "value") case None => Null case Some(v) => v))
    case _ => Err(UnsupportedShape)
  }

  function OperationsFromJson(items: seq<Json>): Result<seq<Operation>, PatchError> {
    if items == [] then Ok([])
    else
      var o :- OperationFromJson(items[0]);
      var os :- OperationsFromJson(items[1..]);
      Ok([o] + os)
  }

  /** Reads a patch (the delegating creator): the text must be an array of operations. */
  function PatchFromJson(j: Json): Result<JsonPatch, PatchError> {
    match j
    case Arr(items) =>
      var ops :- OperationsFromJson(items);
      Ok(JsonPatch(ops))
    case _ => Err(UnsupportedShape)
  }

  function OperationTypeToJson(op: Option<OperationType>): Json {
    match op
    case None => Null
    case Some(t) => Str(JsonValue(t))
  }

  lemma ReadOperationTypeRoundTrip(op: Option<OperationType>)
    ensures ReadOperationType(Some(OperationTypeToJson(op))) == Ok(op)
  {
    if op.Some? {
      FromJsonJsonValue(op.value);
    }
  }

  lemma MemberLookups(o: Operation)
    ensures Lookup(OperationToJson(o).members, "op") == Some(OperationTypeToJson(o.op))
    ensures Lookup(OperationToJson(o).members, "path") == Some(StringOrNull(o.path))
    ensures Lookup(OperationToJson(o).members, "from") == Some(StringOrNull(o.from))
    ensures Lookup(OperationToJson(o).members, "value") == Some(o.value)
  {
    var ms := OperationToJson(o).members;
    var ms2 := ms[1..][1..];
    assert ms2 == [Member("from", StringOrNull(o.from)), Member("value", o.value)];
    assert ms2[1..] == [Member("value", o.value)];
    assert Lookup(ms2, "from") == Some(StringOrNull(o.from));
    assert Lookup(ms2, "value") == Lookup(ms2[1..], "value") == Some(o.value);
    assert Lookup(ms, "from") == Lookup(ms[1..], "from") == Lookup(ms2, "from");
    assert Lookup(ms, "value") == Lookup(ms[1..], "value") == Lookup(ms2, "value");
  }

  lemma OperationRoundTrip(o: Operation)
    ensures OperationFromJson(OperationToJson(o)) == Ok(o)
  {
    MemberLookups(o);
    ReadMembers(OperationToJson(o).members, o);
  }

  /** Any object whose four members hold an operation's written components reads as that operation. */
  lemma ReadMembers(ms: seq<Member>, o: Operation)
    requires Lookup(ms, "op") == Some(OperationTypeToJson(o.op))
    requires Lookup(ms, "path") == Some(StringOrNull(o.path))
    requires Lookup(ms, "from") == Some(StringOrNull(o.from))
    requires Lookup(ms, "value") == Some(o.value)
    ensures OperationFromJson(Obj(ms)) == Ok(o)
  {
    assert ReadOperationType(Lookup(ms, "op")) == Ok(o.op) by {
      ReadOperationTypeRoundTrip(o.op);
    }
    ReadStringOrNull(o.path);
    ReadStringOrNull(o.from);
  }

  lemma ReadStringOrNull(s: Option<string>)
    ensures ReadString(Some(StringOrNull(s))) == Ok(s)
  {
  }

  lemma {:induction false} OperationsRoundTrip(os: seq<Operation>)
    ensures OperationsFromJson(PatchToJson(JsonPatch(os)).items) == Ok(os)
  {
    if os != [] {
      var items := PatchToJson(JsonPatch(os)).items;
      assert items[0] == OperationToJson(os[0]);
      OperationRoundTrip(os[0]);
      OperationsRoundTrip(os[1..]);
      assert items[1..] == PatchToJson(JsonPatch(os[1..])).items;
      ReadCons(items, os[0], os[1..]);
      assert os == [os[0]] + os[1..];
    }
  }

  lemma ReadCons(items: seq<Json>, o: Operation, os: seq<Operation>)
    requires items != [] && OperationFromJson(items[0]) == Ok(o) && OperationsFromJson(items[1..]) == Ok(os)
    ensures OperationsFromJson(items) == Ok([o] + os)
  {
  }

  /** Writing a patch and reading it back gives the same operations, in the same order. */
  lemma PatchRoundTrip(p: JsonPatch)
    ensures PatchFromJson(PatchToJson(p)) == Ok(p)
  {
    OperationsRoundTrip(p.operations);
  }

  lemma {:induction false} OperationsFromJsonShape(items: seq<Json>, os: seq<Operation>)
    requires OperationsFromJson(items) == Ok(os)
    ensures |os| == |items|
    ensures forall i :: 0 <= i < |items| ==> OperationFromJson(items[i]) == Ok(os[i])
  {
    if items != [] {
      OperationsFromJsonShape(items[1..], os[1..]);
      forall i | 1 <= i < |items| ensures OperationFromJson(items[i]) == Ok(os[i]) {
        assert items[1..][i - 1] == items[i];
      }
    }
  }

  /** A patch read from JSON has one operation per array element, each read from that element. */
  lemma PatchFromJsonShape(j: Json, p: JsonPatch)
    requires PatchFromJson(j) == Ok(p)
    ensures j.Arr? && |p.operations| == |j.items|
    ensures forall i :: 0 <= i < |j.items| ==> OperationFromJson(j.items[i]) == Ok(p.operations[i])
  {
    OperationsFromJsonShape(j.items, p.operations);
  }
}
