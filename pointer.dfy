/**
 * JSON Pointer (RFC 6901), the reference semantics the patch engine relies on:
 * a pointer is empty (the whole document) or a sequence of "/"-prefixed reference
 * tokens in which "~0" stands for '~' and "~1" for '/' (section 3); a token that
 * addresses an array element is "0" or a decimal number without a leading zero,
 * and "-" names the position after the last element (section 4).
 */
module Pointer {
  import opened Wrappers
  import opened Errors

  /** Escapes one reference token: '~' becomes "~0", '/' becomes "~1". */
  function Escape(t: string): (e: string)
    ensures '/' !in e
  {
    if t == [] then []
    else (if t[0] == '~' then "~0" else if t[0] == '/' then "~1" else [t[0]]) + Escape(t[1..])
  }

  /**
   * Decodes one escaped token, left to right, so "~01" is "~1" and not "/".
   * A '~' followed by anything other than '0' or '1' is malformed.
   */
  function Unescape(e: string): Result<string, PatchError> {
    if e == [] then Ok([])
    else if e[0] != '~' then
      var t :- Unescape(e[1..]);
      Ok([e[0]] + t)
    else if |e| >= 2 && (e[1] == '0' || e[1] == '1') then
      var t :- Unescape(e[2..]);
      Ok([if e[1] == '0' then '~' else '/'] + t)
    else Err(InvalidPointer)
  }

  lemma {:induction false} UnescapeEscape(t: string)
    ensures Unescape(Escape(t)) == Ok(t)
  {
    if t != [] {
      UnescapeEscape(t[1..]);
      var e := Escape(t);
      assert t == [t[0]] + t[1..];
      if t[0] == '~' || t[0] == '/' {
        assert e[0] == '~' && e[1] == (if t[0] == '~' then '0' else '1');
        assert e[2..] == Escape(t[1..]);
      } else {
        assert e[0] == t[0];
        assert e[1..] == Escape(t[1..]);
      }
    }
  }

  /** Every decodable token without a '/' has exactly one encoding. */
  lemma {:induction false} EscapeUnescape(e: string, t: string)
    requires '/' !in e
    requires Unescape(e) == Ok(t)
    ensures Escape(t) == e
  {
    if e != [] {
      if e[0] != '~' {
        var t' := Unescape(e[1..]).value;
        assert t == [e[0]] + t';
        assert '/' !in e[1..];
        EscapeUnescape(e[1..], t');
        assert t[1..] == t';
        assert e == [e[0]] + e[1..];
      } else {
        var t' := Unescape(e[2..]).value;
        assert t == [if e[1] == '0' then '~' else '/'] + t';
        assert '/' !in e[2..];
        EscapeUnescape(e[2..], t');
        assert t[1..] == t';
        assert e == [e[0], e[1]] + e[2..];
      }
    }
  }

  /** "~01" decodes to "~1": "~0" is read first, so the escapes are undone in the right order. */
  lemma UnescapeOrder()
    ensures Unescape("~01") == Ok("~1")
  {
    assert Unescape("") == Ok("");
    assert "1"[1..] == "" && "1"[0] == '1';
    assert ['1'] + "" == "1";
    assert Unescape("1") == Ok("1");
    assert "~01"[2..] == "1";
    assert ['~'] + "1" == "~1";
  }

  /** Splits a text at every '/'. */
  function Split(s: string): (parts: seq<string>)
    ensures |parts| >= 1
    ensures forall i :: 0 <= i < |parts| ==> '/' !in parts[i]
  {
    if s == [] then [[]]
    else
      var rest := Split(s[1..]);
      if s[0] == '/' then [[]] + rest
      else [[s[0]] + rest[0]] + rest[1..]
  }

  /** Joins the parts with '/' between them. */
  function Join(parts: seq<string>): string
    requires |parts| >= 1
  {
    if |parts| == 1 then parts[0] else parts[0] + "/" + Join(parts[1..])
  }

  lemma {:induction false} SplitSegment(t: string, r: string)
    requires '/' !in t
    ensures Split(t + "/" + r) == [t] + Split(r)
    ensures Split(t) == [t]
  {
    if t != [] {
      SplitSegment(t[1..], r);
      assert (t + "/" + r)[1..] == t[1..] + "/" + r;
      assert [t[0]] + t[1..] == t;
    } else {
      assert t + "/" + r == "/" + r;
      assert ("/" + r)[1..] == r;
    }
  }

  lemma {:induction false} SplitJoin(parts: seq<string>)
    requires |parts| >= 1
    requires forall i :: 0 <= i < |parts| ==> '/' !in parts[i]
    ensures Split(Join(parts)) == parts
  {
    if |parts| == 1 {
      SplitSegment(parts[0], []);
    } else {
      SplitJoin(parts[1..]);
      SplitSegment(parts[0], Join(parts[1..]));
    }
  }

  lemma {:induction false} JoinSplit(s: string)
    ensures Join(Split(s)) == s
  {
    if s != [] {
      JoinSplit(s[1..]);
      var rest := Split(s[1..]);
      if s[0] == '/' {
        assert s == "/" + s[1..];
      } else {
        assert Join(rest) == rest[0] + (if |rest| == 1 then [] else "/" + Join(rest[1..]));
        var parts := [[s[0]] + rest[0]] + rest[1..];
        assert parts[1..] == rest[1..];
        assert s == [s[0]] + s[1..];
      }
    }
  }

  function EscapeAll(ts: seq<string>): (es: seq<string>)
    ensures |es| == |ts|
    ensures forall i :: 0 <= i < |ts| ==> es[i] == Escape(ts[i])
  {
    if ts == [] then [] else [Escape(ts[0])] + EscapeAll(ts[1..])
  }

  function UnescapeAll(es: seq<string>): Result<seq<string>, PatchError> {
    if es == [] then Ok([])
    else
      var t :- Unescape(es[0]);
      var ts :- UnescapeAll(es[1..]);
      Ok([t] + ts)
  }

  /** Reads a pointer into its reference tokens (RFC 6901 section 3). */
  function Parse(p: string): Result<seq<string>, PatchError> {
    if p == [] then Ok([])
    else if p[0] != '/' then Err(InvalidPointer)
    else UnescapeAll(Split(p[1..]))
  }

  /** Writes reference tokens as a pointer. */
  function Render(ts: seq<string>): string {
    if ts == [] then [] else "/" + Join(EscapeAll(ts))
  }

  lemma {:induction false} UnescapeAllEscapeAll(ts: seq<string>)
    ensures UnescapeAll(EscapeAll(ts)) == Ok(ts)
  {
    if ts != [] {
      UnescapeEscape(ts[0]);
      UnescapeAllEscapeAll(ts[1..]);
      assert EscapeAll(ts)[1..] == EscapeAll(ts[1..]);
      assert EscapeAll(ts)[0] == Escape(ts[0]);
      assert ts == [ts[0]] + ts[1..];
    }
  }

  lemma {:induction false} EscapeAllUnescapeAll(es: seq<string>, ts: seq<string>)
    requires forall i :: 0 <= i < |es| ==> '/' !in es[i]
    requires UnescapeAll(es) == Ok(ts)
    ensures EscapeAll(ts) == es
  {
    if es != [] {
      var t := Unescape(es[0]).value;
      EscapeUnescape(es[0], t);
      EscapeAllUnescapeAll(es[1..], ts[1..]);
    }
  }

  /** Every token sequence is written as a pointer that reads back as the same tokens. */
  lemma ParseRender(ts: seq<string>)
    ensures Parse(Render(ts)) == Ok(ts)
  {
    if ts != [] {
      var es := EscapeAll(ts);
      SplitJoin(es);
      assert Render(ts)[1..] == Join(es);
      UnescapeAllEscapeAll(ts);
    }
  }

  /**
   * Every valid pointer is the rendering of the tokens it reads as, so two valid
   * pointers address the same location exactly when they are the same string.
   */
  lemma RenderParse(p: string, ts: seq<string>)
    requires Parse(p) == Ok(ts)
    ensures Render(ts) == p
  {
    if p != [] {
      var parts := Split(p[1..]);
      EscapeAllUnescapeAll(parts, ts);
      JoinSplit(p[1..]);
      assert p == "/" + p[1..];
    }
  }

  lemma SamePointerSameString(p: string, q: string)
    requires Parse(p).Ok? && Parse(q).Ok?
    ensures Parse(p) == Parse(q) <==> p == q
  {
    if Parse(p) == Parse(q) {
      RenderParse(p, Parse(p).value);
      RenderParse(q, Parse(q).value);
    }
  }

  // ---- Array indices (RFC 6901 section 4) ----

  /** The token that names the (nonexistent) element after the last one. */
  const NewElement: string := "-"

  predicate IsDigit(c: char) {
    '0' <= c <= '9'
  }

  predicate AllDigits(s: string) {
    forall i :: 0 <= i < |s| ==> IsDigit(s[i])
  }

  function DigitChar(d: nat): char
    requires d < 10
  {
    ('0' as int + d) as char
  }

  /** The number the decimal digits `s` denote, read left to right. */
  function DecimalValue(s: string): nat
    requires AllDigits(s)
  {
    if s == [] then 0
    else DecimalValue(s[..|s| - 1]) * 10 + (s[|s| - 1] as int - '0' as int)
  }

  /** An array index token: "0", or digits without a leading zero. */
  function ParseIndex(t: string): Option<nat> {
    if |t| > 0 && AllDigits(t) && (t[0] != '0' || |t| == 1) then Some(DecimalValue(t)) else None
  }

  /** The canonical decimal token of an index. */
  function IndexToken(n: nat): (t: string)
    ensures |t| > 0 && AllDigits(t)
    ensures n > 0 ==> t[0] != '0'
    decreases n
  {
    if n < 10 then [DigitChar(n)] else IndexToken(n / 10) + [DigitChar(n % 10)]
  }

  lemma {:induction false} DecimalValueOfIndexToken(n: nat)
    ensures DecimalValue(IndexToken(n)) == n
    decreases n
  {
    if n >= 10 {
      DecimalValueOfIndexToken(n / 10);
      var t := IndexToken(n);
      assert t[..|t| - 1] == IndexToken(n / 10);
    }
  }

  lemma ParseIndexToken(n: nat)
    ensures ParseIndex(IndexToken(n)) == Some(n)
  {
    DecimalValueOfIndexToken(n);
    if n == 0 {
      assert IndexToken(0) == "0";
    }
  }

  lemma {:induction false} LeadingDigitPositive(s: string)
    requires |s| > 0 && AllDigits(s) && s[0] != '0'
    ensures DecimalValue(s) > 0
    decreases |s|
  {
    if |s| > 1 {
      LeadingDigitPositive(s[..|s| - 1]);
    }
  }

  /** An index is written in exactly one way: the token is the canonical decimal. */
  lemma {:induction false} IndexTokenCanonical(t: string)
    requires ParseIndex(t).Some?
    ensures IndexToken(ParseIndex(t).value) == t
    decreases |t|
  {
    var n := DecimalValue(t);
    var c := t[|t| - 1];
    var d := c as int - '0' as int;
    assert DigitChar(d) == c;
    if |t| == 1 {
      assert t[..|t| - 1] == [];
      assert DecimalValue(t[..|t| - 1]) == 0;
      assert n == d;
      assert t == [c];
    } else {
      var init := t[..|t| - 1];
      LeadingDigitPositive(init);
      assert ParseIndex(init) == Some(DecimalValue(init));
      IndexTokenCanonical(init);
      assert n == DecimalValue(init) * 10 + d;
      assert n >= 10;
      assert n / 10 == DecimalValue(init) && n % 10 == d;
      assert t == init + [c];
    }
  }

  lemma NewElementIsNotIndex()
    ensures ParseIndex(NewElement).None?
  {
  }
}
