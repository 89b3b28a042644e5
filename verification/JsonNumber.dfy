/** How the query layer of lib_jsmn/json_wrappers.c reads numbers: the C library's strtoul and
    strtoull (section 7.22.1.4 of ISO/IEC 9899:2011) on the text from a token's start on, and the
    check that they stopped at its end. */
module JsonNumber {
  import opened JsmnScan
  import opened JsmnMachine
  import opened JsonForest
  import opened JsonLookup
  import opened JsonText
  import G = JsonGrammar

  const LIMIT32 := 0x1_0000_0000               // unsigned long
  const LIMIT64 := 0x1_0000_0000_0000_0000     // unsigned long long

  predicate IsDigit(c: char) {
    '0' <= c <= '9'
  }

  predicate AllDigits(s: string) {
    forall i :: 0 <= i < |s| ==> IsDigit(s[i])
  }

  /** The number that digits stand for. */
  function Number(s: string): nat
    requires AllDigits(s)
    decreases |s|
  {
    if s == [] then 0 else 10 * Number(s[..|s| - 1]) + (s[|s| - 1] as nat - '0' as nat)
  }

  /** The end of the digits from position i on. */
  function DigitsEnd(js: string, i: nat): (e: nat)
    requires i <= |js|
    ensures i <= e <= |js| && AllDigits(js[i..e]) && (e < |js| ==> !IsDigit(js[e]))
    decreases |js| - i
  {
    if i < |js| && IsDigit(js[i]) then
      var e := DigitsEnd(js, i + 1);
      assert js[i..e] == [js[i]] + js[i + 1..e];
      e
    else i
  }

  predicate IsSign(c: char) {
    c == '-' || c == '+'
  }

  /** An unsigned result, and the position after what was read. */
  datatype Parsed = Parsed(value: nat, end: nat)

  /** strtoul or strtoull with base 10 and results below `limit`, on text that does not begin with
      white space: a number too large gives the largest one, and a minus sign negates the result. */
  function StrTo(js: string, at: nat, limit: nat): Parsed
    requires at < |js| && limit > 0
  {
    var i := if IsSign(js[at]) then at + 1 else at;
    var e := DigitsEnd(js, i);
    if e == i then Parsed(0, at)
    else
      var m := Number(js[i..e]);
      Parsed(if m >= limit then limit - 1 else if js[at] == '-' && m > 0 then limit - m else m, e)
  }

  /** The conversion to the signed type of the same width. */
  function Signed(n: nat, limit: nat): int {
    if 2 * n < limit then n else n - limit
  }

  /** json_str_to_int and json_str_to_int64 on what was found */
  function IntValue(js: string, f: Forest, r: Result, limit: nat): (JsonCode, int)
    requires limit > 0
  {
    if r.code != Success then (r.code, 0)
    else if r.at >= Count(f) || TreeAt(f, 0, r.at).kind != Primitive then (InvalidType, 0)
    else ReadInt(js, TreeAt(f, 0, r.at).start, TreeAt(f, 0, r.at).end, limit)
  }

  function ReadInt(js: string, start: nat, end: nat, limit: nat): (JsonCode, int)
    requires limit > 0
  {
    if start >= |js| then (InvalidType, 0)
    else
      var p := StrTo(js, start, limit);
      if p.end == end then (Success, Signed(p.value, limit)) else (InvalidType, 0)
  }

  /** json_str_to_bool on what was found */
  function BoolValue(js: string, f: Forest, r: Result): (JsonCode, bool) {
    if r.code != Success then (r.code, false)
    else if r.at >= Count(f) || TreeAt(f, 0, r.at).kind != Primitive then (InvalidType, false)
    else ReadBool(Text(js, TreeAt(f, 0, r.at)))
  }

  function ReadBool(text: string): (JsonCode, bool) {
    if text == "true" || text == "1" then (Success, true)
    else if text == "false" || text == "0" then (Success, false)
    else (InvalidType, false)
  }

  // ---------- what that means ----------

  function SignLen(t: string): nat {
    if t != [] && IsSign(t[0]) then 1 else 0
  }

  /** An optional sign and at least one digit. */
  predicate IsInteger(t: string) {
    |t| > SignLen(t) && AllDigits(t[SignLen(t)..])
  }

  function IntegerOf(t: string): int
    requires IsInteger(t)
  {
    if t[0] == '-' then 0 - Number(t[1..]) else Number(t[SignLen(t)..])
  }

  /** What is left of a number in a type with `limit` values. */
  function Narrowed(v: int, limit: nat): int
    requires limit > 0
  {
    var m: nat := if v < 0 then -v else v;
    Signed(if m >= limit then limit - 1 else if v < 0 then limit - m else m, limit)
  }

  /** A number survives exactly if it is in the range of the signed type. */
  lemma NarrowedIff(v: int, half: int)
    requires half > 0
    ensures Narrowed(v, 2 * half) == v <==> -half <= v < half
  {
  }

  /** What becomes of the others: a number of less than 2 * half in size comes back modulo that, any
      larger one as -1. */
  lemma NarrowedValue(v: int, half: int)
    requires half > 0
    ensures var r := Narrowed(v, 2 * half);
            -half <= r < half && if -2 * half < v < 2 * half then r == v || r == v - 2 * half || r == v + 2 * half else r == -1
  {
  }

  lemma {:induction false} DigitsEndAt(js: string, i: nat, e: nat)
    requires i <= e <= |js| && AllDigits(js[i..e]) && (e < |js| ==> !IsDigit(js[e]))
    ensures DigitsEnd(js, i) == e
    decreases e - i
  {
    if i < e {
      assert js[i] == js[i..e][0] && js[i + 1..e] == js[i..e][1..];
      DigitsEndAt(js, i + 1, e);
    }
  }

  /** On a token that no digit follows: it is read to its end exactly if its text is an integer. */
  lemma ReadIntMeaning(js: string, start: nat, end: nat, limit: nat)
    requires start < end <= |js| && limit > 0 && (end < |js| ==> !IsDigit(js[end]))
    ensures var t := js[start..end];
            ReadInt(js, start, end, limit)
            == if IsInteger(t) then (Success, Narrowed(IntegerOf(t), limit)) else (InvalidType, 0)
  {
    var t := js[start..end];
    var i := start + SignLen(t);
    assert t[SignLen(t)..] == js[i..end] && t[0] == js[start];
    if IsInteger(t) {
      DigitsEndAt(js, i, end);
    } else if DigitsEnd(js, i) == end {
      assert AllDigits(js[i..end]);
    }
  }

  /** In a text that was accepted, a delimiter follows every primitive. */
  lemma {:induction false} PrimitiveEnds(js: string, i: nat, j: nat, f: Forest, base: nat, k: nat)
    requires i <= j <= |js| && G.Spells(js, i, j, f) && base <= k < base + Count(f)
    requires TreeAt(f, base, k).kind == Primitive
    ensures var x := TreeAt(f, base, k); x.start < x.end < |js| && IsDelimiter(js[x.end])
    decreases f
  {
    if k == base {
    } else if k < base + Span(f) {
      PrimitiveEnds(js, f.start + 1, f.end - 1, f.kids, base + 1, k);
    } else {
      PrimitiveEnds(js, if f.Leaf? then G.LeafEnd(f.kind, f.end) else f.end, j, f.rest, base + Span(f), k);
    }
  }

  /** So in every accepted text an integer is read from a primitive exactly if its text is one. */
  lemma IntMeaning(js: string, j: nat, f: Forest, at: nat, limit: nat)
    requires j <= |js| && G.Spells(js, 0, j, f) && at < Count(f) && limit > 0
    requires TreeAt(f, 0, at).kind == Primitive
    ensures var t := Text(js, TreeAt(f, 0, at));
            IntValue(js, f, Result(Success, at), limit)
            == if IsInteger(t) then (Success, Narrowed(IntegerOf(t), limit)) else (InvalidType, 0)
  {
    PrimitiveEnds(js, 0, j, f, 0, at);
    var x := TreeAt(f, 0, at);
    ReadIntMeaning(js, x.start, x.end, limit);
  }

  // ---------- numbers that were printed ----------

  lemma NumberAppend(a: string, c: char)
    requires AllDigits(a) && IsDigit(c)
    ensures AllDigits(a + [c]) && Number(a + [c]) == 10 * Number(a) + (c as nat - '0' as nat)
  {
    assert (a + [c])[..|a|] == a;
  }

  lemma {:induction false} NumberDigits(n: nat)
    ensures AllDigits(Digits(n)) && Number(Digits(n)) == n
  {
    if n < 10 {
      NumberAppend([], ('0' as int + n) as char);
      assert Digits(n) == [] + [('0' as int + n) as char];
    } else {
      NumberDigits(n / 10);
      NumberAppend(Digits(n / 10), ('0' as int + n % 10) as char);
      assert Digits(n % 10) == [('0' as int + n % 10) as char];
    }
  }

  /** What %d, %u and %llu print is an integer, and the one that was printed. */
  lemma DecimalReads(n: int)
    ensures IsInteger(Decimal(n)) && IntegerOf(Decimal(n)) == n
  {
    var m: nat := if n < 0 then -n else n;
    NumberDigits(m);
    assert IsDigit(Digits(m)[0]);
    if n < 0 { assert Decimal(n)[1..] == Digits(m); } else { assert Decimal(n)[0..] == Digits(m); }
  }

  /** "true" and "1" are read as true, "false" and "0" as false, and nothing else is read. */
  lemma ReadBoolMeaning(text: string)
    ensures ReadBool(text).0 == Success <==> text in {"true", "1", "false", "0"}
    ensures ReadBool(text).0 == Success ==> (ReadBool(text).1 <==> text in {"true", "1"})
    ensures ReadBool(text).0 != Success ==> ReadBool(text) == (InvalidType, false)
  {
  }

  /** Numbers and bools are read from primitives alone. */
  lemma OnlyPrimitives(js: string, f: Forest, at: nat, limit: nat)
    requires at < Count(f) && limit > 0 && TreeAt(f, 0, at).kind != Primitive
    ensures IntValue(js, f, Result(Success, at), limit) == (InvalidType, 0)
    ensures BoolValue(js, f, Result(Success, at)) == (InvalidType, false)
  {
  }

  lemma BoolReads(b: bool)
    ensures ReadBool(BoolText(b)) == (Success, b)
  {
  }
}
