/** What the generator writes is JSON (RFC 8259). */
module JsonOutput {
  import opened JsonEscape
  import opened JsonText
  import opened JsonDoc
  import R = JsonRfc

  // ---------- documents as values of JSON ----------

  function ValueOf(v: Value): R.Json
    decreases v, 0
  {
    match v
    case VStr(s) => R.Str(Escape(s))
    case VInt(i) => IntegerOf(i)
    case VUint(u) => IntegerOf(u)
    case VUint64(l) => IntegerOf(l)
    case VBool(b) => R.Literal(if b then "true" else "false")
    case VNull => R.Literal("null")
    case VObj(ms) => R.Obj(FieldsOf(ms), "")
    case VArr(es) => R.Arr(ItemsOf(es), "")
  }

  function FieldsOf(ms: Members): R.Fields
    decreases ms, 1
  {
    match ms
    case MNil => R.NoField
    case MCons(name, v, rest) => R.Field("", name, "", "", ValueOf(v), "", FieldsOf(rest))
  }

  function ElemOf(e: Elems): R.Json
    requires !e.ENil?
    decreases e, 0
  {
    match e
    case EStr(s, _) => R.Str(s)
    case EInt(i, _) => IntegerOf(i)
    case EBool(b, _) => R.Literal(if b then "true" else "false")
    case EObj(ms, _) => R.Obj(FieldsOf(ms), "")
    case EArr(es, _) => R.Arr(ItemsOf(es), "")
  }

  function ItemsOf(es: Elems): R.Items
    decreases es, 1
  {
    if es.ENil? then R.NoItem else R.Item("", ElemOf(es), "", ItemsOf(es.rest))
  }

  function IntegerOf(n: int): R.Json {
    R.Number(n < 0, Digits(if n < 0 then -n else n), "", "")
  }

  // ---------- they are valid ----------

  /** Names, and the strings in arrays, are printed as they are: they must be escaped already. */
  predicate Escaped(v: Value)
    decreases v, 0
  {
    match v
    case VStr(s) => Escapable(s)
    case VObj(ms) => EscapedMembers(ms)
    case VArr(es) => EscapedElems(es)
    case _ => true
  }

  predicate EscapedMembers(ms: Members)
    decreases ms, 1
  {
    ms.MNil? || (R.IsBody(ms.name, 0) && Escaped(ms.value) && EscapedMembers(ms.rest))
  }

  predicate EscapedElem(e: Elems)
    requires !e.ENil?
    decreases e, 0
  {
    match e
    case EStr(s, _) => R.IsBody(s, 0)
    case EObj(ms, _) => EscapedMembers(ms)
    case EArr(es, _) => EscapedElems(es)
    case _ => true
  }

  predicate EscapedElems(es: Elems)
    decreases es, 1
  {
    es.ENil? || (EscapedElem(es) && EscapedElems(es.rest))
  }

  lemma {:induction false} DigitsWhole(n: nat)
    ensures R.IsWhole(Digits(n)) && (n > 0 ==> Digits(n)[0] != '0')
  {
    if n >= 10 { DigitsWhole(n / 10); }
  }

  /** The same text further on. */
  lemma {:induction false} BodyBehind(a: string, s: string, i: nat)
    requires i <= |s| && R.IsBody(s, i)
    ensures R.IsBody(a + s, |a| + i)
    decreases |s| - i
  {
    var t, k := a + s, |a| + i;
    if i < |s| {
      assert t[k] == s[i];
      if s[i] != '\\' {
        BodyBehind(a, s, i + 1);
      } else {
        assert t[k + 1] == s[i + 1];
        if s[i + 1] == 'u' && i + 6 <= |s| && R.IsBody(s, i + 6) {
          BodyBehind(a, s, i + 6);
          forall m | k + 2 <= m < k + 6 ensures t[m] in "0123456789ABCDEFabcdef" { assert t[m] == s[m - |a|]; }
        } else {
          BodyBehind(a, s, i + 2);
        }
      }
    }
  }

  /** Escaped text is the inside of a string of RFC 8259. */
  lemma {:induction false} EscapeIsBody(s: string)
    requires Escapable(s)
    ensures R.IsBody(Escape(s), 0)
  {
    if s != [] {
      var c, tail := EscapeChar(s[0]), Escape(s[1..]);
      EscapeIsBody(s[1..]);
      BodyBehind(c, tail, 0);
      assert (c + tail)[0] == c[0] && (|c| == 2 ==> (c + tail)[1] == c[1]);
    }
  }

  lemma {:induction false} ValueValid(v: Value)
    requires Escaped(v)
    ensures R.Valid(ValueOf(v))
    decreases v, 0
  {
    match v
    case VStr(s) => EscapeIsBody(s);
    case VInt(i) => IntegerValid(i);
    case VUint(u) => IntegerValid(u);
    case VUint64(l) => IntegerValid(l);
    case VBool(_) =>
    case VNull =>
    case VObj(ms) => MembersValid(ms);
    case VArr(es) => ElemsValid(es);
  }

  lemma {:induction false} IntegerValid(n: int)
    ensures R.Valid(IntegerOf(n)) && R.Text(IntegerOf(n)) == Decimal(n)
  {
    DigitsWhole(if n < 0 then -n else n);
  }

  lemma {:induction false} MembersValid(ms: Members)
    requires EscapedMembers(ms)
    ensures R.ValidFields(FieldsOf(ms))
    decreases ms, 1
  {
    if ms.MCons? {
      ValueValid(ms.value);
      MembersValid(ms.rest);
    }
  }

  lemma {:induction false} ElemValid(e: Elems)
    requires !e.ENil? && EscapedElem(e)
    ensures R.Valid(ElemOf(e))
    decreases e, 0
  {
    match e
    case EStr(_, _) =>
    case EInt(i, _) => IntegerValid(i);
    case EBool(_, _) =>
    case EObj(ms, _) => MembersValid(ms);
    case EArr(es, _) => ElemsValid(es);
  }

  lemma {:induction false} ElemsValid(es: Elems)
    requires EscapedElems(es)
    ensures R.ValidItems(ItemsOf(es))
    decreases es, 1
  {
    if !es.ENil? {
      ElemValid(es);
      ElemsValid(es.rest);
    }
  }

  // ---------- and their texts are those that are written ----------

  lemma {:induction false} ValueText(v: Value)
    ensures R.Text(ValueOf(v)) == RenderValue(v)
    decreases v, 0
  {
    match v
    case VStr(s) =>
    case VInt(i) => IntegerValid(i);
    case VUint(u) => IntegerValid(u);
    case VUint64(l) => IntegerValid(l);
    case VBool(_) =>
    case VNull =>
    case VObj(ms) =>
      MembersText(ms, true);
      Plain(R.FieldsText(FieldsOf(ms), ""));
    case VArr(es) =>
      ElemsText(es, true);
      Plain(R.ItemsText(ItemsOf(es), ""));
  }

  lemma Plain(s: string)
    ensures s + "" == s
  {
  }

  lemma {:induction false} MembersText(ms: Members, first: bool)
    ensures R.FieldsText(FieldsOf(ms), Comma(first)) == RenderMembers(ms, first)
    decreases ms, 1
  {
    if ms.MCons? {
      ValueText(ms.value);
      MembersText(ms.rest, false);
      FieldText(Comma(first), Quoted(ms.name), RenderValue(ms.value), RenderMembers(ms.rest, false));
    }
  }

  lemma FieldText(c: string, name: string, v: string, rest: string)
    ensures c + "" + (name + ("" + ":" + "" + (v + ("" + rest)))) == (c + (name + ":") + v) + rest
  {
  }

  lemma ItemText(c: string, v: string, rest: string)
    ensures c + "" + (v + ("" + rest)) == (c + v) + rest
  {
  }

  lemma {:induction false} ElemText(e: Elems)
    requires !e.ENil?
    ensures R.Text(ElemOf(e)) == RenderElem(e)
    decreases e, 0
  {
    match e
    case EStr(_, _) =>
    case EInt(i, _) => IntegerValid(i);
    case EBool(_, _) =>
    case EObj(ms, _) =>
      MembersText(ms, true);
      Plain(R.FieldsText(FieldsOf(ms), ""));
    case EArr(es, _) =>
      ElemsText(es, true);
      Plain(R.ItemsText(ItemsOf(es), ""));
  }

  lemma {:induction false} ElemsText(es: Elems, first: bool)
    ensures R.ItemsText(ItemsOf(es), Comma(first)) == RenderElems(es, first)
    decreases es, 1
  {
    if !es.ENil? {
      ElemText(es);
      ElemsText(es.rest, false);
      ItemText(Comma(first), RenderElem(es), RenderElems(es.rest, false));
    }
  }

  /** A document whose names and array strings are escaped and whose arrays can be separated is
      written, if it fits, as a text of RFC 8259, the one of its own value. */
  lemma {:induction false} WritesJson(ms: Members, len: nat)
    requires EscapedMembers(ms) && Separable(ms) && |Render(ms)| < len
    ensures R.Valid(ValueOf(VObj(ms)))
    ensures ApplyAll("", Document(ms), len) == (Done, R.Text(ValueOf(VObj(ms))))
  {
    ValueValid(VObj(ms));
    ValueText(VObj(ms));
    WrittenIffSeparable(ms);
    FittingIsAccepted("", Document(ms), len);
  }
}
