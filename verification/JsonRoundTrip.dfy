/** Generator, tokenizer and query layer together: what was written is parsed into the document's
    own tree, and every path through the document finds what was stored there. */
module JsonRoundTrip {
  import opened JsmnScan
  import opened JsmnMachine
  import opened JsonForest
  import opened JsonEscape
  import opened JsonText
  import opened JsonDoc
  import opened JsonLayout
  import G = JsonGrammar
  import L = JsonLookup
  import T = JsmnTheorems

  // ---------- documents as layouts ----------

  function LayValue(lead: string, v: Value, next: Layout): Layout
    decreases v, 0
  {
    match v
    case VStr(s) => Word(lead, true, Escape(s), next)
    case VObj(ms) => Group(lead, Object, LayMembers(ms, true), next)
    case VArr(es) => Group(lead, Array, LayElems(es, true), next)
    case _ => Word(lead, false, RenderValue(v), next)
  }

  function LayMembers(ms: Members, first: bool): Layout
    decreases ms, 1
  {
    match ms
    case MNil => End("")
    case MCons(name, v, rest) => Word(Comma(first), true, name, LayValue(":", v, LayMembers(rest, false)))
  }

  function LayElem(lead: string, e: Elems, next: Layout): Layout
    requires !e.ENil?
    decreases e, 0
  {
    match e
    case EStr(s, _) => Word(lead, true, s, next)
    case EInt(i, _) => Word(lead, false, Decimal(i), next)
    case EBool(b, _) => Word(lead, false, BoolText(b), next)
    case EObj(ms, _) => Group(lead, Object, LayMembers(ms, true), next)
    case EArr(es, _) => Group(lead, Array, LayElems(es, true), next)
  }

  function LayElems(es: Elems, first: bool): Layout
    decreases es, 1
  {
    if es.ENil? then End("") else LayElem(Comma(first), es, LayElems(es.rest, false))
  }

  function LayDoc(ms: Members): Layout {
    LayValue("", VObj(ms), End(""))
  }

  /** The token tree of a document's text. */
  function DocTree(ms: Members): Forest {
    TreeOf(LayDoc(ms), 0)
  }

  lemma ValueText(lead: string, v: Value, next: Layout)
    ensures TextOf(LayValue(lead, v, next)) == lead + (RenderValue(v) + TextOf(next))
    decreases v, 0
  {
    match v
    case VObj(ms) =>
      MembersText(ms, true);
      BracketText("{", TextOf(LayMembers(ms, true)), "}");
    case VArr(es) =>
      ElemsText(es, true);
      BracketText("[", TextOf(LayElems(es, true)), "]");
    case VStr(s) => BracketText("\"", Escape(s), "\"");
    case _ =>
  }

  lemma BracketText(a: string, b: string, c: string)
    ensures a + (b + c) == a + b + c
  {
  }

  lemma MemberText(c: string, q: string, v: string, r: string)
    ensures c + (q + (":" + (v + r))) == ((c + (q + ":")) + v) + r
  {
  }

  lemma {:induction false} MembersText(ms: Members, first: bool)
    ensures TextOf(LayMembers(ms, first)) == RenderMembers(ms, first)
    decreases ms, 1
  {
    if ms.MCons? {
      var more := LayMembers(ms.rest, false);
      MembersText(ms.rest, false);
      ValueText(":", ms.value, more);
      MemberText(Comma(first), Quoted(ms.name), RenderValue(ms.value), TextOf(more));
      assert Quotes(true, ms.name) == Quoted(ms.name);
    }
  }

  lemma ElemText(lead: string, e: Elems, next: Layout)
    requires !e.ENil?
    ensures TextOf(LayElem(lead, e, next)) == (lead + RenderElem(e)) + TextOf(next)
    decreases e, 0
  {
    match e
    case EObj(ms, _) =>
      MembersText(ms, true);
      BracketText("{", TextOf(LayMembers(ms, true)), "}");
      BracketText(lead, RenderElem(e), TextOf(next));
    case EArr(es, _) =>
      ElemsText(es, true);
      BracketText("[", TextOf(LayElems(es, true)), "]");
      BracketText(lead, RenderElem(e), TextOf(next));
    case EStr(_, _) => BracketText(lead, RenderElem(e), TextOf(next));
    case EInt(_, _) => BracketText(lead, RenderElem(e), TextOf(next));
    case EBool(_, _) => BracketText(lead, RenderElem(e), TextOf(next));
  }

  lemma {:induction false} ElemsText(es: Elems, first: bool)
    ensures TextOf(LayElems(es, first)) == RenderElems(es, first)
    decreases es, 1
  {
    if !es.ENil? {
      ElemText(Comma(first), es, LayElems(es.rest, false));
      ElemsText(es.rest, false);
    }
  }

  lemma DocText(ms: Members)
    ensures TextOf(LayDoc(ms)) == Render(ms)
  {
    ValueText("", VObj(ms), End(""));
    assert "" + (RenderValue(VObj(ms)) + "") == RenderValue(VObj(ms));
  }

  // ---------- documents that can be written ----------

  /** Keys, and strings in arrays, are printed as they are: they must be the inside of a string
      literal (any text without quotes, backslashes and NULs is). String values of objects are
      escaped. */
  predicate WellValue(v: Value)
    decreases v, 0
  {
    match v
    case VStr(s) => Escapable(s)
    case VObj(ms) => WellMembers(ms)
    case VArr(es) => WellElems(es)
    case _ => true
  }

  predicate WellMembers(ms: Members)
    decreases ms, 1
  {
    match ms
    case MNil => true
    case MCons(name, v, rest) => StringBody(name, 0, |name|) && WellValue(v) && WellMembers(rest)
  }

  predicate WellElem(e: Elems)
    requires !e.ENil?
    decreases e, 0
  {
    match e
    case EStr(s, _) => StringBody(s, 0, |s|)
    case EObj(ms, _) => WellMembers(ms)
    case EArr(inner, _) => WellElems(inner)
    case _ => true
  }

  predicate WellElems(es: Elems)
    decreases es, 1
  {
    es.ENil? || (WellElem(es) && WellElems(es.rest))
  }

  lemma {:induction false} PlainValue(v: Value)
    requires IsScalar(v) && !v.VStr?
    ensures PlainWord(RenderValue(v))
  {
  }

  lemma ValueLaid(lead: string, v: Value, next: Layout)
    requires WellValue(v) && AllSeparators(lead) && WellLaid(next) && Delimited(next)
    ensures WellLaid(LayValue(lead, v, next))
    decreases v, 0
  {
    match v
    case VStr(s) =>
      assert Escape(s)[0..|Escape(s)|] == Escape(s);
      EscapedIsBody(Escape(s), 0, s);
    case VObj(ms) => MembersLaid(ms, true);
    case VArr(es) => ElemsLaid(es, true);
    case _ => PlainValue(v);
  }

  lemma {:induction false} MembersLaid(ms: Members, first: bool)
    requires WellMembers(ms)
    ensures WellLaid(LayMembers(ms, first)) && (!first ==> Delimited(LayMembers(ms, first)))
    decreases ms, 1
  {
    if ms.MCons? {
      MembersLaid(ms.rest, false);
      ValueLaid(":", ms.value, LayMembers(ms.rest, false));
    }
  }

  lemma ElemLaid(lead: string, e: Elems, next: Layout)
    requires !e.ENil? && WellElem(e) && AllSeparators(lead) && WellLaid(next) && Delimited(next)
    ensures WellLaid(LayElem(lead, e, next))
    decreases e, 0
  {
    if e.EObj? { MembersLaid(e.members, true); }
    if e.EArr? { ElemsLaid(e.elems, true); }
  }

  lemma {:induction false} ElemsLaid(es: Elems, first: bool)
    requires WellElems(es)
    ensures WellLaid(LayElems(es, first)) && (!first ==> Delimited(LayElems(es, first)))
    decreases es, 1
  {
    if !es.ENil? {
      ElemsLaid(es.rest, false);
      ElemLaid(Comma(first), es, LayElems(es.rest, false));
    }
  }

  /** The JSON text of a document spells the document's tree. */
  lemma DocSpelled(ms: Members)
    requires WellMembers(ms)
    ensures G.Spells(Render(ms), 0, |Render(ms)|, DocTree(ms))
    ensures T.TextEnd(Render(ms)) == |Render(ms)|
  {
    ValueLaid("", VObj(ms), End(""));
    LayoutSpelled(LayDoc(ms));
    DocText(ms);
    TextEnds(Render(ms), DocTree(ms));
  }

  lemma TextEnds(js: string, f: Forest)
    requires G.Spells(js, 0, |js|, f)
    ensures T.TextEnd(js) == |js|
  {
    var e := T.TextEnd(js);
    if e < |js| { G.SpellsNoNul(js, 0, |js|, f, e); }
  }
}
