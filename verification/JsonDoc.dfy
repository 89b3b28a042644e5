/** Documents, the generator calls that write them in the documented pattern, and the text that
    JSON prescribes for them (section 2 of RFC 8259: values separated by commas). */
module JsonDoc {
  import opened JsonEscape
  import opened JsonText
  import opened Seqs

  datatype Value =
    | VStr(s: string) | VInt(i: int32) | VUint(u: uint32) | VUint64(l: uint64) | VBool(b: bool) | VNull
    | VObj(members: Members)
    | VArr(elems: Elems)

  datatype Members = MNil | MCons(name: string, value: Value, rest: Members)

  datatype Elems =
    | ENil
    | EStr(s: string, rest: Elems) | EInt(i: int32, rest: Elems) | EBool(b: bool, rest: Elems)
    | EObj(members: Members, rest: Elems)
    | EArr(elems: Elems, rest: Elems)

  // ---------- the calls ----------

  function CallsValue(name: string, v: Value): seq<Op>
    decreases v, 0
  {
    match v
    case VStr(s) => [SetStr(name, s)]
    case VInt(i) => [SetInt(name, i)]
    case VUint(u) => [SetUint(name, u)]
    case VUint64(l) => [SetUint64(name, l)]
    case VBool(b) => [SetBool(name, b)]
    case VNull => [SetNull(name)]
    case VObj(ms) => [PushObject(name)] + CallsMembers(ms) + [CloseObject]
    case VArr(es) => [PushArray(name)] + CallsElems(es) + [CloseArray]
  }

  function CallsMembers(ms: Members): seq<Op>
    decreases ms, 1
  {
    match ms
    case MNil => []
    case MCons(name, v, rest) => CallsValue(name, v) + CallsMembers(rest)
  }

  function CallsElem(e: Elems): seq<Op>
    requires !e.ENil?
    decreases e, 0
  {
    match e
    case EStr(s, _) => [ArrayStr(s)]
    case EInt(i, _) => [ArrayInt(i)]
    case EBool(b, _) => [ArrayBool(b)]
    case EObj(ms, _) => [StartObject] + CallsMembers(ms) + [CloseObject]
    case EArr(es, _) => [StartArray] + CallsElems(es) + [CloseArray]
  }

  function CallsElems(es: Elems): seq<Op>
    decreases es, 1
  {
    if es.ENil? then [] else CallsElem(es) + CallsElems(es.rest)
  }

  /** The whole document: json_start_object, the members, json_close_object. */
  function Document(ms: Members): seq<Op> {
    [StartObject] + CallsMembers(ms) + [CloseObject]
  }

  // ---------- the text that JSON prescribes ----------

  function Comma(first: bool): string {
    if first then "" else ","
  }

  function RenderValue(v: Value): string
    decreases v, 0
  {
    match v
    case VStr(s) => Quoted(Escape(s))
    case VInt(i) => Decimal(i)
    case VUint(u) => Decimal(u)
    case VUint64(l) => Decimal(l)
    case VBool(b) => BoolText(b)
    case VNull => "null"
    case VObj(ms) => "{" + RenderMembers(ms, true) + "}"
    case VArr(es) => "[" + RenderElems(es, true) + "]"
  }

  function RenderMember(name: string, v: Value, first: bool): string
    decreases v, 1
  {
    Comma(first) + Key(name) + RenderValue(v)
  }

  function RenderMembers(ms: Members, first: bool): string
    decreases ms, 2
  {
    match ms
    case MNil => ""
    case MCons(name, v, rest) => RenderMember(name, v, first) + RenderMembers(rest, false)
  }

  function RenderElem(e: Elems): string
    requires !e.ENil?
    decreases e, 0
  {
    match e
    case EStr(s, _) => Quoted(s)
    case EInt(i, _) => Decimal(i)
    case EBool(b, _) => BoolText(b)
    case EObj(ms, _) => "{" + RenderMembers(ms, true) + "}"
    case EArr(es, _) => "[" + RenderElems(es, true) + "]"
  }

  function RenderElems(es: Elems, first: bool): string
    decreases es, 1
  {
    if es.ENil? then "" else (Comma(first) + RenderElem(es)) + RenderElems(es.rest, false)
  }

  function Render(ms: Members): string {
    "{" + RenderMembers(ms, true) + "}"
  }

  // ---------- the text that the generator's rule for commas gives ----------

  /** The last character of the text before an element: its array's bracket, or the end of the
      element before it. */
  datatype Prev = First | Scalar | AfterObj | AfterArr

  /** The rule of the code: before an object only after a brace, before an array only after a
      bracket, before a scalar always but at the start. */
  predicate CommaBefore(prev: Prev, e: Elems) {
    match e
    case EObj(_, _) => prev == AfterObj
    case EArr(_, _) => prev == AfterArr
    case _ => prev != First
  }

  function PrevOf(e: Elems): Prev {
    match e
    case EObj(_, _) => AfterObj
    case EArr(_, _) => AfterArr
    case _ => Scalar
  }

  function WrittenValue(v: Value): string
    decreases v, 0
  {
    match v
    case VObj(ms) => "{" + WrittenMembers(ms, true) + "}"
    case VArr(es) => "[" + WrittenElems(es, First) + "]"
    case _ => RenderValue(v)
  }

  function WrittenMember(name: string, v: Value, first: bool): string
    decreases v, 1
  {
    Comma(first) + Key(name) + WrittenValue(v)
  }

  function WrittenMembers(ms: Members, first: bool): string
    decreases ms, 2
  {
    match ms
    case MNil => ""
    case MCons(name, v, rest) => WrittenMember(name, v, first) + WrittenMembers(rest, false)
  }

  function WrittenElem(e: Elems): string
    requires !e.ENil?
    decreases e, 0
  {
    match e
    case EObj(ms, _) => "{" + WrittenMembers(ms, true) + "}"
    case EArr(es, _) => "[" + WrittenElems(es, First) + "]"
    case _ => RenderElem(e)
  }

  function WrittenElems(es: Elems, prev: Prev): string
    decreases es, 1
  {
    if es.ENil? then ""
    else (Comma(!CommaBefore(prev, es)) + WrittenElem(es)) + WrittenElems(es.rest, PrevOf(es))
  }

  // ---------- the calls write exactly that text ----------

  lemma {:induction false} EmitAllAppend(text: string, a: seq<Op>, b: seq<Op>)
    ensures EmitAll(text, a + b) == EmitAll(EmitAll(text, a), b)
    decreases |a|
  {
    if a == [] {
      assert a + b == b;
    } else {
      assert (a + b)[0] == a[0] && (a + b)[1..] == a[1..] + b;
      EmitAllAppend(Emit(text, a[0]), a[1..], b);
    }
  }

  lemma EmitOne(text: string, op: Op)
    ensures EmitAll(text, [op]) == Emit(text, op)
  {
    assert EmitAll(text, [op]) == EmitAll(Emit(text, op), [op][1..]);
  }

  /** A character that ends a value: it is not an opening bracket. */
  predicate EndsValue(c: char) {
    c > ' ' && c != '{' && c != '['
  }

  predicate EndsScalar(c: char) {
    EndsValue(c) && c != '}' && c != ']'
  }

  lemma LastOfAppend(a: string, b: string)
    requires b != [] && b[|b| - 1] > ' '
    ensures LastChar(a + b) == b[|b| - 1]
  {
    assert (a + b)[|a + b| - 1] == b[|b| - 1];
  }

  predicate IsBracketBody(op: Op) {
    IsBracket(op) || op.PushObject? || op.PushArray?
  }

  /** What a call prints before its body. */
  function Opening(text: string, op: Op): string {
    Comma(!NeedsComma(LastChar(text), op)) + (match NameOf(op) case Some(name) => Key(name) case None => "")
  }

  lemma EmitParts(text: string, op: Op)
    ensures Emit(text, op) == text + (Opening(text, op) + Body(op))
  {
    var c := Comma(!NeedsComma(LastChar(text), op));
    match NameOf(op)
    case Some(name) =>
      Assoc3(text, c, Key(name), Body(op));
    case None =>
      assert Opening(text, op) == c;
      Assoc(text, c, Body(op));
  }

  lemma Assoc3(a: string, b: string, c: string, d: string)
    ensures a + b + (c + d) == a + ((b + c) + d)
  {
  }

  lemma BodyEnds(op: Op)
    ensures Body(op) != [] && Body(op)[|Body(op)| - 1] > ' '
    ensures !IsBracketBody(op) ==> EndsScalar(Body(op)[|Body(op)| - 1])
  {
  }

  /** How a call ends the text. */
  lemma EmitEnds(text: string, op: Op)
    ensures Body(op) != [] && LastChar(Emit(text, op)) == Body(op)[|Body(op)| - 1]
    ensures !IsBracketBody(op) ==> EndsScalar(LastChar(Emit(text, op)))
  {
    EmitParts(text, op);
    BodyEnds(op);
    Assoc(text, Opening(text, op), Body(op));
    LastOfAppend(text + Opening(text, op), Body(op));
  }

  /** Two stretches of calls, one after the other. */
  lemma Chain(text: string, a: seq<Op>, b: seq<Op>, x: string, y: string)
    requires EmitAll(text, a) == text + x && EmitAll(text + x, b) == text + x + y
    ensures EmitAll(text, a + b) == text + (x + y)
  {
    EmitAllAppend(text, a, b);
    Assoc(text, x, y);
  }

  /** A container: what its opening prints, its contents, and its closing bracket. */
  lemma Bracketed(text: string, open: Op, calls: seq<Op>, close: Op, inside: string)
    requires close == CloseObject || close == CloseArray
    requires var o := Opening(text, open) + Body(open); EmitAll(text + o, calls) == text + o + inside
    ensures EmitAll(text, [open] + calls + [close]) == text + (Opening(text, open) + (Body(open) + inside + Body(close)))
    ensures LastChar(EmitAll(text, [open] + calls + [close])) == Body(close)[0]
  {
    var o := Opening(text, open) + Body(open);
    EmitParts(text, open);
    EmitOne(text, open);
    Chain(text, [open], calls, o, inside);
    var t := text + (o + inside);
    EmitOne(t, close);
    EmitAllAppend(text, [open] + calls, [close]);
    EmitEnds(t, close);
    EmitParts(t, close);
    Regroup4(text, Opening(text, open), Body(open), inside, Body(close));
  }

  lemma Regroup4(text: string, o: string, b: string, i: string, c: string)
    ensures text + ((o + b) + i) + ("" + c) == text + (o + (b + i + c))
  {
  }

  predicate IsScalar(v: Value) {
    !v.VObj? && !v.VArr?
  }

  predicate IsScalarElem(e: Elems) {
    e.EStr? || e.EInt? || e.EBool?
  }

  lemma MemberOpening(text: string, name: string, op: Op)
    requires NameOf(op) == Some(name)
    ensures Opening(text, op) == Comma(LastChar(text) == '{') + Key(name)
  {
  }

  lemma ScalarOp(name: string, v: Value) returns (op: Op)
    requires IsScalar(v)
    ensures CallsValue(name, v) == [op] && NameOf(op) == Some(name) && !IsBracketBody(op)
    ensures Body(op) == WrittenValue(v)
  {
    op := CallsValue(name, v)[0];
  }

  lemma ScalarWritten(text: string, name: string, v: Value)
    requires IsScalar(v)
    ensures EmitAll(text, CallsValue(name, v)) == text + WrittenMember(name, v, LastChar(text) == '{')
    ensures EndsScalar(LastChar(EmitAll(text, CallsValue(name, v))))
  {
    var op := ScalarOp(name, v);
    EmitOne(text, op);
    EmitEnds(text, op);
    EmitParts(text, op);
    MemberOpening(text, name, op);
  }

  /** A member whose value is a container. */
  lemma MemberBracketed(text: string, name: string, v: Value, open: Op, calls: seq<Op>, close: Op, inside: string)
    requires NameOf(open) == Some(name) && (close == CloseObject || close == CloseArray)
    requires CallsValue(name, v) == [open] + calls + [close] && WrittenValue(v) == Body(open) + inside + Body(close)
    requires var o := Opening(text, open) + Body(open); EmitAll(text + o, calls) == text + o + inside
    ensures EmitAll(text, CallsValue(name, v)) == text + WrittenMember(name, v, LastChar(text) == '{')
    ensures EndsValue(LastChar(EmitAll(text, CallsValue(name, v))))
  {
    Bracketed(text, open, calls, close, inside);
    MemberOpening(text, name, open);
  }

  lemma ScalarElemOp(e: Elems) returns (op: Op)
    requires IsScalarElem(e)
    ensures CallsElem(e) == [op] && (op.ArrayStr? || op.ArrayInt? || op.ArrayBool?)
    ensures Body(op) == RenderElem(e)
  {
    op := CallsElem(e)[0];
  }

  lemma ElemOpening(text: string, op: Op)
    requires op.ArrayStr? || op.ArrayInt? || op.ArrayBool?
    ensures Opening(text, op) == Comma(LastChar(text) == '[') && !IsBracketBody(op)
  {
  }

  lemma ScalarElemWritten(text: string, e: Elems)
    requires IsScalarElem(e)
    ensures EmitAll(text, CallsElem(e)) == text + (Comma(LastChar(text) == '[') + RenderElem(e))
    ensures EndsScalar(LastChar(EmitAll(text, CallsElem(e))))
  {
    var op := ScalarElemOp(e);
    ElemOpening(text, op);
    EmitOne(text, op);
    EmitEnds(text, op);
    EmitParts(text, op);
  }

  lemma {:induction false} MembersWritten(text: string, ms: Members, first: bool)
    requires first <==> LastChar(text) == '{'
    ensures EmitAll(text, CallsMembers(ms)) == text + WrittenMembers(ms, first)
    decreases ms, 2
  {
    match ms
    case MNil =>
    case MCons(name, v, rest) =>
      ValueWritten(text, name, v);
      var x := WrittenMember(name, v, first);
      MembersWritten(text + x, rest, false);
      Chain(text, CallsValue(name, v), CallsMembers(rest), x, WrittenMembers(rest, false));
  }

  lemma AfterOpening(text: string, open: Op)
    ensures LastChar(text + (Opening(text, open) + Body(open))) == Body(open)[|Body(open)| - 1]
  {
    EmitParts(text, open);
    EmitEnds(text, open);
  }

  lemma ValueWritten(text: string, name: string, v: Value)
    ensures EmitAll(text, CallsValue(name, v)) == text + WrittenMember(name, v, LastChar(text) == '{')
    ensures EndsValue(LastChar(EmitAll(text, CallsValue(name, v))))
    decreases v, 0
  {
    match v
    case VObj(ms) =>
      var open := PushObject(name);
      AfterOpening(text, open);
      MembersWritten(text + (Opening(text, open) + Body(open)), ms, true);
      MemberBracketed(text, name, v, open, CallsMembers(ms), CloseObject, WrittenMembers(ms, true));
    case VArr(es) =>
      var open := PushArray(name);
      AfterOpening(text, open);
      ElemsWritten(text + (Opening(text, open) + Body(open)), es, First);
      MemberBracketed(text, name, v, open, CallsElems(es), CloseArray, WrittenElems(es, First));
    case _ =>
      ScalarWritten(text, name, v);
  }

  /** What the last character tells about the element before. */
  predicate PrevIs(prev: Prev, last: char) {
    match prev
    case First => last == '['
    case AfterObj => last == '}'
    case AfterArr => last == ']'
    case Scalar => EndsScalar(last)
  }

  /** An element that is a container. */
  lemma ElemBracketed(text: string, e: Elems, prev: Prev, open: Op, calls: seq<Op>, close: Op, inside: string)
    requires !e.ENil? && NameOf(open).None? && (close == CloseObject || close == CloseArray)
    requires CallsElem(e) == [open] + calls + [close] && WrittenElem(e) == Body(open) + inside + Body(close)
    requires NeedsComma(LastChar(text), open) <==> CommaBefore(prev, e)
    requires var o := Opening(text, open) + Body(open); EmitAll(text + o, calls) == text + o + inside
    ensures EmitAll(text, CallsElem(e)) == text + (Comma(!CommaBefore(prev, e)) + WrittenElem(e))
    ensures LastChar(EmitAll(text, CallsElem(e))) == Body(close)[0]
  {
    Bracketed(text, open, calls, close, inside);
    assert Opening(text, open) == Comma(!CommaBefore(prev, e));
  }

  lemma ElemWritten(text: string, e: Elems, prev: Prev)
    requires !e.ENil? && PrevIs(prev, LastChar(text))
    ensures EmitAll(text, CallsElem(e)) == text + (Comma(!CommaBefore(prev, e)) + WrittenElem(e))
    ensures PrevIs(PrevOf(e), LastChar(EmitAll(text, CallsElem(e))))
    decreases e, 0
  {
    match e
    case EObj(ms, _) =>
      AfterOpening(text, StartObject);
      MembersWritten(text + (Opening(text, StartObject) + Body(StartObject)), ms, true);
      ElemBracketed(text, e, prev, StartObject, CallsMembers(ms), CloseObject, WrittenMembers(ms, true));
    case EArr(es, _) =>
      AfterOpening(text, StartArray);
      ElemsWritten(text + (Opening(text, StartArray) + Body(StartArray)), es, First);
      ElemBracketed(text, e, prev, StartArray, CallsElems(es), CloseArray, WrittenElems(es, First));
    case _ =>
      ScalarElemWritten(text, e);
  }

  lemma {:induction false} ElemsWritten(text: string, es: Elems, prev: Prev)
    requires PrevIs(prev, LastChar(text))
    ensures EmitAll(text, CallsElems(es)) == text + WrittenElems(es, prev)
    decreases es, 1
  {
    if !es.ENil? {
      ElemWritten(text, es, prev);
      var x := Comma(!CommaBefore(prev, es)) + WrittenElem(es);
      ElemsWritten(text + x, es.rest, PrevOf(es));
      Chain(text, CallsElem(es), CallsElems(es.rest), x, WrittenElems(es.rest, PrevOf(es)));
    }
  }

  // ---------- when that text is the one that JSON prescribes ----------

  /** Every object of an array but its first element follows an object, and every array an array;
      scalars may stand anywhere. Arrays whose elements are all scalars, all objects or all arrays
      are of this form. */
  predicate SeparableValue(v: Value)
    decreases v, 0
  {
    match v
    case VObj(ms) => Separable(ms)
    case VArr(es) => SeparableElems(es, First)
    case _ => true
  }

  predicate Separable(ms: Members)
    decreases ms, 1
  {
    match ms
    case MNil => true
    case MCons(_, v, rest) => SeparableValue(v) && Separable(rest)
  }

  predicate SeparableElems(es: Elems, prev: Prev)
    decreases es, 1
  {
    match es
    case ENil => true
    case EObj(ms, rest) => prev in {First, AfterObj} && Separable(ms) && SeparableElems(rest, AfterObj)
    case EArr(inner, rest) => prev in {First, AfterArr} && SeparableElems(inner, First) && SeparableElems(rest, AfterArr)
    case _ => SeparableElems(es.rest, Scalar)
  }

  /** A text with a comma left out is shorter. */
  predicate SameIff(written: string, rendered: string, ok: bool) {
    |written| <= |rendered| && if ok then written == rendered else |written| < |rendered|
  }

  lemma ValueSame(v: Value)
    ensures SameIff(WrittenValue(v), RenderValue(v), SeparableValue(v))
    decreases v, 0
  {
    match v
    case VObj(ms) => MembersSame(ms, true);
    case VArr(es) => ElemsSame(es, First);
    case _ =>
  }

  lemma {:induction false} MembersSame(ms: Members, first: bool)
    ensures SameIff(WrittenMembers(ms, first), RenderMembers(ms, first), Separable(ms))
    decreases ms, 1
  {
    if ms.MCons? {
      ValueSame(ms.value);
      MembersSame(ms.rest, false);
    }
  }

  lemma ElemSame(e: Elems)
    requires !e.ENil?
    ensures SameIff(WrittenElem(e), RenderElem(e),
                    (e.EObj? ==> Separable(e.members)) && (e.EArr? ==> SeparableElems(e.elems, First)))
    decreases e, 0
  {
    match e
    case EObj(ms, _) => MembersSame(ms, true);
    case EArr(es, _) => ElemsSame(es, First);
    case _ =>
  }

  lemma {:induction false} ElemsSame(es: Elems, prev: Prev)
    ensures SameIff(WrittenElems(es, prev), RenderElems(es, prev == First), SeparableElems(es, prev))
    decreases es, 1
  {
    if !es.ENil? {
      ElemSame(es);
      ElemsSame(es.rest, PrevOf(es));
    }
  }

  lemma StartOpens(open: Op)
    requires open.StartObject?
    ensures Opening("", open) == "" && Opening("", open) + Body(open) == "{" && LastChar("" + "{") == '{'
  {
  }

  lemma DocumentWritten(ms: Members)
    ensures EmitAll("", Document(ms)) == "{" + WrittenMembers(ms, true) + "}"
  {
    var open, calls, inside := StartObject, CallsMembers(ms), WrittenMembers(ms, true);
    StartOpens(open);
    MembersWritten("" + "{", ms, true);
    Bracketed("", open, calls, CloseObject, inside);
  }

  /** The look for the start of the text makes no difference to a document's calls, if the buffer
      has room for its first brace. */
  lemma DocumentStarts(ms: Members, len: nat)
    requires len >= 2
    ensures OutcomeAll("", Document(ms), len) == ApplyAll("", Document(ms), len)
  {
    var ops := Document(ms);
    var rest := CallsMembers(ms) + [CloseObject];
    assert ops[0].StartObject? && ops[1..] == rest;
    StartOpens(ops[0]);
    assert Outcome("", ops[0], len) == (Done, "{") && Apply("", ops[0], len) == (Done, "{");
    StartedApplies("{", rest, len);
  }

  /** Written with the calls of the documented pattern into a buffer without end, a document
      comes out as the JSON text for it exactly if its arrays can be separated: the code puts no
      comma between a scalar or array and an object, nor between a scalar or object and an array. */
  lemma WrittenIffSeparable(ms: Members)
    ensures EmitAll("", Document(ms)) == Render(ms) <==> Separable(ms)
  {
    DocumentWritten(ms);
    MembersSame(ms, true);
  }

  /** The document whose only member is an array. */
  function OneArray(name: string, es: Elems): Members {
    MCons(name, VArr(es), MNil)
  }

  function OneArrayText(name: string, inside: string): string {
    "{" + (Key(name) + ("[" + inside + "]")) + "}"
  }

  lemma NoComma(x: string, y: string)
    ensures (Comma(true) + x) + y == x + y
  {
    assert Comma(true) + x == x;
  }

  lemma OneMember(ms: Members)
    requires ms.MCons? && ms.rest.MNil?
    ensures WrittenMembers(ms, true) == Key(ms.name) + WrittenValue(ms.value)
    ensures RenderMembers(ms, true) == Key(ms.name) + RenderValue(ms.value)
  {
    var k, w, r := Key(ms.name), WrittenValue(ms.value), RenderValue(ms.value);
    NoComma(k, w);
    NoComma(k, r);
    assert WrittenMember(ms.name, ms.value, true) == k + w && RenderMember(ms.name, ms.value, true) == k + r;
    assert k + w + "" == k + w && k + r + "" == k + r;
  }

  lemma OneArrayWritten(name: string, es: Elems)
    ensures EmitAll("", Document(OneArray(name, es))) == OneArrayText(name, WrittenElems(es, First))
    ensures Render(OneArray(name, es)) == OneArrayText(name, RenderElems(es, true))
  {
    DocumentWritten(OneArray(name, es));
    OneMember(OneArray(name, es));
  }

  lemma NumberFirst(es: Elems)
    requires es.EInt?
    ensures WrittenElems(es, First) == Decimal(es.i) + WrittenElems(es.rest, Scalar)
    ensures RenderElems(es, true) == Decimal(es.i) + RenderElems(es.rest, false)
    ensures SeparableElems(es, First) <==> SeparableElems(es.rest, Scalar)
  {
    var n := Decimal(es.i);
    assert WrittenElem(es) == n && RenderElem(es) == n && !CommaBefore(First, es) && PrevOf(es) == Scalar;
    NoComma(n, WrittenElems(es.rest, Scalar));
    NoComma(n, RenderElems(es.rest, false));
  }

  lemma ObjectLast(es: Elems)
    requires es.EObj? && es.rest.ENil?
    ensures WrittenElems(es, Scalar) == "{" + WrittenMembers(es.members, true) + "}"
    ensures RenderElems(es, false) == "," + ("{" + RenderMembers(es.members, true) + "}")
    ensures !SeparableElems(es, Scalar)
  {
    var o := "{" + WrittenMembers(es.members, true) + "}";
    assert WrittenElem(es) == o && !CommaBefore(Scalar, es);
    NoComma(o, "");
  }

  /** A number and then an object: no comma is put between the two. */
  lemma MixedNotSeparated(name: string, i: int32, ms: Members)
    ensures var es := EInt(i, EObj(ms, ENil));
            var written := EmitAll("", Document(OneArray(name, es)));
            && written == OneArrayText(name, Decimal(i) + ("{" + WrittenMembers(ms, true) + "}"))
            && Render(OneArray(name, es)) == OneArrayText(name, Decimal(i) + ("," + ("{" + RenderMembers(ms, true) + "}")))
            && written != Render(OneArray(name, es))
  {
    var es := EInt(i, EObj(ms, ENil));
    NumberFirst(es);
    ObjectLast(es.rest);
    OneArrayWritten(name, es);
    WrittenIffSeparable(OneArray(name, es));
  }
}
