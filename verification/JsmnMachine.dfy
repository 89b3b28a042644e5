/** The tokenizer of lib_jsmn/jsmn.c (strict mode, parent links) as a state machine on values:
    one `Step` is one turn of the loop of jsmn_parse, `Run` is the whole call. */
module JsmnMachine {
  import opened JsmnScan
  import opened CInts

  datatype Kind = Primitive | Object | Array | String

  /** A token. `size` counts the children modulo 256 (a uint8_t), -1 stands for "none". */
  datatype Token = Token(kind: Kind, size: nat, start: int, end: int, parent: int)

  /** The parser: the position, the tokens handed out so far (there are `toknext` of them)
      and the index of the innermost open container, or -1. */
  datatype PState = PState(pos: nat, toks: seq<Token>, super: int)

  datatype Code = Ok | NoMem | Inval | Part

  datatype StepResult = Next(st: PState, items: nat) | Fail(code: Code)

  /** What jsmn_parse returns (`count` is the returned number when `code` is Ok) and leaves behind. */
  datatype RunResult = RunResult(code: Code, count: nat, st: PState)

  const FRESH := PState(0, [], -1)

  predicate IsOpen(t: Token) {
    t.start != -1 && t.end == -1
  }

  predicate Linked(toks: seq<Token>) {
    forall i :: 0 <= i < |toks| ==> -1 <= toks[i].parent < i
  }

  predicate WellLinked(st: PState) {
    Linked(st.toks) && -1 <= st.super < |st.toks|
  }

  /** Where the walk for a closing bracket ends: at an open token, or at a token without parent. */
  datatype WalkEnd = AtOpen(at: nat) | AtRoot(at: nat)

  function Walk(toks: seq<Token>, k: nat): (r: WalkEnd)
    requires Linked(toks) && k < |toks|
    ensures r.at <= k
    decreases k
  {
    if IsOpen(toks[k]) then AtOpen(k)
    else if toks[k].parent == -1 then AtRoot(k)
    else Walk(toks, toks[k].parent)
  }

  /** tokens[i].size++ on a uint8_t, when there is such a token. */
  function Bump(toks: seq<Token>, i: int): (r: seq<Token>)
    requires -1 <= i < |toks|
  {
    if i == -1 then toks else toks[i := toks[i].(size := U8(toks[i].size + 1))]
  }

  predicate IsSeparator(c: char) {
    c == '\t' || c == '\r' || c == '\n' || c == ':' || c == ',' || c == ' '
  }

  predicate StartsPrimitive(c: char) {
    c == '-' || '0' <= c <= '9' || c == 't' || c == 'f' || c == 'n'
  }

  /** The characters that the tokenizer tells apart. */
  lemma LexicalClasses(c: char)
    ensures IsDelimiter(c) <==> c in "\t\r\n ,]}"
    ensures IsPrintable(c) <==> ' ' <= c <= '~'
    ensures IsSimpleEscape(c) <==> c in "\"/\\bfrnt"
    ensures IsHex(c) <==> c in "0123456789ABCDEFabcdef"
    ensures IsSeparator(c) <==> c in "\t\r\n:, "
    ensures StartsPrimitive(c) <==> c in "-0123456789tfn"
  {
    HexDigits(c);
    PrimitiveStarts(c);
  }

  lemma HexDigits(c: char)
    ensures IsHex(c) <==> c in "0123456789ABCDEFabcdef"
  {
  }

  lemma PrimitiveStarts(c: char)
    ensures StartsPrimitive(c) <==> c in "-0123456789tfn"
  {
  }

  predicate IsOpener(c: char) { c == '{' || c == '[' }

  predicate IsCloser(c: char) { c == '}' || c == ']' }

  function BracketKind(c: char): Kind
  {
    if c == '{' || c == '}' then Object else Array
  }

  function StepOpen(st: PState, kind: Kind, numTokens: nat): StepResult
    requires WellLinked(st)
  {
    if |st.toks| >= numTokens then Fail(NoMem)
    else Next(PState(st.pos + 1,
                     Bump(st.toks, st.super) + [Token(kind, 0, st.pos, -1, st.super)],
                     |st.toks|), 1)
  }

  function StepClose(st: PState, kind: Kind): StepResult
    requires WellLinked(st)
  {
    if |st.toks| < 1 then Fail(Inval)
    else
      match Walk(st.toks, |st.toks| - 1)
      case AtOpen(k) =>
        if st.toks[k].kind != kind then Fail(Inval)
        else Next(PState(st.pos + 1, st.toks[k := st.toks[k].(end := st.pos + 1)], st.toks[k].parent), 0)
      case AtRoot(k) =>
        if st.toks[k].kind != kind || st.super == -1 then Fail(Inval)
        else Next(st.(pos := st.pos + 1), 0)
  }

  /** A string or primitive token over [start, end), after which the loop goes on at `next`. */
  function StepLeaf(st: PState, kind: Kind, start: nat, end: nat, next: nat, numTokens: nat): StepResult
    requires WellLinked(st)
  {
    if |st.toks| >= numTokens then Fail(NoMem)
    else Next(PState(next, Bump(st.toks + [Token(kind, 0, start, end, st.super)], st.super), st.super), 1)
  }

  function Step(js: string, st: PState, numTokens: nat): (r: StepResult)
    requires WellLinked(st) && !AtEnd(js, st.pos)
    ensures r.Next? ==> WellLinked(r.st) && r.st.pos > st.pos
    ensures r.Fail? ==> r.code != Ok
  {
    var c := js[st.pos];
    if IsOpener(c) then StepOpen(st, BracketKind(c), numTokens)
    else if IsCloser(c) then StepClose(st, BracketKind(c))
    else if c == '\"' then
      match ScanString(js, st.pos + 1)
      case Stop(e) =>
        ScanStringForward(js, st.pos + 1);
        StepLeaf(st, String, st.pos + 1, e, e + 1, numTokens)
      case Invalid => Fail(Inval)
      case Partial => Fail(Part)
    else if IsSeparator(c) then Next(st.(pos := st.pos + 1), 0)
    else if StartsPrimitive(c) then
      match ScanPrimitive(js, st.pos)
      case Stop(e) =>
        PrimitiveAccepted(js, st.pos, e);
        StepLeaf(st, Primitive, st.pos, e, e, numTokens)
      case Invalid => Fail(Inval)
      case Partial => Fail(Part)
    else Fail(Inval)
  }

  lemma ScanStringForward(js: string, p: nat)
    requires p <= |js|
    ensures ScanString(js, p).Stop? ==> p <= ScanString(js, p).at < |js|
  {
    var r := ScanString(js, p);
    if r.Stop? { StringAccepted(js, p, r.at); }
  }

  /** The check after the loop: is some container still open? */
  predicate SomeOpen(toks: seq<Token>) {
    exists i :: 0 <= i < |toks| && IsOpen(toks[i])
  }

  function Run(js: string, st: PState, numTokens: nat): (r: RunResult)
    requires WellLinked(st)
    ensures WellLinked(r.st)
    decreases |js| - st.pos
  {
    if AtEnd(js, st.pos) then
      RunResult(if SomeOpen(st.toks) then Part else Ok, 0, st)
    else
      match Step(js, st, numTokens)
      case Next(st', items) =>
        var r := Run(js, st', numTokens);
        RunResult(r.code, r.count + items, r.st)
      case Fail(code) => RunResult(code, 0, st)
  }

  // ---------- tokens == NULL: only counting ----------

  datatype CountResult = CountResult(code: Code, count: nat, pos: nat)

  function CountRun(js: string, pos: nat): CountResult
    decreases |js| - pos
  {
    if AtEnd(js, pos) then CountResult(Ok, 0, pos)
    else
      var c := js[pos];
      if IsOpener(c) then Plus(CountRun(js, pos + 1), 1)
      else if IsCloser(c) then CountRun(js, pos + 1)
      else if c == '\"' then
        ScanStringForward(js, pos + 1);
        match ScanString(js, pos + 1)
        case Stop(e) => Plus(CountRun(js, e + 1), 1)
        case Invalid => CountResult(Inval, 0, pos)
        case Partial => CountResult(Part, 0, pos)
      else if IsSeparator(c) then CountRun(js, pos + 1)
      else if StartsPrimitive(c) then
        match ScanPrimitive(js, pos)
        case Stop(e) =>
          PrimitiveAccepted(js, pos, e);
          Plus(CountRun(js, e), 1)
        case Invalid => CountResult(Inval, 0, pos)
        case Partial => CountResult(Part, 0, pos)
      else CountResult(Inval, 0, pos)
  }

  function Plus(r: CountResult, n: nat): CountResult {
    r.(count := r.count + n)
  }
}
