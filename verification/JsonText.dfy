/** What the calls of the generator (lib_jsmn/json_generator.c) append to the text so far, and
    what a bounded buffer keeps of it. */
module JsonText {
  import opened JsonEscape

  type int32 = x: int | -0x8000_0000 <= x < 0x8000_0000
  type uint32 = x: int | 0 <= x < 0x1_0000_0000
  type uint64 = x: int | 0 <= x < 0x1_0000_0000_0000_0000

  /** Decimal digits, as %d, %u and %llu print them. */
  function Digits(n: nat): (r: string)
    ensures r != [] && forall i :: 0 <= i < |r| ==> '0' <= r[i] <= '9'
  {
    if n < 10 then [(('0' as int) + n) as char] else Digits(n / 10) + Digits(n % 10)
  }

  function Decimal(n: int): (r: string)
    ensures r != [] && '0' <= r[|r| - 1] <= '9' && forall i :: 0 <= i < |r| ==> r[i] == '-' || '0' <= r[i] <= '9'
  {
    if n < 0 then "-" + Digits(-n) else Digits(n)
  }

  function BoolText(b: bool): string {
    if b then "true" else "false"
  }

  /** A call of the generator. Closing and popping an object are one function in the source, and
      so are, but for their names, closing and popping an array. */
  datatype Op =
    | StartObject                        // json_start_object
    | CloseObject                        // json_close_object, json_pop_object
    | StartArray                         // json_start_array
    | CloseArray                         // json_close_array, json_pop_array_object
    | PushObject(name: string)           // json_push_object
    | PushArray(name: string)            // json_push_array_object
    | SetStr(name: string, str: string)  // json_set_val_str
    | SetInt(name: string, i: int32)     // json_set_val_int
    | SetUint(name: string, u: uint32)   // json_set_val_uint
    | SetUint64(name: string, l: uint64) // json_set_val_uint_64
    | SetBool(name: string, b: bool)     // json_set_val_bool
    | SetNull(name: string)              // json_set_val_null
    | ArrayStr(str: string)              // json_set_array_str
    | ArrayInt(i: int32)                 // json_set_array_int
    | ArrayBool(b: bool)                 // json_set_array_bool

  /** The calls that append their bracket without a look at the space left for it. */
  predicate IsBracket(op: Op) {
    op.StartObject? || op.CloseObject? || op.StartArray? || op.CloseArray?
  }

  function Quoted(s: string): string {
    "\"" + s + "\""
  }

  function Key(name: string): string {
    Quoted(name) + ":"
  }

  /** The key of the calls that set a member of an object. */
  function NameOf(op: Op): Option<string> {
    match op
    case PushObject(name) => Some(name)
    case PushArray(name) => Some(name)
    case SetStr(name, _) => Some(name)
    case SetInt(name, _) => Some(name)
    case SetUint(name, _) => Some(name)
    case SetUint64(name, _) => Some(name)
    case SetBool(name, _) => Some(name)
    case SetNull(name) => Some(name)
    case _ => None
  }

  function Body(op: Op): string {
    match op
    case StartObject => "{"
    case CloseObject => "}"
    case StartArray => "["
    case CloseArray => "]"
    case PushObject(_) => "{"
    case PushArray(_) => "["
    case SetStr(_, str) => Quoted(Escape(str))
    case SetInt(_, i) => Decimal(i)
    case SetUint(_, u) => Decimal(u)
    case SetUint64(_, l) => Decimal(l)
    case SetBool(_, b) => BoolText(b)
    case SetNull(_) => "null"
    case ArrayStr(str) => Quoted(str)
    case ArrayInt(i) => Decimal(i)
    case ArrayBool(b) => BoolText(b)
  }

  /** What a call prints, after the comma if there is one. */
  function Piece(op: Op): string {
    match NameOf(op)
    case Some(name) => Key(name) + Body(op)
    case None => Body(op)
  }

  /** The last character above the space, as rev_skip finds it; NUL if there is none. */
  function LastChar(text: string): char {
    if text == [] then '\0'
    else if text[|text| - 1] > ' ' then text[|text| - 1]
    else LastChar(text[..|text| - 1])
  }

  /** It is the last character that is not a space or a control character. */
  lemma {:induction false} LastCharMeaning(a: string, c: char, space: string)
    requires c > ' ' && forall i :: 0 <= i < |space| ==> space[i] <= ' '
    ensures LastChar(a + [c] + space) == c
    decreases |space|
  {
    var text := a + [c] + space;
    if space == [] {
      assert text[|text| - 1] == c;
    } else {
      var n := |space| - 1;
      assert text[|text| - 1] == space[n] && text[..|text| - 1] == a + [c] + space[..n];
      LastCharMeaning(a, c, space[..n]);
    }
  }

  lemma {:induction false} LastCharOfSpace(space: string)
    requires forall i :: 0 <= i < |space| ==> space[i] <= ' '
    ensures LastChar(space) == '\0'
    decreases |space|
  {
    if space != [] { LastCharOfSpace(space[..|space| - 1]); }
  }

  /** Does a call put a comma first? It depends on the last character alone. */
  predicate NeedsComma(last: char, op: Op) {
    match op
    case StartObject => last == '}'
    case StartArray => last == ']'
    case CloseObject => false
    case CloseArray => false
    case ArrayStr(_) => last != '['
    case ArrayInt(_) => last != '['
    case ArrayBool(_) => last != '['
    case _ => last != '{'
  }

  /** The text after a call, if there is space for all of it. */
  function Emit(text: string, op: Op): string {
    text + (if NeedsComma(LastChar(text), op) then "," else "") + Piece(op)
  }

  function EmitAll(text: string, ops: seq<Op>): string
    decreases |ops|
  {
    if ops == [] then text else EmitAll(Emit(text, ops[0]), ops[1..])
  }

  // ---------- a buffer of len bytes ----------

  /** WM_SUCCESS, -WM_E_JSON_OBUF, and for a text that does not begin with a brace the negative
      -WM_E_JSON_INVSTART of the setters for objects and the positive one of those for arrays. */
  datatype Status = Done | Overflow | BadStart | BadStartPositive

  predicate IsNegative(status: Status) {
    status.Overflow? || status.BadStart?
  }

  /** verify_buffer_limit */
  predicate IsFull(text: string, len: nat) {
    |text| >= len - 1
  }

  function Cut(text: string, n: int): string {
    if 0 <= n < |text| then text[..n] else text
  }

  /** The status of a call and the text that the buffer holds after it. */
  function Apply(text: string, op: Op, len: nat): (Status, string) {
    if IsFull(text, len) then (Overflow, text)
    else (Done, if IsBracket(op) then Emit(text, op) else Cut(Emit(text, op), len - 1))
  }

  /** The calls that look for the brace at the start of the text before anything else. */
  predicate ChecksStart(op: Op) {
    !IsBracket(op) && !op.PushObject? && !op.PushArray?
  }

  predicate IsStarted(text: string) {
    text != [] && text[0] == '{'
  }

  /** The same on a text that does not begin with a brace. */
  function Outcome(text: string, op: Op, len: nat): (Status, string) {
    if ChecksStart(op) && !IsStarted(text) then (StartError(op), text) else Apply(text, op, len)
  }

  predicate SetsElement(op: Op) {
    op.ArrayStr? || op.ArrayInt? || op.ArrayBool?
  }

  function StartError(op: Op): Status {
    if SetsElement(op) then BadStartPositive else BadStart
  }

  /** A caller who looks for a negative code sees that a call failed exactly unless it sets an array
      element on a text that was not started. */
  lemma FailureSeenIff(text: string, op: Op, len: nat)
    ensures Outcome(text, op, len).0 != Done ==>
              (IsNegative(Outcome(text, op, len).0) <==> !SetsElement(op) || IsStarted(text))
    ensures Outcome(text, op, len).0 == Done ==> !IsNegative(Outcome(text, op, len).0)
  {
  }

  function OutcomeAll(text: string, ops: seq<Op>, len: nat): (Status, string)
    requires ops != []
    decreases |ops|
  {
    var (status, text') := Outcome(text, ops[0], len);
    if |ops| == 1 then (status, text') else OutcomeAll(text', ops[1..], len)
  }

  /** Once a text is started it stays so, and that look makes no difference. */
  lemma {:induction false} StartedApplies(text: string, ops: seq<Op>, len: nat)
    requires ops != [] && |text| <= len && IsStarted(text)
    ensures OutcomeAll(text, ops, len) == ApplyAll(text, ops, len)
    decreases |ops|
  {
    if |ops| > 1 {
      ApplyGrows(text, ops[0], len);
      StartedApplies(Apply(text, ops[0], len).1, ops[1..], len);
    }
  }

  /** The last status and the text after a series of calls whose results the caller ignores. */
  function ApplyAll(text: string, ops: seq<Op>, len: nat): (Status, string)
    requires ops != []
    decreases |ops|
  {
    var (status, text') := Apply(text, ops[0], len);
    if |ops| == 1 then (status, text') else ApplyAll(text', ops[1..], len)
  }

  /** Once the buffer is full, every later call is refused and leaves it alone. */
  lemma {:induction false} FullIsSticky(text: string, ops: seq<Op>, len: nat)
    requires ops != [] && IsFull(text, len)
    ensures ApplyAll(text, ops, len) == (Overflow, text)
    decreases |ops|
  {
    if |ops| > 1 { FullIsSticky(text, ops[1..], len); }
  }

  /** The text never shrinks, what was written is never changed, and it never outgrows the buffer. */
  lemma ApplyGrows(text: string, op: Op, len: nat)
    requires |text| <= len
    ensures text <= Apply(text, op, len).1 && |Apply(text, op, len).1| <= len
  {
    if !IsFull(text, len) {
      var t := Emit(text, op);
      assert text <= t;
      if IsBracket(op) { assert |t| <= |text| + 2; }
    }
  }

  /** If the last of a series of calls succeeds and only closes a container, then no call before
      it was refused or truncated: the text is that of an unbounded buffer. */
  lemma {:induction false} LastCloseCertifies(text: string, ops: seq<Op>, len: nat)
    requires ops != [] && (ops[|ops| - 1].CloseObject? || ops[|ops| - 1].CloseArray?)
    requires ApplyAll(text, ops, len).0 == Done
    ensures ApplyAll(text, ops, len).1 == EmitAll(text, ops)
    decreases |ops|
  {
    if |ops| > 1 {
      var (status, text') := Apply(text, ops[0], len);
      if IsFull(text', len) {
        FullIsSticky(text', ops[1..], len);
      } else {
        assert text' == Emit(text, ops[0]);
        LastCloseCertifies(text', ops[1..], len);
      }
    }
  }

  /** And the other way round: a series whose text fits, with a byte to spare, is never refused. */
  lemma {:induction false} FittingIsAccepted(text: string, ops: seq<Op>, len: nat)
    requires ops != [] && |EmitAll(text, ops)| < len
    ensures ApplyAll(text, ops, len) == (Done, EmitAll(text, ops))
    decreases |ops|
  {
    EmitGrows(text, ops[0]);
    EmitAllGrows(Emit(text, ops[0]), ops[1..]);
    if |ops| > 1 { FittingIsAccepted(Emit(text, ops[0]), ops[1..], len); }
  }

  lemma EmitGrows(text: string, op: Op)
    ensures |text| < |Emit(text, op)|
  {
  }

  lemma {:induction false} EmitAllGrows(text: string, ops: seq<Op>)
    ensures |text| <= |EmitAll(text, ops)|
    decreases |ops|
  {
    if ops != [] { EmitAllGrows(Emit(text, ops[0]), ops[1..]); }
  }

  /** For a document that ends with a closing bracket, the last call alone tells whether the
      whole text is there: it succeeds exactly if the text and its NUL fit into the buffer. */
  lemma CloseIffFits(text: string, ops: seq<Op>, len: nat)
    requires ops != [] && (ops[|ops| - 1].CloseObject? || ops[|ops| - 1].CloseArray?)
    ensures ApplyAll(text, ops, len).0 == Done <==> |EmitAll(text, ops)| < len
    ensures ApplyAll(text, ops, len).0 == Done ==> ApplyAll(text, ops, len).1 == EmitAll(text, ops)
  {
    if |EmitAll(text, ops)| < len { FittingIsAccepted(text, ops, len); }
    if ApplyAll(text, ops, len).0 == Done {
      LastCloseCertifies(text, ops, len);
      CloseLeavesRoom(text, ops, len);
    }
  }

  lemma {:induction false} CloseLeavesRoom(text: string, ops: seq<Op>, len: nat)
    requires ops != [] && (ops[|ops| - 1].CloseObject? || ops[|ops| - 1].CloseArray?)
    requires ApplyAll(text, ops, len).0 == Done
    ensures |ApplyAll(text, ops, len).1| < len
    decreases |ops|
  {
    if |ops| > 1 { CloseLeavesRoom(Apply(text, ops[0], len).1, ops[1..], len); }
  }
}
