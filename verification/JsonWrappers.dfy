/** The query layer of lib_jsmn/json_wrappers.c in its own form: a search object whose scope
    `cur` moves over the flat token array, proved against the token tree. */
module JsonWrappers {
  import opened CInts
  import opened JsmnScan
  import opened JsmnMachine
  import opened JsonForest
  import opened JsonLookup
  import opened JsonSearch
  import opened JsonWalk
  import G = JsonGrammar
  import T = JsmnTheorems
  import Jsmn
  import N = JsonNumber

  /** Token ranges are proper, end by `bound`, and those in containers by the container's end. */
  predicate EndsBy(f: Forest, bound: nat) {
    match f
    case Empty => true
    case Leaf(_, s, e, rest) => s <= e <= bound && EndsBy(rest, bound)
    case Box(_, s, e, kids, rest) => s <= e <= bound && EndsBy(kids, e) && EndsBy(rest, bound)
  }

  lemma {:induction false} EndsByMore(f: Forest, bound: nat, bound': nat)
    requires EndsBy(f, bound) && bound <= bound'
    ensures EndsBy(f, bound')
  {
    if !f.Empty? { EndsByMore(f.rest, bound, bound'); }
  }

  lemma {:induction false} EndsByTree(f: Forest, bound: nat, base: nat, i: nat)
    requires EndsBy(f, bound) && base <= i < base + Count(f)
    ensures TreeAt(f, base, i).start <= TreeAt(f, base, i).end <= bound
    ensures EndsBy(KidsOf(TreeAt(f, base, i)), TreeAt(f, base, i).end)
    decreases f
  {
    if i == base {
    } else if i < base + Span(f) {
      EndsByTree(f.kids, f.end, base + 1, i);
    } else {
      EndsByTree(f.rest, bound, base + Span(f), i);
    }
  }

  lemma {:induction false} SpelledShape(js: string, i: nat, j: nat, f: Forest)
    requires i <= j <= |js| && G.Spells(js, i, j, f)
    ensures EndsBy(f, j) && Kinded(f)
    decreases f
  {
    match f
    case Empty =>
    case Leaf(kind, s, e, rest) =>
      SpelledShape(js, G.LeafEnd(kind, e), j, rest);
    case Box(kind, s, e, kids, rest) =>
      SpelledShape(js, s + 1, e - 1, kids);
      EndsByMore(kids, e - 1, e);
      SpelledShape(js, e, j, rest);
  }

  /** Returns true if an exact match is found (strncmp over the token's length, and equal
      lengths); `key` is a C string, so it holds no NUL. */
  predicate TokenStrEq(js: string, t: Token, key: string) {
    0 <= t.start <= t.end <= |js| && js[t.start..t.end] == key
  }

  /** skip_to_last: from a container to its last descendant. It never leaves the container's
      subtree, and it ends on the last token of it exactly if no container in the subtree has
      256 or more children, so that every size is exact. */
  method SkipToLast(toks: array<Token>, element: nat, ghost kids: Forest) returns (t: nat)
    requires element < toks.Length && toks[element].size == U8(Len(kids))
    requires FlatAt(toks[..], kids, element + 1, element)
    ensures t == SkipTo(kids, element) && EndsAt(kids, element, t)
    ensures t == element + Count(kids) <==> Len(kids) < 256 && AllSmall(kids)
    decreases Count(kids), 2
  {
    t := element;
    var cnt := toks[t].size;
    ghost var k := 0;
    while cnt > 0
      invariant 0 <= cnt && cnt + k == U8(Len(kids)) && t == TurnsTo(kids, element, k)
    {
      t := SkipTurn(toks, element, t, kids, k);
      cnt, k := cnt - 1, k + 1;
    }
    SkipToEnds(kids, element);
    EndsAtIff(kids, element, t);
  }

  /** One turn of the loop: over a token and, if it has children, over its subtree. */
  method SkipTurn(toks: array<Token>, element: nat, t: nat, ghost kids: Forest, ghost k: nat) returns (t': nat)
    requires k < U8(Len(kids)) && t == TurnsTo(kids, element, k) && FlatAt(toks[..], kids, element + 1, element)
    ensures t' == TurnsTo(kids, element, k + 1)
    decreases Count(kids), 1
  {
    ghost var inner := SkipNext(toks[..], kids, element, t, k);
    t' := t + 1;
    if toks[t'].size != 0 { t' := SkipToLast(toks, t', inner); }
  }

  /** The token that the next turn of the loop looks at. */
  lemma SkipNext(toks: seq<Token>, kids: Forest, element: nat, t: nat, k: nat) returns (inner: Forest)
    requires k < U8(Len(kids)) && t == TurnsTo(kids, element, k) && FlatAt(toks, kids, element + 1, element)
    ensures t + 1 < |toks| && toks[t + 1].size == U8(Len(inner)) && FlatAt(toks, inner, t + 2, t + 1)
    ensures Count(inner) < Count(kids) && TurnsTo(kids, element, k + 1) == SkipTo(inner, t + 1)
  {
    inner := TurnAhead(kids, element, k, t);
    TreeAtPlaced(toks, kids, element + 1, element, t + 1);
  }

  // ---------- the search object ----------

  /** The children of the token at `cur`, with what the flat array says about it. */
  ghost predicate ScopeIn(toks: seq<Token>, f: Forest, cur: nat, kids: Forest) {
    && cur < Count(f) && cur < |toks| && kids == KidsOf(TreeAt(f, 0, cur))
    && FlatAt(toks, kids, cur + 1, cur)
    && toks[cur].size == U8(Len(kids)) && toks[cur].kind == TreeAt(f, 0, cur).kind
    && EndsBy(kids, TreeAt(f, 0, cur).end) && toks[cur].end == TreeAt(f, 0, cur).end
    && Kinded(kids)
  }

  /** Token `t` and its subtree, met on the way through the children of `cur`. */
  lemma VisitToken(toks: seq<Token>, f: Forest, cur: nat, kids: Forest, t: nat)
    requires ScopeIn(toks, f, cur, kids) && cur < t <= cur + Count(kids)
    ensures t < |toks|
    ensures var x := TreeAt(kids, cur + 1, t);
            && toks[t].kind == x.kind && toks[t].start == x.start && toks[t].end == x.end && x.start <= x.end <= toks[cur].end
            && toks[t].size == U8(Len(KidsOf(x))) && FlatAt(toks, KidsOf(x), t + 1, t)
            && t + Span(x) <= cur + 1 + Count(kids)
            && (x.Box? <==> x.kind == Object || x.kind == Array)
  {
    TreeAtPlaced(toks, kids, cur + 1, cur, t);
    EndsByTree(kids, TreeAt(f, 0, cur).end, cur + 1, t);
  }

  /** The check that json_init makes of the first token. */
  predicate IsRoot(t: Token) {
    (t.kind == Object && t.size % 2 == 0) || t.kind == Array
  }

  class JObj {
    var parser: Jsmn.Parser
    var js: string
    var tokens: array<Token>
    var cur: nat
    var numTokens: nat
    ghost var forest: Forest    // the trees that the tokens stand for

    /** json_obj_init: a blank object. */
    constructor (tokens: array<Token>, numTokens: nat)
    {
      this.js, this.tokens, this.numTokens, this.cur := "", tokens, numTokens, 0;
      this.forest := Empty;
      this.parser := new Jsmn.Parser();
    }

    /** The object holds the tokens of an accepted text, and its scope is one of them. */
    ghost predicate Valid()
      reads this, tokens
    {
      && cur < numTokens == Count(forest) <= tokens.Length
      && FlatAt(tokens[..], forest, 0, -1)
      && T.TextEnd(js) <= |js| && G.Spells(js, 0, T.TextEnd(js), forest)
    }

    ghost function Kids(): Forest
      requires Valid()
      reads this, tokens
    {
      KidsOf(TreeAt(forest, 0, cur))
    }

    lemma InScope()
      requires Valid()
      ensures ScopeIn(tokens[..], forest, cur, Kids()) && tokens[cur].end <= |js|
    {
      TreeAtPlaced(tokens[..], forest, 0, -1, cur);
      SpelledShape(js, 0, T.TextEnd(js), forest);
      EndsByTree(forest, T.TextEnd(js), 0, cur);
    }

    /** json_get_value: what the walk by sizes comes to. It is what the lookup on the tree finds, if
        the sizes of the values that it passes over are exact; and a value that is there is found
        only if they are. */
    method GetValue(key: string) returns (r: Result)
      requires Valid()
      ensures r == WalkValue(js, forest, cur, key)
      ensures KeyExact(js, forest, cur, key) ==> r == JsonLookup.GetValue(js, forest, cur, key)
      ensures JsonLookup.GetValue(js, forest, cur, key).code == Success ==>
                (r == JsonLookup.GetValue(js, forest, cur, key) <==> KeyExact(js, forest, cur, key))
      ensures r.code == Success ==> cur < r.at < numTokens
    {
      var n := tokens[cur].size;
      InScope();
      WalkValueIff(js, forest, cur, key);
      if n == 0 || n % 2 != 0 { return Failed(ErrFail); }
      if tokens[cur].kind != Object { return Failed(InvalidJobj); }
      r := SearchKey(tokens, js, cur, key, n, forest, Kids());
    }

    /** json_get_array_index: what the walk by sizes comes to; that is what the tree says, exactly
        if the sizes of the elements that it passes over are exact. */
    method GetArrayIndex(index: nat) returns (r: Result)
      requires Valid()
      ensures r == WalkIndex(forest, cur, index)
      ensures r == GetIndex(forest, cur, index) <==> IndexExact(forest, cur, index)
      ensures r.code == Success ==> cur < r.at < numTokens
    {
      InScope();
      WalkIndexIff(forest, cur, index);
      if tokens[cur].kind != Array { return Failed(InvalidJarray); }
      if index >= tokens[cur].size { return Failed(InvalidIndex); }
      r := SearchIndex(tokens, cur, index, forest, Kids());
    }

    /** The common end of the get functions for objects and arrays: check what was found and
        make it the scope. */
    method EnterScope(r: Result, kind: Kind) returns (code: JsonCode)
      requires Valid() && (r.code == Success ==> r.at < numTokens)
      modifies this`cur
      ensures Valid() && code == Enter(forest, r, old(cur), kind).code && cur == Enter(forest, r, old(cur), kind).at
    {
      if r.code != Success { return r.code; }
      TreeAtPlaced(tokens[..], forest, 0, -1, r.at);
      if tokens[r.at].kind != kind { return InvalidType; }
      if kind == Object && tokens[r.at].size % 2 != 0 { return InvalidJobj; }
      cur := r.at;
      return Success;
    }

    /** json_get_composite_object (kind Object) and json_get_array_object (kind Array) */
    method GetScope(key: string, kind: Kind) returns (code: JsonCode)
      requires Valid()
      modifies this`cur
      ensures Valid()
      ensures Result(code, cur) == Enter(forest, WalkValue(js, forest, old(cur), key), old(cur), kind)
      ensures KeyExact(js, forest, old(cur), key) ==>
                Result(code, cur) == ScopeStep(js, forest, old(cur), IntoKey(key, kind))
      ensures ScopeStep(js, forest, old(cur), IntoKey(key, kind)).code == Success ==>
                (Result(code, cur) == ScopeStep(js, forest, old(cur), IntoKey(key, kind))
                 <==> KeyExact(js, forest, old(cur), key))
    {
      var r := GetValue(key);
      code := EnterScope(r, kind);
    }

    /** json_array_get_composite_object and json_array_get_array_object */
    method ArrayGetScope(index: nat, kind: Kind) returns (code: JsonCode)
      requires Valid()
      modifies this`cur
      ensures Valid()
      ensures Result(code, cur) == Enter(forest, WalkIndex(forest, old(cur), index), old(cur), kind)
      ensures IndexExact(forest, old(cur), index) ==>
                Result(code, cur) == ScopeStep(js, forest, old(cur), IntoIndex(index, kind))
      ensures ScopeStep(js, forest, old(cur), IntoIndex(index, kind)).code == Success ==>
                (Result(code, cur) == ScopeStep(js, forest, old(cur), IntoIndex(index, kind))
                 <==> IndexExact(forest, old(cur), index))
    {
      var r := GetArrayIndex(index);
      code := EnterScope(r, kind);
    }

    /** json_release_composite_object; the other three release functions call it. */
    method ReleaseScope() returns (code: JsonCode)
      requires Valid()
      modifies this`cur
      ensures Valid()
      ensures Result(code, cur) == ScopeStep(js, forest, old(cur), Release)
    {
      ParentPlaced(tokens[..], forest, 0, -1, cur);
      if tokens[cur].parent < 0 { return ErrFail; }
      cur := tokens[cur].parent;
      return Success;
    }

    /** json_get_val_str: the text of the string found, if it fits into maxlen with its NUL. */
    method GetValStr(key: string, maxlen: nat) returns (code: JsonCode, value: string)
      requires Valid()
      ensures (code, value) == StringValue(js, forest, WalkValue(js, forest, cur, key), maxlen)
    {
      value := "";
      var r := GetValue(key);
      if r.code != Success { return r.code, value; }
      code, value := StrAt(r.at, maxlen);
    }

    /** json_array_get_str */
    method ArrayGetStr(index: nat, maxlen: nat) returns (code: JsonCode, value: string)
      requires Valid()
      ensures (code, value) == StringValue(js, forest, WalkIndex(forest, cur, index), maxlen)
    {
      value := "";
      var r := GetArrayIndex(index);
      if r.code != Success { return r.code, value; }
      code, value := StrAt(r.at, maxlen);
    }

    /** json_get_val_int and json_get_val_int64, for a type with `limit` values */
    method GetValInt(key: string, limit: nat) returns (code: JsonCode, value: int)
      requires Valid() && limit > 0
      ensures (code, value) == N.IntValue(js, forest, WalkValue(js, forest, cur, key), limit)
    {
      var r := GetValue(key);
      if r.code != Success { return r.code, 0; }
      code, value := IntAt(r.at, limit);
    }

    /** json_array_get_int and json_array_get_int64 */
    method ArrayGetInt(index: nat, limit: nat) returns (code: JsonCode, value: int)
      requires Valid() && limit > 0
      ensures (code, value) == N.IntValue(js, forest, WalkIndex(forest, cur, index), limit)
    {
      var r := GetArrayIndex(index);
      if r.code != Success { return r.code, 0; }
      code, value := IntAt(r.at, limit);
    }

    /** json_str_to_int and json_str_to_int64 */
    method IntAt(t: nat, limit: nat) returns (code: JsonCode, value: int)
      requires Valid() && t < numTokens && limit > 0
      ensures (code, value) == N.IntValue(js, forest, Result(Success, t), limit)
    {
      TextPlaced(t);
      if tokens[t].kind != Primitive { return InvalidType, 0; }
      N.PrimitiveEnds(js, 0, T.TextEnd(js), forest, 0, t);
      var p := N.StrTo(js, tokens[t].start, limit);
      if p.end != tokens[t].end { return InvalidType, 0; }
      return Success, N.Signed(p.value, limit);
    }

    /** json_get_val_bool */
    method GetValBool(key: string) returns (code: JsonCode, value: bool)
      requires Valid()
      ensures (code, value) == N.BoolValue(js, forest, WalkValue(js, forest, cur, key))
    {
      var r := GetValue(key);
      if r.code != Success { return r.code, false; }
      code, value := BoolAt(r.at);
    }

    /** json_str_to_bool */
    method BoolAt(t: nat) returns (code: JsonCode, value: bool)
      requires Valid() && t < numTokens
      ensures (code, value) == N.BoolValue(js, forest, Result(Success, t))
    {
      TextPlaced(t);
      if tokens[t].kind != Primitive { return InvalidType, false; }
      if TokenStrEq(js, tokens[t], "true") || TokenStrEq(js, tokens[t], "1") { return Success, true; }
      if TokenStrEq(js, tokens[t], "false") || TokenStrEq(js, tokens[t], "0") { return Success, false; }
      return InvalidType, false;
    }

    /** json_str_to_str */
    method StrOf(t: nat, maxlen: nat) returns (code: JsonCode, value: string)
      requires t < tokens.Length && 0 <= tokens[t].start <= tokens[t].end <= |js|
      ensures (code, value) ==
              if tokens[t].kind != String then (InvalidType, "")
              else if tokens[t].end - tokens[t].start >= maxlen then (ErrNoMem, "")
              else (Success, js[tokens[t].start..tokens[t].end])
    {
      value := "";
      if tokens[t].kind != String { return InvalidType, value; }
      if tokens[t].end - tokens[t].start >= maxlen { return ErrNoMem, value; }
      return Success, js[tokens[t].start..tokens[t].end];
    }

    /** The same on the token tree. */
    method StrAt(t: nat, maxlen: nat) returns (code: JsonCode, value: string)
      requires Valid() && t < numTokens
      ensures (code, value) == StringValue(js, forest, Result(Success, t), maxlen)
    {
      TextPlaced(t);
      code, value := StrOf(t, maxlen);
    }

    lemma TextPlaced(t: nat)
      requires Valid() && t < numTokens
      ensures var x := TreeAt(forest, 0, t);
              && tokens[t].kind == x.kind && tokens[t].start == x.start && tokens[t].end == x.end
              && x.start <= x.end <= |js| && Text(js, x) == js[tokens[t].start..tokens[t].end]
    {
      TreeAtPlaced(tokens[..], forest, 0, -1, t);
      SpelledShape(js, 0, T.TextEnd(js), forest);
      EndsByTree(forest, T.TextEnd(js), 0, t);
    }

    /** json_init: parses the text; on success the scope is the first token. (A text of separators
        only has no first token: the check of the root then reads what the array holds there.) */
    method Init(tokens: array<Token>, numTokens: nat, js: string) returns (code: JsonCode)
      requires |js| <= 0x7fff && 0 < tokens.Length && numTokens <= tokens.Length
      modifies this, tokens
      ensures match Run(js, FRESH, numTokens).code
              case NoMem => code == ErrNoMem
              case Inval => code == ErrInval
              case Part => code == ErrIncomplete
              case Ok =>
                var n := Run(js, FRESH, numTokens).count;
                this.js == js && this.tokens == tokens && this.numTokens == n && cur == 0
                && code == (if IsRoot(tokens[0]) then Success else InvalidJobj)
                && (n > 0 ==>
                  Valid()
                  && code == (if (forest.kind == Object && U8(Len(KidsOf(forest))) % 2 == 0) || forest.kind == Array
                              then Success else InvalidJobj))
    {
      this.js, this.tokens, this.numTokens, this.cur, this.forest := "", tokens, numTokens, 0, Empty;
      parser := new Jsmn.Parser();
      assert parser.State(tokens) == FRESH;
      var status, count := parser.Parse(js, tokens, numTokens);
      match status {
        case NoMem => return ErrNoMem;
        case Inval => return ErrInval;
        case Part => return ErrIncomplete;
        case Ok =>
      }
      this.js, this.numTokens := js, count;
      forest := T.ParseSound(js, numTokens);
      FirstToken(tokens[..], forest);
      if tokens[0].kind == Object && tokens[0].size % 2 == 0 { return Success; }
      if tokens[0].kind == Array { return Success; }
      return InvalidJobj;
    }
  }

  lemma KeyText(x: Forest, js: string, t: Token, key: string)
    requires !x.Empty? && t.start == x.start && t.end == x.end && x.start <= x.end <= |js|
    ensures TokenStrEq(js, t, key) <==> Text(js, x) == key
  {
  }

  /** State KEY at token `t`: false if it is not a string, else the next state. */
  method VisitKey(toks: array<Token>, js: string, cur: nat, t: nat, key: string, ghost f: Forest, ghost kids: Forest, ghost k: nat)
    returns (ok: bool, state: ParseState)
    requires ScopeIn(toks[..], f, cur, kids) && cur < t < toks.Length && t <= cur + Count(kids) && toks[cur].end <= |js|
    requires Walked(kids, cur + 1, t - 1, k) && k < Len(kids)
    ensures ok <==> TreeAt(kids, cur + 1, t).kind == String
    ensures ok ==> state == AfterKey(js, TreeAt(kids, cur + 1, t), key) && Walked(kids, cur + 1, t, k + 1)
  {
    VisitToken(toks[..], f, cur, kids, t);
    if toks[t].kind != String { return false, SKIP; }
    KeyText(TreeAt(kids, cur + 1, t), js, toks[t], key);
    WalkTurn(kids, cur + 1, t - 1, k, t);
    return true, if TokenStrEq(js, toks[t], key) then FOUND else SKIP;
  }

  /** From token `t` over its subtree, as far as the sizes lead. */
  method SkipValue(toks: array<Token>, cur: nat, t: nat, ghost f: Forest, ghost kids: Forest) returns (t': nat)
    requires ScopeIn(toks[..], f, cur, kids) && cur < t < toks.Length && t <= cur + Count(kids)
    ensures t' == SkipTo(KidsOf(TreeAt(kids, cur + 1, t)), t) && EndsAt(KidsOf(TreeAt(kids, cur + 1, t)), t, t')
  {
    t' := t;
    VisitToken(toks[..], f, cur, kids, t);
    if toks[t].kind == Array || toks[t].kind == Object {
      t' := SkipToLast(toks, t, KidsOf(TreeAt(kids, cur + 1, t)));
    }
  }

  /** The next token of a walk is in the array, and ends by the scope's end. */
  lemma Ahead(toks: seq<Token>, f: Forest, cur: nat, kids: Forest, t: nat, k: nat)
    requires ScopeIn(toks, f, cur, kids) && Walked(kids, cur + 1, t, k) && k < Len(kids)
    ensures cur < t + 1 <= cur + Count(kids) && t + 1 < |toks| && toks[t + 1].end <= toks[cur].end
  {
    WalkAhead(kids, cur + 1, t, k);
    VisitToken(toks, f, cur, kids, t + 1);
  }

  /** One turn of json_get_value's loop, with its three states: it goes on, or ends with a result. */
  method SearchTurn(toks: array<Token>, js: string, cur: nat, t: nat, key: string, state: ParseState, ghost f: Forest,
                    ghost kids: Forest, ghost k: nat, ghost n: nat)
    returns (ended: bool, r: Result, t': nat, next: ParseState)
    requires ScopeIn(toks[..], f, cur, kids) && toks[cur].end <= |js|
    requires Walked(kids, cur + 1, t, k) && k < Len(kids) && n > 0
    ensures ended ==> r == KeyLoop(js, kids, cur + 1, t, n, state, key) && (r.code == Success ==> cur < r.at <= cur + Count(kids))
    ensures !ended ==>
              Walked(kids, cur + 1, t', k + 1)
              && KeyLoop(js, kids, cur + 1, t', n - 1, next, key) == KeyLoop(js, kids, cur + 1, t, n, state, key)
  {
    Ahead(toks[..], f, cur, kids, t, k);
    ended, r, t', next := true, Failed(ErrFail), t + 1, state;
    if toks[t'].end > toks[cur].end { return; }
    match state {
      case KEY =>
        var ok;
        ok, next := VisitKey(toks, js, cur, t', key, f, kids, k);
        ended := !ok;
      case SKIP =>
        t' := SkipValue(toks, cur, t', f, kids);
        WalkTurn(kids, cur + 1, t, k, t');
        ended, next := false, KEY;
      case FOUND =>
        r := Result(Success, t');
    }
  }

  /** The loop of json_get_value over the children of the scope. */
  method SearchKey(toks: array<Token>, js: string, cur: nat, key: string, children: nat, ghost f: Forest, ghost kids: Forest)
    returns (r: Result)
    requires ScopeIn(toks[..], f, cur, kids) && toks[cur].end <= |js| && children <= Len(kids)
    ensures r.code == Success ==> cur < r.at <= cur + Count(kids)
    ensures r == KeyLoop(js, kids, cur + 1, cur, children, KEY, key)
  {
    var t: nat, n: nat, state := cur, children, KEY;
    WalkStart(kids, cur + 1);
    while n > 0
      invariant n <= children && Walked(kids, cur + 1, t, children - n)
      invariant KeyLoop(js, kids, cur + 1, t, n, state, key) == KeyLoop(js, kids, cur + 1, cur, children, KEY, key)
    {
      var ended;
      ended, r, t, state := SearchTurn(toks, js, cur, t, key, state, f, kids, children - n, n);
      if ended { return; }
      n := n - 1;
    }
    return Failed(NotFoundErr);
  }

  /** The array after a parse: its first tokens are the forest's, and the first is its first root. */
  lemma FirstToken(toks: seq<Token>, f: Forest)
    requires Count(f) <= |toks| && toks[..Count(f)] == Flat(f, 0, -1)
    ensures FlatAt(toks, f, 0, -1)
    ensures Count(f) > 0 ==> !f.Empty? && toks[0].kind == f.kind && toks[0].size == U8(Len(KidsOf(f)))
  {
    FlatIsAt([], f, -1, toks[Count(f)..]);
    assert [] + toks[..Count(f)] + toks[Count(f)..] == toks;
  }

  // ---------- lookup by index ----------

  /** The loop of json_get_array_index. */
  method SearchIndex(toks: array<Token>, cur: nat, index: nat, ghost f: Forest, ghost kids: Forest) returns (r: Result)
    requires ScopeIn(toks[..], f, cur, kids) && index < U8(Len(kids))
    ensures r == Result(Success, IndexTo(kids, cur + 1, index)) && cur < r.at <= cur + Count(kids)
  {
    var t: nat, i: nat := cur + 1, index;
    ghost var k := 0;
    while i > 0
      invariant i + k == index && t == IndexTo(kids, cur + 1, k)
    {
      ElementAhead(toks[..], f, cur, kids, t, k);
      if toks[t].end > toks[cur].end { return Failed(ErrFail); }
      var t' := SkipValue(toks, cur, t, f, kids);
      t := t' + 1;
      i, k := i - 1, k + 1;
    }
    ElementAhead(toks[..], f, cur, kids, t, k);
    return Result(Success, t);
  }

  lemma ElementAhead(toks: seq<Token>, f: Forest, cur: nat, kids: Forest, t: nat, k: nat)
    requires ScopeIn(toks, f, cur, kids) && k < Len(kids) && t == IndexTo(kids, cur + 1, k)
    ensures cur < t <= cur + Count(kids) && t < |toks| && toks[t].end <= toks[cur].end
    ensures IndexTo(kids, cur + 1, k + 1) == SkipTo(KidsOf(TreeAt(kids, cur + 1, t)), t) + 1
  {
    IndexWalks(kids, cur + 1, k);
    Ahead(toks, f, cur, kids, t - 1, k);
  }
}
