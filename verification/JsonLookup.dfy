/** The query layer over a parsed text, said on the token tree (lib_jsmn/json_wrappers.c). */
module JsonLookup {
  import opened CInts
  import opened JsmnMachine
  import opened JsonForest

  // ---------- finding one's way in the tree ----------

  function KidsOf(f: Forest): Forest
    requires !f.Empty?
  {
    if f.Leaf? then Empty else f.kids
  }

  /** The siblings from the tree of token `i` on, for a forest that is placed at `base`. */
  function TreeAt(f: Forest, base: nat, i: nat): (t: Forest)
    requires base <= i < base + Count(f)
    ensures !t.Empty? && i + Span(t) <= base + Count(f)
  {
    if i == base then f
    else if i < base + Span(f) then TreeAt(f.kids, base + 1, i)
    else TreeAt(f.rest, base + Span(f), i)
  }

  /** Every container below has fewer than 256 children, so that its uint8_t size is exact. */
  predicate AllSmall(f: Forest) {
    match f
    case Empty => true
    case Leaf(_, _, _, rest) => AllSmall(rest)
    case Box(_, _, _, kids, rest) => Len(kids) < 256 && AllSmall(kids) && AllSmall(rest)
  }

  /** Leaves are strings and primitives, boxes are objects and arrays. */
  predicate Kinded(f: Forest) {
    match f
    case Empty => true
    case Leaf(kind, _, _, rest) => kind in {String, Primitive} && Kinded(rest)
    case Box(kind, _, _, kids, rest) => kind in {Object, Array} && Kinded(kids) && Kinded(rest)
  }

  lemma {:induction false} TreeAtPlaced(toks: seq<Token>, f: Forest, base: nat, parent: int, i: nat)
    requires FlatAt(toks, f, base, parent) && base <= i < base + Count(f)
    ensures i < |toks|
    ensures var t := TreeAt(f, base, i);
            toks[i].size == U8(Len(KidsOf(t))) && toks[i].kind == t.kind
            && toks[i].start == t.start && toks[i].end == t.end
            && FlatAt(toks, KidsOf(t), i + 1, i)
    ensures AllSmall(f) ==> AllSmall(KidsOf(TreeAt(f, base, i))) && Len(KidsOf(TreeAt(f, base, i))) < 256
    ensures Kinded(f) ==> Kinded(TreeAt(f, base, i))
    decreases f
  {
    if i == base {
      if f.Leaf? { assert FlatAt(toks, Empty, base + 1, base); }
    } else if i < base + Span(f) {
      TreeAtPlaced(toks, f.kids, base + 1, base, i);
    } else {
      TreeAtPlaced(toks, f.rest, base + Span(f), parent, i);
    }
  }

  // ---------- children ----------

  /** The siblings from the i-th on. */
  function Child(f: Forest, i: nat): (r: Forest)
    requires i <= Len(f)
    ensures i < Len(f) ==> !r.Empty?
  {
    if i == 0 then f else Child(f.rest, i - 1)
  }

  /** The token index of the i-th tree; that of the last but one more is the end of them all. */
  function ChildIndex(f: Forest, base: nat, i: nat): nat
    requires i <= Len(f)
  {
    if i == 0 then base else ChildIndex(f.rest, base + Span(f), i - 1)
  }

  // ---------- lookup by key ----------

  datatype Lookup = Found(at: nat) | NotFound | Malformed

  /** The text of a token. */
  function Text(js: string, f: Forest): string
    requires !f.Empty?
  {
    if f.start <= f.end <= |js| then js[f.start..f.end] else ""
  }

  predicate IsKey(js: string, f: Forest, key: string)
    requires !f.Empty?
  {
    f.kind == String && Text(js, f) == key
  }

  /** What json_get_value's loop finds among the first n (an even number) of the trees of `f`. */
  function Find(js: string, f: Forest, base: nat, key: string, n: nat): Lookup
    requires n % 2 == 0 && n <= Len(f)
    decreases n
  {
    if n == 0 then NotFound
    else if f.kind != String then Malformed
    else if Text(js, f) == key then Found(base + Span(f))
    else
      assert Len(f) == 1 + Len(f.rest);
      Find(js, f.rest.rest, base + Span(f) + Span(f.rest), key, n - 2)
  }

  /** Pairs 0..p have string keys other than `key`. */
  predicate OtherKeys(js: string, f: Forest, key: string, p: nat)
    requires 2 * p <= Len(f)
  {
    forall q :: 0 <= q < p ==> OtherKeyAt(js, f, key, q)
  }

  predicate OtherKeyAt(js: string, f: Forest, key: string, q: nat)
    requires 2 * q < Len(f)
  {
    Child(f, 2 * q).kind == String && Text(js, Child(f, 2 * q)) != key
  }

  /** What a lookup among the first n trees should come to: the value of the first key that
      equals the request, all earlier keys being strings; "not found" if all keys are strings
      and none is equal; failure at the first key that is not a string. */
  ghost predicate LookupSpec(js: string, f: Forest, base: nat, key: string, n: nat, r: Lookup)
    requires n % 2 == 0 && n <= Len(f)
  {
    match r
    case Found(at) => exists p :: 0 <= 2 * p < n && FoundAt(js, f, base, key, p, at)
    case NotFound => OtherKeys(js, f, key, n / 2)
    case Malformed => exists p :: 0 <= 2 * p < n && MalformedAt(js, f, key, p)
  }

  predicate FoundAt(js: string, f: Forest, base: nat, key: string, p: nat, at: nat)
    requires 2 * p + 1 < Len(f)
  {
    OtherKeys(js, f, key, p) && IsKey(js, Child(f, 2 * p), key) && at == ChildIndex(f, base, 2 * p + 1)
  }

  predicate MalformedAt(js: string, f: Forest, key: string, p: nat)
    requires 2 * p < Len(f)
  {
    OtherKeys(js, f, key, p) && Child(f, 2 * p).kind != String
  }

  /** json_get_value's loop comes to exactly that. */
  lemma {:induction false} FindMeaning(js: string, f: Forest, base: nat, key: string, n: nat)
    requires n % 2 == 0 && n <= Len(f)
    ensures LookupSpec(js, f, base, key, n, Find(js, f, base, key, n))
    decreases n
  {
    if n == 0 {
    } else if f.kind != String {
      assert MalformedAt(js, f, key, 0);
    } else if Text(js, f) == key {
      assert ChildIndex(f, base, 1) == base + Span(f);
      assert FoundAt(js, f, base, key, 0, base + Span(f));
    } else {
      var g, b := f.rest.rest, base + Span(f) + Span(f.rest);
      FindMeaning(js, g, b, key, n - 2);
      LookupShift(js, f, base, key, n, Find(js, g, b, key, n - 2));
    }
  }

  /** The lookup past a pair with another key. */
  lemma {:induction false} LookupShift(js: string, f: Forest, base: nat, key: string, n: nat, r: Lookup)
    requires 2 <= n && n % 2 == 0 && n <= Len(f) && f.kind == String && Text(js, f) != key && !f.rest.Empty?
    requires n - 2 <= Len(f.rest.rest)
    requires LookupSpec(js, f.rest.rest, base + Span(f) + Span(f.rest), key, n - 2, r)
    ensures LookupSpec(js, f, base, key, n, r)
  {
    var g, b := f.rest.rest, base + Span(f) + Span(f.rest);
    match r
    case Found(at) =>
      var p :| 0 <= 2 * p < n - 2 && FoundAt(js, g, b, key, p, at);
      OtherKeysShift(js, f, key, p);
      ChildShift(f, base, 2 * p);
      ChildShift(f, base, 2 * p + 1);
      assert FoundAt(js, f, base, key, p + 1, at);
    case NotFound =>
      OtherKeysShift(js, f, key, (n - 2) / 2);
    case Malformed =>
      var p :| 0 <= 2 * p < n - 2 && MalformedAt(js, g, key, p);
      OtherKeysShift(js, f, key, p);
      ChildShift(f, base, 2 * p);
      assert MalformedAt(js, f, key, p + 1);
  }

  lemma ChildShift(f: Forest, base: nat, i: nat)
    requires i + 2 < Len(f)
    ensures !f.rest.Empty?
    ensures Child(f, i + 2) == Child(f.rest.rest, i)
    ensures ChildIndex(f, base, i + 2) == ChildIndex(f.rest.rest, base + Span(f) + Span(f.rest), i)
  {
  }

  lemma OtherKeysShift(js: string, f: Forest, key: string, p: nat)
    requires !f.Empty? && !f.rest.Empty? && 2 * (p + 1) <= Len(f) && 2 * p <= Len(f.rest.rest)
    requires f.kind == String && Text(js, f) != key
    requires OtherKeys(js, f.rest.rest, key, p)
    ensures OtherKeys(js, f, key, p + 1)
  {
    forall q | 0 <= q < p + 1 ensures OtherKeyAt(js, f, key, q) {
      if q == 0 {
        assert Child(f, 2 * 0) == f;
      } else {
        ChildShift(f, 0, 2 * (q - 1));
        assert OtherKeyAt(js, f.rest.rest, key, q - 1);
      }
    }
  }

  // ---------- scope ----------

  /** The return codes of the query layer (WM_SUCCESS and the negated wm_json_errno values). */
  datatype JsonCode =
    | Success | ErrFail | InvalidJobj | NotFoundErr | InvalidType | InvalidIndex | InvalidJarray
    | ErrNoMem | ErrInval | ErrIncomplete

  datatype Result = Result(code: JsonCode, at: nat)

  function Failed(code: JsonCode): Result {
    Result(code, 0)
  }

  /** json_get_value, from scope token `cur`. */
  function GetValue(js: string, f: Forest, cur: nat, key: string): Result
    requires cur < Count(f)
  {
    var t := TreeAt(f, 0, cur);
    var n := U8(Len(KidsOf(t)));
    if n == 0 || n % 2 != 0 then Failed(ErrFail)
    else if t.kind != Object then Failed(InvalidJobj)
    else FromLookup(Find(js, KidsOf(t), cur + 1, key, n))
  }

  function FromLookup(l: Lookup): Result {
    match l
    case Found(at) => Result(Success, at)
    case NotFound => Failed(NotFoundErr)
    case Malformed => Failed(ErrFail)
  }

  /** Of any token, whatever its size: a key is not found exactly if the token is an object with
      members, all of them (as many as its size says) have strings for their keys, and none of
      these is that key. With a size of zero or an odd one the search says ErrFail. */
  lemma NotFoundIff(js: string, f: Forest, cur: nat, kids: Forest, n: nat, key: string)
    requires cur < Count(f) && kids == KidsOf(TreeAt(f, 0, cur)) && n == U8(Len(kids))
    ensures GetValue(js, f, cur, key).code == NotFoundErr <==>
              TreeAt(f, 0, cur).kind == Object && n > 0 && n % 2 == 0 && OtherKeys(js, kids, key, n / 2)
    ensures n == 0 || n % 2 != 0 ==> GetValue(js, f, cur, key).code == ErrFail
  {
    if n % 2 == 0 {
      FindMeaning(js, kids, cur + 1, key, n);
      match Find(js, kids, cur + 1, key, n)
      case Found(at) =>
        var p :| 0 <= 2 * p < n && FoundAt(js, kids, cur + 1, key, p, at);
        assert !OtherKeyAt(js, kids, key, p);
      case NotFound =>
      case Malformed =>
        var p :| 0 <= 2 * p < n && MalformedAt(js, kids, key, p);
        assert !OtherKeyAt(js, kids, key, p);
    }
  }

  /** json_get_array_index, from scope token `cur`. */
  function GetIndex(f: Forest, cur: nat, index: nat): Result
    requires cur < Count(f)
  {
    var t := TreeAt(f, 0, cur);
    if t.kind != Array then Failed(InvalidJarray)
    else if index >= U8(Len(KidsOf(t))) then Failed(InvalidIndex)
    else Result(Success, ChildIndex(KidsOf(t), cur + 1, index))
  }

  /** What the string getters return for what was found: its text, if it is a string that fits
      into maxlen bytes together with its NUL. */
  function StringValue(js: string, f: Forest, r: Result, maxlen: nat): (JsonCode, string) {
    if r.code != Success then (r.code, "")
    else if r.at >= Count(f) || TreeAt(f, 0, r.at).kind != String then (InvalidType, "")
    else if |Text(js, TreeAt(f, 0, r.at))| >= maxlen then (ErrNoMem, "")
    else (Success, Text(js, TreeAt(f, 0, r.at)))
  }

  /** The checks that the composite and array getters make on what was found, and the new scope. */
  function Enter(f: Forest, r: Result, cur: nat, kind: Kind): Result
    requires cur < Count(f)
  {
    if r.code != Success then Result(r.code, cur)
    else if r.at >= Count(f) || TreeAt(f, 0, r.at).kind != kind then Result(InvalidType, cur)
    else if kind == Object && U8(Len(KidsOf(TreeAt(f, 0, r.at)))) % 2 != 0 then Result(InvalidJobj, cur)
    else Result(Success, r.at)
  }

  /** The code of every search and getter that fails, and when it is given. */
  lemma SearchCodes(js: string, f: Forest, cur: nat, key: string, index: nat)
    requires cur < Count(f)
    ensures var t, n := TreeAt(f, 0, cur), U8(Len(KidsOf(TreeAt(f, 0, cur))));
            && (GetValue(js, f, cur, key).code == InvalidJobj <==> n > 0 && n % 2 == 0 && t.kind != Object)
            && (GetValue(js, f, cur, key).code in {Success, NotFoundErr, ErrFail, InvalidJobj})
            && (GetIndex(f, cur, index).code == InvalidJarray <==> t.kind != Array)
            && (GetIndex(f, cur, index).code == InvalidIndex <==> t.kind == Array && index >= n)
            && (GetIndex(f, cur, index).code == Success <==> t.kind == Array && index < n)
  {
  }

  lemma GetterCodes(js: string, f: Forest, cur: nat, at: nat, kind: Kind, maxlen: nat)
    requires cur < Count(f) && at < Count(f)
    ensures var t, r := TreeAt(f, 0, at), Result(Success, at);
            && (StringValue(js, f, r, maxlen).0 == InvalidType <==> t.kind != String)
            && (StringValue(js, f, r, maxlen).0 == ErrNoMem <==> t.kind == String && |Text(js, t)| >= maxlen)
            && (StringValue(js, f, r, maxlen).0 == Success <==> t.kind == String && |Text(js, t)| < maxlen)
            && (Enter(f, r, cur, kind) == Result(InvalidType, cur) <==> t.kind != kind)
            && (Enter(f, r, cur, kind) == Result(InvalidJobj, cur)
                <==> t.kind == kind == Object && U8(Len(KidsOf(t))) % 2 == 1)
            && (Enter(f, r, cur, kind) == Result(Success, at)
                <==> t.kind == kind && (kind == Object ==> U8(Len(KidsOf(t))) % 2 == 0))
  {
  }

  datatype ScopeOp =
    | IntoKey(key: string, kind: Kind)      // json_get_composite_object, json_get_array_object
    | IntoIndex(index: nat, kind: Kind)     // json_array_get_composite_object, json_array_get_array_object
    | Release                               // the four release functions

  /** The parent link of token `i` of a forest that is placed at `base` under `parent`. */
  function ParentIn(f: Forest, base: nat, parent: int, i: nat): int
    requires base <= i < base + Count(f)
  {
    if i == base then parent
    else if i < base + Span(f) then ParentIn(f.kids, base + 1, base, i)
    else ParentIn(f.rest, base + Span(f), parent, i)
  }

  lemma {:induction false} ParentPlaced(toks: seq<Token>, f: Forest, base: nat, parent: int, i: nat)
    requires FlatAt(toks, f, base, parent) && -1 <= parent < base && base <= i < base + Count(f)
    ensures i < |toks| && toks[i].parent == ParentIn(f, base, parent, i) && -1 <= toks[i].parent < i
    decreases f
  {
    if i == base {
    } else if i < base + Span(f) {
      ParentPlaced(toks, f.kids, base + 1, base, i);
    } else {
      ParentPlaced(toks, f.rest, base + Span(f), parent, i);
    }
  }

  lemma {:induction false} ParentInside(f: Forest, base: nat, parent: int, i: nat, k: nat)
    requires base <= i < base + Count(f) && i < k <= i + Count(KidsOf(TreeAt(f, base, i)))
    ensures k < base + Count(f) && ParentIn(f, base, parent, k) == ParentIn(KidsOf(TreeAt(f, base, i)), i + 1, i, k)
    decreases f
  {
    if i == base {
    } else if i < base + Span(f) {
      ParentInside(f.kids, base + 1, base, i, k);
    } else {
      ParentInside(f.rest, base + Span(f), parent, i, k);
    }
  }

  lemma {:induction false} ChildParent(f: Forest, base: nat, parent: int, i: nat)
    requires i < Len(f)
    ensures base <= ChildIndex(f, base, i) < base + Count(f)
    ensures ParentIn(f, base, parent, ChildIndex(f, base, i)) == parent
    decreases i
  {
    if i > 0 { ChildParent(f.rest, base + Span(f), parent, i - 1); }
  }

  /** The parent link of token `cur`. */
  function ParentOf(f: Forest, cur: nat): (p: int)
    requires cur < Count(f)
    ensures -1 <= p < cur
  {
    ParentBounds(f, 0, -1, cur);
    ParentIn(f, 0, -1, cur)
  }

  lemma {:induction false} ParentBounds(f: Forest, base: nat, parent: int, i: nat)
    requires -1 <= parent < base <= i < base + Count(f)
    ensures parent <= ParentIn(f, base, parent, i) < i
    decreases f
  {
    if i == base {
    } else if i < base + Span(f) {
      ParentBounds(f.kids, base + 1, base, i);
    } else {
      ParentBounds(f.rest, base + Span(f), parent, i);
    }
  }

  /** One scope operation on the flat array of `f`: its return code and the scope it leaves. */
  function ScopeStep(js: string, f: Forest, cur: nat, op: ScopeOp): Result
    requires cur < Count(f)
  {
    match op
    case IntoKey(key, kind) => Enter(f, GetValue(js, f, cur, key), cur, kind)
    case IntoIndex(index, kind) => Enter(f, GetIndex(f, cur, index), cur, kind)
    case Release =>
      var parent := ParentOf(f, cur);
      if parent < 0 then Result(ErrFail, cur) else Result(Success, parent)
  }

  /** Only the first token's scope cannot be released, in the tree of one value. */
  lemma {:induction false} ReleaseMeaning(js: string, f: Forest, cur: nat)
    requires cur < Count(f) && f.rest.Empty?
    ensures ScopeStep(js, f, cur, Release).code == Success <==> cur != 0
    ensures cur == 0 ==> ScopeStep(js, f, cur, Release) == Result(ErrFail, 0)
    ensures cur != 0 ==> ScopeStep(js, f, cur, Release).at < cur
  {
    if f.Box? && cur != 0 { ParentBounds(f.kids, 1, 0, cur); }
  }

  /** The i-th child of token `cur` is a token whose parent is `cur`. */
  lemma ChildOfToken(f: Forest, cur: nat, kids: Forest, i: nat)
    requires cur < Count(f) && kids == KidsOf(TreeAt(f, 0, cur)) && i < Len(kids)
    ensures cur < ChildIndex(kids, cur + 1, i) < Count(f) && ParentOf(f, ChildIndex(kids, cur + 1, i)) == cur
  {
    ChildParent(kids, cur + 1, cur, i);
    ParentInside(f, 0, -1, cur, ChildIndex(kids, cur + 1, i));
  }

  lemma FindIsChild(js: string, f: Forest, base: nat, key: string, n: nat, at: nat) returns (i: nat)
    requires n % 2 == 0 && n <= Len(f) && Find(js, f, base, key, n) == Found(at)
    ensures i < Len(f) && at == ChildIndex(f, base, i)
  {
    FindMeaning(js, f, base, key, n);
    i := FoundChild(js, f, base, key, n, at);
  }

  lemma FoundChild(js: string, f: Forest, base: nat, key: string, n: nat, at: nat) returns (i: nat)
    requires n % 2 == 0 && n <= Len(f) && LookupSpec(js, f, base, key, n, Found(at))
    ensures i < Len(f) && at == ChildIndex(f, base, i)
  {
    var p :| 0 <= 2 * p < n && FoundAt(js, f, base, key, p, at);
    i := 2 * p + 1;
  }

  lemma FoundIsChild(js: string, f: Forest, cur: nat, key: string)
    requires cur < Count(f) && GetValue(js, f, cur, key).code == Success
    ensures GetValue(js, f, cur, key).at < Count(f) && ParentOf(f, GetValue(js, f, cur, key).at) == cur
  {
    var kids := KidsOf(TreeAt(f, 0, cur));
    FoundAmongKids(js, f, cur, key, kids, U8(Len(kids)));
  }

  lemma FoundAmongKids(js: string, f: Forest, cur: nat, key: string, kids: Forest, n: nat)
    requires cur < Count(f) && kids == KidsOf(TreeAt(f, 0, cur)) && n % 2 == 0 && n <= Len(kids)
    requires Find(js, kids, cur + 1, key, n).Found?
    ensures Find(js, kids, cur + 1, key, n).at < Count(f)
    ensures ParentOf(f, Find(js, kids, cur + 1, key, n).at) == cur
  {
    var i := FindIsChild(js, kids, cur + 1, key, n, Find(js, kids, cur + 1, key, n).at);
    ChildOfToken(f, cur, kids, i);
  }

  lemma EnterMoves(f: Forest, r: Result, cur: nat, kind: Kind)
    requires cur < Count(f) && (r.code == Success ==> r.at < Count(f) && ParentOf(f, r.at) == cur)
    ensures var e := Enter(f, r, cur, kind);
            e.at < Count(f) && if e.code == Success then ParentOf(f, e.at) == cur else e.at == cur
  {
  }

  lemma IndexIsChild(f: Forest, cur: nat, index: nat)
    requires cur < Count(f) && GetIndex(f, cur, index).code == Success
    ensures GetIndex(f, cur, index).at < Count(f) && ParentOf(f, GetIndex(f, cur, index).at) == cur
  {
    ChildOfToken(f, cur, KidsOf(TreeAt(f, 0, cur)), index);
  }

  /** A successful get moves the scope to a child of the old scope, a release to its parent;
      either way it stays on a token, and a failed operation leaves it alone. */
  lemma ScopeMoves(js: string, f: Forest, cur: nat, op: ScopeOp)
    requires cur < Count(f)
    ensures ScopeStep(js, f, cur, op).at < Count(f)
    ensures ScopeStep(js, f, cur, op).code == Success && !op.Release? ==>
              ParentOf(f, ScopeStep(js, f, cur, op).at) == cur
    ensures ScopeStep(js, f, cur, op).code != Success ==> ScopeStep(js, f, cur, op).at == cur
  {
    match op
    case IntoKey(key, kind) =>
      if GetValue(js, f, cur, key).code == Success { FoundIsChild(js, f, cur, key); }
      EnterMoves(f, GetValue(js, f, cur, key), cur, kind);
    case IntoIndex(index, kind) =>
      if GetIndex(f, cur, index).code == Success { IndexIsChild(f, cur, index); }
      EnterMoves(f, GetIndex(f, cur, index), cur, kind);
    case Release =>
  }

  /** The scope after a list of operations, or None if one of them failed. */
  datatype Scope = None | Cursor(cur: nat)

  function ScopeAfter(js: string, f: Forest, cur: nat, ops: seq<ScopeOp>): Scope
    requires cur < Count(f)
    decreases |ops|
  {
    if ops == [] then Cursor(cur)
    else
      ScopeMoves(js, f, cur, ops[0]);
      var r := ScopeStep(js, f, cur, ops[0]);
      if r.code != Success then None else ScopeAfter(js, f, r.at, ops[1..])
  }

  /** The gets and releases of `ops` are bracketed: as many of each, and below `depth` open gets
      no release goes further. */
  predicate Bracketed(ops: seq<ScopeOp>, depth: nat) {
    if ops == [] then depth == 0
    else if ops[0].Release? then depth > 0 && Bracketed(ops[1..], depth - 1)
    else Bracketed(ops[1..], depth + 1)
  }

  /** The ancestor of token `cur` that is `depth` levels up. */
  function Up(f: Forest, cur: nat, depth: nat): Scope
    requires cur < Count(f)
    decreases depth
  {
    if depth == 0 then Cursor(cur)
    else
      var parent := ParentOf(f, cur);
      if parent < 0 then None else Up(f, parent, depth - 1)
  }

  /** After any list of gets and releases that brings the nesting back by `depth` levels, the
      scope is the ancestor that many levels up. */
  lemma {:induction false} ScopeIsStack(js: string, f: Forest, cur: nat, ops: seq<ScopeOp>, depth: nat)
    requires cur < Count(f) && Bracketed(ops, depth) && ScopeAfter(js, f, cur, ops).Cursor?
    ensures ScopeAfter(js, f, cur, ops) == Up(f, cur, depth)
    decreases |ops|
  {
    if ops != [] {
      ScopeMoves(js, f, cur, ops[0]);
      var r := ScopeStep(js, f, cur, ops[0]);
      if ops[0].Release? {
        ScopeIsStack(js, f, r.at, ops[1..], depth - 1);
      } else {
        ScopeIsStack(js, f, r.at, ops[1..], depth + 1);
      }
    }
  }

  /** Every well-bracketed list of successful gets and releases, of objects and arrays at any
      depth, leaves the scope where it was. */
  lemma ScopeReturns(js: string, f: Forest, cur: nat, ops: seq<ScopeOp>)
    requires cur < Count(f) && Bracketed(ops, 0) && ScopeAfter(js, f, cur, ops).Cursor?
    ensures ScopeAfter(js, f, cur, ops) == Cursor(cur)
  {
    ScopeIsStack(js, f, cur, ops, 0);
  }
}
