/** The searches of lib_jsmn/json_wrappers.c as they walk over the tokens by their sizes, and when
    they come to what the token tree says. */
module JsonSearch {
  import opened CInts
  import opened JsmnMachine
  import opened JsonForest
  import opened JsonLookup
  import opened JsonWalk

  /** The states of json_get_value's loop. */
  datatype ParseState = KEY | FOUND | SKIP

  /** The state after a key. */
  function AfterKey(js: string, x: Forest, key: string): ParseState
    requires !x.Empty?
  {
    if Text(js, x) == key then FOUND else SKIP
  }

  /** json_get_value's loop from token t on, with n turns to go. */
  function KeyLoop(js: string, kids: Forest, b: nat, t: nat, n: nat, state: ParseState, key: string): Result
    decreases n
  {
    if n == 0 then Failed(NotFoundErr)
    else if !(b <= t + 1 < b + Count(kids)) then Failed(ErrFail)
    else
      var x := TreeAt(kids, b, t + 1);
      match state
      case KEY => if x.kind != String then Failed(ErrFail) else KeyLoop(js, kids, b, t + 1, n - 1, AfterKey(js, x, key), key)
      case FOUND => Result(Success, t + 1)
      case SKIP => KeyLoop(js, kids, b, SkipTo(KidsOf(x), t + 1), n - 1, KEY, key)
  }

  /** json_get_value, from scope token `cur`. */
  function WalkValue(js: string, f: Forest, cur: nat, key: string): Result
    requires cur < Count(f)
  {
    var t := TreeAt(f, 0, cur);
    var n := U8(Len(KidsOf(t)));
    if n == 0 || n % 2 != 0 then Failed(ErrFail)
    else if t.kind != Object then Failed(InvalidJobj)
    else KeyLoop(js, KidsOf(t), cur + 1, cur, n, KEY, key)
  }

  /** Where json_get_array_index's loop is after k elements. */
  function IndexTo(kids: Forest, b: nat, k: nat): nat {
    if k == 0 then b else PastElement(kids, b, IndexTo(kids, b, k - 1))
  }

  /** The token after the element at token t. */
  function PastElement(kids: Forest, b: nat, t: nat): nat {
    if !(b <= t < b + Count(kids)) then t else SkipTo(KidsOf(TreeAt(kids, b, t)), t) + 1
  }

  /** json_get_array_index, from scope token `cur`. */
  function WalkIndex(f: Forest, cur: nat, index: nat): Result
    requires cur < Count(f)
  {
    var t := TreeAt(f, 0, cur);
    if t.kind != Array then Failed(InvalidJarray)
    else if index >= U8(Len(KidsOf(t))) then Failed(InvalidIndex)
    else Result(Success, IndexTo(KidsOf(t), cur + 1, index))
  }

  /** The token is none of the children. */
  predicate NoChild(kids: Forest, b: nat, at: nat) {
    forall j :: 0 <= j <= Len(kids) ==> ChildIndex(kids, b, j) != at
  }

  // ---------- by key ----------

  /** What is left to do in json_get_value's loop after k children, in each of its states, to find
      `whole` and to pass over `passed` children in all. */
  ghost predicate Remaining(js: string, rest: Forest, at: nat, key: string, k: nat, n: nat, state: ParseState,
                            whole: Lookup, passed: nat)
  {
    n <= Len(rest) &&
    match state
    case KEY => n % 2 == 0 && whole == Find(js, rest, at, key, n) && passed == k + Passed(js, rest, key, n)
    case FOUND => n % 2 == 1 && whole == Found(at) && passed + 1 == k
    case SKIP =>
      && n % 2 == 1 && whole == Find(js, rest.rest, at + Span(rest), key, n - 1)
      && passed == k + 1 + Passed(js, rest.rest, key, n - 1)
  }

  /** The loop has passed over k children of the scope and has n to go. */
  ghost predicate Looking(js: string, kids: Forest, b: nat, t: nat, k: nat, n: nat, key: string,
                          state: ParseState, whole: Lookup, passed: nat)
  {
    && Walked(kids, b, t, k) && k + n <= Len(kids) && (state == KEY <==> n % 2 == 0) && passed <= Len(kids)
    && if SmallUpTo(kids, k) then Remaining(js, Child(kids, k), t + 1, key, k, n, state, whole, passed)
       else !SmallUpTo(kids, passed)
  }

  lemma RemainingKey(js: string, rest: Forest, at: nat, key: string, k: nat, n: nat, whole: Lookup, passed: nat)
    requires n > 0 && Remaining(js, rest, at, key, k, n, KEY, whole, passed)
    ensures !rest.Empty? && n - 1 <= Len(rest.rest)
    ensures if rest.kind != String then whole == Malformed
            else Remaining(js, rest.rest, at + Span(rest), key, k + 1, n - 1, AfterKey(js, rest, key), whole, passed)
  {
    assert Len(rest) == 1 + Len(rest.rest);
    if rest.kind == String && Text(js, rest) != key { SkipsPair(js, rest, at, key, n); }
  }

  lemma KeyTurn(js: string, kids: Forest, b: nat, t: nat, k: nat, n: nat, key: string,
                                   whole: Lookup, passed: nat, x: Forest)
    requires n > 0 && passed <= Len(kids) && Looking(js, kids, b, t, k, n, key, KEY, whole, passed)
    requires t + 1 < b + Count(kids) && x == TreeAt(kids, b, t + 1)
    ensures SmallUpTo(kids, passed) && x.kind != String ==> whole == Malformed
    ensures x.kind == String && x.Leaf? ==>
              Looking(js, kids, b, t + 1, k + 1, n - 1, key, AfterKey(js, x, key), whole, passed)
  {
    WalkAhead(kids, b, t, k);
    if SmallUpTo(kids, k) { RemainingKey(js, x, t + 1, key, k, n, whole, passed); }
    if x.kind == String && x.Leaf? { PastTree(kids, b, t, k, x, t + 1); }
  }

  lemma PastTree(kids: Forest, b: nat, t: nat, k: nat, x: Forest, t': nat)
    requires Walked(kids, b, t, k) && k < Len(kids) && t + 1 < b + Count(kids) && x == TreeAt(kids, b, t + 1)
    requires EndsAt(KidsOf(x), t + 1, t')
    ensures Walked(kids, b, t', k + 1) && (SmallUpTo(kids, k + 1) ==> SmallUpTo(kids, k))
    ensures SmallUpTo(kids, k) ==>
              x == Child(kids, k) && Child(kids, k + 1) == x.rest && (SmallUpTo(kids, k + 1) <==> SmallTree(x))
    ensures SmallTree(x) ==> t' == t + Span(x)
  {
    WalkTurn(kids, b, t, k, t');
    WalkAhead(kids, b, t, k);
    SmallUpToNext(kids, k);
    if SmallUpTo(kids, k) { ChildNext(kids, b, k); }
  }

  lemma RemainingValue(js: string, rest: Forest, at: nat, key: string, k: nat, n: nat, whole: Lookup, passed: nat)
    requires n > 0 && Remaining(js, rest, at, key, k, n, SKIP, whole, passed)
    ensures !rest.Empty? && k + 1 <= passed
    ensures Remaining(js, rest.rest, at + Span(rest), key, k + 1, n - 1, KEY, whole, passed)
  {
    assert Len(rest) == 1 + Len(rest.rest);
  }

  lemma ValueTurn(js: string, kids: Forest, b: nat, t: nat, k: nat, n: nat, key: string,
                                     whole: Lookup, passed: nat, t': nat)
    requires n > 0 && Looking(js, kids, b, t, k, n, key, SKIP, whole, passed)
    requires t + 1 < b + Count(kids) && EndsAt(KidsOf(TreeAt(kids, b, t + 1)), t + 1, t')
    ensures Looking(js, kids, b, t', k + 1, n - 1, key, KEY, whole, passed)
  {
    PastTree(kids, b, t, k, TreeAt(kids, b, t + 1), t');
    if SmallUpTo(kids, k) {
      RemainingValue(js, Child(kids, k), t + 1, key, k, n, whole, passed);
      if SmallUpTo(kids, passed) { SmallUpToLess(kids, k + 1, passed); }
    }
  }

  /** In state FOUND the next token is the value that was looked for, or none of the children. */
  lemma FoundHere(js: string, kids: Forest, b: nat, t: nat, k: nat, n: nat, key: string,
                                     children: nat, whole: Lookup, passed: nat)
    requires children % 2 == 0 && children <= Len(kids) && children < 256 && k < children
    requires whole == Find(js, kids, b, key, children) && n > 0 && passed <= Len(kids)
    requires Looking(js, kids, b, t, k, n, key, FOUND, whole, passed)
    ensures SmallUpTo(kids, passed) <==> whole == Found(t + 1)
  {
    if SmallUpTo(kids, k) {
      SmallUpToLess(kids, passed, k);
    } else if whole == Found(t + 1) {
      var j := FindIsChild(js, kids, b, key, children, t + 1);
      WalkLost(kids, b, t, k, j);
    }
  }

  lemma NoneLeft(js: string, kids: Forest, b: nat, t: nat, k: nat, key: string,
                                    state: ParseState, whole: Lookup, passed: nat)
    requires passed <= Len(kids) && Looking(js, kids, b, t, k, 0, key, state, whole, passed)
    ensures SmallUpTo(kids, passed) ==> whole == NotFound
  {
  }

  lemma StartLooking(js: string, kids: Forest, b: nat, key: string, n: nat)
    requires b > 0 && n % 2 == 0 && n <= Len(kids)
    ensures Looking(js, kids, b, b - 1, 0, n, key, KEY, Find(js, kids, b, key, n), Passed(js, kids, key, n))
  {
    WalkStart(kids, b);
    assert Child(kids, 0) == kids;
  }

  /** What the search returns is right, if the sizes that it should pass over are exact; and a
      value that is there is returned only if they are. */
  ghost predicate Right(kids: Forest, passed: nat, whole: Lookup, r: Result)
    requires passed <= Len(kids)
  {
    (SmallUpTo(kids, passed) ==> r == FromLookup(whole))
    && (whole.Found? ==> (r == FromLookup(whole) <==> SmallUpTo(kids, passed)))
  }

  lemma {:induction false} KindedTree(f: Forest, base: nat, i: nat)
    requires Kinded(f) && base <= i < base + Count(f)
    ensures Kinded(TreeAt(f, base, i))
    decreases f
  {
    if i == base {
    } else if i < base + Span(f) {
      KindedTree(f.kids, base + 1, i);
    } else {
      KindedTree(f.rest, base + Span(f), i);
    }
  }

  /** A walk that has lost its way stands before none of the children. */
  lemma LostNoChild(kids: Forest, b: nat, t: nat, k: nat)
    requires Walked(kids, b, t, k) && !SmallUpTo(kids, k) && k < 256
    ensures NoChild(kids, b, t + 1)
  {
    forall j | 0 <= j <= Len(kids) ensures ChildIndex(kids, b, j) != t + 1 { WalkLost(kids, b, t, k, j); }
  }

  /** What a search comes to: the right result if the sizes passed are exact; else no child. */
  ghost predicate Comes(kids: Forest, b: nat, passed: nat, whole: Lookup, r: Result)
    requires passed <= Len(kids)
  {
    Right(kids, passed, whole, r) && (!SmallUpTo(kids, passed) && r.code == Success ==> NoChild(kids, b, r.at))
  }

  lemma FoundComes(js: string, kids: Forest, b: nat, t: nat, k: nat, n: nat, key: string, children: nat, whole: Lookup, passed: nat)
    requires n > 0 && k + n == children <= Len(kids) && children < 256 && children % 2 == 0
    requires whole == Find(js, kids, b, key, children)
    requires passed <= Len(kids) && Looking(js, kids, b, t, k, n, key, FOUND, whole, passed)
    ensures Comes(kids, b, passed, whole, Result(Success, t + 1))
  {
    FoundHere(js, kids, b, t, k, n, key, children, whole, passed);
    if !SmallUpTo(kids, passed) {
      if SmallUpTo(kids, k) { SmallUpToLess(kids, passed, k); }
      LostNoChild(kids, b, t, k);
    }
  }

  /** A turn that passes over a value. */
  lemma SkipLooks(js: string, kids: Forest, b: nat, t: nat, k: nat, n: nat, key: string, whole: Lookup, passed: nat) returns (t': nat)
    requires n > 0 && passed <= Len(kids) && Looking(js, kids, b, t, k, n, key, SKIP, whole, passed)
    ensures b <= t + 1 < b + Count(kids) && t' == SkipTo(KidsOf(TreeAt(kids, b, t + 1)), t + 1)
    ensures Looking(js, kids, b, t', k + 1, n - 1, key, KEY, whole, passed)
  {
    WalkAhead(kids, b, t, k);
    var inner := KidsOf(TreeAt(kids, b, t + 1));
    t' := SkipTo(inner, t + 1);
    SkipToEnds(inner, t + 1);
    ValueTurn(js, kids, b, t, k, n, key, whole, passed, t');
  }

  /** A turn that looks at a key. */
  lemma KeyLooks(js: string, kids: Forest, b: nat, t: nat, k: nat, n: nat, key: string, whole: Lookup, passed: nat) returns (x: Forest)
    requires Kinded(kids) && n > 0 && passed <= Len(kids) && Looking(js, kids, b, t, k, n, key, KEY, whole, passed)
    ensures b <= t + 1 < b + Count(kids) && x == TreeAt(kids, b, t + 1)
    ensures x.kind != String && SmallUpTo(kids, passed) ==> whole == Malformed
    ensures x.kind == String ==> Looking(js, kids, b, t + 1, k + 1, n - 1, key, AfterKey(js, x, key), whole, passed)
  {
    WalkAhead(kids, b, t, k);
    x := TreeAt(kids, b, t + 1);
    KeyTurn(js, kids, b, t, k, n, key, whole, passed, x);
    KindedTree(kids, b, t + 1);
  }

  lemma {:induction false} KeyLoopComes(js: string, kids: Forest, b: nat, t: nat, k: nat, n: nat, state: ParseState, key: string,
                                        children: nat, whole: Lookup, passed: nat)
    requires Kinded(kids) && k + n == children <= Len(kids) && children < 256 && children % 2 == 0
    requires whole == Find(js, kids, b, key, children)
    requires passed <= Len(kids) && Looking(js, kids, b, t, k, n, key, state, whole, passed)
    ensures Comes(kids, b, passed, whole, KeyLoop(js, kids, b, t, n, state, key))
    decreases n
  {
    if n == 0 {
      NoneLeft(js, kids, b, t, k, key, state, whole, passed);
    } else {
      match state
      case KEY =>
        var x := KeyLooks(js, kids, b, t, k, n, key, whole, passed);
        if x.kind == String {
          KeyLoopComes(js, kids, b, t + 1, k + 1, n - 1, AfterKey(js, x, key), key, children, whole, passed);
        }
      case FOUND =>
        WalkAhead(kids, b, t, k);
        FoundComes(js, kids, b, t, k, n, key, children, whole, passed);
      case SKIP =>
        var t' := SkipLooks(js, kids, b, t, k, n, key, whole, passed);
        KeyLoopComes(js, kids, b, t', k + 1, n - 1, KEY, key, children, whole, passed);
    }
  }

  /** A search by key comes to what the tree says, if the sizes that it passes over are exact. If
      they are not, it does not come to a value that is there, nor to any other child. */
  lemma WalkValueIff(js: string, f: Forest, cur: nat, key: string)
    requires cur < Count(f) && Kinded(KidsOf(TreeAt(f, 0, cur)))
    ensures var r, tree := WalkValue(js, f, cur, key), GetValue(js, f, cur, key);
            && (KeyExact(js, f, cur, key) ==> r == tree)
            && (tree.code == Success ==> (r == tree <==> KeyExact(js, f, cur, key)))
            && (!KeyExact(js, f, cur, key) && r.code == Success ==> NoChild(KidsOf(TreeAt(f, 0, cur)), cur + 1, r.at))
  {
    var kids := KidsOf(TreeAt(f, 0, cur));
    var n := U8(Len(kids));
    if n % 2 == 0 && n > 0 && TreeAt(f, 0, cur).kind == Object {
      StartLooking(js, kids, cur + 1, key, n);
      KeyLoopComes(js, kids, cur + 1, cur, 0, n, KEY, key, n, Find(js, kids, cur + 1, key, n), Passed(js, kids, key, n));
    }
  }

  // ---------- by index ----------

  lemma {:induction false} PastWalks(kids: Forest, b: nat, t: nat, k: nat)
    requires b > 0 && t > 0 && k < Len(kids) && Walked(kids, b, t - 1, k)
    ensures b <= t < b + Count(kids) && PastElement(kids, b, t) > 0 && Walked(kids, b, PastElement(kids, b, t) - 1, k + 1)
  {
    WalkAhead(kids, b, t - 1, k);
    var inner := KidsOf(TreeAt(kids, b, t));
    SkipToEnds(inner, t);
    WalkTurn(kids, b, t - 1, k, SkipTo(inner, t));
  }

  lemma {:induction false} IndexWalks(kids: Forest, b: nat, k: nat)
    requires b > 0 && k <= Len(kids)
    ensures IndexTo(kids, b, k) > 0 && Walked(kids, b, IndexTo(kids, b, k) - 1, k)
  {
    if k == 0 {
      WalkStart(kids, b);
    } else {
      IndexWalks(kids, b, k - 1);
      PastWalks(kids, b, IndexTo(kids, b, k - 1), k - 1);
    }
  }

  lemma IndexToIff(kids: Forest, b: nat, index: nat, at: nat)
    requires b > 0 && index < Len(kids) && index < 256 && at == IndexTo(kids, b, index)
    ensures at == ChildIndex(kids, b, index) <==> SmallUpTo(kids, index)
    ensures !SmallUpTo(kids, index) ==> NoChild(kids, b, at)
  {
    IndexWalks(kids, b, index);
    if !SmallUpTo(kids, index) { LostNoChild(kids, b, at - 1, index); }
  }

  /** A search by index comes to what the tree says exactly if the sizes that it passes over are
      exact, and else to no child. */
  lemma WalkIndexIff(f: Forest, cur: nat, index: nat)
    requires cur < Count(f)
    ensures WalkIndex(f, cur, index) == GetIndex(f, cur, index) <==> IndexExact(f, cur, index)
    ensures !IndexExact(f, cur, index) ==> NoChild(KidsOf(TreeAt(f, 0, cur)), cur + 1, WalkIndex(f, cur, index).at)
  {
    var kids := KidsOf(TreeAt(f, 0, cur));
    if TreeAt(f, 0, cur).kind == Array && index < U8(Len(kids)) {
      IndexToIff(kids, cur + 1, index, IndexTo(kids, cur + 1, index));
    }
  }
}
