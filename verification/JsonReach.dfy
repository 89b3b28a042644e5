/** How far the searches of lib_jsmn/json_wrappers.c reach in a document of any size: which of its
    members and elements they come to, and which of them are there and not found. */
module JsonReach {
  import opened CInts
  import opened JsmnScan
  import opened JsmnMachine
  import opened JsonForest
  import opened JsonText
  import opened JsonEscape
  import opened JsonDoc
  import opened JsonLayout
  import opened JsonRoundTrip
  import opened JsonQuery
  import opened JsonSearch
  import L = JsonLookup
  import W = JsonWalk
  import O = JsonWrappers

  // ---------- what a search passes over ----------

  /** The values of the members before the first one of that name, among the first m, are small. */
  predicate SmallAmong(ms: Members, key: string, m: nat)
    requires m <= NumMembers(ms)
  {
    m == 0 || ms.name == key || (SmallValue(ms.value) && SmallAmong(ms.rest, key, m - 1))
  }

  /** The values of all members before the first one of that name are small. */
  predicate SmallBefore(ms: Members, key: string) {
    ms.MNil? || ms.name == key || (SmallValue(ms.value) && SmallBefore(ms.rest, key))
  }

  /** The first n elements are small. */
  predicate SmallFirst(es: Elems, n: nat)
    requires n <= NumElems(es)
  {
    n == 0 || (SmallNode(NodeOfElem(es)) && SmallFirst(es.rest, n - 1))
  }

  lemma {:induction false} AmongIsBefore(ms: Members, key: string, m: nat)
    requires Position(ms, key) < m <= NumMembers(ms)
    ensures SmallAmong(ms, key, m) <==> SmallBefore(ms, key)
  {
    if ms.name != key { AmongIsBefore(ms.rest, key, m - 1); }
  }

  /** The sizes in a value's tree are exact exactly if the value is small. */
  lemma {:induction false} HoldsSmall(js: string, f: Forest, n: Node)
    requires Holds(js, f, n)
    ensures W.SmallTree(f) <==> SmallNode(n)
  {
    match n
    case Text(_, _) =>
    case Obj(ms) => SmallMembersTree(ms, true, f.start + 1);
    case Arr(es) => SmallElemsTree(es, true, f.start + 1);
  }

  lemma ValueSmall(v: Value)
    ensures SmallNode(NodeOf(v)) <==> SmallValue(v)
  {
  }

  lemma {:induction false} MembersPassed(js: string, f: Forest, ms: Members, key: string, m: nat)
    requires MembersIn(js, f, ms) && m <= NumMembers(ms) && Len(f) == 2 * NumMembers(ms)
    ensures 2 * m % 2 == 0 && (W.PassesSmall(js, f, key, 2 * m) <==> SmallAmong(ms, key, m))
    decreases ms
  {
    EvenDouble(m);
    if m > 0 && ms.name != key {
      assert Len(f) == 2 + Len(f.rest.rest) && 2 * m - 2 == 2 * (m - 1);
      MemberPassed(js, f, ms, key, 2 * m);
      MembersPassed(js, f.rest.rest, ms.rest, key, m - 1);
    }
  }

  lemma {:induction false} PairPassed(js: string, f: Forest, key: string, n: nat)
    requires 0 < n <= Len(f) && n % 2 == 0 && f.kind == String && L.Text(js, f) != key
    ensures !f.rest.Empty? && n - 2 <= Len(f.rest.rest)
    ensures W.PassesSmall(js, f, key, n)
            <==> W.SmallTree(f) && W.SmallTree(f.rest) && W.PassesSmall(js, f.rest.rest, key, n - 2)
  {
    W.SkipsPair(js, f, 0, key, n);
    W.SmallUpToPair(f, W.Passed(js, f.rest.rest, key, n - 2));
  }

  /** The pair of trees of one member with another name. */
  lemma {:induction false} MemberPassed(js: string, f: Forest, ms: Members, key: string, n: nat)
    requires 0 < n <= Len(f) && n % 2 == 0 && MembersIn(js, f, ms) && ms.MCons? && ms.name != key
    ensures !f.rest.Empty? && n - 2 <= Len(f.rest.rest)
    ensures W.PassesSmall(js, f, key, n) <==> SmallValue(ms.value) && W.PassesSmall(js, f.rest.rest, key, n - 2)
  {
    PairPassed(js, f, key, n);
    HoldsSmall(js, f, Text(String, ms.name));
    HoldsSmall(js, f.rest, NodeOf(ms.value));
    ValueSmall(ms.value);
  }

  lemma {:induction false} ElemsPassed(js: string, p: nat, es: Elems, first: bool, n: nat)
    requires Stands(js, p, TextOf(LayElems(es, first))) && n <= NumElems(es)
    ensures var f := TreeOf(LayElems(es, first), p);
            Len(f) == NumElems(es) && (W.SmallUpTo(f, n) <==> SmallFirst(es, n))
    decreases es
  {
    if !es.ENil? {
      var q := ElemHolds(js, p, Comma(first), es, LayElems(es.rest, false));
      ElemsPassed(js, q, es.rest, false, if n == 0 then 0 else n - 1);
      HoldsSmall(js, TreeOf(LayElems(es, first), p), NodeOfElem(es));
    }
  }

  /** In a container of any size, json_get_value passes over exact sizes alone exactly if the values
      before the name, among those that the container's size counts, are small; and so does
      json_get_array_index with the elements before the index. */
  lemma {:induction false} ExactInDocument(js: string, f: Forest, cur: nat, n: Node, step: Step)
    requires cur < Count(f) && Holds(js, L.TreeAt(f, 0, cur), n)
    ensures match (n, step)
            case (Obj(ms), Key(key)) => W.KeyExact(js, f, cur, key) <==> SmallAmong(ms, key, NumMembers(ms) % 128)
            case (Arr(es), Index(i)) => W.IndexExact(f, cur, i) <==> (i < NumElems(es) % 256 ==> SmallFirst(es, i))
            case (_, _) => true
  {
    var t := L.TreeAt(f, 0, cur);
    match (n, step)
    case (Obj(ms), Key(key)) =>
      ObjKids(js, t, ms);
      MembersPassed(js, t.kids, ms, key, NumMembers(ms) % 128);
    case (Arr(es), Index(i)) =>
      ArrKids(js, t, es);
      if i < NumElems(es) { ElemsPassed(js, t.start + 1, es, true, i); }
    case (_, _) =>
  }

  // ---------- one get ----------

  /** A get without entering, as the code walks. */
  function WalkGet(js: string, f: Forest, cur: nat, step: Step): L.Result
    requires cur < Count(f)
  {
    match step
    case Key(key) => WalkValue(js, f, cur, key)
    case Index(i) => WalkIndex(f, cur, i)
  }

  /** Which of the container's children the step leads to. */
  function Slot(n: Node, step: Step): nat {
    match (n, step)
    case (Obj(ms), Key(key)) => 2 * Position(ms, key) + 1
    case (_, Index(i)) => i
    case (_, _) => 0
  }

  /** The token of what the step leads to, from the container at token `cur`. */
  function Place(f: Forest, cur: nat, n: Node, step: Step): nat
    requires cur < Count(f)
  {
    var kids := L.KidsOf(L.TreeAt(f, 0, cur));
    if Slot(n, step) < Len(kids) then L.ChildIndex(kids, cur + 1, Slot(n, step)) else 0
  }

  /** Everything that stands before it is small. */
  predicate Clear(n: Node, step: Step) {
    match (n, step)
    case (Obj(ms), Key(key)) => SmallBefore(ms, key)
    case (Arr(es), Index(i)) => i < NumElems(es) ==> SmallFirst(es, i)
    case (_, _) => true
  }

  /** The step leads to something that the container's size counts, past small values alone. */
  predicate Reachable(n: Node, step: Step) {
    Go(n, step).Some? && Counted(n, step) && Clear(n, step)
  }

  /** What a get comes to: what is there if the step reaches it, and else no child at all. */
  ghost predicate Reaches(f: Forest, cur: nat, r: L.Result, n: Node, step: Step)
    requires cur < Count(f)
  {
    if Reachable(n, step) then r == L.Result(L.Success, Place(f, cur, n, step))
    else r.code == L.Success ==> NoChild(L.KidsOf(L.TreeAt(f, 0, cur)), cur + 1, r.at)
  }

  /** What the two searches say of a member, put together. */
  lemma {:induction false} KeyComes(f: Forest, cur: nat, kids: Forest, ms: Members, key: string, r: L.Result, exact: bool)
    requires cur < Count(f) && kids == L.KidsOf(L.TreeAt(f, 0, cur)) && Len(kids) == 2 * NumMembers(ms)
    requires exact ==> r == KeyResult(kids, cur + 1, ms, key)
    requires !exact && r.code == L.Success ==> NoChild(kids, cur + 1, r.at)
    requires Counted(Obj(ms), Key(key)) ==> (exact <==> SmallBefore(ms, key))
    ensures Reaches(f, cur, r, Obj(ms), Key(key))
  {
    if Counted(Obj(ms), Key(key)) {
      assert Reachable(Obj(ms), Key(key)) <==> exact;
    } else {
      assert !Reachable(Obj(ms), Key(key));
    }
  }

  lemma {:induction false} ExactIfBefore(js: string, f: Forest, cur: nat, ms: Members, key: string)
    requires cur < Count(f) && Holds(js, L.TreeAt(f, 0, cur), Obj(ms)) && Counted(Obj(ms), Key(key))
    ensures W.KeyExact(js, f, cur, key) <==> SmallBefore(ms, key)
  {
    ExactInDocument(js, f, cur, Obj(ms), Key(key));
    AmongIsBefore(ms, key, NumMembers(ms) % 128);
  }

  lemma {:induction false} KeyReaches(js: string, f: Forest, cur: nat, ms: Members, key: string)
    requires cur < Count(f) && L.Kinded(L.KidsOf(L.TreeAt(f, 0, cur))) && Holds(js, L.TreeAt(f, 0, cur), Obj(ms))
    ensures Reaches(f, cur, WalkValue(js, f, cur, key), Obj(ms), Key(key))
  {
    KeyAnswers(js, f, cur, ms, key);
    WalkValueIff(js, f, cur, key);
    if Counted(Obj(ms), Key(key)) { ExactIfBefore(js, f, cur, ms, key); }
    KeyComes(f, cur, L.KidsOf(L.TreeAt(f, 0, cur)), ms, key, WalkValue(js, f, cur, key), W.KeyExact(js, f, cur, key));
  }

  lemma {:induction false} IndexReaches(js: string, f: Forest, cur: nat, es: Elems, i: nat)
    requires cur < Count(f) && Holds(js, L.TreeAt(f, 0, cur), Arr(es))
    ensures Reaches(f, cur, WalkIndex(f, cur, i), Arr(es), Index(i))
  {
    IndexAnswers(js, f, cur, es, i);
    WalkIndexIff(f, cur, i);
    ExactInDocument(js, f, cur, Arr(es), Index(i));
  }

  /** In a written document of any size, json_get_value comes to a member, and json_get_array_index
      to an element, exactly if it is one of those that the container's size counts and everything
      before it is small. If not, they come to no member and no element. */
  lemma {:induction false} GetReaches(js: string, f: Forest, cur: nat, n: Node, step: Step)
    requires cur < Count(f) && L.Kinded(L.KidsOf(L.TreeAt(f, 0, cur))) && Holds(js, L.TreeAt(f, 0, cur), n)
    ensures Reaches(f, cur, WalkGet(js, f, cur, step), n, step)
  {
    match (n, step)
    case (Obj(ms), Key(key)) => KeyReaches(js, f, cur, ms, key);
    case (Arr(es), Index(i)) => IndexReaches(js, f, cur, es, i);
    case (Arr(_), Key(_)) =>
    case (Obj(_), Index(_)) =>
    case (Text(_, _), _) =>
  }

  // ---------- how deep a token is ----------

  /** The number of containers around token i. */
  function Depth(f: Forest, base: nat, i: nat): nat
    requires base <= i < base + Count(f)
  {
    if i == base then 0
    else if i < base + Span(f) then 1 + Depth(f.kids, base + 1, i)
    else Depth(f.rest, base + Span(f), i)
  }

  lemma {:induction false} DepthInside(f: Forest, base: nat, i: nat, k: nat)
    requires base <= i < base + Count(f) && i < k <= i + Count(L.KidsOf(L.TreeAt(f, base, i)))
    ensures k < base + Count(f)
    ensures Depth(f, base, k) == Depth(f, base, i) + 1 + Depth(L.KidsOf(L.TreeAt(f, base, i)), i + 1, k)
    decreases f
  {
    if i == base {
    } else if i < base + Span(f) {
      DepthInside(f.kids, base + 1, i, k);
    } else {
      DepthInside(f.rest, base + Span(f), i, k);
    }
  }

  lemma {:induction false} ChildDepth(f: Forest, base: nat, j: nat)
    requires j < Len(f)
    ensures base <= L.ChildIndex(f, base, j) < base + Count(f) && Depth(f, base, L.ChildIndex(f, base, j)) == 0
    decreases j
  {
    if j > 0 { ChildDepth(f.rest, base + Span(f), j - 1); }
  }

  lemma {:induction false} TopIsChild(f: Forest, base: nat, i: nat) returns (j: nat)
    requires base <= i < base + Count(f) && Depth(f, base, i) == 0
    ensures j < Len(f) && L.ChildIndex(f, base, j) == i
    decreases f
  {
    if i == base {
      j := 0;
    } else {
      j := TopIsChild(f.rest, base + Span(f), i);
      j := j + 1;
    }
  }

  predicate InsideIfFound(r: L.Result, kids: Forest, b: nat) {
    r.code == L.Success ==> b <= r.at < b + Count(kids)
  }

  lemma {:induction false} KeyLoopInside(js: string, kids: Forest, b: nat, t: nat, n: nat, state: ParseState, key: string)
    ensures InsideIfFound(KeyLoop(js, kids, b, t, n, state, key), kids, b)
    decreases n
  {
    if n > 0 && b <= t + 1 < b + Count(kids) {
      var x := L.TreeAt(kids, b, t + 1);
      if state == KEY {
        if x.kind == String { KeyLoopInside(js, kids, b, t + 1, n - 1, AfterKey(js, x, key), key); }
      } else if state == SKIP {
        var t' := W.SkipTo(L.KidsOf(x), t + 1);
        KeyLoopInside(js, kids, b, t', n - 1, KEY, key);
        assert KeyLoop(js, kids, b, t, n, state, key) == KeyLoop(js, kids, b, t', n - 1, KEY, key);
      }
    }
  }

  /** A get comes to a token inside the container, one level deeper or more. */
  lemma {:induction false} GetDeep(js: string, f: Forest, cur: nat, step: Step)
    requires cur < Count(f)
    ensures var r := WalkGet(js, f, cur, step);
            r.code == L.Success ==> r.at < Count(f) && Depth(f, 0, r.at) > Depth(f, 0, cur)
                                    && (NoChild(L.KidsOf(L.TreeAt(f, 0, cur)), cur + 1, r.at) ==> Depth(f, 0, r.at) > Depth(f, 0, cur) + 1)
  {
    var kids := L.KidsOf(L.TreeAt(f, 0, cur));
    var r := WalkGet(js, f, cur, step);
    if r.code == L.Success {
      GetInside(js, f, cur, step);
      DepthInside(f, 0, cur, r.at);
      if Depth(kids, cur + 1, r.at) == 0 { var j := TopIsChild(kids, cur + 1, r.at); }
    }
  }

  lemma {:induction false} GetInside(js: string, f: Forest, cur: nat, step: Step)
    requires cur < Count(f)
    ensures var r := WalkGet(js, f, cur, step);
            r.code == L.Success ==> cur < r.at <= cur + Count(L.KidsOf(L.TreeAt(f, 0, cur)))
  {
    var kids := L.KidsOf(L.TreeAt(f, 0, cur));
    match step
    case Key(key) => KeyLoopInside(js, kids, cur + 1, cur, U8(Len(kids)), KEY, key);
    case Index(i) =>
      if i < U8(Len(kids)) {
        IndexWalks(kids, cur + 1, i);
        W.WalkAhead(kids, cur + 1, IndexTo(kids, cur + 1, i) - 1, i);
      }
  }

  // ---------- paths ----------

  /** A caller's way down a path, as the code walks. */
  function WalkAsk(js: string, f: Forest, cur: nat, path: seq<Step>): L.Result
    requires cur < Count(f) && path != []
    decreases |path|
  {
    var got := WalkGet(js, f, cur, path[0]);
    if |path| == 1 then got
    else
      var r := L.Enter(f, got, cur, KindFor(path[1]));
      if r.code != L.Success then r else WalkAsk(js, f, r.at, path[1..])
  }

  /** The token of what the path leads to. */
  function PlaceAll(f: Forest, cur: nat, n: Node, path: seq<Step>): nat
    requires cur < Count(f)
    decreases |path|
  {
    if path == [] then cur
    else
      var at := Place(f, cur, n, path[0]);
      if Go(n, path[0]).Some? && at < Count(f) then PlaceAll(f, at, Go(n, path[0]).value, path[1..]) else 0
  }

  /** Every step reaches what it leads to. */
  predicate ReachableAll(n: Node, path: seq<Step>)
    decreases |path|
  {
    path == [] || (Reachable(n, path[0]) && ReachableAll(Go(n, path[0]).value, path[1..]))
  }

  lemma {:induction false} MemberSlot(js: string, t: Forest, ms: Members, key: string)
    requires Holds(js, t, Obj(ms)) && Member(ms, key).Some?
    ensures 2 * Position(ms, key) + 1 < Len(L.KidsOf(t))
    ensures Holds(js, L.Child(L.KidsOf(t), 2 * Position(ms, key) + 1), NodeOf(Member(ms, key).value))
  {
    ObjKids(js, t, ms);
    MemberHolds(js, L.KidsOf(t), ms, key);
  }

  lemma {:induction false} ElemSlot(js: string, t: Forest, es: Elems, i: nat)
    requires Holds(js, t, Arr(es)) && i < NumElems(es)
    ensures i < Len(L.KidsOf(t)) && Holds(js, L.Child(L.KidsOf(t), i), NodeOfElem(From(es, i)))
  {
    ElemTrees(js, t.start + 1, es, true, i);
  }

  lemma {:induction false} ChildHolds(js: string, t: Forest, n: Node, step: Step)
    requires Holds(js, t, n) && Go(n, step).Some?
    ensures Slot(n, step) < Len(L.KidsOf(t)) && Holds(js, L.Child(L.KidsOf(t), Slot(n, step)), Go(n, step).value)
  {
    if n.Obj? { MemberSlot(js, t, n.members, step.key); } else { ElemSlot(js, t, n.elems, step.index); }
  }

  lemma {:induction false} PlaceHolds(js: string, f: Forest, cur: nat, n: Node, step: Step)
    requires cur < Count(f) && Holds(js, L.TreeAt(f, 0, cur), n) && Go(n, step).Some?
    ensures var at := Place(f, cur, n, step);
            at < Count(f) && Holds(js, L.TreeAt(f, 0, at), Go(n, step).value) && Depth(f, 0, at) == Depth(f, 0, cur) + 1
  {
    var kids, k := L.KidsOf(L.TreeAt(f, 0, cur)), Slot(n, step);
    ChildHolds(js, L.TreeAt(f, 0, cur), n, step);
    ChildOf(f, cur, kids, k);
    ChildDepth(kids, cur + 1, k);
    DepthInside(f, 0, cur, L.ChildIndex(kids, cur + 1, k));
  }

  lemma {:induction false} PlaceAllHolds(js: string, f: Forest, cur: nat, n: Node, path: seq<Step>)
    requires cur < Count(f) && Holds(js, L.TreeAt(f, 0, cur), n) && GoAll(n, path).Some?
    ensures var at := PlaceAll(f, cur, n, path);
            at < Count(f) && Holds(js, L.TreeAt(f, 0, at), GoAll(n, path).value) && Depth(f, 0, at) == Depth(f, 0, cur) + |path|
    decreases |path|
  {
    if path != [] {
      PlaceHolds(js, f, cur, n, path[0]);
      PlaceAllHolds(js, f, Place(f, cur, n, path[0]), Go(n, path[0]).value, path[1..]);
    }
  }

  lemma {:induction false} AskDeep(js: string, f: Forest, cur: nat, path: seq<Step>)
    requires cur < Count(f) && path != []
    ensures var r := WalkAsk(js, f, cur, path);
            r.code == L.Success ==> r.at < Count(f) && Depth(f, 0, r.at) >= Depth(f, 0, cur) + |path|
    decreases |path|
  {
    GetDeep(js, f, cur, path[0]);
    if |path| > 1 {
      var r := L.Enter(f, WalkGet(js, f, cur, path[0]), cur, KindFor(path[1]));
      if r.code == L.Success { AskDeep(js, f, r.at, path[1..]); }
    }
  }

  /** From a token that is no child a path does not come to where it should. */
  lemma {:induction false} AskAstray(js: string, f: Forest, cur: nat, path: seq<Step>, at: nat)
    requires cur < Count(f) && path != [] && at < Count(f) && Depth(f, 0, at) == Depth(f, 0, cur) + |path|
    requires var r := WalkGet(js, f, cur, path[0]); r.code == L.Success ==> NoChild(L.KidsOf(L.TreeAt(f, 0, cur)), cur + 1, r.at)
    ensures WalkAsk(js, f, cur, path) != L.Result(L.Success, at)
  {
    GetDeep(js, f, cur, path[0]);
    if |path| > 1 {
      var r := L.Enter(f, WalkGet(js, f, cur, path[0]), cur, KindFor(path[1]));
      if r.code == L.Success { AskDeep(js, f, r.at, path[1..]); }
    }
  }

  /** The container of the next step can be entered. */
  lemma {:induction false} EntersNode(js: string, f: Forest, cur: nat, at: nat, n: Node, step: Step)
    requires cur < Count(f) && at < Count(f) && Holds(js, L.TreeAt(f, 0, at), n) && Go(n, step).Some?
    ensures L.Enter(f, L.Result(L.Success, at), cur, KindFor(step)) == L.Result(L.Success, at)
  {
    EvenKids(js, f, at, n);
  }

  lemma {:induction false} KindedKids(f: Forest, i: nat)
    requires L.Kinded(f) && i < Count(f)
    ensures L.Kinded(L.KidsOf(L.TreeAt(f, 0, i)))
  {
    KindedTree(f, 0, i);
  }

  /** A way down a path to something that the document has comes to its token exactly if every step
      on the way is to one of the members or elements that the container's size counts, and
      everything that stands before these is small. */
  lemma {:induction false} AskReachesIff(js: string, f: Forest, cur: nat, n: Node, path: seq<Step>)
    requires cur < Count(f) && L.Kinded(f) && Holds(js, L.TreeAt(f, 0, cur), n) && path != [] && GoAll(n, path).Some?
    ensures WalkAsk(js, f, cur, path) == L.Result(L.Success, PlaceAll(f, cur, n, path)) <==> ReachableAll(n, path)
    decreases |path|
  {
    KindedKids(f, cur);
    GetReaches(js, f, cur, n, path[0]);
    PlaceAllHolds(js, f, cur, n, path);
    if !Reachable(n, path[0]) {
      AskAstray(js, f, cur, path, PlaceAll(f, cur, n, path));
    } else {
      var at, m := Place(f, cur, n, path[0]), Go(n, path[0]).value;
      PlaceHolds(js, f, cur, n, path[0]);
      if |path| == 1 {
        assert path[1..] == [];
      } else {
        EntersNode(js, f, cur, at, m, path[1]);
        AskReachesIff(js, f, at, m, path[1..]);
      }
    }
  }

  lemma {:induction false} DocKinded(ms: Members)
    requires WellMembers(ms)
    ensures L.Kinded(DocTree(ms))
  {
    DocSpelled(ms);
    O.SpelledShape(Render(ms), 0, |Render(ms)|, DocTree(ms));
  }

  /** So with a path from the root of a document of any size, as it is parsed back: what is stored
      there is found exactly if every step reaches it. */
  lemma {:induction false} FoundIff(ms: Members, path: seq<Step>)
    requires WellMembers(ms) && path != [] && GoAll(Obj(ms), path).Some?
    ensures var js, f := Render(ms), DocTree(ms);
            && Count(f) > 0 && PlaceAll(f, 0, Obj(ms), path) < Count(f)
            && Holds(js, L.TreeAt(f, 0, PlaceAll(f, 0, Obj(ms), path)), GoAll(Obj(ms), path).value)
            && (WalkAsk(js, f, 0, path) == L.Result(L.Success, PlaceAll(f, 0, Obj(ms), path)) <==> ReachableAll(Obj(ms), path))
  {
    RootHolds(ms);
    DocKinded(ms);
    PlaceAllHolds(Render(ms), DocTree(ms), 0, Obj(ms), path);
    AskReachesIff(Render(ms), DocTree(ms), 0, Obj(ms), path);
  }

  // ---------- small documents ----------

  lemma {:induction false} SmallKids(f: Forest, base: nat, i: nat)
    requires L.AllSmall(f) && base <= i < base + Count(f)
    ensures L.AllSmall(L.KidsOf(L.TreeAt(f, base, i)))
    decreases f
  {
    if i == base {
    } else if i < base + Span(f) {
      SmallKids(f.kids, base + 1, i);
    } else {
      SmallKids(f.rest, base + Span(f), i);
    }
  }

  lemma {:induction false} GetExact(js: string, f: Forest, cur: nat, step: Step)
    requires cur < Count(f) && L.AllSmall(f) && L.Kinded(f)
    ensures WalkGet(js, f, cur, step) == Get(js, f, cur, step)
  {
    SmallKids(f, 0, cur);
    KindedKids(f, cur);
    match step
    case Key(key) =>
      W.ExactIfSmall(js, f, cur, key, 0);
      WalkValueIff(js, f, cur, key);
    case Index(i) =>
      W.ExactIfSmall(js, f, cur, "", i);
      WalkIndexIff(f, cur, i);
  }

  lemma {:induction false} AskExact(js: string, f: Forest, cur: nat, path: seq<Step>)
    requires cur < Count(f) && L.AllSmall(f) && L.Kinded(f) && path != []
    ensures WalkAsk(js, f, cur, path) == Ask(js, f, cur, path)
    decreases |path|
  {
    GetExact(js, f, cur, path[0]);
    if |path| > 1 {
      L.ScopeMoves(js, f, cur, Into(path[0], KindFor(path[1])));
      var r := L.ScopeStep(js, f, cur, Into(path[0], KindFor(path[1])));
      assert r == L.Enter(f, Get(js, f, cur, path[0]), cur, KindFor(path[1]));
      if r.code == L.Success { AskExact(js, f, r.at, path[1..]); }
    }
  }

  /** A small document, as it is parsed back, answers every path by what is stored there, and by an
      error if nothing is. */
  lemma {:induction false} SmallComesBack(ms: Members, path: seq<Step>)
    requires WellMembers(ms) && SmallValue(VObj(ms)) && path != []
    ensures Count(DocTree(ms)) > 0
    ensures Answers(Render(ms), DocTree(ms), WalkAsk(Render(ms), DocTree(ms), 0, path), GoAll(Obj(ms), path))
  {
    RootHolds(ms);
    DocKinded(ms);
    SmallDoc(ms);
    SmallPath(Obj(ms), path);
    AskAnswers(Render(ms), DocTree(ms), 0, Obj(ms), path);
    AskExact(Render(ms), DocTree(ms), 0, path);
  }

  // ---------- what is there and not found ----------

  lemma {:induction false} FirstMember(ms: Members)
    requires ms.MCons?
    ensures Member(ms, ms.name) == Some(ms.value) && Position(ms, ms.name) == 0
    ensures ms.rest.MNil? ==> NumMembers(ms) == 1
  {
    assert ms.rest.MNil? ==> NumMembers(ms.rest) == 0;
  }

  lemma {:induction false} NextMember(ms: Members, key: string)
    requires ms.MCons? && ms.name != key
    ensures Member(ms, key) == Member(ms.rest, key) && Position(ms, key) == 1 + Position(ms.rest, key)
    ensures NumMembers(ms) == 1 + NumMembers(ms.rest)
  {
  }

  function ZeroMembers(name: string, n: nat): (ms: Members)
    ensures NumMembers(ms) == n && (n > 0 ==> ms.MCons? && ms.name == name)
    ensures StringBody(name, 0, |name|) ==> WellMembers(ms)
  {
    if n == 0 then MNil else MCons(name, VInt(0), ZeroMembers(name, n - 1))
  }

  function ZeroElems(n: nat): (es: Elems)
    ensures NumElems(es) == n && (n > 0 ==> es.EInt?)
    ensures WellElems(es)
  {
    if n == 0 then ENil else EInt(0, ZeroElems(n - 1))
  }

  /** In an object of 128 members, or 256 and so on, even the first one is not found. */
  lemma {:induction false} FirstOf128(name: string, n: nat)
    requires StringBody(name, 0, |name|) && n > 0 && n % 128 == 0
    ensures var ms := ZeroMembers(name, n);
            var js, f := Render(ms), DocTree(ms);
            && Position(ms, name) == 0 && Go(Obj(ms), Key(name)) == Some(NodeOf(VInt(0))) && Clear(Obj(ms), Key(name))
            && Count(f) > 0 && W.KeyExact(js, f, 0, name) && WalkValue(js, f, 0, name) == L.Failed(L.ErrFail)
  {
    var ms := ZeroMembers(name, n);
    RootHolds(ms);
    DocKinded(ms);
    KindedKids(DocTree(ms), 0);
    KeyAnswers(Render(ms), DocTree(ms), 0, ms, name);
    ExactInDocument(Render(ms), DocTree(ms), 0, Obj(ms), Key(name));
    WalkValueIff(Render(ms), DocTree(ms), 0, name);
  }

  lemma {:induction false} EmptySize(js: string, f: Forest, cur: nat, es: Elems, i: nat)
    requires cur < Count(f) && Holds(js, L.TreeAt(f, 0, cur), Arr(es)) && NumElems(es) % 256 == 0
    ensures WalkIndex(f, cur, i) == L.Failed(L.InvalidIndex)
  {
    ArrKids(js, L.TreeAt(f, 0, cur), es);
  }

  lemma {:induction false} OneArray(name: string, es: Elems)
    requires NumElems(es) > 0
    ensures var ms, path := MCons(name, VArr(es), MNil), [Key(name), Index(0)];
            && Go(Obj(ms), path[0]) == Some(Arr(es)) && Reachable(Obj(ms), path[0])
            && GoAll(Obj(ms), path) == Some(NodeOfElem(es)) && path[1..] == [Index(0)]
  {
    var ms := MCons(name, VArr(es), MNil);
    FirstMember(ms);
    assert GoAll(Arr(es), [Index(0)]) == GoAll(NodeOfElem(es), []);
  }

  /** And in an array of 256 elements the first one is out of range. */
  lemma {:induction false} FirstOf256(name: string, n: nat)
    requires StringBody(name, 0, |name|) && n > 0 && n % 256 == 0
    ensures var ms, path := MCons(name, VArr(ZeroElems(n)), MNil), [Key(name), Index(0)];
            && GoAll(Obj(ms), path) == Some(Text(Primitive, Decimal(0)))
            && Count(DocTree(ms)) > 0 && WalkAsk(Render(ms), DocTree(ms), 0, path) == L.Failed(L.InvalidIndex)
  {
    var es := ZeroElems(n);
    var ms, path := MCons(name, VArr(es), MNil), [Key(name), Index(0)];
    var js, f := Render(ms), DocTree(ms);
    OneArray(name, es);
    RootHolds(ms);
    DocKinded(ms);
    KindedKids(f, 0);
    GetReaches(js, f, 0, Obj(ms), path[0]);
    PlaceHolds(js, f, 0, Obj(ms), path[0]);
    var at := Place(f, 0, Obj(ms), path[0]);
    EntersNode(js, f, 0, at, Arr(es), path[1]);
    EmptySize(js, f, at, es, 0);
  }

  lemma {:induction false} SecondOfTwo(a: string, b: string, v: Value, n: nat)
    requires a != b && n >= 256
    ensures var ms := MCons(a, VArr(ZeroElems(n)), MCons(b, v, MNil));
            && NumMembers(ms) == 2 && Position(ms, b) == 1 && Member(ms, b) == Some(v)
            && !SmallBefore(ms, b) && !SmallAmong(ms, b, 2)
  {
    var ms := MCons(a, VArr(ZeroElems(n)), MCons(b, v, MNil));
    FirstMember(ms.rest);
    NextMember(ms, b);
    assert !SmallBefore(ms, b);
    AmongIsBefore(ms, b, 2);
  }

  /** Behind an array of 256 elements or more a member is not found, although it is there and the
      object's size counts it. */
  lemma {:induction false} BehindLongArray(a: string, b: string, v: Value, n: nat)
    requires a != b && n >= 256
    ensures var ms := MCons(a, VArr(ZeroElems(n)), MCons(b, v, MNil));
            var js, f := Render(ms), DocTree(ms);
            && Go(Obj(ms), Key(b)) == Some(NodeOf(v)) && Counted(Obj(ms), Key(b)) && !Clear(Obj(ms), Key(b))
            && Count(f) > 0 && L.GetValue(js, f, 0, b).code == L.Success && !W.KeyExact(js, f, 0, b)
            && (WellMembers(ms) ==> WalkValue(js, f, 0, b) != L.Result(L.Success, Place(f, 0, Obj(ms), Key(b))))
  {
    var ms := MCons(a, VArr(ZeroElems(n)), MCons(b, v, MNil));
    SecondOfTwo(a, b, v, n);
    RootHolds(ms);
    KeyAnswers(Render(ms), DocTree(ms), 0, ms, b);
    ExactInDocument(Render(ms), DocTree(ms), 0, Obj(ms), Key(b));
    if WellMembers(ms) {
      DocKinded(ms);
      KindedKids(DocTree(ms), 0);
      WalkValueIff(Render(ms), DocTree(ms), 0, b);
    }
  }
}
