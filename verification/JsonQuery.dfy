/** Looking documents up again: every path of keys and indices through a document that was
    written, parsed and queried comes to what was stored there. */
module JsonQuery {
  import opened CInts
  import opened JsmnScan
  import opened JsmnMachine
  import opened JsonForest
  import opened JsonEscape
  import opened JsonText
  import opened JsonDoc
  import opened JsonLayout
  import opened JsonRoundTrip
  import L = JsonLookup
  import N = JsonNumber
  import W = JsonWalk
  import T = JsmnTheorems

  /** What the query layer can tell of a value. */
  datatype Node = Text(kind: Kind, text: string) | Obj(members: Members) | Arr(elems: Elems)

  function NodeOf(v: Value): Node {
    match v
    case VStr(s) => Text(String, Escape(s))
    case VObj(ms) => Obj(ms)
    case VArr(es) => Arr(es)
    case _ => Text(Primitive, RenderValue(v))
  }

  function NodeOfElem(e: Elems): Node
    requires !e.ENil?
  {
    match e
    case EStr(s, _) => Text(String, s)
    case EInt(i, _) => Text(Primitive, Decimal(i))
    case EBool(b, _) => Text(Primitive, BoolText(b))
    case EObj(ms, _) => Obj(ms)
    case EArr(es, _) => Arr(es)
  }

  // ---------- the document itself ----------

  function NumMembers(ms: Members): nat {
    if ms.MNil? then 0 else 1 + NumMembers(ms.rest)
  }

  function NumElems(es: Elems): nat {
    if es.ENil? then 0 else 1 + NumElems(es.rest)
  }

  /** The value of the first member of that name. */
  function Member(ms: Members, key: string): Option<Value> {
    match ms
    case MNil => Option.None
    case MCons(name, v, rest) => if name == key then Some(v) else Member(rest, key)
  }

  /** Where it stands among the members; at their end if there is none. */
  function Position(ms: Members, key: string): (p: nat)
    ensures p <= NumMembers(ms) && (p < NumMembers(ms) <==> Member(ms, key).Some?)
  {
    if ms.MNil? || ms.name == key then 0 else 1 + Position(ms.rest, key)
  }

  /** The elements from the i-th on. */
  function From(es: Elems, i: nat): (r: Elems)
    requires i < NumElems(es)
    ensures !r.ENil?
  {
    if i == 0 then es else From(es.rest, i - 1)
  }

  datatype Step = Key(key: string) | Index(index: nat)

  /** One step down the document. */
  function Go(n: Node, step: Step): Option<Node> {
    match (n, step)
    case (Obj(ms), Key(key)) =>
      (match Member(ms, key)
       case Some(v) => Some(NodeOf(v))
       case None => Option.None)
    case (Arr(es), Index(i)) => if i < NumElems(es) then Some(NodeOfElem(From(es, i))) else Option.None
    case (_, _) => Option.None
  }

  /** The step leads to one of the members or elements that the container's size counts: a size is
      kept modulo 256, and a member is two tokens. */
  predicate Counted(n: Node, step: Step) {
    match (n, step)
    case (Obj(ms), Key(key)) => Position(ms, key) < NumMembers(ms) % 128
    case (Arr(es), Index(i)) => i < NumElems(es) % 256
    case (_, _) => true
  }

  /** One step down what the sizes count. */
  function GoCounted(n: Node, step: Step): Option<Node> {
    if Counted(n, step) then Go(n, step) else Option.None
  }

  function GoAllCounted(n: Node, path: seq<Step>): Option<Node>
    decreases |path|
  {
    if path == [] then Some(n)
    else
      match GoCounted(n, path[0])
      case Some(m) => GoAllCounted(m, path[1..])
      case None => Option.None
  }

  function GoAll(n: Node, path: seq<Step>): Option<Node>
    decreases |path|
  {
    if path == [] then Some(n)
    else
      match Go(n, path[0])
      case Some(m) => GoAll(m, path[1..])
      case None => Option.None
  }

  // ---------- the same through the query layer ----------

  /** A get without entering: json_get_value or json_get_array_index. */
  function Get(js: string, f: Forest, cur: nat, step: Step): L.Result
    requires cur < Count(f)
  {
    match step
    case Key(key) => L.GetValue(js, f, cur, key)
    case Index(i) => L.GetIndex(f, cur, i)
  }

  /** The kind of container in which a step can be taken. */
  function KindFor(step: Step): Kind {
    if step.Key? then Object else Array
  }

  function Into(step: Step, kind: Kind): L.ScopeOp {
    match step
    case Key(key) => L.IntoKey(key, kind)
    case Index(i) => L.IntoIndex(i, kind)
  }

  /** A caller's way down a path: enter the container of every step but the last, then get. */
  function Ask(js: string, f: Forest, cur: nat, path: seq<Step>): L.Result
    requires cur < Count(f) && path != []
    decreases |path|
  {
    if |path| == 1 then Get(js, f, cur, path[0])
    else
      L.ScopeMoves(js, f, cur, Into(path[0], KindFor(path[1])));
      var r := L.ScopeStep(js, f, cur, Into(path[0], KindFor(path[1])));
      if r.code != L.Success then r else Ask(js, f, r.at, path[1..])
  }

  // ---------- a node in its place ----------

  /** The first tree of f is that of a value that is written at its place in js. */
  predicate Holds(js: string, f: Forest, n: Node) {
    !f.Empty? &&
    match n
    case Text(kind, text) => f.Leaf? && f.kind == kind && L.Text(js, f) == text
    case Obj(ms) => f.Box? && f.kind == Object && Within(js, f, LayMembers(ms, true))
    case Arr(es) => f.Box? && f.kind == Array && Within(js, f, LayElems(es, true))
  }

  /** The children of a container are laid out after its bracket. */
  predicate Within(js: string, f: Forest, l: Layout)
    requires f.Box?
  {
    f.kids == TreeOf(l, f.start + 1) && Stands(js, f.start + 1, TextOf(l))
  }

  lemma StandsSlice(js: string, p: nat, s: string)
    requires Stands(js, p, s)
    ensures p + |s| <= |js| && js[p..p + |s|] == s
  {
    StandsEach(js, p, s, 0);
  }

  /** A word's tree has the word for its text. */
  lemma {:induction false} WordHolds(js: string, p: nat, l: Layout)
    requires l.Word? && Stands(js, p, TextOf(l))
    ensures Holds(js, TreeOf(l, p), Text(if l.quoted then String else Primitive, l.word))
    ensures TreeOf(l, p).rest == TreeOf(l.next, AfterWord(l, p)) && Stands(js, AfterWord(l, p), TextOf(l.next))
  {
    var k := p + |l.lead|;
    WordParts(js, p, l);
    TreeOfWord(l, p);
    if l.quoted {
      StandsParts(js, k, "\"" + l.word, "\"");
      StandsParts(js, k, "\"", l.word);
      StandsSlice(js, k + 1, l.word);
    } else {
      StandsSlice(js, k, l.word);
    }
  }

  lemma {:induction false} GroupHolds(js: string, p: nat, l: Layout)
    requires l.Group? && Stands(js, p, TextOf(l))
    ensures TreeOf(l, p).Box? && TreeOf(l, p).kind == l.kind && Within(js, TreeOf(l, p), l.inside)
    ensures TreeOf(l, p).rest == TreeOf(l.next, AfterGroup(l, p)) && Stands(js, AfterGroup(l, p), TextOf(l.next))
  {
    var k, e := p + |l.lead|, AfterGroup(l, p);
    var kids, rest := TreeOf(l.inside, k + 1), TreeOf(l.next, e);
    GroupParts(js, p, l);
    TreeOfGroup(l, p);
    assert TreeOf(l, p) == Box(l.kind, k, e, kids, rest);
  }

  lemma ValueHolds(js: string, p: nat, lead: string, v: Value, next: Layout) returns (q: nat)
    requires Stands(js, p, TextOf(LayValue(lead, v, next)))
    ensures var f := TreeOf(LayValue(lead, v, next), p);
            Holds(js, f, NodeOf(v)) && f.rest == TreeOf(next, q) && Stands(js, q, TextOf(next))
  {
    var l := LayValue(lead, v, next);
    if l.Word? {
      WordHolds(js, p, l);
      q := AfterWord(l, p);
    } else {
      GroupHolds(js, p, l);
      q := AfterGroup(l, p);
    }
  }

  lemma ElemHolds(js: string, p: nat, lead: string, e: Elems, next: Layout) returns (q: nat)
    requires !e.ENil? && Stands(js, p, TextOf(LayElem(lead, e, next)))
    ensures var f := TreeOf(LayElem(lead, e, next), p);
            Holds(js, f, NodeOfElem(e)) && f.rest == TreeOf(next, q) && Stands(js, q, TextOf(next))
  {
    var l := LayElem(lead, e, next);
    if l.Word? {
      WordHolds(js, p, l);
      q := AfterWord(l, p);
    } else {
      GroupHolds(js, p, l);
      q := AfterGroup(l, p);
    }
  }

  // ---------- one step ----------

  /** The trees are those of the members: a string with the name, and the value. */
  predicate MembersIn(js: string, f: Forest, ms: Members)
    decreases ms
  {
    match ms
    case MNil => f.Empty?
    case MCons(name, v, rest) =>
      && !f.Empty? && !f.rest.Empty? && Holds(js, f, Text(String, name)) && Holds(js, f.rest, NodeOf(v))
      && MembersIn(js, f.rest.rest, rest)
  }

  lemma {:induction false} LaidMembers(js: string, p: nat, ms: Members, first: bool)
    requires Stands(js, p, TextOf(LayMembers(ms, first)))
    ensures MembersIn(js, TreeOf(LayMembers(ms, first), p), ms)
    decreases ms
  {
    if ms.MCons? {
      var l := LayMembers(ms, first);
      WordHolds(js, p, l);
      var q := ValueHolds(js, AfterWord(l, p), ":", ms.value, LayMembers(ms.rest, false));
      LaidMembers(js, q, ms.rest, false);
    }
  }

  lemma {:induction false} MembersLen(js: string, f: Forest, ms: Members)
    requires MembersIn(js, f, ms)
    ensures Len(f) == 2 * NumMembers(ms)
    decreases ms
  {
    if ms.MCons? { MembersLen(js, f.rest.rest, ms.rest); }
  }

  /** Where a search for a key among the first m members leads. */
  function Expected(f: Forest, base: nat, p: nat, m: nat): L.Lookup
    requires p < m ==> 2 * p + 1 < Len(f)
  {
    if p < m then L.Found(L.ChildIndex(f, base, 2 * p + 1)) else L.NotFound
  }

  lemma {:induction false} SearchMembers(js: string, f: Forest, base: nat, ms: Members, key: string, m: nat)
    requires MembersIn(js, f, ms) && m <= NumMembers(ms) && Len(f) == 2 * NumMembers(ms)
    ensures L.Find(js, f, base, key, 2 * m) == Expected(f, base, Position(ms, key), m)
    decreases ms
  {
    if m > 0 {
      var g, b := f.rest.rest, base + Span(f) + Span(f.rest);
      assert Len(f) == 2 + Len(g);
      if ms.name == key {
        SecondChild(f, base);
      } else {
        SearchMembers(js, g, b, ms.rest, key, m - 1);
        W.SkipsPair(js, f, base, key, 2 * m);
        ExpectedShift(f, base, Position(ms.rest, key), m - 1);
      }
    }
  }

  lemma ExpectedShift(f: Forest, base: nat, p: nat, m: nat)
    requires !f.Empty? && !f.rest.Empty? && (p < m ==> 2 * p + 1 < Len(f.rest.rest)) && Len(f) == 2 + Len(f.rest.rest)
    ensures Expected(f, base, p + 1, m + 1) == Expected(f.rest.rest, base + Span(f) + Span(f.rest), p, m)
  {
    if p < m { L.ChildShift(f, base, 2 * p + 1); }
  }

  lemma SecondChild(f: Forest, base: nat)
    requires !f.Empty? && !f.rest.Empty?
    ensures 1 < Len(f) && L.ChildIndex(f, base, 1) == base + Span(f) && L.Child(f, 1) == f.rest
  {
    assert L.Child(f.rest, 0) == f.rest;
    assert L.ChildIndex(f.rest, base + Span(f), 0) == base + Span(f);
  }

  /** The member of that name is where it should be. */
  lemma {:induction false} MemberHolds(js: string, f: Forest, ms: Members, key: string)
    requires MembersIn(js, f, ms) && Member(ms, key).Some? && Len(f) == 2 * NumMembers(ms)
    ensures Holds(js, L.Child(f, 2 * Position(ms, key) + 1), NodeOf(Member(ms, key).value))
    decreases ms
  {
    assert Len(f) == 2 + Len(f.rest.rest);
    if ms.name == key {
      SecondChild(f, 0);
    } else {
      MemberHolds(js, f.rest.rest, ms.rest, key);
      L.ChildShift(f, 0, 2 * Position(ms.rest, key) + 1);
    }
  }

  /** The trees of an array's elements. */
  lemma {:induction false} ElemTrees(js: string, p: nat, es: Elems, first: bool, i: nat)
    requires Stands(js, p, TextOf(LayElems(es, first)))
    ensures Len(TreeOf(LayElems(es, first), p)) == NumElems(es)
    ensures i < NumElems(es) ==> Holds(js, L.Child(TreeOf(LayElems(es, first), p), i), NodeOfElem(From(es, i)))
    decreases es
  {
    if !es.ENil? {
      var q := ElemHolds(js, p, Comma(first), es, LayElems(es.rest, false));
      ElemTrees(js, q, es.rest, false, if i == 0 then 0 else i - 1);
    }
  }

  /** The tree of a token inside a subtree. */
  lemma {:induction false} TreeInside(f: Forest, base: nat, i: nat, k: nat)
    requires base <= i < base + Count(f) && i < k <= i + Count(L.KidsOf(L.TreeAt(f, base, i)))
    ensures k < base + Count(f) && L.TreeAt(f, base, k) == L.TreeAt(L.KidsOf(L.TreeAt(f, base, i)), i + 1, k)
    decreases f
  {
    if i == base {
    } else if i < base + Span(f) {
      TreeInside(f.kids, base + 1, i, k);
    } else {
      TreeInside(f.rest, base + Span(f), i, k);
    }
  }

  lemma {:induction false} ChildTree(f: Forest, base: nat, i: nat)
    requires i < Len(f)
    ensures base <= L.ChildIndex(f, base, i) < base + Count(f)
    ensures L.TreeAt(f, base, L.ChildIndex(f, base, i)) == L.Child(f, i)
    decreases i
  {
    if i > 0 { ChildTree(f.rest, base + Span(f), i - 1); }
  }

  /** The tree of a child of token `cur`. */
  lemma ChildOf(f: Forest, cur: nat, kids: Forest, i: nat)
    requires cur < Count(f) && kids == L.KidsOf(L.TreeAt(f, 0, cur)) && i < Len(kids)
    ensures L.ChildIndex(kids, cur + 1, i) < Count(f)
    ensures L.TreeAt(f, 0, L.ChildIndex(kids, cur + 1, i)) == L.Child(kids, i)
  {
    ChildTree(kids, cur + 1, i);
    TreeInside(f, 0, cur, L.ChildIndex(kids, cur + 1, i));
  }

  /** A get finds the value that the step leads to, and fails exactly if there is none. */
  predicate Answers(js: string, f: Forest, r: L.Result, n: Option<Node>) {
    (r.code == L.Success <==> n.Some?) && (n.Some? ==> r.at < Count(f) && Holds(js, L.TreeAt(f, 0, r.at), n.value))
  }

  lemma {:induction false} U8Double(n: nat)
    ensures U8(2 * n) == 2 * (n % 128)
  {
    if n >= 128 { U8Double(n - 128); }
  }

  /** What an object says of a member that its size does not count, or that it does not have. */
  function MissingCode(ms: Members): L.JsonCode {
    if NumMembers(ms) % 128 == 0 then L.ErrFail else L.NotFoundErr
  }

  /** What the search for a key in an object comes to, whatever its size. */
  function KeyResult(kids: Forest, b: nat, ms: Members, key: string): L.Result
    requires Len(kids) == 2 * NumMembers(ms)
  {
    if Position(ms, key) < NumMembers(ms) % 128
    then L.Result(L.Success, L.ChildIndex(kids, b, 2 * Position(ms, key) + 1))
    else L.Failed(MissingCode(ms))
  }

  lemma KeyAnswers(js: string, f: Forest, cur: nat, ms: Members, key: string)
    requires cur < Count(f) && Holds(js, L.TreeAt(f, 0, cur), Obj(ms))
    ensures Len(L.KidsOf(L.TreeAt(f, 0, cur))) == 2 * NumMembers(ms)
    ensures L.GetValue(js, f, cur, key) == KeyResult(L.KidsOf(L.TreeAt(f, 0, cur)), cur + 1, ms, key)
    ensures Answers(js, f, L.GetValue(js, f, cur, key), GoCounted(Obj(ms), Key(key)))
  {
    var kids := L.KidsOf(L.TreeAt(f, 0, cur));
    ObjKids(js, L.TreeAt(f, 0, cur), ms);
    KeyFound(js, f, cur, kids, ms, key, NumMembers(ms) % 128);
    KeyHolds(js, f, cur, kids, ms, key);
  }

  lemma ObjKids(js: string, t: Forest, ms: Members)
    requires Holds(js, t, Obj(ms))
    ensures t.kind == Object && MembersIn(js, L.KidsOf(t), ms) && Len(L.KidsOf(t)) == 2 * NumMembers(ms)
    ensures U8(Len(L.KidsOf(t))) == 2 * (NumMembers(ms) % 128) && U8(Len(L.KidsOf(t))) % 2 == 0
  {
    LaidMembers(js, t.start + 1, ms, true);
    MembersLen(js, t.kids, ms);
    U8Double(NumMembers(ms));
    EvenDouble(NumMembers(ms) % 128);
  }

  lemma EvenDouble(m: nat)
    ensures 2 * m % 2 == 0
  {
  }

  lemma {:induction false} KeyFound(js: string, f: Forest, cur: nat, kids: Forest, ms: Members, key: string, m: nat)
    requires cur < Count(f) && kids == L.KidsOf(L.TreeAt(f, 0, cur)) && L.TreeAt(f, 0, cur).kind == Object
    requires MembersIn(js, kids, ms) && Len(kids) == 2 * NumMembers(ms) && U8(Len(kids)) == 2 * m && m == NumMembers(ms) % 128
    ensures L.GetValue(js, f, cur, key) == KeyResult(kids, cur + 1, ms, key)
  {
    EvenDouble(m);
    assert m <= NumMembers(ms);
    SearchMembers(js, kids, cur + 1, ms, key, m);
  }

  lemma KeyHolds(js: string, f: Forest, cur: nat, kids: Forest, ms: Members, key: string)
    requires cur < Count(f) && kids == L.KidsOf(L.TreeAt(f, 0, cur)) && MembersIn(js, kids, ms) && Len(kids) == 2 * NumMembers(ms)
    ensures Answers(js, f, KeyResult(kids, cur + 1, ms, key), GoCounted(Obj(ms), Key(key)))
  {
    if Member(ms, key).Some? {
      MemberHolds(js, kids, ms, key);
      ChildOf(f, cur, kids, 2 * Position(ms, key) + 1);
    }
  }

  lemma ArrKids(js: string, t: Forest, es: Elems)
    requires Holds(js, t, Arr(es))
    ensures t.kind == Array && Len(L.KidsOf(t)) == NumElems(es) && U8(Len(L.KidsOf(t))) == NumElems(es) % 256
  {
    ElemTrees(js, t.start + 1, es, true, 0);
    U8IsMod(NumElems(es));
  }

  lemma IndexAnswers(js: string, f: Forest, cur: nat, es: Elems, i: nat)
    requires cur < Count(f) && Holds(js, L.TreeAt(f, 0, cur), Arr(es))
    ensures Len(L.KidsOf(L.TreeAt(f, 0, cur))) == NumElems(es)
    ensures L.GetIndex(f, cur, i) ==
            if i < NumElems(es) % 256 then L.Result(L.Success, L.ChildIndex(L.KidsOf(L.TreeAt(f, 0, cur)), cur + 1, i))
            else L.Failed(L.InvalidIndex)
    ensures Answers(js, f, L.GetIndex(f, cur, i), GoCounted(Arr(es), Index(i)))
  {
    var t := L.TreeAt(f, 0, cur);
    ArrKids(js, t, es);
    if i < NumElems(es) {
      ElemTrees(js, t.start + 1, es, true, i);
      ChildOf(f, cur, t.kids, i);
    }
  }

  lemma GetAnswers(js: string, f: Forest, cur: nat, n: Node, step: Step)
    requires cur < Count(f) && Holds(js, L.TreeAt(f, 0, cur), n)
    ensures Answers(js, f, Get(js, f, cur, step), GoCounted(n, step))
  {
    match (n, step)
    case (Obj(ms), Key(key)) => KeyAnswers(js, f, cur, ms, key);
    case (Arr(es), Index(i)) => IndexAnswers(js, f, cur, es, i);
    case (Arr(_), Key(_)) =>
    case (Obj(_), Index(_)) =>
    case (Text(_, _), _) =>
  }

  /** An object has an even number of tokens below it, and so an even size. */
  lemma {:induction false} EvenKids(js: string, f: Forest, cur: nat, n: Node)
    requires cur < Count(f) && Holds(js, L.TreeAt(f, 0, cur), n)
    ensures n.Obj? ==> U8(Len(L.KidsOf(L.TreeAt(f, 0, cur)))) % 2 == 0
  {
    if n.Obj? { ObjKids(js, L.TreeAt(f, 0, cur), n.members); }
  }

  /** A way down a path, with the lookups that the tree defines, comes to the value that the
      document has there, and fails exactly if the document has none there, or one that a size on
      the way does not count. */
  lemma {:induction false} AskAnswers(js: string, f: Forest, cur: nat, n: Node, path: seq<Step>)
    requires cur < Count(f) && Holds(js, L.TreeAt(f, 0, cur), n) && path != []
    ensures Answers(js, f, Ask(js, f, cur, path), GoAllCounted(n, path))
    decreases |path|
  {
    GetAnswers(js, f, cur, n, path[0]);
    var got := Get(js, f, cur, path[0]);
    if |path| == 1 {
      assert path[1..] == [];
    } else {
      L.ScopeMoves(js, f, cur, Into(path[0], KindFor(path[1])));
      var r := L.ScopeStep(js, f, cur, Into(path[0], KindFor(path[1])));
      assert r == L.Enter(f, got, cur, KindFor(path[1]));
      if got.code == L.Success {
        var m := GoCounted(n, path[0]).value;
        EvenKids(js, f, got.at, m);
        if r.code == L.Success {
          AskAnswers(js, f, r.at, m, path[1..]);
        } else {
          assert Go(m, path[1]).None?;
        }
      }
    }
  }

  // ---------- the round trip ----------

  /** Objects of at most 127 members and arrays of at most 255 elements: each member is two
      tokens, and a container's size is kept in 8 bits. */
  predicate SmallValue(v: Value)
    decreases v, 0
  {
    match v
    case VObj(ms) => NumMembers(ms) < 128 && SmallMembers(ms)
    case VArr(es) => NumElems(es) < 256 && SmallElems(es)
    case _ => true
  }

  predicate SmallMembers(ms: Members)
    decreases ms, 1
  {
    ms.MNil? || (SmallValue(ms.value) && SmallMembers(ms.rest))
  }

  predicate SmallElems(es: Elems)
    decreases es, 1
  {
    match es
    case ENil => true
    case EObj(ms, rest) => NumMembers(ms) < 128 && SmallMembers(ms) && SmallElems(rest)
    case EArr(inner, rest) => NumElems(inner) < 256 && SmallElems(inner) && SmallElems(rest)
    case EStr(_, rest) => SmallElems(rest)
    case EInt(_, rest) => SmallElems(rest)
    case EBool(_, rest) => SmallElems(rest)
  }

  lemma SmallValueTree(lead: string, v: Value, next: Layout, p: nat) returns (q: nat)
    ensures Len(TreeOf(LayValue(lead, v, next), p)) == 1 + Len(TreeOf(next, q))
    ensures L.AllSmall(TreeOf(LayValue(lead, v, next), p)) <==> SmallValue(v) && L.AllSmall(TreeOf(next, q))
    decreases v, 0
  {
    var l := LayValue(lead, v, next);
    if l.Word? {
      q := AfterWord(l, p);
      TreeOfWord(l, p);
    } else {
      q := AfterGroup(l, p);
      TreeOfGroup(l, p);
      if v.VObj? { SmallMembersTree(v.members, true, p + |lead| + 1); } else { SmallElemsTree(v.elems, true, p + |lead| + 1); }
    }
  }

  lemma {:induction false} SmallMembersTree(ms: Members, first: bool, p: nat)
    ensures Len(TreeOf(LayMembers(ms, first), p)) == 2 * NumMembers(ms)
    ensures L.AllSmall(TreeOf(LayMembers(ms, first), p)) <==> SmallMembers(ms)
    decreases ms, 1
  {
    if ms.MCons? {
      var l := LayMembers(ms, first);
      TreeOfWord(l, p);
      var q := SmallValueTree(":", ms.value, LayMembers(ms.rest, false), AfterWord(l, p));
      SmallMembersTree(ms.rest, false, q);
    }
  }

  lemma {:induction false} SmallElemsTree(es: Elems, first: bool, p: nat)
    ensures Len(TreeOf(LayElems(es, first), p)) == NumElems(es)
    ensures L.AllSmall(TreeOf(LayElems(es, first), p)) <==> SmallElems(es)
    decreases es, 1
  {
    if !es.ENil? {
      var more := LayElems(es.rest, false);
      var q := ElemTree(Comma(first), es, more, p);
      SmallElemsTree(es.rest, false, q);
      var k := p + |Comma(first)| + 1;
      match es
      case EObj(ms, _) => SmallMembersTree(ms, true, k);
      case EArr(inner, _) => SmallElemsTree(inner, true, k);
      case EStr(_, _) =>
      case EInt(_, _) =>
      case EBool(_, _) =>
    }
  }

  lemma ElemTree(lead: string, e: Elems, next: Layout, p: nat) returns (q: nat)
    requires !e.ENil?
    ensures var f := TreeOf(LayElem(lead, e, next), p);
            !f.Empty? && f.rest == TreeOf(next, q) && (f.Leaf? <==> IsScalarElem(e))
    ensures e.EObj? ==> TreeOf(LayElem(lead, e, next), p).kids == TreeOf(LayMembers(e.members, true), p + |lead| + 1)
    ensures e.EArr? ==> TreeOf(LayElem(lead, e, next), p).kids == TreeOf(LayElems(e.elems, true), p + |lead| + 1)
  {
    var l := LayElem(lead, e, next);
    assert l.Word? <==> IsScalarElem(e);
    if IsScalarElem(e) {
      q := AfterWord(l, p);
      TreeOfWord(l, p);
    } else {
      q := AfterGroup(l, p);
      TreeOfGroup(l, p);
    }
  }

  /** The sizes of a document's containers are exact exactly if it is small in this sense. */
  lemma SmallDoc(ms: Members)
    ensures L.AllSmall(DocTree(ms)) <==> SmallValue(VObj(ms))
  {
    var q := SmallValueTree("", VObj(ms), End(""), 0);
  }

  /** In a small document the sizes count everything. */
  predicate SmallNode(n: Node) {
    match n
    case Text(_, _) => true
    case Obj(ms) => SmallValue(VObj(ms))
    case Arr(es) => SmallValue(VArr(es))
  }

  lemma {:induction false} SmallMember(ms: Members, key: string)
    requires SmallMembers(ms)
    ensures Member(ms, key).Some? ==> SmallNode(NodeOf(Member(ms, key).value))
  {
    if ms.MCons? { SmallMember(ms.rest, key); }
  }

  lemma {:induction false} SmallElemAt(es: Elems, i: nat)
    requires SmallElems(es) && i < NumElems(es)
    ensures SmallNode(NodeOfElem(From(es, i)))
  {
    if i > 0 { SmallElemAt(es.rest, i - 1); }
  }

  lemma SmallStep(n: Node, step: Step)
    requires SmallNode(n)
    ensures GoCounted(n, step) == Go(n, step) && (Go(n, step).Some? ==> SmallNode(Go(n, step).value))
  {
    match (n, step)
    case (Obj(ms), Key(key)) => SmallMember(ms, key);
    case (Arr(es), Index(i)) => if i < NumElems(es) { SmallElemAt(es, i); }
    case (_, _) =>
  }

  lemma {:induction false} SmallPath(n: Node, path: seq<Step>)
    requires SmallNode(n)
    ensures GoAllCounted(n, path) == GoAll(n, path)
    decreases |path|
  {
    if path != [] {
      SmallStep(n, path[0]);
      if Go(n, path[0]).Some? { SmallPath(Go(n, path[0]).value, path[1..]); }
    }
  }

  lemma RootHolds(ms: Members)
    ensures DocTree(ms).Box? && Count(DocTree(ms)) > 0
    ensures Holds(Render(ms), L.TreeAt(DocTree(ms), 0, 0), Obj(ms))
  {
    var js := Render(ms);
    DocText(ms);
    StandsAll(js, 0, js, 0);
    GroupHolds(js, 0, LayDoc(ms));
  }

  /** Every document whose arrays can be separated, whose strings can be written, and which fits
      into the buffer with its NUL, is written without error as its JSON text; the text is
      parsed, with tokens enough, into the preorder of the document's tree; and every path through
      the document is answered by what is stored there, as far as the sizes count, which is
      everywhere if the document is small, and else by an error. */
  lemma RoundTrip(ms: Members, len: nat, numTokens: nat, path: seq<Step>)
    requires WellMembers(ms) && Separable(ms) && |Render(ms)| < len && Count(DocTree(ms)) <= numTokens
    ensures ApplyAll("", Document(ms), len) == (Done, Render(ms))
    ensures Run(Render(ms), FRESH, numTokens)
         == RunResult(Ok, Count(DocTree(ms)), PState(|Render(ms)|, Flat(DocTree(ms), 0, -1), -1))
    ensures path != [] ==>
              Count(DocTree(ms)) > 0 && Answers(Render(ms), DocTree(ms), Ask(Render(ms), DocTree(ms), 0, path), GoAllCounted(Obj(ms), path))
    ensures SmallValue(VObj(ms)) && path != [] ==>
              Count(DocTree(ms)) > 0 && Answers(Render(ms), DocTree(ms), Ask(Render(ms), DocTree(ms), 0, path), GoAll(Obj(ms), path))
  {
    WrittenIffSeparable(ms);
    CloseIffFits("", Document(ms), len);
    FittingIsAccepted("", Document(ms), len);
    DocSpelled(ms);
    T.ParseComplete(Render(ms), DocTree(ms), numTokens);
    RootHolds(ms);
    if path != [] { AskAnswers(Render(ms), DocTree(ms), 0, Obj(ms), path); }
    if SmallValue(VObj(ms)) { SmallPath(Obj(ms), path); }
  }

  /** What a string getter returns at the end of such a path, for a value that is a string: the
      stored text, in escaped form if it was a member of an object. */
  lemma StringsComeBack(ms: Members, path: seq<Step>, maxlen: nat)
    requires SmallValue(VObj(ms)) && path != [] && Count(DocTree(ms)) > 0
    requires GoAll(Obj(ms), path).Some? && GoAll(Obj(ms), path).value.Text? && GoAll(Obj(ms), path).value.kind == String
    ensures var text := GoAll(Obj(ms), path).value.text;
            var got := L.StringValue(Render(ms), DocTree(ms), Ask(Render(ms), DocTree(ms), 0, path), maxlen);
            got == if |text| < maxlen then (L.Success, text) else (L.ErrNoMem, "")
  {
    RootHolds(ms);
    SmallPath(Obj(ms), path);
    AskAnswers(Render(ms), DocTree(ms), 0, Obj(ms), path);
  }

  /** The trees of a path's end, and what the query layer returns there. */
  lemma PrimitiveComesBack(ms: Members, path: seq<Step>, text: string) returns (at: nat)
    requires SmallValue(VObj(ms)) && path != [] && GoAll(Obj(ms), path) == Some(Text(Primitive, text))
    ensures Count(DocTree(ms)) > 0 && at < Count(DocTree(ms))
    ensures Ask(Render(ms), DocTree(ms), 0, path) == L.Result(L.Success, at)
    ensures L.TreeAt(DocTree(ms), 0, at).kind == Primitive && L.Text(Render(ms), L.TreeAt(DocTree(ms), 0, at)) == text
  {
    RootHolds(ms);
    SmallPath(Obj(ms), path);
    AskAnswers(Render(ms), DocTree(ms), 0, Obj(ms), path);
    at := Ask(Render(ms), DocTree(ms), 0, path).at;
  }

  /** A number at the end of a path is read back; in a signed type with 2 * half values it is the
      number that was written exactly if it is in the range of that type. */
  lemma NumbersComeBack(ms: Members, path: seq<Step>, n: int, half: int)
    requires WellMembers(ms) && SmallValue(VObj(ms)) && path != [] && half > 0
    requires GoAll(Obj(ms), path) == Some(Text(Primitive, Decimal(n)))
    ensures Count(DocTree(ms)) > 0
    ensures var (code, v) := N.IntValue(Render(ms), DocTree(ms), Ask(Render(ms), DocTree(ms), 0, path), 2 * half);
            code == L.Success && v == N.Narrowed(n, 2 * half) && (v == n <==> -half <= n < half)
  {
    var at := PrimitiveComesBack(ms, path, Decimal(n));
    DocSpelled(ms);
    N.IntMeaning(Render(ms), |Render(ms)|, DocTree(ms), at, 2 * half);
    N.DecimalReads(n);
    N.NarrowedIff(n, half);
  }

  /** So every number that the int and unsigned setters store is read back by json_get_val_int64. */
  lemma {:induction false} NumbersComeBack64(ms: Members, path: seq<Step>, n: int)
    requires WellMembers(ms) && SmallValue(VObj(ms)) && path != []
    requires GoAll(Obj(ms), path) == Some(Text(Primitive, Decimal(n))) && -0x8000_0000 <= n < 0x1_0000_0000
    ensures Count(DocTree(ms)) > 0
    ensures N.IntValue(Render(ms), DocTree(ms), Ask(Render(ms), DocTree(ms), 0, path), N.LIMIT64) == (L.Success, n)
  {
    NumbersComeBack(ms, path, n, 0x8000_0000_0000_0000);
  }

  /** And by json_get_val_int exactly if it is below 2^31. */
  lemma {:induction false} NumbersComeBack32(ms: Members, path: seq<Step>, n: int)
    requires WellMembers(ms) && SmallValue(VObj(ms)) && path != []
    requires GoAll(Obj(ms), path) == Some(Text(Primitive, Decimal(n))) && -0x8000_0000 <= n < 0x1_0000_0000
    ensures Count(DocTree(ms)) > 0
    ensures N.IntValue(Render(ms), DocTree(ms), Ask(Render(ms), DocTree(ms), 0, path), N.LIMIT32) == (L.Success, n)
            <==> n < 0x8000_0000
  {
    NumbersComeBack(ms, path, n, 0x8000_0000);
  }

  lemma BoolsComeBack(ms: Members, path: seq<Step>, b: bool)
    requires SmallValue(VObj(ms)) && path != [] && GoAll(Obj(ms), path) == Some(Text(Primitive, BoolText(b)))
    ensures Count(DocTree(ms)) > 0
    ensures N.BoolValue(Render(ms), DocTree(ms), Ask(Render(ms), DocTree(ms), 0, path)) == (L.Success, b)
  {
    var at := PrimitiveComesBack(ms, path, BoolText(b));
    N.BoolReads(b);
  }
}
