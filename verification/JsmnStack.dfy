/** The tokenizer as a pushdown machine: the flat token array of a parse under way is the
    preorder of a stack of unfinished containers. */
module JsmnStack {
  import opened CInts
  import opened JsmnScan
  import opened JsmnMachine
  import opened JsonForest
  import opened Seqs

  /** The open containers, innermost first, each with the children it has so far. */
  datatype Stack =
    | Base(roots: Forest)
    | Nest(kind: Kind, start: nat, kids: Forest, below: Stack)

  function Size(z: Stack): nat {
    match z
    case Base(roots) => Count(roots)
    case Nest(_, _, kids, below) => Size(below) + 1 + Count(kids)
  }

  /** The index of the innermost open container, -1 if there is none. */
  function Top(z: Stack): int {
    match z
    case Base(_) => -1
    case Nest(_, _, _, below) => Size(below)
  }

  /** The token array of a stack; `extra` is 1 for a frame that has one more child, under way. */
  function Tokens(z: Stack, extra: nat): (r: seq<Token>)
    ensures |r| == Size(z)
  {
    match z
    case Base(roots) => Flat(roots, 0, -1)
    case Nest(kind, start, kids, below) =>
      Tokens(below, 1) + FrameTokens(kind, start, kids, Size(below), Top(below), Len(kids) + extra)
  }

  /** The parser state that stands for stack `z` at position `pos`. */
  function Concrete(pos: nat, z: Stack): PState {
    PState(pos, Tokens(z, 0), Top(z))
  }

  function AddTop(z: Stack, f: Forest): Stack {
    match z
    case Base(roots) => Base(Append(roots, f))
    case Nest(k, s, kids, below) => Nest(k, s, Append(kids, f), below)
  }

  // ---------- the stack machine ----------

  datatype AStep = ANext(pos: nat, z: Stack) | AFail(code: Code)

  function AStepAt(js: string, pos: nat, z: Stack): (r: AStep)
    requires !AtEnd(js, pos)
    ensures r.ANext? ==> pos < r.pos <= |js| && Size(z) <= Size(r.z)
  {
    FlatSizes(z);
    var c := js[pos];
    if IsOpener(c) then ANext(pos + 1, Nest(BracketKind(c), pos, Empty, z))
    else if IsCloser(c) then
      if z.Base? || z.kind != BracketKind(c) then AFail(Inval)
      else
        CloseSize(z, pos + 1);
        ANext(pos + 1, AddTop(z.below, Box(z.kind, z.start, pos + 1, z.kids, Empty)))
    else if c == '\"' then
      match ScanString(js, pos + 1)
      case Stop(e) =>
        ScanStringForward(js, pos + 1);
        AddTopSize(z, Leaf(String, pos + 1, e, Empty));
        ANext(e + 1, AddTop(z, Leaf(String, pos + 1, e, Empty)))
      case Invalid => AFail(Inval)
      case Partial => AFail(Part)
    else if IsSeparator(c) then ANext(pos + 1, z)
    else if StartsPrimitive(c) then
      match ScanPrimitive(js, pos)
      case Stop(e) =>
        PrimitiveAccepted(js, pos, e);
        AddTopSize(z, Leaf(Primitive, pos, e, Empty));
        ANext(e, AddTop(z, Leaf(Primitive, pos, e, Empty)))
      case Invalid => AFail(Inval)
      case Partial => AFail(Part)
    else AFail(Inval)
  }

  datatype ARun = ARun(code: Code, pos: nat, z: Stack)

  function ARunFrom(js: string, pos: nat, z: Stack): ARun
    decreases |js| - pos
  {
    if AtEnd(js, pos) then ARun(if z.Base? then Ok else Part, pos, z)
    else
      match AStepAt(js, pos, z)
      case ANext(pos', z') => ARunFrom(js, pos', z')
      case AFail(code) => ARun(code, pos, z)
  }

  // ---------- lemmas about stacks ----------

  lemma FlatSizes(z: Stack)
    ensures z.Nest? ==> Size(z.below) < Size(z)
  {
  }

  lemma AddTopSize(z: Stack, f: Forest)
    ensures Size(AddTop(z, f)) == Size(z) + Count(f)
    ensures Top(AddTop(z, f)) == Top(z)
  {
    match z
    case Base(roots) => CountAppend(roots, f);
    case Nest(_, _, kids, _) => CountAppend(kids, f);
  }

  lemma CloseSize(z: Stack, end: nat)
    requires z.Nest?
    ensures Size(AddTop(z.below, Box(z.kind, z.start, end, z.kids, Empty))) == Size(z)
  {
    AddTopSize(z.below, Box(z.kind, z.start, end, z.kids, Empty));
  }

  lemma {:induction false} TokensLinked(z: Stack, extra: nat)
    ensures Linked(Tokens(z, extra)) && -1 <= Top(z) < Size(z)
    ensures forall i :: 0 <= i < Size(z) ==>
              Tokens(z, extra)[i].start >= 0 && Tokens(z, extra)[i].size < 256 && -1 <= Tokens(z, extra)[i].end
  {
    match z
    case Base(roots) =>
      forall i | 0 <= i < Count(roots) {
        FlatLinked(roots, 0, -1, i);
      }
    case Nest(kind, start, kids, below) =>
      TokensLinked(below, 1);
      var n := Size(below);
      var t := Tokens(z, extra);
      forall i | 0 <= i < Size(z)
        ensures -1 <= t[i].parent < i && t[i].start >= 0 && t[i].size < 256 && -1 <= t[i].end
      {
        if i < n {
          assert t[i] == Tokens(below, 1)[i];
        } else if i > n {
          FlatLinked(kids, n + 1, n, i - n - 1);
          assert t[i] == Flat(kids, n + 1, n)[i - n - 1];
        }
      }
  }

  /** Opening a child, or adding a finished one, counts in the container on top. */
  lemma TokensBump(z: Stack)
    requires -1 <= Top(z) < Size(z)
    ensures Tokens(z, 1) == Bump(Tokens(z, 0), Top(z))
  {
    if z.Nest? {
      var n := Size(z.below);
      var t, t' := Token(z.kind, U8(Len(z.kids)), z.start, -1, Top(z.below)),
                   Token(z.kind, U8(Len(z.kids) + 1), z.start, -1, Top(z.below));
      assert t' == t.(size := U8(t.size + 1)) by { U8Next(Len(z.kids)); }
      UpdateMiddle(Tokens(z.below, 1), t, t', Flat(z.kids, n + 1, n));
    }
  }

  lemma TokensAdd(z: Stack, f: Forest)
    requires Len(f) == 1
    ensures Tokens(AddTop(z, f), 0) == Tokens(z, 1) + Flat(f, Size(z), Top(z))
  {
    match z
    case Base(roots) => FlatAppend(roots, f, 0, -1);
    case Nest(kind, start, kids, below) => TokensAddNest(kind, start, kids, below, f);
  }

  /** The tokens of a frame's container and children, after those of the frames below. */
  function FrameTokens(kind: Kind, start: nat, kids: Forest, n: nat, parent: int, size: nat): seq<Token> {
    [Token(kind, U8(size), start, -1, parent)] + Flat(kids, n + 1, n)
  }

  lemma FrameAdd(kind: Kind, start: nat, kids: Forest, n: nat, parent: int, size: nat, f: Forest)
    ensures FrameTokens(kind, start, Append(kids, f), n, parent, size)
         == FrameTokens(kind, start, kids, n, parent, size) + Flat(f, n + 1 + Count(kids), n)
  {
    FlatAppend(kids, f, n + 1, n);
  }

  lemma TokensAddNest(kind: Kind, start: nat, kids: Forest, below: Stack, f: Forest)
    requires Len(f) == 1
    ensures Tokens(Nest(kind, start, Append(kids, f), below), 0)
         == Tokens(Nest(kind, start, kids, below), 1) + Flat(f, Size(below) + 1 + Count(kids), Size(below))
  {
    CountAppend(kids, f);
    FrameAdd(kind, start, kids, Size(below), Top(below), Len(kids) + 1, f);
    Assoc(Tokens(below, 1), FrameTokens(kind, start, kids, Size(below), Top(below), Len(kids) + 1),
          Flat(f, Size(below) + 1 + Count(kids), Size(below)));
  }

  /** The open tokens of the array are the container on top and its ancestors. */
  predicate OnStack(z: Stack, i: int)
  {
    z.Nest? && (i == Size(z.below) || OnStack(z.below, i))
  }

  lemma {:induction false} OpenIffOnStack(z: Stack, extra: nat, i: nat)
    requires i < Size(z)
    ensures IsOpen(Tokens(z, extra)[i]) <==> OnStack(z, i)
  {
    match z
    case Base(roots) => FlatLinked(roots, 0, -1, i);
    case Nest(kind, start, kids, below) =>
      var n := Size(below);
      if i < n {
        OpenIffOnStack(below, 1, i);
        assert Tokens(z, extra)[i] == Tokens(below, 1)[i];
      } else if i > n {
        FlatLinked(kids, n + 1, n, i - n - 1);
        assert Tokens(z, extra)[i] == Flat(kids, n + 1, n)[i - n - 1];
        if OnStack(z, i) { OnStackBound(z, i); }
      }
  }

  lemma {:induction false} OnStackBound(z: Stack, i: int)
    requires OnStack(z, i)
    ensures 0 <= i <= Top(z)
  {
    if i != Size(z.below) {
      OnStackBound(z.below, i);
      assert Top(z.below) < Size(z.below) by { TokensLinked(z.below, 0); }
    }
  }

  /** The walk for a closing bracket finds the container on top; with none it ends at a root. */
  lemma WalkFindsTop(z: Stack)
    requires Size(z) > 0 && Linked(Tokens(z, 0))
    ensures if z.Nest? then Walk(Tokens(z, 0), Size(z) - 1) == AtOpen(Top(z))
            else Walk(Tokens(z, 0), Size(z) - 1).AtRoot?
  {
    if z.Base? {
      WalkInBase(z.roots, Tokens(z, 0));
    } else {
      KidsInPlace(z);
      WalkInNest(z.kids, Size(z.below), Tokens(z, 0));
    }
  }

  lemma WalkInBase(roots: Forest, t: seq<Token>)
    requires t == Flat(roots, 0, -1) && Linked(t) && Count(roots) > 0
    ensures Walk(t, Count(roots) - 1).AtRoot?
  {
    FlatPlaced(roots);
    WalkThrough(t, roots, 0, -1, Count(roots) - 1);
  }

  lemma WalkInNest(kids: Forest, n: nat, t: seq<Token>)
    requires Linked(t) && n < |t| && IsOpen(t[n]) && FlatAt(t, kids, n + 1, n) && n + Count(kids) < |t|
    ensures Walk(t, n + Count(kids)) == AtOpen(n)
  {
    var k := n + Count(kids);
    assert Walk(t, n) == AtOpen(n);
    if k > n { WalkThrough(t, kids, n + 1, n, k); }
  }

  lemma KidsInPlace(z: Stack)
    requires z.Nest?
    ensures Size(z.below) < Size(z)
    ensures Tokens(z, 0)[Size(z.below)] == Token(z.kind, U8(Len(z.kids)), z.start, -1, Top(z.below))
    ensures FlatAt(Tokens(z, 0), z.kids, Size(z.below) + 1, Size(z.below))
  {
    var n := Size(z.below);
    var t := Token(z.kind, U8(Len(z.kids)), z.start, -1, Top(z.below));
    var b := Tokens(z.below, 1) + [t];
    FlatLast(b, z.kids, n);
    Assoc(Tokens(z.below, 1), [t], Flat(z.kids, n + 1, n));
    assert Tokens(z, 0) == b + Flat(z.kids, n + 1, n);
  }

  // ---------- the tokenizer refines the stack machine ----------

  lemma OpenSim(js: string, pos: nat, z: Stack, kind: Kind, n: nat)
    requires WellLinked(Concrete(pos, z)) && Size(z) < n
    ensures StepOpen(Concrete(pos, z), kind, n) == Next(Concrete(pos + 1, Nest(kind, pos, Empty, z)), 1)
  {
    OpenTokens(z, kind, pos);
  }

  lemma OpenTokens(z: Stack, kind: Kind, pos: nat)
    requires -1 <= Top(z) < Size(z)
    ensures Tokens(Nest(kind, pos, Empty, z), 0) == Bump(Tokens(z, 0), Top(z)) + [Token(kind, 0, pos, -1, Top(z))]
    ensures Size(Nest(kind, pos, Empty, z)) == Size(z) + 1
  {
    var b, t := Tokens(z, 1), [Token(kind, 0, pos, -1, Top(z))];
    assert b == Bump(Tokens(z, 0), Top(z)) by { TokensBump(z); }
    assert Tokens(Nest(kind, pos, Empty, z), 0) == b + t + Flat(Empty, Size(z) + 1, Size(z));
    assert b + t + [] == b + t;
  }

  lemma BumpLast(toks: seq<Token>, t: Token, i: int)
    requires -1 <= i < |toks|
    ensures Bump(toks + [t], i) == Bump(toks, i) + [t]
  {
  }

  lemma LeafTokens(z: Stack, leaf: Forest)
    requires leaf.Leaf? && leaf.rest.Empty? && -1 <= Top(z) < Size(z)
    ensures Tokens(AddTop(z, leaf), 0) ==
            Bump(Tokens(z, 0) + [Token(leaf.kind, 0, leaf.start, leaf.end, Top(z))], Top(z))
  {
    var t := Token(leaf.kind, 0, leaf.start, leaf.end, Top(z));
    assert Len(leaf) == 1;
    assert Flat(leaf, Size(z), Top(z)) == [t];
    assert Tokens(AddTop(z, leaf), 0) == Tokens(z, 1) + [t] by { TokensAdd(z, leaf); }
    assert Tokens(z, 1) == Bump(Tokens(z, 0), Top(z)) by { TokensBump(z); }
    BumpLast(Tokens(z, 0), t, Top(z));
  }

  lemma LeafSim(pos: nat, z: Stack, kind: Kind, start: nat, end: nat, next: nat, n: nat)
    requires WellLinked(Concrete(pos, z)) && Size(z) < n
    ensures StepLeaf(Concrete(pos, z), kind, start, end, next, n)
         == Next(Concrete(next, AddTop(z, Leaf(kind, start, end, Empty))), 1)
  {
    var leaf := Leaf(kind, start, end, Empty);
    LeafTokens(z, leaf);
    AddTopSize(z, leaf);
  }

  /** Closing the container on top only writes its end. */
  lemma CloseTokens(z: Stack, end: nat)
    requires z.Nest?
    ensures Size(z.below) < Size(z) && Tokens(z, 0)[Size(z.below)].kind == z.kind
    ensures Tokens(z, 0)[Size(z.below)].parent == Top(z.below)
    ensures Tokens(AddTop(z.below, Box(z.kind, z.start, end, z.kids, Empty)), 0)
         == Tokens(z, 0)[Size(z.below) := Tokens(z, 0)[Size(z.below)].(end := end)]
  {
    var n := Size(z.below);
    var box := Box(z.kind, z.start, end, z.kids, Empty);
    var b := Tokens(z.below, 1);
    var t := Token(z.kind, U8(Len(z.kids)), z.start, -1, Top(z.below));
    var t' := Token(z.kind, U8(Len(z.kids)), z.start, end, Top(z.below));
    var ks := Flat(z.kids, n + 1, n);
    assert Tokens(z, 0) == b + [t] + ks;
    assert Flat(box, n, Top(z.below)) == [t'] + ks;
    assert Tokens(AddTop(z.below, box), 0) == b + ([t'] + ks) by { TokensAdd(z.below, box); }
    UpdateMiddle(b, t, t', ks);
  }

  lemma UpdateMiddle<T>(a: seq<T>, t: T, t': T, b: seq<T>)
    ensures (a + [t] + b)[|a|] == t
    ensures a + ([t'] + b) == (a + [t] + b)[|a| := t']
    ensures a + [t'] + b == (a + [t] + b)[|a| := t']
  {
  }

  lemma CloseSim(pos: nat, z: Stack, kind: Kind)
    requires WellLinked(Concrete(pos, z))
    ensures StepClose(Concrete(pos, z), kind) ==
            if z.Base? || z.kind != kind then Fail(Inval)
            else Next(Concrete(pos + 1, AddTop(z.below, Box(z.kind, z.start, pos + 1, z.kids, Empty))), 0)
  {
    if Size(z) > 0 {
      WalkFindsTop(z);
    }
    if z.Nest? {
      CloseTokens(z, pos + 1);
      AddTopSize(z.below, Box(z.kind, z.start, pos + 1, z.kids, Empty));
    }
  }

  lemma ConcreteLinked(pos: nat, z: Stack)
    ensures WellLinked(Concrete(pos, z))
  {
    TokensLinked(z, 0);
  }

  /** The step of the tokenizer that corresponds to a step of the stack machine. */
  predicate Simulates(r: StepResult, a: AStep, z: Stack, n: nat) {
    match a
    case AFail(code) => r == Fail(code)
    case ANext(pos', z') =>
      Size(z) <= Size(z') <= Size(z) + 1 &&
      if Size(z') == Size(z) || Size(z) < n then r == Next(Concrete(pos', z'), Size(z') - Size(z))
      else r == Fail(NoMem)
  }

  /** One turn of the tokenizer's loop is one step of the stack machine, unless it needs a token
      and none is left to hand out: then it is JSMN_ERROR_NOMEM. */
  lemma StepSim(js: string, pos: nat, z: Stack, n: nat)
    requires !AtEnd(js, pos)
    ensures WellLinked(Concrete(pos, z))
    ensures Simulates(Step(js, Concrete(pos, z), n), AStepAt(js, pos, z), z, n)
  {
    ConcreteLinked(pos, z);
    var c := js[pos];
    if IsOpener(c) {
      if Size(z) < n { OpenSim(js, pos, z, BracketKind(c), n); }
    } else if IsCloser(c) {
      CloseSim(pos, z, BracketKind(c));
      if z.Nest? { CloseSize(z, pos + 1); }
    } else if c == '\"' {
      StringSim(js, pos, z, n);
    } else if IsSeparator(c) {
    } else if StartsPrimitive(c) {
      PrimitiveSim(js, pos, z, n);
    }
  }

  lemma LeafStepSim(pos: nat, z: Stack, kind: Kind, start: nat, end: nat, next: nat, n: nat)
    requires WellLinked(Concrete(pos, z))
    ensures Simulates(StepLeaf(Concrete(pos, z), kind, start, end, next, n),
                      ANext(next, AddTop(z, Leaf(kind, start, end, Empty))), z, n)
  {
    AddTopSize(z, Leaf(kind, start, end, Empty));
    if Size(z) < n { LeafSim(pos, z, kind, start, end, next, n); }
  }

  lemma StringSim(js: string, pos: nat, z: Stack, n: nat)
    requires !AtEnd(js, pos) && js[pos] == '\"' && WellLinked(Concrete(pos, z))
    ensures Simulates(Step(js, Concrete(pos, z), n), AStepAt(js, pos, z), z, n)
  {
    match ScanString(js, pos + 1)
    case Stop(e) =>
      LeafStepSim(pos, z, String, pos + 1, e, e + 1, n);
      assert Step(js, Concrete(pos, z), n) == StepLeaf(Concrete(pos, z), String, pos + 1, e, e + 1, n);
    case Invalid =>
    case Partial =>
  }

  lemma PrimitiveSim(js: string, pos: nat, z: Stack, n: nat)
    requires !AtEnd(js, pos) && StartsPrimitive(js[pos]) && WellLinked(Concrete(pos, z))
    ensures Simulates(Step(js, Concrete(pos, z), n), AStepAt(js, pos, z), z, n)
  {
    match ScanPrimitive(js, pos)
    case Stop(e) =>
      LeafStepSim(pos, z, Primitive, pos, e, e, n);
      assert Step(js, Concrete(pos, z), n) == StepLeaf(Concrete(pos, z), Primitive, pos, e, e, n);
    case Invalid =>
    case Partial =>
  }

  /** A whole call of jsmn_parse follows the stack machine up to the point where the tokens run
      out: with enough of them it ends exactly where the stack machine ends. */
  lemma {:induction false} RunSim(js: string, pos: nat, z: Stack, n: nat)
    requires Size(z) <= n
    ensures WellLinked(Concrete(pos, z))
    ensures var r := Run(js, Concrete(pos, z), n);
            var a := ARunFrom(js, pos, z);
            if Size(a.z) <= n
            then Size(z) <= Size(a.z) && r == RunResult(a.code, Size(a.z) - Size(z), Concrete(a.pos, a.z))
            else r.code == NoMem
    decreases |js| - pos
  {
    TokensLinked(z, 0);
    if AtEnd(js, pos) {
      OpenAtEnd(z);
    } else {
      StepSim(js, pos, z, n);
      match AStepAt(js, pos, z)
      case AFail(_) =>
      case ANext(pos', z') =>
        ARunGrows(js, pos', z');
        if Size(z') <= n { RunSim(js, pos', z', n); }
    }
  }

  lemma OpenAtEnd(z: Stack)
    ensures SomeOpen(Tokens(z, 0)) <==> z.Nest?
  {
    forall i | 0 <= i < Size(z) ensures IsOpen(Tokens(z, 0)[i]) <==> OnStack(z, i) { OpenIffOnStack(z, 0, i); }
    if z.Nest? {
      assert OnStack(z, Size(z.below));
      assert IsOpen(Tokens(z, 0)[Size(z.below)]);
    }
  }

  lemma {:induction false} ARunGrows(js: string, pos: nat, z: Stack)
    ensures Size(z) <= Size(ARunFrom(js, pos, z).z)
    decreases |js| - pos
  {
    if !AtEnd(js, pos) {
      var s := AStepAt(js, pos, z);
      if s.ANext? { ARunGrows(js, s.pos, s.z); }
    }
  }
}
