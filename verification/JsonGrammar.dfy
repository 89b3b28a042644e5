/** The language the strict tokenizer accepts, as a grammar over positions, and the proof that
    the stack machine accepts exactly that language. */
module JsonGrammar {
  import opened JsmnScan
  import opened JsmnMachine
  import opened JsonForest
  import opened JsmnStack

  predicate Separators(js: string, i: nat, j: nat)
    requires j <= |js|
  {
    forall k :: i <= k < j ==> IsSeparator(js[k])
  }

  predicate StringAt(js: string, s: nat, e: nat)
    requires 0 < s <= e < |js|
  {
    js[s - 1] == '\"' && js[e] == '\"' && StringBody(js, s, e)
  }

  predicate PrimitiveAt(js: string, s: nat, e: nat)
    requires s < e < |js|
  {
    StartsPrimitive(js[s]) && PrimitiveBody(js, s, e) && IsDelimiter(js[e])
  }

  predicate OpensAt(js: string, s: nat, kind: Kind)
    requires s < |js|
  {
    IsOpener(js[s]) && BracketKind(js[s]) == kind
  }

  predicate ClosesAt(js: string, s: nat, kind: Kind)
    requires s < |js|
  {
    IsCloser(js[s]) && BracketKind(js[s]) == kind
  }

  /** The position after a leaf's text: past the closing quote, or at the delimiter. */
  function LeafEnd(kind: Kind, e: nat): nat {
    if kind == String then e + 1 else e
  }

  /** After separators from position i on, a string or a primitive with the inside js[s..e]. */
  predicate LeafAt(js: string, i: nat, kind: Kind, s: nat, e: nat) {
    || (kind == String && i < s <= e < |js| && Separators(js, i, s - 1) && StringAt(js, s, e))
    || (kind == Primitive && i <= s < e < |js| && Separators(js, i, s) && PrimitiveAt(js, s, e))
  }

  /** After separators from position i on, the brackets of a container at js[s..e]. */
  predicate BracketsAt(js: string, i: nat, kind: Kind, s: nat, e: nat) {
    i <= s && s + 2 <= e <= |js| && Separators(js, i, s) && OpensAt(js, s, kind) && ClosesAt(js, e - 1, kind)
  }

  /** js[i..j] spells the trees of `f`: strings, primitives that a delimiter follows, and
      containers between brackets of one kind, with separators anywhere between them. */
  predicate Spells(js: string, i: nat, j: nat, f: Forest)
    requires i <= j <= |js|
    decreases f
  {
    match f
    case Empty => Separators(js, i, j)
    case Leaf(kind, s, e, rest) =>
      LeafAt(js, i, kind, s, e) && LeafEnd(kind, e) <= j && Spells(js, LeafEnd(kind, e), j, rest)
    case Box(kind, s, e, kids, rest) =>
      BracketsAt(js, i, kind, s, e) && e <= j && Spells(js, s + 1, e - 1, kids) && Spells(js, e, j, rest)
  }

  // ---------- completeness: what is spelled is read ----------

  lemma ReadSeparator(js: string, i: nat, z: Stack)
    requires i < |js| && IsSeparator(js[i])
    ensures ARunFrom(js, i, z) == ARunFrom(js, i + 1, z)
  {
    assert AStepAt(js, i, z) == ANext(i + 1, z);
  }

  lemma {:induction false} ReadSeparators(js: string, i: nat, j: nat, z: Stack)
    requires i <= j <= |js| && Separators(js, i, j)
    ensures ARunFrom(js, i, z) == ARunFrom(js, j, z)
    decreases j - i
  {
    if i < j {
      ReadSeparator(js, i, z);
      ReadSeparators(js, i + 1, j, z);
    }
  }

  lemma AddTopTwice(z: Stack, f: Forest, g: Forest)
    ensures AddTop(AddTop(z, f), g) == AddTop(z, Append(f, g))
  {
    match z
    case Base(roots) => AppendAssoc(roots, f, g);
    case Nest(_, _, kids, _) => AppendAssoc(kids, f, g);
  }

  lemma AddTopEmpty(z: Stack)
    ensures AddTop(z, Empty) == z
  {
    match z
    case Base(roots) => AppendEmpty(roots);
    case Nest(_, _, kids, _) => AppendEmpty(kids);
  }

  lemma ReadLeaf(js: string, i: nat, kind: Kind, s: nat, e: nat, z: Stack)
    requires LeafAt(js, i, kind, s, e)
    ensures ARunFrom(js, i, z) == ARunFrom(js, LeafEnd(kind, e), AddTop(z, Leaf(kind, s, e, Empty)))
  {
    if kind == String {
      ReadSeparators(js, i, s - 1, z);
      StringAccepted(js, s, e);
    } else {
      ReadSeparators(js, i, s, z);
      PrimitiveAccepted(js, s, e);
    }
  }

  lemma ReadOpen(js: string, i: nat, kind: Kind, s: nat, e: nat, z: Stack)
    requires BracketsAt(js, i, kind, s, e)
    ensures ARunFrom(js, i, z) == ARunFrom(js, s + 1, Nest(kind, s, Empty, z))
  {
    ReadSeparators(js, i, s, z);
  }

  lemma ReadClose(js: string, e: nat, kind: Kind, s: nat, kids: Forest, z: Stack)
    requires 0 < e <= |js| && ClosesAt(js, e - 1, kind)
    ensures ARunFrom(js, e - 1, AddTop(Nest(kind, s, Empty, z), kids))
         == ARunFrom(js, e, AddTop(z, Box(kind, s, e, kids, Empty)))
  {
    var top := Nest(kind, s, kids, z);
    assert AddTop(Nest(kind, s, Empty, z), kids) == top;
    assert AStepAt(js, e - 1, top) == ANext(e, AddTop(z, Box(kind, s, e, kids, Empty)));
  }

  lemma ReadBox(js: string, i: nat, kind: Kind, s: nat, e: nat, kids: Forest, z: Stack)
    requires BracketsAt(js, i, kind, s, e)
    requires ARunFrom(js, s + 1, Nest(kind, s, Empty, z)) == ARunFrom(js, e - 1, AddTop(Nest(kind, s, Empty, z), kids))
    ensures ARunFrom(js, i, z) == ARunFrom(js, e, AddTop(z, Box(kind, s, e, kids, Empty)))
  {
    ReadOpen(js, i, kind, s, e, z);
    ReadClose(js, e, kind, s, kids, z);
  }

  /** Reading js[i..j] adds the trees it spells to the container on top. */
  lemma {:induction false} ReadForest(js: string, i: nat, j: nat, f: Forest, z: Stack)
    requires i <= j <= |js| && Spells(js, i, j, f)
    ensures ARunFrom(js, i, z) == ARunFrom(js, j, AddTop(z, f))
    decreases f
  {
    match f
    case Empty =>
      ReadSeparators(js, i, j, z);
      AddTopEmpty(z);
    case Leaf(kind, s, e, rest) =>
      var leaf := Leaf(kind, s, e, Empty);
      ReadLeaf(js, i, kind, s, e, z);
      ReadForest(js, LeafEnd(kind, e), j, rest, AddTop(z, leaf));
      AddTopTwice(z, leaf, rest);
    case Box(kind, s, e, kids, rest) =>
      var box := Box(kind, s, e, kids, Empty);
      ReadForest(js, s + 1, e - 1, kids, Nest(kind, s, Empty, z));
      ReadBox(js, i, kind, s, e, kids, z);
      ReadForest(js, e, j, rest, AddTop(z, box));
      AddTopTwice(z, box, rest);
  }

  // ---------- soundness: what is read was spelled ----------

  lemma SpellsAfterSeparators(js: string, i: nat, m: nat, j: nat, f: Forest)
    requires i <= m <= j <= |js| && Separators(js, i, m) && Spells(js, m, j, f)
    ensures Spells(js, i, j, f)
  {
  }

  lemma {:induction false} SpellsAppend(js: string, i: nat, m: nat, j: nat, f: Forest, g: Forest)
    requires i <= m <= j <= |js| && Spells(js, i, m, f) && Spells(js, m, j, g)
    ensures Spells(js, i, j, Append(f, g))
    decreases f
  {
    match f
    case Empty => SpellsAfterSeparators(js, i, m, j, g);
    case Leaf(kind, s, e, rest) => SpellsAppend(js, LeafEnd(kind, e), m, j, rest, g);
    case Box(kind, s, e, kids, rest) => SpellsAppend(js, e, m, j, rest, g);
  }

  /** The text before `pos` spells the stack. */
  predicate SpellsStack(js: string, pos: nat, z: Stack)
    requires pos <= |js|
    decreases z
  {
    match z
    case Base(roots) => Spells(js, 0, pos, roots)
    case Nest(kind, start, kids, below) =>
      start < pos && SpellsStack(js, start, below) && OpensAt(js, start, kind) && Spells(js, start + 1, pos, kids)
  }

  lemma SpellsStackAdd(js: string, pos: nat, z: Stack, next: nat, f: Forest)
    requires pos <= next <= |js| && SpellsStack(js, pos, z) && Spells(js, pos, next, f)
    ensures SpellsStack(js, next, AddTop(z, f))
  {
    match z
    case Base(roots) => SpellsAppend(js, 0, pos, next, roots, f);
    case Nest(_, start, kids, _) => SpellsAppend(js, start + 1, pos, next, kids, f);
  }

  lemma SpellsClose(js: string, pos: nat, z: Stack)
    requires pos < |js| && SpellsStack(js, pos, z) && z.Nest? && ClosesAt(js, pos, z.kind)
    ensures SpellsStack(js, pos + 1, AddTop(z.below, Box(z.kind, z.start, pos + 1, z.kids, Empty)))
  {
    var box := Box(z.kind, z.start, pos + 1, z.kids, Empty);
    assert Spells(js, pos + 1, pos + 1, Empty);
    assert Spells(js, z.start, pos + 1, box);
    SpellsStackAdd(js, z.start, z.below, pos + 1, box);
  }

  lemma SpellsLeaf(js: string, i: nat, kind: Kind, s: nat, e: nat)
    requires LeafAt(js, i, kind, s, e)
    ensures i <= LeafEnd(kind, e) <= |js| && Spells(js, i, LeafEnd(kind, e), Leaf(kind, s, e, Empty))
  {
    assert Spells(js, LeafEnd(kind, e), LeafEnd(kind, e), Empty);
  }

  lemma SpellsString(js: string, pos: nat, z: Stack, e: nat)
    requires pos < |js| && SpellsStack(js, pos, z) && js[pos] == '\"' && ScanString(js, pos + 1) == Stop(e)
    ensures e < |js| && SpellsStack(js, e + 1, AddTop(z, Leaf(String, pos + 1, e, Empty)))
  {
    StringAccepted(js, pos + 1, e);
    SpellsLeaf(js, pos, String, pos + 1, e);
    SpellsStackAdd(js, pos, z, e + 1, Leaf(String, pos + 1, e, Empty));
  }

  lemma SpellsPrimitive(js: string, pos: nat, z: Stack, e: nat)
    requires pos < |js| && SpellsStack(js, pos, z) && StartsPrimitive(js[pos]) && ScanPrimitive(js, pos) == Stop(e)
    ensures e <= |js| && SpellsStack(js, e, AddTop(z, Leaf(Primitive, pos, e, Empty)))
  {
    PrimitiveAccepted(js, pos, e);
    SpellsLeaf(js, pos, Primitive, pos, e);
    SpellsStackAdd(js, pos, z, e, Leaf(Primitive, pos, e, Empty));
  }

  lemma SpellsSeparator(js: string, pos: nat, z: Stack)
    requires pos < |js| && SpellsStack(js, pos, z) && IsSeparator(js[pos])
    ensures SpellsStack(js, pos + 1, z)
  {
    assert Spells(js, pos, pos + 1, Empty);
    SpellsStackAdd(js, pos, z, pos + 1, Empty);
    AddTopEmpty(z);
  }

  lemma SpellsStep(js: string, pos: nat, z: Stack)
    requires !AtEnd(js, pos) && SpellsStack(js, pos, z) && AStepAt(js, pos, z).ANext?
    ensures AStepAt(js, pos, z).pos <= |js| && SpellsStack(js, AStepAt(js, pos, z).pos, AStepAt(js, pos, z).z)
  {
    var c := js[pos];
    if IsOpener(c) {
      assert Spells(js, pos + 1, pos + 1, Empty);
    } else if IsCloser(c) {
      SpellsClose(js, pos, z);
    } else if c == '\"' {
      SpellsString(js, pos, z, ScanString(js, pos + 1).at);
    } else if IsSeparator(c) {
      SpellsSeparator(js, pos, z);
    } else {
      SpellsPrimitive(js, pos, z, ScanPrimitive(js, pos).at);
    }
  }

  lemma {:induction false} SpellsRun(js: string, pos: nat, z: Stack)
    requires pos <= |js| && SpellsStack(js, pos, z)
    ensures var a := ARunFrom(js, pos, z); pos <= a.pos <= |js| && SpellsStack(js, a.pos, a.z)
    ensures ARunFrom(js, pos, z).code == Ok ==> AtEnd(js, ARunFrom(js, pos, z).pos) && ARunFrom(js, pos, z).z.Base?
    decreases |js| - pos
  {
    if !AtEnd(js, pos) {
      match AStepAt(js, pos, z)
      case AFail(_) =>
      case ANext(pos', z') =>
        SpellsStep(js, pos, z);
        SpellsRun(js, pos', z');
    }
  }

  // ---------- sizes ----------

  /** Every token takes at least one character. */
  lemma {:induction false} SpellsCount(js: string, i: nat, j: nat, f: Forest)
    requires i <= j <= |js| && Spells(js, i, j, f)
    ensures Count(f) <= j - i
    decreases f
  {
    match f
    case Empty =>
    case Leaf(kind, s, e, rest) => SpellsCount(js, LeafEnd(kind, e), j, rest);
    case Box(kind, s, e, kids, rest) =>
      SpellsCount(js, s + 1, e - 1, kids);
      SpellsCount(js, e, j, rest);
  }

  lemma {:induction false} SpellsStackSize(js: string, pos: nat, z: Stack)
    requires pos <= |js| && SpellsStack(js, pos, z)
    ensures Size(z) <= pos
    decreases z
  {
    match z
    case Base(roots) => SpellsCount(js, 0, pos, roots);
    case Nest(_, start, kids, below) =>
      SpellsStackSize(js, start, below);
      SpellsCount(js, start + 1, pos, kids);
  }

  /** Spelled text holds no NUL. */
  lemma {:induction false} SpellsNoNul(js: string, i: nat, j: nat, f: Forest, k: nat)
    requires i <= j <= |js| && Spells(js, i, j, f) && i <= k < j
    ensures js[k] != '\0'
    decreases f
  {
    match f
    case Empty =>
    case Leaf(kind, s, e, rest) =>
      if kind == String {
        if k > e { SpellsNoNul(js, e + 1, j, rest, k); }
        else if s <= k < e { BodyNoNul(js, s, e, k); }
      } else {
        if k >= e { SpellsNoNul(js, e, j, rest, k); }
      }
    case Box(kind, s, e, kids, rest) =>
      if k >= e { SpellsNoNul(js, e, j, rest, k); }
      else if s < k < e - 1 { SpellsNoNul(js, s + 1, e - 1, kids, k); }
  }

  lemma {:induction false} BodyNoNul(js: string, s: nat, e: nat, k: nat)
    requires s <= k < e <= |js| && StringBody(js, s, e)
    ensures js[k] != '\0'
    decreases e - s
  {
    if js[s] != '\"' && js[s] != '\\' && js[s] != '\0' && StringBody(js, s + 1, e) {
      if k > s { BodyNoNul(js, s + 1, e, k); }
    } else if s + 2 <= e && js[s] == '\\' && IsSimpleEscape(js[s + 1]) && StringBody(js, s + 2, e) {
      if k > s + 1 { BodyNoNul(js, s + 2, e, k); }
    } else {
      if k > s + 5 { BodyNoNul(js, s + 6, e, k); }
    }
  }
}
