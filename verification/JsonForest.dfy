/** Token trees, and the flat preorder array with parent links that stands for one. */
module JsonForest {
  import opened CInts
  import opened JsmnMachine
  import opened Seqs

  /** A list of sibling trees: each is a leaf or a box (object or array) with its own list of
      children. `start` and `end` are the token's offsets in the text. */
  datatype Forest =
    | Empty
    | Leaf(kind: Kind, start: nat, end: nat, rest: Forest)
    | Box(kind: Kind, start: nat, end: nat, kids: Forest, rest: Forest)

  /** Number of sibling trees. */
  function Len(f: Forest): nat {
    match f
    case Empty => 0
    case Leaf(_, _, _, rest) => 1 + Len(rest)
    case Box(_, _, _, _, rest) => 1 + Len(rest)
  }

  /** Number of tokens in all. */
  function Count(f: Forest): nat {
    match f
    case Empty => 0
    case Leaf(_, _, _, rest) => 1 + Count(rest)
    case Box(_, _, _, kids, rest) => 1 + Count(kids) + Count(rest)
  }

  function Append(f: Forest, g: Forest): Forest {
    match f
    case Empty => g
    case Leaf(k, s, e, rest) => Leaf(k, s, e, Append(rest, g))
    case Box(k, s, e, kids, rest) => Box(k, s, e, kids, Append(rest, g))
  }

  /** The tokens of `f` in preorder, when they are placed from index `base` on under `parent`. */
  function Flat(f: Forest, base: nat, parent: int): (r: seq<Token>)
    ensures |r| == Count(f)
    decreases f, 0
  {
    match f
    case Empty => []
    case Leaf(k, s, e, rest) => [Token(k, 0, s, e, parent)] + Flat(rest, base + 1, parent)
    case Box(k, s, e, kids, rest) =>
      BoxTokens(k, s, e, kids, base, parent) + Flat(rest, base + 1 + Count(kids), parent)
  }

  /** The tokens of one container and its children. */
  function BoxTokens(k: Kind, s: nat, e: nat, kids: Forest, base: nat, parent: int): (r: seq<Token>)
    ensures |r| == 1 + Count(kids)
    decreases kids, 1
  {
    [Token(k, U8(Len(kids)), s, e, parent)] + Flat(kids, base + 1, base)
  }

  /** Tokens of the first tree. */
  function Span(f: Forest): nat
    requires !f.Empty?
  {
    if f.Leaf? then 1 else 1 + Count(f.kids)
  }

  function Head(f: Forest, base: nat, parent: int): seq<Token>
    requires !f.Empty?
  {
    if f.Leaf? then [Token(f.kind, 0, f.start, f.end, parent)] else BoxTokens(f.kind, f.start, f.end, f.kids, base, parent)
  }

  lemma FlatHead(f: Forest, base: nat, parent: int)
    requires !f.Empty?
    ensures Flat(f, base, parent) == Head(f, base, parent) + Flat(f.rest, base + Span(f), parent)
    ensures Count(f) == Span(f) + Count(f.rest)
  {
  }

  lemma {:induction false} AppendAssoc(f: Forest, g: Forest, h: Forest)
    ensures Append(Append(f, g), h) == Append(f, Append(g, h))
  {
    if !f.Empty? { AppendAssoc(f.rest, g, h); }
  }

  lemma {:induction false} AppendEmpty(f: Forest)
    ensures Append(f, Empty) == f
  {
    if !f.Empty? { AppendEmpty(f.rest); }
  }

  lemma {:induction false} CountAppend(f: Forest, g: Forest)
    ensures Len(Append(f, g)) == Len(f) + Len(g)
    ensures Count(Append(f, g)) == Count(f) + Count(g)
  {
    if !f.Empty? { CountAppend(f.rest, g); }
  }

  lemma HeadOfAppend(f: Forest, g: Forest, base: nat, parent: int)
    requires !f.Empty?
    ensures Flat(Append(f, g), base, parent)
         == Head(f, base, parent) + Flat(Append(f.rest, g), base + Span(f), parent)
  {
    FlatHead(Append(f, g), base, parent);
  }

  lemma {:induction false} FlatAppend(f: Forest, g: Forest, base: nat, parent: int)
    ensures Flat(Append(f, g), base, parent) == Flat(f, base, parent) + Flat(g, base + Count(f), parent)
  {
    if !f.Empty? {
      var n := base + Span(f);
      FlatHead(f, base, parent);
      FlatAppend(f.rest, g, n, parent);
      var head, tail, more := Head(f, base, parent), Flat(f.rest, n, parent), Flat(g, base + Count(f), parent);
      HeadOfAppend(f, g, base, parent);
      Assoc(head, tail, more);
    }
  }

  // ---------- the shape of a preorder array ----------

  /** Token `k` lies in the subtree of token `i`, by its chain of parent links. */
  predicate Below(toks: seq<Token>, k: nat, i: nat)
    requires Linked(toks) && k < |toks|
    decreases k
  {
    k == i || (toks[k].parent != -1 && Below(toks, toks[k].parent, i))
  }

  /** The tokens from index `base` on are the preorder of `f` under `parent`. */
  predicate FlatAt(toks: seq<Token>, f: Forest, base: nat, parent: int) {
    match f
    case Empty => base <= |toks|
    case Leaf(k, s, e, rest) =>
      base < |toks| && toks[base] == Token(k, 0, s, e, parent) && FlatAt(toks, rest, base + 1, parent)
    case Box(k, s, e, kids, rest) =>
      base < |toks| && toks[base] == Token(k, U8(Len(kids)), s, e, parent)
      && FlatAt(toks, kids, base + 1, base) && FlatAt(toks, rest, base + 1 + Count(kids), parent)
  }

  lemma {:induction false} FlatIsAt(pre: seq<Token>, f: Forest, parent: int, post: seq<Token>)
    ensures FlatAt(pre + Flat(f, |pre|, parent) + post, f, |pre|, parent)
    decreases f
  {
    var base := |pre|;
    match f
    case Empty =>
    case Leaf(k, s, e, rest) =>
      var t := [Token(k, 0, s, e, parent)];
      FlatIsAt(pre + t, rest, parent, post);
      Regroup(pre, t, [], Flat(rest, base + 1, parent), post);
      assert t + [] == t && pre + t + [] == pre + t;
    case Box(k, s, e, kids, rest) =>
      var t := [Token(k, U8(Len(kids)), s, e, parent)];
      var ks := Flat(kids, base + 1, base);
      var rs := Flat(rest, base + 1 + Count(kids), parent);
      FlatIsAt(pre + t, kids, base, rs + post);
      FlatIsAt(pre + t + ks, rest, parent, post);
      Regroup(pre, t, ks, rs, post);
  }

  lemma FlatLast(pre: seq<Token>, f: Forest, parent: int)
    ensures FlatAt(pre + Flat(f, |pre|, parent), f, |pre|, parent)
  {
    FlatIsAt(pre, f, parent, []);
    var t := pre + Flat(f, |pre|, parent);
    assert t + [] == t;
  }

  lemma FlatPlaced(f: Forest)
    ensures FlatAt(Flat(f, 0, -1), f, 0, -1)
  {
    FlatLast([], f, -1);
    var t := Flat(f, 0, -1);
    assert [] + t == t;
  }

  lemma {:induction false} FlatLinked(f: Forest, base: nat, parent: int, i: nat)
    requires -1 <= parent < base && i < Count(f)
    ensures parent <= Flat(f, base, parent)[i].parent < base + i
    ensures Flat(f, base, parent)[i].start >= 0 && Flat(f, base, parent)[i].end >= 0
    ensures Flat(f, base, parent)[i].size < 256
  {
    match f
    case Leaf(k, s, e, rest) =>
      if i > 0 { FlatLinked(rest, base + 1, parent, i - 1); }
    case Box(k, s, e, kids, rest) =>
      var m := 1 + Count(kids);
      var bs, rs := BoxTokens(k, s, e, kids, base, parent), Flat(rest, base + m, parent);
      assert Flat(f, base, parent)[i] == if i < m then bs[i] else rs[i - m];
      if i >= m {
        FlatLinked(rest, base + m, parent, i - m);
      } else if i > 0 {
        FlatLinked(kids, base + 1, base, i - 1);
        assert bs[i] == Flat(kids, base + 1, base)[i - 1];
      }
  }

  /** A closing bracket's walk that starts inside a finished forest leaves it through `parent`,
      or ends at a root when there is none. */
  lemma {:induction false} WalkThrough(toks: seq<Token>, f: Forest, base: nat, parent: int, k: nat)
    requires Linked(toks) && -1 <= parent < base && FlatAt(toks, f, base, parent)
    requires base <= k < base + Count(f) && k < |toks|
    ensures if parent == -1 then Walk(toks, k).AtRoot? else Walk(toks, k) == Walk(toks, parent)
  {
    if k == base {
    } else if f.Leaf? {
      WalkThrough(toks, f.rest, base + 1, parent, k);
    } else if k <= base + Count(f.kids) {
      WalkThrough(toks, f.kids, base + 1, base, k);
      assert Walk(toks, k) == Walk(toks, base);
    } else {
      WalkThrough(toks, f.rest, base + 1 + Count(f.kids), parent, k);
    }
  }
}
