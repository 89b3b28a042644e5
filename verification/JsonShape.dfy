/** The shape of the token array of an accepted text, said on the array alone: parents come
    first, subtrees are contiguous, tokens nest in their parents, sizes count the children. */
module JsonShape {
  import opened CInts
  import opened JsmnScan
  import opened JsmnMachine
  import opened JsonForest
  import opened JsmnStack
  import opened JsonGrammar
  import opened JsmnTheorems

  // ---------- parents ----------

  /** Inside a forest's range, a token's parent is the forest's own parent or lies in the range. */
  lemma {:induction false} ParentInRange(toks: seq<Token>, f: Forest, base: nat, parent: int, k: nat)
    requires FlatAt(toks, f, base, parent) && -1 <= parent < base && base <= k < base + Count(f)
    ensures k < |toks| && (toks[k].parent == parent || base <= toks[k].parent < k)
  {
    if k > base {
      if f.Leaf? {
        ParentInRange(toks, f.rest, base + 1, parent, k);
      } else if k <= base + Count(f.kids) {
        ParentInRange(toks, f.kids, base + 1, base, k);
      } else {
        ParentInRange(toks, f.rest, base + 1 + Count(f.kids), parent, k);
      }
    }
  }

  // ---------- contiguous subtrees ----------

  lemma {:induction false} BelowIsUp(toks: seq<Token>, k: nat, i: nat)
    requires Linked(toks) && k < |toks| && Below(toks, k, i)
    ensures i <= k
    decreases k
  {
    if k != i { BelowIsUp(toks, toks[k].parent, i); }
  }

  /** From inside a forest, every token left of it is reached through the forest's parent. */
  lemma {:induction false} BelowOutside(toks: seq<Token>, f: Forest, base: nat, parent: int, k: nat, i: nat)
    requires Linked(toks) && FlatAt(toks, f, base, parent) && -1 <= parent < base
    requires base <= k < base + Count(f) && k < |toks| && i < base
    ensures Below(toks, k, i) <==> parent != -1 && Below(toks, parent, i)
    decreases k
  {
    ParentInRange(toks, f, base, parent, k);
    if toks[k].parent != parent {
      BelowOutside(toks, f, base, parent, toks[k].parent, i);
    }
  }

  /** One past the last descendant of token `i` of a forest placed at `base`. */
  function SubtreeEnd(f: Forest, base: nat, i: nat): (e: nat)
    requires base <= i < base + Count(f)
    ensures i < e <= base + Count(f)
  {
    match f
    case Leaf(_, _, _, rest) => if i == base then base + 1 else SubtreeEnd(rest, base + 1, i)
    case Box(_, _, _, kids, rest) =>
      if i == base then base + 1 + Count(kids)
      else if i <= base + Count(kids) then SubtreeEnd(kids, base + 1, i)
      else SubtreeEnd(rest, base + 1 + Count(kids), i)
  }

  lemma {:induction false} SubtreeRange(toks: seq<Token>, f: Forest, base: nat, parent: int, i: nat, k: nat)
    requires Linked(toks) && FlatAt(toks, f, base, parent) && -1 <= parent < base
    requires base <= i < base + Count(f) && base <= k < base + Count(f) && k < |toks|
    ensures Below(toks, k, i) <==> i <= k < SubtreeEnd(f, base, i)
    decreases f
  {
    if k < i {
      if Below(toks, k, i) { BelowIsUp(toks, k, i); }
    } else if k > i {
      var n := if f.Box? then base + 1 + Count(f.kids) else base + 1;
      if k >= n && i < n {
        BelowOutside(toks, f.rest, n, parent, k, i);
        if parent != -1 && Below(toks, parent, i) { BelowIsUp(toks, parent, i); }
      } else if i >= n {
        SubtreeRange(toks, f.rest, n, parent, i, k);
      } else if i == base {
        BelowOutside(toks, f.kids, base + 1, base, k, base);
      } else {
        SubtreeRange(toks, f.kids, base + 1, base, i, k);
      }
    }
  }

  // ---------- sizes ----------

  /** How many of the tokens lo..hi name token `i` as their parent. */
  function Children(toks: seq<Token>, i: int, lo: nat, hi: nat): nat
    requires lo <= hi <= |toks|
  {
    if lo == hi then 0
    else Children(toks, i, lo, hi - 1) + (if toks[hi - 1].parent == i then 1 else 0)
  }

  lemma {:induction false} ChildrenSplit(toks: seq<Token>, i: int, lo: nat, m: nat, hi: nat)
    requires lo <= m <= hi <= |toks|
    ensures Children(toks, i, lo, hi) == Children(toks, i, lo, m) + Children(toks, i, m, hi)
    decreases hi - m
  {
    if m < hi { ChildrenSplit(toks, i, lo, m, hi - 1); }
  }

  lemma {:induction false} ChildrenNone(toks: seq<Token>, i: int, lo: nat, hi: nat)
    requires lo <= hi <= |toks| && forall k :: lo <= k < hi ==> toks[k].parent != i
    ensures Children(toks, i, lo, hi) == 0
    decreases hi - lo
  {
    if lo < hi { ChildrenNone(toks, i, lo, hi - 1); }
  }

  lemma {:induction false} FlatFits(toks: seq<Token>, f: Forest, base: nat, parent: int)
    requires FlatAt(toks, f, base, parent)
    ensures base + Count(f) <= |toks|
  {
    if f.Leaf? { FlatFits(toks, f.rest, base + 1, parent); }
    if f.Box? { FlatFits(toks, f.rest, base + 1 + Count(f.kids), parent); }
  }

  /** No token of a forest's range names an outside token other than the forest's parent. */
  lemma NoneOutside(toks: seq<Token>, f: Forest, base: nat, parent: int, i: int)
    requires FlatAt(toks, f, base, parent) && -1 <= parent < base && i < base && i != parent
    ensures base + Count(f) <= |toks| && Children(toks, i, base, base + Count(f)) == 0
  {
    FlatFits(toks, f, base, parent);
    forall k | base <= k < base + Count(f) ensures toks[k].parent != i { ParentInRange(toks, f, base, parent, k); }
    ChildrenNone(toks, i, base, base + Count(f));
  }

  /** The tokens that name a forest's parent are its roots. */
  lemma {:induction false} RootsCounted(toks: seq<Token>, f: Forest, base: nat, parent: int)
    requires FlatAt(toks, f, base, parent) && -1 <= parent < base
    ensures base + Count(f) <= |toks| && Children(toks, parent, base, base + Count(f)) == Len(f)
  {
    FlatFits(toks, f, base, parent);
    if !f.Empty? {
      var n := if f.Box? then base + 1 + Count(f.kids) else base + 1;
      RootsCounted(toks, f.rest, n, parent);
      ChildrenSplit(toks, parent, base, n, base + Count(f));
      ChildrenSplit(toks, parent, base, base + 1, n);
      if f.Box? { NoneOutside(toks, f.kids, base + 1, base, parent); }
    }
  }

  /** A token's size is the number of tokens that name it as parent, modulo 256. */
  lemma {:induction false} SizeCounts(toks: seq<Token>, f: Forest, base: nat, parent: int, i: nat)
    requires FlatAt(toks, f, base, parent) && -1 <= parent < base && base <= i < base + Count(f)
    ensures base + Count(f) <= |toks| && toks[i].size == U8(Children(toks, i, base, base + Count(f)))
  {
    FlatFits(toks, f, base, parent);
    var n := if f.Box? then base + 1 + Count(f.kids) else base + 1;
    ChildrenSplit(toks, i, base, n, base + Count(f));
    ChildrenSplit(toks, i, base, base + 1, n);
    if i < n { NoneOutside(toks, f.rest, n, parent, i); }
    if i == base {
      if f.Box? { RootsCounted(toks, f.kids, base + 1, base); }
    } else if i < n {
      SizeCounts(toks, f.kids, base + 1, base, i);
    } else {
      SizeCounts(toks, f.rest, n, parent, i);
      FlatFits(toks, f.rest, n, parent);
      forall k | base <= k < n ensures toks[k].parent != i {
        ParentInRange(toks, f, base, parent, k);
      }
      ChildrenNone(toks, i, base, n);
    }
  }

  // ---------- nesting ----------

  /** The tokens of js[i..j] lie in that range, and each strictly inside its parent. */
  lemma {:induction false} Nested(js: string, i: nat, j: nat, toks: seq<Token>, f: Forest, base: nat, parent: int, k: nat)
    requires i <= j <= |js| && Spells(js, i, j, f)
    requires FlatAt(toks, f, base, parent) && -1 <= parent < base && base <= k < base + Count(f) && k < |toks|
    ensures i <= toks[k].start <= toks[k].end <= j
    ensures toks[k].parent == parent
         || (base <= toks[k].parent < k && toks[toks[k].parent].start < toks[k].start
             && toks[k].end < toks[toks[k].parent].end)
    decreases f
  {
    match f
    case Leaf(kind, s, e, rest) =>
      if k > base { Nested(js, LeafEnd(kind, e), j, toks, rest, base + 1, parent, k); }
    case Box(kind, s, e, kids, rest) =>
      if k == base {
      } else if k <= base + Count(kids) {
        Nested(js, s + 1, e - 1, toks, kids, base + 1, base, k);
      } else {
        Nested(js, e, j, toks, rest, base + 1 + Count(kids), parent, k);
      }
  }

  // ---------- all together ----------

  ghost predicate TreeShaped(toks: seq<Token>) {
    && Linked(toks)
    && (forall i :: 0 <= i < |toks| ==> Contiguous(toks, i))
    && (forall i :: 0 <= i < |toks| ==> toks[i].size == U8(Children(toks, i, 0, |toks|)))
    && (forall k :: 0 <= k < |toks| && toks[k].parent != -1 ==>
          toks[toks[k].parent].start < toks[k].start <= toks[k].end < toks[toks[k].parent].end)
  }

  /** The descendants of token `i` are a range that starts at `i`. */
  ghost predicate Contiguous(toks: seq<Token>, i: nat)
    requires Linked(toks)
  {
    exists e: nat :: DescendantsAre(toks, i, e)
  }

  ghost predicate DescendantsAre(toks: seq<Token>, i: nat, e: nat)
    requires Linked(toks)
  {
    i < e <= |toks| && forall k :: 0 <= k < |toks| ==> (Below(toks, k, i) <==> i <= k < e)
  }

  lemma FlatContiguous(toks: seq<Token>, f: Forest, i: nat)
    requires Linked(toks) && FlatAt(toks, f, 0, -1) && Count(f) == |toks| && i < |toks|
    ensures Contiguous(toks, i)
  {
    var e := SubtreeEnd(f, 0, i);
    forall k | 0 <= k < |toks| ensures Below(toks, k, i) <==> i <= k < e { SubtreeRange(toks, f, 0, -1, i, k); }
    assert DescendantsAre(toks, i, e);
  }

  /** Every array of tokens that jsmn_parse returns with success encodes a tree: parent before
      child, contiguous subtrees, strict nesting of the text ranges, and child counts. */
  lemma AcceptedIsTree(js: string, n: nat)
    requires Run(js, FRESH, n).code == Ok
    ensures TreeShaped(Run(js, FRESH, n).st.toks)
  {
    var f := ParseSound(js, n);
    FlatTreeShaped(js, f, Flat(f, 0, -1));
  }

  lemma FlatTreeShaped(js: string, f: Forest, toks: seq<Token>)
    requires Spells(js, 0, TextEnd(js), f) && toks == Flat(f, 0, -1)
    ensures TreeShaped(toks)
  {
    FlatPlaced(f);
    forall k | 0 <= k < |toks| ensures -1 <= toks[k].parent < k { ParentInRange(toks, f, 0, -1, k); }
    forall i | 0 <= i < |toks| ensures Contiguous(toks, i) { FlatContiguous(toks, f, i); }
    forall i | 0 <= i < |toks| ensures toks[i].size == U8(Children(toks, i, 0, |toks|)) {
      SizeCounts(toks, f, 0, -1, i);
    }
    forall k | 0 <= k < |toks| && toks[k].parent != -1
      ensures toks[toks[k].parent].start < toks[k].start <= toks[k].end < toks[toks[k].parent].end
    {
      Nested(js, 0, TextEnd(js), toks, f, 0, -1, k);
    }
  }

  // ---------- while a parse is under way ----------

  /** The open tokens are the current container and its ancestors; the walk of a closing bracket
      from the last token stops at the current container, or at a root when there is none. */
  ghost predicate OpenChain(st: PState) {
    && WellLinked(st)
    && (forall i :: 0 <= i < |st.toks| ==>
          (IsOpen(st.toks[i]) <==> st.super != -1 && Below(st.toks, st.super, i)))
    && (|st.toks| > 0 ==>
          if st.super == -1 then Walk(st.toks, |st.toks| - 1).AtRoot?
          else Walk(st.toks, |st.toks| - 1) == AtOpen(st.super))
  }

  lemma {:induction false} BelowPrefix(toks: seq<Token>, more: seq<Token>, k: nat, i: nat)
    requires Linked(toks) && Linked(toks + more) && k < |toks|
    ensures Below(toks + more, k, i) <==> Below(toks, k, i)
    decreases k
  {
    assert (toks + more)[k] == toks[k];
    if k != i && toks[k].parent != -1 { BelowPrefix(toks, more, toks[k].parent, i); }
  }

  lemma {:induction false} OnStackIsChain(z: Stack, extra: nat, i: nat)
    requires i < Size(z)
    ensures Linked(Tokens(z, extra)) && -1 <= Top(z) < Size(z)
    ensures OnStack(z, i) <==> Top(z) != -1 && Below(Tokens(z, extra), Top(z), i)
    decreases z
  {
    TokensLinked(z, extra);
    if z.Nest? {
      var n := Size(z.below);
      var t := Token(z.kind, U8(Len(z.kids) + extra), z.start, -1, Top(z.below));
      var more := [t] + Flat(z.kids, n + 1, n);
      TokensLinked(z.below, 1);
      assert Tokens(z, extra) == Tokens(z.below, 1) + more;
      assert Tokens(z, extra)[n] == t;
      if i < n {
        OnStackIsChain(z.below, 1, i);
        if Top(z.below) != -1 { BelowPrefix(Tokens(z.below, 1), more, Top(z.below), i); }
      } else if i > n {
        if OnStack(z, i) { OnStackBound(z, i); }
        if Below(Tokens(z, extra), n, i) { BelowIsUp(Tokens(z, extra), n, i); }
      }
    }
  }

  lemma ConcreteChain(pos: nat, z: Stack)
    ensures OpenChain(Concrete(pos, z))
  {
    ConcreteLinked(pos, z);
    forall i | 0 <= i < Size(z)
      ensures IsOpen(Tokens(z, 0)[i]) <==> Top(z) != -1 && Below(Tokens(z, 0), Top(z), i)
    {
      OpenIffOnStack(z, 0, i);
      OnStackIsChain(z, 0, i);
    }
    if Size(z) > 0 { WalkFindsTop(z); }
  }

  /** One turn of the loop in some call: the call's text and its number of tokens. */
  datatype Turn = Turn(js: string, numTokens: nat)

  /** The parser after any turns of the loop, in any number of calls; a turn that fails, or a
      text that has ended, leaves it as it is. */
  function After(st: PState, turns: seq<Turn>): (r: PState)
    requires WellLinked(st)
    ensures WellLinked(r)
    decreases |turns|
  {
    if turns == [] then st
    else
      var prev := After(st, turns[..|turns| - 1]);
      var t := turns[|turns| - 1];
      if AtEnd(t.js, prev.pos) then prev
      else
        var r := Step(t.js, prev, t.numTokens);
        if r.Next? then r.st else prev
  }

  lemma {:induction false} AfterIsStack(turns: seq<Turn>) returns (z: Stack)
    ensures After(FRESH, turns) == Concrete(After(FRESH, turns).pos, z)
    decreases |turns|
  {
    if turns == [] {
      z := Base(Empty);
    } else {
      var front, t := turns[..|turns| - 1], turns[|turns| - 1];
      z := AfterIsStack(front);
      var prev := After(FRESH, front);
      if !AtEnd(t.js, prev.pos) {
        StepSim(t.js, prev.pos, z, t.numTokens);
        if Step(t.js, prev, t.numTokens).Next? { z := AStepAt(t.js, prev.pos, z).z; }
      }
    }
  }

  /** At every point of every parse, interrupted and resumed in any way, the open tokens are
      exactly the chain of the current container, and a closing bracket's walk ends there: the
      way out of the walk that ignores a bracket is never taken. */
  lemma ChainAlways(turns: seq<Turn>)
    ensures OpenChain(After(FRESH, turns))
  {
    var z := AfterIsStack(turns);
    ConcreteChain(After(FRESH, turns).pos, z);
  }

  /** In such a state a closing bracket is never ignored: it closes the current container or it
      is an error. */
  lemma CloserNeverIgnored(st: PState, kind: Kind)
    requires OpenChain(st)
    ensures match StepClose(st, kind)
            case Fail(code) => code == Inval && (st.super == -1 || st.toks[st.super].kind != kind)
            case Next(st', _) =>
              st.super != -1 && st.toks[st.super].kind == kind
              && st'.toks == st.toks[st.super := st.toks[st.super].(end := st.pos + 1)]
              && st'.super == st.toks[st.super].parent
  {
  }
}
