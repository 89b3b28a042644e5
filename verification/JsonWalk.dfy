/** How lib_jsmn/json_wrappers.c walks over the children of a token by their sizes alone, which are
    kept in 8 bits: where a walk comes to, whatever the sizes are. */
module JsonWalk {
  import opened CInts
  import opened JsmnMachine
  import opened JsonForest
  import opened JsonLookup

  // ---------- what is left to be walked over ----------

  /** The number of trees that start after token `t` and are not inside another such tree. */
  function Pending(f: Forest, base: nat, t: int): nat {
    if f.Empty? then 0
    else if t < base then Len(f)
    else if t < base + Span(f) then (if f.Leaf? then 0 else Pending(f.kids, base + 1, t)) + Len(f.rest)
    else Pending(f.rest, base + Span(f), t)
  }

  lemma {:induction false} PendingMore(f: Forest, base: nat, t: int)
    requires base - 1 <= t
    ensures Pending(f, base, t) > 0 <==> t + 1 < base + Count(f)
    decreases f
  {
    if !f.Empty? && base <= t {
      if f.Box? { PendingMore(f.kids, base + 1, t); }
      if base + Span(f) - 1 <= t { PendingMore(f.rest, base + Span(f), t); }
    }
  }

  /** Going from token t over the next one to t', inside its subtree, does away with one tree and
      leaves what is pending of its children. */
  lemma {:induction false} PendingTurn(f: Forest, base: nat, t: int, t': int)
    requires base - 1 <= t && t + 1 < base + Count(f)
    requires t + 1 <= t' <= t + Span(TreeAt(f, base, t + 1))
    ensures Pending(f, base, t') == Pending(f, base, t) - 1 + Pending(KidsOf(TreeAt(f, base, t + 1)), t + 2, t')
    decreases f
  {
    if t + 1 == base {
    } else if t + 1 < base + Span(f) {
      PendingTurn(f.kids, base + 1, t, t');
    } else {
      PendingTurn(f.rest, base + Span(f), t, t');
      if f.Box? { PendingMore(f.kids, base + 1, t); }
    }
  }

  /** Right before the i-th tree, that tree and those after it are pending. */
  lemma {:induction false} PendingAt(f: Forest, base: nat, i: nat)
    requires i <= Len(f)
    ensures base <= ChildIndex(f, base, i) <= base + Count(f)
    ensures Pending(f, base, ChildIndex(f, base, i) - 1) == Len(f) - i
    decreases i
  {
    if i > 0 {
      PendingAt(f.rest, base + Span(f), i - 1);
      if f.Box? { PendingMore(f.kids, base + 1, base + Span(f) - 1); }
    }
  }

  lemma {:induction false} ChildNext(f: Forest, base: nat, i: nat)
    requires i < Len(f)
    ensures base <= ChildIndex(f, base, i) < base + Count(f) && TreeAt(f, base, ChildIndex(f, base, i)) == Child(f, i)
    ensures ChildIndex(f, base, i + 1) == ChildIndex(f, base, i) + Span(Child(f, i)) && Child(f, i + 1) == Child(f, i).rest
    decreases i
  {
    if i == 0 {
      assert Child(f.rest, 0) == f.rest && ChildIndex(f.rest, base + Span(f), 0) == base + Span(f);
    } else {
      ChildNext(f.rest, base + Span(f), i - 1);
    }
  }

  lemma {:induction false} ChildEnd(f: Forest, base: nat)
    ensures ChildIndex(f, base, Len(f)) == base + Count(f)
    decreases f
  {
    if !f.Empty? { ChildEnd(f.rest, base + Span(f)); }
  }

  // ---------- exact sizes ----------

  /** All sizes in the first tree are exact. */
  predicate SmallTree(f: Forest)
    requires !f.Empty?
  {
    Len(KidsOf(f)) < 256 && AllSmall(KidsOf(f))
  }

  /** And in the first n. */
  predicate SmallUpTo(f: Forest, n: nat)
    requires n <= Len(f)
  {
    n == 0 || (SmallTree(f) && SmallUpTo(f.rest, n - 1))
  }

  lemma {:induction false} SmallUpToNext(f: Forest, n: nat)
    requires n < Len(f)
    ensures SmallUpTo(f, n + 1) <==> SmallUpTo(f, n) && SmallTree(Child(f, n))
    decreases n
  {
    if n == 0 {
      assert SmallUpTo(f.rest, 0);
    } else {
      SmallUpToNext(f.rest, n - 1);
    }
  }

  lemma {:induction false} SmallUpToAll(f: Forest)
    ensures SmallUpTo(f, Len(f)) <==> AllSmall(f)
    decreases f
  {
    if !f.Empty? { SmallUpToAll(f.rest); }
  }

  lemma {:induction false} SmallUpToLess(f: Forest, n: nat, m: nat)
    requires n <= m <= Len(f) && SmallUpTo(f, m)
    ensures SmallUpTo(f, n)
    decreases n
  {
    if n > 0 { SmallUpToLess(f.rest, n - 1, m - 1); }
  }

  lemma SmallFirst(f: Forest, n: nat)
    requires AllSmall(f) && n <= Len(f)
    ensures SmallUpTo(f, n)
  {
    SmallUpToAll(f);
    SmallUpToLess(f, n, Len(f));
  }

  // ---------- the walk ----------

  /** Where skip_to_last may end on a token with these children: on the last token of the subtree
      if all sizes in it are exact; else it stops with at least 256 trees still pending. */
  predicate EndsAt(kids: Forest, element: nat, t: nat) {
    element <= t <= element + Count(kids)
    && if Len(kids) < 256 && AllSmall(kids) then t == element + Count(kids) else Pending(kids, element + 1, t) >= 256
  }

  lemma EndsAtIff(kids: Forest, element: nat, t: nat)
    requires EndsAt(kids, element, t)
    ensures t == element + Count(kids) <==> Len(kids) < 256 && AllSmall(kids)
  {
    PendingMore(kids, element + 1, t);
  }

  /** A walk has passed over k trees and stands at token t: right before the next tree if all
      sizes passed were exact; else so far behind that 255 turns do not bring it to any of them. */
  predicate Walked(kids: Forest, b: nat, t: int, k: nat) {
    b - 1 <= t < b + Count(kids) && k <= Len(kids)
    && if SmallUpTo(kids, k) then t + 1 == ChildIndex(kids, b, k) else Pending(kids, b, t) >= Len(kids) - k + 256
  }

  lemma WalkStart(kids: Forest, b: nat)
    ensures Walked(kids, b, b - 1, 0)
  {
  }

  lemma WalkAhead(kids: Forest, b: nat, t: int, k: nat)
    requires Walked(kids, b, t, k) && k < Len(kids)
    ensures t + 1 < b + Count(kids)
    ensures SmallUpTo(kids, k) ==> TreeAt(kids, b, t + 1) == Child(kids, k)
  {
    if SmallUpTo(kids, k) { ChildNext(kids, b, k); } else { PendingMore(kids, b, t); }
  }

  /** One turn keeps it so. */
  lemma WalkTurn(kids: Forest, b: nat, t: int, k: nat, t': nat)
    requires Walked(kids, b, t, k) && k < Len(kids) && t + 1 < b + Count(kids)
    requires EndsAt(KidsOf(TreeAt(kids, b, t + 1)), t + 1, t')
    ensures Walked(kids, b, t', k + 1)
  {
    WalkAhead(kids, b, t, k);
    PendingTurn(kids, b, t, t');
    SmallUpToNext(kids, k);
    if SmallUpTo(kids, k) {
      PendingAt(kids, b, k);
      ChildNext(kids, b, k);
    }
  }

  /** Where a walk stands once a size was not exact: before none of the trees. */
  lemma WalkLost(kids: Forest, b: nat, t: int, k: nat, j: nat)
    requires Walked(kids, b, t, k) && !SmallUpTo(kids, k) && k < 256 && j <= Len(kids)
    ensures t + 1 != ChildIndex(kids, b, j)
  {
    PendingAt(kids, b, j);
  }

  /** A walk of as many turns as the size says. */
  lemma {:induction false} WalkDone(kids: Forest, element: nat, t: nat)
    requires Walked(kids, element + 1, t, U8(Len(kids)))
    ensures EndsAt(kids, element, t)
  {
    var k := U8(Len(kids));
    PendingAt(kids, element + 1, k);
    ChildEnd(kids, element + 1);
    SmallUpToAll(kids);
    if AllSmall(kids) { SmallFirst(kids, k); }
    if Len(kids) >= 256 { U8Drops(Len(kids)); }
  }

  lemma U8Drops(n: nat)
    requires n >= 256
    ensures n - U8(n) >= 256
  {
  }

  // ---------- the walk as the sizes lead it ----------

  lemma {:induction false} InnerSmaller(f: Forest, base: nat, i: nat)
    requires base <= i < base + Count(f)
    ensures Count(KidsOf(TreeAt(f, base, i))) < Count(f)
    decreases f
  {
    if i == base {
    } else if i < base + Span(f) {
      InnerSmaller(f.kids, base + 1, i);
    } else {
      InnerSmaller(f.rest, base + Span(f), i);
    }
  }

  /** Where skip_to_last ends on a token with these children. */
  function SkipTo(kids: Forest, element: nat): nat
    decreases Count(kids), 258
  {
    TurnsTo(kids, element, U8(Len(kids)))
  }

  /** Where its loop is after k turns. */
  function TurnsTo(kids: Forest, element: nat, k: nat): nat
    requires k < 256
    decreases Count(kids), k + 1
  {
    if k == 0 then element else TurnFrom(kids, element, TurnsTo(kids, element, k - 1))
  }

  /** One turn, from token t on. */
  function TurnFrom(kids: Forest, element: nat, t: nat): nat
    decreases Count(kids), 0
  {
    if !(element <= t < element + Count(kids)) then t
    else
      InnerSmaller(kids, element + 1, t + 1);
      SkipTo(KidsOf(TreeAt(kids, element + 1, t + 1)), t + 1)
  }

  lemma {:induction false} TurnIs(kids: Forest, element: nat, t: nat, inner: Forest)
    requires element <= t < element + Count(kids) && inner == KidsOf(TreeAt(kids, element + 1, t + 1))
    ensures TurnFrom(kids, element, t) == SkipTo(inner, t + 1) && Count(inner) < Count(kids)
  {
    InnerSmaller(kids, element + 1, t + 1);
  }

  lemma {:induction false} SkipToEnds(kids: Forest, element: nat)
    ensures EndsAt(kids, element, SkipTo(kids, element))
    decreases Count(kids), 258
  {
    TurnsWalk(kids, element, U8(Len(kids)));
    WalkDone(kids, element, SkipTo(kids, element));
  }

  lemma {:induction false} TurnsWalk(kids: Forest, element: nat, k: nat)
    requires k <= Len(kids) && k < 256
    ensures Walked(kids, element + 1, TurnsTo(kids, element, k), k)
    decreases Count(kids), k + 1
  {
    if k == 0 {
      WalkStart(kids, element + 1);
    } else {
      TurnsWalk(kids, element, k - 1);
      TurnWalks(kids, element, TurnsTo(kids, element, k - 1), k - 1);
    }
  }

  lemma {:induction false} TurnWalks(kids: Forest, element: nat, t: nat, k: nat)
    requires k < Len(kids) && Walked(kids, element + 1, t, k)
    ensures element <= t < element + Count(kids) && Walked(kids, element + 1, TurnFrom(kids, element, t), k + 1)
    decreases Count(kids), 0
  {
    WalkAhead(kids, element + 1, t, k);
    var inner := KidsOf(TreeAt(kids, element + 1, t + 1));
    TurnIs(kids, element, t, inner);
    SkipToEnds(inner, t + 1);
    WalkTurn(kids, element + 1, t, k, SkipTo(inner, t + 1));
  }

  /** The children of the next turn's token. */
  lemma {:induction false} TurnAhead(kids: Forest, element: nat, k: nat, t: nat) returns (inner: Forest)
    requires k < U8(Len(kids)) && t == TurnsTo(kids, element, k)
    ensures element <= t < element + Count(kids) && inner == KidsOf(TreeAt(kids, element + 1, t + 1))
    ensures Count(inner) < Count(kids) && TurnsTo(kids, element, k + 1) == SkipTo(inner, t + 1)
  {
    TurnsWalk(kids, element, k);
    TurnWalks(kids, element, t, k);
    inner := KidsOf(TreeAt(kids, element + 1, t + 1));
    TurnIs(kids, element, t, inner);
  }

  // ---------- searches ----------

  /** The number of trees that a search for the key passes over: two for each pair with another
      key before the search ends. */
  function Passed(js: string, f: Forest, key: string, n: nat): (k: nat)
    requires n % 2 == 0 && n <= Len(f)
    ensures k <= n
    decreases n
  {
    if n == 0 || f.kind != String || Text(js, f) == key then 0
    else
      assert Len(f) == 1 + Len(f.rest);
      2 + Passed(js, f.rest.rest, key, n - 2)
  }

  /** A search goes on behind a pair with another key. */
  lemma SkipsPair(js: string, f: Forest, base: nat, key: string, n: nat)
    requires 0 < n <= Len(f) && n % 2 == 0 && f.kind == String && Text(js, f) != key
    ensures !f.rest.Empty? && Len(f.rest.rest) == Len(f) - 2
    ensures Find(js, f, base, key, n) == Find(js, f.rest.rest, base + Span(f) + Span(f.rest), key, n - 2)
    ensures Passed(js, f, key, n) == 2 + Passed(js, f.rest.rest, key, n - 2)
  {
    assert Len(f) == 1 + Len(f.rest);
  }

  lemma {:induction false} SmallUpToPair(f: Forest, n: nat)
    requires !f.Empty? && !f.rest.Empty? && n <= Len(f.rest.rest)
    ensures 2 + n <= Len(f) && (SmallUpTo(f, 2 + n) <==> SmallTree(f) && SmallTree(f.rest) && SmallUpTo(f.rest.rest, n))
  {
    assert Len(f) == 1 + Len(f.rest) && Len(f.rest) == 1 + Len(f.rest.rest);
    assert SmallUpTo(f, 2 + n) <==> SmallTree(f) && SmallUpTo(f.rest, 1 + n);
  }

  /** All sizes are exact in those. */
  predicate PassesSmall(js: string, f: Forest, key: string, n: nat)
    requires n % 2 == 0 && n <= Len(f)
  {
    SmallUpTo(f, Passed(js, f, key, n))
  }

  /** The same for json_get_value from scope token `cur`. */
  predicate KeyExact(js: string, f: Forest, cur: nat, key: string)
    requires cur < Count(f)
  {
    var kids := KidsOf(TreeAt(f, 0, cur));
    TreeAt(f, 0, cur).kind == Object && U8(Len(kids)) % 2 == 0 ==> PassesSmall(js, kids, key, U8(Len(kids)))
  }

  /** And for the elements that json_get_array_index passes over. */
  predicate IndexExact(f: Forest, cur: nat, index: nat)
    requires cur < Count(f)
  {
    var kids := KidsOf(TreeAt(f, 0, cur));
    TreeAt(f, 0, cur).kind == Array && index < U8(Len(kids)) ==> SmallUpTo(kids, index)
  }

  /** If all sizes are exact, every search is. */
  lemma ExactIfSmall(js: string, f: Forest, cur: nat, key: string, index: nat)
    requires cur < Count(f) && AllSmall(KidsOf(TreeAt(f, 0, cur)))
    ensures KeyExact(js, f, cur, key) && IndexExact(f, cur, index)
  {
    var kids := KidsOf(TreeAt(f, 0, cur));
    if U8(Len(kids)) % 2 == 0 { SmallFirst(kids, Passed(js, kids, key, U8(Len(kids)))); }
    if index < Len(kids) { SmallFirst(kids, index); }
  }
}
