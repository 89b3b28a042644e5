/** What the error codes of jsmn_parse mean: "more bytes expected" is returned exactly for the
    texts that can still be completed, "invalid" exactly for those that cannot. */
module JsmnErrors {
  import opened JsmnScan
  import opened JsmnMachine
  import opened JsonForest
  import opened JsmnStack
  import opened JsonGrammar
  import opened JsmnTheorems

  ghost predicate Accepted(js: string) {
    exists f :: Spells(js, 0, |js|, f)
  }

  predicate NulFree(js: string) {
    forall k :: 0 <= k < |js| ==> js[k] != '\0'
  }

  lemma AStepStable(js: string, more: string, pos: nat, z: Stack)
    requires !AtEnd(js, pos) && AStepAt(js, pos, z) != AFail(Part)
    ensures AStepAt(js + more, pos, z) == AStepAt(js, pos, z)
  {
    var c := js[pos];
    assert (js + more)[pos] == c;
    if IsOpener(c) || IsCloser(c) {
    } else if c == '\"' {
      StringStable(js, more, pos + 1);
    } else if !IsSeparator(c) && StartsPrimitive(c) {
      PrimitiveStable(js, more, pos);
    }
  }

  /** A longer text is read through the point where the shorter one stopped; an invalid text
      stays invalid. */
  lemma {:induction false} Longer(js: string, more: string, pos: nat, z: Stack)
    ensures var a := ARunFrom(js, pos, z);
            ARunFrom(js + more, pos, z) == ARunFrom(js + more, a.pos, a.z)
    ensures ARunFrom(js, pos, z).code == Inval ==> ARunFrom(js + more, pos, z).code == Inval
    ensures ARunFrom(js, pos, z).code in {Ok, Inval, Part}
    decreases |js| - pos
  {
    if !AtEnd(js, pos) {
      if AStepAt(js, pos, z) != AFail(Part) { AStepStable(js, more, pos, z); }
      var s := AStepAt(js, pos, z);
      if s.ANext? { Longer(js, more, s.pos, s.z); }
    }
  }

  // ---------- completing a text ----------

  function Closer(kind: Kind): char {
    if kind == Object then '}' else ']'
  }

  function Closers(z: Stack): string {
    match z
    case Base(_) => ""
    case Nest(kind, _, _, below) => [Closer(kind)] + Closers(below)
  }

  predicate Containers(z: Stack) {
    z.Nest? ==> z.kind in {Object, Array} && Containers(z.below)
  }

  lemma {:induction false} SpelledContainers(js: string, pos: nat, z: Stack)
    requires pos <= |js| && SpellsStack(js, pos, z)
    ensures Containers(z)
    decreases z
  {
    if z.Nest? { SpelledContainers(js, z.start, z.below); }
  }

  lemma AddTopKeeps(z: Stack, f: Forest)
    ensures Closers(AddTop(z, f)) == Closers(z) && (Containers(z) ==> Containers(AddTop(z, f)))
  {
  }

  lemma {:induction false} CloseAll(js: string, pos: nat, z: Stack)
    requires Containers(z) && pos <= |js| && js[pos..] == Closers(z)
    ensures ARunFrom(js, pos, z).code == Ok && ARunFrom(js, pos, z).pos == |js|
    decreases |js| - pos
  {
    if z.Nest? {
      assert js[pos] == js[pos..][0] == Closer(z.kind);
      assert js[pos + 1..] == js[pos..][1..] == Closers(z.below);
      var z' := AddTop(z.below, Box(z.kind, z.start, pos + 1, z.kids, Empty));
      AddTopKeeps(z.below, Box(z.kind, z.start, pos + 1, z.kids, Empty));
      assert AStepAt(js, pos, z) == ANext(pos + 1, z');
      CloseAll(js, pos + 1, z');
    }
  }

  lemma {:induction false} HexSoFar(js: string, p: nat, n: nat, i: nat)
    requires ScanHex(js, p, n).Stop? && p <= i < ScanHex(js, p, n).at
    ensures i < |js| && IsHex(js[i])
    decreases n
  {
    if i > p { HexSoFar(js, p + 1, n - 1, i); }
  }

  lemma {:induction false} StringCompletes(js: string, p: nat) returns (w: string)
    requires NulFree(js) && p <= |js| && ScanString(js, p).Partial?
    ensures w != [] && ScanString(js + w, p) == Stop(|js + w| - 1)
    decreases |js| - p
  {
    if p == |js| {
      w := "\"";
    } else if js[p] == '\\' && p + 1 < |js| {
      if IsSimpleEscape(js[p + 1]) {
        w := StringCompletes(js, p + 2);
      } else {
        var q := ScanHex(js, p + 2, 4).at;
        if q == p + 6 {
          w := StringCompletes(js, q);
          ScanHexFull(js, p + 2);
          HexStable(js, w, p + 2, 4);
        } else {
          w := HexPadding(js, p + 2);
        }
      }
    } else if js[p] == '\\' {
      w := "n\"";
    } else {
      w := StringCompletes(js, p + 1);
    }
  }

  lemma HexPadding(js: string, h: nat) returns (w: string)
    requires NulFree(js) && h <= |js|
    requires ScanHex(js, h, 4).Stop? && ScanHex(js, h, 4).at < h + 4
    ensures w != [] && ScanHex(js + w, h, 4) == Stop(h + 4) && ScanString(js + w, h + 4) == Stop(|js + w| - 1)
  {
    ScanHexFull(js, h);
    var q := ScanHex(js, h, 4).at;
    assert q == |js|;
    w := seq(h + 4 - q, i => '0') + "\"";
    var t := js + w;
    forall i | h <= i < h + 4 ensures IsHex(t[i]) {
      if i < q { HexSoFar(js, h, 4, i); }
    }
    ScanHexFull(t, h);
    assert t[h + 4] == '\"';
  }

  lemma {:induction false} PrimitiveCompletes(js: string, p: nat)
    requires NulFree(js) && p <= |js| && ScanPrimitive(js, p).Partial?
    ensures ScanPrimitive(js + " ", p) == Stop(|js|)
    decreases |js| - p
  {
    if p < |js| { PrimitiveCompletes(js, p + 1); }
  }

  /** Where reading stops for want of text, some text completes it. */
  lemma Completes(js: string, pos: nat, z: Stack) returns (w: string)
    requires NulFree(js) && pos <= |js| && Containers(z)
    requires if pos == |js| then z.Nest? else AStepAt(js, pos, z) == AFail(Part)
    ensures ARunFrom(js + w, pos, z).code == Ok && ARunFrom(js + w, pos, z).pos == |js + w|
  {
    if pos == |js| {
      w := Closers(z);
      CloseAll(js + w, pos, z);
    } else if js[pos] == '\"' {
      w := CompletesString(js, pos, z);
    } else {
      w := CompletesPrimitive(js, pos, z);
    }
  }

  lemma CompletesString(js: string, pos: nat, z: Stack) returns (w: string)
    requires NulFree(js) && pos < |js| && Containers(z) && js[pos] == '\"' && AStepAt(js, pos, z) == AFail(Part)
    ensures ARunFrom(js + w, pos, z).code == Ok && ARunFrom(js + w, pos, z).pos == |js + w|
  {
    var v := StringCompletes(js, pos + 1);
    w := v + Closers(z);
    var t := js + v;
    assert js + w == t + Closers(z);
    StringStable(t, Closers(z), pos + 1);
    var leaf := Leaf(String, pos + 1, |t| - 1, Empty);
    AddTopKeeps(z, leaf);
    StringAccepted(t, pos + 1, |t| - 1);
    assert AStepAt(js + w, pos, z) == ANext(|t|, AddTop(z, leaf));
    assert (js + w)[|t|..] == Closers(z);
    CloseAll(js + w, |t|, AddTop(z, leaf));
  }

  lemma CompletesPrimitive(js: string, pos: nat, z: Stack) returns (w: string)
    requires NulFree(js) && pos < |js| && Containers(z) && js[pos] != '\"' && AStepAt(js, pos, z) == AFail(Part)
    ensures ARunFrom(js + w, pos, z).code == Ok && ARunFrom(js + w, pos, z).pos == |js + w|
  {
    PrimitiveCompletes(js, pos);
    w := " " + Closers(z);
    var t := js + " ";
    assert js + w == t + Closers(z);
    PrimitiveStable(t, Closers(z), pos);
    var leaf := Leaf(Primitive, pos, |js|, Empty);
    AddTopKeeps(z, leaf);
    PrimitiveAccepted(t, pos, |js|);
    assert AStepAt(js + w, pos, z) == ANext(|js|, AddTop(z, leaf));
    assert (js + w)[|js|] == ' ';
    assert AStepAt(js + w, |js|, AddTop(z, leaf)) == ANext(|t|, AddTop(z, leaf));
    assert (js + w)[|t|..] == Closers(z);
    CloseAll(js + w, |t|, AddTop(z, leaf));
  }

  // ---------- the meaning of the three outcomes ----------

  lemma NulFreeEnd(js: string)
    requires NulFree(js)
    ensures TextEnd(js) == |js|
  {
  }

  lemma FullRunAccepts(js: string)
    requires ARunFrom(js, 0, Base(Empty)).code == Ok && ARunFrom(js, 0, Base(Empty)).pos == |js|
    ensures Accepted(js)
  {
    assert SpellsStack(js, 0, Base(Empty));
    SpellsRun(js, 0, Base(Empty));
    assert Spells(js, 0, |js|, ARunFrom(js, 0, Base(Empty)).z.roots);
  }

  lemma AcceptedIffRun(js: string)
    ensures Accepted(js) <==> NulFree(js) && ARunFrom(js, 0, Base(Empty)).code == Ok
  {
    if f :| Spells(js, 0, |js|, f) {
      forall k | 0 <= k < |js| ensures js[k] != '\0' { SpellsNoNul(js, 0, |js|, f, k); }
      NulFreeEnd(js);
      ARunAccepts(js, f);
    }
    if NulFree(js) && ARunFrom(js, 0, Base(Empty)).code == Ok {
      assert SpellsStack(js, 0, Base(Empty));
      SpellsRun(js, 0, Base(Empty));
      FullRunAccepts(js);
    }
  }

  /** The run stops for want of text at a place that Completes knows. */
  lemma {:induction false} StopsForText(js: string, pos: nat, z: Stack)
    requires NulFree(js) && pos <= |js| && SpellsStack(js, pos, z) && ARunFrom(js, pos, z).code == Part
    ensures var a := ARunFrom(js, pos, z);
            a.pos <= |js| && Containers(a.z)
            && if a.pos == |js| then a.z.Nest? else AStepAt(js, a.pos, a.z) == AFail(Part)
    decreases |js| - pos
  {
    SpelledContainers(js, pos, z);
    if !AtEnd(js, pos) && AStepAt(js, pos, z).ANext? {
      SpellsStep(js, pos, z);
      StopsForText(js, AStepAt(js, pos, z).pos, AStepAt(js, pos, z).z);
    }
  }

  lemma PartCompletes(js: string)
    requires NulFree(js) && ARunFrom(js, 0, Base(Empty)).code == Part
    ensures exists more :: Accepted(js + more)
  {
    assert SpellsStack(js, 0, Base(Empty));
    StopsForText(js, 0, Base(Empty));
    var a := ARunFrom(js, 0, Base(Empty));
    var w := Completes(js, a.pos, a.z);
    Longer(js, w, 0, Base(Empty));
    FullRunAccepts(js + w);
  }

  /** With tokens enough, a text without NUL is accepted iff it spells a forest; it gets
      JSMN_ERROR_PART iff it does not but some longer text does, and JSMN_ERROR_INVAL iff no
      longer text does. */
  lemma ErrorMeaning(js: string, n: nat)
    requires NulFree(js) && |js| <= n
    ensures Run(js, FRESH, n).code == Ok <==> Accepted(js)
    ensures Run(js, FRESH, n).code == Part <==> !Accepted(js) && exists more :: Accepted(js + more)
    ensures Run(js, FRESH, n).code == Inval <==> !exists more :: Accepted(js + more)
  {
    RunSim(js, 0, Base(Empty), n);
    assert SpellsStack(js, 0, Base(Empty));
    SpellsRun(js, 0, Base(Empty));
    var a := ARunFrom(js, 0, Base(Empty));
    SpellsStackSize(js, a.pos, a.z);
    FreshIsEmptyStack();
    AcceptedIffRun(js);
    if a.code == Inval {
      forall more ensures !Accepted(js + more) {
        Longer(js, more, 0, Base(Empty));
        AcceptedIffRun(js + more);
      }
      assert !Accepted(js + []) && js + [] == js;
    } else if a.code == Part {
      PartCompletes(js);
    } else {
      Longer(js, [], 0, Base(Empty));
      assert js + [] == js;
    }
  }
}
