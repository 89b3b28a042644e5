/** What a call of jsmn_parse promises: which texts it accepts and with which tokens, what its
    error codes mean, that it can be resumed, and what its counting mode counts. */
module JsmnTheorems {
  import opened JsmnScan
  import opened JsmnMachine
  import opened JsonForest
  import opened JsmnStack
  import opened JsonGrammar

  /** Where the text ends: at its first NUL, or at its length. */
  function TextEnd(js: string, p: nat := 0): (r: nat)
    requires p <= |js|
    ensures p <= r <= |js| && AtEnd(js, r) && forall k :: p <= k < r ==> js[k] != '\0'
    decreases |js| - p
  {
    if AtEnd(js, p) then p else TextEnd(js, p + 1)
  }

  // ---------- soundness and completeness ----------

  lemma FreshIsEmptyStack()
    ensures Concrete(0, Base(Empty)) == FRESH
  {
  }

  lemma ARunAccepts(js: string, f: Forest)
    requires Spells(js, 0, TextEnd(js), f)
    ensures ARunFrom(js, 0, Base(Empty)) == ARun(Ok, TextEnd(js), Base(f))
  {
    ReadForest(js, 0, TextEnd(js), f, Base(Empty));
    assert AddTop(Base(Empty), f) == Base(f);
  }

  /** A text that spells a forest is parsed into the preorder of exactly that forest, if there
      are tokens enough, and is refused for want of tokens otherwise. */
  lemma ParseComplete(js: string, f: Forest, n: nat)
    requires Spells(js, 0, TextEnd(js), f)
    ensures Count(f) <= n ==>
              Run(js, FRESH, n) == RunResult(Ok, Count(f), PState(TextEnd(js), Flat(f, 0, -1), -1))
    ensures Count(f) > n ==> Run(js, FRESH, n).code == NoMem
  {
    ARunAccepts(js, f);
    FreshIsEmptyStack();
    RunSim(js, 0, Base(Empty), n);
  }

  /** A text that is accepted spells a forest. */
  lemma ParseSound(js: string, n: nat) returns (f: Forest)
    requires Run(js, FRESH, n).code == Ok
    ensures Spells(js, 0, TextEnd(js), f) && Count(f) <= n
    ensures Run(js, FRESH, n) == RunResult(Ok, Count(f), PState(TextEnd(js), Flat(f, 0, -1), -1))
  {
    FreshIsEmptyStack();
    RunSim(js, 0, Base(Empty), n);
    assert SpellsStack(js, 0, Base(Empty));
    SpellsRun(js, 0, Base(Empty));
    var a := ARunFrom(js, 0, Base(Empty));
    f := a.z.roots;
    AcceptedEnd(js, a.pos, f);
    ParseComplete(js, f, n);
  }

  lemma AcceptedEnd(js: string, pos: nat, f: Forest)
    requires pos <= |js| && AtEnd(js, pos) && Spells(js, 0, pos, f)
    ensures pos == TextEnd(js)
  {
    var e := TextEnd(js);
    if e < pos { SpellsNoNul(js, 0, pos, f, e); }
  }

  /** The strict tokenizer accepts a text within n tokens exactly if the text spells a forest
      of at most n tokens. */
  lemma ParseIff(js: string, n: nat)
    ensures Run(js, FRESH, n).code == Ok <==> exists f :: Spells(js, 0, TextEnd(js), f) && Count(f) <= n
  {
    if Run(js, FRESH, n).code == Ok { var f := ParseSound(js, n); }
    if f :| Spells(js, 0, TextEnd(js), f) && Count(f) <= n { ParseComplete(js, f, n); }
  }

  /** The grammar is unambiguous. */
  lemma SpellsUnique(js: string, f: Forest, g: Forest)
    requires Spells(js, 0, TextEnd(js), f) && Spells(js, 0, TextEnd(js), g)
    ensures f == g
  {
    ARunAccepts(js, f);
    ARunAccepts(js, g);
  }

  // ---------- resuming ----------

  lemma StepStable(js: string, more: string, st: PState, n: nat, n': nat)
    requires WellLinked(st) && !AtEnd(js, st.pos) && n <= n' && Step(js, st, n).Next?
    ensures Step(js + more, st, n') == Step(js, st, n)
  {
    var c := js[st.pos];
    assert (js + more)[st.pos] == c;
    if IsOpener(c) || IsCloser(c) {
    } else if c == '\"' {
      StringStable(js, more, st.pos + 1);
    } else if IsSeparator(c) {
    } else {
      PrimitiveStable(js, more, st.pos);
    }
  }

  /** However a call ended (JSMN_ERROR_PART and JSMN_ERROR_NOMEM included), calling again with a
      longer text and at least as many tokens ends as one call with them would have. */
  lemma {:induction false} ResumeOnce(js: string, more: string, st: PState, n: nat, n': nat)
    requires WellLinked(st) && n <= n'
    ensures var r := Run(js, st, n);
            var again := Run(js + more, r.st, n');
            Run(js + more, st, n') == RunResult(again.code, r.count + again.count, again.st)
    decreases |js| - st.pos
  {
    if !AtEnd(js, st.pos) {
      match Step(js, st, n)
      case Fail(_) =>
      case Next(st', items) =>
        StepStable(js, more, st, n, n');
        ResumeOnce(js, more, st', n, n');
    }
  }

  /** One more call: the text received since the last one, and the tokens now available. */
  datatype Call = Call(more: string, numTokens: nat)

  function TextOf(js: string, calls: seq<Call>): string
    decreases |calls|
  {
    if calls == [] then js else TextOf(js + calls[0].more, calls[1..])
  }

  predicate Growing(n: nat, calls: seq<Call>)
    decreases |calls|
  {
    calls == [] || (n <= calls[0].numTokens && Growing(calls[0].numTokens, calls[1..]))
  }

  function LastTokens(n: nat, calls: seq<Call>): nat
    decreases |calls|
  {
    if calls == [] then n else LastTokens(calls[0].numTokens, calls[1..])
  }

  /** The last of a series of calls, each with the parser that the one before it left. */
  function Resume(js: string, st: PState, n: nat, calls: seq<Call>): RunResult
    requires WellLinked(st)
    decreases |calls|
  {
    var r := Run(js, st, n);
    if calls == [] then r
    else Resume(js + calls[0].more, r.st, calls[0].numTokens, calls[1..])
  }

  /** A text fed in any number of pieces, cut anywhere, gives the same verdict, tokens and
      parser as the whole text in one call. */
  lemma {:induction false} ResumeMany(js: string, st: PState, n: nat, calls: seq<Call>)
    requires WellLinked(st) && Growing(n, calls)
    ensures Resume(js, st, n, calls).code == Run(TextOf(js, calls), st, LastTokens(n, calls)).code
    ensures Resume(js, st, n, calls).st == Run(TextOf(js, calls), st, LastTokens(n, calls)).st
    decreases |calls|
  {
    if calls != [] {
      var r, n' := Run(js, st, n), calls[0].numTokens;
      ResumeMany(js + calls[0].more, r.st, n', calls[1..]);
      GrowingLast(n', calls[1..]);
      var more := TextAfter(js, calls);
      ResumeOnce(js, more, st, n, LastTokens(n', calls[1..]));
    }
  }

  lemma {:induction false} TextAfter(js: string, calls: seq<Call>) returns (more: string)
    requires calls != []
    ensures TextOf(js, calls) == js + more && TextOf(js + calls[0].more, calls[1..]) == js + more
  {
    TextOfExtends(js, calls);
    more :| TextOf(js, calls) == js + more;
  }

  lemma {:induction false} TextOfExtends(js: string, calls: seq<Call>)
    ensures exists w :: TextOf(js, calls) == js + w
    decreases |calls|
  {
    if calls == [] {
      assert js == js + [];
    } else {
      TextOfExtends(js + calls[0].more, calls[1..]);
      var w :| TextOf(js + calls[0].more, calls[1..]) == js + calls[0].more + w;
      assert js + calls[0].more + w == js + (calls[0].more + w);
    }
  }

  lemma {:induction false} GrowingLast(n: nat, calls: seq<Call>)
    requires Growing(n, calls)
    ensures n <= LastTokens(n, calls)
    decreases |calls|
  {
    if calls != [] { GrowingLast(calls[0].numTokens, calls[1..]); }
  }

  // ---------- counting ----------

  /** The counting mode agrees with a parse that succeeds. */
  lemma {:induction false} CountAgrees(js: string, st: PState, n: nat)
    requires WellLinked(st) && Run(js, st, n).code == Ok
    ensures var r := Run(js, st, n);
            CountRun(js, st.pos) == CountResult(Ok, r.count, r.st.pos) && r.count == |r.st.toks| - |st.toks|
    decreases |js| - st.pos
  {
    if !AtEnd(js, st.pos) {
      CountAgrees(js, Step(js, st, n).st, n);
    }
  }

  /** If the counting mode returns c, a parse with at least c tokens does not run out of them. */
  lemma {:induction false} CountSuffices(js: string, st: PState, n: nat)
    requires WellLinked(st) && CountRun(js, st.pos).code == Ok
    requires |st.toks| + CountRun(js, st.pos).count <= n
    ensures Run(js, st, n).code != NoMem
    decreases |js| - st.pos
  {
    if !AtEnd(js, st.pos) {
      match Step(js, st, n)
      case Fail(_) =>
      case Next(st', items) => CountSuffices(js, st', n);
    }
  }

  /** Counting mode and parsing together: a text that is accepted at all is accepted with
      exactly as many tokens as the counting mode says, and no fewer. */
  lemma CountIsExact(js: string, n: nat, m: nat)
    requires Run(js, FRESH, m).code == Ok
    ensures CountRun(js, 0).code == Ok
    ensures Run(js, FRESH, n).code == Ok <==> CountRun(js, 0).count <= n
  {
    CountAgrees(js, FRESH, m);
    var f := ParseSound(js, m);
    ParseComplete(js, f, n);
  }
}
