/** The tokenizer of lib_jsmn/jsmn.c in its own form: a parser object whose fields and whose
    caller's token array are updated in place, proved against the machine of JsmnMachine. */
module Jsmn {
  import opened CInts
  import opened JsmnScan
  import opened JsmnMachine

  type int16 = x: int | -0x8000 <= x <= 0x7fff

  /** What the fields of a jsontok_t can hold (int16_t offsets, a uint8_t size). */
  predicate Fits(t: Token) {
    && t.size < 256
    && -0x8000 <= t.start <= 0x7fff && -0x8000 <= t.end <= 0x7fff && -0x8000 <= t.parent <= 0x7fff
  }

  class Parser {
    var pos: int16
    var toknext: int16
    var toksuper: int16

    /** jsmn_init */
    constructor ()
      ensures pos == 0 && toknext == 0 && toksuper == -1
    {
      pos, toknext, toksuper := 0, 0, -1;
    }

    ghost function State(tokens: array<Token>): PState
      requires 0 <= pos && 0 <= toknext <= tokens.Length
      reads this, tokens
    {
      PState(pos, tokens[..toknext], toksuper)
    }

    /** The parser and the array belong together: the links are those of handed out tokens, and
        no more tokens were handed out than characters read. */
    ghost predicate Valid(tokens: array<Token>)
      reads this, tokens
    {
      && 0 <= toknext <= pos && toknext <= tokens.Length
      && WellLinked(State(tokens))
      && forall i :: 0 <= i < toknext ==> Fits(tokens[i])
    }

    method AllocToken(tokens: array<Token>, numTokens: nat) returns (k: int)
      requires 0 <= toknext < 0x7fff && numTokens <= tokens.Length
      modifies this`toknext, tokens
      ensures old(toknext) >= numTokens ==> k == -1 && toknext == old(toknext) && tokens[..] == old(tokens[..])
      ensures old(toknext) < numTokens ==>
                k == old(toknext) && toknext == k + 1
                && tokens[..] == old(tokens[..])[k := Token(old(tokens[toknext]).kind, 0, -1, -1, -1)]
    {
      if toknext >= numTokens { return -1; }
      k := toknext;
      toknext := toknext + 1;
      tokens[k] := tokens[k].(start := -1, end := -1, size := 0, parent := -1);
    }

    /** jsmn_fill_token, together with the parent link that its callers set next. */
    method FillToken(tokens: array<Token>, k: nat, kind: Kind, start: int, end: int)
      requires k < tokens.Length
      modifies tokens
      ensures tokens[..] == old(tokens[..])[k := Token(kind, 0, start, end, toksuper)]
    {
      tokens[k] := tokens[k].(kind := kind, start := start, end := end, size := 0);
      tokens[k] := tokens[k].(parent := toksuper);
    }

    /** Takes a token for js[start..end]; false if there is none left. */
    method NewLeaf(tokens: array<Token>, numTokens: nat, kind: Kind, start: nat, end: nat) returns (ok: bool)
      requires 0 <= toknext < 0x7fff && toknext <= tokens.Length && numTokens <= tokens.Length
      modifies this`toknext, tokens
      ensures ok == (old(toknext) < numTokens)
      ensures !ok ==> toknext == old(toknext) && tokens[..] == old(tokens[..])
      ensures ok ==> toknext == old(toknext) + 1
                     && tokens[..toknext] == old(tokens[..toknext]) + [Token(kind, 0, start, end, toksuper)]
    {
      var k := AllocToken(tokens, numTokens);
      ok := k != -1;
      if ok { FillToken(tokens, k, kind, start, end); }
    }

    /** jsmn_parse_primitive */
    method ParsePrimitive(js: string, tokens: array?<Token>, numTokens: nat) returns (code: Code)
      requires |js| <= 0x7fff && 0 <= pos < |js| && StartsPrimitive(js[pos])
      requires tokens != null ==> 0 <= toknext <= tokens.Length && toknext < 0x7fff && numTokens <= tokens.Length
      modifies this`pos, this`toknext, tokens
      ensures code == LeafCode(ScanPrimitive(js, old(pos)), tokens == null || old(toknext) < numTokens)
      ensures code != Ok ==> pos == old(pos) && toknext == old(toknext) && (tokens != null ==> tokens[..] == old(tokens[..]))
      ensures code == Ok ==> old(pos) <= pos == ScanPrimitive(js, old(pos)).at - 1 < |js|
      ensures code == Ok && tokens == null ==> toknext == old(toknext)
      ensures code == Ok && tokens != null ==>
                toknext == old(toknext) + 1
                && tokens[..toknext] == old(tokens[..toknext]) + [Token(Primitive, 0, old(pos), ScanPrimitive(js, old(pos)).at, toksuper)]
    {
      var start := pos;
      PrimitiveAccepted(js, start, start);
      while pos < |js| && js[pos] != '\0' && !IsDelimiter(js[pos])
        invariant start <= pos <= |js| && ScanPrimitive(js, pos) == ScanPrimitive(js, start)
        invariant pos == start ==> pos < |js| && !IsDelimiter(js[pos])
        invariant toknext == old(toknext) && (tokens != null ==> tokens[..] == old(tokens[..]))
      {
        if js[pos] as int < 32 || js[pos] as int >= 127 {
          pos := start;
          return Inval;
        }
        pos := pos + 1;
      }
      if pos >= |js| || js[pos] == '\0' {
        pos := start;
        return Part;
      }
      if tokens == null {
        pos := pos - 1;
        return Ok;
      }
      var ok := NewLeaf(tokens, numTokens, Primitive, start, pos);
      if !ok {
        pos := start;
        return NoMem;
      }
      pos := pos - 1;
      return Ok;
    }

    /** The loop over the digits of a \uXXXX escape inside jsmn_parse_string. */
    method SkipHex(js: string) returns (ok: bool)
      requires |js| <= 0x7fff && 0 <= pos <= |js|
      modifies this`pos
      ensures 0 <= pos <= |js|
      ensures ScanHex(js, old(pos), 4) == if ok then Stop(pos) else Invalid
    {
      var i := 0;
      while i < 4 && pos < |js| && js[pos] != '\0'
        invariant 0 <= i <= 4 && 0 <= pos <= |js| && ScanHex(js, pos, 4 - i) == ScanHex(js, old(pos), 4)
      {
        if !IsHex(js[pos]) { return false; }
        pos := pos + 1;
        i := i + 1;
      }
      return true;
    }

    /** jsmn_parse_string */
    method ParseString(js: string, tokens: array?<Token>, numTokens: nat) returns (code: Code)
      requires |js| <= 0x7fff && 0 <= pos < |js| && js[pos] == '\"'
      requires tokens != null ==> 0 <= toknext <= tokens.Length && toknext < 0x7fff && numTokens <= tokens.Length
      modifies this`pos, this`toknext, tokens
      ensures code == LeafCode(ScanString(js, old(pos) + 1), tokens == null || old(toknext) < numTokens)
      ensures code != Ok ==> pos == old(pos) && toknext == old(toknext) && (tokens != null ==> tokens[..] == old(tokens[..]))
      ensures code == Ok ==> old(pos) < pos == ScanString(js, old(pos) + 1).at < |js|
      ensures code == Ok && tokens == null ==> toknext == old(toknext)
      ensures code == Ok && tokens != null ==>
                toknext == old(toknext) + 1
                && tokens[..toknext] == old(tokens[..toknext]) + [Token(String, 0, old(pos) + 1, ScanString(js, old(pos) + 1).at, toksuper)]
    {
      var start := pos;
      pos := pos + 1;
      while pos < |js| && js[pos] != '\0'
        invariant start < pos <= |js| && ScanString(js, pos) == ScanString(js, start + 1)
        invariant toknext == old(toknext) && (tokens != null ==> tokens[..] == old(tokens[..]))
      {
        var c := js[pos];
        if c == '\"' {
          if tokens == null { return Ok; }
          var ok := NewLeaf(tokens, numTokens, String, start + 1, pos);
          if !ok {
            pos := start;
            return NoMem;
          }
          return Ok;
        }
        if c == '\\' && pos + 1 < |js| {
          pos := pos + 1;
          if js[pos] == 'u' {
            pos := pos + 1;
            var ok := SkipHex(js);
            if !ok {
              pos := start;
              return Inval;
            }
            pos := pos - 1;
          } else if !IsSimpleEscape(js[pos]) {
            pos := start;
            return Inval;
          }
        }
        pos := pos + 1;
      }
      pos := start;
      return Part;
    }

    /** The case of an opening bracket in jsmn_parse. */
    method OpenContainer(tokens: array<Token>, numTokens: nat, kind: Kind) returns (code: Code)
      requires Valid(tokens) && toknext < 0x7fff && pos < 0x7fff && numTokens <= tokens.Length
      modifies this`toknext, this`toksuper, tokens
      ensures toknext <= old(toknext) + 1 <= tokens.Length + 1 && 0 <= toknext <= tokens.Length
      ensures Agrees(StepOpen(old(State(tokens)), kind, numTokens), code, old(State(tokens)), State(tokens))
      ensures forall i :: 0 <= i < toknext ==> Fits(tokens[i])
    {
      ghost var st := State(tokens);
      var k := AllocToken(tokens, numTokens);
      if k == -1 { return NoMem; }
      if toksuper != -1 {
        tokens[toksuper] := tokens[toksuper].(size := U8(tokens[toksuper].size + 1));
        tokens[k] := tokens[k].(parent := toksuper);
      }
      tokens[k] := tokens[k].(kind := kind);
      tokens[k] := tokens[k].(start := pos);
      assert tokens[..toknext] == Bump(st.toks, st.super) + [Token(kind, 0, st.pos, -1, st.super)];
      toksuper := toknext - 1;
      code := Ok;
    }

    /** The case of a closing bracket: the walk up the parent links. */
    method CloseContainer(tokens: array<Token>, kind: Kind) returns (code: Code)
      requires Valid(tokens) && pos < 0x7fff
      modifies this`toksuper, tokens
      ensures Agrees(StepClose(old(State(tokens)), kind), code, old(State(tokens)), State(tokens))
      ensures forall i :: 0 <= i < toknext ==> Fits(tokens[i])
    {
      ghost var st := State(tokens);
      if toknext < 1 { return Inval; }
      var k: int := toknext - 1;
      while true
        invariant 0 <= k < toknext && State(tokens) == st
        invariant Walk(st.toks, k) == Walk(st.toks, |st.toks| - 1)
        invariant forall i :: 0 <= i < toknext ==> Fits(tokens[i])
        decreases k
      {
        assert st.toks[k] == tokens[k];
        if tokens[k].start != -1 && tokens[k].end == -1 {
          if tokens[k].kind != kind { return Inval; }
          tokens[k] := tokens[k].(end := pos + 1);
          toksuper := tokens[k].parent;
          assert tokens[..toknext] == st.toks[k := st.toks[k].(end := st.pos + 1)];
          return Ok;
        }
        if tokens[k].parent == -1 {
          if tokens[k].kind != kind || toksuper == -1 { return Inval; }
          return Ok;
        }
        k := tokens[k].parent;
      }
    }

    /** The count of a string or primitive in its container, after the token was taken. */
    method CountChild(tokens: array<Token>)
      requires 0 <= toknext <= tokens.Length && -1 <= toksuper < toknext
      requires forall i :: 0 <= i < toknext ==> Fits(tokens[i])
      modifies tokens
      ensures tokens[..toknext] == Bump(old(tokens[..toknext]), toksuper)
      ensures forall i :: 0 <= i < toknext ==> Fits(tokens[i])
    {
      if toksuper != -1 {
        tokens[toksuper] := tokens[toksuper].(size := U8(tokens[toksuper].size + 1));
      }
    }

    /** The case of a quote in jsmn_parse. */
    method StringTurn(js: string, tokens: array<Token>, numTokens: nat) returns (code: Code)
      requires |js| <= 0x7fff && Valid(tokens) && numTokens <= tokens.Length && !AtEnd(js, pos) && js[pos] == '\"'
      modifies this`pos, this`toknext, tokens
      ensures 0 <= toknext <= tokens.Length && 0 <= pos < |js| && toknext <= pos + 1
      ensures forall i :: 0 <= i < toknext ==> Fits(tokens[i])
      ensures code != Ok ==> Step(js, old(State(tokens)), numTokens) == Fail(code) && State(tokens) == old(State(tokens))
      ensures code == Ok ==> Step(js, old(State(tokens)), numTokens) == Next(State(tokens).(pos := pos + 1), 1)
    {
      ghost var st := State(tokens);
      code := ParseString(js, tokens, numTokens);
      if code != Ok { return; }
      LeafFits(st.toks, tokens[..toknext]);
      CountChild(tokens);
      assert Step(js, st, numTokens) ==
             StepLeaf(st, String, st.pos + 1, ScanString(js, st.pos + 1).at, ScanString(js, st.pos + 1).at + 1, numTokens);
    }

    /** The case of a primitive's first character in jsmn_parse. */
    method PrimitiveTurn(js: string, tokens: array<Token>, numTokens: nat) returns (code: Code)
      requires |js| <= 0x7fff && Valid(tokens) && numTokens <= tokens.Length && !AtEnd(js, pos) && StartsPrimitive(js[pos])
      modifies this`pos, this`toknext, tokens
      ensures 0 <= toknext <= tokens.Length && 0 <= pos < |js| && toknext <= pos + 1
      ensures forall i :: 0 <= i < toknext ==> Fits(tokens[i])
      ensures code != Ok ==> Step(js, old(State(tokens)), numTokens) == Fail(code) && State(tokens) == old(State(tokens))
      ensures code == Ok ==> Step(js, old(State(tokens)), numTokens) == Next(State(tokens).(pos := pos + 1), 1)
    {
      ghost var st := State(tokens);
      code := ParsePrimitive(js, tokens, numTokens);
      if code != Ok { return; }
      LeafFits(st.toks, tokens[..toknext]);
      CountChild(tokens);
      assert Step(js, st, numTokens) ==
             StepLeaf(st, Primitive, st.pos, ScanPrimitive(js, st.pos).at, ScanPrimitive(js, st.pos).at, numTokens);
    }

    /** The cases of the brackets in jsmn_parse. */
    method BracketTurn(js: string, tokens: array<Token>, numTokens: nat) returns (code: Code, items: nat)
      requires |js| <= 0x7fff && Valid(tokens) && numTokens <= tokens.Length && !AtEnd(js, pos)
      requires IsOpener(js[pos]) || IsCloser(js[pos])
      modifies this`toknext, this`toksuper, tokens
      ensures 0 <= toknext <= tokens.Length && toknext <= pos + 1
      ensures forall i :: 0 <= i < toknext ==> Fits(tokens[i])
      ensures code != Ok ==> Step(js, old(State(tokens)), numTokens) == Fail(code) && State(tokens) == old(State(tokens))
      ensures code == Ok ==> Step(js, old(State(tokens)), numTokens) == Next(State(tokens).(pos := pos + 1), items)
    {
      var c := js[pos];
      items := 0;
      if c == '{' || c == '[' {
        code := OpenContainer(tokens, numTokens, if c == '{' then Object else Array);
        if code == Ok { items := 1; }
      } else {
        code := CloseContainer(tokens, if c == '}' then Object else Array);
      }
    }

    /** jsmn_parse, for a token array that is not NULL */
    method Parse(js: string, tokens: array<Token>, numTokens: nat) returns (code: Code, count: nat)
      requires |js| <= 0x7fff && Valid(tokens) && numTokens <= tokens.Length
      modifies this, tokens
      ensures Valid(tokens)
      ensures code == Run(js, old(State(tokens)), numTokens).code
      ensures State(tokens) == Run(js, old(State(tokens)), numTokens).st
      ensures code == Ok ==> count == Run(js, old(State(tokens)), numTokens).count
    {
      count := 0;
      ghost var whole := Run(js, State(tokens), numTokens);
      while pos < |js| && js[pos] != '\0'
        invariant Valid(tokens)
        invariant whole.code == Run(js, State(tokens), numTokens).code
        invariant whole.st == Run(js, State(tokens), numTokens).st
        invariant whole.count == count + Run(js, State(tokens), numTokens).count
        decreases |js| - pos
      {
        ghost var st := State(tokens);
        var items;
        code, items := Turn(js, tokens, numTokens);
        if code != Ok { return code, count; }
        assert whole.count == count + items + Run(js, State(tokens), numTokens).count;
        count := count + items;
      }
      var i: int := toknext - 1;
      while i >= 0
        invariant -1 <= i < toknext
        invariant forall j :: i < j < toknext ==> !IsOpen(tokens[j])
      {
        if tokens[i].start != -1 && tokens[i].end == -1 {
          assert IsOpen(State(tokens).toks[i]);
          return Part, count;
        }
        i := i - 1;
      }
      assert !SomeOpen(State(tokens).toks);
      return Ok, count;
    }

    /** One turn of the loop of jsmn_parse. */
    method Turn(js: string, tokens: array<Token>, numTokens: nat) returns (code: Code, items: nat)
      requires |js| <= 0x7fff && Valid(tokens) && numTokens <= tokens.Length && !AtEnd(js, pos)
      modifies this, tokens
      ensures Valid(tokens)
      ensures code == Ok ==> Step(js, old(State(tokens)), numTokens) == Next(State(tokens), items)
      ensures code != Ok ==> Step(js, old(State(tokens)), numTokens) == Fail(code) && State(tokens) == old(State(tokens))
    {
      ghost var st := State(tokens);
      var c := js[pos];
      items := 0;
      code := Ok;
      if c == '{' || c == '[' || c == '}' || c == ']' {
        code, items := BracketTurn(js, tokens, numTokens);
        if code != Ok { return code, 0; }
      } else if c == '\"' {
        code := StringTurn(js, tokens, numTokens);
        if code != Ok { return code, 0; }
        items := 1;
      } else if c == '\t' || c == '\r' || c == '\n' || c == ':' || c == ',' || c == ' ' {
      } else if StartsPrimitive(c) {
        code := PrimitiveTurn(js, tokens, numTokens);
        if code != Ok { return code, 0; }
        items := 1;
      } else {
        return Inval, 0;
      }
      Advance(tokens);
    }

    /** pos++, at the end of the loop */
    method Advance(tokens: array<Token>)
      requires 0 <= pos && 0 <= toknext <= pos + 1 <= 0x7fff && toknext <= tokens.Length
      requires forall i :: 0 <= i < toknext ==> Fits(tokens[i])
      modifies this`pos
      ensures 0 <= toknext <= pos && State(tokens) == old(State(tokens)).(pos := old(pos) + 1)
      ensures WellLinked(State(tokens)) ==> Valid(tokens)
    {
      pos := pos + 1;
    }

    /** One turn of that loop without tokens. */
    method CountTurn(js: string) returns (code: Code, items: nat)
      requires |js| <= 0x7fff && 0 <= pos && !AtEnd(js, pos)
      modifies this`pos, this`toknext
      ensures toknext == old(toknext)
      ensures code == Ok ==> old(pos) < pos && CountRun(js, old(pos)) == Plus(CountRun(js, pos), items)
      ensures code != Ok ==> pos == old(pos) && items == 0 && CountRun(js, pos) == CountResult(code, 0, pos)
    {
      var c := js[pos];
      code, items := Ok, 0;
      if c == '{' || c == '[' {
        items := 1;
      } else if c == '}' || c == ']' {
      } else if c == '\"' {
        code := ParseString(js, null, 0);
        if code != Ok { return; }
        items := 1;
      } else if c == '\t' || c == '\r' || c == '\n' || c == ':' || c == ',' || c == ' ' {
      } else if StartsPrimitive(c) {
        code := ParsePrimitive(js, null, 0);
        if code != Ok { return; }
        items := 1;
      } else {
        return Inval, 0;
      }
      pos := pos + 1;
    }

    /** jsmn_parse, for tokens == NULL: nothing is stored and brackets are not matched. */
    method CountTokens(js: string) returns (code: Code, count: nat)
      requires |js| <= 0x7fff && 0 <= pos
      modifies this`pos, this`toknext
      ensures code == CountRun(js, old(pos)).code && pos == CountRun(js, old(pos)).pos
      ensures code == Ok ==> count == CountRun(js, old(pos)).count
      ensures toknext == old(toknext)
    {
      count := 0;
      ghost var whole := CountRun(js, pos);
      while pos < |js| && js[pos] != '\0'
        invariant 0 <= pos && toknext == old(toknext) && whole == Plus(CountRun(js, pos), count)
        decreases |js| - pos
      {
        var items;
        code, items := CountTurn(js);
        if code != Ok { return; }
        count := count + items;
      }
      code := Ok;
    }
  }

  /** How scanning one string or primitive ends, given whether there is a token left for it. */
  function LeafCode(scan: Scan, room: bool): Code {
    match scan
    case Invalid => Inval
    case Partial => Part
    case Stop(_) => if room then Ok else NoMem
  }

  lemma LeafFits(was: seq<Token>, now: seq<Token>)
    requires |now| == |was| + 1 && now == was + [now[|was|]] && Fits(now[|was|])
    requires forall i :: 0 <= i < |was| ==> Fits(was[i])
    ensures forall i :: 0 <= i < |now| ==> Fits(now[i])
  {
  }

  /** The method did what the machine's step does, short of moving to the next character. */
  ghost predicate Agrees(r: StepResult, code: Code, was: PState, now: PState) {
    match r
    case Fail(c) => code == c && now == was
    case Next(st, _) => code == Ok && now == st.(pos := was.pos) && st.pos == was.pos + 1
  }
}
