/** The two lexical scanners of the tokenizer: strings and primitives (lib_jsmn/jsmn.c:37-148).
    A text is a sequence of characters; it ends at its length or at its first NUL. */
module JsmnScan {

  /** What scanning one lexeme comes to: it stops just before position `at`, it meets a
      character it cannot accept, or the text ends first. */
  datatype Scan = Stop(at: nat) | Invalid | Partial

  predicate AtEnd(js: string, p: nat) {
    p >= |js| || js[p] == '\0'
  }

  predicate IsDelimiter(c: char) {
    c == '\t' || c == '\r' || c == '\n' || c == ' ' || c == ',' || c == ']' || c == '}'
  }

  predicate IsPrintable(c: char) {
    32 <= c as int < 127
  }

  predicate IsHex(c: char) {
    48 <= c as int <= 57 || 65 <= c as int <= 70 || 97 <= c as int <= 102
  }

  predicate IsSimpleEscape(c: char) {
    c == '\"' || c == '/' || c == '\\' || c == 'b' || c == 'f' || c == 'r' || c == 'n' || c == 't'
  }

  /** The loop of jsmn_parse_primitive. */
  function ScanPrimitive(js: string, p: nat): Scan
    decreases |js| - p
  {
    if AtEnd(js, p) then Partial
    else if IsDelimiter(js[p]) then Stop(p)
    else if !IsPrintable(js[p]) then Invalid
    else ScanPrimitive(js, p + 1)
  }

  /** The inner loop over the digits of a \uXXXX escape; it also stops where the text ends. */
  function ScanHex(js: string, p: nat, n: nat): (r: Scan)
    ensures r.Stop? ==> p <= r.at <= p + n
    ensures p <= |js| && r.Stop? ==> r.at <= |js|
    ensures !r.Partial?
    decreases n
  {
    if n == 0 || AtEnd(js, p) then Stop(p)
    else if !IsHex(js[p]) then Invalid
    else ScanHex(js, p + 1, n - 1)
  }

  /** The loop of jsmn_parse_string, from just after the opening quote. */
  function ScanString(js: string, p: nat): Scan
    decreases |js| - p
  {
    if AtEnd(js, p) then Partial
    else if js[p] == '\"' then Stop(p)
    else if js[p] == '\\' && p + 1 < |js| then
      if IsSimpleEscape(js[p + 1]) then ScanString(js, p + 2)
      else if js[p + 1] == 'u' then
        match ScanHex(js, p + 2, 4)
        case Stop(q) => ScanString(js, q)
        case _ => Invalid
      else Invalid
    else ScanString(js, p + 1)
  }

  // ---------- what the scanners accept, said without them ----------

  /** js[s..e] is a run of printable characters without delimiters, and not empty. */
  predicate PrimitiveBody(js: string, s: nat, e: nat)
    requires e <= |js|
  {
    s < e && forall i :: s <= i < e ==> IsPrintable(js[i]) && !IsDelimiter(js[i])
  }

  /** js[s..e] is the inside of a string literal: plain characters, two-character escapes and
      \uXXXX. */
  predicate StringBody(js: string, s: nat, e: nat)
    requires s <= e <= |js|
    decreases e - s
  {
    || s == e
    || (js[s] != '\"' && js[s] != '\\' && js[s] != '\0' && StringBody(js, s + 1, e))
    || (s + 2 <= e && js[s] == '\\' && IsSimpleEscape(js[s + 1]) && StringBody(js, s + 2, e))
    || (s + 6 <= e && js[s] == '\\' && js[s + 1] == 'u' && (forall i :: s + 2 <= i < s + 6 ==> IsHex(js[i]))
        && StringBody(js, s + 6, e))
  }

  /** The same characters stand at js[s..] and at js'[s'..], n of them. */
  predicate SameText(js: string, s: nat, js': string, s': nat, n: nat) {
    s + n <= |js| && s' + n <= |js'| && forall i {:trigger js[i]} :: s <= i < s + n ==> js[i] == js'[i - s + s']
  }

  /** Whether a stretch of text is a string's inside depends on its characters alone. */
  lemma {:induction false} StringBodyMoves(js: string, s: nat, js': string, s': nat, n: nat)
    requires SameText(js, s, js', s', n) && StringBody(js, s, s + n)
    ensures StringBody(js', s', s' + n)
    decreases n
  {
    if n == 0 {
    } else if js[s] != '\"' && js[s] != '\\' && js[s] != '\0' && StringBody(js, s + 1, s + n) {
      assert js[s] == js'[s'];
      StringBodyMoves(js, s + 1, js', s' + 1, n - 1);
    } else if n >= 2 && js[s] == '\\' && IsSimpleEscape(js[s + 1]) && StringBody(js, s + 2, s + n) {
      assert js[s] == js'[s'] && js[s + 1] == js'[s' + 1];
      StringBodyMoves(js, s + 2, js', s' + 2, n - 2);
    } else {
      assert js[s] == js'[s'] && js[s + 1] == js'[s' + 1];
      forall i | s' + 2 <= i < s' + 6 ensures IsHex(js'[i]) { assert IsHex(js[i - s' + s]); }
      StringBodyMoves(js, s + 6, js', s' + 6, n - 6);
    }
  }

  lemma {:induction false} ScanPrimitiveMeaning(js: string, p: nat, q: nat, e: nat)
    requires p <= q <= |js|
    requires forall i :: p <= i < q ==> IsPrintable(js[i]) && !IsDelimiter(js[i])
    ensures ScanPrimitive(js, q) == Stop(e) <==>
            q <= e < |js| && IsDelimiter(js[e]) && forall i :: p <= i < e ==> IsPrintable(js[i]) && !IsDelimiter(js[i])
    decreases |js| - q
  {
    if !AtEnd(js, q) && !IsDelimiter(js[q]) && IsPrintable(js[q]) {
      ScanPrimitiveMeaning(js, p, q + 1, e);
    }
  }

  /** jsmn_parse_primitive accepts exactly a run of printable non-delimiters that a delimiter follows. */
  lemma PrimitiveAccepted(js: string, p: nat, e: nat)
    requires p < |js| && IsPrintable(js[p]) && !IsDelimiter(js[p])
    ensures ScanPrimitive(js, p) == Stop(e) <==> p < e < |js| && IsDelimiter(js[e]) && PrimitiveBody(js, p, e)
  {
    ScanPrimitiveMeaning(js, p, p, e);
  }

  lemma ScanHexFull(js: string, p: nat)
    ensures ScanHex(js, p, 4) == Stop(p + 4) <==> p + 4 <= |js| && forall i :: p <= i < p + 4 ==> IsHex(js[i])
    ensures ScanHex(js, p, 4).Stop? && ScanHex(js, p, 4).at < p + 4 ==> AtEnd(js, ScanHex(js, p, 4).at)
  {
    ScanHexSteps(js, p + 4, 4);
  }

  lemma {:induction false} ScanHexSteps(js: string, e: nat, k: nat)
    requires k <= e
    ensures ScanHex(js, e - k, k) == Stop(e) <==>
            k == 0 || (e <= |js| && forall i :: e - k <= i < e ==> IsHex(js[i]))
    ensures ScanHex(js, e - k, k).Stop? && ScanHex(js, e - k, k).at < e ==>
            AtEnd(js, ScanHex(js, e - k, k).at)
    decreases k
  {
    if k > 0 && !AtEnd(js, e - k) && IsHex(js[e - k]) {
      ScanHexSteps(js, e, k - 1);
      assert (e - k) + 1 == e - (k - 1);
    }
  }

  /** jsmn_parse_string accepts exactly a string body that a quote follows. */
  lemma {:induction false} StringAccepted(js: string, p: nat, e: nat)
    requires p <= |js|
    ensures ScanString(js, p) == Stop(e) <==> p <= e < |js| && js[e] == '\"' && StringBody(js, p, e)
    decreases |js| - p
  {
    if AtEnd(js, p) || js[p] == '\"' {
    } else if js[p] == '\\' && p + 1 < |js| {
      if IsSimpleEscape(js[p + 1]) {
        StringAccepted(js, p + 2, e);
      } else if js[p + 1] == 'u' {
        ScanHexFull(js, p + 2);
        var r := ScanHex(js, p + 2, 4);
        if r.Stop? {
          if r.at == p + 6 { StringAccepted(js, p + 6, e); }
          else { assert ScanString(js, r.at) == Partial; }
        }
      }
    } else {
      StringAccepted(js, p + 1, e);
    }
  }

  // ---------- longer texts ----------

  lemma {:induction false} PrimitiveStable(js: string, more: string, p: nat)
    requires !ScanPrimitive(js, p).Partial?
    ensures ScanPrimitive(js + more, p) == ScanPrimitive(js, p)
    decreases |js| - p
  {
    if !IsDelimiter(js[p]) && IsPrintable(js[p]) { PrimitiveStable(js, more, p + 1); }
  }

  lemma {:induction false} HexStable(js: string, more: string, p: nat, n: nat)
    requires ScanHex(js, p, n) == Invalid || ScanHex(js, p, n) == Stop(p + n)
    ensures ScanHex(js + more, p, n) == ScanHex(js, p, n)
    decreases n
  {
    if n > 0 {
      assert !AtEnd(js, p);
      if IsHex(js[p]) { HexStable(js, more, p + 1, n - 1); }
    }
  }

  lemma {:induction false} StringStable(js: string, more: string, p: nat)
    requires !ScanString(js, p).Partial?
    ensures ScanString(js + more, p) == ScanString(js, p)
    decreases |js| - p
  {
    if js[p] == '\"' {
    } else if js[p] == '\\' && p + 1 < |js| {
      if IsSimpleEscape(js[p + 1]) {
        StringStable(js, more, p + 2);
      } else if js[p + 1] == 'u' {
        ScanHexFull(js, p + 2);
        HexStable(js, more, p + 2, 4);
        var r := ScanHex(js, p + 2, 4);
        if r.Stop? { StringStable(js, more, r.at); }
      }
    } else {
      StringStable(js, more, p + 1);
    }
  }
}
