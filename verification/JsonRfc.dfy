/** JSON as RFC 8259 defines it, with white space wherever it may stand: which of its texts the
    tokenizer accepts, and what their tokens are. */
module JsonRfc {
  import opened JsmnScan
  import opened JsmnMachine
  import opened JsonForest
  import opened JsonLayout
  import G = JsonGrammar
  import L = JsonLookup
  import Q = JsonQuery
  import R = JsonRoundTrip
  import T = JsmnTheorems

  // ---------- the texts ----------

  /** A value. White space may stand before the closing bracket of an array or object, before and
      after each value and name. */
  datatype Json =
    | Literal(text: string)                  // true, false, null
    | Number(minus: bool, whole: string, fraction: string, exponent: string)
    | Str(body: string)
    | Arr(items: Items, space: string)
    | Obj(fields: Fields, space: string)

  datatype Items = NoItem | Item(before: string, value: Json, after: string, rest: Items)

  datatype Fields =
    | NoField
    | Field(before: string, name: string, between: string, behind: string, value: Json, after: string, rest: Fields)

  /** Section 2 */
  predicate IsSpace(s: string) {
    forall i :: 0 <= i < |s| ==> s[i] == ' ' || s[i] == '\t' || s[i] == '\n' || s[i] == '\r'
  }

  predicate IsDigits(s: string) {
    s != [] && forall i :: 0 <= i < |s| ==> '0' <= s[i] <= '9'
  }

  /** Section 6: an integer part without needless zeroes, then a fraction and an exponent, if any. */
  predicate IsWhole(s: string) {
    IsDigits(s) && (s[0] == '0' ==> |s| == 1)
  }

  predicate IsFraction(s: string) {
    s == [] || (s[0] == '.' && IsDigits(s[1..]))
  }

  predicate IsExponent(s: string) {
    s == []
    || ((s[0] == 'e' || s[0] == 'E')
        && (IsDigits(s[1..]) || (|s| > 1 && (s[1] == '+' || s[1] == '-') && IsDigits(s[2..]))))
  }

  /** Section 7: from position i on, characters that need no escape, and the escapes. */
  predicate IsBody(s: string, i: nat)
    requires i <= |s|
    decreases |s| - i
  {
    || i == |s|
    || (s[i] >= ' ' && s[i] != '\"' && s[i] != '\\' && IsBody(s, i + 1))
    || (s[i] == '\\' && i + 2 <= |s| && s[i + 1] in "\"\\/bfnrt" && IsBody(s, i + 2))
    || (s[i] == '\\' && i + 6 <= |s| && s[i + 1] == 'u' && IsBody(s, i + 6)
        && forall k :: i + 2 <= k < i + 6 ==> s[k] in "0123456789ABCDEFabcdef")
  }

  predicate Valid(j: Json)
    decreases j, 0
  {
    match j
    case Literal(text) => text == "true" || text == "false" || text == "null"
    case Number(_, whole, fraction, exponent) => IsWhole(whole) && IsFraction(fraction) && IsExponent(exponent)
    case Str(body) => IsBody(body, 0)
    case Arr(items, space) => ValidItems(items) && IsSpace(space)
    case Obj(fields, space) => ValidFields(fields) && IsSpace(space)
  }

  predicate ValidItems(items: Items)
    decreases items, 1
  {
    match items
    case NoItem => true
    case Item(before, value, after, rest) => IsSpace(before) && Valid(value) && IsSpace(after) && ValidItems(rest)
  }

  predicate ValidFields(fields: Fields)
    decreases fields, 1
  {
    match fields
    case NoField => true
    case Field(before, name, between, behind, value, after, rest) =>
      && IsSpace(before) && IsBody(name, 0) && IsSpace(between) && IsSpace(behind) && Valid(value) && IsSpace(after)
      && ValidFields(rest)
  }

  function NumberText(minus: bool, whole: string, fraction: string, exponent: string): string {
    (if minus then "-" else "") + whole + fraction + exponent
  }

  function Text(j: Json): string
    decreases j, 0
  {
    match j
    case Literal(text) => text
    case Number(minus, whole, fraction, exponent) => NumberText(minus, whole, fraction, exponent)
    case Str(body) => "\"" + body + "\""
    case Arr(items, space) => "[" + (ItemsText(items, "") + space) + "]"
    case Obj(fields, space) => "{" + (FieldsText(fields, "") + space) + "}"
  }

  function ItemsText(items: Items, comma: string): string
    decreases items, 1
  {
    match items
    case NoItem => ""
    case Item(before, value, after, rest) => comma + before + (Text(value) + (after + ItemsText(rest, ",")))
  }

  function FieldsText(fields: Fields, comma: string): string
    decreases fields, 1
  {
    match fields
    case NoField => ""
    case Field(before, name, between, behind, value, after, rest) =>
      comma + before + (("\"" + name + "\"") + (between + ":" + behind + (Text(value) + (after + FieldsText(rest, ",")))))
  }

  // ---------- the tokens of such a text ----------

  /** The first tree of f stands for the value: its kind, its text and its children. White space
      plays no part in it. */
  predicate Reads(js: string, f: Forest, j: Json)
    decreases j, 0
  {
    !f.Empty? &&
    match j
    case Literal(text) => f.Leaf? && f.kind == Primitive && L.Text(js, f) == text
    case Number(minus, whole, fraction, exponent) =>
      f.Leaf? && f.kind == Primitive && L.Text(js, f) == NumberText(minus, whole, fraction, exponent)
    case Str(body) => f.Leaf? && f.kind == String && L.Text(js, f) == body
    case Arr(items, _) => f.Box? && f.kind == Array && ReadsItems(js, f.kids, items)
    case Obj(fields, _) => f.Box? && f.kind == Object && ReadsFields(js, f.kids, fields)
  }

  predicate ReadsItems(js: string, f: Forest, items: Items)
    decreases items, 1
  {
    match items
    case NoItem => f.Empty?
    case Item(_, value, _, rest) => Reads(js, f, value) && ReadsItems(js, f.rest, rest)
  }

  predicate ReadsFields(js: string, f: Forest, fields: Fields)
    decreases fields, 1
  {
    match fields
    case NoField => f.Empty?
    case Field(_, name, _, _, value, _, rest) =>
      && !f.Empty? && f.Leaf? && f.kind == String && L.Text(js, f) == name
      && !f.rest.Empty? && Reads(js, f.rest, value) && ReadsFields(js, f.rest.rest, rest)
  }

  // ---------- as layouts ----------

  predicate IsWord(j: Json) {
    !j.Arr? && !j.Obj?
  }

  /** The value after `lead`, and before what is laid out in `next`. */
  function Lay(lead: string, j: Json, next: Layout): Layout
    decreases j, 0
  {
    match j
    case Literal(text) => Word(lead, false, text, next)
    case Number(minus, whole, fraction, exponent) => Word(lead, false, NumberText(minus, whole, fraction, exponent), next)
    case Str(body) => Word(lead, true, body, next)
    case Arr(items, space) => Group(lead, Array, LayItems(items, "", "", space), next)
    case Obj(fields, space) => Group(lead, Object, LayFields(fields, "", "", space), next)
  }

  /** `left` is the white space after the value before. */
  function LayItems(items: Items, left: string, comma: string, space: string): Layout
    decreases items, 1
  {
    match items
    case NoItem => End(left + space)
    case Item(before, value, after, rest) => Lay(left + (comma + before), value, LayItems(rest, after, ",", space))
  }

  function LayFields(fields: Fields, left: string, comma: string, space: string): Layout
    decreases fields, 1
  {
    match fields
    case NoField => End(left + space)
    case Field(before, name, between, behind, value, after, rest) =>
      Word(left + (comma + before), true, name, Lay(between + ":" + behind, value, LayFields(rest, after, ",", space)))
  }

  lemma LayText(lead: string, j: Json, next: Layout)
    ensures TextOf(Lay(lead, j, next)) == lead + (Text(j) + TextOf(next))
    decreases j, 0
  {
    match j
    case Arr(items, space) =>
      ItemsLaid(items, "", "", space);
      Bracketed("[", TextOf(LayItems(items, "", "", space)), ItemsText(items, "") + space, "]");
    case Obj(fields, space) =>
      FieldsLaid(fields, "", "", space);
      Bracketed("{", TextOf(LayFields(fields, "", "", space)), FieldsText(fields, "") + space, "}");
    case _ =>
  }

  lemma Bracketed(open: string, a: string, b: string, close: string)
    requires a == "" + b
    ensures open + (a + close) == open + b + close
  {
    assert a == b;
  }

  lemma ItemsLaid(items: Items, left: string, comma: string, space: string)
    ensures TextOf(LayItems(items, left, comma, space)) == left + (ItemsText(items, comma) + space)
    decreases items, 1
  {
    if items.Item? {
      var more := LayItems(items.rest, items.after, ",", space);
      ItemsLaid(items.rest, items.after, ",", space);
      LayText(left + (comma + items.before), items.value, more);
      ItemRegrouped(left, comma + items.before, Text(items.value), items.after, ItemsText(items.rest, ","), space);
    }
  }

  lemma ItemRegrouped(left: string, lead: string, v: string, after: string, rest: string, space: string)
    ensures (left + lead) + (v + (after + (rest + space))) == left + ((lead + (v + (after + rest))) + space)
  {
  }

  lemma FieldsLaid(fields: Fields, left: string, comma: string, space: string)
    ensures TextOf(LayFields(fields, left, comma, space)) == left + (FieldsText(fields, comma) + space)
    decreases fields, 1
  {
    if fields.Field? {
      var more := LayFields(fields.rest, fields.after, ",", space);
      var colon := fields.between + ":" + fields.behind;
      FieldsLaid(fields.rest, fields.after, ",", space);
      LayText(colon, fields.value, more);
      FieldRegrouped(left, comma + fields.before, "\"" + fields.name + "\"", colon, Text(fields.value), fields.after,
                     FieldsText(fields.rest, ","), space);
    }
  }

  lemma FieldRegrouped(left: string, lead: string, name: string, colon: string, v: string, after: string, rest: string, space: string)
    ensures (left + lead) + (name + (colon + (v + (after + (rest + space)))))
         == left + ((lead + (name + (colon + (v + (after + rest))))) + space)
  {
  }

  // ---------- they are well laid out ----------

  predicate IsPrimitive(j: Json) {
    j.Literal? || j.Number?
  }

  lemma {:induction false} BodyFits(s: string, i: nat)
    requires i <= |s| && IsBody(s, i)
    ensures StringBody(s, i, |s|)
    decreases |s| - i
  {
    if i == |s| {
    } else if s[i] != '\\' {
      BodyFits(s, i + 1);
    } else if s[i + 1] == 'u' {
      BodyFits(s, i + 6);
      forall k | i + 2 <= k < i + 6 ensures IsHex(s[k]) { assert s[k] in "0123456789ABCDEFabcdef"; }
    } else {
      BodyFits(s, i + 2);
    }
  }

  lemma SpaceSeparates(s: string)
    requires IsSpace(s)
    ensures AllSeparators(s) && forall i :: 0 <= i < |s| ==> IsDelimiter(s[i])
  {
  }

  /** The characters of which numbers are made. */
  predicate NumberChar(c: char) {
    '0' <= c <= '9' || c == '-' || c == '+' || c == '.' || c == 'e' || c == 'E'
  }

  predicate NumberChars(s: string) {
    forall i :: 0 <= i < |s| ==> NumberChar(s[i])
  }

  lemma ExponentChars(s: string)
    requires IsExponent(s)
    ensures NumberChars(s)
  {
    forall i | 0 <= i < |s| ensures NumberChar(s[i]) {
      if i >= 2 {
        if IsDigits(s[1..]) { assert s[i] == s[1..][i - 1]; } else { assert s[i] == s[2..][i - 2]; }
      } else if i == 1 {
        if IsDigits(s[1..]) { assert s[i] == s[1..][0]; }
      }
    }
  }

  lemma FractionChars(s: string)
    requires IsFraction(s)
    ensures NumberChars(s)
  {
    forall i | 0 <= i < |s| ensures NumberChar(s[i]) { if i > 0 { assert s[i] == s[1..][i - 1]; } }
  }

  lemma NumberIsPlain(minus: bool, whole: string, fraction: string, exponent: string)
    requires IsWhole(whole) && IsFraction(fraction) && IsExponent(exponent)
    ensures PlainWord(NumberText(minus, whole, fraction, exponent))
  {
    FractionChars(fraction);
    ExponentChars(exponent);
    var sign := if minus then "-" else "";
    CharsJoin(sign, whole);
    CharsJoin(sign + whole, fraction);
    CharsJoin(sign + whole + fraction, exponent);
    assert (sign + whole + fraction + exponent)[0] == (sign + whole)[0];
  }

  lemma CharsJoin(a: string, b: string)
    requires NumberChars(a) && NumberChars(b)
    ensures NumberChars(a + b)
  {
  }

  lemma PrimitiveIsPlain(j: Json)
    requires IsPrimitive(j) && Valid(j)
    ensures PlainWord(Text(j))
  {
    match j
    case Literal(_) =>
    case Number(minus, whole, fraction, exponent) => NumberIsPlain(minus, whole, fraction, exponent);
  }

  lemma LayWell(lead: string, j: Json, next: Layout)
    requires Valid(j) && AllSeparators(lead) && WellLaid(next) && (IsPrimitive(j) ==> Delimited(next))
    ensures WellLaid(Lay(lead, j, next)) && Lay(lead, j, next).lead == lead
    decreases j, 0
  {
    match j
    case Literal(_) => PrimitiveIsPlain(j);
    case Number(_, _, _, _) => PrimitiveIsPlain(j);
    case Str(body) => BodyFits(body, 0);
    case Arr(items, space) => ItemsWell(items, "", "", space);
    case Obj(fields, space) => FieldsWell(fields, "", "", space);
  }

  lemma ItemsWell(items: Items, left: string, comma: string, space: string)
    requires ValidItems(items) && IsSpace(left) && (comma == "" || comma == ",") && IsSpace(space)
    ensures WellLaid(LayItems(items, left, comma, space)) && (comma == "," ==> Delimited(LayItems(items, left, comma, space)))
    decreases items, 1
  {
    LeadSeparates(left, comma, if items.Item? then items.before else "");
    if items.Item? {
      ItemsWell(items.rest, items.after, ",", space);
      LayWell(left + (comma + items.before), items.value, LayItems(items.rest, items.after, ",", space));
    } else {
      EndSeparates(left, space);
    }
  }

  lemma LeadSeparates(left: string, comma: string, before: string)
    requires IsSpace(left) && (comma == "" || comma == ",") && IsSpace(before)
    ensures AllSeparators(left + (comma + before))
    ensures comma == "," ==> left + (comma + before) != "" && IsDelimiter((left + (comma + before))[0])
  {
    SpaceSeparates(left);
    SpaceSeparates(before);
  }

  lemma EndSeparates(left: string, space: string)
    requires IsSpace(left) && IsSpace(space)
    ensures WellLaid(End(left + space)) && Delimited(End(left + space))
  {
    SpaceSeparates(left + space);
  }

  lemma FieldsWell(fields: Fields, left: string, comma: string, space: string)
    requires ValidFields(fields) && IsSpace(left) && (comma == "" || comma == ",") && IsSpace(space)
    ensures WellLaid(LayFields(fields, left, comma, space)) && (comma == "," ==> Delimited(LayFields(fields, left, comma, space)))
    decreases fields, 1
  {
    LeadSeparates(left, comma, if fields.Field? then fields.before else "");
    if fields.Field? {
      var more := LayFields(fields.rest, fields.after, ",", space);
      FieldsWell(fields.rest, fields.after, ",", space);
      SpaceSeparates(fields.between);
      SpaceSeparates(fields.behind);
      LayWell(fields.between + ":" + fields.behind, fields.value, more);
      BodyFits(fields.name, 0);
    } else {
      EndSeparates(left, space);
    }
  }

  // ---------- and read as they should be ----------

  lemma LayReads(js: string, p: nat, lead: string, j: Json, next: Layout) returns (q: nat)
    requires Stands(js, p, TextOf(Lay(lead, j, next)))
    ensures var f := TreeOf(Lay(lead, j, next), p);
            Reads(js, f, j) && f.rest == TreeOf(next, q) && Stands(js, q, TextOf(next))
    decreases j, 0
  {
    var l := Lay(lead, j, next);
    if IsWord(j) {
      Q.WordHolds(js, p, l);
      q := AfterWord(l, p);
    } else {
      Q.GroupHolds(js, p, l);
      q := AfterGroup(l, p);
      var k := TreeOf(l, p).start + 1;
      if j.Arr? { ItemsRead(js, k, j.items, "", "", j.space); } else { FieldsRead(js, k, j.fields, "", "", j.space); }
    }
  }

  lemma ItemsRead(js: string, p: nat, items: Items, left: string, comma: string, space: string)
    requires Stands(js, p, TextOf(LayItems(items, left, comma, space)))
    ensures ReadsItems(js, TreeOf(LayItems(items, left, comma, space), p), items)
    decreases items, 1
  {
    if items.Item? {
      var q := LayReads(js, p, left + (comma + items.before), items.value, LayItems(items.rest, items.after, ",", space));
      ItemsRead(js, q, items.rest, items.after, ",", space);
    }
  }

  lemma FieldsRead(js: string, p: nat, fields: Fields, left: string, comma: string, space: string)
    requires Stands(js, p, TextOf(LayFields(fields, left, comma, space)))
    ensures ReadsFields(js, TreeOf(LayFields(fields, left, comma, space), p), fields)
    decreases fields, 1
  {
    if fields.Field? {
      var l := LayFields(fields, left, comma, space);
      Q.WordHolds(js, p, l);
      var q := LayReads(js, AfterWord(l, p), fields.between + ":" + fields.behind, fields.value,
                        LayFields(fields.rest, fields.after, ",", space));
      FieldsRead(js, q, fields.rest, fields.after, ",", space);
    }
  }

  // ---------- how many tokens ----------

  /** One for each value and one for each name. */
  function Tokens(j: Json): nat
    decreases j, 0
  {
    match j
    case Arr(items, _) => 1 + ItemTokens(items)
    case Obj(fields, _) => 1 + FieldTokens(fields)
    case _ => 1
  }

  function ItemTokens(items: Items): nat
    decreases items, 1
  {
    if items.NoItem? then 0 else Tokens(items.value) + ItemTokens(items.rest)
  }

  function FieldTokens(fields: Fields): nat
    decreases fields, 1
  {
    if fields.NoField? then 0 else 1 + Tokens(fields.value) + FieldTokens(fields.rest)
  }

  lemma CountIs(js: string, f: Forest, j: Json)
    requires Reads(js, f, j)
    ensures Count(f) == Tokens(j) + Count(f.rest)
    decreases j, 0
  {
    match j
    case Arr(items, _) => ItemsCount(js, f.kids, items);
    case Obj(fields, _) => FieldsCount(js, f.kids, fields);
    case _ =>
  }

  lemma ItemsCount(js: string, f: Forest, items: Items)
    requires ReadsItems(js, f, items)
    ensures Count(f) == ItemTokens(items)
    decreases items, 1
  {
    if items.Item? {
      CountIs(js, f, items.value);
      ItemsCount(js, f.rest, items.rest);
    }
  }

  lemma FieldsCount(js: string, f: Forest, fields: Fields)
    requires ReadsFields(js, f, fields)
    ensures Count(f) == FieldTokens(fields)
    decreases fields, 1
  {
    if fields.Field? {
      CountIs(js, f.rest, fields.value);
      FieldsCount(js, f.rest.rest, fields.rest);
    }
  }

  // ---------- whole texts ----------

  /** A text: one value, with white space around it. */
  function Whole(before: string, j: Json, after: string): string {
    before + (Text(j) + after)
  }

  lemma WholeText(before: string, j: Json, after: string)
    ensures TextOf(Lay(before, j, End(after))) == Whole(before, j, after)
  {
    LayText(before, j, End(after));
  }

  /** A primitive is at the very end of the text. */
  predicate EndsInPrimitive(j: Json, after: string) {
    IsPrimitive(j) && after == ""
  }

  lemma {:induction false} PlainLast(js: string, l: Layout)
    requires l.Word? && !l.quoted && Stands(js, 0, TextOf(l)) && WellLaid(l) && l.next.End?
    requires l.next.lead != "" && IsDelimiter(l.next.lead[0])
    ensures G.LeafAt(js, 0, Primitive, |l.lead|, |l.lead| + |l.word|)
  {
    var e := AfterWord(l, 0);
    WordParts(js, 0, l);
    StandsSeparators(js, 0, l.lead);
    StandsAt(js, e, l.next.lead, 0);
    PlainLeaf(js, 0, |l.lead|, l.word);
  }

  lemma {:induction false} LeafSpells(js: string, kind: Kind, s: nat, e: nat, f: Forest)
    requires G.LeafAt(js, 0, kind, s, e) && G.LeafEnd(kind, e) <= |js| && G.Separators(js, G.LeafEnd(kind, e), |js|)
    requires f == Leaf(kind, s, e, Empty)
    ensures G.Spells(js, 0, |js|, f)
  {
    assert G.Spells(js, G.LeafEnd(kind, e), |js|, Empty);
  }

  lemma {:induction false} LastTree(l: Layout)
    requires l.Word? && l.next.End?
    ensures TreeOf(l, 0) == WordTree(|l.lead|, l.quoted, l.word, Empty)
  {
  }

  lemma {:induction false} RestSeparates(js: string, l: Layout)
    requires l.Word? && l.next.End? && Stands(js, 0, TextOf(l)) && |js| == Width(l) && WellLaid(l)
    ensures AfterWord(l, 0) <= |js| && G.Separators(js, AfterWord(l, 0), |js|)
  {
    WordParts(js, 0, l);
    StandsSeparators(js, AfterWord(l, 0), l.next.lead);
  }

  lemma {:induction false} WordSpelled(js: string, l: Layout, f: Forest)
    requires l.Word? && l.next.End? && Stands(js, 0, TextOf(l)) && |js| == Width(l) && WellLaid(l)
    requires (!l.quoted ==> l.next.lead != "" && IsDelimiter(l.next.lead[0])) && f == TreeOf(l, 0)
    ensures G.Spells(js, 0, |js|, f)
  {
    LastTree(l);
    RestSeparates(js, l);
    if l.quoted {
      QuotedWordLeaf(js, 0, l);
      LeafSpells(js, String, |l.lead| + 1, |l.lead| + 1 + |l.word|, f);
    } else {
      PlainLast(js, l);
      LeafSpells(js, Primitive, |l.lead|, |l.lead| + |l.word|, f);
    }
  }

  lemma {:induction false} SelfStands(js: string)
    ensures Stands(js, 0, js)
  {
    StandsAll(js, 0, js, 0);
  }

  lemma {:induction false} WholeSpelled(before: string, j: Json, after: string)
    requires IsSpace(before) && Valid(j) && IsSpace(after) && !EndsInPrimitive(j, after)
    ensures var js := Whole(before, j, after); G.Spells(js, 0, |js|, TreeOf(Lay(before, j, End(after)), 0))
  {
    var l := Lay(before, j, End(after));
    SpaceSeparates(before);
    SpaceSeparates(after);
    LayWell(before, j, End(after));
    WholeText(before, j, after);
    SelfStands(TextOf(l));
    if IsWord(j) { WordSpelled(Whole(before, j, after), l, TreeOf(l, 0)); } else { LayoutSpelled(l); }
  }

  /** Every text of RFC 8259 that does not end in a primitive is parsed, with as many tokens as it has
      values and names, into the preorder of a tree that stands for its value, wherever there is
      white space in it; with fewer tokens the parser says so. */
  lemma RfcAccepted(before: string, j: Json, after: string, n: nat) returns (f: Forest)
    requires IsSpace(before) && Valid(j) && IsSpace(after) && !EndsInPrimitive(j, after)
    ensures Reads(Whole(before, j, after), f, j) && f.rest == Empty && Count(f) == Tokens(j)
    ensures Tokens(j) <= n ==>
              Run(Whole(before, j, after), FRESH, n)
              == RunResult(Ok, Tokens(j), PState(|Whole(before, j, after)|, Flat(f, 0, -1), -1))
    ensures Tokens(j) > n ==> Run(Whole(before, j, after), FRESH, n).code == NoMem
  {
    var js := Whole(before, j, after);
    f := TreeOf(Lay(before, j, End(after)), 0);
    WholeSpelled(before, j, after);
    WholeText(before, j, after);
    StandsAll(js, 0, js, 0);
    var q := LayReads(js, 0, before, j, End(after));
    CountIs(js, f, j);
    R.TextEnds(js, f);
    T.ParseComplete(js, f, n);
  }

  // ---------- a primitive at the end ----------

  lemma {:induction false} ScansToEnd(js: string, p: nat)
    requires forall i :: p <= i < |js| ==> IsPrintable(js[i]) && !IsDelimiter(js[i])
    ensures ScanPrimitive(js, p) == Partial
    decreases |js| - p
  {
    if p < |js| && !AtEnd(js, p) { ScansToEnd(js, p + 1); }
  }

  lemma {:induction false} RunSkips(js: string, p: nat, k: nat, n: nat)
    requires p <= k <= |js| && G.Separators(js, p, k)
    ensures Run(js, PState(p, [], -1), n) == Run(js, PState(k, [], -1), n)
    decreases k - p
  {
    if p < k {
      assert Step(js, PState(p, [], -1), n) == Next(PState(p + 1, [], -1), 0);
      RunSkips(js, p + 1, k, n);
    }
  }

  /** A text that ends in a primitive is never accepted: the parser asks for more. */
  lemma {:induction false} EndingIsPartial(before: string, j: Json, n: nat)
    requires IsSpace(before) && Valid(j) && IsPrimitive(j)
    ensures Run(Whole(before, j, ""), FRESH, n).code == Part
  {
    var js, k := Whole(before, j, ""), |before|;
    PrimitiveIsPlain(j);
    SpaceSeparates(before);
    forall i | k <= i < |js| ensures js[i] == Text(j)[i - k] {}
    RunSkips(js, 0, k, n);
    ScansToEnd(js, k);
    assert Step(js, PState(k, [], -1), n) == Fail(Part);
  }
}
