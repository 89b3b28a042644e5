/** JSON text laid out as words and brackets with separators before them, and the token tree that
    such a text spells. */
module JsonLayout {
  import opened JsmnScan
  import opened JsmnMachine
  import opened JsonForest
  import opened JsonGrammar

  /** A list of words and bracketed groups, each after the separators `lead`, and with separators at
      its end. A quoted word is a string literal, any other a primitive. */
  datatype Layout =
    | End(lead: string)
    | Word(lead: string, quoted: bool, word: string, next: Layout)
    | Group(lead: string, kind: Kind, inside: Layout, next: Layout)

  function Quotes(quoted: bool, word: string): string {
    if quoted then "\"" + word + "\"" else word
  }

  function Opener(kind: Kind): string {
    if kind == Object then "{" else "["
  }

  function Closer(kind: Kind): string {
    if kind == Object then "}" else "]"
  }

  function TextOf(l: Layout): (s: string)
    ensures |s| == Width(l)
  {
    match l
    case End(lead) => lead
    case Word(lead, quoted, word, next) => lead + (Quotes(quoted, word) + TextOf(next))
    case Group(lead, kind, inside, next) => lead + ((Opener(kind) + (TextOf(inside) + Closer(kind))) + TextOf(next))
  }

  function WordWidth(quoted: bool, word: string): nat {
    if quoted then |word| + 2 else |word|
  }

  function Width(l: Layout): nat {
    match l
    case End(lead) => |lead|
    case Word(lead, quoted, word, next) => |lead| + WordWidth(quoted, word) + Width(next)
    case Group(lead, _, inside, next) => |lead| + Width(inside) + 2 + Width(next)
  }

  /** The tree of a word at position k. */
  function WordTree(k: nat, quoted: bool, word: string, rest: Forest): Forest {
    if quoted then Leaf(String, k + 1, k + 1 + |word|, rest) else Leaf(Primitive, k, k + |word|, rest)
  }

  /** The token trees of a layout whose text starts at position p. */
  function TreeOf(l: Layout, p: nat): Forest
    decreases l
  {
    match l
    case End(_) => Empty
    case Word(lead, quoted, word, next) =>
      WordTree(p + |lead|, quoted, word, TreeOf(next, p + |lead| + WordWidth(quoted, word)))
    case Group(lead, kind, inside, next) =>
      var k := p + |lead|;
      var e := k + Width(inside) + 2;
      Box(kind, k, e, TreeOf(inside, k + 1), TreeOf(next, e))
  }

  predicate AllSeparators(s: string) {
    forall i :: 0 <= i < |s| ==> IsSeparator(s[i])
  }

  /** A primitive: printable, without delimiters, and starting as a primitive must. */
  predicate PlainWord(s: string) {
    s != [] && StartsPrimitive(s[0]) && forall i :: 0 <= i < |s| ==> IsPrintable(s[i]) && !IsDelimiter(s[i])
  }

  predicate WellWord(quoted: bool, word: string) {
    if quoted then StringBody(word, 0, |word|) else PlainWord(word)
  }

  /** Something that ends a primitive comes next. */
  predicate Delimited(l: Layout) {
    if l.lead == [] then l.End? else IsDelimiter(l.lead[0])
  }

  predicate WellLaid(l: Layout) {
    match l
    case End(lead) => AllSeparators(lead)
    case Word(lead, quoted, word, next) =>
      AllSeparators(lead) && WellWord(quoted, word) && (!quoted ==> Delimited(next)) && WellLaid(next)
    case Group(lead, kind, inside, next) =>
      AllSeparators(lead) && kind in {Object, Array} && WellLaid(inside) && WellLaid(next)
  }

  // ---------- text in its place ----------

  /** `s` stands at position p of js, from its i-th character on. */
  predicate Stands(js: string, p: nat, s: string, i: nat := 0)
    requires i <= |s|
    decreases |s| - i
  {
    p + |s| <= |js| && (i == |s| || (js[p + i] == s[i] && Stands(js, p, s, i + 1)))
  }

  lemma {:induction false} StandsAll(js: string, p: nat, s: string, i: nat)
    requires i <= |s| && p + |s| <= |js| && forall k :: i <= k < |s| ==> js[p + k] == s[k]
    ensures Stands(js, p, s, i)
    decreases |s| - i
  {
    if i < |s| { StandsAll(js, p, s, i + 1); }
  }

  lemma {:induction false} StandsEach(js: string, p: nat, s: string, i: nat)
    requires i <= |s| && Stands(js, p, s, i)
    ensures p + |s| <= |js| && forall k :: i <= k < |s| ==> js[p + k] == s[k]
    decreases |s| - i
  {
    if i < |s| { StandsEach(js, p, s, i + 1); }
  }

  lemma StandsAt(js: string, p: nat, s: string, i: nat)
    requires Stands(js, p, s) && i < |s|
    ensures p + i < |js| && js[p + i] == s[i]
  {
    StandsEach(js, p, s, 0);
  }

  lemma StandsParts(js: string, p: nat, a: string, b: string)
    requires Stands(js, p, a + b)
    ensures Stands(js, p, a) && Stands(js, p + |a|, b)
  {
    StandsEach(js, p, a + b, 0);
    forall k | 0 <= k < |a| ensures js[p + k] == a[k] { assert (a + b)[k] == a[k]; }
    forall k | 0 <= k < |b| ensures js[p + |a| + k] == b[k] { assert js[p + (|a| + k)] == (a + b)[|a| + k]; }
    StandsAll(js, p, a, 0);
    StandsAll(js, p + |a|, b, 0);
  }

  lemma BracketParts(js: string, k: nat, open: string, inside: string, close: string, next: string)
    requires Stands(js, k, (open + (inside + close)) + next)
    ensures Stands(js, k, open) && Stands(js, k + |open|, inside)
    ensures Stands(js, k + |open| + |inside|, close) && Stands(js, k + |open| + |inside| + |close|, next)
  {
    StandsParts(js, k, open + (inside + close), next);
    StandsParts(js, k, open, inside + close);
    StandsParts(js, k + |open|, inside, close);
  }

  lemma StandsSeparators(js: string, p: nat, s: string)
    requires Stands(js, p, s) && AllSeparators(s)
    ensures Separators(js, p, p + |s|)
  {
    forall i | p <= i < p + |s| ensures IsSeparator(js[i]) { StandsAt(js, p, s, i - p); }
  }

  // ---------- such text spells the layout's tree ----------

  /** P is closed under the rules of the grammar. */
  ghost predicate Closed(js: string, P: (nat, nat, Forest) -> bool) {
    ClosedEmpty(js, P) && ClosedLeaf(js, P) && ClosedBox(js, P)
  }

  ghost predicate ClosedEmpty(js: string, P: (nat, nat, Forest) -> bool) {
    forall i: nat, j: nat :: i <= j <= |js| && Separators(js, i, j) ==> P(i, j, Empty)
  }

  ghost predicate ClosedLeaf(js: string, P: (nat, nat, Forest) -> bool) {
    forall i: nat, kind: Kind, s: nat, e: nat, j: nat, rest: Forest ::
      LeafAt(js, i, kind, s, e) && LeafEnd(kind, e) <= j <= |js| && P(LeafEnd(kind, e), j, rest)
      ==> P(i, j, Leaf(kind, s, e, rest))
  }

  ghost predicate ClosedBox(js: string, P: (nat, nat, Forest) -> bool) {
    forall i: nat, kind: Kind, s: nat, e: nat, kids: Forest, j: nat, rest: Forest ::
      BracketsAt(js, i, kind, s, e) && e <= j <= |js| && P(s + 1, e - 1, kids) && P(e, j, rest)
      ==> P(i, j, Box(kind, s, e, kids, rest))
  }

  lemma BodyStands(js: string, p: nat, word: string)
    requires Stands(js, p, word) && StringBody(word, 0, |word|)
    ensures p + |word| <= |js| && StringBody(js, p, p + |word|)
  {
    forall i | 0 <= i < |word| ensures word[i] == js[i - 0 + p] { StandsAt(js, p, word, i); }
    StringBodyMoves(word, 0, js, p, |word|);
  }

  lemma {:induction false} QuotedLeaf(js: string, p: nat, k: nat, word: string)
    requires p <= k <= |js| && Stands(js, k, "\"" + word + "\"") && StringBody(word, 0, |word|) && Separators(js, p, k)
    ensures LeafAt(js, p, String, k + 1, k + 1 + |word|)
  {
    StandsParts(js, k, "\"" + word, "\"");
    StandsParts(js, k, "\"", word);
    StandsAt(js, k, "\"", 0);
    StandsAt(js, k + 1 + |word|, "\"", 0);
    BodyStands(js, k + 1, word);
    assert StringAt(js, k + 1, k + 1 + |word|);
  }

  lemma PlainLeaf(js: string, p: nat, k: nat, word: string)
    requires p <= k && Stands(js, k, word) && PlainWord(word) && k <= |js| && Separators(js, p, k)
    requires k + |word| < |js| && IsDelimiter(js[k + |word|])
    ensures LeafAt(js, p, Primitive, k, k + |word|)
  {
    forall i | k <= i < k + |word| ensures js[i] == word[i - k] { StandsAt(js, k, word, i - k); }
  }

  /** The character after a primitive. */
  lemma DelimiterNext(js: string, q: nat, l: Layout, j: nat)
    requires Stands(js, q, TextOf(l)) && Delimited(l) && j == q + Width(l) && j < |js| && IsDelimiter(js[j])
    ensures q < |js| && IsDelimiter(js[q])
  {
    if l.lead != [] {
      assert TextOf(l)[0] == l.lead[0];
      StandsAt(js, q, TextOf(l), 0);
    }
  }

  lemma CloserDelimits(js: string, q: nat, kind: Kind)
    requires Stands(js, q, Closer(kind))
    ensures q < |js| && IsDelimiter(js[q])
  {
    StandsAt(js, q, Closer(kind), 0);
  }

  /** Where the next one starts. */
  function AfterWord(l: Layout, p: nat): nat
    requires l.Word?
  {
    p + |l.lead| + WordWidth(l.quoted, l.word)
  }

  function AfterGroup(l: Layout, p: nat): nat
    requires l.Group?
  {
    p + |l.lead| + Width(l.inside) + 2
  }

  lemma WordParts(js: string, p: nat, l: Layout)
    requires l.Word? && Stands(js, p, TextOf(l))
    ensures Stands(js, p, l.lead) && Stands(js, p + |l.lead|, Quotes(l.quoted, l.word))
    ensures Stands(js, AfterWord(l, p), TextOf(l.next))
  {
    StandsParts(js, p, l.lead, Quotes(l.quoted, l.word) + TextOf(l.next));
    StandsParts(js, p + |l.lead|, Quotes(l.quoted, l.word), TextOf(l.next));
  }

  lemma GroupParts(js: string, p: nat, l: Layout)
    requires l.Group? && Stands(js, p, TextOf(l))
    ensures Stands(js, p, l.lead) && Stands(js, p + |l.lead|, Opener(l.kind))
    ensures Stands(js, p + |l.lead| + 1, TextOf(l.inside))
    ensures Stands(js, AfterGroup(l, p) - 1, Closer(l.kind)) && Stands(js, AfterGroup(l, p), TextOf(l.next))
  {
    StandsParts(js, p, l.lead, (Opener(l.kind) + (TextOf(l.inside) + Closer(l.kind))) + TextOf(l.next));
    BracketParts(js, p + |l.lead|, Opener(l.kind), TextOf(l.inside), Closer(l.kind), TextOf(l.next));
  }

  lemma QuotedWordLeaf(js: string, p: nat, l: Layout)
    requires l.Word? && l.quoted && Stands(js, p, TextOf(l)) && WellLaid(l)
    ensures LeafAt(js, p, String, p + |l.lead| + 1, p + |l.lead| + 1 + |l.word|)
  {
    WordParts(js, p, l);
    StandsSeparators(js, p, l.lead);
    QuotedLeaf(js, p, p + |l.lead|, l.word);
  }

  lemma {:induction false} PlainWordLeaf(js: string, p: nat, l: Layout, j: nat)
    requires l.Word? && !l.quoted && Stands(js, p, TextOf(l)) && WellLaid(l)
    requires j == p + Width(l) && j < |js| && IsDelimiter(js[j])
    ensures LeafAt(js, p, Primitive, p + |l.lead|, p + |l.lead| + |l.word|)
  {
    WordParts(js, p, l);
    StandsSeparators(js, p, l.lead);
    DelimiterNext(js, AfterWord(l, p), l.next, j);
    PlainLeaf(js, p, p + |l.lead|, l.word);
  }

  lemma GroupBrackets(js: string, p: nat, l: Layout)
    requires l.Group? && Stands(js, p, TextOf(l)) && WellLaid(l)
    ensures BracketsAt(js, p, l.kind, p + |l.lead|, AfterGroup(l, p))
  {
    GroupParts(js, p, l);
    StandsSeparators(js, p, l.lead);
    StandsAt(js, p + |l.lead|, Opener(l.kind), 0);
    StandsAt(js, AfterGroup(l, p) - 1, Closer(l.kind), 0);
  }

  lemma WordStep(js: string, P: (nat, nat, Forest) -> bool, p: nat, k: nat, quoted: bool, word: string, j: nat, rest: Forest)
    requires Closed(js, P) && k + WordWidth(quoted, word) <= j <= |js| && P(k + WordWidth(quoted, word), j, rest)
    requires if quoted then LeafAt(js, p, String, k + 1, k + 1 + |word|) else LeafAt(js, p, Primitive, k, k + |word|)
    ensures P(p, j, WordTree(k, quoted, word, rest))
  {
    var e := if quoted then k + 1 + |word| else k + |word|;
    assert LeafEnd(if quoted then String else Primitive, e) == k + WordWidth(quoted, word);
  }

  lemma GroupStep(js: string, P: (nat, nat, Forest) -> bool, p: nat, kind: Kind, k: nat, e: nat, kids: Forest, j: nat, rest: Forest)
    requires Closed(js, P) && BracketsAt(js, p, kind, k, e) && e <= j <= |js|
    requires P(k + 1, e - 1, kids) && P(e, j, rest)
    ensures P(p, j, Box(kind, k, e, kids, rest))
  {
  }

  lemma TreeOfWord(l: Layout, p: nat)
    requires l.Word?
    ensures TreeOf(l, p) == WordTree(p + |l.lead|, l.quoted, l.word, TreeOf(l.next, AfterWord(l, p)))
  {
  }

  lemma TreeOfGroup(l: Layout, p: nat)
    requires l.Group?
    ensures TreeOf(l, p)
         == Box(l.kind, p + |l.lead|, AfterGroup(l, p), TreeOf(l.inside, p + |l.lead| + 1), TreeOf(l.next, AfterGroup(l, p)))
  {
  }

  lemma {:induction false} WordRead(js: string, P: (nat, nat, Forest) -> bool, p: nat, l: Layout, j: nat)
    requires Closed(js, P) && l.Word? && Stands(js, p, TextOf(l)) && WellLaid(l)
    requires j == p + Width(l) && j < |js| && IsDelimiter(js[j])
    requires P(AfterWord(l, p), j, TreeOf(l.next, AfterWord(l, p)))
    ensures P(p, j, TreeOf(l, p))
  {
    if l.quoted { QuotedWordLeaf(js, p, l); } else { PlainWordLeaf(js, p, l, j); }
    TreeOfWord(l, p);
    WordStep(js, P, p, p + |l.lead|, l.quoted, l.word, j, TreeOf(l.next, AfterWord(l, p)));
  }

  lemma {:induction false} GroupRead(js: string, P: (nat, nat, Forest) -> bool, p: nat, l: Layout, j: nat)
    requires Closed(js, P) && l.Group? && Stands(js, p, TextOf(l)) && WellLaid(l)
    requires j == p + Width(l) && j <= |js|
    requires P(p + |l.lead| + 1, AfterGroup(l, p) - 1, TreeOf(l.inside, p + |l.lead| + 1))
    requires P(AfterGroup(l, p), j, TreeOf(l.next, AfterGroup(l, p)))
    ensures P(p, j, TreeOf(l, p))
  {
    var k, e := p + |l.lead|, AfterGroup(l, p);
    GroupBrackets(js, p, l);
    TreeOfGroup(l, p);
    GroupStep(js, P, p, l.kind, k, e, TreeOf(l.inside, k + 1), j, TreeOf(l.next, e));
  }

  /** A well laid out text stands at js[p..j], and a delimiter follows it. */
  predicate Laid(js: string, p: nat, l: Layout, j: nat) {
    Stands(js, p, TextOf(l)) && WellLaid(l) && j == p + Width(l) && j < |js| && IsDelimiter(js[j])
  }

  lemma WordDescends(js: string, p: nat, l: Layout, j: nat)
    requires l.Word? && Laid(js, p, l, j)
    ensures Laid(js, AfterWord(l, p), l.next, j)
  {
    WordParts(js, p, l);
  }

  lemma GroupDescends(js: string, p: nat, l: Layout, j: nat)
    requires l.Group? && Laid(js, p, l, j)
    ensures Laid(js, p + |l.lead| + 1, l.inside, AfterGroup(l, p) - 1) && Laid(js, AfterGroup(l, p), l.next, j)
  {
    GroupParts(js, p, l);
    CloserDelimits(js, AfterGroup(l, p) - 1, l.kind);
  }

  /** The text of a layout, before a delimiter, is read as the layout's tree. */
  lemma {:induction false} LayoutRead(js: string, P: (nat, nat, Forest) -> bool, p: nat, l: Layout, j: nat)
    requires Closed(js, P) && Laid(js, p, l, j)
    ensures P(p, j, TreeOf(l, p))
    decreases l
  {
    match l
    case End(lead) => StandsSeparators(js, p, lead);
    case Word(_, _, _, next) =>
      WordDescends(js, p, l, j);
      LayoutRead(js, P, AfterWord(l, p), next, j);
      WordRead(js, P, p, l, j);
    case Group(lead, _, inside, next) =>
      GroupDescends(js, p, l, j);
      LayoutRead(js, P, p + |lead| + 1, inside, AfterGroup(l, p) - 1);
      LayoutRead(js, P, AfterGroup(l, p), next, j);
      GroupRead(js, P, p, l, j);
  }

  lemma SpellsClosed(js: string) returns (P: (nat, nat, Forest) -> bool)
    ensures P == ((i: nat, j: nat, f: Forest) => i <= j <= |js| && Spells(js, i, j, f))
    ensures Closed(js, P)
  {
    P := (i: nat, j: nat, f: Forest) => i <= j <= |js| && Spells(js, i, j, f);
  }

  lemma {:induction false} EndRead(js: string, P: (nat, nat, Forest) -> bool, l: Layout, e: nat)
    requires Closed(js, P) && l.End? && WellLaid(l) && Stands(js, e, TextOf(l))
    ensures P(e, e + Width(l), TreeOf(l, e))
  {
    StandsSeparators(js, e, l.lead);
  }

  lemma {:induction false} BracketedRead(js: string, P: (nat, nat, Forest) -> bool, l: Layout)
    requires Closed(js, P) && l.Group? && Stands(js, 0, TextOf(l)) && WellLaid(l)
    requires l.next.End? && |js| == Width(l)
    ensures P(0, |js|, TreeOf(l, 0))
  {
    var k, e := |l.lead|, AfterGroup(l, 0);
    GroupParts(js, 0, l);
    CloserDelimits(js, e - 1, l.kind);
    LayoutRead(js, P, k + 1, l.inside, e - 1);
    EndRead(js, P, l.next, e);
    GroupRead(js, P, 0, l, |js|);
  }

  /** The text of a layout in brackets spells the layout's tree. */
  lemma LayoutSpelled(l: Layout)
    requires l.Group? && l.next.End? && WellLaid(l)
    ensures Spells(TextOf(l), 0, |TextOf(l)|, TreeOf(l, 0))
  {
    var js := TextOf(l);
    var P := SpellsClosed(js);
    StandsAll(js, 0, js, 0);
    BracketedRead(js, P, l);
  }
}
