/** String escaping into a growing buffer (lib_jsmn/json_escape_str.c). */
module JsonEscape {
  import opened JsmnScan

  datatype Option<T> = None | Some(value: T)

  /** The bytes that the escaper passes on or escapes; other control characters are not covered. */
  predicate Escapable(s: string) {
    forall i :: 0 <= i < |s| ==> s[i] >= ' ' || s[i] == '\U{0008}' || s[i] == '\n' || s[i] == '\r' || s[i] == '\t'
  }

  /** The letter after the backslash, for the characters that get one. */
  function EscapeLetter(c: char): Option<char> {
    match c
    case '\U{0008}' => Some('b')
    case '\n' => Some('n')
    case '\r' => Some('r')
    case '\t' => Some('t')
    case '\"' => Some('\"')
    case '\\' => Some('\\')
    case '/' => Some('/')
    case _ => None
  }

  function EscapeChar(c: char): string {
    match EscapeLetter(c)
    case Some(e) => ['\\', e]
    case None => [c]
  }

  function Escape(s: string): string {
    if s == [] then [] else EscapeChar(s[0]) + Escape(s[1..])
  }

  // ---------- reading an escaped string back: section 7 of RFC 8259 ----------

  function HexValue(c: char): nat
    requires IsHex(c)
  {
    if c <= '9' then c as nat - '0' as nat
    else if c <= 'F' then c as nat - 'A' as nat + 10
    else c as nat - 'a' as nat + 10
  }

  function UnescapeLetter(e: char): Option<char> {
    match e
    case '\"' => Some('\"')
    case '\\' => Some('\\')
    case '/' => Some('/')
    case 'b' => Some('\U{0008}')
    case 'f' => Some('\U{000C}')
    case 'n' => Some('\n')
    case 'r' => Some('\r')
    case 't' => Some('\t')
    case _ => None
  }

  function Prepend(c: char, r: Option<string>): Option<string> {
    match r
    case None => None
    case Some(s) => Some([c] + s)
  }

  /** The characters that the inside of a JSON string literal stands for. */
  function Unescape(t: string): Option<string> {
    if t == [] then Some([])
    else if t[0] != '\\' then Prepend(t[0], Unescape(t[1..]))
    else if |t| < 2 then None
    else if t[1] == 'u' then
      if |t| < 6 || exists i :: 2 <= i < 6 && !IsHex(t[i]) then None
      else
        var v := HexValue(t[2]) * 4096 + HexValue(t[3]) * 256 + HexValue(t[4]) * 16 + HexValue(t[5]);
        if 0xd800 <= v < 0xe000 then None else Prepend(v as char, Unescape(t[6..]))
    else
      match UnescapeLetter(t[1])
      case None => None
      case Some(c) => Prepend(c, Unescape(t[2..]))
  }

  lemma {:induction false} EscapeAppend(a: string, b: string)
    ensures Escape(a + b) == Escape(a) + Escape(b)
  {
    if a == [] {
      assert a + b == b;
    } else {
      assert (a + b)[0] == a[0] && (a + b)[1..] == a[1..] + b;
      EscapeAppend(a[1..], b);
    }
  }

  lemma {:induction false} EscapePlain(s: string)
    requires forall i :: 0 <= i < |s| ==> EscapeLetter(s[i]).None?
    ensures Escape(s) == s
  {
    if s != [] { EscapePlain(s[1..]); }
  }

  lemma {:induction false} UnescapeChar(c: char, t: string)
    ensures Unescape(EscapeChar(c) + t) == Prepend(c, Unescape(t))
  {
    var u := EscapeChar(c) + t;
    match EscapeLetter(c)
    case Some(e) => assert u[0] == '\\' && u[1] == e && u[2..] == t;
    case None => assert u[0] == c && u[1..] == t;
  }

  /** Escaping is invertible. */
  lemma {:induction false} UnescapeEscape(s: string)
    ensures Unescape(Escape(s)) == Some(s)
  {
    if s != [] {
      UnescapeEscape(s[1..]);
      UnescapeChar(s[0], Escape(s[1..]));
      assert s == [s[0]] + s[1..];
    }
  }

  // ---------- what is escaped, character by character ----------

  /** What stands in the escaped text for one character: a backslash and a letter for seven of
      them, and the character itself for every other. */
  predicate StandsFor(piece: string, c: char) {
    && (c == '\U{0008}' ==> piece == ['\\', 'b']) && (c == '\n' ==> piece == ['\\', 'n'])
    && (c == '\r' ==> piece == ['\\', 'r']) && (c == '\t' ==> piece == ['\\', 't'])
    && (c == '\"' ==> piece == ['\\', '\"']) && (c == '\\' ==> piece == ['\\', '\\'])
    && (c == '/' ==> piece == ['\\', '/'])
    && (c !in {'\U{0008}', '\n', '\r', '\t', '\"', '\\', '/'} ==> piece == [c])
  }

  /** The escaped text is made of these pieces, one for each character and in their order. */
  predicate Pieces(s: string, ps: seq<string>) {
    |ps| == |s| && forall i :: 0 <= i < |s| ==> StandsFor(ps[i], s[i])
  }

  function Join(ps: seq<string>): string {
    if ps == [] then [] else ps[0] + Join(ps[1..])
  }

  lemma {:induction false} EscapedPieces(s: string) returns (ps: seq<string>)
    ensures Pieces(s, ps) && Escape(s) == Join(ps)
  {
    if s == [] {
      ps := [];
    } else {
      var rest := EscapedPieces(s[1..]);
      ps := [EscapeChar(s[0])] + rest;
      assert ps[1..] == rest;
    }
  }

  /** Escaped text can stand in a string literal of section 7 of RFC 8259: there is no control
      character in it, and every quote comes right behind a backslash. */
  lemma {:induction false} EscapedIsClean(s: string)
    requires Escapable(s)
    ensures forall i :: 0 <= i < |Escape(s)| ==> Escape(s)[i] >= ' '
    ensures forall i :: 0 <= i < |Escape(s)| && Escape(s)[i] == '\"' ==> i > 0 && Escape(s)[i - 1] == '\\'
  {
    if s != [] {
      var c, tail := EscapeChar(s[0]), Escape(s[1..]);
      EscapedIsClean(s[1..]);
      forall i | 0 <= i < |Escape(s)|
        ensures Escape(s)[i] >= ' '
        ensures Escape(s)[i] == '\"' ==> i > 0 && Escape(s)[i - 1] == '\\'
      {
        if i >= |c| {
          assert Escape(s)[i] == tail[i - |c|];
          if tail[i - |c|] == '\"' { assert Escape(s)[i - 1] == tail[i - |c| - 1]; }
        }
      }
    }
  }

  /** Escaped text is the inside of a string literal. */
  lemma {:induction false} EscapedIsBody(js: string, p: nat, s: string)
    requires Escapable(s) && p + |Escape(s)| <= |js| && js[p..p + |Escape(s)|] == Escape(s)
    ensures StringBody(js, p, p + |Escape(s)|)
    decreases |s|
  {
    if s != [] {
      var t, tail := Escape(s), Escape(s[1..]);
      var n := |EscapeChar(s[0])|;
      assert js[p] == js[p..p + |t|][0];
      assert n == 2 ==> js[p + 1] == js[p..p + |t|][1];
      assert js[p + n..p + |t|] == js[p..p + |t|][n..] == tail;
      EscapedIsBody(js, p + n, s[1..]);
    }
  }

  /** Quoted, an escaped string is one string token that covers exactly the escaped text. */
  lemma EscapedScans(before: string, s: string, after: string)
    requires Escapable(s)
    ensures ScanString(before + "\"" + Escape(s) + "\"" + after, |before| + 1) == Stop(|before| + 1 + |Escape(s)|)
  {
    var t := before + "\"" + Escape(s) + "\"" + after;
    var p, e := |before| + 1, |before| + 1 + |Escape(s)|;
    assert t[p..e] == Escape(s) && t[e] == '\"';
    EscapedIsBody(t, p, s);
    StringAccepted(t, p, e);
  }

  // ---------- the growing buffer ----------

  function Max(a: int, b: int): int {
    if a > b then a else b
  }

  class PrintBuf {
    var buf: array<char>
    var bpos: int
    var size: int

    ghost predicate Valid()
      reads this, buf
    {
      buf.Length == size && 0 <= bpos < size
    }

    ghost function Contents(): string
      requires Valid()
      reads this, buf
    {
      buf[..bpos]
    }

    /** json_printbuf_new */
    constructor ()
      ensures Valid() && fresh(buf) && Contents() == [] && size == 4
    {
      size, bpos := 4, 0;
      buf := new char[4](i => '\0');
    }

    /** json_printbuf_memappend: grows the buffer if text and terminator would not fit. */
    method MemAppend(s: string)
      requires Valid()
      modifies this, buf
      ensures Valid() && (buf == old(buf) || fresh(buf))
      ensures Contents() == old(Contents()) + s && buf[bpos] == '\0'
      ensures size == if old(size) - old(bpos) <= |s| then Max(old(size) * 2, old(bpos) + |s| + 8) else old(size)
    {
      if size - bpos <= |s| {
        var newSize := Max(size * 2, bpos + |s| + 8);
        var t := new char[newSize](i requires 0 <= i reads this, buf => if i < buf.Length then buf[i] else '\0');
        assert t[..bpos] == buf[..bpos];
        size := newSize;
        buf := t;
      }
      forall i | 0 <= i < |s| { buf[bpos + i] := s[i]; }
      assert buf[..bpos + |s|] == old(Contents()) + s;
      bpos := bpos + |s|;
      buf[bpos] := '\0';
    }

    /** json_escape_str: runs of plain characters are appended in one piece. */
    method EscapeStr(str: string)
      requires Valid() && Escapable(str)
      modifies this, buf
      ensures Valid() && (buf == old(buf) || fresh(buf))
      ensures Contents() == old(Contents()) + Escape(str)
      ensures str != [] ==> buf[bpos] == '\0'
    {
      var pos, startOffset, len: int := 0, 0, |str|;
      ghost var was := Contents();
      while len > 0
        invariant 0 <= startOffset <= pos == |str| - len <= |str|
        invariant Valid() && (buf == old(buf) || fresh(buf))
        invariant Contents() == was + Escape(str[..startOffset])
        invariant startOffset > 0 ==> buf[bpos] == '\0'
        invariant PlainRun(str, startOffset, pos)
      {
        len := len - 1;
        var c := str[pos];
        match EscapeLetter(c) {
          case Some(e) =>
            AppendEscaped(str, startOffset, pos, e, was);
            pos := pos + 1;
            startOffset := pos;
          case None =>
            pos := pos + 1;
        }
      }
      EscapesRun(str, startOffset, pos);
      AppendRun(str, startOffset, pos);
      assert str[..pos] == str;
    }

    /** The run before a character that is escaped, and its escape. */
    method AppendEscaped(str: string, startOffset: int, pos: int, e: char, ghost was: string)
      requires Valid() && 0 <= startOffset <= pos < |str| && PlainRun(str, startOffset, pos)
      requires EscapeLetter(str[pos]) == Some(e) && Contents() == was + Escape(str[..startOffset])
      modifies this, buf
      ensures Valid() && (buf == old(buf) || fresh(buf)) && buf[bpos] == '\0'
      ensures Contents() == was + Escape(str[..pos + 1])
    {
      AppendRun(str, startOffset, pos);
      MemAppend(['\\', e]);
      Grown(was, str, startOffset, pos, e, Contents());
    }

    /** The run of plain characters so far, if there is one. */
    method AppendRun(str: string, startOffset: int, pos: int)
      requires Valid() && 0 <= startOffset <= pos <= |str|
      modifies this, buf
      ensures Valid() && (buf == old(buf) || fresh(buf))
      ensures Contents() == old(Contents()) + str[startOffset..pos]
      ensures pos > startOffset || old(buf[bpos]) == '\0' ==> buf[bpos] == '\0'
    {
      if pos - startOffset > 0 { MemAppend(str[startOffset..pos]); }
    }
  }

  predicate PlainRun(str: string, a: int, b: int)
    requires 0 <= a <= b <= |str|
  {
    forall i :: a <= i < b ==> EscapeLetter(str[i]).None?
  }

  /** A run of plain characters, escaped, is the run itself. */
  lemma EscapesRun(str: string, a: nat, b: nat)
    requires a <= b <= |str| && PlainRun(str, a, b)
    ensures Escape(str[..b]) == Escape(str[..a]) + str[a..b]
  {
    assert str[..b] == str[..a] + str[a..b];
    EscapeAppend(str[..a], str[a..b]);
    EscapePlain(str[a..b]);
  }

  lemma Grown(was: string, str: string, a: nat, b: nat, e: char, now: string)
    requires a <= b < |str| && PlainRun(str, a, b) && EscapeLetter(str[b]) == Some(e)
    requires now == was + Escape(str[..a]) + str[a..b] + ['\\', e]
    ensures now == was + Escape(str[..b + 1])
  {
    EscapesNext(str, a, b);
  }

  /** The run and the escaped character after it. */
  lemma EscapesNext(str: string, a: nat, b: nat)
    requires a <= b < |str| && PlainRun(str, a, b) && EscapeLetter(str[b]).Some?
    ensures Escape(str[..b + 1]) == Escape(str[..a]) + str[a..b] + ['\\', EscapeLetter(str[b]).value]
  {
    EscapesRun(str, a, b);
    var c := str[b];
    assert str[..b + 1] == str[..b] + [c];
    EscapeAppend(str[..b], [c]);
    assert [c][1..] == [];
    assert Escape([c]) == EscapeChar(c) + [];
  }
}
