/** The generator of lib_jsmn/json_generator.c in its own form: a caller's buffer that is filled
    in place from free_ptr on, proved against the texts of JsonText. */
module JsonGenerator {
  import opened JsonEscape
  import opened JsonText

  predicate NulFree(s: string) {
    forall i :: 0 <= i < |s| ==> s[i] != '\0'
  }

  /** The C strings that a call may be given. A string value of an object is escaped, so it must
      be one that the escaper covers. */
  predicate Printable(op: Op) {
    && (NameOf(op).Some? ==> NulFree(NameOf(op).value))
    && (op.SetStr? ==> Escapable(op.str))
    && (op.ArrayStr? ==> NulFree(op.str))
  }

  lemma {:induction false} EscapeNulFree(s: string)
    requires Escapable(s)
    ensures NulFree(Escape(s))
  {
    if s != [] { EscapeNulFree(s[1..]); }
  }

  lemma KeyNulFree(name: string, text: string)
    requires NulFree(name) && NulFree(text)
    ensures NulFree(Key(name) + text)
  {
  }

  lemma BodyNulFree(op: Op)
    requires Printable(op)
    ensures NulFree(Body(op))
  {
    if op.SetStr? { EscapeNulFree(op.str); }
  }

  lemma PieceNulFree(op: Op)
    requires Printable(op)
    ensures NulFree(Piece(op))
  {
    BodyNulFree(op);
    if NameOf(op).Some? { KeyNulFree(NameOf(op).value, Body(op)); }
  }

  /** snprintf(&buff[at], size, ...) of a text that is already formatted: as much of it as fits
      with a terminator. */
  method Snprintf(buff: array<char>, at: nat, size: nat, text: string)
    requires at + size <= buff.Length && size > 0
    modifies buff
    ensures var n := if |text| < size then |text| else size - 1;
            buff[..] == old(buff[..at]) + text[..n] + ['\0'] + old(buff[at + n + 1..])
  {
    var n := if |text| < size then |text| else size - 1;
    forall i | 0 <= i < n { buff[at + i] := text[i]; }
    buff[at + n] := '\0';
  }

  /** strlen */
  method Strlen(buff: array<char>, ghost n: nat) returns (r: nat)
    requires n < buff.Length && buff[n] == '\0' && NulFree(buff[..n])
    ensures r == n
  {
    r := 0;
    while buff[r] != '\0'
      invariant r <= n
      decreases n - r
    {
      assert r < n ==> buff[r] == buff[..n][r];
      r := r + 1;
    }
    if r < n { StrlenStops(buff[..n], r); }
  }

  lemma StrlenStops(s: string, r: nat)
    requires NulFree(s) && r < |s|
    ensures s[r] != '\0'
  {
  }

  lemma EmitParts(was: string, front: string, last: char, op: Op)
    requires last == LastChar(was) && front == if NeedsComma(last, op) then was + [','] else was
    ensures Emit(was, op) == front + Piece(op)
  {
  }

  class JsonStr {
    var buff: array<char>
    var len: int
    var freePtr: int    // where the NUL currently is; writing starts here

    /** The text is free of NULs and does not begin with a space, and the rest of the buffer is
        NULs. */
    ghost predicate Valid()
      reads this, buff
    {
      && 0 <= freePtr <= len == buff.Length
      && NulFree(buff[..freePtr]) && (freePtr > 0 ==> buff[0] > ' ')
      && forall i :: freePtr <= i < len ==> buff[i] == '\0'
    }

    ghost function Text(): string
      requires Valid()
      reads this, buff
    {
      buff[..freePtr]
    }

    /** A document was started: the text begins with its brace. */
    ghost predicate Started()
      requires Valid()
      reads this, buff
    {
      IsStarted(Text())
    }

    /** The source may make the call: on an empty text it looks at characters outside the buffer,
        unless the call puts a brace or closes an array, or a full buffer is noticed first. */
    ghost predicate Callable(op: Op)
      requires Valid()
      reads this, buff
    {
      Text() != [] || op.StartObject? || op.CloseObject? || op.CloseArray? || (Full() && !ChecksStart(op))
    }

    /** json_str_init */
    constructor (buff: array<char>)
      modifies buff
      ensures Valid() && this.buff == buff && Text() == []
    {
      this.buff, this.len, this.freePtr := buff, buff.Length, 0;
      forall i | 0 <= i < buff.Length { buff[i] := '\0'; }
    }

    /** verify_buffer_limit */
    predicate Full()
      reads this
    {
      freePtr >= len - 1
    }

    /** rev_skip from the last character of the text */
    method RevSkip() returns (c: char)
      requires Valid() && freePtr > 0
      ensures c == LastChar(Text())
    {
      var i := freePtr - 1;
      while buff[i] <= ' '
        invariant 0 <= i < freePtr && LastChar(buff[..i + 1]) == LastChar(Text())
        decreases i
      {
        assert buff[..i + 1][..i] == buff[..i];
        i := i - 1;
      }
      c := buff[i];
    }

    /** buff[free_ptr++] = c */
    method PutChar(c: char)
      requires Valid() && freePtr < len && c > ' '
      modifies this`freePtr, buff
      ensures Valid() && Text() == old(Text()) + [c] && freePtr == old(freePtr) + 1
    {
      buff[freePtr] := c;
      freePtr := freePtr + 1;
      assert buff[..freePtr] == old(Text()) + [c];
    }

    /** snprintf at free_ptr, then free_ptr = strlen(buff) */
    method PutText(text: string)
      requires Valid() && 0 < freePtr < len && NulFree(text)
      modifies this`freePtr, buff
      ensures Valid() && Text() == Cut(old(Text()) + text, len - 1)
    {
      ghost var n := if |text| < len - freePtr then |text| else len - freePtr - 1;
      ghost var was := Text();
      Snprintf(buff, freePtr, len - freePtr, text);
      ghost var all := buff[..];
      assert buff[..freePtr + n] == was + text[..n];
      freePtr := Strlen(buff, freePtr + n);
    }

    /** The calls that append one bracket: json_start_object, json_close_object, json_start_array,
        json_close_array, json_pop_array_object. */
    method Bracket(op: Op) returns (status: Status)
      requires Valid() && IsBracket(op) && Callable(op)
      modifies this`freePtr, buff
      ensures Valid() && (status, Text()) == Outcome(old(Text()), op, len)
    {
      if Full() { return Overflow; }
      PutBracket(op);
      return Done;
    }

    /** The bracket, after a comma if one is due. */
    method PutBracket(op: Op)
      requires Valid() && IsBracket(op) && !Full() && (freePtr > 0 || !op.StartArray?)
      modifies this`freePtr, buff
      ensures Valid() && Apply(old(Text()), op, len) == (Done, Text())
    {
      ghost var was := Text();
      if freePtr > 0 && (op.StartObject? || op.StartArray?) {
        var last := RevSkip();
        if last == (if op.StartObject? then '}' else ']') { PutChar(','); }
      }
      ghost var front := Text();
      PutChar(Body(op)[0]);
      EmitParts(was, front, LastChar(was), op);
    }

    /** The calls that print with snprintf: json_push_object, json_push_array_object,
        json_set_object_value and json_set_array_value. The last two look for the start of a
        document first (WM_E_JSON_INVSTART). */
    method Print(op: Op) returns (status: Status)
      requires Valid() && !IsBracket(op) && Callable(op) && Printable(op)
      modifies this`freePtr, buff
      ensures Valid() && (status, Text()) == Outcome(old(Text()), op, len)
    {
      if ChecksStart(op) {
        var started := VerifyStart();
        if !started { return StartError(op); }
      }
      if Full() { return Overflow; }
      PutPiece(op);
      return Done;
    }

    /** verify_json_start, on a text that does not begin with a space */
    method VerifyStart() returns (started: bool)
      requires Valid() && freePtr > 0
      ensures started == IsStarted(Text())
    {
      started := buff[0] == '{';
    }

    /** What such a call prints, after a comma if one is due. */
    method PutPiece(op: Op)
      requires Valid() && !IsBracket(op) && !Full() && freePtr > 0 && Printable(op)
      modifies this`freePtr, buff
      ensures Valid() && Apply(old(Text()), op, len) == (Done, Text())
    {
      var last := RevSkip();
      PieceNulFree(op);
      var text := Format(op);
      EmitParts(Text(), if NeedsComma(last, op) then Text() + [','] else Text(), last, op);
      PutItem(NeedsComma(last, op), text);
    }

    /** A comma, if one is due, and the text. */
    method PutItem(comma: bool, text: string)
      requires Valid() && freePtr > 0 && !Full() && NulFree(text)
      modifies this`freePtr, buff
      ensures Valid() && Text() == Cut((if comma then old(Text()) + [','] else old(Text())) + text, len - 1)
    {
      if comma { PutChar(','); }
      PutText(text);
    }

    /** The format strings; a non-empty string value of an object goes through the escaper. */
    method Format(op: Op) returns (text: string)
      requires !IsBracket(op) && Printable(op)
      ensures text == Piece(op)
    {
      if op.SetStr? {
        var escaped := "";
        if op.str != [] {
          var pb := new PrintBuf();
          pb.EscapeStr(op.str);
          escaped := pb.buf[..pb.bpos];
        }
        assert escaped == Escape(op.str);
        text := Key(op.name) + Quoted(escaped);
      } else {
        text := Piece(op);
      }
    }

    /** Any call of the generator. */
    method Call(op: Op) returns (status: Status)
      requires Valid() && Callable(op) && Printable(op)
      modifies this`freePtr, buff
      ensures Valid() && (status, Text()) == Outcome(old(Text()), op, len)
      ensures old(Started()) || (old(Text()) == [] && op.StartObject? && status == Done) ==> Started()
    {
      if IsBracket(op) { status := Bracket(op); } else { status := Print(op); }
      if old(freePtr) > 0 {
        ApplyGrows(old(Text()), op, len);
        assert Text()[0] == old(Text())[0];
      }
    }
  }
}
