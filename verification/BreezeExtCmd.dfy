/** The extended commands (lib_breeze/core/extcmd.c): a list of type-length-value requests is
    answered by a list of responses. */
module BreezeExtCmd {
  import opened BreezeFrame

  const TX_BUFF_LEN := 255    // ALI_EXT_TX_BUFF_LEN

  datatype Tlv = Tlv(kind: byte, value: seq<byte>)

  /** What the handlers answer with: the fields of g_extcmd, the random bytes and the signature as
      they come out, the outcome of a network configuration, and whether type 7 is supported. */
  datatype Info = Info(osInfo: seq<byte>, productKey: seq<byte>, deviceName: seq<byte>, hasSecret: bool,
                       random: seq<byte>, signature: seq<byte>, network: seq<byte> -> bool, secureAdv: bool)

  /** The field limits of the headers. */
  predicate ValidInfo(i: Info) {
    |i.osInfo| <= 26 && |i.productKey| <= 11 && |i.deviceName| <= 32 && |i.random| == 16 && |i.signature| == 32
  }

  /** ext_cmd01_rsp to ext_cmd07_rsp, given enough room: None is an error. */
  function Reply(i: Info, kind: byte, value: seq<byte>): Option<seq<byte>> {
    if kind == 1 then if value == [] then Some(i.osInfo) else None
    else if kind == 2 then if value == [] && i.productKey != [] then Some(i.productKey) else None
    else if kind == 3 then if value == [] && i.deviceName != [] then Some(i.deviceName) else None
    else if kind == 4 then if value == [] && i.hasSecret then Some(i.random) else None
    else if kind == 5 then if value == [] then Some(i.signature) else None
    else if kind == 6 then if |value| >= 2 && i.network(value) then Some([1, 1, 1]) else None
    else if kind == 7 && i.secureAdv then if |value| == 4 then Some([1]) else None
    else None
  }

  /** A handler that may write `room` bytes. */
  function Handle(i: Info, kind: byte, value: seq<byte>, room: int): Option<seq<byte>> {
    match Reply(i, kind, value)
    case Some(r) => if |r| <= room then Some(r) else None
    case None => None
  }

  // ---------- lists of TLVs ----------

  function EncodeOne(t: Tlv): seq<byte>
    requires |t.value| < 256
  {
    [t.kind, |t.value|] + t.value
  }

  function Encode(ts: seq<Tlv>): seq<byte>
    requires forall k :: 0 <= k < |ts| ==> |ts[k].value| < 256
  {
    if ts == [] then [] else EncodeOne(ts[0]) + Encode(ts[1..])
  }

  function Decode(data: seq<byte>): (r: Option<seq<Tlv>>)
    ensures r.Some? ==> forall k :: 0 <= k < |r.value| ==> |r.value[k].value| < 256
    decreases |data|
  {
    if data == [] then Some([])
    else if |data| < 2 || data[1] > |data| - 2 then None
    else
      match Decode(data[2 + data[1]..])
      case Some(ts) => Some([Tlv(data[0], data[2..2 + data[1]])] + ts)
      case None => None
  }

  /** Reading a list of TLVs gives back what was written. */
  lemma {:induction false} DecodeEncode(ts: seq<Tlv>)
    requires forall k :: 0 <= k < |ts| ==> |ts[k].value| < 256
    ensures Decode(Encode(ts)) == Some(ts)
    decreases |ts|
  {
    if ts != [] {
      var t, rest := ts[0], Encode(ts[1..]);
      DecodeEncode(ts[1..]);
      var data := EncodeOne(t) + rest;
      assert data[0] == t.kind && data[1] == |t.value|;
      assert data[2..2 + |t.value|] == t.value && data[2 + |t.value|..] == rest;
      assert ts == [t] + ts[1..];
    }
  }

  // ---------- what the answer should be ----------

  /** No type is requested twice. */
  predicate Distinct(ts: seq<Tlv>, seen: set<int>) {
    ts == [] || (ts[0].kind !in seen && Distinct(ts[1..], seen + {ts[0].kind}))
  }

  /** The reply to each request, under the request's type. */
  function Answers(i: Info, ts: seq<Tlv>): (r: Option<seq<Tlv>>)
    ensures r.Some? ==> |r.value| == |ts| && forall k :: 0 <= k < |ts| ==> AnswersAt(i, ts[k], r.value[k])
  {
    if ts == [] then Some([])
    else
      match (Reply(i, ts[0].kind, ts[0].value), Answers(i, ts[1..]))
      case (Some(r), Some(rs)) => Some([Tlv(ts[0].kind, r)] + rs)
      case (_, _) => None
  }

  predicate AnswersAt(i: Info, request: Tlv, response: Tlv) {
    response.kind == request.kind && Reply(i, request.kind, request.value) == Some(response.value)
  }

  lemma ReplyFits(i: Info, kind: byte, value: seq<byte>)
    requires ValidInfo(i)
    ensures match Reply(i, kind, value) case Some(r) => |r| <= MaxReply(kind) case None => true
  {
  }

  /** The longest reply to a type. */
  function MaxReply(kind: int): nat {
    if kind == 1 then 26 else if kind == 2 then 11 else if kind == 3 then 32 else if kind == 4 then 16
    else if kind == 5 then 32 else if kind == 6 then 3 else if kind == 7 then 1 else 0
  }

  /** The reply to the first TLV of a request, and that TLV's length. */
  datatype First = First(kind: byte, reply: seq<byte>, size: nat)

  function Head(i: Info, data: seq<byte>, seen: set<int>): (r: Option<First>)
    requires ValidInfo(i) && data != []
    ensures r.Some? ==> 2 <= r.value.size <= |data| && 1 <= r.value.kind <= 7 && |r.value.reply| <= MaxReply(r.value.kind)
  {
    if |data| < 2 || data[0] in seen || data[1] > |data| - 2 then None
    else
      match Reply(i, data[0], data[2..2 + data[1]])
      case Some(r) => ReplyFits(i, data[0], data[2..2 + data[1]]); Some(First(data[0], r, data[1] as int + 2))
      case None => None
  }

  /** The answer to the rest of a request, some types having been requested before. */
  function Respond(i: Info, data: seq<byte>, seen: set<int>): (r: Option<seq<byte>>)
    requires ValidInfo(i)
    decreases |data|
  {
    if data == [] then Some([])
    else
      match Head(i, data, seen)
      case None => None
      case Some(h) =>
        match Respond(i, data[h.size..], seen + {h.kind})
        case Some(rest) => Some(EncodeOne(Tlv(h.kind, h.reply)) + rest)
        case None => None
  }

  /** What the answer to a list of requests should be: it is given exactly if they are of
      different types and there is a reply to each; and it is the list of these replies. */
  predicate Meant(i: Info, ts: seq<Tlv>, seen: set<int>, answer: Option<seq<byte>>) {
    (answer.Some? <==> Distinct(ts, seen) && Answers(i, ts).Some?)
    && (answer.Some? ==> EncodesTo(Answers(i, ts).value, answer.value))
  }

  predicate EncodesTo(ts: seq<Tlv>, bytes: seq<byte>) {
    (forall k :: 0 <= k < |ts| ==> |ts[k].value| < 256) && bytes == Encode(ts)
  }

  lemma EncodesNext(t: Tlv, ts: seq<Tlv>, bytes: seq<byte>)
    requires |t.value| < 256 && EncodesTo(ts, bytes)
    ensures EncodesTo([t] + ts, EncodeOne(t) + bytes)
  {
    assert ([t] + ts)[1..] == ts;
  }

  /** The answer to a request and to those after it. */
  function Joined(i: Info, t: Tlv, seen: set<int>, rest: Option<seq<byte>>): Option<seq<byte>>
    requires ValidInfo(i)
  {
    ReplyFits(i, t.kind, t.value);
    match (Reply(i, t.kind, t.value), rest)
    case (Some(r), Some(bytes)) => if t.kind in seen then None else Some(EncodeOne(Tlv(t.kind, r)) + bytes)
    case (_, _) => None
  }

  lemma AnswersNext(i: Info, t: Tlv, ts: seq<Tlv>, seen: set<int>)
    requires ValidInfo(i)
    ensures Distinct([t] + ts, seen) <==> t.kind !in seen && Distinct(ts, seen + {t.kind})
    ensures match (Reply(i, t.kind, t.value), Answers(i, ts))
            case (Some(r), Some(rs)) => |r| < 256 && Answers(i, [t] + ts) == Some([Tlv(t.kind, r)] + rs)
            case (_, _) => Answers(i, [t] + ts) == None
  {
    assert ([t] + ts)[1..] == ts;
    ReplyFits(i, t.kind, t.value);
  }

  lemma MeantNext(i: Info, t: Tlv, ts: seq<Tlv>, seen: set<int>, rest: Option<seq<byte>>)
    requires ValidInfo(i) && Meant(i, ts, seen + {t.kind}, rest)
    ensures Meant(i, [t] + ts, seen, Joined(i, t, seen, rest))
  {
    AnswersNext(i, t, ts, seen);
    var answer := Joined(i, t, seen, rest);
    assert answer.Some? <==> Distinct([t] + ts, seen) && Answers(i, [t] + ts).Some?;
    if answer.Some? {
      EncodesNext(Tlv(t.kind, Reply(i, t.kind, t.value).value), Answers(i, ts).value, rest.value);
    }
  }

  lemma RespondNext(i: Info, data: seq<byte>, seen: set<int>, t: Tlv, rest: seq<byte>)
    requires ValidInfo(i) && |data| >= 2 && data[1] <= |data| - 2
    requires t == Tlv(data[0], data[2..2 + data[1]]) && rest == data[2 + data[1]..]
    ensures Respond(i, data, seen) == Joined(i, t, seen, Respond(i, rest, seen + {t.kind}))
    ensures Decode(data) == match Decode(rest) case Some(ts) => Some([t] + ts) case None => None
  {
  }

  /** The same for data that may not be such a list. */
  predicate MeantFor(i: Info, ts: Option<seq<Tlv>>, seen: set<int>, answer: Option<seq<byte>>) {
    if ts.Some? then Meant(i, ts.value, seen, answer) else answer.None?
  }

  lemma RespondToNone(i: Info, data: seq<byte>, seen: set<int>)
    requires ValidInfo(i) && (data == [] || |data| < 2 || data[1] > |data| - 2)
    ensures MeantFor(i, Decode(data), seen, Respond(i, data, seen))
  {
  }

  lemma MeantForNext(i: Info, t: Tlv, ts: Option<seq<Tlv>>, seen: set<int>, rest: Option<seq<byte>>)
    requires ValidInfo(i) && MeantFor(i, ts, seen + {t.kind}, rest)
    ensures MeantFor(i, match ts case Some(l) => Some([t] + l) case None => None, seen, Joined(i, t, seen, rest))
  {
    if ts.Some? { MeantNext(i, t, ts.value, seen, rest); }
  }

  lemma {:induction false} RespondMeant(i: Info, data: seq<byte>, seen: set<int>)
    requires ValidInfo(i)
    ensures MeantFor(i, Decode(data), seen, Respond(i, data, seen))
    decreases |data|
  {
    if data == [] || |data| < 2 || data[1] > |data| - 2 {
      RespondToNone(i, data, seen);
    } else {
      var t, rest := Tlv(data[0], data[2..2 + data[1]]), data[2 + data[1]..];
      RespondMeant(i, rest, seen + {t.kind});
      RespondNext(i, data, seen, t, rest);
      MeantForNext(i, t, Decode(rest), seen, Respond(i, rest, seen + {t.kind}));
    }
  }

  /** A request is answered exactly if it is a list of TLVs of different types to all of which
      there is a reply; and then by the list of these replies, in order and under the same types. */
  lemma RespondMeaning(i: Info, data: seq<byte>, seen: set<int>)
    requires ValidInfo(i)
    ensures Respond(i, data, seen).Some? <==>
              Decode(data).Some? && Distinct(Decode(data).value, seen) && Answers(i, Decode(data).value).Some?
    ensures Respond(i, data, seen).Some? ==>
              var rs := Answers(i, Decode(data).value).value;
              (forall k :: 0 <= k < |rs| ==> |rs[k].value| < 256) && Respond(i, data, seen).value == Encode(rs)
  {
    RespondMeant(i, data, seen);
  }

  // ---------- the size of the answer ----------

  function Share(seen: set<int>, kind: int): nat {
    if kind in seen then 2 + MaxReply(kind) else 0
  }

  /** The most that replies to these types can take. */
  function Budget(seen: set<int>): nat {
    Share(seen, 1) + Share(seen, 2) + Share(seen, 3) + Share(seen, 4) + Share(seen, 5) + Share(seen, 6) + Share(seen, 7)
  }

  lemma BudgetGrows(seen: set<int>, kind: int)
    requires 1 <= kind <= 7 && kind !in seen
    ensures Budget(seen + {kind}) == Budget(seen) + 2 + MaxReply(kind)
  {
    assert forall k: int :: k != kind ==> Share(seen + {kind}, k) == Share(seen, k);
  }

  /** Each type is answered at most once, so an answer takes at most 135 bytes. */
  lemma {:induction false} RespondFits(i: Info, data: seq<byte>, seen: set<int>)
    requires ValidInfo(i) && Respond(i, data, seen).Some?
    ensures Budget(seen) + |Respond(i, data, seen).value| <= 135
    decreases |data|
  {
    if data == [] {
      BudgetBound(seen);
    } else {
      var h := Head(i, data, seen).value;
      BudgetGrows(seen, h.kind);
      RespondFits(i, data[h.size..], seen + {h.kind});
    }
  }

  lemma BudgetBound(seen: set<int>)
    ensures Budget(seen) <= 135
  {
  }

  // ---------- the mask of types ----------

  /** (uint8_t)(1 << type), for types below 32 */
  function Bit(kind: int): bv8 {
    if kind == 0 then 0x01 else if kind == 1 then 0x02 else if kind == 2 then 0x04 else if kind == 3 then 0x08
    else if kind == 4 then 0x10 else if kind == 5 then 0x20 else if kind == 6 then 0x40 else if kind == 7 then 0x80
    else 0
  }

  predicate Masked(mask: bv8, kind: int) {
    mask & Bit(kind) != 0
  }

  lemma MaskBit(mask: bv8, kind: int, other: int)
    requires 0 <= kind < 8 && 0 <= other < 8
    ensures Masked(mask | Bit(kind), other) <==> other == kind || Masked(mask, other)
  {
  }

  /** The mask knows the supported types among those that were seen. */
  predicate Tracks(mask: bv8, seen: set<int>) {
    forall k :: 0 <= k < 8 ==> (Masked(mask, k) <==> k in seen)
  }

  lemma TracksNext(mask: bv8, seen: set<int>, kind: int)
    requires Tracks(mask, seen) && 0 <= kind < 8
    ensures Tracks(mask | Bit(kind), seen + {kind})
  {
    forall k | 0 <= k < 8 ensures Masked(mask | Bit(kind), k) <==> k in seen + {kind} { MaskBit(mask, kind, k); }
  }

  // ---------- the command handler as it stands in memory ----------

  class ExtCmd {
    const info: Info
    const txBuff: array<byte>

    ghost predicate Valid() {
      ValidInfo(info) && txBuff.Length == TX_BUFF_LEN
    }

    constructor (info: Info)
      requires ValidInfo(info)
      ensures Valid() && this.info == info && fresh(txBuff)
    {
      this.info := info;
      txBuff := new byte[TX_BUFF_LEN];
    }

    /** One reply into the buffer at `at`. */
    method PutReply(at: nat, kind: byte, reply: seq<byte>)
      requires Valid() && at + 2 + |reply| <= TX_BUFF_LEN && |reply| < 256
      modifies txBuff
      ensures txBuff[..at + 2 + |reply|] == old(txBuff[..at]) + EncodeOne(Tlv(kind, reply))
    {
      ghost var front := txBuff[..at];
      forall k | 0 <= k < |reply| { txBuff[at + 2 + k] := reply[k]; }
      txBuff[at] := kind;
      txBuff[at + 1] := |reply|;
      assert txBuff[..at + 2 + |reply|] == front + EncodeOne(Tlv(kind, reply));
    }

    /** What the loop keeps: the mask and the room left go with the types seen so far. */
    ghost predicate InLoop(seen: set<int>, mask: bv8, avail: nat) {
      Tracks(mask, seen) && avail <= TX_BUFF_LEN <= Budget(seen) + avail && forall k :: k in seen ==> 1 <= k <= 7
    }

    /** The first request of the rest: its type is marked as seen, and its reply made. */
    method ReplyToOne(rest: seq<byte>, mask: bv8, avail: nat, ghost seen: set<int>)
      returns (ok: bool, size: nat, mask': bv8, kind: byte, reply: seq<byte>)
      requires Valid() && rest != [] && InLoop(seen, mask, avail)
      ensures ok <==> Head(info, rest, seen).Some?
      ensures ok ==> Head(info, rest, seen) == Some(First(kind, reply, size)) && 2 + |reply| <= avail
      ensures ok ==> InLoop(seen + {kind as int}, mask', avail - (2 + |reply|))
    {
      ok, size, mask', kind, reply := false, 0, mask, 0, [];
      if |rest| < 2 { return; }
      var tlvType, tlvLen := rest[0], rest[1];
      MaskedSeen(seen, mask, tlvType);
      if Masked(mask, tlvType) { return; }
      mask' := mask | Bit(tlvType);
      BudgetBound(seen);
      if tlvLen > |rest| - 2 { return; }
      if avail < 2 { return; }
      var value := rest[2..2 + tlvLen];
      ReplyFits(info, tlvType, value);
      var handled := Handle(info, tlvType, value, avail - 2);
      if handled.None? { return; }
      LoopNext(seen, mask, avail, tlvType, handled.value);
      ok, size, kind, reply := true, 2 + tlvLen, tlvType, handled.value;
    }

    lemma LoopNext(seen: set<int>, mask: bv8, avail: nat, kind: byte, reply: seq<byte>)
      requires InLoop(seen, mask, avail) && 1 <= kind <= 7 && kind as int !in seen
      requires |reply| <= MaxReply(kind) && 2 + |reply| <= avail
      ensures InLoop(seen + {kind as int}, mask | Bit(kind), avail - (2 + |reply|))
    {
      TracksNext(mask, seen, kind);
      BudgetGrows(seen, kind);
    }

    /** One round of the loop, on the request's rest. */
    method AnswerOne(rest: seq<byte>, mask: bv8, avail: nat, ghost seen: set<int>)
      returns (ok: bool, size: nat, mask': bv8, avail': nat, ghost kind: int)
      requires Valid() && rest != [] && InLoop(seen, mask, avail)
      modifies txBuff
      ensures ok <==> Head(info, rest, seen).Some?
      ensures ok ==>
                var h := Head(info, rest, seen).value;
                size == h.size && kind == h.kind && avail' == avail - (2 + |h.reply|) && InLoop(seen + {kind}, mask', avail')
                && txBuff[..TX_BUFF_LEN - avail'] == old(txBuff[..TX_BUFF_LEN - avail]) + EncodeOne(Tlv(h.kind, h.reply))
    {
      avail', kind := avail, 0;
      var tlvType, reply;
      ok, size, mask', tlvType, reply := ReplyToOne(rest, mask, avail, seen);
      if !ok { return; }
      PutReply(TX_BUFF_LEN - avail, tlvType, reply);
      avail', kind := avail - (2 + |reply|), tlvType;
    }

    lemma MaskedSeen(seen: set<int>, mask: bv8, kind: byte)
      requires Tracks(mask, seen) && forall k :: k in seen ==> 1 <= k <= 7
      ensures Masked(mask, kind) <==> (kind as int) in seen
    {
      if kind >= 8 { assert Bit(kind) == 0; }
    }

    /** The loop of extcmd_rx_command, for a session that is authenticated: the reply is put
        together exactly as it should be, and there is always room for it. */
    method Answer(data: seq<byte>) returns (ok: bool, avail: nat)
      requires Valid()
      modifies txBuff
      ensures ok <==> Respond(info, data, {}).Some?
      ensures ok ==> avail <= 255 && txBuff.Length == 255 && txBuff[..255 - avail] == Respond(info, data, {}).value
    {
      var mask: bv8 := 0;
      var at, size := 0, 0;
      ok, avail := true, TX_BUFF_LEN;
      ghost var seen: set<int>, kind: int := {}, 0;
      assert data[0..] == data && txBuff[..0] == [];
      ghost var all := Respond(info, data, {});
      assert all.Some? ==> [] + all.value == all.value;
      while at < |data| && ok
        invariant 0 <= at <= |data| && InLoop(seen, mask, avail)
        invariant ok
        invariant Continues(Respond(info, data, {}), txBuff[..TX_BUFF_LEN - avail], Respond(info, data[at..], seen))
        decreases |data| - at
      {
        ghost var written, rest := txBuff[..TX_BUFF_LEN - avail], data[at..];
        ghost var before := avail;
        ok, size, mask, avail, kind := AnswerOne(data[at..], mask, avail, seen);
        if !ok { break; }
        ContinuesNext(info, data, written, rest, seen);
        seen := seen + {kind};
        at := at + size;
        assert rest[size..] == data[at..];
      }
      if ok { assert data[at..] == []; }
    }

    /** extcmd_rx_command: the message that is sent back, if any. */
    method RxCommand(cmd: byte, data: seq<byte>, authDone: bool) returns (sent: Option<(byte, seq<byte>)>)
      requires Valid()
      modifies txBuff
      ensures sent == Answered(info, cmd, data, authDone)
    {
      if |data| == 0 || cmd != BZ_CMD_EXT_DOWN { return None; }
      var ok, avail := false, TX_BUFF_LEN;
      if authDone { ok, avail := Answer(data); }
      if ok {
        return Some((BZ_CMD_EXT_UP, txBuff[..TX_BUFF_LEN - avail]));
      } else {
        return Some((BZ_CMD_ERR, []));
      }
    }
  }

  /** The whole answer is what was written and the answer to the rest. */
  predicate Continues(whole: Option<seq<byte>>, written: seq<byte>, rest: Option<seq<byte>>) {
    match rest
    case Some(r) => whole == Some(written + r)
    case None => whole.None?
  }

  lemma ContinuesNext(i: Info, data: seq<byte>, written: seq<byte>, rest: seq<byte>, seen: set<int>)
    requires ValidInfo(i) && rest != [] && Head(i, rest, seen).Some?
    requires Continues(Respond(i, data, {}), written, Respond(i, rest, seen))
    ensures var h := Head(i, rest, seen).value;
            Continues(Respond(i, data, {}), written + EncodeOne(Tlv(h.kind, h.reply)), Respond(i, rest[h.size..], seen + {h.kind}))
  {
    var h := Head(i, rest, seen).value;
    var more := Respond(i, rest[h.size..], seen + {h.kind});
    if more.Some? {
      assert written + (EncodeOne(Tlv(h.kind, h.reply)) + more.value) == written + EncodeOne(Tlv(h.kind, h.reply)) + more.value;
    }
  }

  /** The reply to a message: an error unless the session is authenticated and every request can
      be answered. */
  function Answered(i: Info, cmd: byte, data: seq<byte>, authDone: bool): Option<(byte, seq<byte>)>
    requires ValidInfo(i)
  {
    if data == [] || cmd != BZ_CMD_EXT_DOWN then None
    else if authDone && Respond(i, data, {}).Some? then Some((BZ_CMD_EXT_UP, Respond(i, data, {}).value))
    else Some((BZ_CMD_ERR, []))
  }

  /** Every successful response is a list of TLVs that echoes the request's types in order, and
      of at most 135 bytes, so that it fits the transport's messages. */
  lemma ResponseBound(i: Info, data: seq<byte>, authDone: bool)
    requires ValidInfo(i) && data != [] && Answered(i, BZ_CMD_EXT_DOWN, data, authDone).value.0 == BZ_CMD_EXT_UP
    ensures var response := Answered(i, BZ_CMD_EXT_DOWN, data, authDone).value.1;
            |response| <= 135 && Decode(data).Some? && Decode(response).Some?
            && |Decode(response).value| == |Decode(data).value|
            && forall k :: 0 <= k < |Decode(data).value| ==> AnswersAt(i, Decode(data).value[k], Decode(response).value[k])
  {
    RespondMeaning(i, data, {});
    RespondFits(i, data, {});
    DecodeEncode(Answers(i, Decode(data).value).value);
  }

  // ---------- who is answered, and with what ----------

  /** No two requests have one type. */
  predicate DifferentTypes(ts: seq<Tlv>) {
    forall j, k :: 0 <= j < k < |ts| ==> ts[j].kind != ts[k].kind
  }

  /** Each has a reply. */
  predicate AllReplied(i: Info, ts: seq<Tlv>) {
    forall k :: 0 <= k < |ts| ==> Reply(i, ts[k].kind, ts[k].value).Some?
  }

  lemma {:induction false} DistinctMeans(ts: seq<Tlv>, seen: set<int>)
    ensures Distinct(ts, seen) <==> DifferentTypes(ts) && forall k :: 0 <= k < |ts| ==> ts[k].kind !in seen
  {
    if ts != [] {
      var t, rest := ts[0], ts[1..];
      DistinctMeans(rest, seen + {t.kind});
      if Distinct(ts, seen) {
        forall j, k | 0 <= j < k < |ts| ensures ts[j].kind != ts[k].kind { assert rest[k - 1] == ts[k]; }
        forall k | 0 <= k < |ts| ensures ts[k].kind !in seen { if k > 0 { assert rest[k - 1] == ts[k]; } }
      }
      if DifferentTypes(ts) && forall k :: 0 <= k < |ts| ==> ts[k].kind !in seen {
        forall k | 0 <= k < |rest| ensures rest[k].kind !in seen + {t.kind} { assert rest[k] == ts[k + 1]; }
      }
    }
  }

  lemma {:induction false} AnswersExist(i: Info, ts: seq<Tlv>)
    ensures Answers(i, ts).Some? <==> AllReplied(i, ts)
  {
    if ts != [] {
      var rest := ts[1..];
      AnswersExist(i, rest);
      if AllReplied(i, ts) {
        forall k | 0 <= k < |rest| ensures Reply(i, rest[k].kind, rest[k].value).Some? { assert rest[k] == ts[k + 1]; }
      }
      if Reply(i, ts[0].kind, ts[0].value).Some? && AllReplied(i, rest) {
        forall k | 0 <= k < |ts| ensures Reply(i, ts[k].kind, ts[k].value).Some? { if k > 0 { assert ts[k] == rest[k - 1]; } }
      }
    }
  }

  /** A message is sent back exactly to a request with data. It is an answer exactly if the session
      is authenticated and the data are a list of TLVs of different types that all have a reply; and
      else an error that says nothing. */
  lemma {:induction false} AnsweredIff(i: Info, cmd: byte, data: seq<byte>, authDone: bool)
    requires ValidInfo(i)
    ensures var sent := Answered(i, cmd, data, authDone);
            && (sent.Some? <==> data != [] && cmd == BZ_CMD_EXT_DOWN)
            && (sent.Some? ==>
                 (sent.value.0 == BZ_CMD_EXT_UP <==>
                    authDone && Decode(data).Some? && DifferentTypes(Decode(data).value) && AllReplied(i, Decode(data).value)))
            && (sent.Some? && sent.value.0 != BZ_CMD_EXT_UP ==> sent.value == (BZ_CMD_ERR, []))
  {
    RespondMeaning(i, data, {});
    if Decode(data).Some? {
      DistinctMeans(Decode(data).value, {});
      AnswersExist(i, Decode(data).value);
    }
  }

  /** Without authentication nothing of the device comes out: whatever it holds, the answer is the
      same. */
  lemma {:induction false} NothingUnlessAuthenticated(i: Info, other: Info, cmd: byte, data: seq<byte>)
    requires ValidInfo(i) && ValidInfo(other)
    ensures Answered(i, cmd, data, false) == Answered(other, cmd, data, false)
    ensures Answered(i, cmd, data, false).Some? ==> Answered(i, cmd, data, false).value == (BZ_CMD_ERR, [])
  {
    AnsweredIff(i, cmd, data, false);
    AnsweredIff(other, cmd, data, false);
  }

  /** What each type of request is answered with, when it is. */
  lemma ReplyMeaning(i: Info, kind: byte, value: seq<byte>)
    ensures kind in {1, 2, 3, 4, 5} && value != [] ==> Reply(i, kind, value) == None
    ensures Reply(i, 1, []) == Some(i.osInfo) && Reply(i, 5, []) == Some(i.signature)
    ensures Reply(i, 2, []) == (if |i.productKey| == 0 then None else Some(i.productKey))
    ensures Reply(i, 3, []) == (if |i.deviceName| == 0 then None else Some(i.deviceName))
    ensures Reply(i, 4, []) == (if i.hasSecret then Some(i.random) else None)
    ensures Reply(i, 6, value).Some? <==> |value| >= 2 && i.network(value)
    ensures Reply(i, 7, value).Some? <==> |value| == 4 && i.secureAdv
    ensures Reply(i, 6, value).Some? ==> Reply(i, 6, value).value == [1, 1, 1]
    ensures Reply(i, 7, value).Some? ==> Reply(i, 7, value).value == [1]
    ensures kind == 0 || kind > 7 ==> Reply(i, kind, value) == None
  {
  }

  /** So a request for the product key, authenticated or not. */
  lemma {:induction false} ProductKeyRequest(i: Info, authDone: bool)
    requires ValidInfo(i) && i.productKey != []
    ensures Answered(i, BZ_CMD_EXT_DOWN, [2, 0], authDone)
         == Some(if authDone then (BZ_CMD_EXT_UP, [2, |i.productKey|] + i.productKey) else (BZ_CMD_ERR, []))
  {
    assert [2, 0][2..] == [] && [2, 0][2..2] == [];
    var key := i.productKey;
    assert Head(i, [2, 0], {}) == Some(First(2, key, 2));
    assert EncodeOne(Tlv(2, key)) + [] == [2, |key|] + key;
  }
}
