/** The receiving half of the transport (lib_breeze/core/transport.c): reassembly of messages from
    packets that may be lost, repeated or reordered. */
module BreezeRx {
  import opened BreezeFrame

  /** The rx fields; `data` is the part of rx.buff that was received. */
  datatype RxState = RxState(msgId: int, cmd: byte, total: int, number: int, data: seq<byte>)

  const FRESH := RxState(0, 0, 0, 0, [])

  datatype Message = Message(msgId: int, cmd: byte, frames: int, data: seq<byte>)

  datatype Source = RxBuffSize | FirstFrame | OtherFrames | FwDataDisc | Encrypted

  datatype Outcome =
    | Nothing                  // an empty packet
    | Refused(source: Source)  // core_handle_err, and the message in progress is given up
    | More                     // stored, and the message goes on
    | Complete(message: Message)

  /** reset_rx: everything but the message id. */
  function Reset(st: RxState): RxState {
    RxState(st.msgId, 0, 0, 0, [])
  }

  /** No frames are left to be received. */
  predicate Idle(st: RxState) {
    st.total == st.number
  }

  /** The packet starts a message, or goes on with the one in progress. */
  predicate InOrder(st: RxState, h: Header) {
    if Idle(st) then h.number == 0
    else st.msgId == h.msgId && st.cmd == h.cmd && st.total == h.total && (st.number + 1) % 16 == h.number
  }

  function OrderSource(st: RxState, h: Header): Source {
    if Idle(st) then FirstFrame
    else if st.msgId == h.msgId && st.cmd == h.cmd && st.total == h.total && st.cmd == BZ_CMD_OTA_DATA then FwDataDisc
    else OtherFrames
  }

  function Begin(st: RxState, h: Header): RxState {
    if Idle(st) then RxState(h.msgId, h.cmd, h.total, 0, []) else st.(number := h.number)
  }

  /** An encrypted packet holds whole blocks, and there is a key for it. */
  predicate Decryptable(p: seq<byte>, key: Option<Cipher>)
    requires |p| >= HEADER_SIZE
  {
    HeaderOf(p).encrypted ==> (|p| - HEADER_SIZE) % AES_BLK_SIZE == 0 && key.Some?
  }

  /** The length in the header is that of the payload, but for padding if it is encrypted. */
  predicate LengthFits(p: seq<byte>)
    requires |p| >= HEADER_SIZE
  {
    if HeaderOf(p).encrypted then HEADER_SIZE + HeaderOf(p).len <= |p| else HEADER_SIZE + HeaderOf(p).len == |p|
  }

  /** The payload in clear, padding included. */
  function Clear(p: seq<byte>, key: Option<Cipher>): (r: seq<byte>)
    requires |p| >= HEADER_SIZE && Decryptable(p, key)
    ensures |r| == |p| - HEADER_SIZE
  {
    if HeaderOf(p).encrypted then Decrypted(key.value, p[HEADER_SIZE..]) else p[HEADER_SIZE..]
  }

  function Min(a: int, b: int): int {
    if a < b then a else b
  }

  /** The bytes that one packet adds to rx.buff, of which `left` are free. */
  function Added(p: seq<byte>, key: Option<Cipher>, left: int): seq<byte>
    requires |p| >= HEADER_SIZE && Decryptable(p, key) && LengthFits(p) && 0 <= left
  {
    Clear(p, key)[..Min(left, HeaderOf(p).len)]
  }

  /** transport_rx on a packet that is empty or has a header. */
  function RxStep(st: RxState, key: Option<Cipher>, p: seq<byte>): (RxState, Outcome)
    requires |p| == 0 || |p| >= HEADER_SIZE
  {
    if |p| == 0 then (st, Nothing)
    else if |p| - HEADER_SIZE + |st.data| > RX_BUFF_LEN then (Reset(st), Refused(RxBuffSize))
    else if !InOrder(st, HeaderOf(p)) then (Reset(st), Refused(OrderSource(st, HeaderOf(p))))
    else
      var st1 := Begin(st, HeaderOf(p));
      if !Decryptable(p, key) then (Reset(st1), Refused(Encrypted))
      else if !LengthFits(p) || |st1.data| > RX_BUFF_LEN then (Reset(st1), Refused(OtherFrames))
      else
        Finish(st1.(data := st1.data + Added(p, key, RX_BUFF_LEN - |st1.data|)))
  }

  /** After the last frame the message is handed over. */
  function Finish(st: RxState): (RxState, Outcome) {
    if Idle(st) then (Reset(st), Complete(Message(st.msgId, st.cmd, st.number + 1, st.data))) else (st, More)
  }

  /** Which error a packet gets, if it gets one, and that it gives up the message in progress. */
  lemma RefusalMeaning(st: RxState, key: Option<Cipher>, p: seq<byte>)
    requires |p| >= 4 && |st.data| <= 256
    ensures var out := RxStep(st, key, p).1;
            var same := st.msgId == p[0] % 16 && st.cmd == p[1] && st.total == p[2] / 16;
            var working, next := st.total != st.number, p[2] % 16 == (st.number + 1) % 16;
            var large, flagged, sized := |p| - 4 + |st.data| > 256, p[0] / 16 % 2 == 1, p[3] <= |p| - 4;
            && (out == Refused(RxBuffSize) <==> large)
            && (out == Refused(FirstFrame) <==> !large && !working && p[2] % 16 != 0)
            && (out == Refused(FwDataDisc) <==> !large && working && same && !next && p[1] == BZ_CMD_OTA_DATA)
            && (out == Refused(Encrypted) <==>
                  !large && (if working then same && next else p[2] % 16 == 0)
                  && flagged && ((|p| - 4) % 16 != 0 || key == None))
            && (out == Refused(OtherFrames) <==>
                  !large && ((working && !(same && (next || p[1] == BZ_CMD_OTA_DATA)))
                             || ((if working then same && next else p[2] % 16 == 0)
                                 && if flagged then (|p| - 4) % 16 == 0 && key.Some? && !sized else p[3] != |p| - 4)))
            && (out.Refused? ==> RxStep(st, key, p).0.data == [] && Idle(RxStep(st, key, p).0))
  {
  }

  // ---------- dispatch ----------

  datatype Handler = ToAuth | ToExtCmd | ToApp | Dropped

  predicate IsValidRxCommand(cmd: byte) {
    cmd in {BZ_CMD_CTRL, BZ_CMD_QUERY, BZ_CMD_EXT_DOWN, BZ_CMD_AUTH_REQ, BZ_CMD_AUTH_CFM, BZ_CMD_OTA_VER_REQ,
            BZ_CMD_OTA_REQ, BZ_CMD_OTA_SIZE, BZ_CMD_OTA_DONE, BZ_CMD_OTA_DATA}
  }

  /** trans_rx_dispatcher */
  function Dispatch(cmd: byte): Handler {
    if !IsValidRxCommand(cmd) then Dropped
    else if IsAuth(cmd) then ToAuth
    else if cmd == BZ_CMD_EXT_DOWN then ToExtCmd
    else ToApp
  }

  /** Where a complete message goes. */
  function HandedTo(out: Outcome): Option<Handler> {
    if out.Complete? then Some(Dispatch(out.message.cmd)) else None
  }

  /** The authentication gets its two requests only, the extended commands theirs, the application
      control, query and the five OTA commands of a peer; anything else is dropped. */
  lemma DispatchMeaning(cmd: byte)
    ensures Dispatch(cmd) == ToAuth <==> cmd == BZ_CMD_AUTH_REQ || cmd == BZ_CMD_AUTH_CFM
    ensures Dispatch(cmd) == ToExtCmd <==> cmd == BZ_CMD_EXT_DOWN
    ensures Dispatch(cmd) == ToApp <==>
              cmd == BZ_CMD_CTRL || cmd == BZ_CMD_QUERY || cmd == BZ_CMD_OTA_VER_REQ || cmd == BZ_CMD_OTA_REQ
              || cmd == BZ_CMD_OTA_SIZE || cmd == BZ_CMD_OTA_DONE || cmd == BZ_CMD_OTA_DATA
  {
  }

  // ---------- the receiver as it stands in memory ----------

  class Receiver {
    const buff: array<byte>
    var bytesReceived: nat
    var msgId: int
    var cmd: byte
    var total: int
    var number: int
    var key: Option<Cipher>

    ghost predicate Valid()
      reads this
    {
      buff.Length == RX_BUFF_LEN && bytesReceived <= RX_BUFF_LEN
    }

    ghost function State(): RxState
      requires Valid()
      reads this, buff
    {
      RxState(msgId, cmd, total, number, buff[..bytesReceived])
    }

    constructor ()
      ensures Valid() && State() == FRESH && key == None && fresh(buff)
    {
      buff := new byte[RX_BUFF_LEN];
      bytesReceived, msgId, cmd, total, number, key := 0, 0, 0, 0, 0, None;
    }

    /** reset_rx */
    method ResetRx()
      requires Valid()
      modifies this`cmd, this`total, this`number, this`bytesReceived
      ensures Valid() && State() == Reset(old(State()))
    {
      cmd, total, number, bytesReceived := 0, 0, 0, 0;
    }

    /** The first part of transport_rx: the frame's place in the message. */
    method Place(h: Header) returns (refused: Option<Source>)
      requires Valid() && ValidHeader(h)
      modifies this`cmd, this`total, this`number, this`bytesReceived, this`msgId
      ensures Valid() && refused.Some? == !InOrder(old(State()), h)
      ensures refused.Some? ==> State() == Reset(old(State())) && refused.value == OrderSource(old(State()), h)
      ensures refused.None? ==> State() == Begin(old(State()), h)
    {
      if total == number {
        if h.number != 0 {
          ResetRx();
          return Some(FirstFrame);
        }
        msgId, cmd, total, number, bytesReceived := h.msgId, h.cmd, h.total, 0, 0;
      } else if msgId != h.msgId || cmd != h.cmd || total != h.total
                || ((number + 1) % 16 != h.number && cmd != BZ_CMD_OTA_DATA) {
        ResetRx();
        return Some(OtherFrames);
      } else if (number + 1) % 16 != h.number && cmd == BZ_CMD_OTA_DATA {
        ResetRx();
        return Some(FwDataDisc);
      } else {
        number := h.number;
      }
      return None;
    }

    /** memcpy to the end of what was received */
    method Store(payload: seq<byte>, len: nat)
      requires Valid() && len <= |payload| && bytesReceived + len <= RX_BUFF_LEN
      modifies this`bytesReceived, buff
      ensures Valid() && State() == old(State()).(data := old(State()).data + payload[..len])
    {
      ghost var was := buff[..bytesReceived];
      forall i | 0 <= i < len { buff[bytesReceived + i] := payload[i]; }
      bytesReceived := bytesReceived + len;
      assert buff[..bytesReceived] == was + payload[..len];
    }

    /** trans_rx_dispatcher, on the command of the message that was received */
    method RxDispatcher() returns (to: Handler)
      ensures to == Dispatch(cmd)
    {
      if !IsValidRxCommand(cmd) { return Dropped; }
      if IsAuth(cmd) {
        to := ToAuth;
      } else if cmd == BZ_CMD_EXT_DOWN {
        to := ToExtCmd;
      } else {
        to := ToApp;
      }
    }

    /** transport_rx: what the packet came to, and where its message goes if it is complete. */
    method Receive(p: seq<byte>) returns (out: Outcome, to: Option<Handler>)
      requires Valid() && (|p| == 0 || |p| >= HEADER_SIZE)
      modifies this, buff
      ensures Valid() && key == old(key) && (State(), out) == RxStep(old(State()), key, p) && to == HandedTo(out)
    {
      to := None;
      if |p| == 0 { return Nothing, to; }
      if |p| - HEADER_SIZE + bytesReceived > RX_BUFF_LEN {
        ResetRx();
        return Refused(RxBuffSize), to;
      }
      var h := HeaderOf(p);
      var refused := Place(h);
      if refused.Some? { return Refused(refused.value), to; }
      if h.encrypted && ((|p| - HEADER_SIZE) % AES_BLK_SIZE != 0 || key.None?) {
        ResetRx();
        return Refused(Encrypted), to;
      }
      if (|p| != HEADER_SIZE + h.len && !h.encrypted) || (|p| < HEADER_SIZE + h.len && h.encrypted) {
        ResetRx();
        return Refused(OtherFrames), to;
      }
      Store(Clear(p, key), Min(RX_BUFF_LEN - bytesReceived, h.len));
      if total == number {
        out := Complete(Message(msgId, cmd, number + 1, buff[..bytesReceived]));
        var handler := RxDispatcher();
        to := Some(handler);
        ResetRx();
      } else {
        out := More;
      }
    }
  }

  // ---------- runs ----------

  datatype RxEvent =
    | Packet(p: seq<byte>)
    | Timeout               // on_rx_timeout
    | LinkReset             // transport_reset
    | NewKey(c: Cipher)     // transport_update_key

  /** Packets are empty or hold at least a header. */
  predicate Framed(evs: seq<RxEvent>) {
    forall i :: 0 <= i < |evs| ==> FramedEvent(evs[i])
  }

  predicate FramedEvent(e: RxEvent) {
    e.Packet? ==> |e.p| == 0 || |e.p| >= HEADER_SIZE
  }

  datatype Rx = Rx(st: RxState, key: Option<Cipher>)

  function Handle(rx: Rx, e: RxEvent): (Rx, Outcome)
    requires FramedEvent(e)
  {
    match e
    case Packet(p) => (rx.(st := RxStep(rx.st, rx.key, p).0), RxStep(rx.st, rx.key, p).1)
    case Timeout => (rx.(st := Reset(rx.st)), Nothing)
    case LinkReset => (rx.(st := Reset(rx.st)), Nothing)
    case NewKey(c) => (rx.(key := Some(c)), Nothing)
  }

  function Init(evs: seq<RxEvent>): (r: seq<RxEvent>)
    requires evs != [] && Framed(evs)
    ensures Framed(r) && |r| < |evs|
  {
    evs[..|evs| - 1]
  }

  function Last<T>(s: seq<T>): T
    requires s != []
  {
    s[|s| - 1]
  }

  /** The receiver after a run from its start. */
  function After(evs: seq<RxEvent>): Rx
    requires Framed(evs)
    decreases |evs|
  {
    if evs == [] then Rx(FRESH, None) else Handle(After(Init(evs)), Last(evs)).0
  }

  /** The message id of the last packet that began a message. */
  function LastBegun(evs: seq<RxEvent>): int
    requires Framed(evs)
    decreases |evs|
  {
    if evs == [] then 0
    else
      var st := After(Init(evs)).st;
      match Last(evs)
      case Packet(p) =>
        if |p| >= 4 && Idle(st) && p[2] % 16 == 0 && |p| - 4 + |st.data| <= 256 then p[0] % 16 else LastBegun(Init(evs))
      case _ => LastBegun(Init(evs))
  }

  /** Over every run: the receiver keeps that id, also when the message is complete or given up, so
      that a reply can carry it. */
  lemma {:induction false} RunMsgId(evs: seq<RxEvent>)
    requires Framed(evs)
    ensures After(evs).st.msgId == LastBegun(evs)
    decreases |evs|
  {
    if evs != [] { RunMsgId(Init(evs)); }
  }

  lemma CompleteKeepsId(st: RxState, key: Option<Cipher>, p: seq<byte>)
    requires |p| >= HEADER_SIZE && RxStep(st, key, p).1.Complete?
    ensures RxStep(st, key, p).0.msgId == RxStep(st, key, p).1.message.msgId == p[0] % 16
  {
  }

  // ---------- which packets a message came from ----------

  /** A packet, and the key that was in use when it came. */
  datatype Got = Got(p: seq<byte>, key: Option<Cipher>)

  /** Skipping empty packets and changes of the key, the run ends with exactly these packets, and
      the receiver was idle before them. */
  ghost predicate EndsWith(evs: seq<RxEvent>, gots: seq<Got>)
    requires Framed(evs)
    decreases |evs|
  {
    if evs == [] then gots == []
    else
      match Last(evs)
      case Packet(p) =>
        if |p| == 0 then EndsWith(Init(evs), gots)
        else if gots == [] then Idle(After(evs).st)
        else Last(gots) == Got(p, After(Init(evs)).key) && EndsWith(Init(evs), gots[..|gots| - 1])
      case NewKey(_) => EndsWith(Init(evs), gots)
      case Timeout => gots == []
      case LinkReset => gots == []
  }

  /** The payloads one after another. */
  function Payloads(gots: seq<Got>): seq<byte>
    requires forall i :: 0 <= i < |gots| ==> WellFormed(gots[i])
  {
    if gots == [] then [] else Payloads(gots[..|gots| - 1]) + Payload(Last(gots))
  }

  /** A packet that is whole, and can be decrypted if it must be. */
  predicate WellFormed(g: Got) {
    |g.p| >= HEADER_SIZE && Decryptable(g.p, g.key) && LengthFits(g.p)
  }

  /** Its payload in clear, without padding. */
  function Payload(g: Got): seq<byte>
    requires WellFormed(g)
  {
    Clear(g.p, g.key)[..HeaderOf(g.p).len]
  }

  /** What that means of the packet's bytes. */
  lemma WellFormedMeaning(g: Got)
    ensures WellFormed(g) <==>
              |g.p| >= 4 && if g.p[0] / 16 % 2 == 1 then (|g.p| - 4) % 16 == 0 && g.key.Some? && g.p[3] <= |g.p| - 4
                            else g.p[3] == |g.p| - 4
    ensures WellFormed(g) ==>
              Payload(g) == (if g.p[0] / 16 % 2 == 1 then Decrypted(g.key.value, g.p[4..]) else g.p[4..])[..g.p[3]]
  {
  }

  /** Frames number 0, 1, 2, ... of one message, that fit into the buffer. */
  predicate Frames(gots: seq<Got>, msgId: int, cmd: byte, total: int) {
    && (forall i :: 0 <= i < |gots| ==> WellFormed(gots[i]))
    && (forall i :: 0 <= i < |gots| ==> FrameOf(gots[i], msgId, cmd, total, i))
    && FitBuffer(gots)
  }

  predicate FrameOf(g: Got, msgId: int, cmd: byte, total: int, number: int) {
    |g.p| >= HEADER_SIZE && HeaderOf(g.p).msgId == msgId && HeaderOf(g.p).cmd == cmd && HeaderOf(g.p).total == total
    && HeaderOf(g.p).number == number
  }

  /** Every packet, padding included, fits behind the payloads before it. */
  predicate FitBuffer(gots: seq<Got>)
    requires forall i :: 0 <= i < |gots| ==> WellFormed(gots[i])
  {
    gots == []
    || (FitBuffer(gots[..|gots| - 1])
        && |Payloads(gots[..|gots| - 1])| + |Last(gots).p| - HEADER_SIZE <= RX_BUFF_LEN)
  }

  /** What a receiver has while the frames of `gots` are in. */
  predicate Holding(st: RxState, gots: seq<Got>) {
    if gots == [] then Idle(st) && st.number == 0 && st.data == []
    else
      && |gots| - 1 == st.number < st.total < 16
      && Frames(gots, st.msgId, st.cmd, st.total) && st.data == Payloads(gots)
  }

  lemma FramesInit(gots: seq<Got>, msgId: int, cmd: byte, total: int)
    requires gots != [] && Frames(gots, msgId, cmd, total)
    ensures Frames(gots[..|gots| - 1], msgId, cmd, total)
  {
  }

  /** Payloads never outgrow the buffer. */
  lemma PayloadsFit(gots: seq<Got>)
    requires forall i :: 0 <= i < |gots| ==> WellFormed(gots[i])
    requires FitBuffer(gots)
    ensures |Payloads(gots)| <= RX_BUFF_LEN
  {
  }

  lemma {:induction false} FramesNext(gots: seq<Got>, g: Got, msgId: int, cmd: byte, total: int)
    requires Frames(gots, msgId, cmd, total) && WellFormed(g) && FrameOf(g, msgId, cmd, total, |gots|)
    requires |Payloads(gots)| + |g.p| - HEADER_SIZE <= RX_BUFF_LEN
    ensures Frames(gots + [g], msgId, cmd, total) && Payloads(gots + [g]) == Payloads(gots) + Payload(g)
  {
    assert (gots + [g])[..|gots|] == gots;
  }

  lemma FramesSplit(gots: seq<Got>, g: Got, msgId: int, cmd: byte, total: int)
    requires Frames(gots + [g], msgId, cmd, total)
    ensures Frames(gots, msgId, cmd, total) && WellFormed(g) && FrameOf(g, msgId, cmd, total, |gots|)
    ensures |Payloads(gots)| + |g.p| - HEADER_SIZE <= RX_BUFF_LEN
  {
    var all := gots + [g];
    assert all[..|gots|] == gots && Last(all) == g;
    assert WellFormed(all[|gots|]) && FrameOf(all[|gots|], msgId, cmd, total, |gots|);
    FramesInit(all, msgId, cmd, total);
  }

  /** The header is that of the next frame. */
  predicate Follows(st: RxState, gots: seq<Got>, h: Header) {
    h.number == |gots| && (gots != [] ==> st.msgId == h.msgId && st.cmd == h.cmd && st.total == h.total)
  }

  lemma SameMessage(st: RxState, gots: seq<Got>, h: Header)
    requires Holding(st, gots) && Frames(gots, h.msgId, h.cmd, h.total) && h.number == |gots|
    ensures Follows(st, gots, h)
  {
    if gots != [] { assert FrameOf(gots[0], h.msgId, h.cmd, h.total, 0) && FrameOf(gots[0], st.msgId, st.cmd, st.total, 0); }
  }

  lemma {:induction false} OrderMeans(st: RxState, gots: seq<Got>, h: Header)
    requires Holding(st, gots)
    ensures InOrder(st, h) <==> Follows(st, gots, h)
    ensures InOrder(st, h) ==>
              Begin(st, h) == RxState(h.msgId, h.cmd, h.total, |gots|, Payloads(gots))
              && Frames(gots, h.msgId, h.cmd, h.total)
  {
  }

  /** A packet that is in order, whole and not too long adds its payload. */
  lemma Taken(st: RxState, g: Got)
    requires WellFormed(g) && |st.data| + |g.p| - HEADER_SIZE <= RX_BUFF_LEN && InOrder(st, HeaderOf(g.p))
    ensures var st1 := Begin(st, HeaderOf(g.p));
            RxStep(st, g.key, g.p) == Finish(st1.(data := st1.data + Payload(g)))
  {
    assert Added(g.p, g.key, RX_BUFF_LEN - |Begin(st, HeaderOf(g.p)).data|) == Payload(g);
  }

  lemma Proceeds(st: RxState, gots: seq<Got>, g: Got)
    requires Holding(st, gots) && WellFormed(g) && Follows(st, gots, HeaderOf(g.p))
    requires |Payloads(gots)| + |g.p| - HEADER_SIZE <= RX_BUFF_LEN
    ensures var h := HeaderOf(g.p);
            RxStep(st, g.key, g.p) == Finish(RxState(h.msgId, h.cmd, h.total, |gots|, Payloads(gots + [g])))
            && Frames(gots + [g], h.msgId, h.cmd, h.total)
  {
    var h := HeaderOf(g.p);
    OrderMeans(st, gots, h);
    FramesNext(gots, g, h.msgId, h.cmd, h.total);
    Taken(st, g);
  }

  /** A packet is refused unless it is in order, whole and not too long. */
  lemma RefusedUnless(st: RxState, g: Got)
    requires |g.p| >= HEADER_SIZE && |st.data| <= RX_BUFF_LEN && (Idle(st) ==> st.data == [])
    ensures var (st', out) := RxStep(st, g.key, g.p);
            if WellFormed(g) && InOrder(st, HeaderOf(g.p)) && |st.data| + |g.p| - HEADER_SIZE <= RX_BUFF_LEN then !out.Refused?
            else out.Refused? && Holding(st', [])
  {
  }

  /** What a packet that is the next frame comes to. */
  ghost predicate Extended(step: (RxState, Outcome), all: seq<Got>, h: Header) {
    if |all| - 1 == h.total
    then (forall i :: 0 <= i < |all| ==> WellFormed(all[i]))
         && step.1 == Complete(Message(h.msgId, h.cmd, |all|, Payloads(all))) && Holding(step.0, [])
    else step.1 == More && Holding(step.0, all)
  }

  lemma FinishHolding(all: seq<Got>, h: Header)
    requires all != [] && Frames(all, h.msgId, h.cmd, h.total) && ValidHeader(h) && |all| - 1 <= h.total
    ensures Extended(Finish(RxState(h.msgId, h.cmd, h.total, |all| - 1, Payloads(all))), all, h)
  {
  }

  lemma NextExtends(st: RxState, gots: seq<Got>, g: Got)
    requires Holding(st, gots) && |g.p| >= HEADER_SIZE
    requires Frames(gots + [g], HeaderOf(g.p).msgId, HeaderOf(g.p).cmd, HeaderOf(g.p).total)
    ensures Extended(RxStep(st, g.key, g.p), gots + [g], HeaderOf(g.p))
  {
    var h := HeaderOf(g.p);
    FramesSplit(gots, g, h.msgId, h.cmd, h.total);
    SameMessage(st, gots, h);
    Proceeds(st, gots, g);
    FinishHolding(gots + [g], h);
  }

  lemma OtherRefused(st: RxState, gots: seq<Got>, g: Got)
    requires Holding(st, gots) && |g.p| >= HEADER_SIZE
    requires !Frames(gots + [g], HeaderOf(g.p).msgId, HeaderOf(g.p).cmd, HeaderOf(g.p).total)
    ensures RxStep(st, g.key, g.p).1.Refused? && Holding(RxStep(st, g.key, g.p).0, [])
  {
    var h := HeaderOf(g.p);
    if gots != [] { PayloadsFit(gots); }
    RefusedUnless(st, g);
    OrderMeans(st, gots, h);
    if WellFormed(g) && Follows(st, gots, h) && |st.data| + |g.p| - HEADER_SIZE <= RX_BUFF_LEN { Proceeds(st, gots, g); }
  }

  /** A packet after those: the message goes on, is complete, or is given up, exactly as its
      frames say. The bound on what is copied never cuts a payload short. */
  lemma StepHolding(st: RxState, gots: seq<Got>, g: Got)
    requires Holding(st, gots) && |g.p| >= HEADER_SIZE
    ensures var (st', out) := RxStep(st, g.key, g.p);
            var h := HeaderOf(g.p);
            if Frames(gots + [g], h.msgId, h.cmd, h.total)
            then (if |gots| == h.total
                  then out == Complete(Message(h.msgId, h.cmd, |gots| + 1, Payloads(gots + [g]))) && Holding(st', [])
                  else out == More && Holding(st', gots + [g]))
            else out.Refused? && Holding(st', [])
  {
    var h := HeaderOf(g.p);
    if Frames(gots + [g], h.msgId, h.cmd, h.total) { NextExtends(st, gots, g); } else { OtherRefused(st, gots, g); }
  }

  /** Every run: what the receiver holds are frames 0.. of one message, in order, which are the
      last packets that came; otherwise it is idle and holds nothing. */
  lemma {:induction false} RunHolding(evs: seq<RxEvent>) returns (gots: seq<Got>)
    requires Framed(evs)
    ensures Holding(After(evs).st, gots) && EndsWith(evs, gots)
    decreases |evs|
  {
    gots := [];
    if evs != [] {
      var before := RunHolding(Init(evs));
      match Last(evs)
      case Packet(p) =>
        var rx := After(Init(evs));
        if |p| == 0 {
          gots := before;
        } else {
          var g := Got(p, rx.key);
          StepHolding(rx.st, before, g);
          if RxStep(rx.st, rx.key, p).1 == More {
            gots := before + [g];
            assert gots[..|gots| - 1] == before;
          }
        }
      case NewKey(_) => gots := before;
      case Timeout =>
      case LinkReset =>
    }
  }

  /** The other way round: frames that came last, after the receiver was idle, are held. */
  lemma {:induction false} EndsHolding(evs: seq<RxEvent>, gots: seq<Got>, msgId: int, cmd: byte, total: int)
    requires Framed(evs) && EndsWith(evs, gots)
    requires Frames(gots, msgId, cmd, total) && |gots| <= total < 16
    ensures Holding(After(evs).st, gots)
    ensures gots != [] ==> After(evs).st.msgId == msgId && After(evs).st.cmd == cmd && After(evs).st.total == total
    decreases |evs|
  {
    if gots == [] {
      EndsIdle(evs);
    } else {
      match Last(evs)
      case Packet(p) =>
        if |p| == 0 {
          EndsHolding(Init(evs), gots, msgId, cmd, total);
        } else {
          var before := gots[..|gots| - 1];
          FramesInit(gots, msgId, cmd, total);
          EndsHolding(Init(evs), before, msgId, cmd, total);
          assert FrameOf(gots[|before|], msgId, cmd, total, |before|);
          assert gots == before + [Last(gots)];
          StepHolding(After(Init(evs)).st, before, Last(gots));
        }
      case NewKey(_) => EndsHolding(Init(evs), gots, msgId, cmd, total);
    }
  }

  lemma {:induction false} EndsIdle(evs: seq<RxEvent>)
    requires Framed(evs) && EndsWith(evs, [])
    ensures Holding(After(evs).st, [])
    decreases |evs|
  {
    if evs != [] {
      var last := Last(evs);
      if last.NewKey? || (last.Packet? && last.p == []) {
        EndsIdle(Init(evs));
      } else {
        var gots := RunHolding(evs);
      }
    }
  }

  /** The packets that a message is made of: frames 0..total with one message id, command and
      total, which came one after another as the last non-empty packets, the receiver being idle
      before them. */
  ghost predicate MadeOf(evs: seq<RxEvent>, p: seq<byte>, gots: seq<Got>, m: Message)
    requires Framed(evs)
  {
    var all := gots + [Got(p, After(evs).key)];
    EndsWith(evs, gots) && |all| == m.frames && Frames(all, m.msgId, m.cmd, m.frames - 1) && m.data == Payloads(all)
  }

  lemma CompleteIsMade(evs: seq<RxEvent>, p: seq<byte>, m: Message) returns (gots: seq<Got>)
    requires Framed(evs) && |p| >= HEADER_SIZE
    requires RxStep(After(evs).st, After(evs).key, p).1 == Complete(m)
    ensures MadeOf(evs, p, gots, m)
  {
    gots := RunHolding(evs);
    StepHolding(After(evs).st, gots, Got(p, After(evs).key));
  }

  lemma MadeIsComplete(evs: seq<RxEvent>, p: seq<byte>, m: Message, gots: seq<Got>)
    requires Framed(evs) && |p| >= HEADER_SIZE && MadeOf(evs, p, gots, m)
    ensures RxStep(After(evs).st, After(evs).key, p).1 == Complete(m)
  {
    var g := Got(p, After(evs).key);
    var all := gots + [g];
    assert all[..|gots|] == gots;
    FramesInit(all, m.msgId, m.cmd, m.frames - 1);
    assert FrameOf(all[|gots|], m.msgId, m.cmd, m.frames - 1, |gots|);
    EndsHolding(evs, gots, m.msgId, m.cmd, m.frames - 1);
    StepHolding(After(evs).st, gots, g);
  }

  /** Reassembly is safe, and misses nothing: after any run whatever, a packet completes a message
      exactly if it is the last of such frames; and the message is their payloads. */
  lemma CompleteIffMade(evs: seq<RxEvent>, p: seq<byte>, m: Message)
    requires Framed(evs) && |p| >= HEADER_SIZE
    ensures RxStep(After(evs).st, After(evs).key, p).1 == Complete(m) <==> exists gots :: MadeOf(evs, p, gots, m)
  {
    if RxStep(After(evs).st, After(evs).key, p).1 == Complete(m) { var gots := CompleteIsMade(evs, p, m); }
    if gots :| MadeOf(evs, p, gots, m) { MadeIsComplete(evs, p, m, gots); }
  }

  /** Between packets an idle receiver holds no bytes, and one at work has frames to come. */
  lemma RunBounds(evs: seq<RxEvent>)
    requires Framed(evs)
    ensures var st := After(evs).st;
            if Idle(st) then st.data == [] && st.total == 0 == st.number
            else 0 <= st.number < st.total < 16 && |st.data| <= RX_BUFF_LEN
  {
    var gots := RunHolding(evs);
    IdleTotal(evs);
    if gots != [] { PayloadsFit(gots); }
  }

  lemma {:induction false} IdleTotal(evs: seq<RxEvent>)
    requires Framed(evs)
    ensures Idle(After(evs).st) ==> After(evs).st.total == 0
    decreases |evs|
  {
    if evs != [] { IdleTotal(Init(evs)); }
  }
}
