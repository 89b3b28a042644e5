/** The sending half of the transport (lib_breeze/core/transport.c): a message is cut into packets
    that the link takes or refuses, and that the peer confirms. */
module BreezeTx {
  import opened BreezeFrame
  import opened CInts

  const PAYLOAD := 16    // GATT_MTU_SIZE_DEFAULT - 3 - HEADER_SIZE; a whole AES block

  // ---------- packets ----------

  /** A message as it was handed over, with the fields that go into its headers. */
  datatype Outgoing = Outgoing(data: seq<byte>, msgId: nat, cmd: byte, total: nat)

  /** What decides how a packet is sent: tx.encrypted, the key, and g_dn_complete. */
  datatype Mode = Mode(encrypted: bool, key: Option<Cipher>, dnComplete: bool)

  predicate Usable(m: Mode) {
    m.encrypted ==> m.key.Some?
  }

  function Encrypted(c: Cipher, s: seq<byte>): (r: seq<byte>)
    ensures |r| == |s|
  {
    var d := c.enc(s);
    if |d| == |s| then d else s
  }

  /** The chunk with zeroes up to a whole block. */
  function Padded(chunk: seq<byte>): (r: seq<byte>)
    requires 0 < |chunk| <= AES_BLK_SIZE
    ensures |r| == AES_BLK_SIZE && r[..|chunk|] == chunk && forall i :: |chunk| <= i < AES_BLK_SIZE ==> r[i] == 0
  {
    chunk + seq(AES_BLK_SIZE - |chunk|, _ => 0)
  }

  /** The payload as it goes out. */
  function Body(chunk: seq<byte>, m: Mode): (r: seq<byte>)
    requires |chunk| <= PAYLOAD && Usable(m)
    ensures |r| <= PAYLOAD
  {
    if m.encrypted && chunk != [] then Encrypted(m.key.value, Padded(chunk)) else chunk
  }

  /** build_packet: without g_dn_complete the packet does not say that it is encrypted, and its
      length counts the padding. */
  function BuildPacket(o: Outgoing, number: nat, chunk: seq<byte>, m: Mode): (p: seq<byte>)
    requires |chunk| <= PAYLOAD && Usable(m)
    ensures |p| >= HEADER_SIZE
  {
    HeaderBytes(Header(m.encrypted && m.dnComplete, Low4(o.msgId), o.cmd, Low4(o.total), Low4(number),
                       if m.dnComplete then |chunk| else |Body(chunk, m)|)) + Body(chunk, m)
  }

  function Min(a: int, b: int): int {
    if a < b then a else b
  }

  /** The i-th chunk of a message. */
  function Chunk(data: seq<byte>, i: nat): (r: seq<byte>)
    requires PAYLOAD * i <= |data|
    ensures |r| <= PAYLOAD
  {
    data[PAYLOAD * i..Min(|data|, PAYLOAD * i + PAYLOAD)]
  }

  function PacketOf(o: Outgoing, i: nat, m: Mode): seq<byte>
    requires PAYLOAD * i <= |o.data| && Usable(m)
  {
    BuildPacket(o, i, Chunk(o.data, i), m)
  }

  /** The number of packets of a message: one for each 16 bytes begun, and at least one. */
  function NumPackets(len: nat): (n: nat)
    ensures n >= 1 && PAYLOAD * (n - 1) <= len <= PAYLOAD * n && (len > 0 ==> PAYLOAD * (n - 1) < len)
  {
    if len <= PAYLOAD then 1 else 1 + NumPackets(len - PAYLOAD)
  }

  /** tx.total_frame, a uint8_t: the number of frames after the first. */
  function TotalFrame(len: nat): nat {
    var t := U8(Blocks16(len));
    if t * PAYLOAD == len && len != 0 then U8(t + 255) else t
  }

  // ---------- the state ----------

  /** The tx fields. */
  datatype Tx = Tx(data: seq<byte>, bytesSent: nat, encrypted: bool, msgId: nat, cmd: byte, total: nat,
                   number: nat, req: nat, cfm: nat, indicate: bool)

  /** One TX_DONE: which of the accepted messages it is for, the message, the packets that the link
      took for it, how each was sent, and how many were confirmed. */
  datatype Report = Report(index: int, o: Outgoing, packets: seq<seq<byte>>, modes: seq<Mode>, confirmed: nat)

  /** What was seen of the sender: the packets that the link took for the message in hand, with
      their modes; the TX_DONE events; the accepted messages; and the errors reported. */
  datatype Log = Log(packets: seq<seq<byte>>, modes: seq<Mode>, done: seq<Report>, accepted: seq<Outgoing>, errors: nat)

  /** The sender and what it works with: `link` holds what the link will answer to the next
      packets; once it is used up, it takes every packet. */
  datatype World = World(tx: Tx, key: Option<Cipher>, dnComplete: bool, rxMsgId: nat, link: seq<bool>, log: Log)

  function Left(tx: Tx): int {
    |tx.data| - tx.bytesSent
  }

  function ModeOf(w: World): Mode {
    Mode(w.tx.encrypted, w.key, w.dnComplete)
  }

  function OutgoingOf(tx: Tx): Outgoing {
    Outgoing(tx.data, tx.msgId, tx.cmd, tx.total)
  }

  predicate Ready(w: World) {
    w.tx.bytesSent <= |w.tx.data| && Usable(ModeOf(w))
  }

  /** reset_tx */
  function ResetTx(tx: Tx): Tx {
    Tx([], 0, tx.encrypted, 0, 0, 0, 0, 0, 0, tx.indicate)
  }

  function Dropped(w: World): World {
    w.(tx := ResetTx(w.tx), log := w.log.(packets := [], modes := []))
  }

  predicate IsValidTxCommand(cmd: byte) {
    cmd in {BZ_CMD_STATUS, BZ_CMD_REPLY, BZ_CMD_EXT_UP, BZ_CMD_AUTH_RAND, BZ_CMD_AUTH_RSP, BZ_CMD_AUTH_KEY,
            BZ_CMD_OTA_VER_RSP, BZ_CMD_OTA_RSP, BZ_CMD_OTA_PUB_SIZE, BZ_CMD_OTA_CHECK_RESULT,
            BZ_CMD_OTA_UPDATE_PROCESS, BZ_CMD_ERR}
  }

  // ---------- sending ----------

  /** One round of send_fragment's loop, and whether the link took the packet. */
  function SendOne(w: World): (r: (World, bool))
    requires Ready(w)
    ensures Ready(r.0) && r.0.tx.indicate == w.tx.indicate && |r.0.link| <= |w.link| && 0 <= Left(r.0.tx) <= Left(w.tx)
    ensures |r.0.link| < |w.link| || (r.1 && (Left(w.tx) > 0 ==> Left(r.0.tx) < Left(w.tx)))
  {
    if w.link != [] && !w.link[0] then (w.(link := w.link[1..]), false)
    else (w.(tx := Advanced(w.tx), link := if w.link == [] then [] else w.link[1..],
             log := w.log.(packets := w.log.packets + [NextPacket(w)], modes := w.log.modes + [ModeOf(w)])), true)
  }

  function NextPacket(w: World): seq<byte>
    requires Ready(w)
  {
    BuildPacket(OutgoingOf(w.tx), w.tx.number,
                w.tx.data[w.tx.bytesSent..w.tx.bytesSent + Min(Left(w.tx), PAYLOAD)], ModeOf(w))
  }

  /** The tx fields after a packet was taken. */
  function Advanced(tx: Tx): Tx
    requires tx.bytesSent <= |tx.data|
  {
    tx.(req := tx.req + 1, number := U8(tx.number + 1), bytesSent := tx.bytesSent + Min(Left(tx), PAYLOAD))
  }

  /** The loop: one packet for an indication, else packets until one is refused or none is left;
      and how many were taken. */
  function SendLoop(w: World, n: nat): (r: (World, nat))
    requires Ready(w)
    ensures Ready(r.0) && r.0.tx.indicate == w.tx.indicate && |r.0.link| <= |w.link| && 0 <= Left(r.0.tx) <= Left(w.tx)
    ensures Left(w.tx) > 0 ==> |r.0.link| < |w.link| || Left(r.0.tx) < Left(w.tx)
    decreases |w.link|, Left(w.tx)
  {
    var (w', ok) := SendOne(w);
    if !ok then (w', n)
    else if w.tx.indicate || Left(w'.tx) == 0 then (w', n + 1)
    else SendLoop(w', n + 1)
  }

  /** send_fragment: notifications are confirmed at once. */
  function SendFragment(w: World): (r: World)
    requires Ready(w)
    ensures Ready(r)
    decreases |w.link|, Left(w.tx), if Left(w.tx) == 0 then 1 else 0
  {
    var (w', n) := SendLoop(w, 0);
    if w.tx.indicate then w' else TxDone(w', n)
  }

  /** The report of the message in hand, which is the one accepted last. */
  function ReportOf(w: World): Report {
    Report(|w.log.accepted| - 1, OutgoingOf(w.tx), w.log.packets, w.log.modes, w.tx.cfm)
  }

  /** n more packets are confirmed. */
  function Counted(w: World, n: nat): World {
    w.(tx := w.tx.(cfm := w.tx.cfm + n))
  }

  /** TX_DONE is raised for the message in hand. */
  function Reported(w: World): World {
    w.(log := w.log.(done := w.log.done + [ReportOf(w)]))
  }

  function Erred(w: World): World {
    w.(log := w.log.(errors := w.log.errors + 1))
  }

  /** transport_txdone */
  function TxDone(w: World, n: nat): (r: World)
    requires Ready(w)
    ensures Ready(r)
    decreases |w.link|, Left(w.tx), if Left(w.tx) == 0 then 0 else 1
  {
    var w' := Counted(w, n);
    if Left(w'.tx) != 0 then SendFragment(w')
    else if w'.tx.req == w'.tx.cfm && w'.tx.req != 0 then
      if !IsValidTxCommand(w'.tx.cmd) then w'
      else Dropped(Reported(w'))
    else if w'.tx.req < w'.tx.cfm then Dropped(Erred(w'))
    else w'
  }

  datatype TxCode = Success | EBusy | ENull

  /** The messages that are encrypted once there is a key. */
  predicate Encrypts(cmd: byte) {
    cmd == BZ_CMD_STATUS || cmd == BZ_CMD_REPLY || cmd == BZ_CMD_EXT_UP || (IsAuth(cmd) && cmd != BZ_CMD_AUTH_RAND)
  }

  /** A message is in hand: bytes are left, or packets wait for their confirmation. */
  predicate Busy(tx: Tx) {
    Left(tx) != 0 || tx.req != tx.cfm
  }

  function MsgIdFor(w: World, cmd: byte): nat {
    if cmd == BZ_CMD_REPLY || cmd == BZ_CMD_EXT_UP then w.rxMsgId
    else if cmd == BZ_CMD_STATUS then 0
    else w.tx.msgId
  }

  /** transport_tx up to the first packet. */
  function Accepted(w: World, indicate: bool, cmd: byte, data: seq<byte>): World {
    var tx := Tx(data, 0, w.key.Some? && Encrypts(cmd), MsgIdFor(w, cmd), cmd, TotalFrame(|data|), 0, 0, 0, indicate);
    w.(tx := tx, log := w.log.(packets := [], modes := [], accepted := w.log.accepted + [OutgoingOf(tx)]))
  }

  /** transport_tx; `data` is None for a null pointer. */
  function TransportTx(w: World, indicate: bool, cmd: byte, data: Option<seq<byte>>, length: nat): (r: (World, TxCode))
    requires Ready(w) && (data.Some? ==> |data.value| == length)
    ensures Ready(r.0)
  {
    if data == None && length != 0 then (w, ENull)
    else
      var w' := w.(tx := w.tx.(encrypted := w.key.Some? && Encrypts(cmd)));
      if Busy(w.tx) then (w', EBusy)
      else (SendFragment(Accepted(w', indicate, cmd, if data.Some? then data.value else [])), Success)
  }

  // ---------- the sender as it stands in memory ----------

  class Sender {
    var data: seq<byte>
    var bytesSent: nat
    var encrypted: bool
    var msgId: nat
    var cmd: byte
    var total: nat
    var number: nat
    var req: nat
    var cfm: nat
    var indicate: bool
    var key: Option<Cipher>
    var dnComplete: bool
    var rxMsgId: nat
    var link: seq<bool>
    ghost var log: Log

    ghost function State(): World
      reads this
    {
      World(Tx(data, bytesSent, encrypted, msgId, cmd, total, number, req, cfm, indicate), key, dnComplete, rxMsgId,
            link, log)
    }

    constructor (link: seq<bool>)
      ensures Ready(State()) && this.link == link && State().tx == ResetTx(State().tx)
      ensures log == Log([], [], [], [], 0)
    {
      data, bytesSent, encrypted, msgId, cmd, total, number, req, cfm, indicate := [], 0, false, 0, 0, 0, 0, 0, 0, false;
      key, dnComplete, rxMsgId, this.link := None, false, 0, link;
      log := Log([], [], [], [], 0);
    }

    /** bytes_sent, frame_seq, pkt_req and pkt_cfm start over. */
    method ResetCounts()
      modifies this`bytesSent, this`number, this`req, this`cfm
      ensures bytesSent == number == req == cfm == 0
    {
      bytesSent, number, req, cfm := 0, 0, 0, 0;
    }

    /** reset_tx */
    method Reset()
      modifies this`data, this`msgId, this`cmd, this`total, this`bytesSent, this`number, this`req, this`cfm, this`log
      ensures State() == Dropped(old(State()))
    {
      ResetCounts();
      data, msgId, cmd, total := [], 0, 0, 0;
      log := log.(packets := [], modes := []);
    }

    /** active_func: hand a packet to the link */
    method ActiveFunc(packet: seq<byte>) returns (ok: bool)
      modifies this`link, this`log
      ensures ok == (old(link) == [] || old(link)[0])
      ensures link == (if old(link) == [] then [] else old(link)[1..])
      ensures log == if ok then old(log).(packets := old(log.packets) + [packet], modes := old(log.modes) + [ModeOf(State())])
                     else old(log)
    {
      ok := link == [] || link[0];
      if ok { log := log.(packets := log.packets + [packet], modes := log.modes + [ModeOf(State())]); }
      if link != [] { link := link[1..]; }
    }

    /** One round of send_fragment's loop. */
    method SendPacket() returns (ok: bool)
      requires Ready(State())
      modifies this`link, this`log, this`req, this`number, this`bytesSent
      ensures (State(), ok) == SendOne(old(State()))
    {
      var len := Min(|data| - bytesSent, PAYLOAD);
      var packet := BuildPacket(Outgoing(data, msgId, cmd, total), number, data[bytesSent..bytesSent + len],
                                Mode(encrypted, key, dnComplete));
      ok := ActiveFunc(packet);
      if ok { Advance(len); }
    }

    /** The counters after a packet of `len` bytes was taken. */
    method Advance(len: nat)
      requires bytesSent <= |data| && len == Min(|data| - bytesSent, PAYLOAD)
      modifies this`req, this`number, this`bytesSent
      ensures State().tx == Advanced(old(State().tx))
    {
      req, number, bytesSent := req + 1, U8(number + 1), bytesSent + len;
    }

    /** send_fragment */
    method Fragment()
      requires Ready(State())
      modifies this
      ensures State() == SendFragment(old(State()))
      decreases |link|, |data| - bytesSent, if |data| == bytesSent then 1 else 0
    {
      var sent := 0;
      var ok := SendPacket();
      if ok { sent := 1; }
      while ok && !indicate && |data| - bytesSent > 0
        invariant Ready(State()) && indicate == old(indicate)
        invariant |link| <= |old(link)| && |data| - bytesSent <= |old(data)| - old(bytesSent)
        invariant |old(data)| > old(bytesSent) ==> |link| < |old(link)| || |data| - bytesSent < |old(data)| - old(bytesSent)
        invariant SendLoop(old(State()), 0)
               == if ok && !indicate && |data| - bytesSent > 0 then SendLoop(State(), sent) else (State(), sent)
        decreases |link|, |data| - bytesSent
      {
        ok := SendPacket();
        if ok { sent := sent + 1; }
      }
      if !indicate { Confirm(sent); }
    }

    /** transport_txdone */
    method Confirm(n: nat)
      requires Ready(State())
      modifies this
      ensures State() == TxDone(old(State()), n)
      decreases |link|, |data| - bytesSent, if |data| == bytesSent then 0 else 1
    {
      CountConfirmed(n);
      if |data| - bytesSent != 0 {
        Fragment();
      } else if req == cfm && req != 0 {
        if !IsValidTxCommand(cmd) { return; }
        RaiseTxDone();
      } else if req < cfm {
        RaiseError();
      }
    }

    method CountConfirmed(n: nat)
      modifies this`cfm
      ensures State() == Counted(old(State()), n)
    {
      cfm := cfm + n;
    }

    /** The TX_DONE event, and reset_tx */
    method RaiseTxDone()
      modifies this`data, this`msgId, this`cmd, this`total, this`bytesSent, this`number, this`req, this`cfm, this`log
      ensures State() == Dropped(Reported(old(State())))
    {
      log := log.(done := log.done + [ReportOf(State())]);
      Reset();
    }

    /** core_handle_err, and reset_tx */
    method RaiseError()
      modifies this`data, this`msgId, this`cmd, this`total, this`bytesSent, this`number, this`req, this`cfm, this`log
      ensures State() == Dropped(Erred(old(State())))
    {
      log := log.(errors := log.errors + 1);
      Reset();
    }

    /** The part of transport_tx that takes the message. */
    method Accept(indication: bool, command: byte, p: seq<byte>)
      modifies this`data, this`msgId, this`cmd, this`total, this`bytesSent, this`number, this`req, this`cfm
      modifies this`indicate, this`log
      ensures encrypted == (key.Some? && Encrypts(command)) ==>
                State() == Accepted(old(State()), indication, command, p)
    {
      ResetCounts();
      data, cmd, indicate := p, command, indication;
      ChooseMsgId(command);
      total := FrameTotal(|p|);
      log := log.(packets := [], modes := [], accepted := log.accepted + [OutgoingOf(State().tx)]);
    }

    /** A reply carries the id of the message received last, a status report none. */
    method ChooseMsgId(command: byte)
      modifies this`msgId
      ensures msgId == MsgIdFor(old(State()), command)
    {
      if command == BZ_CMD_REPLY || command == BZ_CMD_EXT_UP { msgId := rxMsgId; }
      if command == BZ_CMD_STATUS { msgId := 0; }
    }

    static method FrameTotal(length: nat) returns (total: nat)
      ensures total == TotalFrame(length)
    {
      total := U8(Blocks16(length));
      if total * PAYLOAD == length && length != 0 { total := U8(total + 255); }
    }

    /** transport_tx */
    method Transmit(indication: bool, command: byte, p: Option<seq<byte>>, length: nat) returns (code: TxCode)
      requires Ready(State()) && (p.Some? ==> |p.value| == length)
      modifies this
      ensures (State(), code) == TransportTx(old(State()), indication, command, p, length)
    {
      if p == None && length != 0 { return ENull; }
      encrypted := key.Some? && Encrypts(command);
      if |data| - bytesSent != 0 || req != cfm { return EBusy; }
      Accept(indication, command, if p.Some? then p.value else []);
      Fragment();
      return Success;
    }
  }
}
