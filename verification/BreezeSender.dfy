/** What the sending half keeps over every run. */
module BreezeSender {
  import opened BreezeFrame
  import opened BreezeTx
  import opened CInts

  datatype TxEvent =
    | Call(indicate: bool, cmd: byte, data: Option<seq<byte>>, length: nat)   // transport_tx
    | Confirmed              // transport_txdone(1), from the link
    | Timeout                // on_tx_timeout
    | LinkReset              // transport_reset
    | NewKey(c: Cipher)      // transport_update_key
    | DnComplete             // set by auth_rx_command
    | RxMsgId(id: nat)       // a message begins to come in

  /** A caller's length is that of its data, and a uint16_t. */
  predicate WellCalled(e: TxEvent) {
    e.Call? ==> e.length < 65536 && (e.data.Some? ==> |e.data.value| == e.length)
  }

  function Step(w: World, e: TxEvent): (r: World)
    requires Ready(w) && WellCalled(e)
    ensures Ready(r)
  {
    match e
    case Call(indicate, cmd, data, length) => TransportTx(w, indicate, cmd, data, length).0
    case Confirmed => TxDone(w, 1)
    case Timeout => Dropped(w)
    case LinkReset => Dropped(w).(dnComplete := false)
    case NewKey(c) => w.(key := Some(c))
    case DnComplete => w.(dnComplete := true)
    case RxMsgId(id) => w.(rxMsgId := id)
  }

  // ---------- the invariant ----------

  /** The packets are the first fragments of the message, in order, without gap or overlap. */
  ghost predicate Sends(o: Outgoing, packets: seq<seq<byte>>, modes: seq<Mode>) {
    |packets| == |modes| <= NumPackets(|o.data|) && forall i :: 0 <= i < |packets| ==> SendsAt(o, packets[i], modes[i], i)
  }

  ghost predicate SendsAt(o: Outgoing, packet: seq<byte>, m: Mode, i: nat) {
    PAYLOAD * i <= |o.data| && Usable(m) && packet == PacketOf(o, i, m)
  }

  /** A TX_DONE event: the link took every fragment of the message, and every one was confirmed. */
  ghost predicate Whole(r: Report) {
    Sends(r.o, r.packets, r.modes) && r.confirmed == |r.packets| == NumPackets(|r.o.data|)
    && r.o.total == TotalFrame(|r.o.data|)
  }

  /** A message is in hand that TX_DONE was not raised for. */
  predicate Open(tx: Tx) {
    Left(tx) != 0 || tx.req != 0
  }

  /** pkt_cfm <= pkt_req == frame_seq, and bytes_sent is what pkt_req packets carry. */
  predicate Counts(tx: Tx) {
    && |tx.data| < 65536 && tx.cfm <= tx.req && tx.number == U8(tx.req)
    && tx.bytesSent == Min(|tx.data|, PAYLOAD * tx.req) && tx.total == TotalFrame(|tx.data|)
  }

  ghost predicate AllWhole(done: seq<Report>) {
    forall i :: 0 <= i < |done| ==> Whole(done[i])
  }

  /** Each TX_DONE is for the accepted message that it names. */
  ghost predicate ForAccepted(log: Log) {
    forall i :: 0 <= i < |log.done| ==> IsFor(log.done[i], log.accepted)
  }

  ghost predicate IsFor(r: Report, accepted: seq<Outgoing>) {
    0 <= r.index < |accepted| && accepted[r.index] == r.o
  }

  /** No two are for one message, and they come in the order of the messages. */
  ghost predicate OncePerMessage(log: Log) {
    forall i, j :: 0 <= i < j < |log.done| ==> log.done[i].index < log.done[j].index
  }

  ghost predicate Core(w: World) {
    && Ready(w) && Counts(w.tx) && w.tx.req == |w.log.packets|
    && Sends(OutgoingOf(w.tx), w.log.packets, w.log.modes)
    && AllWhole(w.log.done) && ForAccepted(w.log) && OncePerMessage(w.log)
  }

  /** The message in hand is the one accepted last, and there was no TX_DONE for it. */
  ghost predicate InHand(w: World) {
    && w.log.accepted != [] && w.log.accepted[|w.log.accepted| - 1] == OutgoingOf(w.tx)
    && forall i :: 0 <= i < |w.log.done| ==> w.log.done[i].index < |w.log.accepted| - 1
  }

  /** A notification is never left half-way. */
  predicate Settled(tx: Tx) {
    !tx.indicate ==> Left(tx) == 0 && tx.cfm == tx.req
  }

  ghost predicate Inv(w: World) {
    Core(w) && Settled(w.tx) && (Open(w.tx) ==> InHand(w))
  }

  /** One more packet can be asked for. */
  predicate MoreToSend(tx: Tx) {
    Left(tx) > 0 || (tx.data == [] && tx.req == 0)
  }

  lemma SendsNext(o: Outgoing, packets: seq<seq<byte>>, modes: seq<Mode>, m: Mode)
    requires Sends(o, packets, modes) && |packets| < NumPackets(|o.data|) && PAYLOAD * |packets| <= |o.data| && Usable(m)
    ensures Sends(o, packets + [PacketOf(o, |packets|, m)], modes + [m])
  {
    var p, q := packets + [PacketOf(o, |packets|, m)], modes + [m];
    forall i | 0 <= i < |p| ensures SendsAt(o, p[i], q[i], i) {
      if i < |packets| { assert SendsAt(o, packets[i], modes[i], i); }
    }
  }

  lemma {:induction false} NextChunk(data: seq<byte>, sent: nat, n: nat)
    requires sent == Min(|data|, PAYLOAD * n) && (sent < |data| || (data == [] && n == 0))
    ensures PAYLOAD * n <= |data| && n < NumPackets(|data|)
    ensures data[sent..sent + Min(|data| - sent, PAYLOAD)] == Chunk(data, n)
  {
  }

  /** The header keeps the low nibble of the fragment's number. */
  lemma NumberInHeader(o: Outgoing, n: nat, chunk: seq<byte>, m: Mode)
    requires |chunk| <= PAYLOAD && Usable(m)
    ensures BuildPacket(o, U8(n), chunk, m) == BuildPacket(o, n, chunk, m)
  {
    Low4OfU8(n);
  }

  lemma NextIsFragment(w: World)
    requires Ready(w) && Counts(w.tx) && MoreToSend(w.tx)
    ensures PAYLOAD * w.tx.req <= |w.tx.data| && w.tx.req < NumPackets(|w.tx.data|)
    ensures NextPacket(w) == PacketOf(OutgoingOf(w.tx), w.tx.req, ModeOf(w))
  {
    NextChunk(w.tx.data, w.tx.bytesSent, w.tx.req);
    NumberInHeader(OutgoingOf(w.tx), w.tx.req, Chunk(w.tx.data, w.tx.req), ModeOf(w));
  }

  lemma AdvancedCounts(tx: Tx)
    requires tx.bytesSent <= |tx.data| && Counts(tx) && MoreToSend(tx)
    ensures Counts(Advanced(tx)) && OutgoingOf(Advanced(tx)) == OutgoingOf(tx)
  {
    U8Next(tx.req);
  }

  lemma SendOneKeeps(w: World)
    requires Core(w) && MoreToSend(w.tx)
    ensures Core(SendOne(w).0) && SendOne(w).0.tx.cfm == w.tx.cfm
    ensures SendOne(w).0.tx.req == if SendOne(w).1 then w.tx.req + 1 else w.tx.req
    ensures SendOne(w).0.log.done == w.log.done && SendOne(w).0.log.accepted == w.log.accepted
    ensures OutgoingOf(SendOne(w).0.tx) == OutgoingOf(w.tx) && SendOne(w).0.tx.indicate == w.tx.indicate
    ensures !SendOne(w).1 ==> SendOne(w).0.tx == w.tx
  {
    if SendOne(w).1 {
      NextIsFragment(w);
      AdvancedCounts(w.tx);
      SendsNext(OutgoingOf(w.tx), w.log.packets, w.log.modes, ModeOf(w));
    }
  }

  lemma {:induction false} SendLoopKeeps(w: World, n: nat)
    requires Core(w) && MoreToSend(w.tx)
    ensures var (w', k) := SendLoop(w, n);
            Core(w') && w'.tx.cfm == w.tx.cfm && w'.tx.req == w.tx.req + k - n
            && w'.log.done == w.log.done && w'.log.accepted == w.log.accepted
            && OutgoingOf(w'.tx) == OutgoingOf(w.tx) && w'.tx.indicate == w.tx.indicate
            && (w'.tx.req == w.tx.req ==> w'.tx == w.tx)
    decreases |w.link|, Left(w.tx)
  {
    SendOneKeeps(w);
    var (w', ok) := SendOne(w);
    if ok && !w.tx.indicate && Left(w'.tx) != 0 { SendLoopKeeps(w', n + 1); }
  }

  lemma SendFragmentKeeps(w: World)
    requires Core(w) && MoreToSend(w.tx) && InHand(w) && (!w.tx.indicate ==> w.tx.cfm == w.tx.req)
    ensures Inv(SendFragment(w))
    decreases |w.link|, Left(w.tx), if Left(w.tx) == 0 then 1 else 0
  {
    SendLoopKeeps(w, 0);
    if !w.tx.indicate {
      var (w', n) := SendLoop(w, 0);
      TxDoneKeeps(w', n);
    }
  }

  /** A confirmation of packets that were sent. If it raises TX_DONE, then for the message in hand,
      with all fragments taken and all confirmed. */
  lemma TxDoneKeeps(w: World, n: nat)
    requires Core(w) && w.tx.cfm + n <= w.tx.req && (!w.tx.indicate ==> w.tx.cfm + n == w.tx.req)
    requires Open(w.tx) ==> InHand(w)
    ensures Inv(TxDone(w, n))
    decreases |w.link|, Left(w.tx), if Left(w.tx) == 0 then 0 else 1
  {
    CountedKeeps(w, n);
    var w' := Counted(w, n);
    if Left(w'.tx) != 0 {
      SendFragmentKeeps(w');
    } else if w'.tx.req == w'.tx.cfm && w'.tx.req != 0 && IsValidTxCommand(w'.tx.cmd) {
      DoneKeeps(w');
    }
  }

  lemma CountedKeeps(w: World, n: nat)
    requires Core(w) && w.tx.cfm + n <= w.tx.req
    ensures Core(Counted(w, n)) && OutgoingOf(Counted(w, n).tx) == OutgoingOf(w.tx)
    ensures InHand(w) ==> InHand(Counted(w, n))
  {
  }

  lemma DoneKeeps(w: World)
    requires Core(w) && InHand(w) && Left(w.tx) == 0 && w.tx.req == w.tx.cfm != 0
    ensures Whole(ReportOf(w)) && Inv(Dropped(w.(log := w.log.(done := w.log.done + [ReportOf(w)]))))
  {
    var done := w.log.done + [ReportOf(w)];
    assert Whole(ReportOf(w)) && IsFor(ReportOf(w), w.log.accepted);
    assert AllWhole(done);
    assert OncePerMessage(w.log.(done := done));
    assert ForAccepted(w.log.(done := done));
  }

  lemma DroppedKeeps(w: World)
    requires Inv(w)
    ensures Inv(Dropped(w))
  {
  }

  /** The environment's part: an indication is confirmed at most once, and no confirmation comes
      after its message was given up. */
  predicate Allowed(w: World, e: TxEvent) {
    WellCalled(e) && (e.Confirmed? ==> w.tx.cfm < w.tx.req)
  }

  lemma CallKeeps(w: World, indicate: bool, cmd: byte, data: Option<seq<byte>>, length: nat)
    requires Inv(w) && WellCalled(Call(indicate, cmd, data, length))
    ensures Inv(TransportTx(w, indicate, cmd, data, length).0)
  {
    if !(data == None && length != 0) {
      var w' := w.(tx := w.tx.(encrypted := w.key.Some? && Encrypts(cmd)));
      assert OutgoingOf(w'.tx) == OutgoingOf(w.tx);
      if !Busy(w.tx) { AcceptKeeps(w', indicate, cmd, if data.Some? then data.value else []); }
    }
  }

  /** Every step keeps the invariant. */
  lemma StepKeeps(w: World, e: TxEvent)
    requires Inv(w) && Allowed(w, e)
    ensures Inv(Step(w, e))
  {
    match e
    case Call(indicate, cmd, data, length) =>
      CallKeeps(w, indicate, cmd, data, length);
    case Confirmed => TxDoneKeeps(w, 1);
    case Timeout => DroppedKeeps(w);
    case LinkReset => DroppedKeeps(w);
    case NewKey(_) =>
    case DnComplete =>
    case RxMsgId(_) =>
  }

  lemma AcceptKeeps(w: World, indicate: bool, cmd: byte, data: seq<byte>)
    requires Inv(w) && |data| < 65536 && w.tx.encrypted == (w.key.Some? && Encrypts(cmd))
    ensures Inv(SendFragment(Accepted(w, indicate, cmd, data)))
  {
    AcceptedCore(w, indicate, cmd, data);
    SendFragmentKeeps(Accepted(w, indicate, cmd, data));
  }

  lemma AcceptedCore(w: World, indicate: bool, cmd: byte, data: seq<byte>)
    requires Inv(w) && |data| < 65536
    ensures Core(Accepted(w, indicate, cmd, data)) && InHand(Accepted(w, indicate, cmd, data))
  {
    var log := Accepted(w, indicate, cmd, data).log;
    forall i | 0 <= i < |log.done| ensures IsFor(log.done[i], log.accepted) { assert IsFor(w.log.done[i], w.log.accepted); }
  }

  // ---------- runs ----------

  predicate AllowedRun(w: World, evs: seq<TxEvent>)
    requires Ready(w)
    decreases |evs|
  {
    evs == [] || (Allowed(w, evs[0]) && AllowedRun(Step(w, evs[0]), evs[1..]))
  }

  function Run(w: World, evs: seq<TxEvent>): (r: World)
    requires Ready(w) && AllowedRun(w, evs)
    ensures Ready(r)
    decreases |evs|
  {
    if evs == [] then w else Run(Step(w, evs[0]), evs[1..])
  }

  function Fresh(link: seq<bool>): World {
    World(Tx([], 0, false, 0, 0, 0, 0, 0, 0, false), None, false, 0, link, Log([], [], [], [], 0))
  }

  lemma {:induction false} RunKeeps(w: World, evs: seq<TxEvent>)
    requires Inv(w) && AllowedRun(w, evs)
    ensures Inv(Run(w, evs))
    decreases |evs|
  {
    if evs != [] {
      StepKeeps(w, evs[0]);
      RunKeeps(Step(w, evs[0]), evs[1..]);
    }
  }

  /** Over every run from the start, whatever the link takes or refuses: the packets of the message
      in hand are its first fragments; each TX_DONE is for an accepted message all of whose
      fragments went out and were confirmed; there is at most one for each of them, in their
      order; and none yet for the message in hand. */
  lemma FreshRuns(link: seq<bool>, evs: seq<TxEvent>)
    requires AllowedRun(Fresh(link), evs)
    ensures var w := Run(Fresh(link), evs);
            Inv(w) && AllWhole(w.log.done) && ForAccepted(w.log) && OncePerMessage(w.log) && (Open(w.tx) ==> InHand(w))
  {
    RunKeeps(Fresh(link), evs);
  }
}
