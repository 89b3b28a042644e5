/** What of a message can be seen on the link: the id in its packets, and which messages go out in
    clear although there is a key. */
module BreezeWire {
  import opened BreezeFrame
  import opened BreezeTx
  import opened BreezeSender
  import opened BreezeDelivery
  import opened BreezeModes
  import opened CInts

  // ---------- message ids ----------

  /** The id of the message received last. */
  function LastId(id: nat, evs: seq<TxEvent>): nat
    decreases |evs|
  {
    if evs == [] then id else LastId(if evs[0].RxMsgId? then evs[0].id else id, evs[1..])
  }

  lemma {:induction false} LoopId(w: World, n: nat)
    requires Ready(w)
    ensures SendLoop(w, n).0.rxMsgId == w.rxMsgId
    decreases |w.link|, Left(w.tx)
  {
    var (w', ok) := SendOne(w);
    if ok && !w.tx.indicate && Left(w'.tx) != 0 { LoopId(w', n + 1); }
  }

  lemma {:induction false} FragmentId(w: World)
    requires Ready(w)
    ensures SendFragment(w).rxMsgId == w.rxMsgId
    decreases |w.link|, Left(w.tx), if Left(w.tx) == 0 then 1 else 0
  {
    LoopId(w, 0);
    if !w.tx.indicate {
      var (w', n) := SendLoop(w, 0);
      DoneId(w', n);
    }
  }

  lemma {:induction false} DoneId(w: World, n: nat)
    requires Ready(w)
    ensures TxDone(w, n).rxMsgId == w.rxMsgId
    decreases |w.link|, Left(w.tx), if Left(w.tx) == 0 then 0 else 1
  {
    if Left(w.tx) != 0 { FragmentId(Counted(w, n)); }
  }

  lemma {:induction false} StepId(w: World, e: TxEvent)
    requires Ready(w) && WellCalled(e)
    ensures Step(w, e).rxMsgId == if e.RxMsgId? then e.id else w.rxMsgId
  {
    match e
    case Call(indicate, cmd, data, length) =>
      if !(data == None && length != 0) && !Busy(w.tx) {
        var w' := w.(tx := w.tx.(encrypted := w.key.Some? && Encrypts(cmd)));
        FragmentId(Accepted(w', indicate, cmd, Bytes(data)));
      }
    case Confirmed => DoneId(w, 1);
    case _ =>
  }

  lemma {:induction false} RunId(w: World, evs: seq<TxEvent>)
    requires Ready(w) && AllowedRun(w, evs)
    ensures Run(w, evs).rxMsgId == LastId(w.rxMsgId, evs)
    decreases |evs|
  {
    if evs != [] {
      StepId(w, evs[0]);
      RunId(Step(w, evs[0]), evs[1..]);
    }
  }

  /** After every run from the start, a call that is accepted sends its data under its command: a
      reply and an extended answer with the id of the message received last, a status with 0, and any
      other with the id that the message before it has left. */
  lemma {:induction false} AcceptedCarries(link: seq<bool>, evs: seq<TxEvent>, indicate: bool, cmd: byte, p: Option<seq<byte>>)
    requires AllowedRun(Fresh(link), evs) && !Busy(Run(Fresh(link), evs).tx) && |Bytes(p)| < 65536
    ensures var w := Run(Fresh(link), evs);
            var log, log' := w.log, TransportTx(w, indicate, cmd, p, |Bytes(p)|).0.log;
            && |log'.accepted| == |log.accepted| + 1 && log'.accepted[..|log.accepted|] == log.accepted
            && var o := log'.accepted[|log.accepted|];
               && o.data == Bytes(p) && o.cmd == cmd
               && (cmd == BZ_CMD_REPLY || cmd == BZ_CMD_EXT_UP ==> o.msgId == LastId(0, evs))
               && (cmd == BZ_CMD_STATUS ==> o.msgId == 0)
               && (cmd !in {BZ_CMD_REPLY, BZ_CMD_EXT_UP, BZ_CMD_STATUS} ==> o.msgId == w.tx.msgId)
  {
    var w := Run(Fresh(link), evs);
    RunId(Fresh(link), evs);
    var w' := w.(tx := w.tx.(encrypted := w.key.Some? && Encrypts(cmd)));
    FragmentAdds(Accepted(w', indicate, cmd, Bytes(p)));
  }

  /** What a packet is made of: its header, and the chunk, in whole blocks if it is encrypted. The
      length is that of the chunk once g_dn_complete is set, and before that it counts the padding. */
  lemma {:induction false} PacketHeader(o: Outgoing, i: nat, m: Mode)
    requires Usable(m) && PAYLOAD * i <= |o.data|
    ensures var p, chunk := PacketOf(o, i, m), Chunk(o.data, i);
            && |p| >= HEADER_SIZE && HeaderOf(p).msgId == Low4(o.msgId) && HeaderOf(p).cmd == o.cmd
            && HeaderOf(p).total == Low4(o.total) && HeaderOf(p).number == Low4(i)
            && (HeaderOf(p).encrypted <==> m.encrypted && m.dnComplete)
            && HeaderOf(p).len == (if m.encrypted && !m.dnComplete && chunk != [] then 16 else |chunk|)
            && p[HEADER_SIZE..] == (if m.encrypted && chunk != [] then Encrypted(m.key.value, Padded(chunk)) else chunk)
  {
    var chunk := Chunk(o.data, i);
    var h := Header(m.encrypted && m.dnComplete, Low4(o.msgId), o.cmd, Low4(o.total), Low4(i),
                    if m.dnComplete then |chunk| else |Body(chunk, m)|);
    HeaderRoundTrip(h, Body(chunk, m));
  }

  /** A null pointer with a length is refused, and nothing changes. */
  lemma NullRefused(w: World, indicate: bool, cmd: byte, data: Option<seq<byte>>, length: nat)
    requires Ready(w) && (data.Some? ==> |data.value| == length)
    ensures var (w', code) := TransportTx(w, indicate, cmd, data, length);
            (code == ENull <==> data == None && length > 0) && (code == ENull ==> w' == w)
  {
  }

  /** The packet says whose it is. */
  predicate Names(p: seq<byte>, o: Outgoing, i: nat) {
    |p| >= HEADER_SIZE && HeaderOf(p).msgId == Low4(o.msgId) && HeaderOf(p).cmd == o.cmd && HeaderOf(p).number == Low4(i)
  }

  predicate AllName(packets: seq<seq<byte>>, o: Outgoing) {
    forall i :: 0 <= i < |packets| ==> Names(packets[i], o, i)
  }

  lemma SendsNames(o: Outgoing, packets: seq<seq<byte>>, modes: seq<Mode>)
    requires Sends(o, packets, modes)
    ensures AllName(packets, o)
  {
    forall i | 0 <= i < |packets| ensures Names(packets[i], o, i) {
      assert SendsAt(o, packets[i], modes[i], i);
      PacketHeader(o, i, modes[i]);
    }
  }

  /** Over every run: the packets of the message in hand, and those of every TX_DONE, carry the id and
      the command of their message and their own number. */
  lemma RunNames(link: seq<bool>, evs: seq<TxEvent>)
    requires AllowedRun(Fresh(link), evs)
    ensures var w := Run(Fresh(link), evs);
            AllName(w.log.packets, OutgoingOf(w.tx))
            && forall k :: 0 <= k < |w.log.done| ==> AllName(w.log.done[k].packets, w.log.done[k].o)
  {
    var w := Run(Fresh(link), evs);
    FreshRuns(link, evs);
    SendsNames(OutgoingOf(w.tx), w.log.packets, w.log.modes);
    forall k | 0 <= k < |w.log.done| ensures AllName(w.log.done[k].packets, w.log.done[k].o) {
      assert Whole(w.log.done[k]);
      SendsNames(w.log.done[k].o, w.log.done[k].packets, w.log.done[k].modes);
    }
  }

  // ---------- which commands are reported ----------

  /** The commands of a sender. */
  lemma TxCommandsAre(cmd: byte)
    ensures IsValidTxCommand(cmd) <==>
              cmd == BZ_CMD_STATUS || cmd == BZ_CMD_REPLY || cmd == BZ_CMD_EXT_UP || cmd == BZ_CMD_ERR
              || cmd == BZ_CMD_AUTH_RAND || cmd == BZ_CMD_AUTH_RSP || cmd == BZ_CMD_AUTH_KEY
              || cmd == BZ_CMD_OTA_VER_RSP || cmd == BZ_CMD_OTA_RSP || cmd == BZ_CMD_OTA_PUB_SIZE
              || cmd == BZ_CMD_OTA_CHECK_RESULT || cmd == BZ_CMD_OTA_UPDATE_PROCESS
  {
  }

  ghost predicate AllReportable(w: World) {
    forall k :: 0 <= k < |w.log.done| ==> IsValidTxCommand(w.log.done[k].o.cmd)
  }

  lemma {:induction false} LoopReports(w: World, n: nat)
    requires Ready(w)
    ensures SendLoop(w, n).0.log.done == w.log.done
    decreases |w.link|, Left(w.tx)
  {
    var (w', ok) := SendOne(w);
    if ok && !w.tx.indicate && Left(w'.tx) != 0 { LoopReports(w', n + 1); }
  }

  lemma {:induction false} FragmentReports(w: World)
    requires Ready(w) && AllReportable(w)
    ensures AllReportable(SendFragment(w))
    decreases |w.link|, Left(w.tx), if Left(w.tx) == 0 then 1 else 0
  {
    LoopReports(w, 0);
    if !w.tx.indicate {
      var (w', n) := SendLoop(w, 0);
      DoneReports(w', n);
    }
  }

  lemma {:induction false} DoneReports(w: World, n: nat)
    requires Ready(w) && AllReportable(w)
    ensures AllReportable(TxDone(w, n))
    decreases |w.link|, Left(w.tx), if Left(w.tx) == 0 then 0 else 1
  {
    if Left(w.tx) != 0 { FragmentReports(Counted(w, n)); }
  }

  /** Over every run a TX_DONE is raised for these commands only. */
  lemma {:induction false} RunReports(w: World, evs: seq<TxEvent>)
    requires Ready(w) && AllReportable(w) && AllowedRun(w, evs)
    ensures AllReportable(Run(w, evs))
    decreases |evs|
  {
    if evs != [] {
      match evs[0] {
        case Call(indicate, cmd, data, length) =>
          if Starts(w, evs[0]) {
            var w' := w.(tx := w.tx.(encrypted := w.key.Some? && Encrypts(cmd)));
            FragmentReports(Accepted(w', indicate, cmd, Bytes(data)));
          }
        case Confirmed => DoneReports(w, 1);
        case _ =>
      }
      RunReports(Step(w, evs[0]), evs[1..]);
    }
  }

  // ---------- secrecy ----------

  /** Status reports, replies, extended answers, and the authentication but for AUTH_RAND. */
  predicate Secret(cmd: byte) {
    cmd == BZ_CMD_STATUS || cmd == BZ_CMD_REPLY || cmd == BZ_CMD_EXT_UP || (0x10 <= cmd < 0x20 && cmd != BZ_CMD_AUTH_RAND)
  }

  /** No packet of such a message was sent in clear while there was a key. */
  predicate KeptSecret(cmd: byte, modes: seq<Mode>) {
    Secret(cmd) ==> forall i :: 0 <= i < |modes| ==> Sealed(modes[i])
  }

  predicate Sealed(m: Mode) {
    m.key.Some? ==> m.encrypted
  }

  ghost predicate AllSecret(w: World) {
    KeptSecret(w.tx.cmd, w.log.modes)
    && forall k :: 0 <= k < |w.log.done| ==> KeptSecret(w.log.done[k].o.cmd, w.log.done[k].modes)
  }

  /** And the next packet will not be. */
  ghost predicate Guarded(w: World) {
    AllSecret(w) && (Secret(w.tx.cmd) ==> Sealed(ModeOf(w)))
  }

  lemma {:induction false} LoopGuarded(w: World, n: nat)
    requires Ready(w) && Guarded(w)
    ensures Guarded(SendLoop(w, n).0)
    decreases |w.link|, Left(w.tx)
  {
    var (w', ok) := SendOne(w);
    if ok && !w.tx.indicate && Left(w'.tx) != 0 { LoopGuarded(w', n + 1); }
  }

  lemma {:induction false} FragmentGuarded(w: World)
    requires Ready(w) && Guarded(w)
    ensures Guarded(SendFragment(w))
    decreases |w.link|, Left(w.tx), if Left(w.tx) == 0 then 1 else 0
  {
    LoopGuarded(w, 0);
    if !w.tx.indicate {
      var (w', n) := SendLoop(w, 0);
      DoneGuarded(w', n);
    }
  }

  lemma {:induction false} DoneGuarded(w: World, n: nat)
    requires Ready(w) && Guarded(w)
    ensures Guarded(TxDone(w, n))
    decreases |w.link|, Left(w.tx), if Left(w.tx) == 0 then 0 else 1
  {
    if Left(w.tx) != 0 { FragmentGuarded(Counted(w, n)); }
  }

  /** A call that is accepted sends nothing in clear that should not be. */
  lemma {:induction false} CallGuarded(w: World, indicate: bool, cmd: byte, data: Option<seq<byte>>, length: nat)
    requires Ready(w) && WellCalled(Call(indicate, cmd, data, length)) && Starts(w, Call(indicate, cmd, data, length)) && AllSecret(w)
    ensures AllSecret(TransportTx(w, indicate, cmd, data, length).0)
  {
    var w' := w.(tx := w.tx.(encrypted := w.key.Some? && Encrypts(cmd)));
    FragmentGuarded(Accepted(w', indicate, cmd, Bytes(data)));
  }

  lemma {:induction false} LaterSecret(w: World)
    requires Inv(w) && AllSecret(w) && SendsLater(w, Confirmed) && w.tx.cfm < w.tx.req
    ensures AllSecret(TxDone(w, 1)) <==> (Secret(w.tx.cmd) ==> Sealed(ModeOf(w)))
  {
    OneAtATime(Counted(w, 1));
    var modes := w.log.modes + [ModeOf(w)];
    assert modes[|w.log.modes|] == ModeOf(w);
  }

  lemma {:induction false} NoneSecret(w: World)
    requires Inv(w) && AllSecret(w) && !SendsLater(w, Confirmed) && w.tx.cfm < w.tx.req
    ensures AllSecret(TxDone(w, 1))
  {
    if Left(w.tx) != 0 { OneAtATime(Counted(w, 1)); }
  }

  /** One event sends such a packet in clear exactly if it is a confirmation that sends the next
      packet while the flag is not set. */
  lemma {:induction false} StepSecretIff(w: World, e: TxEvent)
    requires Inv(w) && Allowed(w, e) && AllSecret(w)
    ensures AllSecret(Step(w, e)) <==> (SendsLater(w, e) && Secret(w.tx.cmd) ==> Sealed(ModeOf(w)))
  {
    match e
    case Call(indicate, cmd, data, length) =>
      if Starts(w, e) { CallGuarded(w, indicate, cmd, data, length); }
    case Confirmed =>
      if SendsLater(w, e) { LaterSecret(w); } else { NoneSecret(w); }
    case _ =>
  }

  /** Read from the events: when a packet that is not the first of such a message is sent and there
      is a key, the last call, refused or not, was for such a message too, and there was a key then. */
  ghost predicate StaysSecret(w: World, evs: seq<TxEvent>, now: Mode)
    requires Ready(w) && AllowedRun(w, evs)
    decreases |evs|
  {
    evs == []
    || ((SendsLater(w, evs[0]) && Secret(w.tx.cmd) ==> Sealed(now)) && StaysSecret(Step(w, evs[0]), evs[1..], NextMode(now, evs[0])))
  }

  ghost predicate SecretThroughout(w: World, evs: seq<TxEvent>)
    requires Ready(w) && AllowedRun(w, evs)
    decreases |evs|
  {
    AllSecret(w) && (evs == [] || SecretThroughout(Step(w, evs[0]), evs[1..]))
  }

  lemma {:induction false} RunSecretIff(w: World, evs: seq<TxEvent>)
    requires Inv(w) && AllSecret(w) && AllowedRun(w, evs)
    ensures SecretThroughout(w, evs) <==> StaysSecret(w, evs, ModeOf(w))
    decreases |evs|
  {
    if evs != [] {
      StepKeeps(w, evs[0]);
      StepMode(w, evs[0]);
      StepSecretIff(w, evs[0]);
      if AllSecret(Step(w, evs[0])) { RunSecretIff(Step(w, evs[0]), evs[1..]); }
    }
  }

  /** The mode as the last call has left it: encrypted exactly if there was a key and the call was
      for a secret message. */
  lemma {:induction false} CallSets(m: Mode, e: TxEvent)
    requires e.Call? && !(e.data == None && e.length != 0)
    ensures NextMode(m, e).encrypted <==> m.key.Some? && Secret(e.cmd)
    ensures NextMode(m, e).key == m.key && NextMode(m, e).dnComplete == m.dnComplete
  {
  }

  /** Over every run from the start: no packet of a status report, a reply, an extended answer or of
      the authentication but AUTH_RAND goes out in clear while there is a key, exactly if at each
      later packet of such a message the last call has left the flag set. */
  lemma {:induction false} FreshSecretIff(link: seq<bool>, evs: seq<TxEvent>)
    requires AllowedRun(Fresh(link), evs)
    ensures SecretThroughout(Fresh(link), evs) <==> StaysSecret(Fresh(link), evs, CLEAR)
  {
    RunSecretIff(Fresh(link), evs);
  }

  lemma {:induction false} StatusFirst(c: Cipher) returns (w: World, e: TxEvent)
    ensures Inv(w) && w.link == [] && w.key == Some(c) && AllowedRun(w, [e]) && e == Call(true, BZ_CMD_STATUS, Some(seq(20, _ => 0)), 20)
    ensures var w' := Run(w, [e]);
            && w'.log.modes == [Mode(true, Some(c), true)] && ModeOf(w') == Mode(true, Some(c), true) && w'.link == []
            && w'.tx.cmd == BZ_CMD_STATUS && w'.tx.indicate && Left(w'.tx) == 4 && w'.tx.req == 1 && w'.tx.cfm == 0
  {
    w := Fresh([]).(key := Some(c), dnComplete := true);
    var data := seq(20, _ => 0);
    e := Call(true, BZ_CMD_STATUS, Some(data), 20);
    assert AllowedRun(w, []) && Run(w, []) == w;
    RunNext(w, [], e);
    assert [] + [e] == [e];
    OneAtATime(Accepted(w.(tx := w.tx.(encrypted := true)), true, BZ_CMD_STATUS, data));
  }

  /** The rest of a status report goes out in clear when an unencrypted answer was refused meanwhile. */
  lemma {:induction false} StatusInClear(c: Cipher) returns (w: World, evs: seq<TxEvent>)
    ensures Inv(w) && AllowedRun(w, evs) && w.key == Some(c)
    ensures evs == [Call(true, BZ_CMD_STATUS, Some(seq(20, _ => 0)), 20), Call(true, BZ_CMD_OTA_RSP, Some([]), 0), Confirmed]
    ensures Run(w, evs).tx.cmd == BZ_CMD_STATUS
    ensures Run(w, evs).log.modes == [Mode(true, Some(c), true), Mode(false, Some(c), true)]
  {
    var status;
    w, status := StatusFirst(c);
    var ota := Call(true, BZ_CMD_OTA_RSP, Some([]), 0);
    RunNext(w, [status], ota);
    SendsLast(Run(w, [status] + [ota]));
    OneAtATime(Counted(Run(w, [status] + [ota]), 1));
    RunNext(w, [status] + [ota], Confirmed);
    evs := [status] + [ota] + [Confirmed];
  }
}
