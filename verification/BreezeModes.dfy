/** In which way the sender sends its packets: in clear or encrypted, with which key, and whether
    they say so. A call that is refused can change it in the middle of a message. */
module BreezeModes {
  import opened BreezeFrame
  import opened BreezeTx
  import opened BreezeSender
  import opened BreezeDelivery

  // ---------- the flag that a refused call writes ----------

  /** A call is refused exactly while a message is in hand; all it changes is the encrypted flag,
      which is that of its own command. */
  lemma BusyWritesFlag(w: World, indicate: bool, cmd: byte, data: seq<byte>)
    requires Ready(w)
    ensures var (w', code) := TransportTx(w, indicate, cmd, Some(data), |data|);
            (code == EBusy <==> Busy(w.tx))
            && (code == EBusy ==> w' == w.(tx := w.tx.(encrypted := w.key.Some? && Encrypts(cmd))))
  {
  }

  // ---------- the mode as the events leave it ----------

  /** What an event does to the mode. A call writes the flag, whether it is accepted or refused. */
  function NextMode(m: Mode, e: TxEvent): Mode {
    match e
    case Call(_, cmd, data, length) =>
      if data == None && length != 0 then m else m.(encrypted := m.key.Some? && Encrypts(cmd))
    case NewKey(c) => m.(key := Some(c))
    case DnComplete => m.(dnComplete := true)
    case LinkReset => m.(dnComplete := false)
    case _ => m
  }

  function ModeAfter(m: Mode, evs: seq<TxEvent>): Mode
    decreases |evs|
  {
    if evs == [] then m else ModeAfter(NextMode(m, evs[0]), evs[1..])
  }

  lemma {:induction false} LoopMode(w: World, n: nat)
    requires Ready(w)
    ensures ModeOf(SendLoop(w, n).0) == ModeOf(w)
    decreases |w.link|, Left(w.tx)
  {
    var (w', ok) := SendOne(w);
    if ok && !w.tx.indicate && Left(w'.tx) != 0 { LoopMode(w', n + 1); }
  }

  lemma {:induction false} FragmentMode(w: World)
    requires Ready(w)
    ensures ModeOf(SendFragment(w)) == ModeOf(w)
    decreases |w.link|, Left(w.tx), if Left(w.tx) == 0 then 1 else 0
  {
    LoopMode(w, 0);
    if !w.tx.indicate {
      var (w', n) := SendLoop(w, 0);
      DoneMode(w', n);
    }
  }

  lemma {:induction false} DoneMode(w: World, n: nat)
    requires Ready(w)
    ensures ModeOf(TxDone(w, n)) == ModeOf(w)
    decreases |w.link|, Left(w.tx), if Left(w.tx) == 0 then 0 else 1
  {
    if Left(w.tx) != 0 { FragmentMode(Counted(w, n)); }
  }

  lemma StepMode(w: World, e: TxEvent)
    requires Ready(w) && WellCalled(e)
    ensures ModeOf(Step(w, e)) == NextMode(ModeOf(w), e)
  {
    match e
    case Call(indicate, cmd, data, length) =>
      if !(data == None && length != 0) && !Busy(w.tx) {
        var w' := w.(tx := w.tx.(encrypted := w.key.Some? && Encrypts(cmd)));
        FragmentMode(Accepted(w', indicate, cmd, Bytes(data)));
      }
    case Confirmed => DoneMode(w, 1);
    case _ =>
  }

  /** The mode at any point of a run comes from the events alone. */
  lemma {:induction false} RunMode(w: World, evs: seq<TxEvent>)
    requires Ready(w) && AllowedRun(w, evs)
    ensures ModeOf(Run(w, evs)) == ModeAfter(ModeOf(w), evs)
    decreases |evs|
  {
    if evs != [] {
      StepMode(w, evs[0]);
      RunMode(Step(w, evs[0]), evs[1..]);
    }
  }

  // ---------- the packets of one message ----------

  /** The packets of the message in hand were all sent as the next one will be. */
  ghost predicate Steady(w: World) {
    Uniform(w.log.modes, ModeOf(w)) && forall i :: 0 <= i < |w.log.done| ==> SteadyReport(w.log.done[i])
  }

  ghost predicate Uniform(modes: seq<Mode>, m: Mode) {
    forall i :: 0 <= i < |modes| ==> modes[i] == m
  }

  ghost predicate SteadyReport(r: Report) {
    r.modes != [] && Uniform(r.modes, r.modes[0])
  }

  lemma {:induction false} LoopSteady(w: World, n: nat)
    requires Ready(w) && Steady(w)
    ensures Steady(SendLoop(w, n).0)
    decreases |w.link|, Left(w.tx)
  {
    var (w', ok) := SendOne(w);
    if ok && !w.tx.indicate && Left(w'.tx) != 0 { LoopSteady(w', n + 1); }
  }

  lemma FragmentSteady(w: World)
    requires Core(w) && MoreToSend(w.tx) && Steady(w) && (!w.tx.indicate ==> w.tx.cfm == w.tx.req)
    ensures Steady(SendFragment(w))
    decreases |w.link|, Left(w.tx), if Left(w.tx) == 0 then 1 else 0
  {
    LoopSteady(w, 0);
    SendLoopKeeps(w, 0);
    if !w.tx.indicate {
      var (w', n) := SendLoop(w, 0);
      DoneSteady(w', n);
    }
  }

  lemma DoneSteady(w: World, n: nat)
    requires Core(w) && Steady(w) && w.tx.cfm + n <= w.tx.req && (!w.tx.indicate ==> w.tx.cfm + n == w.tx.req)
    ensures Steady(TxDone(w, n))
    decreases |w.link|, Left(w.tx), if Left(w.tx) == 0 then 0 else 1
  {
    CountedKeeps(w, n);
    if Left(w.tx) != 0 {
      FragmentSteady(Counted(w, n));
    } else if w.tx.req == w.tx.cfm + n && w.tx.req != 0 {
      assert SteadyReport(ReportOf(Counted(w, n)));
    }
  }

  /** The packets of the message in hand were all sent in one way, and those of every TX_DONE. */
  ghost predicate SentAlike(w: World) {
    (w.log.modes != [] ==> Uniform(w.log.modes, w.log.modes[0]))
    && forall i :: 0 <= i < |w.log.done| ==> SteadyReport(w.log.done[i])
  }

  /** The event makes the link take a packet that is not the first of its message. */
  predicate SendsLater(w: World, e: TxEvent) {
    e.Confirmed? && Left(w.tx) != 0 && TakesNext(w.link)
  }

  /** The event is a call that is accepted. */
  ghost predicate Starts(w: World, e: TxEvent) {
    e.Call? && !(e.data == None && e.length != 0) && !Busy(w.tx)
  }

  lemma StartAlike(w: World, indicate: bool, cmd: byte, data: Option<seq<byte>>, length: nat)
    requires Inv(w) && WellCalled(Call(indicate, cmd, data, length)) && SentAlike(w)
    requires Starts(w, Call(indicate, cmd, data, length))
    ensures Steady(TransportTx(w, indicate, cmd, data, length).0)
  {
    var a := CallAccepted(w, indicate, cmd, data);
    FragmentSteady(a);
  }

  lemma SteadyIsAlike(w: World)
    requires Steady(w)
    ensures SentAlike(w) && (w.log.modes != [] ==> w.log.modes[0] == ModeOf(w))
  {
  }

  /** A confirmation that sends the next packet. */
  lemma LaterAlike(w: World)
    requires Inv(w) && SentAlike(w) && SendsLater(w, Confirmed) && w.tx.cfm < w.tx.req
    ensures w.log.modes != [] && TxDone(w, 1).log.modes == w.log.modes + [ModeOf(w)]
    ensures SentAlike(TxDone(w, 1)) <==> ModeOf(w) == w.log.modes[0]
  {
    OneAtATime(Counted(w, 1));
    var modes := w.log.modes + [ModeOf(w)];
    assert modes[|w.log.modes|] == ModeOf(w);
  }

  /** A confirmation that sends none. */
  lemma NoneAlike(w: World)
    requires Inv(w) && SentAlike(w) && !SendsLater(w, Confirmed) && w.tx.cfm < w.tx.req
    ensures SentAlike(TxDone(w, 1)) && (TxDone(w, 1).log.modes == w.log.modes || TxDone(w, 1).log.modes == [])
  {
    if Left(w.tx) != 0 {
      OneAtATime(Counted(w, 1));
    } else {
      assert SteadyReport(ReportOf(Counted(w, 1)));
    }
  }

  /** The first packet's mode goes on to be that of the message in hand. */
  ghost predicate FirstIs(w: World, first: Mode) {
    w.log.modes != [] ==> w.log.modes[0] == first
  }

  /** One event breaks the rule exactly if it sends a packet in a mode other than the first one's. */
  lemma StepAlikeIff(w: World, e: TxEvent, first: Mode)
    requires Inv(w) && Allowed(w, e) && SentAlike(w) && FirstIs(w, first)
    ensures SentAlike(Step(w, e)) <==> (SendsLater(w, e) ==> NextMode(ModeOf(w), e) == first)
    ensures FirstIs(Step(w, e), if Starts(w, e) then NextMode(ModeOf(w), e) else first)
  {
    match e
    case Call(indicate, cmd, data, length) =>
      if Starts(w, e) {
        StartAlike(w, indicate, cmd, data, length);
        SteadyIsAlike(Step(w, e));
        StepMode(w, e);
      }
    case Confirmed =>
      if SendsLater(w, e) { LaterAlike(w); } else { NoneAlike(w); }
    case _ =>
  }

  /** Read from the events: every packet but the first of its message is sent while the flag (as
      the last call left it), the key and g_dn_complete are those with which the message's accepted
      call left them. `now` is the mode so far, `first` that after the last accepted call. */
  ghost predicate KeepsMode(w: World, evs: seq<TxEvent>, now: Mode, first: Mode)
    requires Ready(w) && AllowedRun(w, evs)
    decreases |evs|
  {
    evs == []
    || (var next := NextMode(now, evs[0]);
        && (SendsLater(w, evs[0]) ==> next == first)
        && KeepsMode(Step(w, evs[0]), evs[1..], next, if Starts(w, evs[0]) then next else first))
  }

  /** At every point of the run. */
  ghost predicate AlikeThroughout(w: World, evs: seq<TxEvent>)
    requires Ready(w) && AllowedRun(w, evs)
    decreases |evs|
  {
    SentAlike(w) && (evs == [] || AlikeThroughout(Step(w, evs[0]), evs[1..]))
  }

  lemma {:induction false} RunAlikeIff(w: World, evs: seq<TxEvent>, first: Mode)
    requires Inv(w) && SentAlike(w) && FirstIs(w, first) && AllowedRun(w, evs)
    ensures AlikeThroughout(w, evs) <==> KeepsMode(w, evs, ModeOf(w), first)
    decreases |evs|
  {
    if evs != [] {
      StepKeeps(w, evs[0]);
      StepMode(w, evs[0]);
      StepAlikeIff(w, evs[0], first);
      if SentAlike(Step(w, evs[0])) {
        RunAlikeIff(Step(w, evs[0]), evs[1..], if Starts(w, evs[0]) then NextMode(ModeOf(w), evs[0]) else first);
      }
    }
  }

  const CLEAR := Mode(false, None, false)

  /** Over every run from the start: at every point the packets that were sent for one message were
      sent in one way, exactly if the events keep the mode of each first packet. */
  lemma FreshAlikeIff(link: seq<bool>, evs: seq<TxEvent>)
    requires AllowedRun(Fresh(link), evs)
    ensures AlikeThroughout(Fresh(link), evs) <==> KeepsMode(Fresh(link), evs, CLEAR, CLEAR)
  {
    RunAlikeIff(Fresh(link), evs, CLEAR);
  }

  /** Then the reports at its end are of messages sent in one way. */
  lemma {:induction false} AlikeAtEnd(w: World, evs: seq<TxEvent>)
    requires Ready(w) && AllowedRun(w, evs) && AlikeThroughout(w, evs)
    ensures SentAlike(Run(w, evs))
    decreases |evs|
  {
    if evs != [] { AlikeAtEnd(Step(w, evs[0]), evs[1..]); }
  }

  /** Event after event. */
  lemma RunNext(w: World, evs: seq<TxEvent>, e: TxEvent)
    requires Ready(w) && AllowedRun(w, evs) && Allowed(Run(w, evs), e)
    ensures AllowedRun(w, evs + [e]) && Run(w, evs + [e]) == Step(Run(w, evs), e)
    decreases |evs|
  {
    if evs == [] {
      assert [e][1..] == [];
    } else {
      assert (evs + [e])[1..] == evs[1..] + [e];
      RunNext(Step(w, evs[0]), evs[1..], e);
    }
  }

  /** The first packet of an indication of 20 bytes, in clear although there is a key. */
  lemma FirstInClear(c: Cipher) returns (w: World, evs: seq<TxEvent>)
    ensures Inv(w) && w.link == [] && AllowedRun(w, evs) && evs == [Call(true, BZ_CMD_OTA_RSP, Some(seq(20, _ => 0)), 20)]
    ensures var w' := Run(w, evs);
            && w'.log.modes == [Mode(false, Some(c), true)] && ModeOf(w') == Mode(false, Some(c), true)
            && w'.tx.indicate && Left(w'.tx) == 4 && w'.tx.req == 1 && w'.tx.cfm == 0 && w'.link == []
            && |w'.log.accepted| == |w.log.accepted| + 1
  {
    w := Fresh([]).(key := Some(c), dnComplete := true);
    var data := seq(20, _ => 0);
    evs := [Call(true, BZ_CMD_OTA_RSP, Some(data), 20)];
    assert AllowedRun(w, []) && Run(w, []) == w;
    RunNext(w, [], evs[0]);
    assert [] + [evs[0]] == evs;
    OneAtATime(Accepted(w, true, BZ_CMD_OTA_RSP, data));
  }

  /** The confirmation that sends the last packet, in the mode that the calls have left. */
  lemma SendsLast(w: World)
    requires Ready(w) && w.tx.indicate && Left(w.tx) == 4 && w.tx.req == 1 && w.tx.cfm == 0 && w.link == []
    ensures TxDone(w, 1).log.modes == w.log.modes + [ModeOf(w)] && TxDone(w, 1).log.accepted == w.log.accepted
  {
    OneAtATime(Counted(w, 1));
  }

  /** The flag is not harmless: a status report that is refused while an unencrypted indication
      is on its way makes the rest of that indication go out encrypted. */
  lemma RefusedCallFlips(c: Cipher) returns (w: World, evs: seq<TxEvent>)
    ensures Inv(w) && AllowedRun(w, evs)
    ensures w.link == [] && Run(w, evs).log.modes == [Mode(false, Some(c), true), Mode(true, Some(c), true)]
    ensures |Run(w, evs).log.accepted| == |w.log.accepted| + 1
  {
    w, evs := FirstInClear(c);
    var status := Call(true, BZ_CMD_STATUS, Some([]), 0);
    RunNext(w, evs, status);
    SendsLast(Run(w, evs + [status]));
    RunNext(w, evs + [status], Confirmed);
    evs := evs + [status] + [Confirmed];
  }

  /** Nor does it change anything by itself: when another refused call has written it back before
      the next packet, that packet goes out as the first. */
  lemma RefusedCallsFlipBack(c: Cipher) returns (w: World, evs: seq<TxEvent>)
    ensures Inv(w) && AllowedRun(w, evs) && |evs| == 4 && evs[1].Call? && evs[2].Call?
    ensures w.link == [] && Run(w, evs).log.modes == [Mode(false, Some(c), true), Mode(false, Some(c), true)]
    ensures |Run(w, evs).log.accepted| == |w.log.accepted| + 1
  {
    w, evs := FirstInClear(c);
    var status, ota := Call(true, BZ_CMD_STATUS, Some([]), 0), Call(true, BZ_CMD_OTA_RSP, Some([]), 0);
    RunNext(w, evs, status);
    RunNext(w, evs + [status], ota);
    SendsLast(Run(w, evs + [status] + [ota]));
    RunNext(w, evs + [status] + [ota], Confirmed);
    evs := evs + [status] + [ota] + [Confirmed];
  }
}
