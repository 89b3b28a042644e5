/** Which accepted messages are delivered: TX_DONE is raised for them. */
module BreezeDelivery {
  import opened BreezeFrame
  import opened BreezeTx
  import opened BreezeSender

  /** One more TX_DONE, for message o, which is the one accepted last; and nothing is in hand. */
  ghost predicate Delivers(w: World, w': World, o: Outgoing) {
    !Open(w'.tx) && |w'.log.done| == |w.log.done| + 1 && w'.log.done[..|w.log.done|] == w.log.done
    && w'.log.done[|w.log.done|].o == o && w'.log.done[|w.log.done|].index == |w'.log.accepted| - 1
  }

  lemma DeliversNow(w: World)
    requires Core(w) && Left(w.tx) == 0 && w.tx.req == w.tx.cfm != 0 && IsValidTxCommand(w.tx.cmd)
    ensures Delivers(w, TxDone(w, 0), OutgoingOf(w.tx))
  {
  }

  lemma {:induction false} FragmentDelivers(w: World)
    requires Core(w) && !w.tx.indicate && Left(w.tx) > 0 && w.tx.cfm == w.tx.req && IsValidTxCommand(w.tx.cmd)
    ensures Delivers(w, SendFragment(w), OutgoingOf(w.tx))
    decreases |w.link|, Left(w.tx)
  {
    SendLoopKeeps(w, 0);
    var (w', n) := SendLoop(w, 0);
    CountedKeeps(w', n);
    var c := Counted(w', n);
    if Left(c.tx) != 0 {
      FragmentDelivers(c);
    } else {
      assert c.tx.req != 0;
      DeliversNow(c);
      assert TxDone(w', n) == TxDone(c, 0);
    }
  }

  /** The bytes that a caller's pointer stands for. */
  function Bytes(p: Option<seq<byte>>): seq<byte> {
    if p.Some? then p.value else []
  }

  function OutgoingFor(w: World, cmd: byte, data: seq<byte>): Outgoing {
    Outgoing(data, MsgIdFor(w, cmd), cmd, TotalFrame(|data|))
  }

  /** The link takes the next packet. */
  predicate TakesNext(link: seq<bool>) {
    link == [] || link[0]
  }

  /** What a call on an idle sender comes to. */
  lemma CallAccepted(w: World, indicate: bool, cmd: byte, p: Option<seq<byte>>) returns (a: World)
    requires Inv(w) && !Busy(w.tx) && |Bytes(p)| < 65536
    ensures Ready(a) && TransportTx(w, indicate, cmd, p, |Bytes(p)|) == (SendFragment(a), Success)
    ensures Core(a) && InHand(a) && a.tx.data == Bytes(p) && a.tx.indicate == indicate && a.tx.req == 0 == a.tx.cfm
    ensures OutgoingOf(a.tx) == OutgoingFor(w, cmd, Bytes(p)) && a.link == w.link && a.log.done == w.log.done
    ensures a.log.packets == [] && a.log.modes == [] && a.tx.bytesSent == 0
    ensures |a.log.accepted| == |w.log.accepted| + 1
  {
    var w' := w.(tx := w.tx.(encrypted := w.key.Some? && Encrypts(cmd)));
    assert OutgoingOf(w'.tx) == OutgoingOf(w.tx);
    a := Accepted(w', indicate, cmd, Bytes(p));
    AcceptedCore(w', indicate, cmd, Bytes(p));
  }

  lemma EmptyRefused(a: World)
    requires Core(a) && a.tx.data == [] && a.tx.req == 0 && a.link != [] && !a.link[0]
    ensures !Busy(SendFragment(a).tx) && SendFragment(a).log == a.log
  {
    var refused := a.(link := a.link[1..]);
    assert SendOne(a) == (refused, false);
    assert SendLoop(a, 0) == (refused, 0);
    assert TxDone(refused, 0) == Counted(refused, 0);
  }

  lemma EmptyTaken(a: World)
    requires Core(a) && a.tx.data == [] && a.tx.req == 0 && TakesNext(a.link) && IsValidTxCommand(a.tx.cmd) && !a.tx.indicate
    ensures Delivers(a, SendFragment(a), OutgoingOf(a.tx))
  {
    var taken := SendOne(a).0;
    SendOneKeeps(a);
    assert SendLoop(a, 0) == (taken, 1);
    CountedKeeps(taken, 1);
    DeliversNow(Counted(taken, 1));
    assert TxDone(taken, 1) == TxDone(Counted(taken, 1), 0);
  }

  /** A notification of the protocol is delivered within the call, and TX_DONE raised once for it,
      exactly if it has bytes or the link takes its packet: a packet with bytes is sent again as
      often as the link refuses it, an empty one is lost, although the call reports success. */
  lemma NotificationDeliversIff(w: World, cmd: byte, p: Option<seq<byte>>)
    requires Inv(w) && !Busy(w.tx) && |Bytes(p)| < 65536 && IsValidTxCommand(cmd)
    ensures TransportTx(w, false, cmd, p, |Bytes(p)|).1 == Success
    ensures Delivers(w, TransportTx(w, false, cmd, p, |Bytes(p)|).0, OutgoingFor(w, cmd, Bytes(p)))
            <==> Bytes(p) != [] || TakesNext(w.link)
  {
    var a := CallAccepted(w, false, cmd, p);
    if Bytes(p) != [] {
      FragmentDelivers(a);
    } else if TakesNext(w.link) {
      EmptyTaken(a);
    } else {
      EmptyRefused(a);
    }
  }

  /** An indication goes out one packet at a time. */
  lemma OneAtATime(w: World)
    requires Ready(w) && w.tx.indicate
    ensures SendFragment(w) == SendOne(w).0
  {
  }

  /** An indication leaves the sender idle with nothing sent, although the call reports success,
      exactly if it is empty and the link refuses its packet. */
  lemma IndicationGoneIff(w: World, cmd: byte, p: Option<seq<byte>>)
    requires Inv(w) && !Busy(w.tx) && |Bytes(p)| < 65536
    ensures var (w', code) := TransportTx(w, true, cmd, p, |Bytes(p)|);
            code == Success
            && (!Busy(w'.tx) && w'.log.packets == [] && w'.log.done == w.log.done
                <==> Bytes(p) == [] && !TakesNext(w.link))
  {
    var a := CallAccepted(w, true, cmd, p);
    if Bytes(p) == [] && !TakesNext(w.link) {
      EmptyRefused(a);
    } else {
      OneAtATime(a);
    }
  }

  function Confirms(w: World, k: nat): World
    requires Ready(w)
    decreases k
  {
    if k == 0 then w else Confirms(TxDone(w, 1), k - 1)
  }

  /** The link takes the next n packets. */
  predicate TakesAll(link: seq<bool>, n: int) {
    forall i :: 0 <= i < n && i < |link| ==> link[i]
  }

  lemma TakesRest(link: seq<bool>, n: int)
    requires TakesAll(link, n) && n >= 1
    ensures TakesNext(link) && TakesAll(if link == [] then [] else link[1..], n - 1)
  {
  }

  /** One packet of an indication that the link takes. */
  lemma OneTaken(w: World, n: int) returns (w': World)
    requires Core(w) && w.tx.indicate && MoreToSend(w.tx) && TakesAll(w.link, n) && n >= 1
    ensures w' == SendFragment(w) && Core(w') && w'.tx.indicate && TakesAll(w'.link, n - 1)
    ensures w'.tx.req == w.tx.req + 1 && w'.tx.cfm == w.tx.cfm && OutgoingOf(w'.tx) == OutgoingOf(w.tx)
    ensures w'.log.done == w.log.done
  {
    w' := SendOne(w).0;
    TakesRest(w.link, n);
    SendOneKeeps(w);
    OneAtATime(w);
  }

  lemma NextConfirm(w: World)
    requires Core(w) && w.tx.indicate && w.tx.cfm + 1 == w.tx.req && Left(w.tx) != 0
    requires TakesAll(w.link, NumPackets(|w.tx.data|) - w.tx.req)
    ensures var w' := TxDone(w, 1);
            && Core(w') && w'.tx.indicate && TakesAll(w'.link, NumPackets(|w.tx.data|) - w'.tx.req)
            && w'.tx.cfm + 1 == w'.tx.req && w'.tx.cfm == w.tx.cfm + 1 < NumPackets(|w.tx.data|)
            && OutgoingOf(w'.tx) == OutgoingOf(w.tx) && w'.log.done == w.log.done
  {
    CountedKeeps(w, 1);
    NextChunk(w.tx.data, w.tx.bytesSent, w.tx.req);
    var sent := OneTaken(Counted(w, 1), NumPackets(|w.tx.data|) - w.tx.req);
  }

  lemma {:induction false} ConfirmsDeliver(w: World)
    requires Core(w) && w.tx.indicate && w.tx.cfm + 1 == w.tx.req && IsValidTxCommand(w.tx.cmd)
    requires TakesAll(w.link, NumPackets(|w.tx.data|) - w.tx.req)
    ensures Delivers(w, Confirms(w, NumPackets(|w.tx.data|) - w.tx.cfm), OutgoingOf(w.tx))
    decreases NumPackets(|w.tx.data|) - w.tx.cfm
  {
    if Left(w.tx) != 0 {
      NextConfirm(w);
      ConfirmsDeliver(TxDone(w, 1));
    } else {
      LastConfirm(w);
      assert Confirms(w, 1) == Confirms(TxDone(w, 1), 0);
    }
  }

  /** The same from before the first packet. */
  lemma {:induction false} FirstDelivers(w: World)
    requires Core(w) && w.tx.indicate && w.tx.req == 0 == w.tx.cfm && w.tx.bytesSent == 0 && IsValidTxCommand(w.tx.cmd)
    requires TakesAll(w.link, NumPackets(|w.tx.data|))
    ensures Delivers(w, Confirms(SendFragment(w), NumPackets(|w.tx.data|)), OutgoingOf(w.tx))
  {
    var sent := OneTaken(w, NumPackets(|w.tx.data|));
    ConfirmsDeliver(sent);
    DeliversFrom(w, sent, Confirms(sent, NumPackets(|w.tx.data|)), OutgoingOf(w.tx));
  }

  /** An indication whose packets the link takes, the empty one included, is delivered with one
      confirmation for each packet. */
  lemma IndicationDelivers(w: World, cmd: byte, p: Option<seq<byte>>)
    requires Inv(w) && !Busy(w.tx) && |Bytes(p)| < 65536 && IsValidTxCommand(cmd)
    requires TakesAll(w.link, NumPackets(|Bytes(p)|))
    ensures Delivers(w, Confirms(TransportTx(w, true, cmd, p, |Bytes(p)|).0, NumPackets(|Bytes(p)|)),
                     OutgoingFor(w, cmd, Bytes(p)))
  {
    var a := CallAccepted(w, true, cmd, p);
    FirstDelivers(a);
    DeliversFrom(w, a, Confirms(SendFragment(a), NumPackets(|Bytes(p)|)), OutgoingFor(w, cmd, Bytes(p)));
  }

  lemma DeliversFrom(w: World, sent: World, w': World, o: Outgoing)
    requires Delivers(sent, w', o) && sent.log.done == w.log.done
    ensures Delivers(w, w', o)
  {
  }

  lemma LastConfirm(w: World)
    requires Core(w) && w.tx.cfm + 1 == w.tx.req && Left(w.tx) == 0 && IsValidTxCommand(w.tx.cmd)
    ensures Delivers(w, TxDone(w, 1), OutgoingOf(w.tx))
    ensures NumPackets(|w.tx.data|) - w.tx.cfm == 1
  {
    CountedKeeps(w, 1);
    DeliversNow(Counted(w, 1));
    assert TxDone(w, 1) == TxDone(Counted(w, 1), 0);
  }

  // ---------- what a refused packet does ----------

  /** Nothing that comes later was reported under an earlier index. */
  ghost predicate Adds(was: Log, now: Log) {
    && |was.accepted| <= |now.accepted| && was.done <= now.done
    && forall i :: |was.done| <= i < |now.done| ==> now.done[i].index == |now.accepted| - 1
  }

  lemma {:induction false} LoopAdds(w: World, n: nat)
    requires Ready(w)
    ensures SendLoop(w, n).0.log.done == w.log.done && SendLoop(w, n).0.log.accepted == w.log.accepted
    decreases |w.link|, Left(w.tx)
  {
    var (w', ok) := SendOne(w);
    if ok && !w.tx.indicate && Left(w'.tx) != 0 { LoopAdds(w', n + 1); }
  }

  lemma {:induction false} FragmentAdds(w: World)
    requires Ready(w)
    ensures Adds(w.log, SendFragment(w).log) && SendFragment(w).log.accepted == w.log.accepted
    decreases |w.link|, Left(w.tx), if Left(w.tx) == 0 then 1 else 0
  {
    LoopAdds(w, 0);
    if !w.tx.indicate {
      var (w', n) := SendLoop(w, 0);
      DoneAdds(w', n);
    }
  }

  lemma {:induction false} DoneAdds(w: World, n: nat)
    requires Ready(w)
    ensures Adds(w.log, TxDone(w, n).log) && TxDone(w, n).log.accepted == w.log.accepted
    decreases |w.link|, Left(w.tx), if Left(w.tx) == 0 then 0 else 1
  {
    if Left(w.tx) != 0 { FragmentAdds(Counted(w, n)); }
  }

  lemma CallAdds(w: World, indicate: bool, cmd: byte, data: Option<seq<byte>>, length: nat)
    requires Ready(w) && (data.Some? ==> |data.value| == length)
    ensures Adds(w.log, TransportTx(w, indicate, cmd, data, length).0.log)
  {
    if !(data == None && length != 0) && !Busy(w.tx) {
      var w' := w.(tx := w.tx.(encrypted := w.key.Some? && Encrypts(cmd)));
      var a := Accepted(w', indicate, cmd, Bytes(data));
      FragmentAdds(a);
      assert a.log.done == w.log.done && |a.log.accepted| > |w.log.accepted|;
    }
  }

  /** TX_DONE was raised for the message of that index. */
  ghost predicate HasDone(w: World, k: int) {
    exists i :: 0 <= i < |w.log.done| && w.log.done[i].index == k
  }

  /** Bytes are left, but no packet is out whose confirmation could send the next one. */
  predicate Stuck(tx: Tx) {
    tx.indicate && Left(tx) != 0 && tx.req == tx.cfm
  }

  /** There is no TX_DONE for message k, and there will be none: it was given up, or a packet of it
      was refused, or one of its packets still to come will be. */
  ghost predicate Hopeless(w: World, k: nat) {
    && Inv(w) && |w.log.accepted| > k && !HasDone(w, k)
    && (|w.log.accepted| == k + 1 && Open(w.tx) ==> w.tx.indicate && (Stuck(w.tx) || Doomed(w)))
  }

  /** A packet is out, and one of those still to come will be refused. */
  ghost predicate Doomed(w: World) {
    w.tx.cfm + 1 == w.tx.req && !TakesAll(w.link, NumPackets(|w.tx.data|) - w.tx.req)
  }

  lemma RefusedRest(link: seq<bool>, n: int)
    requires !TakesAll(link, n) && TakesNext(link)
    ensures !TakesAll(if link == [] then [] else link[1..], n - 1)
  {
    var i :| 0 <= i < n && i < |link| && !link[i];
    assert !link[1..][i - 1];
  }

  /** The next packet of an indication of which one will be refused. */
  lemma TriedNext(w: World) returns (w': World)
    requires Core(w) && w.tx.indicate && MoreToSend(w.tx) && w.tx.cfm == w.tx.req
    requires !TakesAll(w.link, NumPackets(|w.tx.data|) - w.tx.req)
    ensures w' == SendFragment(w) && w'.tx.indicate && w'.log.done == w.log.done && w'.log.accepted == w.log.accepted
    ensures Doomed(w') || w'.tx == w.tx
  {
    w' := SendOne(w).0;
    OneAtATime(w);
    SendOneKeeps(w);
    if TakesNext(w.link) { RefusedRest(w.link, NumPackets(|w.tx.data|) - w.tx.req); }
  }

  /** While packets are to come, bytes are left. */
  lemma DoomedLeft(w: World)
    requires Core(w) && Doomed(w)
    ensures Left(w.tx) != 0
  {
  }

  lemma HopelessConfirmed(w: World, k: nat)
    requires Hopeless(w, k) && |w.log.accepted| == k + 1 && w.tx.cfm < w.tx.req
    ensures Hopeless(TxDone(w, 1), k)
  {
    StepKeeps(w, Confirmed);
    DoomedLeft(w);
    CountedKeeps(w, 1);
    var w' := TriedNext(Counted(w, 1));
    assert !HasDone(w', k) by { assert w'.log.done == w.log.done; }
  }

  lemma StillNone(w: World, w': World, k: nat)
    requires !HasDone(w, k) && Adds(w.log, w'.log) && (|w'.log.accepted| > k + 1 || w'.log.done == w.log.done)
    ensures !HasDone(w', k)
  {
    forall i | 0 <= i < |w'.log.done| ensures w'.log.done[i].index != k {
      if i < |w.log.done| { assert w'.log.done[i] == w.log.done[i]; }
    }
  }

  lemma HopelessCall(w: World, k: nat, indicate: bool, cmd: byte, data: Option<seq<byte>>, length: nat)
    requires Hopeless(w, k) && WellCalled(Call(indicate, cmd, data, length))
    ensures Hopeless(TransportTx(w, indicate, cmd, data, length).0, k)
  {
    var e := Call(indicate, cmd, data, length);
    StepKeeps(w, e);
    CallAdds(w, indicate, cmd, data, length);
    if (data == None && length != 0) || Busy(w.tx) {
      assert Step(w, e).log == w.log;
      assert !HasDone(Step(w, e), k) by { StillNone(w, Step(w, e), k); }
    } else {
      var a := CallAccepted(w, indicate, cmd, data);
      FragmentAdds(a);
      StillNone(w, Step(w, e), k);
    }
  }

  /** Nothing that may happen gives it hope. */
  lemma HopelessStep(w: World, k: nat, e: TxEvent)
    requires Hopeless(w, k) && Allowed(w, e)
    ensures Hopeless(Step(w, e), k)
  {
    match e
    case Call(indicate, cmd, data, length) => HopelessCall(w, k, indicate, cmd, data, length);
    case Confirmed =>
      if |w.log.accepted| == k + 1 {
        HopelessConfirmed(w, k);
      } else {
        StepKeeps(w, e);
        DoneAdds(w, 1);
        StillNone(w, TxDone(w, 1), k);
      }
    case _ =>
      StepKeeps(w, e);
      assert Step(w, e).log.done == w.log.done && Step(w, e).log.accepted == w.log.accepted;
      StillNone(w, Step(w, e), k);
  }

  lemma {:induction false} HopelessRun(w: World, k: nat, evs: seq<TxEvent>)
    requires Hopeless(w, k) && AllowedRun(w, evs)
    ensures Hopeless(Run(w, evs), k)
    decreases |evs|
  {
    if evs != [] {
      HopelessStep(w, k, evs[0]);
      HopelessRun(Step(w, evs[0]), k, evs[1..]);
    }
  }

  /** After the call. */
  lemma HopelessFromCall(w: World, cmd: byte, p: Option<seq<byte>>)
    requires Inv(w) && !Busy(w.tx) && |Bytes(p)| < 65536 && !TakesAll(w.link, NumPackets(|Bytes(p)|))
    ensures Hopeless(TransportTx(w, true, cmd, p, |Bytes(p)|).0, |w.log.accepted|)
  {
    var k := |w.log.accepted|;
    var a := CallAccepted(w, true, cmd, p);
    StepKeeps(w, Call(true, cmd, p, |Bytes(p)|));
    FragmentAdds(a);
    var w' := TriedNext(a);
    assert !HasDone(w', k) by {
      forall i | 0 <= i < |w'.log.done| ensures w'.log.done[i].index != k { assert IsFor(w.log.done[i], w.log.accepted); }
    }
  }

  // ---------- when an indication is delivered ----------

  /** Some continuation, whatever happens in it, has a TX_DONE for message k. */
  ghost predicate CanBeDone(w: World, k: int)
    requires Ready(w)
  {
    exists evs :: AllowedRun(w, evs) && HasDone(Run(w, evs), k)
  }

  predicate AllConfirmed(evs: seq<TxEvent>) {
    forall i :: 0 <= i < |evs| ==> evs[i].Confirmed?
  }

  /** Confirmations alone deliver the message. */
  ghost predicate ConfirmationsDeliver(was: World, w: World, o: Outgoing)
    requires Ready(w)
  {
    exists evs :: AllowedRun(w, evs) && AllConfirmed(evs) && Delivers(was, Run(w, evs), o)
  }

  function Confirmations(n: nat): (evs: seq<TxEvent>)
    ensures |evs| == n && AllConfirmed(evs)
  {
    seq(n, _ => Confirmed)
  }

  /** The n confirmations may come, and are a run. */
  ghost predicate ConfirmsRun(w: World, n: nat)
    requires Ready(w)
  {
    AllowedRun(w, Confirmations(n)) && Run(w, Confirmations(n)) == Confirms(w, n)
  }

  lemma {:induction false} ConfirmedFirst(w: World, n: nat)
    requires Ready(w) && w.tx.cfm < w.tx.req && ConfirmsRun(TxDone(w, 1), n)
    ensures ConfirmsRun(w, n + 1)
  {
    var evs := Confirmations(n + 1);
    assert evs[1..] == Confirmations(n) && evs[0] == Confirmed;
    assert Confirms(w, n + 1) == Confirms(TxDone(w, 1), n);
  }

  lemma {:induction false} ConfirmsAllowed(w: World)
    requires Core(w) && w.tx.indicate && w.tx.cfm + 1 == w.tx.req && IsValidTxCommand(w.tx.cmd)
    requires TakesAll(w.link, NumPackets(|w.tx.data|) - w.tx.req)
    ensures NumPackets(|w.tx.data|) > w.tx.cfm && ConfirmsRun(w, NumPackets(|w.tx.data|) - w.tx.cfm)
    decreases NumPackets(|w.tx.data|) - w.tx.cfm
  {
    var n := NumPackets(|w.tx.data|) - w.tx.cfm;
    if Left(w.tx) != 0 {
      NextConfirm(w);
      ConfirmsAllowed(TxDone(w, 1));
      ConfirmedFirst(w, n - 1);
    } else {
      LastConfirm(w);
      assert Confirmations(0) == [] && ConfirmsRun(TxDone(w, 1), 0);
      ConfirmedFirst(w, 0);
    }
  }

  lemma FirstConfirmed(w: World)
    requires Core(w) && w.tx.indicate && w.tx.req == 0 == w.tx.cfm && w.tx.bytesSent == 0 && IsValidTxCommand(w.tx.cmd)
    requires TakesAll(w.link, NumPackets(|w.tx.data|))
    ensures ConfirmsRun(SendFragment(w), NumPackets(|w.tx.data|))
  {
    var sent := OneTaken(w, NumPackets(|w.tx.data|));
    ConfirmsAllowed(sent);
  }

  lemma {:induction false} ConfirmedKeepAccepted(w: World, evs: seq<TxEvent>)
    requires Ready(w) && AllowedRun(w, evs) && AllConfirmed(evs)
    ensures Run(w, evs).log.accepted == w.log.accepted
    decreases |evs|
  {
    if evs != [] {
      DoneAdds(w, 1);
      ConfirmedKeepAccepted(TxDone(w, 1), evs[1..]);
    }
  }

  lemma TakenDelivers(w: World, cmd: byte, p: Option<seq<byte>>) returns (evs: seq<TxEvent>)
    requires Inv(w) && !Busy(w.tx) && |Bytes(p)| < 65536 && IsValidTxCommand(cmd)
    requires TakesAll(w.link, NumPackets(|Bytes(p)|))
    ensures var w' := TransportTx(w, true, cmd, p, |Bytes(p)|).0;
            AllowedRun(w', evs) && AllConfirmed(evs) && Delivers(w, Run(w', evs), OutgoingFor(w, cmd, Bytes(p)))
  {
    evs := Confirmations(NumPackets(|Bytes(p)|));
    var a := CallAccepted(w, true, cmd, p);
    IndicationDelivers(w, cmd, p);
    FirstConfirmed(a);
  }

  lemma DeliversDone(was: World, w: World, o: Outgoing)
    requires Delivers(was, w, o)
    ensures HasDone(w, |w.log.accepted| - 1)
  {
    assert w.log.done[|was.log.done|].index == |w.log.accepted| - 1;
  }

  /** An accepted indication of the protocol can be delivered exactly if the link takes all its
      packets: then one confirmation for each is enough; otherwise no TX_DONE is ever raised for
      it, whatever is called, confirmed, reset or timed out afterwards. */
  lemma IndicationDeliversIff(w: World, cmd: byte, p: Option<seq<byte>>)
    requires Inv(w) && !Busy(w.tx) && |Bytes(p)| < 65536 && IsValidTxCommand(cmd)
    ensures var (w', code) := TransportTx(w, true, cmd, p, |Bytes(p)|);
            && code == Success
            && (CanBeDone(w', |w.log.accepted|) <==> TakesAll(w.link, NumPackets(|Bytes(p)|)))
            && (ConfirmationsDeliver(w, w', OutgoingFor(w, cmd, Bytes(p))) <==> TakesAll(w.link, NumPackets(|Bytes(p)|)))
  {
    var a := CallAccepted(w, true, cmd, p);
    var w', k := SendFragment(a), |w.log.accepted|;
    FragmentAdds(a);
    assert |w'.log.accepted| == k + 1;
    if TakesAll(w.link, NumPackets(|Bytes(p)|)) {
      var evs := TakenDelivers(w, cmd, p);
      ConfirmedKeepAccepted(w', evs);
      DeliversDone(w, Run(w', evs), OutgoingFor(w, cmd, Bytes(p)));
    } else {
      HopelessFromCall(w, cmd, p);
      forall evs | AllowedRun(w', evs) ensures !HasDone(Run(w', evs), k) { HopelessRun(w', k, evs); }
      forall evs | AllowedRun(w', evs) && AllConfirmed(evs)
        ensures !Delivers(w, Run(w', evs), OutgoingFor(w, cmd, Bytes(p)))
      {
        ConfirmedKeepAccepted(w', evs);
        if Delivers(w, Run(w', evs), OutgoingFor(w, cmd, Bytes(p))) {
          DeliversDone(w, Run(w', evs), OutgoingFor(w, cmd, Bytes(p)));
        }
      }
    }
  }

  // ---------- the stuck sender ----------

  predicate GivesUp(e: TxEvent) {
    e.Timeout? || e.LinkReset?
  }

  /** Where a packet of an indication was refused while bytes are left, nothing but a timeout or a
      reset moves the sender: no packet, no confirmation, no TX_DONE, and every call is refused. */
  lemma StuckStays(w: World, e: TxEvent)
    requires Ready(w) && Stuck(w.tx) && Allowed(w, e)
    ensures !e.Confirmed?
    ensures var w' := Step(w, e);
            if GivesUp(e) then !Busy(w'.tx) else Stuck(w'.tx) && w'.log == w.log && w'.tx.req == w.tx.req && Left(w'.tx) == Left(w.tx)
  {
  }

  lemma {:induction false} StuckRun(w: World, evs: seq<TxEvent>)
    requires Ready(w) && Stuck(w.tx) && AllowedRun(w, evs)
    requires forall i :: 0 <= i < |evs| ==> !GivesUp(evs[i])
    ensures Stuck(Run(w, evs).tx) && Run(w, evs).log == w.log
    decreases |evs|
  {
    if evs != [] {
      StuckStays(w, evs[0]);
      StuckRun(Step(w, evs[0]), evs[1..]);
    }
  }

  /** When a call leaves the sender stuck: exactly if it has bytes and their first packet is
      refused. One byte is enough. */
  lemma IndicationStuckIff(w: World, cmd: byte, p: Option<seq<byte>>)
    requires Inv(w) && !Busy(w.tx) && |Bytes(p)| < 65536
    ensures var (w', code) := TransportTx(w, true, cmd, p, |Bytes(p)|);
            code == Success && (Stuck(w'.tx) <==> Bytes(p) != [] && !TakesNext(w.link))
  {
    var a := CallAccepted(w, true, cmd, p);
    OneAtATime(a);
    SendOneKeeps(a);
  }

  lemma OneByteStuck(b: byte)
    ensures var (w', code) := TransportTx(Fresh([false]), true, BZ_CMD_STATUS, Some([b]), 1);
            code == Success && Stuck(w'.tx) && w'.tx.req == 0 && w'.log.packets == [] && !CanBeDone(w', 0)
  {
    var w, p := Fresh([false]), Some([b]);
    assert Bytes(p) == [b] && w.link[0] == false;
    var a := CallAccepted(w, true, BZ_CMD_STATUS, p);
    OneAtATime(a);
    IndicationStuckIff(w, BZ_CMD_STATUS, p);
    IndicationDeliversIff(w, BZ_CMD_STATUS, p);
  }
}
