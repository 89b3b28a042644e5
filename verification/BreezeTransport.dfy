/** Sender and receiver together: the packets of a message, taken in order by an idle receiver,
    give back the message. */
module BreezeTransport {
  import opened BreezeFrame
  import opened BreezeTx
  import opened CInts
  import opened R = BreezeRx
  import S = BreezeSender
  import M = BreezeModes

  predicate AllFramed(packets: seq<seq<byte>>) {
    forall i :: 0 <= i < |packets| ==> |packets[i]| >= HEADER_SIZE
  }

  /** The receiver takes packets one after another; its state and what the last one came to. */
  function Feed(st: RxState, key: Option<Cipher>, packets: seq<seq<byte>>): (RxState, Outcome)
    requires AllFramed(packets)
    decreases |packets|
  {
    if packets == [] then (st, Nothing)
    else RxStep(Feed(st, key, packets[..|packets| - 1]).0, key, packets[|packets| - 1])
  }

  function Received(packets: seq<seq<byte>>, key: Option<Cipher>): (r: seq<Got>)
    ensures |r| == |packets|
    decreases |packets|
  {
    if packets == [] then [] else Received(packets[..|packets| - 1], key) + [Got(packets[|packets| - 1], key)]
  }

  /** These are the fragments of the message from the first on, all sent in one way. */
  ghost predicate Fragments(o: Outgoing, packets: seq<seq<byte>>, m: Mode) {
    |packets| <= NumPackets(|o.data|)
    && forall i {:trigger S.SendsAt(o, packets[i], m, i)} :: 0 <= i < |packets| ==> S.SendsAt(o, packets[i], m, i)
  }

  /** The way of sending that the receiver understands: in clear, or encrypted with its key and
      marked as such. */
  ghost predicate Understood(m: Mode, key: Option<Cipher>) {
    m.encrypted ==> m.dnComplete && m.key.Some? && m.key == key && Sound(m.key.value)
  }

  /** One packet says what it is, and its payload is the chunk, without padding. */
  lemma {:induction false} PacketReads(o: Outgoing, i: nat, m: Mode, key: Option<Cipher>)
    requires Understood(m, key) && PAYLOAD * i <= |o.data|
    ensures var g := Got(PacketOf(o, i, m), key);
            WellFormed(g) && FrameOf(g, Low4(o.msgId), o.cmd, Low4(o.total), Low4(i))
            && Payload(g) == Chunk(o.data, i) && |g.p| <= HEADER_SIZE + PAYLOAD
  {
    var chunk := Chunk(o.data, i);
    var h := Header(m.encrypted && m.dnComplete, Low4(o.msgId), o.cmd, Low4(o.total), Low4(i),
                    if m.dnComplete then |chunk| else |Body(chunk, m)|);
    HeaderRoundTrip(h, Body(chunk, m));
    if m.encrypted && chunk != [] { BodyReads(chunk, m); }
  }

  lemma BodyReads(chunk: seq<byte>, m: Mode)
    requires 0 < |chunk| <= PAYLOAD && m.encrypted && m.key.Some? && Sound(m.key.value)
    ensures |Body(chunk, m)| == PAYLOAD && Decrypted(m.key.value, Body(chunk, m))[..|chunk|] == chunk
  {
    var c := m.key.value;
    assert c.dec(c.enc(Padded(chunk))) == Padded(chunk);
  }

  /** Up to 256 bytes there are at most 16 frames, which their numbers of four bits tell apart. */
  lemma FewFrames(len: nat)
    requires len <= RX_BUFF_LEN
    ensures NumPackets(len) <= 16 && TotalFrame(len) == NumPackets(len) - 1
  {
  }

  lemma ChunkJoins(data: seq<byte>, k: nat)
    requires PAYLOAD * k <= |data|
    ensures data[..R.Min(|data|, PAYLOAD * k)] + Chunk(data, k) == data[..R.Min(|data|, PAYLOAD * (k + 1))]
  {
  }

  /** What was received is the beginning of the message. */
  ghost predicate Carries(o: Outgoing, gots: seq<Got>) {
    Frames(gots, Low4(o.msgId), o.cmd, Low4(o.total)) && Payloads(gots) == o.data[..R.Min(|o.data|, PAYLOAD * |gots|)]
  }

  /** The next packet carries the next chunk. */
  lemma NextFrame(o: Outgoing, m: Mode, key: Option<Cipher>, k: nat, before: seq<Got>)
    requires Understood(m, key) && |o.data| <= RX_BUFF_LEN && k < NumPackets(|o.data|) && |before| == k
    requires Carries(o, before)
    ensures Carries(o, before + [Got(PacketOf(o, k, m), key)])
  {
    FewFrames(|o.data|);
    PacketReads(o, k, m, key);
    ChunkJoins(o.data, k);
    FramesNext(before, Got(PacketOf(o, k, m), key), Low4(o.msgId), o.cmd, Low4(o.total));
  }

  lemma NextFragment(o: Outgoing, m: Mode, key: Option<Cipher>, packets: seq<seq<byte>>, before: seq<Got>)
    requires Understood(m, key) && |o.data| <= RX_BUFF_LEN && Fragments(o, packets, m)
    requires packets != [] && |before| == |packets| - 1 && Carries(o, before)
    ensures Carries(o, before + [Got(packets[|packets| - 1], key)])
  {
    var k := |packets| - 1;
    assert S.SendsAt(o, packets[k], m, k);
    NextFrame(o, m, key, k, before);
  }

  lemma FragmentsFramed(o: Outgoing, m: Mode, packets: seq<seq<byte>>)
    requires Fragments(o, packets, m)
    ensures AllFramed(packets)
  {
    forall i | 0 <= i < |packets| ensures |packets[i]| >= HEADER_SIZE { assert S.SendsAt(o, packets[i], m, i); }
  }

  lemma FragmentsInit(o: Outgoing, m: Mode, packets: seq<seq<byte>>)
    requires Fragments(o, packets, m) && packets != []
    ensures Fragments(o, packets[..|packets| - 1], m)
  {
    var before := packets[..|packets| - 1];
    forall i | 0 <= i < |before| ensures S.SendsAt(o, before[i], m, i) { assert S.SendsAt(o, packets[i], m, i); }
  }

  /** The fragments of a message carry its chunks. */
  lemma {:induction false} FragmentsCarry(o: Outgoing, m: Mode, key: Option<Cipher>, packets: seq<seq<byte>>)
    requires Understood(m, key) && |o.data| <= RX_BUFF_LEN && Fragments(o, packets, m)
    ensures Carries(o, Received(packets, key))
    decreases |packets|
  {
    if packets != [] {
      var before := packets[..|packets| - 1];
      FragmentsInit(o, m, packets);
      FragmentsCarry(o, m, key, before);
      NextFragment(o, m, key, packets, Received(before, key));
    }
  }

  /** What an idle receiver makes of the frames of a message. */
  lemma {:induction false} FeedFrames(st: RxState, key: Option<Cipher>, packets: seq<seq<byte>>, msgId: int, cmd: byte, total: int)
    requires Holding(st, []) && 0 <= total < 16 && |packets| <= total + 1 && AllFramed(packets)
    requires Frames(Received(packets, key), msgId, cmd, total)
    ensures var (st', out) := Feed(st, key, packets);
            if |packets| == total + 1
            then out == Complete(Message(msgId, cmd, total + 1, Payloads(Received(packets, key)))) && Holding(st', [])
            else Holding(st', Received(packets, key))
    decreases |packets|
  {
    if packets != [] {
      var n := |packets| - 1;
      var before, g := Received(packets[..n], key), Got(packets[n], key);
      FramesInit(Received(packets, key), msgId, cmd, total);
      assert Received(packets, key)[..n] == before;
      FeedFrames(st, key, packets[..n], msgId, cmd, total);
      FeedLast(Feed(st, key, packets[..n]).0, before, g, msgId, cmd, total);
    }
  }

  lemma {:induction false} FeedLast(st: RxState, before: seq<Got>, g: Got, msgId: int, cmd: byte, total: int)
    requires Holding(st, before) && |before| <= total < 16 && Frames(before + [g], msgId, cmd, total)
    requires |g.p| >= HEADER_SIZE
    ensures var (st', out) := RxStep(st, g.key, g.p);
            if |before| == total
            then out == Complete(Message(msgId, cmd, total + 1, Payloads(before + [g]))) && Holding(st', [])
            else Holding(st', before + [g])
  {
    assert FrameOf((before + [g])[|before|], msgId, cmd, total, |before|);
    StepHolding(st, before, g);
  }

  /** A message of up to 256 bytes, in clear or encrypted, is cut into one packet for each 16
      bytes begun; an idle receiver that takes them in order hands over exactly the payload, with
      its command and message id. */
  lemma RoundTrip(o: Outgoing, m: Mode, key: Option<Cipher>, st: RxState, packets: seq<seq<byte>>)
    requires |o.data| <= RX_BUFF_LEN && o.total == TotalFrame(|o.data|)
    requires Understood(m, key) && Fragments(o, packets, m) && |packets| == NumPackets(|o.data|) && Holding(st, [])
    ensures AllFramed(packets)
    ensures Feed(st, key, packets).1 == Complete(Message(Low4(o.msgId), o.cmd, |packets|, o.data))
  {
    FewFrames(|o.data|);
    FragmentsFramed(o, m, packets);
    FragmentsCarry(o, m, key, packets);
    WholeFed(o, st, key, packets);
  }

  /** A message of the sender's own commands that comes back to it is put together, and dropped:
      no handler takes it for the peer's. */
  lemma EchoDropped(o: Outgoing, m: Mode, key: Option<Cipher>, st: RxState, packets: seq<seq<byte>>)
    requires |o.data| <= RX_BUFF_LEN && o.total == TotalFrame(|o.data|) && IsValidTxCommand(o.cmd)
    requires Understood(m, key) && Fragments(o, packets, m) && |packets| == NumPackets(|o.data|) && Holding(st, [])
    ensures AllFramed(packets) && HandedTo(Feed(st, key, packets).1) == Some(R.Dropped)
  {
    RoundTrip(o, m, key, st, packets);
  }

  lemma WholeFed(o: Outgoing, st: RxState, key: Option<Cipher>, packets: seq<seq<byte>>)
    requires Carries(o, Received(packets, key)) && AllFramed(packets) && Holding(st, [])
    requires |packets| == o.total + 1 <= 16 && |o.data| <= PAYLOAD * |packets|
    ensures Feed(st, key, packets).1 == Complete(Message(Low4(o.msgId), o.cmd, |packets|, o.data))
  {
    FeedFrames(st, key, packets, Low4(o.msgId), o.cmd, Low4(o.total));
    assert o.data[..|o.data|] == o.data;
  }

  /** No receiver ever hands over more than 256 bytes, so this bound is the exact one. */
  lemma CompleteFits(evs: seq<RxEvent>, p: seq<byte>, m: Message)
    requires Framed(evs) && |p| >= HEADER_SIZE && RxStep(After(evs).st, After(evs).key, p).1 == Complete(m)
    ensures |m.data| <= RX_BUFF_LEN && 1 <= m.frames <= 16
  {
    var gots := CompleteIsMade(evs, p, m);
    PayloadsFit(gots + [Got(p, After(evs).key)]);
  }

  /** A TX_DONE report whose packets were all sent in one way. */
  lemma ReportFragments(r: Report)
    requires S.Whole(r) && M.SteadyReport(r)
    ensures Fragments(r.o, r.packets, r.modes[0])
  {
    forall i | 0 <= i < |r.packets| ensures S.SendsAt(r.o, r.packets[i], r.modes[0], i) {
      assert S.SendsAt(r.o, r.packets[i], r.modes[i], i);
    }
  }

  /** From end to end: in a run of the sender that keeps the mode of each message, each TX_DONE
      stands for packets from which an idle receiver with the same key rebuilds the message, if it
      is of at most 256 bytes and was sent in a way that the receiver understands. */
  lemma DoneMeansReceivable(link: seq<bool>, evs: seq<S.TxEvent>, r: Report, st: RxState, key: Option<Cipher>)
    requires S.AllowedRun(S.Fresh(link), evs) && M.KeepsMode(S.Fresh(link), evs, M.CLEAR, M.CLEAR)
    requires r in S.Run(S.Fresh(link), evs).log.done && Holding(st, [])
    ensures r.modes != []
    ensures |r.o.data| <= RX_BUFF_LEN && Understood(r.modes[0], key) ==>
              AllFramed(r.packets)
              && Feed(st, key, r.packets).1 == Complete(Message(Low4(r.o.msgId), r.o.cmd, |r.packets|, r.o.data))
  {
    S.FreshRuns(link, evs);
    M.FreshAlikeIff(link, evs);
    M.AlikeAtEnd(S.Fresh(link), evs);
    assert S.Whole(r) && M.SteadyReport(r);
    ReportFragments(r);
    if |r.o.data| <= RX_BUFF_LEN && Understood(r.modes[0], key) { RoundTrip(r.o, r.modes[0], key, st, r.packets); }
  }
}
