/** The resumable download (lib_http_file_download/http_file_download_thread.c), against a server
    that honours the Range header (section 3.1 of RFC 7233). */
module HttpDownload {

  type Bytes = seq<int>

  const MAX_PACKET_LEN := 2000    // HTTP_RECV_CALLBACK_MAX_PACKET_LEN
  const MAX_RETRY := 3            // DOWNLOAD_FILE_MAX_RETRY

  datatype Control = Run | Pause | Stop

  datatype Report = Started | Retrying(count: int) | Succeeded | GaveUp

  /** FILE_DOWNLOAD_CONTEXT_S: retry_count, file_total_len, download_len, control_state and
      is_success; and what was seen of it: the packets that the data callback took, the reports of
      the state callback (but for its progress reports), and whether the data callback has refused
      a packet. */
  datatype Ctx = Ctx(retry: nat, total: nat, got: nat, control: Control, success: bool,
                     packets: seq<Bytes>, reports: seq<Report>, refused: bool)

  /** The context that http_file_download_start makes. */
  const FRESH := Ctx(0, 0, 0, Run, false, [], [], false)

  function Concat(packets: seq<Bytes>): Bytes {
    if packets == [] then [] else Concat(packets[..|packets| - 1]) + packets[|packets| - 1]
  }

  /** The bytes that the data callback took, in order. */
  function Handed(c: Ctx): Bytes {
    Concat(c.packets)
  }

  // ---------- one receive ----------

  /** The packets in which one receive is handed on. */
  function Split(data: Bytes): (r: seq<Bytes>)
    requires data != []
    decreases |data|
  {
    if MAX_PACKET_LEN < |data| then [data[..MAX_PACKET_LEN]] + Split(data[MAX_PACKET_LEN..]) else [data]
  }

  function Min(a: int, b: int): int {
    if a < b then a else b
  }

  /** What a response is made of, and the user's part: whether it is chunked, its content length,
      and each receive with what the data callback and the control state do during it. */
  datatype Receive = Receive(data: Bytes, control: Control, accepts: nat)

  datatype Response = Response(chunked: bool, contentLength: nat, receives: seq<Receive>, readOk: bool)

  /** The user changes the control state; a download that was stopped stays so. */
  function SetControl(c: Ctx, control: Control): Ctx {
    if c.control == Stop then c else c.(control := control)
  }

  /** onReceivedData, when the callback takes `accepts` packets before it refuses one; false is an
      error, on which the body is not read any further. */
  function OnData(c: Ctx, chunked: bool, contentLength: nat, data: Bytes, accepts: nat): (Ctx, bool) {
    if data == [] then (c, true)
    else
      var c1 := c.(retry := 0);
      if c1.control != Run then (c1, false)
      else
        var c2 := if !chunked && c1.total == 0 then c1.(total := contentLength) else c1;
        if !chunked && c2.total < c2.got then (c2, false)
        else if accepts < |Split(data)| then
          (c2.(packets := c2.packets + Split(data)[..accepts], control := Stop, refused := true), false)
        else (c2.(packets := c2.packets + Split(data), got := c2.got + |data|), true)
  }

  // ---------- one request ----------

  /** Reading a body: receive after receive, until one fails. */
  function OnReceives(c: Ctx, r: Response, n: nat): (Ctx, bool)
    requires n <= |r.receives|
    decreases n
  {
    if n == 0 then (c, true)
    else
      var (c1, ok) := OnReceives(c, r, n - 1);
      if !ok then (c1, false)
      else
        var x := r.receives[n - 1];
        OnData(SetControl(c1, x.control), r.chunked, r.contentLength, x.data, x.accepts)
  }

  /** One pass from FILE_DOWNLOAD_START on: no response of status 200 or 206 at all, or one. */
  datatype Attempt = NoResponse | Got(response: Response)

  function IsComplete(c: Ctx, chunked: bool): bool {
    chunked || (c.got == c.total && c.total != 0)
  }

  /** What one pass makes of the context, up to the label exit. */
  function Request(c: Ctx, a: Attempt): Ctx {
    var c1 := c.(success := false, control := Run);
    match a
    case NoResponse => c1
    case Got(r) =>
      var (c2, ok) := OnReceives(c1, r, |r.receives|);
      if ok && r.readOk && IsComplete(c2, r.chunked) then c2.(success := true) else c2
  }

  // ---------- the thread ----------

  /** A pass and what the user does after it: a control state, and whether a pause ends with the
      download going on. */
  datatype Turn = Turn(attempt: Attempt, control: Control, resumed: bool)

  datatype Next = Again(c: Ctx) | Finished(c: Ctx)

  /** file_download_check_control_state: a pause is waited out. */
  function GoesOn(c: Ctx, t: Turn): bool {
    c.control == Run || (c.control == Pause && t.resumed)
  }

  function Finish(c: Ctx): Next {
    Finished(c.(reports := c.reports + [if c.success then Succeeded else GaveUp]))
  }

  /** One turn of the thread: a pass, then success, another try, or the end. */
  function Step(c: Ctx, t: Turn): Next {
    Decide(Request(c, t.attempt), t)
  }

  /** What follows the pass. */
  function Decide(c: Ctx, t: Turn): Next {
    var c1 := SetControl(c, t.control);
    if c1.success then Finish(c1)
    else
      var c2 := c1.(retry := if c1.control == Pause then c1.retry else c1.retry + 1);
      if c2.retry <= MAX_RETRY && GoesOn(c2, t) then Again(c2.(reports := c2.reports + [Retrying(c2.retry)]))
      else Finish(c2)
  }

  /** The thread from its start: it reports that it started, and takes turns until it finishes. */
  function Thread(turns: seq<Turn>): Next
    decreases |turns|
  {
    if turns == [] then Again(FRESH.(reports := [Started]))
    else
      match Thread(turns[..|turns| - 1])
      case Again(c) => Step(c, turns[|turns| - 1])
      case Finished(c) => Finished(c)
  }

  // ---------- a server that honours Range ----------

  /** The data of the receives up to n. */
  function Sent(r: Response, n: nat): Bytes
    requires n <= |r.receives|
    decreases n
  {
    if n == 0 then [] else Sent(r, n - 1) + r.receives[n - 1].data
  }

  predicate IsPrefix(a: Bytes, b: Bytes) {
    |a| <= |b| && b[..|a|] == a
  }

  /** To a request for the bytes from `from` on: these bytes or the beginning of them, and in a
      response that is not chunked their number. */
  predicate Honours(file: Bytes, chunked: bool, from: nat, a: Attempt) {
    a.Got? ==>
      && a.response.chunked == chunked && from <= |file|
      && IsPrefix(Sent(a.response, |a.response.receives|), file[from..])
      && (!chunked ==> a.response.contentLength == |file| - from)
  }

  /** The server honours every request of the run. */
  predicate HonoursAll(file: Bytes, chunked: bool, turns: seq<Turn>)
    decreases |turns|
  {
    turns == []
    || (HonoursAll(file, chunked, turns[..|turns| - 1])
        && match Thread(turns[..|turns| - 1])
           case Again(c) => Honours(file, chunked, c.got, turns[|turns| - 1].attempt)
           case Finished(_) => true)
  }

  // ---------- the invariant ----------

  predicate GoodPacket(p: Bytes) {
    1 <= |p| <= MAX_PACKET_LEN
  }

  predicate GoodPackets(ps: seq<Bytes>) {
    forall i :: 0 <= i < |ps| ==> GoodPacket(ps[i])
  }

  /** The callback has taken the first bytes of the file, each once and in order: exactly
      download_len of them, until it refuses a packet. A refusal stops the download. */
  predicate Inv(c: Ctx, file: Bytes, chunked: bool) {
    && c.got <= |Handed(c)| && IsPrefix(Handed(c), file) && GoodPackets(c.packets)
    && (if c.refused then c.control == Stop else |Handed(c)| == c.got)
    && (!chunked ==> if c.total == 0 then c.got == 0 else c.total == |file|)
  }

  lemma {:induction false} ConcatAppend(a: seq<Bytes>, b: seq<Bytes>)
    ensures Concat(a + b) == Concat(a) + Concat(b)
    decreases |b|
  {
    if b == [] {
      assert a + b == a;
    } else {
      var n := |b| - 1;
      assert (a + b)[..|a| + n] == a + b[..n];
      ConcatAppend(a, b[..n]);
    }
  }

  /** The packets of a receive are its bytes, in packets of 1 to 2000. */
  lemma {:induction false} SplitMeaning(data: Bytes)
    requires data != []
    ensures Concat(Split(data)) == data && GoodPackets(Split(data))
    ensures forall i :: 0 <= i < |Split(data)| - 1 ==> |Split(data)[i]| == 2000
    decreases |data|
  {
    if MAX_PACKET_LEN < |data| {
      var p, rest := data[..MAX_PACKET_LEN], data[MAX_PACKET_LEN..];
      SplitMeaning(rest);
      ConcatAppend([p], Split(rest));
      ConcatOne(p);
      assert p + rest == data;
    } else {
      ConcatOne(data);
    }
  }

  lemma ConcatOne(p: Bytes)
    ensures Concat([p]) == p
  {
    assert [p][..0] == [];
  }

  lemma {:induction false} ConcatPrefix(ps: seq<Bytes>, n: nat)
    requires n <= |ps|
    ensures IsPrefix(Concat(ps[..n]), Concat(ps))
  {
    ConcatAppend(ps[..n], ps[n..]);
    assert ps[..n] + ps[n..] == ps;
  }

  lemma PrefixNext(file: Bytes, handed: Bytes, data: Bytes, part: Bytes)
    requires IsPrefix(handed, file) && IsPrefix(data, file[|handed|..]) && IsPrefix(part, data)
    ensures IsPrefix(handed + part, file)
  {
    var n := |handed|;
    assert file[n..][..|part|] == file[n..][..|data|][..|part|];
    assert file[..n + |part|] == file[..n] + file[n..][..|part|];
  }

  lemma GoodAppend(a: seq<Bytes>, b: seq<Bytes>, n: nat)
    requires GoodPackets(a) && GoodPackets(b) && n <= |b|
    ensures GoodPackets(a + b[..n])
  {
  }

  /** One receive of bytes that follow those taken so far. */
  lemma OnDataKeeps(c: Ctx, file: Bytes, chunked: bool, contentLength: nat, data: Bytes, accepts: nat)
    requires Inv(c, file, chunked) && IsPrefix(data, file[Min(c.got, |file|)..])
    requires !chunked && c.total == 0 ==> contentLength == |file|
    ensures var (c', ok) := OnData(c, chunked, contentLength, data, accepts);
            Inv(c', file, chunked) && (ok ==> c'.got == c.got + |data|)
    ensures OnData(c, chunked, contentLength, data, accepts).0.success == c.success
  {
    if data != [] && c.control == Run {
      var n := Min(accepts, |Split(data)|);
      var part := Split(data)[..n];
      SplitMeaning(data);
      ConcatPrefix(Split(data), n);
      ConcatAppend(c.packets, part);
      PrefixNext(file, Handed(c), data, Concat(part));
      GoodAppend(c.packets, Split(data), n);
      if n == |Split(data)| { assert part == Split(data); }
    }
  }

  /** The receive brings no packet to the callback, or the callback takes them all or none. */
  predicate TakenWhole(c: Ctx, chunked: bool, contentLength: nat, data: Bytes, accepts: nat) {
    || data == [] || c.control != Run || accepts == 0 || accepts >= |Split(data)|
    || (!chunked && (if c.total == 0 then contentLength else c.total) < c.got)
  }

  lemma TakesSome(packets: seq<Bytes>, data: Bytes, n: nat)
    requires data != [] && 0 < n <= |Split(data)|
    ensures |Concat(packets + Split(data)[..n])| > |Concat(packets)|
  {
    var part := Split(data)[..n];
    SplitMeaning(data);
    ConcatAppend(packets, part);
    ConcatPrefix(part, 1);
    assert part[..1] == [part[0]];
    ConcatOne(part[0]);
    assert GoodPacket(Split(data)[0]);
  }

  /** When one receive leaves download_len behind the bytes that were taken: exactly if the
      callback takes some of its packets and refuses another. */
  lemma CountedUnlessRefused(c: Ctx, chunked: bool, contentLength: nat, data: Bytes, accepts: nat)
    requires |Handed(c)| == c.got
    ensures var c' := OnData(c, chunked, contentLength, data, accepts).0;
            |Handed(c')| == c'.got <==> TakenWhole(c, chunked, contentLength, data, accepts)
  {
    if data != [] && c.control == Run {
      SplitMeaning(data);
      ConcatAppend(c.packets, Split(data));
      if 0 < accepts < |Split(data)| { TakesSome(c.packets, data, accepts); }
      assert c.packets + Split(data)[..0] == c.packets;
    }
  }

  /** Such a receive: 2001 bytes, of which the callback takes the first packet only. 2000 bytes
      have been handed on and none is counted. */
  lemma RefusedSecond(data: Bytes)
    requires |data| == MAX_PACKET_LEN + 1
    ensures var (c, ok) := OnData(FRESH, false, |data|, data, 1);
            !ok && c.refused && c.control == Stop && c.got == 0 && Handed(c) == data[..MAX_PACKET_LEN]
  {
    var first := data[..MAX_PACKET_LEN];
    assert Split(data)[..1] == [first];
    assert FRESH.packets + [first] == [first];
    ConcatOne(first);
  }

  lemma {:induction false} SentGrows(r: Response, n: nat)
    requires n <= |r.receives|
    ensures IsPrefix(Sent(r, n), Sent(r, |r.receives|))
    decreases |r.receives| - n
  {
    if n < |r.receives| {
      SentGrows(r, n + 1);
      PrefixTrans(Sent(r, n), Sent(r, n + 1), Sent(r, |r.receives|));
    }
  }

  lemma PrefixTrans(a: Bytes, b: Bytes, c: Bytes)
    requires IsPrefix(a, b) && IsPrefix(b, c)
    ensures IsPrefix(a, c)
  {
    assert c[..|a|] == c[..|b|][..|a|];
  }

  lemma PrefixTail(file: Bytes, from: nat, a: Bytes, b: Bytes)
    requires from <= |file| && IsPrefix(a + b, file[from..])
    ensures from + |a| <= |file| && IsPrefix(b, file[from + |a|..])
  {
    assert file[from + |a|..][..|b|] == file[from..][..|a + b|][|a|..];
  }

  /** What comes next is what follows in the file. */
  lemma NextFollows(file: Bytes, from: nat, r: Response, n: nat)
    requires 0 < n <= |r.receives| && Honours(file, r.chunked, from, Got(r))
    ensures var at := from + |Sent(r, n - 1)|;
            at <= |file| && IsPrefix(r.receives[n - 1].data, file[at..])
  {
    var data := r.receives[n - 1].data;
    SentGrows(r, n);
    PrefixTrans(Sent(r, n - 1) + data, Sent(r, |r.receives|), file[from..]);
    PrefixTail(file, from, Sent(r, n - 1), data);
  }

  lemma NextKeeps(c: Ctx, c1: Ctx, file: Bytes, r: Response, x: Receive)
    requires Inv(c1, file, r.chunked) && c1.got <= |file| && IsPrefix(x.data, file[c1.got..])
    requires !r.chunked && c1.total == 0 ==> c.got == 0
    requires !r.chunked ==> r.contentLength == |file| - c.got
    ensures var (c', ok) := OnData(SetControl(c1, x.control), r.chunked, r.contentLength, x.data, x.accepts);
            Inv(c', file, r.chunked) && (ok ==> c'.got == c1.got + |x.data|) && c'.success == c1.success
            && (!r.chunked && c'.total == 0 ==> c1.total == 0)
  {
    OnDataKeeps(SetControl(c1, x.control), file, r.chunked, r.contentLength, x.data, x.accepts);
  }

  /** A body keeps the invariant, receive after receive. */
  lemma {:induction false} OnReceivesKeeps(c: Ctx, file: Bytes, r: Response, n: nat)
    requires n <= |r.receives| && Inv(c, file, r.chunked) && c.control != Stop
    requires Honours(file, r.chunked, c.got, Got(r))
    ensures var (c', ok) := OnReceives(c, r, n);
            Inv(c', file, r.chunked) && (ok ==> c'.got == c.got + |Sent(r, n)|) && c'.success == c.success
            && (!r.chunked && c'.total == 0 ==> c.got == 0)
    decreases n
  {
    if n > 0 {
      OnReceivesKeeps(c, file, r, n - 1);
      var (c1, ok) := OnReceives(c, r, n - 1);
      if ok {
        NextFollows(file, c.got, r, n);
        NextKeeps(c, c1, file, r, r.receives[n - 1]);
      }
    }
  }

  lemma RequestKeeps(c: Ctx, file: Bytes, chunked: bool, a: Attempt)
    requires Inv(c, file, chunked) && c.control != Stop && Honours(file, chunked, c.got, a)
    ensures Inv(Request(c, a), file, chunked)
    ensures Request(c, a).success && !chunked ==> Handed(Request(c, a)) == file
  {
    var c1 := c.(success := false, control := Run);
    if a.Got? {
      OnReceivesKeeps(c1, file, a.response, |a.response.receives|);
      if Request(c, a).success && !chunked { WholePrefix(Handed(Request(c, a)), file); }
    }
  }

  lemma WholePrefix(a: Bytes, b: Bytes)
    requires IsPrefix(a, b) && |a| >= |b|
    ensures a == b
  {
    assert b[..|b|] == b;
  }

  // ---------- whole runs ----------

  /** The reports of a thread: started, any number of retries, and at its end one result. */
  predicate Reported(next: Next) {
    var rs := next.c.reports;
    rs != [] && rs[0] == Started
    && if next.Again? then forall i :: 1 <= i < |rs| ==> rs[i].Retrying?
       else
         |rs| >= 2 && (forall i :: 1 <= i < |rs| - 1 ==> rs[i].Retrying?)
         && rs[|rs| - 1] == if next.c.success then Succeeded else GaveUp
  }

  /** Over every run, however often the connection breaks and whatever the user and the callback
      do: the callback takes the file's bytes from the start on, each once, in packets of 1 to
      2000; as many as download_len says, unless it has refused a packet. A download that goes on
      has not been stopped. Success is reported at the end only and, for a body that is not chunked,
      only when the callback has taken the whole file. */
  lemma {:induction false} RunKeeps(file: Bytes, chunked: bool, turns: seq<Turn>)
    requires HonoursAll(file, chunked, turns)
    ensures var next := Thread(turns);
            Inv(next.c, file, chunked) && Reported(next)
            && (next.Again? ==> next.c.control != Stop && next.c.retry <= MAX_RETRY)
            && (next.Finished? && next.c.success && !chunked ==> Handed(next.c) == file)
    decreases |turns|
  {
    if turns != [] {
      var n := |turns| - 1;
      RunKeeps(file, chunked, turns[..n]);
      var before := Thread(turns[..n]);
      if before.Again? { StepKeeps(before.c, file, chunked, turns[n]); }
    }
  }

  lemma StepKeeps(c: Ctx, file: Bytes, chunked: bool, t: Turn)
    requires Inv(c, file, chunked) && c.control != Stop && Reported(Again(c)) && Honours(file, chunked, c.got, t.attempt)
    ensures var next := Step(c, t);
            Inv(next.c, file, chunked) && Reported(next)
            && (next.Again? ==> next.c.control != Stop && next.c.retry <= MAX_RETRY)
            && (next.Finished? && next.c.success && !chunked ==> Handed(next.c) == file)
  {
    RequestKeeps(c, file, chunked, t.attempt);
    ReportsKept(c, t.attempt);
  }

  lemma ReportsKept(c: Ctx, a: Attempt)
    ensures Request(c, a).reports == c.reports
  {
    if a.Got? { ReportsInBody(c.(success := false, control := Run), a.response, |a.response.receives|); }
  }

  lemma {:induction false} ReportsInBody(c: Ctx, r: Response, n: nat)
    requires n <= |r.receives|
    ensures OnReceives(c, r, n).0.reports == c.reports
    decreases n
  {
    if n > 0 { ReportsInBody(c, r, n - 1); }
  }
}
