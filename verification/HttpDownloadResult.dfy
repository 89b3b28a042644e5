/** When a download ends, and with which result: said by what the server sent and what the user and
    the data callback did. */
module HttpDownloadResult {
  import opened HttpDownload

  // ---------- one body ----------

  predicate StoppedBefore(r: Response, n: nat)
    requires n <= |r.receives|
  {
    exists j :: 0 <= j < n && r.receives[j].control == Stop
  }

  /** The callback takes all packets of a receive, which are of 2000 bytes but for the last. */
  predicate TakesAll(x: Receive) {
    2000 * x.accepts >= |x.data|
  }

  /** A receive that brings bytes is handed on only in a download that runs. */
  predicate RunsAt(r: Response, n: nat)
    requires n < |r.receives|
  {
    r.receives[n].control == Run && !StoppedBefore(r, n)
  }

  predicate TakenAt(r: Response, n: nat)
    requires n < |r.receives|
  {
    r.receives[n].data == [] || (RunsAt(r, n) && TakesAll(r.receives[n]))
  }

  /** The first n receives are read without an error. */
  predicate ReadWhole(r: Response, n: nat)
    requires n <= |r.receives|
  {
    forall k :: 0 <= k < n ==> TakenAt(r, k)
  }

  /** One of the first n receives that are read stops the download: the user, or the callback that
      refuses a packet. */
  predicate StopsAt(r: Response, k: nat)
    requires k < |r.receives|
  {
    ReadWhole(r, k)
    && (r.receives[k].control == Stop || (r.receives[k].data != [] && RunsAt(r, k) && !TakesAll(r.receives[k])))
  }

  predicate StopsBy(r: Response, n: nat)
    requires n <= |r.receives|
  {
    exists k :: 0 <= k < n && StopsAt(r, k)
  }

  predicate BringsData(r: Response, n: nat)
    requires n <= |r.receives|
  {
    exists k :: 0 <= k < n && r.receives[k].data != []
  }

  lemma {:induction false} SplitCount(data: Bytes)
    requires data != []
    ensures 2000 * (|Split(data)| - 1) < |data| <= 2000 * |Split(data)|
    decreases |data|
  {
    if MAX_PACKET_LEN < |data| { SplitCount(data[MAX_PACKET_LEN..]); }
  }

  /** One receive, in a download that a server feeds which honours Range. */
  lemma DataOutcome(c: Ctx, file: Bytes, chunked: bool, contentLength: nat, data: Bytes, accepts: nat)
    requires Inv(c, file, chunked)
    ensures var (c', ok) := OnData(c, chunked, contentLength, data, accepts);
            && (ok <==> data == [] || (c.control == Run && 2000 * accepts >= |data|))
            && (c'.control == Stop <==> c.control == Stop || (data != [] && c.control == Run && 2000 * accepts < |data|))
            && c'.retry == (if data == [] then c.retry else 0) && (ok ==> c'.refused == c.refused)
  {
    if data != [] { SplitCount(data); }
  }

  /** What has come out of the first n receives: whether one of them failed, whether the download
      was stopped, and its count of tries. */
  ghost predicate CameOut(r: Response, n: nat, was: Ctx, c: Ctx, ok: bool)
    requires n <= |r.receives|
  {
    && (ok <==> ReadWhole(r, n)) && (c.control == Stop <==> StopsBy(r, n))
    && (ok ==> (c.control == Stop <==> StoppedBefore(r, n)) && c.refused == was.refused)
    && c.retry == (if BringsData(r, n) then 0 else was.retry) && (!ok ==> BringsData(r, n))
  }

  lemma {:induction false} ReceivesComeOut(c: Ctx, file: Bytes, r: Response, n: nat)
    requires n <= |r.receives| && Inv(c, file, r.chunked) && c.control == Run && Honours(file, r.chunked, c.got, Got(r))
    ensures CameOut(r, n, c, OnReceives(c, r, n).0, OnReceives(c, r, n).1)
    decreases n
  {
    if n > 0 {
      ReceivesComeOut(c, file, r, n - 1);
      OnReceivesKeeps(c, file, r, n - 1);
      var (c1, ok) := OnReceives(c, r, n - 1);
      if ok {
        var x := r.receives[n - 1];
        DataOutcome(SetControl(c1, x.control), file, r.chunked, r.contentLength, x.data, x.accepts);
        NextComesOut(r, n, c, c1, OnReceives(c, r, n).0, OnReceives(c, r, n).1);
      } else {
        FailedComesOut(r, n, c, c1);
      }
    }
  }

  lemma FailedComesOut(r: Response, n: nat, was: Ctx, c: Ctx)
    requires 0 < n <= |r.receives| && CameOut(r, n - 1, was, c, false)
    ensures CameOut(r, n, was, c, false)
  {
    assert !ReadWhole(r, n - 1);
    assert StopsBy(r, n) ==> StopsBy(r, n - 1);
    assert StopsBy(r, n - 1) ==> StopsBy(r, n);
    assert BringsData(r, n);
  }

  lemma NextComesOut(r: Response, n: nat, was: Ctx, c1: Ctx, c: Ctx, ok: bool)
    requires 0 < n <= |r.receives| && CameOut(r, n - 1, was, c1, true)
    requires var x, control := r.receives[n - 1], SetControl(c1, r.receives[n - 1].control).control;
             && (ok <==> x.data == [] || (control == Run && TakesAll(x)))
             && (c.control == Stop <==> control == Stop || (x.data != [] && control == Run && !TakesAll(x)))
             && c.retry == (if x.data == [] then c1.retry else 0) && (ok ==> c.refused == c1.refused)
    ensures CameOut(r, n, was, c, ok)
  {
    var x := r.receives[n - 1];
    assert StoppedBefore(r, n) <==> StoppedBefore(r, n - 1) || x.control == Stop;
    assert ReadWhole(r, n) <==> ReadWhole(r, n - 1) && TakenAt(r, n - 1);
    assert StopsBy(r, n) <==> StopsBy(r, n - 1) || StopsAt(r, n - 1);
    assert BringsData(r, n) <==> BringsData(r, n - 1) || x.data != [];
  }

  // ---------- one pass ----------

  /** A pass succeeds exactly if there was a response whose body was read to its end and, if it was
      not chunked, brought the rest of a file that is not empty. */
  ghost predicate Succeeds(c: Ctx, file: Bytes, chunked: bool, a: Attempt) {
    a.Got?
    && var r := a.response;
       r.readOk && ReadWhole(r, |r.receives|) && (!chunked ==> file != [] && Handed(c) + Sent(r, |r.receives|) == file)
  }

  lemma PrefixWhole(file: Bytes, a: Bytes, b: Bytes)
    requires IsPrefix(a, file) && IsPrefix(b, file[|a|..])
    ensures a + b == file <==> |a| + |b| == |file|
  {
    if |a| + |b| == |file| {
      assert file[|a|..][..|b|] == file[|a|..];
      assert file == file[..|a|] + file[|a|..];
    }
  }

  lemma PassSucceedsIff(c: Ctx, file: Bytes, chunked: bool, a: Attempt)
    requires Inv(c, file, chunked) && c.control != Stop && Honours(file, chunked, c.got, a)
    ensures Request(c, a).success <==> Succeeds(c, file, chunked, a)
    ensures Request(c, a).success && !chunked ==> Handed(Request(c, a)) == file
  {
    RequestKeeps(c, file, chunked, a);
    if a.Got? {
      var r := a.response;
      var c1 := c.(success := false, control := Run);
      ReceivesComeOut(c1, file, r, |r.receives|);
      OnReceivesKeeps(c1, file, r, |r.receives|);
      PrefixWhole(file, Handed(c), Sent(r, |r.receives|));
    }
  }

  /** The pass ends stopped. */
  predicate StopsDuring(a: Attempt) {
    a.Got? && StopsBy(a.response, |a.response.receives|)
  }

  predicate HasData(a: Attempt) {
    a.Got? && BringsData(a.response, |a.response.receives|)
  }

  lemma PassComesOut(c: Ctx, file: Bytes, chunked: bool, a: Attempt)
    requires Inv(c, file, chunked) && c.control != Stop && Honours(file, chunked, c.got, a)
    ensures Request(c, a).control == Stop <==> StopsDuring(a)
    ensures Request(c, a).retry == if HasData(a) then 0 else c.retry
  {
    if a.Got? { ReceivesComeOut(c.(success := false, control := Run), file, a.response, |a.response.receives|); }
  }

  // ---------- whole runs ----------

  /** The tries in a row that brought no data, those that ended in a pause not counted. */
  function Tries(turns: seq<Turn>): nat
    decreases |turns|
  {
    if turns == [] then 0
    else
      var t := turns[|turns| - 1];
      (if HasData(t.attempt) then 0 else Tries(turns[..|turns| - 1]))
      + (if t.control == Pause && !StopsDuring(t.attempt) then 0 else 1)
  }

  /** A turn leads to another one exactly if its pass does not succeed, nobody stops the download, a
      pause is ended by going on, and no more than three tries in a row have brought nothing. */
  ghost predicate GoesOnAfter(c: Ctx, file: Bytes, chunked: bool, turns: seq<Turn>, t: Turn) {
    && !Succeeds(c, file, chunked, t.attempt) && !StopsDuring(t.attempt)
    && t.control != Stop && (t.control == Pause ==> t.resumed) && Tries(turns + [t]) <= 3
  }

  lemma {:induction false} TurnOutcome(c: Ctx, file: Bytes, chunked: bool, turns: seq<Turn>, t: Turn)
    requires Inv(c, file, chunked) && c.control != Stop && Honours(file, chunked, c.got, t.attempt) && c.retry == Tries(turns)
    ensures Step(c, t).Again? <==> GoesOnAfter(c, file, chunked, turns, t)
    ensures Step(c, t).Again? ==> Step(c, t).c.retry == Tries(turns + [t])
    ensures Step(c, t).c.reports
         == c.reports + [if GoesOnAfter(c, file, chunked, turns, t) then Retrying(Tries(turns + [t]))
                         else if Succeeds(c, file, chunked, t.attempt) then Succeeded else GaveUp]
  {
    PassSucceedsIff(c, file, chunked, t.attempt);
    PassComesOut(c, file, chunked, t.attempt);
    ReportsKept(c, t.attempt);
    assert (turns + [t])[..|turns|] == turns;
  }

  lemma {:induction false} HonouredAfter(file: Bytes, chunked: bool, turns: seq<Turn>, t: Turn)
    requires HonoursAll(file, chunked, turns + [t])
    ensures HonoursAll(file, chunked, turns)
    ensures Thread(turns).Again? ==>
              Honours(file, chunked, Thread(turns).c.got, t.attempt) && Thread(turns + [t]) == Step(Thread(turns).c, t)
    ensures Thread(turns).Finished? ==> Thread(turns + [t]) == Thread(turns)
  {
    assert (turns + [t])[..|turns|] == turns;
  }

  lemma {:induction false} RunCounts(file: Bytes, chunked: bool, turns: seq<Turn>)
    requires HonoursAll(file, chunked, turns) && Thread(turns).Again?
    ensures Thread(turns).c.retry == Tries(turns)
    decreases |turns|
  {
    if turns != [] {
      var n := |turns| - 1;
      assert turns == turns[..n] + [turns[n]];
      HonouredAfter(file, chunked, turns[..n], turns[n]);
      RunCounts(file, chunked, turns[..n]);
      RunKeeps(file, chunked, turns[..n]);
      TurnOutcome(Thread(turns[..n]).c, file, chunked, turns[..n], turns[n]);
    }
  }

  /** After every run that has not ended: whether the next turn leads to another one, and what is
      reported after it. */
  lemma {:induction false} GoesOnIff(file: Bytes, chunked: bool, turns: seq<Turn>, t: Turn)
    requires HonoursAll(file, chunked, turns + [t]) && Thread(turns).Again?
    ensures var c, next := Thread(turns).c, Thread(turns + [t]);
            && (next.Again? <==> GoesOnAfter(c, file, chunked, turns, t))
            && next.c.reports
               == c.reports + [if next.Again? then Retrying(Tries(turns + [t]))
                               else if Succeeds(c, file, chunked, t.attempt) then Succeeded else GaveUp]
  {
    HonouredAfter(file, chunked, turns, t);
    RunCounts(file, chunked, turns);
    RunKeeps(file, chunked, turns);
    TurnOutcome(Thread(turns).c, file, chunked, turns, t);
  }

  /** The pass at which the run ended was a success. */
  ghost predicate LastPassSucceeded(file: Bytes, chunked: bool, turns: seq<Turn>) {
    exists n :: 0 <= n < |turns| && EndsAt(turns, n) && Succeeds(Thread(turns[..n]).c, file, chunked, turns[n].attempt)
  }

  predicate EndsAt(turns: seq<Turn>, n: nat)
    requires n < |turns|
  {
    Thread(turns[..n]).Again? && Thread(turns[..n + 1]).Finished?
  }

  lemma {:induction false} EndFound(file: Bytes, chunked: bool, turns: seq<Turn>) returns (n: nat)
    requires HonoursAll(file, chunked, turns) && Thread(turns).Finished?
    ensures n < |turns| && EndsAt(turns, n) && Thread(turns[..n + 1]) == Thread(turns)
    ensures HonoursAll(file, chunked, turns[..n] + [turns[n]])
    decreases |turns|
  {
    var m := |turns| - 1;
    assert turns == turns[..m] + [turns[m]] && turns[..m + 1] == turns;
    HonouredAfter(file, chunked, turns[..m], turns[m]);
    if Thread(turns[..m]).Again? {
      n := m;
    } else {
      n := EndFound(file, chunked, turns[..m]);
      assert turns[..m][..n] == turns[..n] && turns[..m][..n + 1] == turns[..n + 1];
    }
  }

  lemma {:induction false} FinishedStays(turns: seq<Turn>, n: nat, m: nat)
    requires n <= m <= |turns| && Thread(turns[..n]).Finished?
    ensures Thread(turns[..m]).Finished?
    decreases m
  {
    if n < m {
      FinishedStays(turns, n, m - 1);
      assert turns[..m][..m - 1] == turns[..m - 1];
    }
  }

  /** A run that has ended reports success at its end exactly if the pass at which it ended succeeded. */
  lemma {:induction false} EndsIff(file: Bytes, chunked: bool, turns: seq<Turn>)
    requires HonoursAll(file, chunked, turns) && Thread(turns).Finished?
    ensures Thread(turns).c.success <==> LastPassSucceeded(file, chunked, turns)
    ensures var rs := Thread(turns).c.reports; rs != [] && (rs[|rs| - 1] == Succeeded <==> LastPassSucceeded(file, chunked, turns))
  {
    var n := EndFound(file, chunked, turns);
    GoesOnIff(file, chunked, turns[..n], turns[n]);
    assert turns[..n + 1] == turns[..n] + [turns[n]];
    RunKeeps(file, chunked, turns);
    if LastPassSucceeded(file, chunked, turns) {
      var k :| 0 <= k < |turns| && EndsAt(turns, k) && Succeeds(Thread(turns[..k]).c, file, chunked, turns[k].attempt);
      if k < n { FinishedStays(turns, k + 1, n); }
      if n < k { FinishedStays(turns, n + 1, k); }
    }
  }

  /** A file that comes whole in one response, and is taken whole, is reported at once. */
  lemma {:induction false} OnePassSucceeds(file: Bytes, r: Response, t: Turn)
    requires file != [] && !r.chunked && r.contentLength == |file| && r.readOk && t.attempt == Got(r)
    requires Sent(r, |r.receives|) == file && ReadWhole(r, |r.receives|)
    ensures Thread([t]).Finished? && Thread([t]).c.reports == [Started, Succeeded] && Handed(Thread([t]).c) == file
  {
    assert [t][..0] == [] && [] + [t] == [t];
    assert file[0..] == file && file[..|file|] == file;
    assert Honours(file, false, 0, t.attempt);
    assert HonoursAll(file, false, [t][..0]);
    assert HonoursAll(file, false, [t]);
    assert Handed(Thread([]).c) == [] && [] + file == file;
    GoesOnIff(file, false, [], t);
    RunKeeps(file, false, [t]);
  }

  /** So with one byte. */
  lemma {:induction false} OneByteSucceeds(b: int, t: Turn)
    requires t.attempt == Got(Response(false, 1, [Receive([b], Run, 1)], true))
    ensures Thread([t]).Finished? && Thread([t]).c.reports == [Started, Succeeded] && Handed(Thread([t]).c) == [b]
  {
    var r := t.attempt.response;
    assert Sent(r, 0) == [] && Sent(r, 1) == [] + [b];
    OnePassSucceeds([b], r, t);
  }
}
