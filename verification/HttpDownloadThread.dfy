/** The download as it stands in memory: the context, the data callback's loop and the thread. */
module HttpDownloadThread {
  import opened HttpDownload
  import opened HttpDownloadResult

  class DownloadContext {
    var retry: nat
    var total: nat
    var got: nat
    var control: Control
    var success: bool
    ghost var packets: seq<Bytes>
    ghost var reports: seq<Report>
    ghost var refused: bool

    ghost function State(): Ctx
      reads this
    {
      Ctx(retry, total, got, control, success, packets, reports, refused)
    }

    /** http_file_download_start */
    constructor ()
      ensures State() == FRESH
    {
      retry, total, got, control, success := 0, 0, 0, Run, false;
      packets, reports, refused := [], [], false;
    }

    /** The loop of onReceivedData: packets of 2000 bytes and a last one of what is left, until the
        callback refuses one. */
    method HandOn(data: Bytes, accepts: nat) returns (ok: bool)
      requires data != []
      modifies this`packets
      ensures ok == (accepts >= |Split(data)|)
      ensures packets == old(packets) + if ok then Split(data) else Split(data)[..accepts]
    {
      var index, count := 0, 0;
      ghost var done: seq<Bytes> := [];
      assert data[0..] == data;
      while index + MAX_PACKET_LEN < |data|
        invariant 0 <= index < |data| && count == |done| <= accepts
        invariant Split(data) == done + Split(data[index..]) && packets == old(packets) + done
        decreases |data| - index
      {
        ghost var rest := data[index..];
        if count == accepts {
          assert Split(data)[..accepts] == done;
          return false;
        }
        assert Split(rest) == [rest[..MAX_PACKET_LEN]] + Split(rest[MAX_PACKET_LEN..]);
        assert rest[MAX_PACKET_LEN..] == data[index + MAX_PACKET_LEN..];
        assert rest[..MAX_PACKET_LEN] == data[index..index + MAX_PACKET_LEN];
        packets := packets + [data[index..index + MAX_PACKET_LEN]];
        done := done + [data[index..index + MAX_PACKET_LEN]];
        index, count := index + MAX_PACKET_LEN, count + 1;
      }
      assert Split(data[index..]) == [data[index..]];
      if count == accepts {
        assert Split(data)[..accepts] == done;
        return false;
      }
      packets := packets + [data[index..]];
      return true;
    }

    /** onReceivedData, for a response of status 200 or 206 */
    method OnReceivedData(chunked: bool, contentLength: nat, data: Bytes, accepts: nat) returns (ok: bool)
      modifies this
      ensures (State(), ok) == OnData(old(State()), chunked, contentLength, data, accepts)
    {
      if |data| == 0 { return true; }
      retry := 0;
      if control == Pause || control == Stop { return false; }
      if !chunked {
        if total == 0 { total := contentLength; }
        if total < got { return false; }
      }
      ok := HandOn(data, accepts);
      if !ok {
        control, refused := Stop, true;
        return;
      }
      got := got + |data|;
    }

    /** The reading of a body: the receives are handed on until one fails. */
    method ReadBody(r: Response) returns (ok: bool)
      modifies this
      ensures (State(), ok) == OnReceives(old(State()), r, |r.receives|)
    {
      var i := 0;
      ok := true;
      while i < |r.receives|
        invariant 0 <= i <= |r.receives| && (State(), ok) == OnReceives(old(State()), r, i)
      {
        if ok {
          if control != Stop { control := r.receives[i].control; }
          ok := OnReceivedData(r.chunked, r.contentLength, r.receives[i].data, r.receives[i].accepts);
        }
        i := i + 1;
      }
    }

    /** From FILE_DOWNLOAD_START to the label exit. */
    method OneRequest(a: Attempt)
      modifies this
      ensures State() == Request(old(State()), a)
    {
      success := false;
      control := Run;
      if a.Got? {
        var ok := ReadBody(a.response);
        if ok && a.response.readOk {
          if a.response.chunked { success := true; }
          if !a.response.chunked && got == total && total != 0 { success := true; }
        }
      }
    }

    /** What follows the label exit: whether the thread goes back to FILE_DOWNLOAD_START. */
    method AfterRequest(t: Turn) returns (again: bool)
      modifies this
      ensures (if again then Again(State()) else Finished(State())) == Decide(old(State()), t)
    {
      if control != Stop { control := t.control; }
      if !success {
        retry := retry + 1;
        if control == Pause { retry := retry - 1; }
        if retry <= MAX_RETRY {
          var goesOn := CheckControlState(t.resumed);
          if goesOn {
            reports := reports + [Retrying(retry)];
            return true;
          }
        }
      }
      reports := reports + [if success then Succeeded else GaveUp];
      return false;
    }

    /** file_download_check_control_state */
    method CheckControlState(resumed: bool) returns (run: bool)
      ensures run == (control == Run || (control == Pause && resumed))
    {
      run := if control == Pause then resumed else control == Run;
    }

    /** http_file_download_thread, for as many turns as are given */
    method RunThread(turns: seq<Turn>) returns (running: bool)
      requires State() == FRESH
      modifies this
      ensures (if running then Again(State()) else Finished(State())) == Thread(turns)
    {
      reports := reports + [Started];
      running := true;
      var i := 0;
      assert turns[..0] == [];
      while i < |turns|
        invariant 0 <= i <= |turns|
        invariant (if running then Again(State()) else Finished(State())) == Thread(turns[..i])
      {
        assert turns[..i + 1][..i] == turns[..i];
        if running {
          OneRequest(turns[i].attempt);
          running := AfterRequest(turns[i]);
        }
        i := i + 1;
      }
      assert turns[..i] == turns;
    }

    /** So, against a server that honours Range: a thread that has ended reports success exactly if
        its last pass succeeded, and then it has handed on the whole file, if it was not chunked. */
    method Download(ghost file: Bytes, ghost chunked: bool, turns: seq<Turn>) returns (running: bool)
      requires State() == FRESH && HonoursAll(file, chunked, turns)
      modifies this
      ensures Inv(State(), file, chunked)
      ensures !running ==> (success <==> LastPassSucceeded(file, chunked, turns))
      ensures !running && success && !chunked ==> Handed(State()) == file
    {
      running := RunThread(turns);
      RunKeeps(file, chunked, turns);
      if !running { EndsIff(file, chunked, turns); }
    }
  }
}
