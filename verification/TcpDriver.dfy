// TCPDriverComm: the transfer loops, one request in, one reply out, and the allocation file.
module TcpDriver {
  import opened AllocationFile
  import opened Bytes
  import opened Framing
  import opened Options
  import opened OrderedMaps
  import opened Requests
  import opened Streams
  import opened Wire

  /** What a request object says. */
  function RequestOf(d: DriverData): Request
    reads d
  {
    Request(d.kind, d.handle, d.offset, d.len, d.buffer)
  }

  function ReplyOf(d: DriverData): Reply
    reads d
  {
    Reply(d.kind, d.ok, d.handle, d.len, d.buffer)
  }

  /** ReadAll: exactly count bytes, however read splits them; None if the connection ends first. */
  method ReadAll(sock: Socket, count: nat) returns (r: Option<seq<byte>>)
    modifies sock`incoming
    ensures r.Some? <==> count <= |old(sock.incoming)|
    ensures r.Some? ==> r.value == old(sock.incoming)[..count] && sock.incoming == old(sock.incoming)[count..]
    ensures r.None? ==> sock.incoming == []
  {
    var buf: seq<byte> := [];
    var remaining := count;
    while remaining > 0
      invariant |buf| + remaining == count && remaining >= 0 && |buf| <= |old(sock.incoming)|
      invariant buf == old(sock.incoming)[..|buf|] && sock.incoming == old(sock.incoming)[|buf|..]
    {
      var n, data := sock.Read(remaining);
      if n <= 0 {
        return None;
      }
      buf := buf + data;
      remaining := remaining - n;
    }
    assert buf == old(sock.incoming)[..count];
    r := Some(buf);
  }

  /** WriteAll: the bytes of buf in order, all of them unless the connection ends. */
  method WriteAll(sock: Socket, buf: seq<byte>) returns (ok: bool)
    modifies sock`outgoing, sock`room
    ensures ok <==> |buf| <= old(sock.room)
    ensures sock.outgoing == old(sock.outgoing) + buf[..Min(|buf|, old(sock.room))]
    ensures sock.room == old(sock.room) - Min(|buf|, old(sock.room))
  {
    var sent := 0;
    while sent < |buf|
      invariant sent <= |buf| && sent + sock.room == old(sock.room)
      invariant sock.outgoing == old(sock.outgoing) + buf[..sent]
    {
      ghost var before := sock.outgoing;
      var n := sock.Write(buf[sent..]);
      if n <= 0 {
        return false;
      }
      assert buf[sent..][..n] == buf[sent..sent + n];
      assert buf[..sent] + buf[sent..sent + n] == buf[..sent + n];
      sent := sent + n;
    }
    ok := true;
  }

  /** The payloads a WRITE of data at offset leaves: appended, not replaced. */
  function Appended(m: Allocations, offset: nat, data: seq<byte>): Allocations {
    m[offset := (if offset in m then m[offset] else []) + data]
  }

  // ---- What a list of requests leaves ----

  /** The payloads of the WRITEs at an offset, in the order they arrive. */
  function Payloads(rs: seq<Request>, offset: nat): seq<byte> {
    if rs == [] then []
    else
      var r := rs[|rs| - 1];
      Payloads(rs[..|rs| - 1], offset) + if r.kind == WRITE && r.offset == offset then r.buffer else []
  }

  ghost predicate WrittenAt(rs: seq<Request>, offset: nat) {
    exists i :: 0 <= i < |rs| && rs[i].kind == WRITE && rs[i].offset == offset
  }

  /** Every offset has what it had, followed by the payloads of the WRITEs there; no other is added. */
  ghost predicate Collected(m: Allocations, rs: seq<Request>, m1: Allocations) {
    && (forall k :: k in m1 <==> k in m || WrittenAt(rs, k))
    && (forall k | k in m1 :: m1[k] == (if k in m then m[k] else []) + Payloads(rs, k))
  }

  ghost predicate AnyWrite(rs: seq<Request>) {
    exists i :: 0 <= i < |rs| && rs[i].kind == WRITE
  }

  lemma AnyWriteIn(rs: seq<Request>, n: nat)
    requires n < |rs|
    ensures AnyWrite(rs[..n + 1]) <==> AnyWrite(rs[..n]) || rs[n].kind == WRITE
  {
    var init, all := rs[..n], rs[..n + 1];
    if i :| 0 <= i < |init| && init[i].kind == WRITE {
      assert all[i].kind == WRITE;
    }
    if i :| 0 <= i < |all| && all[i].kind == WRITE {
      assert i < n ==> init[i].kind == WRITE;
    }
    assert all[n] == rs[n];
  }

  lemma NothingCollected(m: Allocations)
    ensures Collected(m, [], m)
  {
  }

  lemma CollectsOneMore(m: Allocations, rs: seq<Request>, n: nat, m1: Allocations, m2: Allocations)
    requires n < |rs| && Collected(m, rs[..n], m1)
    requires m2 == if rs[n].kind == WRITE then Appended(m1, rs[n].offset, rs[n].buffer) else m1
    ensures Collected(m, rs[..n + 1], m2)
  {
    hide Payloads, WrittenAt, Appended;
    forall k
      ensures k in m2 <==> k in m || WrittenAt(rs[..n + 1], k)
      ensures k in m2 ==> m2[k] == (if k in m then m[k] else []) + Payloads(rs[..n + 1], k)
    {
      OneMore(rs, n, k);
      CollectedKey(m, rs[..n], m1, m2, k, rs[n]);
      if k in m2 {
        CollectedAt(m, rs[..n], rs[..n + 1], m1, m2, k, rs[n]);
      }
    }
  }

  lemma OneMore(rs: seq<Request>, n: nat, k: nat)
    requires n < |rs|
    ensures WrittenAt(rs[..n + 1], k) <==> WrittenAt(rs[..n], k) || (rs[n].kind == WRITE && rs[n].offset == k)
    ensures Payloads(rs[..n + 1], k) ==
            Payloads(rs[..n], k) + if rs[n].kind == WRITE && rs[n].offset == k then rs[n].buffer else []
  {
    var init, all := rs[..n], rs[..n + 1];
    assert all[..n] == init && all[n] == rs[n];
    if i :| 0 <= i < |init| && init[i].kind == WRITE && init[i].offset == k {
      assert all[i] == init[i];
    }
    if i :| 0 <= i < |all| && all[i].kind == WRITE && all[i].offset == k {
      assert i < n ==> init[i] == all[i];
    }
  }

  lemma CollectedKey(m: Allocations, init: seq<Request>, m1: Allocations, m2: Allocations, k: nat, r: Request)
    requires Collected(m, init, m1)
    requires m2 == if r.kind == WRITE then Appended(m1, r.offset, r.buffer) else m1
    ensures k in m2 <==> k in m || WrittenAt(init, k) || (r.kind == WRITE && r.offset == k)
  {
    hide Payloads, WrittenAt;
  }

  lemma CollectedAt(m: Allocations, init: seq<Request>, all: seq<Request>, m1: Allocations, m2: Allocations,
                    k: nat, r: Request)
    requires Collected(m, init, m1) && k in m2
    requires m2 == if r.kind == WRITE then Appended(m1, r.offset, r.buffer) else m1
    requires Payloads(all, k) == Payloads(init, k) + if r.kind == WRITE && r.offset == k then r.buffer else []
    ensures m2[k] == (if k in m then m[k] else []) + Payloads(all, k)
  {
    hide Payloads, WrittenAt;
    var p := Payloads(init, k);
    if k in m1 {
      assert m1[k] == (if k in m then m[k] else []) + p;
      var more := if r.kind == WRITE && r.offset == k then r.buffer else [];
      AddAssociates(if k in m then m[k] else [], p, more);
      assert m2[k] == m1[k] + more;
    } else {
      NothingWritten(init, k);
    }
  }

  lemma {:induction false} NothingWritten(rs: seq<Request>, offset: nat)
    requires !WrittenAt(rs, offset)
    ensures Payloads(rs, offset) == []
  {
    if rs != [] {
      var n := |rs| - 1;
      assert !(rs[n].kind == WRITE && rs[n].offset == offset);
      forall i | 0 <= i < n
        ensures !(rs[..n][i].kind == WRITE && rs[..n][i].offset == offset)
      {
        assert rs[i] == rs[..n][i];
      }
      NothingWritten(rs[..n], offset);
    }
  }

  class TCPDriverComm {
    var allocations: Allocations
    /** The .tcp_allocations file, if there is one. */
    var file: Option<seq<byte>>
    /** The handles SendReply was called with. */
    ghost var replies: seq<nat>

    /** Starts from what the file of an earlier session holds. */
    constructor (file: Option<seq<byte>>)
      ensures this.file == file && replies == []
      ensures allocations == if file.None? then map[] else LoadRecords(file.value, map[])
    {
      this.file := file;
      allocations := map[];
      replies := [];
      new;
      LoadAllocations();
    }

    method ReceiveRequest(sock: Socket, fd: int, save: SaveIo) returns (r: DriverData?)
      modifies sock`incoming, this`allocations, this`file
      ensures match ParseRequest(old(sock.incoming))
              case Truncated => r == null && sock.incoming == [] && allocations == old(allocations) && file == old(file)
              case Parsed(q, rest) =>
                && r != null && fresh(r) && RequestOf(r) == q && r.ok && r.sourceFd == fd
                && sock.incoming == rest
                && allocations == (if q.kind == WRITE then Appended(old(allocations), q.offset, q.buffer)
                                   else old(allocations))
                && file == (if q.kind == WRITE then FileAfter(old(file), Records(Entries(allocations)), save)
                            else old(file))
    {
      var header := ReadAll(sock, REQUEST_HEADER);
      if header.None? {
        return null;
      }
      var s := header.value;
      var kind, handle := FromBigEndian(s[..4]), FromBigEndian(s[4..12]);
      var offset, len := FromBigEndian(s[12..20]), FromBigEndian(s[20..24]);
      ghost var all := old(sock.incoming);
      assert s[..4] == all[..4] && s[4..12] == all[4..12] && s[12..20] == all[12..20] && s[20..24] == all[20..24];
      var request := new DriverData(kind, handle, offset, len, fd);
      if kind == WRITE {
        var payload := ReadAll(sock, len);
        if payload.None? {
          return null;
        }
        request.buffer := payload.value;
        UpdateAllocation(offset, request.buffer);
        SaveAllocations(save);
      }
      r := request;
    }

    method UpdateAllocation(offset: nat, data: seq<byte>)
      modifies this`allocations
      ensures allocations == Appended(old(allocations), offset, data)
    {
      if offset !in allocations {
        allocations := allocations[offset := []];
      }
      allocations := allocations[offset := allocations[offset] + data];
    }

    /** The reply goes out as one frame; if the connection ends within it, what follows is dropped. */
    method SendReply(data: DriverData, sock: Socket)
      modifies sock`outgoing, sock`room, this`replies
      ensures replies == old(replies) + [data.handle]
      ensures var frame := if data.sourceFd < 0 then [] else ReplyFrame(ReplyOf(data));
              && sock.outgoing == old(sock.outgoing) + frame[..Min(|frame|, old(sock.room))]
              && sock.room == old(sock.room) - Min(|frame|, old(sock.room))
    {
      hide BigEndian;
      replies := replies + [data.handle];
      if data.sourceFd < 0 {
        return;
      }
      var replyLen, sendPayload := 0, false;
      if data.ok {
        if data.kind == READ || data.kind == LIST_OFFSETS {
          replyLen := |data.buffer| % U32;
          sendPayload := data.buffer != [];
        } else if data.kind == GET_SIZE {
          replyLen := data.len % U32;
        }
      }
      var header := BigEndian(if data.ok then 0 else EIO, 4) + BigEndian(data.handle, 8) + BigEndian(replyLen, 4);
      ghost var reply := ReplyOf(data);
      assert header == ReplyHeader(reply);
      assert reply.Payload() == if sendPayload then data.buffer else [];
      var payload := if sendPayload then data.buffer else [];
      SendFrame(sock, header, payload);
    }

    /** The header, then the payload if there is one; an exception out of WriteAll ends it. */
    method SendFrame(sock: Socket, header: seq<byte>, payload: seq<byte>)
      modifies sock`outgoing, sock`room
      ensures var frame := header + payload;
              && sock.outgoing == old(sock.outgoing) + frame[..Min(|frame|, old(sock.room))]
              && sock.room == old(sock.room) - Min(|frame|, old(sock.room))
    {
      ghost var frame, room := header + payload, sock.room;
      var sent := WriteAll(sock, header);
      if sent && payload != [] {
        sent := WriteAll(sock, payload);
        assert header + payload[..Min(|payload|, room - |header|)] == frame[..Min(|frame|, room)];
      } else {
        assert header[..Min(|header|, room)] == frame[..Min(|frame|, room)];
      }
    }

    /** Nothing is written when the file cannot be opened, and no write is checked. */
    method SaveAllocations(io: SaveIo)
      modifies this`file
      ensures file == FileAfter(old(file), Records(Entries(allocations)), io)
    {
      hide BigEndian, Entries, Clip;
      if io.NotOpened? {
        return;
      }
      var out := new OutFile(io);
      var es := Entries(allocations);
      for i := 0 to |es|
        invariant fresh(out) && out.limit == Limit(io) && allocations == old(allocations)
        invariant out.content == Clip(Records(es[..i]), Limit(io))
      {
        var (offset, data) := es[i];
        ghost var before := Records(es[..i]);
        ghost var a, b := BigEndian(offset, 8), BigEndian(|data|, 8);
        ClipAgain(before, a, Limit(io));
        ClipAgain(before + a, b, Limit(io));
        ClipAgain(before + a + b, data, Limit(io));
        out.Write(BigEndian(offset, 8));
        out.Write(BigEndian(|data|, 8));
        out.Write(data);
        RecordsGrow(es, i);
        assert before + a + b + data == before + Record(es[i]);
      }
      assert es[..|es|] == es;
      file := Some(out.content);
    }

    method LoadAllocations()
      modifies this`allocations
      ensures allocations == if file.None? then old(allocations) else LoadRecords(file.value, old(allocations))
    {
      if file.None? {
        return;
      }
      var stream := new InFile(file.value);
      ghost var content := file.value;
      assert content[0..] == content;
      while stream.good
        invariant fresh(stream) && stream.content == content && stream.pos <= |content|
        invariant LoadRecords(content, old(allocations)) ==
                  if stream.good then LoadRecords(content[stream.pos..], allocations) else allocations
        decreases |content| - stream.pos, stream.good
      {
        var more := LoadRecord(stream);
        if !more {
          break;
        }
      }
    }

    /** One turn of the loop: false when it breaks out. */
    method LoadRecord(stream: InFile) returns (more: bool)
      requires stream.good && stream.pos <= |stream.content|
      modifies this`allocations, stream
      ensures old(stream.pos) <= stream.pos <= |stream.content|
      ensures more ==> stream.pos > old(stream.pos)
      ensures var rest := stream.content[old(stream.pos)..];
              LoadRecords(rest, old(allocations)) ==
              if more && stream.good then LoadRecords(stream.content[stream.pos..], allocations) else allocations
    {
      hide Zeros;
      ghost var rest := stream.content[stream.pos..];
      var offBytes := stream.Read(8);
      if !stream.good {
        return false;
      }
      var sizeBytes := stream.Read(8);
      if !stream.good {
        return false;
      }
      assert offBytes == rest[..8] && sizeBytes == rest[8..16];
      var offset := FromBigEndian(offBytes);
      var size := FromBigEndian(sizeBytes);
      ghost var payload := rest[16..];
      assert payload == stream.content[stream.pos..];
      var got := stream.Read(size);
      var data := got + Zeros(size - |got|);
      if stream.good {
        assert got == payload[..size] && data == got && stream.content[stream.pos..] == payload[size..];
      } else {
        assert got == payload && data == Resize(payload, size);
      }
      allocations := allocations[offset := data];
      more := true;
    }
  }

  /** The requests of a connection, one ReceiveRequest after another: whatever the client wrote comes
      out as it was written, however the reads split it, and what follows is left. The payloads of the
      WRITEs are appended to what their offsets had, and after complete saves a later session finds
      them all in the file. */
  method ReceiveRequests(comm: TCPDriverComm, sock: Socket, fd: int, save: SaveIo, n: nat,
                         ghost rs: seq<Request>, ghost tail: seq<byte>) returns (received: seq<DriverData>)
    requires sock.incoming == RequestStream(rs) + tail && |rs| == n
    requires forall i | 0 <= i < |rs| :: Sendable(rs[i])
    modifies sock`incoming, comm`allocations, comm`file
    ensures |received| == n && sock.incoming == tail
    ensures forall i | 0 <= i < n :: fresh(received[i]) && RequestOf(received[i]) == rs[i] && received[i].sourceFd == fd
    ensures Collected(old(comm.allocations), rs, comm.allocations)
    ensures save == NotOpened || !AnyWrite(rs) ==> comm.file == old(comm.file)
    ensures save == Written && AnyWrite(rs) ==>
              && comm.file == Some(Records(Entries(comm.allocations)))
              && (Storable(Entries(comm.allocations)) ==> LoadRecords(comm.file.value, map[]) == comm.allocations)
  {
    hide ParseRequest, RequestFrame, Sendable, Records, Entries, Collected, Appended;
    received := [];
    assert rs[..0] == [];
    NothingCollected(comm.allocations);
    for i := 0 to n
      invariant |received| == i && sock.incoming == RequestStream(rs[i..]) + tail
      invariant forall k | 0 <= k < i ::
                  fresh(received[k]) && RequestOf(received[k]) == rs[k] && received[k].sourceFd == fd
      invariant Collected(old(comm.allocations), rs[..i], comm.allocations)
      invariant save == NotOpened || !AnyWrite(rs[..i]) ==> comm.file == old(comm.file)
      invariant save == Written && AnyWrite(rs[..i]) ==> comm.file == Some(Records(Entries(comm.allocations)))
    {
      ghost var more := RequestStream(rs[i + 1..]) + tail;
      assert rs[i..][1..] == rs[i + 1..];
      assert sock.incoming == RequestFrame(rs[i]) + more;
      RequestRoundTrip(rs[i], more);
      ghost var before := comm.allocations;
      var request := comm.ReceiveRequest(sock, fd, save);
      CollectsOneMore(old(comm.allocations), rs, i, before, comm.allocations);
      AnyWriteIn(rs, i);
      received := received + [request];
    }
    assert rs[n..] == [] && rs[..n] == rs;
    if Storable(Entries(comm.allocations)) {
      SaveThenLoad(comm.allocations);
    }
  }
}
