// InputMediator: the handler of each request type, the encoding of the offset list, and Notify,
// which turns one received request into one command of the pool.
module Mediator {
  import opened Bytes
  import opened Framing
  import opened OrderedMaps
  import opened PoolSpec
  import opened Raid
  import opened RaidRuns
  import opened RaidSpec
  import opened Requests
  import opened Streams
  import opened TcpDriver
  import opened ThreadPools
  import opened Wire

  /** The LIST_OFFSETS payload: offset and size of each entry, as big-endian 64-bit integers. */
  function OffsetsPayload(es: seq<(nat, nat)>): (s: seq<byte>)
    ensures |s| == 16 * |es|
  {
    if es == [] then []
    else OffsetsPayload(es[..|es| - 1]) + BigEndian(es[|es| - 1].0, 8) + BigEndian(es[|es| - 1].1, 8)
  }

  class InputMediator {
    const driver: TCPDriverComm
    const storage: RAIDStorage
    const pool: ThreadPool
    /** The requests turned into commands, by the id of their task. */
    var received: seq<DriverData>
    /** The file descriptors the reactor watches. */
    var watched: set<int>

    constructor (driver: TCPDriverComm, storage: RAIDStorage, pool: ThreadPool)
      ensures this.driver == driver && this.storage == storage && this.pool == pool
      ensures received == [] && watched == {}
    {
      this.driver, this.storage, this.pool, received, watched := driver, storage, pool, [], {};
    }

    /** The request has been answered: one SendReply, of its frame as it is now. */
    twostate predicate Answered(request: DriverData, sock: Socket)
      reads request, sock, driver
    {
      var sent := if request.sourceFd >= 0 then ReplyFrame(ReplyOf(request)) else [];
      && driver.replies == old(driver.replies) + [request.handle]
      && sock.outgoing == old(sock.outgoing) + sent[..Min(|sent|, old(sock.room))]
      && sock.room == old(sock.room) - Min(|sent|, old(sock.room))
    }

    method HandleRead(request: DriverData, sock: Socket, f: Faults)
      requires storage.Valid() && request.kind == READ
      modifies request, sock`outgoing, sock`room, driver`replies
      ensures Answered(request, sock) && storage.State() == old(storage.State()) && request.len == old(request.len)
      ensures RaidRuns.Bytes(request.ok, request.buffer) ==
              RaidStep(storage.Placed(), old(storage.State()),
                       RaidRuns.Read(request.offset, old(request.len), old(request.buffer)), f).1
    {
      hide ReplyFrame, RaidStep, RAIDStorage.Valid, RAIDStorage.Placed, Contents, WellFormed;
      storage.Read(request, f);
      driver.SendReply(request, sock);
    }

    method HandleWrite(request: DriverData, sock: Socket, f: Faults)
      requires storage.Valid() && request.kind == WRITE
      modifies request, sock`outgoing, sock`room, driver`replies
      modifies storage`offsetSizes, storage.store.Repr(), set m | m in storage.minions :: m.data
      ensures storage.Valid() && Answered(request, sock)
      ensures request.len == old(request.len) && request.buffer == old(request.buffer)
      ensures (storage.State(), Status(request.ok)) ==
              RaidStep(storage.Placed(), old(storage.State()), RaidRuns.Write(request.offset, old(request.buffer)), f)
    {
      hide ReplyFrame, RaidStep, RAIDStorage.Valid, RAIDStorage.Placed, Contents, WellFormed;
      storage.Write(request, f);
      driver.SendReply(request, sock);
    }

    /** The handler of FLUSH and of TRIM. */
    method HandleNothing(request: DriverData, sock: Socket)
      requires request.kind in {FLUSH, TRIM}
      modifies request, sock`outgoing, sock`room, driver`replies
      ensures Answered(request, sock) && request.ok
      ensures request.len == old(request.len) && request.buffer == old(request.buffer)
    {
      hide ReplyFrame;
      request.ok := true;
      driver.SendReply(request, sock);
    }

    method HandleGetSize(request: DriverData, sock: Socket)
      requires storage.Valid() && request.kind == GET_SIZE
      modifies request, sock`outgoing, sock`room, driver`replies
      ensures Answered(request, sock) && storage.State() == old(storage.State())
      ensures request.ok && request.len == SizeAt(storage.offsetSizes, request.offset)
      ensures request.buffer == old(request.buffer)
    {
      hide ReplyFrame, RAIDStorage.Valid, Contents;
      request.len := storage.GetDataSize(request.offset);
      request.ok := true;
      driver.SendReply(request, sock);
    }

    method HandleListOffsets(request: DriverData, sock: Socket)
      requires storage.Valid() && request.kind == LIST_OFFSETS
      modifies request, sock`outgoing, sock`room, driver`replies
      ensures Answered(request, sock) && storage.State() == old(storage.State())
      ensures request.ok && request.buffer == OffsetsPayload(Entries(storage.offsetSizes))
      ensures request.len == |request.buffer|
    {
      hide ReplyFrame, RAIDStorage.Valid, Contents, OffsetsPayload, Entries;
      ListOffsets(request);
      driver.SendReply(request, sock);
    }

    /** Executing a request's command: m_handlers.at(type)(request). False: at() throws, which the
        worker swallows. Exactly one SendReply for an answered type, carrying the request's handle. */
    method Execute(request: DriverData, sock: Socket, f: Faults) returns (known: bool)
      requires storage.Valid()
      modifies request, sock`outgoing, sock`room, driver`replies
      modifies storage`offsetSizes, storage.store.Repr(), set m | m in storage.minions :: m.data
      ensures storage.Valid()
      ensures known <==> Handled(request.kind)
      ensures if GetsReply(request.kind) then Answered(request, sock)
              else
                && driver.replies == old(driver.replies)
                && sock.outgoing == old(sock.outgoing) && sock.room == old(sock.room)
      ensures request.kind == READ ==>
                storage.State() == old(storage.State()) &&
                RaidRuns.Bytes(request.ok, request.buffer) ==
                RaidStep(storage.Placed(), old(storage.State()),
                         RaidRuns.Read(request.offset, old(request.len), old(request.buffer)), f).1
      ensures request.kind == WRITE ==>
                (storage.State(), Status(request.ok)) ==
                RaidStep(storage.Placed(), old(storage.State()), RaidRuns.Write(request.offset, old(request.buffer)), f)
      ensures request.kind !in {READ, WRITE} ==> storage.State() == old(storage.State())
      ensures request.kind in {FLUSH, TRIM} ==> request.ok
      ensures request.kind == GET_SIZE ==> request.ok && request.len == SizeAt(storage.offsetSizes, request.offset)
      ensures request.kind == LIST_OFFSETS ==>
                && request.ok && request.buffer == OffsetsPayload(Entries(storage.offsetSizes))
                && request.len == |request.buffer|
      ensures request.kind !in {GET_SIZE, LIST_OFFSETS} ==> request.len == old(request.len)
      ensures request.kind !in {READ, LIST_OFFSETS} ==> request.buffer == old(request.buffer)
    {
      hide ReplyFrame, RaidStep, RAIDStorage.Valid, RAIDStorage.Placed, RAIDStorage.State;
      hide OffsetsPayload, Entries, Contents, WellFormed, Answered;
      known := true;
      if request.kind == READ {
        HandleRead(request, sock, f);
      } else if request.kind == WRITE {
        HandleWrite(request, sock, f);
      } else if request.kind == FLUSH || request.kind == TRIM {
        HandleNothing(request, sock);
      } else if request.kind == DISCONNECT {
      } else if request.kind == GET_SIZE {
        HandleGetSize(request, sock);
      } else if request.kind == LIST_OFFSETS {
        HandleListOffsets(request, sock);
      } else {
        known := false;
      }
    }

    /** The LIST_OFFSETS handler up to its SendReply. */
    method ListOffsets(request: DriverData)
      requires storage.Valid()
      modifies request
      ensures request.buffer == OffsetsPayload(Entries(storage.offsetSizes))
      ensures request.len == |request.buffer| && request.ok
    {
      hide BigEndian, RAIDStorage.Valid, Entries;
      var offsets := storage.ListOffsets();
      request.buffer := [];
      for i := 0 to |offsets|
        invariant request.buffer == OffsetsPayload(offsets[..i])
      {
        var (offset, size) := offsets[i];
        request.buffer := request.buffer + BigEndian(offset, 8);
        request.buffer := request.buffer + BigEndian(size, 8);
        assert offsets[..i + 1][..i] == offsets[..i];
      }
      assert offsets[..|offsets|] == offsets;
      request.len := |request.buffer|;
      request.ok := true;
    }

    /** newClient is what TryAccept returned. A new client is watched; a request becomes one command
        of priority Med; a connection that ends within a request is no longer watched. */
    method Notify(fd: int, newClient: int, sock: Socket, save: SaveIo)
      requires pool.Valid()
      modifies this`received, this`watched, pool`submitted, pool.queue
      modifies driver`allocations, driver`file, sock`incoming
      ensures pool.Valid()
      ensures newClient >= 0 ==>
                && received == old(received) && watched == old(watched) + {newClient}
                && pool.State() == old(pool.State())
                && sock.incoming == old(sock.incoming) && driver.allocations == old(driver.allocations)
      ensures newClient < 0 ==>
                match ParseRequest(old(sock.incoming))
                case Truncated =>
                  && received == old(received) && watched == old(watched) - {fd} && pool.State() == old(pool.State())
                  && driver.allocations == old(driver.allocations)
                case Parsed(q, rest) =>
                  && |received| == |old(received)| + 1 && received[..|old(received)|] == old(received)
                  && fresh(received[|old(received)|]) && received[|old(received)|].ok
                  && RequestOf(received[|old(received)|]) == q && received[|old(received)|].sourceFd == fd
                  && watched == old(watched) && sock.incoming == rest
                  && driver.allocations ==
                     (if q.kind == WRITE then Appended(old(driver.allocations), q.offset, q.buffer)
                      else old(driver.allocations))
                  && pool.State() == Do(old(pool.State()), PoolSpec.AddCommand(Task(|old(received)|, Med)))
    {
      hide Inv, FromBigEndian, Entries, Appended;
      if newClient >= 0 {
        watched := watched + {newClient};
        return;
      }
      var request := driver.ReceiveRequest(sock, fd, save);
      if request == null {
        watched := watched - {fd};
        return;
      }
      pool.AddCommand(Task(|received|, Med));
      received := received + [request];
    }
  }
}
