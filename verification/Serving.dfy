// Requests served one at a time, from the bytes the client writes to the bytes it reads: the
// reactor, the pool, the mediator, the storage and the driver together, against the flat storage.
module Serving {
  import opened Bytes
  import opened Client
  import opened Framing
  import opened Mediator
  import opened Options
  import opened OrderedMaps
  import opened Placements
  import opened PoolSpec
  import opened Raid
  import opened RaidRuns
  import opened RaidSpec
  import opened Requests
  import opened Streams
  import opened TcpDriver
  import opened ThreadPools
  import opened Wire

  /** What a flat storage replies to a request, if anything. */
  function FlatReply(s: FlatState, q: Request): (r: (FlatState, seq<Reply>)) {
    if q.kind == READ then
      var answer := FlatStep(s, RaidRuns.Read(q.offset, q.len, q.buffer)).1;
      (s, [Reply(READ, answer.ok, q.handle, q.len, answer.buffer)])
    else if q.kind == WRITE then
      var (t, answer) := FlatStep(s, RaidRuns.Write(q.offset, q.buffer));
      (t, [Reply(WRITE, answer.ok, q.handle, q.len, q.buffer)])
    else if q.kind == FLUSH || q.kind == TRIM then (s, [Reply(q.kind, true, q.handle, q.len, q.buffer)])
    else if q.kind == GET_SIZE then (s, [Reply(GET_SIZE, true, q.handle, SizeAt(s.index, q.offset), q.buffer)])
    else if q.kind == LIST_OFFSETS then
      var payload := OffsetsPayload(Entries(s.index));
      (s, [Reply(LIST_OFFSETS, true, q.handle, |payload|, payload)])
    else (s, [])
  }

  function FlatServe(s: FlatState, qs: seq<Request>): (FlatState, seq<Reply>) {
    if qs == [] then (s, [])
    else
      var (before, replies) := FlatServe(s, qs[..|qs| - 1]);
      var (after, reply) := FlatReply(before, qs[|qs| - 1]);
      (after, replies + reply)
  }

  /** No call a request needs fails: its writes are done, and its chunks are readable. */
  ghost predicate Undisturbed(storage: RAIDStorage, q: Request, f: Faults)
    requires storage.Valid()
  {
    WritesDone(f) && (q.kind == READ ==> AllReadable(storage.Placed(), f.read, q.offset, q.len))
  }

  ghost predicate CopiesEqual(storage: RAIDStorage)
    reads storage, storage.store.Repr(), set d | d in storage.minions :: d.data
  {
    storage.Valid() && Mirrored(storage.Placed(), storage.State().img)
  }

  /** The first worker waits for the next command. */
  ghost predicate Waiting(pool: ThreadPool)
    reads pool, pool.queue
  {
    pool.Valid() && |pool.threads| > 0 && pool.threads[0] == Idle && pool.queue.items == multiset{}
  }

  ghost function Flat(storage: RAIDStorage): FlatState
    requires CopiesEqual(storage)
    reads storage, storage.store.Repr(), set d | d in storage.minions :: d.data
  {
    Abstract(storage.Placed(), storage.State())
  }

  /** What a connection has sent, and can still send, after the bytes of b: they go out while it lasts. */
  function Sent(out: seq<byte>, room: nat, b: seq<byte>): (seq<byte>, nat) {
    (out + b[..Min(|b|, room)], room - Min(|b|, room))
  }

  /** The first worker pops the only command. */
  method TakeOne(pool: ThreadPool, ghost task: Task) returns (t: Task)
    requires pool.Valid() && |pool.threads| > 0 && pool.threads[0] == Idle
    requires pool.queue.items == multiset{Execute(task)}
    modifies pool`threads, pool`done, pool.queue
    ensures pool.Valid() && t == task && pool.done == old(pool.done) && |pool.threads| == |old(pool.threads)|
    ensures pool.threads[0] == Running(task) && pool.queue.items == multiset{}
  {
    hide Inv;
    ghost var before := pool.State();
    ghost var a := pool.WorkerStep(0);
    StepKeepsInv(before, a);
    assert a.Pop? && a.command in before.queue;
    t := pool.threads[0].task;
  }

  method FinishOne(pool: ThreadPool)
    requires pool.Valid() && |pool.threads| > 0 && pool.threads[0].Running?
    modifies pool`threads, pool`done, pool.queue
    ensures pool.Valid() && |pool.threads| == |old(pool.threads)|
    ensures pool.threads[0] == Idle && pool.queue.items == old(pool.queue.items)
    ensures pool.done == old(pool.done) + [old(pool.threads)[0].task]
  {
    hide Inv;
    ghost var before := pool.State();
    ghost var a := pool.WorkerStep(0);
    StepKeepsInv(before, a);
  }

  /** What the contract of Execute says of a request q: the states of the storage before and after,
      and what the request holds when its reply is sent. */
  ghost predicate Executed(at: Placement, s: RaidState, s1: RaidState, q: Request, r: Reply, f: Faults)
    requires WellFormed(at, s.img)
  {
    && r.kind == q.kind && r.handle == q.handle
    && (q.kind == READ ==>
          s1 == s && RaidRuns.Bytes(r.ok, r.buffer) == RaidStep(at, s, RaidRuns.Read(q.offset, q.len, q.buffer), f).1)
    && (q.kind == WRITE ==> (s1, Status(r.ok)) == RaidStep(at, s, RaidRuns.Write(q.offset, q.buffer), f))
    && (q.kind !in {READ, WRITE} ==> s1 == s)
    && (q.kind in {FLUSH, TRIM} ==> r.ok)
    && (q.kind == GET_SIZE ==> r.ok && r.len == SizeAt(s1.index, q.offset))
    && (q.kind == LIST_OFFSETS ==> r.ok && r.buffer == OffsetsPayload(Entries(s1.index)) && r.len == |r.buffer|)
    && (q.kind !in {GET_SIZE, LIST_OFFSETS} ==> r.len == q.len)
    && (q.kind !in {READ, LIST_OFFSETS} ==> r.buffer == q.buffer)
  }

  lemma ExecutedIsFlat(at: Placement, s: RaidState, s1: RaidState, q: Request, r: Reply, f: Faults)
    requires WellFormed(at, s.img) && Mirrored(at, s.img) && WritesDone(f) && Executed(at, s, s1, q, r, f)
    requires q.kind == READ ==> AllReadable(at, f.read, q.offset, q.len)
    ensures WellFormed(at, s1.img) && Mirrored(at, s1.img)
    ensures FlatReply(Abstract(at, s), q) == (Abstract(at, s1), if GetsReply(q.kind) then [r] else [])
  {
    hide RaidStep, FlatStep, WellFormed, Mirrored, WritesDone, AllReadable, Entries, OffsetsPayload;
    if q.kind == READ {
      StepRefinesFlat(at, s, Call(RaidRuns.Read(q.offset, q.len, q.buffer), f));
      ReadKeepsState(at, s, q, f);
    } else if q.kind == WRITE {
      StepRefinesFlat(at, s, Call(RaidRuns.Write(q.offset, q.buffer), f));
    }
  }

  lemma ReadKeepsState(at: Placement, s: RaidState, q: Request, f: Faults)
    requires WellFormed(at, s.img)
    ensures RaidStep(at, s, RaidRuns.Read(q.offset, q.len, q.buffer), f).0 == s
    ensures RaidStep(at, s, RaidRuns.Read(q.offset, q.len, q.buffer), f).1.Bytes?
  {
  }

  /** Executing a request does to the storage, and sends, what the flat storage replies. */
  method ExecuteOne(m: InputMediator, request: DriverData, sock: Socket, f: Faults)
    requires CopiesEqual(m.storage)
    requires Undisturbed(m.storage, RequestOf(request), f) && request.ok && request.sourceFd >= 0
    modifies request, sock`outgoing, sock`room, m.driver`replies
    modifies m.storage`offsetSizes, m.storage.store.Repr(), set d | d in m.storage.minions :: d.data
    ensures CopiesEqual(m.storage)
    ensures var (flat, replies) := FlatReply(old(Flat(m.storage)), old(RequestOf(request)));
            && Flat(m.storage) == flat
            && m.driver.replies == old(m.driver.replies) + (if replies == [] then [] else [request.handle])
            && (sock.outgoing, sock.room) == Sent(old(sock.outgoing), old(sock.room), ReplyStream(replies))
  {
    hide RaidStep, WellFormed, Mirrored, WritesDone, AllReadable, Entries, OffsetsPayload, FlatReply, ReplyFrame;
    hide RAIDStorage.Valid, RAIDStorage.Placed, RAIDStorage.State, Contents, Abstract;
    ghost var at, s, q := m.storage.Placed(), m.storage.State(), RequestOf(request);
    var known := m.Execute(request, sock, f);
    ghost var s1, r := m.storage.State(), ReplyOf(request);
    assert Executed(at, s, s1, q, r, f);
    ExecutedIsFlat(at, s, s1, q, r, f);
    OneReply(if GetsReply(q.kind) then [r] else []);
    SentNothing(old(sock.outgoing), old(sock.room));
  }

  lemma SentNothing(out: seq<byte>, room: nat)
    ensures Sent(out, room, []) == (out, room)
  {
    var b: seq<byte> := [];
    assert b[..Min(|b|, room)] == [] && out + [] == out;
  }

  lemma OneReply(rs: seq<Reply>)
    requires |rs| <= 1
    ensures ReplyStream(rs) == if rs == [] then [] else ReplyFrame(rs[0])
  {
  }

  /** The reactor hands the readable connection to the mediator: the request becomes a command. */
  method Arrive(m: InputMediator, fd: nat, sock: Socket, save: SaveIo, ghost q: Request, ghost rest: seq<byte>)
    requires m.pool.Valid() && m.pool.queue.items == multiset{} && ParseRequest(sock.incoming) == Parsed(q, rest)
    modifies m`received, m`watched, m.pool`submitted, m.pool.queue
    modifies m.driver`allocations, m.driver`file, sock`incoming
    ensures m.pool.Valid() && sock.incoming == rest && |m.received| == |old(m.received)| + 1
    ensures m.pool.queue.items == multiset{Execute(Task(|old(m.received)|, Med))}
    ensures var request := m.received[|old(m.received)|];
            fresh(request) && RequestOf(request) == q && request.ok && request.sourceFd == fd
    ensures m.driver.allocations == (if q.kind == WRITE then Appended(old(m.driver.allocations), q.offset, q.buffer)
                                     else old(m.driver.allocations))
  {
    hide Inv, ParseRequest, Appended;
    m.Notify(fd, -1, sock, save);
  }

  /** The worker's part: it takes the only command, executes its request, and waits again. */
  method Work(m: InputMediator, sock: Socket, f: Faults, ghost id: nat, ghost q: Request)
    requires CopiesEqual(m.storage) && m.pool.Valid() && |m.pool.threads| > 0 && m.pool.threads[0] == Idle
    requires m.pool.queue.items == multiset{Execute(Task(id, Med))} && id < |m.received|
    requires var request := m.received[id]; RequestOf(request) == q && request.ok && request.sourceFd >= 0
    requires Undisturbed(m.storage, q, f)
    modifies m.received[id], m.pool`threads, m.pool`done, m.pool.queue, sock`outgoing, sock`room, m.driver`replies
    modifies m.storage`offsetSizes, m.storage.store.Repr(), set d | d in m.storage.minions :: d.data
    ensures CopiesEqual(m.storage) && Waiting(m.pool)
    ensures var (flat, replies) := FlatReply(old(Flat(m.storage)), q);
            && Flat(m.storage) == flat
            && m.driver.replies == old(m.driver.replies) + (if replies == [] then [] else [q.handle])
            && (sock.outgoing, sock.room) == Sent(old(sock.outgoing), old(sock.room), ReplyStream(replies))
  {
    hide Inv, FlatReply, ReplyStream, Mirrored, Undisturbed, Sent;
    hide RAIDStorage.Valid, RAIDStorage.Placed, RAIDStorage.State, Flat, Contents, WellFormed, Abstract, Separate;
    hide ThreadPool.Valid, ThreadPool.State;
    var t := TakeOne(m.pool, Task(id, Med));
    ExecuteOne(m, m.received[t.id], sock, f);
    ghost var after := Flat(m.storage);
    FinishOne(m.pool);
    assert CopiesEqual(m.storage) && Flat(m.storage) == after;
  }

  /** One request: it becomes a command, the worker takes the command and executes it. */
  method ServeOne(m: InputMediator, fd: nat, sock: Socket, save: SaveIo, f: Faults,
                  ghost q: Request, ghost rest: seq<byte>)
    requires CopiesEqual(m.storage) && Waiting(m.pool)
    requires ParseRequest(sock.incoming) == Parsed(q, rest) && Undisturbed(m.storage, q, f)
    modifies m`received, m`watched, m.pool, m.pool.queue, m.driver, sock
    modifies m.storage`offsetSizes, m.storage.store.Repr(), set d | d in m.storage.minions :: d.data
    ensures CopiesEqual(m.storage) && Waiting(m.pool) && sock.incoming == rest
    ensures m.driver.allocations == (if q.kind == WRITE then Appended(old(m.driver.allocations), q.offset, q.buffer)
                                     else old(m.driver.allocations))
    ensures var (flat, replies) := FlatReply(old(Flat(m.storage)), q);
            && Flat(m.storage) == flat
            && (sock.outgoing, sock.room) == Sent(old(sock.outgoing), old(sock.room), ReplyStream(replies))
  {
    hide Inv, FlatReply, ReplyStream, ParseRequest, Mirrored, Undisturbed, Sent, Appended;
    hide RAIDStorage.Valid, RAIDStorage.Placed, RAIDStorage.State, Flat, Contents;
    ghost var flat := Flat(m.storage);
    Arrive(m, fd, sock, save, q, rest);
    assert CopiesEqual(m.storage) && Flat(m.storage) == flat;
    Work(m, sock, f, |old(m.received)|, q);
  }

  lemma SentTwice(out: seq<byte>, room: nat, a: seq<byte>, b: seq<byte>)
    ensures var (mid, left) := Sent(out, room, a); Sent(mid, left, b) == Sent(out, room, a + b)
  {
    var k, l := Min(|a|, room), Min(|b|, room - Min(|a|, room));
    assert (a + b)[..Min(|a + b|, room)] == a[..k] + b[..l];
    assert (out + a[..k]) + b[..l] == out + (a[..k] + b[..l]);
  }

  lemma {:induction false} ReplyStreamConcat(a: seq<Reply>, b: seq<Reply>)
    ensures ReplyStream(a + b) == ReplyStream(a) + ReplyStream(b)
  {
    hide ReplyFrame;
    if a == [] {
      assert a + b == b;
    } else {
      ReplyStreamConcat(a[1..], b);
      assert (a + b)[1..] == a[1..] + b && (a + b)[0] == a[0];
      AddAssociates(ReplyFrame(a[0]), ReplyStream(a[1..]), ReplyStream(b));
    }
  }

  /** The requests of a connection, one at a time: the storage goes through the states of the flat
      storage, the bytes sent are its replies, as far as the connection takes them, and the payloads of
      the WRITEs are in the allocations. */
  method Serve(m: InputMediator, fd: nat, sock: Socket, save: SaveIo, fs: seq<Faults>,
               ghost qs: seq<Request>, ghost tail: seq<byte>)
    requires CopiesEqual(m.storage) && Waiting(m.pool)
    requires sock.incoming == RequestStream(qs) + tail && |qs| == |fs|
    requires forall i | 0 <= i < |qs| :: Sendable(qs[i]) && Undisturbed(m.storage, qs[i], fs[i])
    modifies m`received, m`watched, m.pool, m.pool.queue, m.driver, sock
    modifies m.storage`offsetSizes, m.storage.store.Repr(), set d | d in m.storage.minions :: d.data
    ensures CopiesEqual(m.storage) && Waiting(m.pool) && sock.incoming == tail
    ensures Collected(old(m.driver.allocations), qs, m.driver.allocations)
    ensures var (flat, replies) := FlatServe(old(Flat(m.storage)), qs);
            && Flat(m.storage) == flat
            && (sock.outgoing, sock.room) == Sent(old(sock.outgoing), old(sock.room), ReplyStream(replies))
  {
    hide FlatReply, ReplyStream, ParseRequest, RequestFrame, Sendable, Undisturbed, Sent, CopiesEqual, Waiting;
    hide Flat, Contents, RAIDStorage.Valid, Collected, Appended;
    NothingCollected(m.driver.allocations);
    ghost var start, out, room := Flat(m.storage), sock.outgoing, sock.room;
    assert qs[..0] == [] && qs[0..] == qs;
    SentNothing(out, room);
    assert ReplyStream([]) == [] by {
      OneReply([]);
    }
    for i := 0 to |fs|
      invariant CopiesEqual(m.storage) && Waiting(m.pool) && sock.incoming == RequestStream(qs[i..]) + tail
      invariant Flat(m.storage) == FlatServe(start, qs[..i]).0
      invariant Collected(old(m.driver.allocations), qs[..i], m.driver.allocations)
      invariant (sock.outgoing, sock.room) == Sent(out, room, ReplyStream(FlatServe(start, qs[..i]).1))
    {
      ghost var more := RequestStream(qs[i + 1..]) + tail;
      assert qs[i..][1..] == qs[i + 1..];
      assert sock.incoming == RequestFrame(qs[i]) + more;
      RequestRoundTrip(qs[i], more);
      ghost var (before, replies) := FlatServe(start, qs[..i]);
      ghost var reply := FlatReply(before, qs[i]).1;
      ghost var earlier := m.driver.allocations;
      ServeOne(m, fd, sock, save, fs[i], qs[i], more);
      CollectsOneMore(old(m.driver.allocations), qs, i, earlier, m.driver.allocations);
      assert qs[..i + 1][..i] == qs[..i];
      SentTwice(out, room, ReplyStream(replies), ReplyStream(reply));
      ReplyStreamConcat(replies, reply);
    }
    assert qs[..|fs|] == qs && qs[|fs|..] == [];
  }

  // ---- What the answers are ----

  /** The byte of the last WRITE that covers x, or what was there at the start. A WRITE that runs past
      the end stores its bytes up to there. */
  function LastByte(qs: seq<Request>, x: nat, start: byte): byte {
    if qs == [] then start
    else
      var q := qs[|qs| - 1];
      if q.kind == WRITE && q.offset <= x < q.offset + |q.buffer| then q.buffer[x - q.offset]
      else LastByte(qs[..|qs| - 1], x, start)
  }

  /** The length of the last WRITE at offset k that ends within the capacity, or what was recorded at
      the start. */
  function LastLength(qs: seq<Request>, capacity: nat, k: nat, start: Option<nat>): Option<nat> {
    if qs == [] then start
    else
      var q := qs[|qs| - 1];
      if q.kind == WRITE && q.offset == k && (q.buffer == [] || k + |q.buffer| <= capacity) then Some(|q.buffer|)
      else LastLength(qs[..|qs| - 1], capacity, k, start)
  }

  /** The flat storage after a list of requests, by the list. */
  lemma {:induction false} StateAfter(s: FlatState, qs: seq<Request>)
    ensures var t := FlatServe(s, qs).0;
            && |t.data| == |s.data| && (forall x: nat | x < |s.data| :: t.data[x] == LastByte(qs, x, s.data[x]))
            && forall k :: (if k in t.index then Some(t.index[k]) else None) ==
                           LastLength(qs, |s.data|, k, if k in s.index then Some(s.index[k]) else None)
  {
    hide FlatReply;
    if qs != [] {
      var n := |qs| - 1;
      StateAfter(s, qs[..n]);
      FlatReplyState(FlatServe(s, qs[..n]).0, qs[n]);
    }
  }

  lemma FlatReplyState(s: FlatState, q: Request)
    ensures var t := FlatReply(s, q).0;
            && |t.data| == |s.data|
            && (forall x: nat | x < |s.data| ::
                  t.data[x] == if q.kind == WRITE && q.offset <= x < q.offset + |q.buffer| then q.buffer[x - q.offset]
                               else s.data[x])
            && t.index == if q.kind == WRITE && (q.buffer == [] || q.offset + |q.buffer| <= |s.data|)
                          then s.index[q.offset := |q.buffer|] else s.index
  {
    hide Entries, OffsetsPayload, FlatRead, SizeAt;
  }

  /** The answer to each type of request, by what the storage holds. */
  lemma AnswerByType(s: FlatState, q: Request)
    requires Sendable(q)
    ensures var answers := Answers(FlatReply(s, q).1);
            var fits := |q.buffer| == 0 || q.offset + |q.buffer| <= |s.data|;
            && (q.kind == READ && q.len > 0 && q.offset + q.len <= |s.data| ==>
                  answers == [Answer(true, q.handle, q.len, s.data[q.offset..q.offset + q.len])])
            && (q.kind == READ && q.len == 0 ==> answers == [Answer(true, q.handle, 0, [])])
            && (q.kind == READ && q.len > 0 && q.offset + q.len > |s.data| ==>
                  answers == [Answer(false, q.handle, 0, [])])
            && (q.kind == WRITE ==> answers == [Answer(fits, q.handle, 0, [])])
            && (q.kind == FLUSH || q.kind == TRIM ==> answers == [Answer(true, q.handle, 0, [])])
            && (q.kind == GET_SIZE ==>
                  answers == [Answer(true, q.handle, if q.offset in s.index then s.index[q.offset] else 0, [])])
            && (q.kind == LIST_OFFSETS ==>
                  answers == [Answer(true, q.handle, 16 * |s.index|, OffsetsPayload(Entries(s.index)))])
            && (q.kind == DISCONNECT || q.kind > 6 ==> answers == [])
  {
    hide Entries, OffsetsPayload, Overlay;
    if q.kind == READ {
      ReadAnswer(s.data, q.offset, q.len, q.buffer);
    }
  }

  lemma ReadAnswer(data: seq<byte>, o: nat, len: nat, buffer: seq<byte>)
    requires |buffer| == len
    ensures var (got, ok) := FlatRead(data, o, len);
            && (ok <==> len == 0 || o + len <= |data|)
            && (ok ==> got + Resize(buffer, len)[|got|..] == if len == 0 then [] else data[o..o + len])
  {
    if len == 0 || o + len <= |data| {
      assert Resize(buffer, len)[len..] == [];
    }
  }

  /** The answers to a list are those to its requests, in order. */
  lemma AnswersInOrder(s: FlatState, qs: seq<Request>, i: nat)
    requires i < |qs|
    ensures Answers(FlatServe(s, qs[..i + 1]).1) ==
            Answers(FlatServe(s, qs[..i]).1) + Answers(FlatReply(FlatServe(s, qs[..i]).0, qs[i]).1)
  {
    hide FlatReply, AnswerOf;
    assert qs[..i + 1][..i] == qs[..i];
  }

  /** By the history alone: a READ in range is answered with the bytes of the last WRITEs before it. */
  lemma ReadAfter(s: FlatState, qs: seq<Request>, i: nat)
    requires i < |qs| && Sendable(qs[i])
    requires qs[i].kind == READ && qs[i].len > 0 && qs[i].offset + qs[i].len <= |s.data|
    ensures var q := qs[i];
            var before, after := Answers(FlatServe(s, qs[..i]).1), Answers(FlatServe(s, qs[..i + 1]).1);
            && |after| == |before| + 1 && after[..|before|] == before
            && var a := after[|before|];
               && a.ok && a.handle == q.handle && a.length == q.len == |a.payload|
               && forall j: nat | j < q.len ::
                    a.payload[j] == LastByte(qs[..i], q.offset + j, s.data[q.offset + j])
  {
    hide *;
    var t, q := FlatServe(s, qs[..i]).0, qs[i];
    AnswersInOrder(s, qs, i);
    AnswerByType(t, q);
    StateAfter(s, qs[..i]);
    var before, payload := Answers(FlatServe(s, qs[..i]).1), t.data[q.offset..q.offset + q.len];
    assert Answers(FlatServe(s, qs[..i + 1]).1) == before + [Answer(true, q.handle, q.len, payload)];
  }

  /** And a GET_SIZE with the length of the last WRITE there that ended within the capacity. */
  lemma SizeAfter(s: FlatState, qs: seq<Request>, i: nat)
    requires i < |qs| && Sendable(qs[i]) && qs[i].kind == GET_SIZE
    ensures var q := qs[i];
            var start := if q.offset in s.index then Some(s.index[q.offset]) else None;
            Answers(FlatServe(s, qs[..i + 1]).1) ==
            Answers(FlatServe(s, qs[..i]).1)
            + [Answer(true, q.handle,
                      match LastLength(qs[..i], |s.data|, q.offset, start) case Some(n) => n case None => 0, [])]
  {
    hide *;
    AnswersInOrder(s, qs, i);
    AnswerByType(FlatServe(s, qs[..i]).0, qs[i]);
    StateAfter(s, qs[..i]);
  }

  // ---- What the client reads ----

  /** The types of the requests that get a reply. */
  function Asked(qs: seq<Request>): seq<nat> {
    if qs == [] then []
    else
      var q := qs[|qs| - 1];
      Asked(qs[..|qs| - 1]) + if GetsReply(q.kind) then [q.kind] else []
  }

  /** The sizes fit the length field of a reply, and so does the list of the offsets after n more Writes. */
  ghost predicate Fits32(index: map<nat, nat>, n: nat) {
    (forall k | k in index :: index[k] < U32) && 16 * (|index| + n) < U32
  }

  lemma ReplyFits(s: FlatState, q: Request, n: nat)
    requires Sendable(q) && Fits32(s.index, n + 1)
    ensures var (t, rs) := FlatReply(s, q);
            && Fits32(t.index, n) && Kinds(rs) == (if GetsReply(q.kind) then [q.kind] else [])
            && forall i | 0 <= i < |rs| :: rs[i].handle < U64 && rs[i].Length() < U32
  {
    OneMoreSizeFits(s.index, q.offset, |q.buffer|, n);
    FlatReplyIndex(s, q);
    FlatReplyFits(s, q);
  }

  lemma OneMoreSizeFits(index: map<nat, nat>, o: nat, size: nat, n: nat)
    requires Fits32(index, n + 1) && size < U32
    ensures Fits32(index, n) && Fits32(index[o := size], n)
  {
    assert index[o := size].Keys == index.Keys + {o};
  }

  lemma FlatReplyIndex(s: FlatState, q: Request)
    ensures var index := FlatReply(s, q).0.index; index == s.index || index == s.index[q.offset := |q.buffer|]
  {
    hide Entries, OffsetsPayload, SizeAt;
  }

  lemma FlatReplyFits(s: FlatState, q: Request)
    requires Sendable(q) && Fits32(s.index, 0)
    ensures var rs := FlatReply(s, q).1;
            && Kinds(rs) == (if GetsReply(q.kind) then [q.kind] else [])
            && forall i | 0 <= i < |rs| :: rs[i].handle < U64 && rs[i].Length() < U32
  {
    hide Entries, OffsetsPayload, FlatRead;
  }

  lemma {:induction false} RepliesFit(s: FlatState, qs: seq<Request>, n: nat)
    requires (forall i | 0 <= i < |qs| :: Sendable(qs[i])) && Fits32(s.index, |qs| + n)
    ensures var (t, rs) := FlatServe(s, qs);
            && Fits32(t.index, n) && Kinds(rs) == Asked(qs)
            && forall i | 0 <= i < |rs| :: rs[i].handle < U64 && rs[i].Length() < U32
    decreases |qs|
  {
    hide FlatReply, Sendable, Fits32;
    if qs != [] {
      var m := |qs| - 1;
      RepliesFit(s, qs[..m], n + 1);
      var (before, replies) := FlatServe(s, qs[..m]);
      assert Sendable(qs[m]);
      ReplyFits(before, qs[m], n);
      var reply := FlatReply(before, qs[m]).1;
      assert Kinds(replies + reply) == Kinds(replies) + Kinds(reply);
    }
  }

  /** A reader that takes each reply whole, and knows what it asked, reads from the bytes Serve sends,
      on a connection that takes them all, exactly the answers of the flat storage. */
  lemma ReaderReadsFlatAnswers(s: FlatState, qs: seq<Request>, tail: seq<byte>)
    requires (forall i | 0 <= i < |qs| :: Sendable(qs[i])) && Fits32(s.index, |qs|)
    ensures var rs := FlatServe(s, qs).1;
            && ParseReplies(Asked(qs), ReplyStream(rs) + tail) == Parsed(Answers(rs), tail)
            && forall out, room: nat | |ReplyStream(rs)| <= room ::
                 Sent(out, room, ReplyStream(rs)).0 == out + ReplyStream(rs)
  {
    hide FlatReply, Sendable, Fits32, ReplyStream, ParseReplies;
    RepliesFit(s, qs, 0);
    ReplyStreamRoundTrip(FlatServe(s, qs).1, tail);
    var b := ReplyStream(FlatServe(s, qs).1);
    assert b[..|b|] == b;
  }

  /** End to end: the client, with its one recv for each part, reads from those bytes exactly the
      answers of the flat storage if and only if every recv delivers in full. */
  lemma ClientReadsFlatAnswersIff(s: FlatState, qs: seq<Request>, tail: seq<byte>, ds: seq<Delivery>)
    requires (forall i | 0 <= i < |qs| :: Sendable(qs[i])) && Fits32(s.index, |qs|)
    requires AllDeliverable(Asked(qs), ReplyStream(FlatServe(s, qs).1) + tail, ds)
    ensures var rs := FlatServe(s, qs).1;
            var (answers, rest) := ReadReplies(Asked(qs), ReplyStream(rs) + tail, ds);
            && (answers == Somes(Answers(rs)) <==> AllInFull(rs, ds))
            && (AllInFull(rs, ds) ==> rest == tail)
  {
    hide FlatReply, Sendable, Fits32, ReplyStream, ReadReplies, AllDeliverable, AllInFull;
    RepliesFit(s, qs, 0);
    RepliesReadIff(FlatServe(s, qs).1, tail, ds);
  }
}
