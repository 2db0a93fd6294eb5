// What RunTCPMode puts together: minions, metadata store, storage, driver, pool and mediator, and a
// session of the server that starts this way.
module Startup {
  import opened Bytes
  import opened Framing
  import opened Mediator
  import opened MetadataStores
  import opened Minions
  import opened Options
  import opened Placements
  import opened PoolSpec
  import opened Raid
  import opened RaidRuns
  import opened RaidSpec
  import opened Serving
  import opened Streams
  import opened TcpDriver
  import opened ThreadPools

  /** StorageFactory::CreateMinions, by what the image files hold: nothing for a new one, and for the
      memory backend. It throws on no minion. */
  method CreateMinions(images: seq<seq<byte>>, minionSize: nat) returns (r: Option<seq<StorageMinionFile>>)
    ensures r.None? <==> images == []
    ensures r.Some? ==>
              && |r.value| == |images| && Separate(r.value)
              && forall i | 0 <= i < |images| ::
                   fresh(r.value[i]) && fresh(r.value[i].data) && r.value[i].data[..] == Resize(images[i], minionSize)
  {
    if images == [] {
      return None;
    }
    var ms: seq<StorageMinionFile> := [];
    for i := 0 to |images|
      invariant |ms| == i && Separate(ms)
      invariant forall k | 0 <= k < i ::
                  fresh(ms[k]) && fresh(ms[k].data) && ms[k].data[..] == Resize(images[k], minionSize)
    {
      var m := new StorageMinionFile(minionSize, images[i]);
      ms := ms + [m];
    }
    r := Some(ms);
  }

  /** A server: it fails to start on no minion or an odd number of them. With new minions and nothing
      in the metadata store it is one zeroed array, and its workers wait for the first request. */
  method Launch(images: seq<seq<byte>>, minionSize: nat, store: MetadataStore, canOpen: bool,
                allocations: Option<seq<byte>>, threads: nat) returns (m: InputMediator?)
    ensures m == null <==> |images| % 2 != 0 || images == []
    ensures m != null ==>
              && fresh(m) && fresh(m.driver) && fresh(m.storage) && fresh(m.pool) && fresh(m.pool.queue)
              && m.storage.store == store && forall d | d in m.storage.minions :: fresh(d.data)
    ensures m != null ==> m.received == [] && |m.pool.threads| == threads && (threads > 0 ==> Waiting(m.pool))
    ensures m != null && minionSize > 0 ==>
              m.storage.Valid() && m.storage.Placed().capacity == |images| / 2 * minionSize
    ensures m != null && minionSize > 0 && AllNew(images) && Loaded(store.Contents(), canOpen) == map[] ==>
              && CopiesEqual(m.storage)
              && Flat(m.storage) == FlatState(Zeros(m.storage.Placed().capacity), map[])
  {
    hide Inv;
    var minions := CreateMinions(images, minionSize);
    if minions.None? {
      return null;
    }
    var storage := RAIDStorage.Create(minions.value, store, canOpen);
    if storage == null {
      return null;
    }
    ghost var made := minions.value;
    assert forall i | 0 <= i < |made| :: made[i].data.Length == |made[i].data[..]| == minionSize;
    var driver := new TCPDriverComm(allocations);
    var pool := new ThreadPool(threads);
    m := new InputMediator(driver, storage, pool);
    if minionSize > 0 && AllNew(images) && Loaded(store.Contents(), canOpen) == map[] {
      NewMinions(storage, images);
    }
  }

  ghost predicate AllNew(images: seq<seq<byte>>) {
    forall i | 0 <= i < |images| :: images[i] == []
  }

  lemma NewMinions(storage: RAIDStorage, images: seq<seq<byte>>)
    requires storage.Valid() && storage.offsetSizes == map[] && |storage.minions| == |images| && AllNew(images)
    requires forall i | 0 <= i < |images| :: storage.minions[i].data[..] == Resize(images[i], storage.minionSize)
    ensures CopiesEqual(storage) && Flat(storage) == FlatState(Zeros(storage.Placed().capacity), map[])
  {
    var img := Contents(storage.minions);
    forall i | 0 <= i < |img|
      ensures img[i] == Zeros(storage.minionSize)
    {
      assert img[i] == storage.minions[i].data[..];
    }
    hide RAIDStorage.Placed, View;
    NewStorageIsZeroed(storage.Placed(), img, storage.store.Contents());
  }

  lemma NothingFails(storage: RAIDStorage, q: Request)
    requires storage.Valid()
    ensures Undisturbed(storage, q, NoFaults)
  {
    hide RAIDStorage.Valid, RAIDStorage.Placed, Placement.Lawful;
    NoChunkIsBad(storage.Placed(), q.offset, q.len);
  }

  lemma {:induction false} NoChunkIsBad(at: Placement, o: nat, remaining: nat)
    requires at.Lawful()
    ensures AllReadable(at, NoFaults.read, o, remaining)
    decreases remaining
  {
    if remaining > 0 {
      assert at.OffsetLaw(o);
      var n := at.ChunkLength(o, remaining);
      NoChunkIsBad(at, o + n, remaining - n);
    }
  }

  /** A session from the start: a new server, and the requests of one connection, one at a time with
      nothing failing. The bytes sent are the replies of a flat zeroed array to those requests. */
  method Session(images: seq<seq<byte>>, minionSize: nat, store: MetadataStore, canOpen: bool,
                 threads: nat, fd: nat, sock: Socket, n: nat, ghost qs: seq<Request>, ghost tail: seq<byte>)
    returns (ok: bool)
    requires AllNew(images) && minionSize > 0 && threads > 0 && Loaded(store.Contents(), canOpen) == map[]
    requires sock.incoming == RequestStream(qs) + tail && |qs| == n
    requires sock !in store.Repr()
    requires forall i | 0 <= i < |qs| :: Sendable(qs[i])
    modifies sock, store.Repr()
    ensures ok <==> |images| % 2 == 0 && images != []
    ensures ok ==>
              && sock.incoming == tail
              && var replies := FlatServe(FlatState(Zeros(|images| / 2 * minionSize), map[]), qs).1;
                 (sock.outgoing, sock.room) == Sent(old(sock.outgoing), old(sock.room), ReplyStream(replies))
  {
    hide Inv, FlatServe, ReplyStream, RequestStream, Sent, CopiesEqual, Waiting, Flat, Sendable, Undisturbed;
    hide RAIDStorage.Valid, RAIDStorage.Placed, Loaded, Contents;
    var m := Launch(images, minionSize, store, canOpen, None, threads);
    if m == null {
      return false;
    }
    ghost var storage := m.storage;
    forall i | 0 <= i < |qs|
      ensures Undisturbed(storage, qs[i], NoFaults)
    {
      NothingFails(storage, qs[i]);
    }
    Serve(m, fd, sock, Written, seq(n, _ => NoFaults), qs, tail);
    ok := true;
  }
}
