// The two backends of IMetadataStore, and the store as RAIDStorage calls it.
module MetadataStores {
  import opened Bytes
  import opened MetadataFile
  import opened Options
  import opened OrderedMaps
  import opened Streams
  import opened Wire

  /** What a store holds: the map itself, or the bytes of the file, if there is one. */
  datatype Snapshot = MapSnapshot(metadata: map<nat, nat>) | FileSnapshot(order: ByteOrder, file: Option<seq<byte>>)

  /** A save replaces the snapshot; a file may not open, or take only the first bytes. */
  function Saved(s: Snapshot, index: map<nat, nat>, io: SaveIo): Snapshot {
    match s
    case MapSnapshot(_) => MapSnapshot(index)
    case FileSnapshot(order, file) => FileSnapshot(order, FileAfter(file, EntriesBytes(order, Entries(index)), io))
  }

  /** A save that reaches the store, wholly or in part. */
  predicate Takes(s: Snapshot, io: SaveIo) {
    s.MapSnapshot? || !io.NotOpened?
  }

  /** What is left of an index whose save reaches the store: of a cut file, the entries before the cut
      in key order, or nothing if the cut is inside a size. */
  function Kept(s: Snapshot, index: map<nat, nat>, io: SaveIo): map<nat, nat> {
    if s.MapSnapshot? || !io.Cut? || io.stored >= ENTRY * |index| then index
    else if io.stored % ENTRY < 8 then InsertAll(map[], Entries(index)[..io.stored / ENTRY])
    else map[]
  }

  function Loaded(s: Snapshot, canOpen: bool): map<nat, nat> {
    match s
    case MapSnapshot(m) => m
    case FileSnapshot(order, file) =>
      if file.None? || !canOpen then map[] else LoadEntries(order, file.value, map[])
  }

  /** Every offset and size is a size_t value. */
  ghost predicate Fits64(index: map<nat, nat>) {
    forall k | k in index :: k < U64 && index[k] < U64
  }

  lemma WrittenThenLoaded(order: ByteOrder, index: map<nat, nat>, io: SaveIo)
    requires Fits64(index) && !io.NotOpened?
    ensures LoadEntries(order, Clip(EntriesBytes(order, Entries(index)), Limit(io)), map[]) ==
            if io.Cut? && io.stored < ENTRY * |index| then
              if io.stored % ENTRY < 8 then InsertAll(map[], Entries(index)[..io.stored / ENTRY]) else map[]
            else index
  {
    FitsIsStorable(index);
    hide LoadEntries, EntriesBytes, InsertAll, Entries, Storable, Fits64, Clip, Limit;
    var b := EntriesBytes(order, Entries(index));
    Clipped(b, io);
    if io.Cut? && io.stored < ENTRY * |index| {
      LoadCut(order, index, io.stored);
    } else {
      SaveThenLoad(order, index);
    }
  }

  lemma FitsIsStorable(index: map<nat, nat>)
    requires Fits64(index)
    ensures Storable(Entries(index))
  {
  }

  lemma Clipped(b: seq<byte>, io: SaveIo)
    requires !io.NotOpened?
    ensures Clip(b, Limit(io)) == if io.Cut? && io.stored < |b| then b[..io.stored] else b
  {
  }

  /** A save that reaches the store is read back as far as it is kept, and one that does not leaves
      what was there. */
  lemma SavedThenLoaded(s: Snapshot, index: map<nat, nat>, io: SaveIo)
    requires Fits64(index)
    ensures Loaded(Saved(s, index, io), true) == if Takes(s, io) then Kept(s, index, io) else Loaded(s, true)
  {
    hide LoadEntries, EntriesBytes, InsertAll, Entries, Storable;
    if s.FileSnapshot? && !io.NotOpened? {
      WrittenThenLoaded(s.order, index, io);
    }
  }

  /** A later save that reaches the store makes an earlier one forgotten. */
  lemma SavedOver(s: Snapshot, a: map<nat, nat>, first: SaveIo, b: map<nat, nat>, io: SaveIo)
    ensures Saved(Saved(s, a, first), b, io) == if Takes(s, io) then Saved(s, b, io) else Saved(s, a, first)
  {
  }

  class MemoryMetadataStore {
    var metadata: map<nat, nat>

    constructor ()
      ensures metadata == map[]
    {
      metadata := map[];
    }

    method Load() returns (r: map<nat, nat>)
      ensures r == metadata
    {
      r := metadata;
    }

    method Save(m: map<nat, nat>)
      modifies this
      ensures metadata == m
    {
      metadata := m;
    }

    method Clear()
      modifies this
      ensures metadata == map[]
    {
      metadata := map[];
    }
  }

  datatype MetadataStore = InMemory(memory: MemoryMetadataStore) | OnDisk(disk: FileMetadataStore) {
    ghost function Repr(): set<object> {
      match this
      case InMemory(m) => {m}
      case OnDisk(d) => {d}
    }

    ghost function Contents(): Snapshot
      reads Repr()
    {
      match this
      case InMemory(m) => MapSnapshot(m.metadata)
      case OnDisk(d) => FileSnapshot(d.order, d.file)
    }

    method Load(canOpen: bool) returns (r: map<nat, nat>)
      ensures r == Loaded(Contents(), canOpen)
    {
      match this
      case InMemory(m) => r := m.Load();
      case OnDisk(d) => r := d.Load(canOpen);
    }

    method Save(index: map<nat, nat>, io: SaveIo)
      modifies Repr()
      ensures Contents() == Saved(old(Contents()), index, io)
    {
      match this
      case InMemory(m) => m.Save(index);
      case OnDisk(d) => d.Save(index, io);
    }
  }
}
