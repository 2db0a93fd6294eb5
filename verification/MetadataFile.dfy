// FileMetadataStore: the index as fixed 16-byte records, offset and size as the host stores a
// size_t, in key order.
module MetadataFile {
  import opened Bytes
  import opened Options
  import opened OrderedMaps
  import opened Streams
  import opened Wire

  type Entry = (nat, nat)

  const ENTRY := 16

  function EntryBytes(order: ByteOrder, e: Entry): (s: seq<byte>)
    ensures |s| == ENTRY
  {
    HostBytes(order, e.0, 8) + HostBytes(order, e.1, 8)
  }

  function EntriesBytes(order: ByteOrder, es: seq<Entry>): (s: seq<byte>)
    ensures |s| == ENTRY * |es|
  {
    if es == [] then [] else EntriesBytes(order, es[..|es| - 1]) + EntryBytes(order, es[|es| - 1])
  }

  /** A saved index byte by byte: entry i starts at 16 i, its offset and then its size. */
  lemma {:induction false} EntryAt(order: ByteOrder, es: seq<Entry>, i: nat)
    requires i < |es|
    ensures var e := EntriesBytes(order, es)[16 * i..16 * i + 16];
            if order == Little then LeastSignificantFirst(e[..8], es[i].0) && LeastSignificantFirst(e[8..], es[i].1)
            else MostSignificantFirst(e[..8], es[i].0) && MostSignificantFirst(e[8..], es[i].1)
    decreases |es|
  {
    hide HostBytes, LeastSignificantFirst, MostSignificantFirst;
    var n := |es| - 1;
    if i < n {
      EntryAt(order, es[..n], i);
      assert EntriesBytes(order, es)[16 * i..16 * i + 16] == EntriesBytes(order, es[..n])[16 * i..16 * i + 16];
    } else {
      HostDigits(order, es[n].0, 8);
      HostDigits(order, es[n].1, 8);
      var a, b := HostBytes(order, es[n].0, 8), HostBytes(order, es[n].1, 8);
      assert EntriesBytes(order, es)[16 * n..16 * n + 16] == a + b;
      assert (a + b)[..8] == a && (a + b)[8..] == b;
    }
  }

  /** What the loop of Load makes of the rest of the file: an entry without a full size clears all. */
  function LoadEntries(order: ByteOrder, s: seq<byte>, m: map<nat, nat>): map<nat, nat>
    decreases |s|
  {
    if |s| < 8 then m
    else if |s| < ENTRY then map[]
    else LoadEntries(order, s[ENTRY..], m[FromHostBytes(order, s[..8]) := FromHostBytes(order, s[8..ENTRY])])
  }

  /** Offsets and sizes are size_t values. */
  ghost predicate Storable(es: seq<Entry>) {
    forall i | 0 <= i < |es| :: es[i].0 < U64 && es[i].1 < U64
  }

  lemma LoadOne(order: ByteOrder, e: Entry, tail: seq<byte>, m: map<nat, nat>)
    requires e.0 < U64 && e.1 < U64
    ensures LoadEntries(order, EntryBytes(order, e) + tail, m) == LoadEntries(order, tail, m[e.0 := e.1])
  {
    var s := EntryBytes(order, e) + tail;
    Widths();
    HostRoundTrip(order, e.0, 8);
    HostRoundTrip(order, e.1, 8);
    assert s[..8] == HostBytes(order, e.0, 8) && s[8..ENTRY] == HostBytes(order, e.1, 8) && s[ENTRY..] == tail;
  }

  lemma {:induction false} LoadMany(order: ByteOrder, es: seq<Entry>, tail: seq<byte>, m: map<nat, nat>)
    requires Storable(es)
    ensures LoadEntries(order, EntriesBytes(order, es) + tail, m) == LoadEntries(order, tail, InsertAll(m, es))
    decreases |es|
  {
    hide LoadEntries, EntriesBytes, EntryBytes, InsertAll;
    BytesBeforeLast(order, es, tail);
    if es == [] {
      InsertNothing(m);
    } else {
      var n := |es| - 1;
      var init, last := es[..n], es[n];
      InsertAllAppend(m, init, last);
      assert es == init + [last];
      LoadMany(order, init, EntryBytes(order, last) + tail, m);
      LoadOne(order, last, tail, InsertAll(m, init));
    }
  }

  lemma InsertNothing(m: map<nat, nat>)
    ensures InsertAll(m, []) == m
  {
  }

  lemma BytesBeforeLast(order: ByteOrder, es: seq<Entry>, tail: seq<byte>)
    ensures EntriesBytes(order, es) + tail ==
            if es == [] then tail
            else EntriesBytes(order, es[..|es| - 1]) + (EntryBytes(order, es[|es| - 1]) + tail)
  {
  }

  /** Round trip: loading what was saved gives the index. */
  lemma SaveThenLoad(order: ByteOrder, m: map<nat, nat>)
    requires Storable(Entries(m))
    ensures LoadEntries(order, EntriesBytes(order, Entries(m)), map[]) == m
  {
    LoadMany(order, Entries(m), [], map[]);
    assert EntriesBytes(order, Entries(m)) + [] == EntriesBytes(order, Entries(m));
    InsertEntries(m);
  }

  lemma {:induction false} PrefixOfEntries(order: ByteOrder, es: seq<Entry>, k: nat)
    requires k <= |es|
    ensures EntriesBytes(order, es)[..ENTRY * k] == EntriesBytes(order, es[..k])
    decreases |es| - k
  {
    if k < |es| {
      PrefixOfEntries(order, es, k + 1);
      assert es[..k + 1][..k] == es[..k];
      assert EntriesBytes(order, es)[..ENTRY * k] == EntriesBytes(order, es)[..ENTRY * (k + 1)][..ENTRY * k];
    } else {
      assert es[..k] == es;
    }
  }

  /** Truncation: a file of entries cut to 16 k + r bytes loads as the first k entries if the cut
      leaves less than an offset behind them, and as the empty index otherwise. */
  lemma LoadTruncated(order: ByteOrder, es: seq<Entry>, k: nat, r: nat)
    requires Storable(es) && r < ENTRY && ENTRY * k + r <= ENTRY * |es|
    ensures LoadEntries(order, EntriesBytes(order, es)[..ENTRY * k + r], map[]) ==
            if r < 8 then InsertAll(map[], es[..k]) else map[]
  {
    hide EntriesBytes, InsertAll;
    var s := EntriesBytes(order, es);
    var tail := s[ENTRY * k..ENTRY * k + r];
    PrefixOfEntries(order, es, k);
    assert s[..ENTRY * k + r] == s[..ENTRY * k] + tail;
    LoadMany(order, es[..k], tail, map[]);
  }

  /** The same by the length of the file. */
  lemma LoadCut(order: ByteOrder, m: map<nat, nat>, n: nat)
    requires Storable(Entries(m)) && n < ENTRY * |m|
    ensures n / ENTRY <= |m| && n <= |EntriesBytes(order, Entries(m))|
    ensures LoadEntries(order, EntriesBytes(order, Entries(m))[..n], map[]) ==
            if n % ENTRY < 8 then InsertAll(map[], Entries(m)[..n / ENTRY]) else map[]
  {
    hide EntriesBytes, LoadEntries, InsertAll, Storable, Entries;
    var k, r := n / ENTRY, n % ENTRY;
    assert n == ENTRY * k + r;
    LoadTruncated(order, Entries(m), k, r);
  }

  /** So a truncated save keeps the entries before the cut, in key order, if and only if the cut is
      not in a size, or there are none. */
  lemma TruncationKeepsPrefixIff(order: ByteOrder, m: map<nat, nat>, k: nat, r: nat)
    requires Storable(Entries(m)) && r < ENTRY && ENTRY * k + r <= ENTRY * |m|
    ensures LoadEntries(order, EntriesBytes(order, Entries(m))[..ENTRY * k + r], map[]) ==
            InsertAll(map[], Entries(m)[..k])
            <==> r < 8 || k == 0
  {
    hide EntriesBytes, LoadEntries, InsertAll, Storable;
    LoadTruncated(order, Entries(m), k, r);
    InsertedIsEmptyIff(Entries(m), k);
  }

  lemma InsertedIsEmptyIff(es: seq<Entry>, k: nat)
    requires k <= |es| && forall i, j | 0 <= i < j < |es| :: es[i].0 < es[j].0
    ensures InsertAll(map[], es[..k]) == map[] <==> k == 0
  {
    InsertAllLookup(map[], es[..k]);
    if k > 0 {
      assert es[..k][0].0 in InsertAll(map[], es[..k]);
    } else {
      assert es[..k] == [];
    }
  }

  class FileMetadataStore {
    const order: ByteOrder
    /** raid_metadata.dat, if it exists. */
    var file: Option<seq<byte>>

    constructor (order: ByteOrder, file: Option<seq<byte>>)
      ensures this.order == order && this.file == file
    {
      this.order, this.file := order, file;
    }

    method Load(canOpen: bool) returns (metadata: map<nat, nat>)
      ensures metadata == if file.None? || !canOpen then map[] else LoadEntries(order, file.value, map[])
    {
      metadata := map[];
      if file.None? || !canOpen {
        return;
      }
      var stream := new InFile(file.value);
      ghost var content := file.value;
      assert content[0..] == content;
      var offsetBytes := stream.Read(8);
      while stream.good
        invariant fresh(stream) && stream.content == content && stream.pos <= |content|
        invariant stream.good ==> 8 <= stream.pos && offsetBytes == content[stream.pos - 8..stream.pos]
        invariant LoadEntries(order, content, map[]) ==
                  if stream.good then LoadEntries(order, content[stream.pos - 8..], metadata) else metadata
        decreases |content| - stream.pos, stream.good
      {
        ghost var rest := content[stream.pos - 8..];
        assert rest[..8] == offsetBytes;
        var sizeBytes := stream.Read(8);
        if !stream.good {
          return map[];
        }
        assert rest[8..ENTRY] == sizeBytes && rest[ENTRY..] == content[stream.pos..];
        metadata := metadata[FromHostBytes(order, offsetBytes) := FromHostBytes(order, sizeBytes)];
        offsetBytes := stream.Read(8);
        assert stream.good ==> rest[ENTRY..] == content[stream.pos - 8..];
      }
    }

    method Save(metadata: map<nat, nat>, io: SaveIo)
      modifies this`file
      ensures file == FileAfter(old(file), EntriesBytes(order, Entries(metadata)), io)
    {
      hide HostBytes, Entries, Clip;
      if io.NotOpened? {
        return;
      }
      var out := new OutFile(io);
      var es := Entries(metadata);
      for i := 0 to |es|
        invariant out.content == Clip(EntriesBytes(order, es[..i]), Limit(io))
      {
        var (offset, size) := es[i];
        ghost var before := EntriesBytes(order, es[..i]);
        ghost var a, b := HostBytes(order, offset, 8), HostBytes(order, size, 8);
        ClipAgain(before, a, Limit(io));
        ClipAgain(before + a, b, Limit(io));
        out.Write(HostBytes(order, offset, 8));
        out.Write(HostBytes(order, size, 8));
        assert es[..i + 1][..i] == es[..i];
        assert before + a + b == before + EntryBytes(order, es[i]);
      }
      assert es[..|es|] == es;
      file := Some(out.content);
    }

    method Clear()
      modifies this`file
      ensures file == None
    {
      file := None;
    }
  }
}
