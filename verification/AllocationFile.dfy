// The .tcp_allocations file: for each offset, in key order, the offset and the payload length as
// big-endian 64-bit integers, then the payload.
module AllocationFile {
  import opened Bytes
  import opened OrderedMaps
  import opened Wire

  type Allocations = map<nat, seq<byte>>
  type Entry = (nat, seq<byte>)

  const HEADER := 16

  function Record(e: Entry): (s: seq<byte>)
    ensures |s| == HEADER + |e.1|
  {
    BigEndian(e.0, 8) + BigEndian(|e.1|, 8) + e.1
  }

  function Records(es: seq<Entry>): seq<byte> {
    if es == [] then [] else Records(es[..|es| - 1]) + Record(es[|es| - 1])
  }

  /** What the loop of LoadAllocations makes of the rest of the file: a record cut in its header
      ends the loop, a record cut in its payload keeps the zeros its buffer was made of. */
  function LoadRecords(s: seq<byte>, m: Allocations): Allocations
    decreases |s|
  {
    if |s| < HEADER then m
    else
      var offset, size := FromBigEndian(s[..8]), FromBigEndian(s[8..HEADER]);
      var rest := s[HEADER..];
      if |rest| < size then m[offset := Resize(rest, size)]
      else LoadRecords(rest[size..], m[offset := rest[..size]])
  }

  /** Keys and payload lengths fit size_t. */
  ghost predicate Storable(es: seq<Entry>) {
    forall i | 0 <= i < |es| :: es[i].0 < U64 && |es[i].1| < U64
  }

  lemma RecordFields(e: Entry, tail: seq<byte>)
    requires e.0 < U64 && |e.1| < U64
    ensures var s := BigEndian(e.0, 8) + BigEndian(|e.1|, 8) + tail;
            FromBigEndian(s[..8]) == e.0 && FromBigEndian(s[8..HEADER]) == |e.1| && s[HEADER..] == tail
  {
    var s := BigEndian(e.0, 8) + BigEndian(|e.1|, 8) + tail;
    Widths();
    BigEndianRoundTrip(e.0, 8);
    BigEndianRoundTrip(|e.1|, 8);
    assert s[..8] == BigEndian(e.0, 8) && s[8..HEADER] == BigEndian(|e.1|, 8);
  }

  lemma LoadOne(e: Entry, tail: seq<byte>, m: Allocations)
    requires e.0 < U64 && |e.1| < U64
    ensures LoadRecords(Record(e) + tail, m) == LoadRecords(tail, m[e.0 := e.1])
  {
    RecordFields(e, e.1 + tail);
    assert Record(e) + tail == BigEndian(e.0, 8) + BigEndian(|e.1|, 8) + (e.1 + tail);
    assert (e.1 + tail)[..|e.1|] == e.1 && (e.1 + tail)[|e.1|..] == tail;
  }

  lemma LoadCut(e: Entry, n: nat, m: Allocations)
    requires e.0 < U64 && |e.1| < U64 && n < HEADER + |e.1|
    ensures LoadRecords(Record(e)[..n], m) ==
            if n < HEADER then m else m[e.0 := Resize(e.1[..n - HEADER], |e.1|)]
  {
    if n >= HEADER {
      var cut := e.1[..n - HEADER];
      RecordFields(e, cut);
      assert Record(e)[..n] == BigEndian(e.0, 8) + BigEndian(|e.1|, 8) + cut;
    }
  }

  /** Loading complete records before anything else inserts them. */
  lemma {:induction false} LoadMany(es: seq<Entry>, tail: seq<byte>, m: Allocations)
    requires Storable(es)
    ensures LoadRecords(Records(es) + tail, m) == LoadRecords(tail, InsertAll(m, es))
  {
    if es == [] {
      assert Records(es) + tail == tail;
    } else {
      hide LoadRecords, Record, InsertAll;
      var n := |es| - 1;
      assert Records(es) + tail == Records(es[..n]) + (Record(es[n]) + tail);
      assert es == es[..n] + [es[n]];
      hide *;
      LoadMany(es[..n], Record(es[n]) + tail, m);
      LoadOne(es[n], tail, InsertAll(m, es[..n]));
      InsertAllAppend(m, es[..n], es[n]);
    }
  }

  lemma RecordsGrow(es: seq<Entry>, k: nat)
    requires k <= |es|
    ensures |Records(es[..k])| <= |Records(es)| && Records(es)[..|Records(es[..k])|] == Records(es[..k])
    ensures k < |es| ==> Records(es[..k + 1]) == Records(es[..k]) + Record(es[k])
    decreases |es| - k
  {
    if k < |es| {
      RecordsGrow(es, k + 1);
      assert es[..k + 1][..k] == es[..k];
    } else {
      assert es[..k] == es;
    }
  }

  lemma NoRecords()
    ensures Records([]) == []
  {
  }

  /** A saved file byte by byte: after the records of the entries before it, the offset of an entry,
      the length of its payload, and the payload. */
  lemma RecordAt(es: seq<Entry>, i: nat)
    requires i < |es|
    ensures var start := |Records(es[..i])|;
            && start + 16 + |es[i].1| == |Records(es[..i + 1])| <= |Records(es)| && (i == 0 ==> start == 0)
            && var r := Records(es)[start..start + 16 + |es[i].1|];
               && MostSignificantFirst(r[..8], es[i].0) && MostSignificantFirst(r[8..16], |es[i].1|)
               && r[16..] == es[i].1
  {
    hide BigEndian, MostSignificantFirst, Records;
    RecordsGrow(es, i);
    RecordsGrow(es, i + 1);
    NoRecords();
    BigEndianDigits(es[i].0, 8);
    BigEndianDigits(|es[i].1|, 8);
    var before, record := Records(es[..i]), Record(es[i]);
    var start := |before|;
    assert Records(es)[..start + |record|] == before + record;
    assert Records(es)[start..start + |record|] == (before + record)[start..] == record;
    Parts(BigEndian(es[i].0, 8), BigEndian(|es[i].1|, 8), es[i].1);
  }

  /** Round trip: loading what was saved gives the map. */
  lemma SaveThenLoad(m: Allocations)
    requires Storable(Entries(m))
    ensures LoadRecords(Records(Entries(m)), map[]) == m
  {
    LoadMany(Entries(m), [], map[]);
    assert Records(Entries(m)) + [] == Records(Entries(m));
    InsertEntries(m);
  }

  /** Of a file cut to n bytes, the records before the cut load as they were. Of the record k the
      cut falls into, a cut in the header leaves nothing, and a cut in the payload leaves the bytes
      before the cut, padded with zeros to the full length. */
  lemma LoadTruncated(es: seq<Entry>, n: nat, k: nat)
    requires Storable(es) && k < |es|
    requires |Records(es[..k])| <= n < |Records(es[..k + 1])|
    ensures n <= |Records(es)| && n < |Records(es[..k])| + HEADER + |es[k].1|
    ensures var cut, kept := n - |Records(es[..k])|, InsertAll(map[], es[..k]);
            LoadRecords(Records(es)[..n], map[]) ==
            if cut < HEADER then kept
            else kept[es[k].0 := Resize(es[k].1[..cut - HEADER], |es[k].1|)]
  {
    var before := Records(es[..k]);
    var cut := n - |before|;
    RecordsGrow(es, k);
    RecordsGrow(es, k + 1);
    assert Records(es[..k + 1]) == before + Record(es[k]);
    assert Records(es)[..n] == Records(es[..k + 1])[..n];
    assert Records(es[..k + 1])[..n] == before + Record(es[k])[..cut];
    assert Storable(es[..k]);
    hide LoadRecords, Records, Record, InsertAll, Resize;
    LoadMany(es[..k], Record(es[k])[..cut], map[]);
    LoadCut(es[k], cut, InsertAll(map[], es[..k]));
  }

  /** Truncation, key by key: a saved file cut to n bytes yields the offsets whose header is before
      the cut, each with the payload bytes before the cut and zeros for the others. */
  lemma LoadTruncatedLookup(es: seq<Entry>, n: nat, k: nat, i: nat)
    requires Storable(es) && k < |es| && i < |es|
    requires forall a, b | 0 <= a < b < |es| :: es[a].0 < es[b].0
    requires |Records(es[..k])| <= n < |Records(es[..k + 1])|
    ensures n <= |Records(es)|
    ensures var loaded, start := LoadRecords(Records(es)[..n], map[]), |Records(es[..i])|;
            && (es[i].0 in loaded <==> start + HEADER <= n)
            && (es[i].0 in loaded ==>
                  loaded[es[i].0] == Resize(es[i].1[..Min(|es[i].1|, n - start - HEADER)], |es[i].1|))
  {
    hide LoadRecords, Records, Record, InsertAll;
    LoadTruncated(es, n, k);
    InsertAllLookup(map[], es[..k]);
    RecordsMonotone(es, i, k);
    var kept := InsertAll(map[], es[..k]);
    if i < k {
      assert es[..k][i] == es[i];
      RecordsMonotone(es, i + 1, k);
      RecordsGrow(es, i);
      assert es[i].1[..|es[i].1|] == es[i].1;
      assert Resize(es[i].1, |es[i].1|) == es[i].1;
    } else {
      assert forall j | 0 <= j < k :: es[..k][j].0 < es[i].0;
      assert es[i].0 !in kept;
      if i > k {
        RecordsGrow(es, k);
      }
    }
  }

  /** The file SaveAllocations leaves, cut to n bytes short of its end, as LoadAllocations reads it. */
  lemma SavedFileTruncated(m: Allocations, n: nat, i: nat)
    requires Storable(Entries(m)) && n < |Records(Entries(m))| && i < |m|
    ensures var e := Entries(m)[i];
            var loaded, start := LoadRecords(Records(Entries(m))[..n], map[]), |Records(Entries(m)[..i])|;
            && (e.0 in loaded <==> start + HEADER <= n)
            && (e.0 in loaded ==> loaded[e.0] == Resize(m[e.0][..Min(|m[e.0]|, n - start - HEADER)], |m[e.0]|))
  {
    hide LoadRecords, Records, Resize, Entries, Storable;
    var k := CutRecord(Entries(m), n);
    LoadTruncatedLookup(Entries(m), n, k, i);
  }

  /** The record a cut falls into. */
  lemma CutRecord(es: seq<Entry>, n: nat) returns (k: nat)
    requires n < |Records(es)|
    ensures k < |es| && |Records(es[..k])| <= n < |Records(es[..k + 1])|
  {
    k := |es| - 1;
    assert es[..|es|] == es;
    while n < |Records(es[..k])|
      invariant k < |es| && n < |Records(es[..k + 1])|
      decreases k
    {
      k := k - 1;
    }
  }

  lemma RecordsMonotone(es: seq<Entry>, i: nat, j: nat)
    requires i <= |es| && j <= |es|
    ensures i <= j ==> |Records(es[..i])| <= |Records(es[..j])|
    ensures i > j ==> |Records(es[..j + 1])| <= |Records(es[..i])|
    ensures i == j ==> Records(es[..i]) == Records(es[..j])
    decreases if i <= j then j - i else i - j
  {
    if i < j {
      RecordsMonotone(es, i + 1, j);
      RecordsGrow(es, i);
    } else if i > j + 1 {
      RecordsMonotone(es, i - 1, j);
      RecordsGrow(es, i - 1);
    }
  }
}
