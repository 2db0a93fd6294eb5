// LocalStorage: one locked array, the reference RAIDStorage is compared with.
module Local {
  import opened Bytes
  import opened OrderedMaps
  import opened RaidRuns
  import opened Requests

  class LocalStorage {
    const storage: array<byte>
    var offsetSizes: map<nat, nat>

    ghost function State(): FlatState
      reads this, storage
    {
      FlatState(storage[..], offsetSizes)
    }

    constructor (size: nat)
      ensures fresh(storage) && State() == FlatState(Zeros(size), map[])
    {
      storage := new byte[size](_ => 0);
      offsetSizes := map[];
    }

    /** False: throws std::out_of_range. On success the status the request came with stays. */
    method Read(data: DriverData) returns (ok: bool)
      modifies data`buffer
      ensures (State(), if ok then Answered(RaidRuns.Bytes(true, data.buffer)) else OutOfRange) ==
              LocalStep(old(State()), RaidRuns.Read(data.offset, data.len, old(data.buffer)))
      ensures !ok ==> data.buffer == old(data.buffer)
    {
      if data.offset + |data.buffer| > storage.Length {
        return false;
      }
      data.buffer := storage[data.offset..data.offset + |data.buffer|];
      ok := true;
    }

    method Write(data: DriverData) returns (ok: bool)
      modifies this`offsetSizes, storage
      ensures (State(), if ok then Answered(Status(true)) else OutOfRange) ==
              LocalStep(old(State()), RaidRuns.Write(data.offset, data.buffer))
      ensures ok <==> data.offset + |data.buffer| <= storage.Length
      ensures !ok ==> State() == old(State())
    {
      if data.offset + |data.buffer| > storage.Length {
        return false;
      }
      forall i | 0 <= i < |data.buffer| {
        storage[data.offset + i] := data.buffer[i];
      }
      assert storage[..] == Splice(old(storage[..]), data.offset, data.buffer);
      offsetSizes := offsetSizes[data.offset := |data.buffer|];
      ok := true;
    }

    method GetDataSize(offset: nat) returns (size: nat)
      ensures size == SizeAt(offsetSizes, offset)
      ensures offset in offsetSizes ==> size == offsetSizes[offset]
      ensures offset !in offsetSizes ==> size == 0
    {
      size := if offset in offsetSizes then offsetSizes[offset] else 0;
    }

    method ListOffsets() returns (result: seq<(nat, nat)>)
      ensures result == Entries(offsetSizes)
    {
      hide Entries;
      result := [];
      var entries := Entries(offsetSizes);
      for i := 0 to |entries|
        invariant result == entries[..i]
      {
        result := result + [entries[i]];
      }
    }
  }
}
