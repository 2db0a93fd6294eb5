// The two backends of IStorageMinion. A minion is a fixed-size byte buffer whose calls check
// their bounds first; the file backend may then throw, for a write after part of the buffer
// reached the file.
module Minions {
  import opened Bytes

  /** What the operating system does to one pwrite: all bytes stored, or a short or failed call
      that RAIDStorage sees as an exception, after `stored` bytes of the buffer reached the file. */
  datatype Io = Done | Fault(stored: nat)

  datatype Result<+T> = Ok(value: T) | Threw

  datatype WriteOutcome = WriteOutcome(data: seq<byte>, ok: bool)

  /** One write call on the contents of a minion. */
  function MinionWrite(data: seq<byte>, offset: nat, buf: seq<byte>, io: Io): (r: WriteOutcome)
    ensures |r.data| == |data|
  {
    if offset + |buf| > |data| then
      WriteOutcome(data, false)
    else
      match io
      case Done => WriteOutcome(Splice(data, offset, buf), true)
      case Fault(k) => WriteOutcome(Splice(data, offset, buf[..Min(k, |buf|)]), false)
  }

  /** One read call: count bytes, unless out of bounds or failed by the operating system. */
  function MinionRead(data: seq<byte>, offset: nat, count: nat, bad: bool): (r: Result<seq<byte>>)
    ensures r.Ok? <==> offset + count <= |data| && !bad
    ensures r.Ok? ==> |r.value| == count
  {
    if offset + count > |data| || bad then Threw else Ok(data[offset..offset + count])
  }

  /** What a write leaves, byte by byte: in bounds, the bytes that were stored, and old ones elsewhere. */
  lemma WriteByte(data: seq<byte>, offset: nat, buf: seq<byte>, io: Io, i: nat)
    requires i < |data|
    ensures var r := MinionWrite(data, offset, buf, io);
            var inBounds := offset + |buf| <= |data|;
            var stored := inBounds && offset <= i < offset + |buf| && (io.Done? || i < offset + io.stored);
            && r.data[i] == (if stored then buf[i - offset] else data[i])
            && (r.ok <==> inBounds && io.Done?)
  {
  }

  class StorageMinionMemory {
    const data: array<byte>

    constructor (size: nat)
      ensures fresh(data) && data[..] == Zeros(size)
    {
      data := new byte[size](_ => 0);
    }

    method Read(offset: nat, count: nat) returns (r: Result<seq<byte>>)
      ensures r == MinionRead(data[..], offset, count, false)
    {
      if offset + count > data.Length {
        return Threw;
      }
      r := Ok(data[offset..offset + count]);
    }

    method Write(offset: nat, buf: seq<byte>) returns (ok: bool)
      modifies data
      ensures WriteOutcome(data[..], ok) == MinionWrite(old(data[..]), offset, buf, Done)
    {
      if offset + |buf| > data.Length {
        return false;
      }
      forall i | 0 <= i < |buf| {
        data[offset + i] := buf[i];
      }
      ok := true;
    }
  }

  class StorageMinionFile {
    /** The bytes of the .img file. */
    const data: array<byte>

    /** `image` is what the file at the path holds, nothing for a new or empty one. An empty file is
        filled with zeros; another keeps its bytes. Where it is shorter than the minion, a read is a
        short pread, one of the failures `bad` stands for, until a pwrite behind it has made the
        bytes in between zeros. */
    constructor (size: nat, image: seq<byte>)
      ensures fresh(data) && data[..] == Resize(image, size)
    {
      data := new byte[size](i requires 0 <= i => if i < |image| then image[i] else 0);
    }

    function Size(): nat {
      data.Length
    }

    /** `bad`: pread failed, or returned fewer bytes than requested. */
    method Read(offset: nat, count: nat, bad: bool) returns (r: Result<seq<byte>>)
      ensures r == MinionRead(data[..], offset, count, bad)
    {
      if offset + count > Size() {
        return Threw;
      }
      if bad {
        return Threw;
      }
      r := Ok(data[offset..offset + count]);
    }

    method Write(offset: nat, buf: seq<byte>, io: Io) returns (ok: bool)
      modifies data
      ensures WriteOutcome(data[..], ok) == MinionWrite(old(data[..]), offset, buf, io)
    {
      if offset + |buf| > Size() {
        return false;
      }
      var stored := if io.Done? then |buf| else Min(io.stored, |buf|);
      forall i | 0 <= i < stored {
        data[offset + i] := buf[i];
      }
      ok := io.Done?;
    }
  }
}
