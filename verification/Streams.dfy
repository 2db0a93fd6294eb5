// The operating system's side of the codecs: a connected socket with short transfers, a file read
// through std::ifstream, and one written through std::ofstream.
module Streams {
  import opened Bytes
  import opened Options

  /** What becomes of a save to a file: the file does not open and stays as it is; all bytes reach it;
      or, since opening empties it and no write is checked, only the first bytes do. */
  datatype SaveIo = NotOpened | Written | Cut(stored: nat)

  function Limit(io: SaveIo): Option<nat> {
    if io.Cut? then Some(io.stored) else None
  }

  /** The part of b a file takes that takes no more bytes than its limit. */
  function Clip(b: seq<byte>, limit: Option<nat>): (r: seq<byte>)
    ensures r <= b
  {
    if limit.None? then b else b[..Min(limit.value, |b|)]
  }

  /** The file after a save of b. */
  function FileAfter(file: Option<seq<byte>>, b: seq<byte>, io: SaveIo): Option<seq<byte>> {
    if io.NotOpened? then file else Some(Clip(b, Limit(io)))
  }

  lemma ClipAgain(a: seq<byte>, b: seq<byte>, limit: Option<nat>)
    ensures Clip(Clip(a, limit) + b, limit) == Clip(a + b, limit)
  {
    if limit.Some? {
      var n := Min(limit.value, |a|);
      assert n < |a| ==> (a[..n] + b)[..n] == a[..n] == (a + b)[..n];
    }
  }

  /** std::ofstream: after the first write that fails, nothing more reaches the file. */
  class OutFile {
    const limit: Option<nat>
    var content: seq<byte>

    constructor (io: SaveIo)
      ensures limit == Limit(io) && content == Clip([], limit)
    {
      limit, content := Limit(io), [];
    }

    method Write(data: seq<byte>)
      modifies this
      ensures content == Clip(old(content) + data, limit)
    {
      content := Clip(content + data, limit);
    }
  }

  class Socket {
    /** The bytes still to arrive. After them, read returns 0 or fails. */
    var incoming: seq<byte>
    var outgoing: seq<byte>
    /** How many more bytes the connection accepts before write fails. */
    var room: nat

    constructor (incoming: seq<byte>, room: nat)
      ensures this.incoming == incoming && this.outgoing == [] && this.room == room
    {
      this.incoming, this.outgoing, this.room := incoming, [], room;
    }

    /** read(2): some of the bytes to arrive, at least one, at most max. */
    method Read(max: nat) returns (n: int, data: seq<byte>)
      requires max > 0
      modifies this`incoming
      ensures old(incoming) == [] ==> n <= 0 && data == [] && incoming == []
      ensures old(incoming) != [] ==>
                1 <= n <= max && n <= |old(incoming)| && data == old(incoming)[..n] && incoming == old(incoming)[n..]
    {
      if incoming == [] {
        n :| -1 <= n <= 0;
        return n, [];
      }
      n :| 1 <= n <= max && n <= |incoming|;
      data := incoming[..n];
      incoming := incoming[n..];
    }

    /** write(2): some of the bytes, at least one, while the connection lasts. */
    method Write(data: seq<byte>) returns (n: int)
      requires data != []
      modifies this`outgoing, this`room
      ensures old(room) == 0 ==> n <= 0 && outgoing == old(outgoing) && room == 0
      ensures old(room) > 0 ==>
                1 <= n <= |data| && n <= old(room) && outgoing == old(outgoing) + data[..n] && room == old(room) - n
    {
      if room == 0 {
        n :| -1 <= n <= 0;
        return;
      }
      n :| 1 <= n <= |data| && n <= room;
      outgoing := outgoing + data[..n];
      room := room - n;
    }
  }

  /** std::ifstream: a read past the end delivers what there is and clears good(). */
  class InFile {
    const content: seq<byte>
    var pos: nat
    var good: bool

    constructor (content: seq<byte>)
      ensures this.content == content && pos == 0 && good
    {
      this.content, pos, good := content, 0, true;
    }

    method Read(n: nat) returns (data: seq<byte>)
      requires good && pos <= |content|
      modifies this
      ensures old(pos) <= pos <= |content| && data == content[old(pos)..pos]
      ensures good <==> old(pos) + n <= |content|
      ensures pos == Min(old(pos) + n, |content|)
    {
      var end := Min(pos + n, |content|);
      good := pos + n <= |content|;
      data := content[pos..end];
      pos := end;
    }
  }
}
