// The Python client's side: offset discovery, and how it reads replies, with one recv each for the
// header and the payload.
module Client {
  import opened Bytes
  import opened Framing
  import opened Mediator
  import opened Options
  import opened OrderedMaps
  import opened Requests
  import opened Streams
  import opened TcpDriver
  import opened Wire

  /** The offsets in a LIST_OFFSETS payload; an incomplete pair at the end is ignored. */
  function DecodeOffsets(data: seq<byte>): seq<nat> {
    if |data| < 16 then [] else [FromBigEndian(data[..8])] + DecodeOffsets(data[16..])
  }

  lemma NothingDecoded()
    ensures DecodeOffsets([]) == []
  {
  }

  function Keys<T>(es: seq<(nat, T)>): (r: seq<nat>)
    ensures |r| == |es| && forall i | 0 <= i < |es| :: r[i] == es[i].0
  {
    seq(|es|, i requires 0 <= i < |es| => es[i].0)
  }

  lemma KeysOfEntries<T>(m: map<nat, T>)
    ensures Keys(Entries(m)) == Ascending(m.Keys)
  {
  }

  ghost predicate Fit64(es: seq<(nat, nat)>) {
    forall i | 0 <= i < |es| :: es[i].0 < U64 && es[i].1 < U64
  }

  lemma {:induction false} PayloadFromFront(es: seq<(nat, nat)>)
    requires es != []
    ensures OffsetsPayload(es) == BigEndian(es[0].0, 8) + BigEndian(es[0].1, 8) + OffsetsPayload(es[1..])
    decreases |es|
  {
    var n := |es| - 1;
    if n > 0 {
      PayloadFromFront(es[..n]);
      assert es[..n][1..] == es[1..][..n - 1];
    }
  }

  /** The payload byte by byte: entry i starts at 16 i, its offset and then its size. */
  lemma {:induction false} PayloadAt(es: seq<(nat, nat)>, i: nat)
    requires i < |es|
    ensures var e := OffsetsPayload(es)[16 * i..16 * i + 16];
            MostSignificantFirst(e[..8], es[i].0) && MostSignificantFirst(e[8..], es[i].1)
    decreases |es|
  {
    hide BigEndian, MostSignificantFirst;
    var n := |es| - 1;
    if i < n {
      PayloadAt(es[..n], i);
      assert OffsetsPayload(es)[16 * i..16 * i + 16] == OffsetsPayload(es[..n])[16 * i..16 * i + 16];
    } else {
      BigEndianDigits(es[n].0, 8);
      BigEndianDigits(es[n].1, 8);
      var a, b := BigEndian(es[n].0, 8), BigEndian(es[n].1, 8);
      assert OffsetsPayload(es)[16 * n..16 * n + 16] == a + b;
      assert (a + b)[..8] == a && (a + b)[8..] == b;
    }
  }

  lemma DecodeStep(offset: nat, size: nat, data: seq<byte>)
    requires offset < U64
    ensures DecodeOffsets(BigEndian(offset, 8) + BigEndian(size, 8) + data) == [offset] + DecodeOffsets(data)
  {
    var a, b := BigEndian(offset, 8), BigEndian(size, 8);
    Widths();
    BigEndianRoundTrip(offset, 8);
    hide BigEndian, FromBigEndian;
    Parts(a, b, data);
  }

  /** From any prefix of the payload the client learns the keys of the entries in it, in order. */
  lemma {:induction false} DecodePrefix(es: seq<(nat, nat)>, n: nat)
    requires Fit64(es) && n <= 16 * |es|
    ensures DecodeOffsets(OffsetsPayload(es)[..n]) == Keys(es[..n / 16])
    decreases |es|
  {
    hide BigEndian, FromBigEndian, OffsetsPayload;
    if n >= 16 {
      var rest := OffsetsPayload(es[1..]);
      PayloadFromFront(es);
      assert OffsetsPayload(es)[..n] == BigEndian(es[0].0, 8) + BigEndian(es[0].1, 8) + rest[..n - 16];
      DecodeStep(es[0].0, es[0].1, rest[..n - 16]);
      DecodePrefix(es[1..], n - 16);
      assert Keys(es[..n / 16]) == [es[0].0] + Keys(es[1..][..(n - 16) / 16]);
    } else {
      assert es[..n / 16] == [];
    }
  }

  /** A list without repeats, and new elements, as one ascending list. */
  function Merged(known: seq<nat>, found: seq<nat>): (r: seq<nat>)
    ensures forall x :: x in r <==> x in known || x in found
    ensures forall i, j | 0 <= i < j < |r| :: r[i] < r[j]
  {
    Ascending((set x | x in known) + (set x | x in found))
  }

  /** An ascending list is determined by its elements. */
  lemma {:induction false} AscendingUnique(a: seq<nat>, b: seq<nat>)
    requires forall i, j | 0 <= i < j < |a| :: a[i] < a[j]
    requires forall i, j | 0 <= i < j < |b| :: b[i] < b[j]
    requires forall x :: x in a <==> x in b
    ensures a == b
    decreases |a|
  {
    assert b == [] || b[0] in b;
    if a != [] {
      assert a[0] in a && a[0] in b;
      assert b[0] in b && b[0] in a;
      assert a[0] == b[0];
      forall x
        ensures x in a[1..] <==> x in b[1..]
      {
        assert x in a <==> x == a[0] || x in a[1..];
        assert x in b <==> x == b[0] || x in b[1..];
        assert a[0] !in a[1..] && b[0] !in b[1..];
      }
      AscendingUnique(a[1..], b[1..]);
    }
  }

  // ---- Reading replies ----

  /** What recv_reply unpacks. */
  datatype Header = Header(error: nat, handle: nat, length: nat)

  function HeaderOf(b: seq<byte>): Header
    requires |b| == REPLY_HEADER
  {
    Header(FromBigEndian(b[..4]), FromBigEndian(b[4..12]), FromBigEndian(b[12..16]))
  }

  /** How many bytes the recv for the header and the one for the payload delivered. */
  datatype Delivery = Delivery(header: nat, payload: nat)

  /** A recv of at most `most` bytes can deliver n of s: at least one, unless nothing is to arrive. */
  predicate CanDeliver(s: seq<byte>, most: nat, n: nat) {
    n <= most && n <= |s| && (n == 0 ==> most == 0 || s == [])
  }

  /** The payload a client expects after a header, from the type of its request. */
  function Expected(kind: nat, h: Header): nat {
    if h.error == 0 && (kind == READ || kind == LIST_OFFSETS) then h.length else 0
  }

  ghost predicate Deliverable(kind: nat, s: seq<byte>, d: Delivery) {
    && CanDeliver(s, REPLY_HEADER, d.header)
    && if d.header < REPLY_HEADER then d.payload == 0
       else CanDeliver(s[REPLY_HEADER..], Expected(kind, HeaderOf(s[..REPLY_HEADER])), d.payload)
  }

  /** What the client makes of a reply, None if it gives up on the header, and what is left to read. */
  function ReadReply(kind: nat, s: seq<byte>, d: Delivery): (r: (Option<Answer>, seq<byte>))
    requires Deliverable(kind, s, d)
  {
    if d.header < REPLY_HEADER then (None, s[d.header..])
    else
      var h, rest := HeaderOf(s[..REPLY_HEADER]), s[REPLY_HEADER..];
      (Some(Answer(h.error == 0, h.handle, h.length, rest[..d.payload])), rest[d.payload..])
  }

  ghost predicate AllDeliverable(kinds: seq<nat>, s: seq<byte>, ds: seq<Delivery>)
    decreases |kinds|
  {
    && |ds| == |kinds|
    && (kinds != [] ==>
          && Deliverable(kinds[0], s, ds[0])
          && AllDeliverable(kinds[1..], ReadReply(kinds[0], s, ds[0]).1, ds[1..]))
  }

  function ReadReplies(kinds: seq<nat>, s: seq<byte>, ds: seq<Delivery>): (r: (seq<Option<Answer>>, seq<byte>))
    requires AllDeliverable(kinds, s, ds)
    ensures |r.0| == |kinds|
    decreases |kinds|
  {
    if kinds == [] then ([], s)
    else
      var (answer, rest) := ReadReply(kinds[0], s, ds[0]);
      var (answers, end) := ReadReplies(kinds[1..], rest, ds[1..]);
      ([answer] + answers, end)
  }

  /** Both recvs delivered all they asked for. */
  predicate InFull(r: Reply, d: Delivery) {
    d == Delivery(REPLY_HEADER, |r.Payload()|)
  }

  ghost predicate AllInFull(rs: seq<Reply>, ds: seq<Delivery>) {
    |ds| == |rs| && forall i | 0 <= i < |rs| :: InFull(rs[i], ds[i])
  }

  /** One reply is recovered if and only if both recvs deliver in full, and then nothing is left of it. */
  lemma ReplyReadIff(r: Reply, tail: seq<byte>, d: Delivery)
    requires r.handle < U64 && r.Length() < U32 && Deliverable(r.kind, ReplyFrame(r) + tail, d)
    ensures ReadReply(r.kind, ReplyFrame(r) + tail, d).0 == Some(AnswerOf(r)) <==> InFull(r, d)
    ensures InFull(r, d) ==> ReadReply(r.kind, ReplyFrame(r) + tail, d).1 == tail
  {
    hide FromBigEndian, ReplyHeader;
    var payload, s := r.Payload(), ReplyFrame(r) + tail;
    ReplyFields(r, payload + tail);
    assert s == ReplyHeader(r) + (payload + tail);
    if d.header == REPLY_HEADER {
      assert s[..REPLY_HEADER][..4] == s[..4] && s[..REPLY_HEADER][4..12] == s[4..12];
      assert s[..REPLY_HEADER][12..16] == s[12..16];
      assert d.payload == |payload| ==> (payload + tail)[..d.payload] == payload;
      assert d.payload == |payload| ==> (payload + tail)[d.payload..] == tail;
    }
  }

  function Somes(answers: seq<Answer>): (r: seq<Option<Answer>>)
    ensures |r| == |answers| && forall i | 0 <= i < |r| :: r[i] == Some(answers[i])
  {
    seq(|answers|, i requires 0 <= i < |answers| => Some(answers[i]))
  }

  /** A list of replies is recovered by the client if and only if every recv delivers in full. */
  lemma {:induction false} RepliesReadIff(rs: seq<Reply>, tail: seq<byte>, ds: seq<Delivery>)
    requires forall i | 0 <= i < |rs| :: rs[i].handle < U64 && rs[i].Length() < U32
    requires AllDeliverable(Kinds(rs), ReplyStream(rs) + tail, ds)
    ensures var (answers, rest) := ReadReplies(Kinds(rs), ReplyStream(rs) + tail, ds);
            && (answers == Somes(Answers(rs)) <==> AllInFull(rs, ds))
            && (AllInFull(rs, ds) ==> rest == tail)
    decreases |rs|
  {
    hide ReplyFrame, ReadReply, Deliverable, InFull;
    if rs == [] {
      assert ReplyStream(rs) + tail == tail;
    } else {
      var r, more := rs[0], ReplyStream(rs[1..]) + tail;
      assert ReplyStream(rs) + tail == ReplyFrame(r) + more;
      assert Kinds(rs)[1..] == Kinds(rs[1..]) && Kinds(rs)[0] == r.kind;
      ReplyReadIff(r, more, ds[0]);
      if InFull(r, ds[0]) {
        RepliesReadIff(rs[1..], tail, ds[1..]);
        FullFromFirst(rs, ds);
        hide AllInFull, AllDeliverable;
        var rest := ReadReplies(Kinds(rs)[1..], more, ds[1..]).0;
        assert ReadReplies(Kinds(rs), ReplyStream(rs) + tail, ds).0 == [Some(AnswerOf(r))] + rest;
        hide ReadReplies;
        SomesOfFirst(rs, rest);
      } else {
        assert ReadReplies(Kinds(rs), ReplyStream(rs) + tail, ds).0[0] != Some(AnswerOf(r));
        assert Somes(Answers(rs))[0] == Some(AnswerOf(r));
      }
    }
  }

  lemma SomesOfFirst(rs: seq<Reply>, rest: seq<Option<Answer>>)
    requires rs != []
    ensures [Some(AnswerOf(rs[0]))] + rest == Somes(Answers(rs)) <==> rest == Somes(Answers(rs[1..]))
  {
    hide AnswerOf;
    AnswersCons(rs);
    assert Somes(Answers(rs)) == [Some(AnswerOf(rs[0]))] + Somes(Answers(rs[1..]));
    assert ([Some(AnswerOf(rs[0]))] + rest)[1..] == rest;
  }

  lemma FullFromFirst(rs: seq<Reply>, ds: seq<Delivery>)
    requires rs != [] && |ds| == |rs| && InFull(rs[0], ds[0])
    ensures AllInFull(rs, ds) <==> AllInFull(rs[1..], ds[1..])
  {
    if AllInFull(rs[1..], ds[1..]) {
      forall i | 0 <= i < |rs|
        ensures InFull(rs[i], ds[i])
      {
        assert i > 0 ==> rs[1..][i - 1] == rs[i] && ds[1..][i - 1] == ds[i];
      }
    }
  }

  /** A first recv that delivers one byte, as it may: the client reports no reply, and takes the rest of
      the header for the start of the next one. */
  lemma ShortHeader(r: Reply, tail: seq<byte>)
    ensures var s := ReplyFrame(r) + tail;
            && Deliverable(r.kind, s, Delivery(1, 0))
            && ReadReply(r.kind, s, Delivery(1, 0)) == (None, s[1..])
  {
  }

  class BlockDeviceClient {
    var writtenOffsets: seq<nat>

    constructor ()
      ensures writtenOffsets == []
    {
      writtenOffsets := [];
    }

    /** Known offsets are kept ascending, without repeats. */
    ghost predicate Valid()
      reads this
    {
      forall i, j | 0 <= i < j < |writtenOffsets| :: writtenOffsets[i] < writtenOffsets[j]
    }

    /** One recv for the header and one for the payload, either of which may come short. `got` is
        what the second delivered. */
    method DiscoverOffsets(sock: Socket, handle: nat) returns (got: seq<byte>, ghost header: nat)
      requires Valid() && handle < U64
      modifies this, sock
      ensures Valid() && writtenOffsets == Merged(old(writtenOffsets), DecodeOffsets(got))
      ensures var request := RequestFrame(Request(LIST_OFFSETS, handle, 0, 0, []));
              sock.outgoing == old(sock.outgoing) + request[..Min(|request|, old(sock.room))]
      ensures old(sock.room) < REQUEST_HEADER ==> got == [] && sock.incoming == old(sock.incoming)
      ensures old(sock.room) >= REQUEST_HEADER ==>
                var s := old(sock.incoming);
                && CanDeliver(s, REPLY_HEADER, header)
                && if header == REPLY_HEADER && FromBigEndian(s[..4]) == 0 && FromBigEndian(s[12..16]) > 0 then
                     && CanDeliver(s[header..], FromBigEndian(s[12..16]), |got|)
                     && got == s[header..][..|got|] && sock.incoming == s[header..][|got|..]
                   else got == [] && sock.incoming == s[header..]
    {
      hide BigEndian, FromBigEndian, DecodeOffsets, Merged, Ascending;
      got := [];
      AscendingUnique(writtenOffsets, Merged(writtenOffsets, []));
      NothingDecoded();
      header := 0;
      var request := RequestHeader(LIST_OFFSETS, handle, 0, 0);
      assert request == RequestFrame(Request(LIST_OFFSETS, handle, 0, 0, []));
      var sent := WriteAll(sock, request);
      if !sent {
        return;
      }
      ghost var s := sock.incoming;
      var n, reply := sock.Read(REPLY_HEADER);
      header := |reply|;
      if |reply| != REPLY_HEADER {
        return;
      }
      var error, length := FromBigEndian(reply[..4]), FromBigEndian(reply[12..16]);
      assert reply[..4] == s[..4] && reply[12..16] == s[12..16];
      if error == 0 && length > 0 {
        n, got := sock.Read(length);
        AddOffsets(got);
      }
    }

    /** One recv of 16 bytes; a shorter one is given up on. */
    method RecvReply(sock: Socket) returns (h: Option<Header>, ghost d: nat)
      modifies sock`incoming
      ensures CanDeliver(old(sock.incoming), REPLY_HEADER, d) && sock.incoming == old(sock.incoming)[d..]
      ensures h == if d < REPLY_HEADER then None else Some(HeaderOf(old(sock.incoming)[..REPLY_HEADER]))
    {
      var n, b := sock.Read(REPLY_HEADER);
      d := |b|;
      h := if |b| < REPLY_HEADER then None else Some(HeaderOf(b));
    }

    /** One recv, unless nothing is expected. */
    method RecvPayload(sock: Socket, length: nat) returns (payload: seq<byte>)
      modifies sock`incoming
      ensures CanDeliver(old(sock.incoming), length, |payload|)
      ensures payload == old(sock.incoming)[..|payload|] && sock.incoming == old(sock.incoming)[|payload|..]
    {
      if length == 0 {
        return [];
      }
      var n;
      n, payload := sock.Read(length);
    }

    /** A header, and after a successful READ or LIST_OFFSETS its payload. */
    method ReceiveReply(sock: Socket, kind: nat) returns (answer: Option<Answer>, ghost d: Delivery)
      modifies sock`incoming
      ensures Deliverable(kind, old(sock.incoming), d)
      ensures (answer, sock.incoming) == ReadReply(kind, old(sock.incoming), d)
    {
      hide FromBigEndian;
      ghost var s := sock.incoming;
      var h, header := RecvReply(sock);
      d := Delivery(header, 0);
      if h.None? {
        return None, d;
      }
      var payload := RecvPayload(sock, Expected(kind, h.value));
      d := Delivery(header, |payload|);
      answer := Some(Answer(h.value.error == 0, h.value.handle, h.value.length, payload));
    }

    /** The replies to requests of the given types, one after another. */
    method ReceiveReplies(sock: Socket, kinds: seq<nat>) returns (answers: seq<Option<Answer>>, ghost ds: seq<Delivery>)
      modifies sock`incoming
      ensures AllDeliverable(kinds, old(sock.incoming), ds)
      ensures (answers, sock.incoming) == ReadReplies(kinds, old(sock.incoming), ds)
      decreases |kinds|
    {
      hide Deliverable, ReadReply;
      if kinds == [] {
        return [], [];
      }
      var answer, d := ReceiveReply(sock, kinds[0]);
      var more, later := ReceiveReplies(sock, kinds[1..]);
      answers, ds := [answer] + more, [d] + later;
      assert ds[1..] == later;
    }

    /** The loop over the pairs, then the sort. */
    method AddOffsets(data: seq<byte>)
      requires Valid()
      modifies this
      ensures Valid() && writtenOffsets == Merged(old(writtenOffsets), DecodeOffsets(data))
    {
      var i := 0;
      ghost var before := old(writtenOffsets);
      assert data[0..] == data;
      while i < |data|
        invariant i <= |data| + 15
        invariant forall x :: x in writtenOffsets || (i <= |data| && x in DecodeOffsets(data[i..])) <==>
                              x in before || x in DecodeOffsets(data)
      {
        if i + 16 <= |data| {
          var offset := FromBigEndian(data[i..i + 8]);
          assert data[i..][..8] == data[i..i + 8] && data[i..][16..] == data[i + 16..];
          if offset !in writtenOffsets {
            writtenOffsets := writtenOffsets + [offset];
          }
        }
        i := i + 16;
      }
      var sorted := Ascending(set x | x in writtenOffsets);
      AscendingUnique(sorted, Merged(before, DecodeOffsets(data)));
      writtenOffsets := sorted;
    }
  }
}
