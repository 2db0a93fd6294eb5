// The TCP frames on byte sequences: the request frame the client writes and ReceiveRequest reads,
// and the reply frame SendReply writes.
module Framing {
  import opened Bytes
  import opened Wire
  import opened Requests

  datatype Parsed<+T> = Parsed(value: T, rest: seq<byte>) | Truncated

  // ---- Requests ----

  /** A request as ReceiveRequest hands it on: buffer is the payload of a WRITE, else zeros. */
  datatype Request = Request(kind: nat, handle: nat, offset: nat, len: nat, buffer: seq<byte>)

  const REQUEST_HEADER := 24

  function RequestHeader(kind: nat, handle: nat, offset: nat, len: nat): (s: seq<byte>)
    ensures |s| == REQUEST_HEADER
  {
    BigEndian(kind, 4) + BigEndian(handle, 8) + BigEndian(offset, 8) + BigEndian(len, 4)
  }

  /** The fields fit their widths, and the buffer is what the kind calls for. */
  ghost predicate Sendable(r: Request) {
    && r.kind < U32 && r.handle < U64 && r.offset < U64 && r.len < U32
    && if r.kind == WRITE then |r.buffer| == r.len else r.buffer == Zeros(r.len)
  }

  /** What the client's send_request puts on the socket. */
  function RequestFrame(r: Request): seq<byte> {
    RequestHeader(r.kind, r.handle, r.offset, r.len) + if r.kind == WRITE then r.buffer else []
  }

  function ParseRequest(s: seq<byte>): Parsed<Request> {
    if |s| < REQUEST_HEADER then Truncated
    else
      var kind, handle := FromBigEndian(s[..4]), FromBigEndian(s[4..12]);
      var offset, len := FromBigEndian(s[12..20]), FromBigEndian(s[20..24]);
      var rest := s[REQUEST_HEADER..];
      if kind != WRITE then Parsed(Request(kind, handle, offset, len, Zeros(len)), rest)
      else if |rest| < len then Truncated
      else Parsed(Request(kind, handle, offset, len, rest[..len]), rest[len..])
  }

  lemma HeaderFields(r: Request, tail: seq<byte>)
    requires Sendable(r)
    ensures var s := RequestHeader(r.kind, r.handle, r.offset, r.len) + tail;
            && FromBigEndian(s[..4]) == r.kind && FromBigEndian(s[4..12]) == r.handle
            && FromBigEndian(s[12..20]) == r.offset && FromBigEndian(s[20..24]) == r.len
            && s[REQUEST_HEADER..] == tail
  {
    var s := RequestHeader(r.kind, r.handle, r.offset, r.len) + tail;
    Widths();
    BigEndianRoundTrip(r.kind, 4);
    BigEndianRoundTrip(r.handle, 8);
    BigEndianRoundTrip(r.offset, 8);
    BigEndianRoundTrip(r.len, 4);
    hide BigEndian, FromBigEndian;
    var a, b, c, d := BigEndian(r.kind, 4), BigEndian(r.handle, 8), BigEndian(r.offset, 8), BigEndian(r.len, 4);
    Parts(a, b, c + d + tail);
    Parts(a + b, c, d + tail);
    Parts(a + b + c, d, tail);
    assert s == a + b + (c + d + tail) && s == (a + b) + c + (d + tail) && s == (a + b + c) + d + tail;
  }

  /** A request on the wire, byte by byte: type, handle, offset and length, each with its most
      significant byte first, then the payload of a WRITE. */
  lemma RequestBytes(r: Request)
    ensures var f := RequestFrame(r);
            && |f| >= 24
            && MostSignificantFirst(f[..4], r.kind) && MostSignificantFirst(f[4..12], r.handle)
            && MostSignificantFirst(f[12..20], r.offset) && MostSignificantFirst(f[20..24], r.len)
            && f[24..] == if r.kind == 1 then r.buffer else []
  {
    hide BigEndian, MostSignificantFirst;
    BigEndianDigits(r.kind, 4);
    BigEndianDigits(r.handle, 8);
    BigEndianDigits(r.offset, 8);
    BigEndianDigits(r.len, 4);
    FourFields(BigEndian(r.kind, 4), BigEndian(r.handle, 8), BigEndian(r.offset, 8), BigEndian(r.len, 4),
               if r.kind == WRITE then r.buffer else []);
  }

  lemma FourFields(a: seq<byte>, b: seq<byte>, c: seq<byte>, d: seq<byte>, tail: seq<byte>)
    requires |a| == 4 && |b| == 8 && |c| == 8 && |d| == 4
    ensures var s := a + b + c + d + tail;
            s[..4] == a && s[4..12] == b && s[12..20] == c && s[20..24] == d && s[24..] == tail
  {
  }

  /** One frame is read back exactly, and nothing after it is touched. */
  lemma RequestRoundTrip(r: Request, tail: seq<byte>)
    requires Sendable(r)
    ensures ParseRequest(RequestFrame(r) + tail) == Parsed(r, tail)
  {
    var payload := if r.kind == WRITE then r.buffer else [];
    HeaderFields(r, payload + tail);
    assert RequestFrame(r) + tail == RequestHeader(r.kind, r.handle, r.offset, r.len) + (payload + tail);
    assert (payload + tail)[..|payload|] == payload && (payload + tail)[|payload|..] == tail;
  }

  /** A frame cut anywhere is not a request. */
  lemma CutRequestIsTruncated(r: Request, n: nat)
    requires Sendable(r) && n < |RequestFrame(r)|
    ensures ParseRequest(RequestFrame(r)[..n]) == Truncated
  {
    if n >= REQUEST_HEADER {
      var cut := r.buffer[..n - REQUEST_HEADER];
      HeaderFields(r, cut);
      assert RequestFrame(r)[..n] == RequestHeader(r.kind, r.handle, r.offset, r.len) + cut;
    }
  }

  function RequestStream(rs: seq<Request>): seq<byte> {
    if rs == [] then [] else RequestFrame(rs[0]) + RequestStream(rs[1..])
  }

  /** n requests read one after another. */
  function ParseRequests(s: seq<byte>, n: nat): Parsed<seq<Request>> {
    if n == 0 then Parsed([], s)
    else
      match ParseRequest(s)
      case Truncated => Truncated
      case Parsed(r, rest) =>
        match ParseRequests(rest, n - 1)
        case Truncated => Truncated
        case Parsed(rs, end) => Parsed([r] + rs, end)
  }

  /** Any list of requests is recovered from the stream, with neither more nor less consumed. */
  lemma {:induction false} RequestStreamRoundTrip(rs: seq<Request>, tail: seq<byte>)
    requires forall i | 0 <= i < |rs| :: Sendable(rs[i])
    ensures ParseRequests(RequestStream(rs) + tail, |rs|) == Parsed(rs, tail)
  {
    hide ParseRequest, RequestFrame, Sendable;
    if rs == [] {
      assert RequestStream(rs) + tail == tail;
    } else {
      var r, rest := rs[0], rs[1..];
      var more := RequestStream(rest) + tail;
      assert RequestStream(rs) + tail == RequestFrame(r) + more;
      assert rs == [r] + rest;
      RequestRoundTrip(r, more);
      RequestStreamRoundTrip(rest, tail);
      hide RequestStream;
    }
  }

  // ---- Replies ----

  const EIO := 5
  const REPLY_HEADER := 16

  /** A served request, as SendReply sees it. */
  datatype Reply = Reply(kind: nat, ok: bool, handle: nat, len: nat, buffer: seq<byte>) {
    predicate HasPayload() {
      ok && (kind == READ || kind == LIST_OFFSETS)
    }

    /** The value SendReply means to put in the length field: a payload length, or for GET_SIZE a size. */
    function Length(): nat {
      if HasPayload() then |buffer|
      else if ok && kind == GET_SIZE then len
      else 0
    }

    function Payload(): seq<byte> {
      if HasPayload() then buffer else []
    }
  }

  /** reply_len is a uint32_t, so the length is taken modulo 2^32. */
  function ReplyHeader(r: Reply): (s: seq<byte>)
    ensures |s| == REPLY_HEADER
  {
    BigEndian(if r.ok then 0 else EIO, 4) + BigEndian(r.handle, 8) + BigEndian(r.Length() % U32, 4)
  }

  function ReplyFrame(r: Reply): seq<byte> {
    ReplyHeader(r) + r.Payload()
  }

  /** What a client learns from a reply. */
  datatype Answer = Answer(ok: bool, handle: nat, length: nat, payload: seq<byte>)

  function AnswerOf(r: Reply): Answer {
    Answer(r.ok, r.handle, r.Length(), r.Payload())
  }

  /** A reader that knows the type of the request it sent. */
  function ParseReply(kind: nat, s: seq<byte>): Parsed<Answer> {
    if |s| < REPLY_HEADER then Truncated
    else
      var ok := FromBigEndian(s[..4]) == 0;
      var handle, length := FromBigEndian(s[4..12]), FromBigEndian(s[12..16]);
      var n := if ok && (kind == READ || kind == LIST_OFFSETS) then length else 0;
      var rest := s[REPLY_HEADER..];
      if |rest| < n then Truncated
      else Parsed(Answer(ok, handle, length, rest[..n]), rest[n..])
  }

  /** A reply on the wire, byte by byte: 0 or EIO, the handle, and the length of the payload that
      follows or, for GET_SIZE, the size; a failed request has length 0 and no payload. */
  lemma ReplyBytes(r: Reply)
    ensures var f := ReplyFrame(r);
            var carries := r.ok && (r.kind == READ || r.kind == LIST_OFFSETS);
            var length := if carries then |r.buffer| else if r.ok && r.kind == GET_SIZE then r.len else 0;
            && |f| >= 16
            && f[..4] == (if r.ok then [0, 0, 0, 0] else [0, 0, 0, 5])
            && MostSignificantFirst(f[4..12], r.handle) && MostSignificantFirst(f[12..16], length % U32)
            && f[16..] == if carries then r.buffer else []
  {
    hide BigEndian, MostSignificantFirst;
    var length := r.Length() % U32;
    ErrorCodes();
    BigEndianDigits(r.handle, 8);
    BigEndianDigits(length, 4);
    ThreeFields(BigEndian(if r.ok then 0 else EIO, 4), BigEndian(r.handle, 8), BigEndian(length, 4), r.Payload());
  }

  lemma ErrorCodes()
    ensures BigEndian(0, 4) == [0, 0, 0, 0] && BigEndian(5, 4) == [0, 0, 0, 5]
  {
    assert BigEndian(0, 2) == [0, 0];
  }

  lemma ReplyFields(r: Reply, tail: seq<byte>)
    requires r.handle < U64
    ensures var s := ReplyHeader(r) + tail;
            && (FromBigEndian(s[..4]) == 0 <==> r.ok) && FromBigEndian(s[4..12]) == r.handle
            && FromBigEndian(s[12..16]) == r.Length() % U32
            && s[REPLY_HEADER..] == tail
  {
    var error := if r.ok then 0 else EIO;
    Widths();
    BigEndianRoundTrip(error, 4);
    BigEndianRoundTrip(r.handle, 8);
    BigEndianRoundTrip(r.Length() % U32, 4);
    hide BigEndian, FromBigEndian, Reply.Length;
    ThreeFields(BigEndian(error, 4), BigEndian(r.handle, 8), BigEndian(r.Length() % U32, 4), tail);
  }

  lemma ThreeFields(a: seq<byte>, b: seq<byte>, c: seq<byte>, tail: seq<byte>)
    requires |a| == 4 && |b| == 8 && |c| == 4
    ensures var s := a + b + c + tail; s[..4] == a && s[4..12] == b && s[12..16] == c && s[16..] == tail
  {
  }

  /** A reply is read back exactly if and only if its length fits the 32-bit field. */
  lemma ReplyRoundTripIff(r: Reply, tail: seq<byte>)
    requires r.handle < U64
    ensures ParseReply(r.kind, ReplyFrame(r) + tail) == Parsed(AnswerOf(r), tail) <==> r.Length() < U32
  {
    hide FromBigEndian, ReplyHeader;
    var payload := r.Payload();
    ReplyFields(r, payload + tail);
    assert ReplyFrame(r) + tail == ReplyHeader(r) + (payload + tail);
    Parts(payload, tail, []);
    assert payload + tail + [] == payload + tail;
  }

  function ReplyStream(rs: seq<Reply>): seq<byte> {
    if rs == [] then [] else ReplyFrame(rs[0]) + ReplyStream(rs[1..])
  }

  function ParseReplies(kinds: seq<nat>, s: seq<byte>): Parsed<seq<Answer>> {
    if kinds == [] then Parsed([], s)
    else
      match ParseReply(kinds[0], s)
      case Truncated => Truncated
      case Parsed(a, rest) =>
        match ParseReplies(kinds[1..], rest)
        case Truncated => Truncated
        case Parsed(more, end) => Parsed([a] + more, end)
  }

  /** The reply stream is unambiguous to a reader that knows what it asked. */
  lemma {:induction false} ReplyStreamRoundTrip(rs: seq<Reply>, tail: seq<byte>)
    requires forall i | 0 <= i < |rs| :: rs[i].handle < U64 && rs[i].Length() < U32
    ensures ParseReplies(Kinds(rs), ReplyStream(rs) + tail) == Parsed(Answers(rs), tail)
  {
    if rs == [] {
      assert ReplyStream(rs) + tail == tail;
    } else {
      hide ReplyFrame, ParseReply, AnswerOf;
      var more := ReplyStream(rs[1..]) + tail;
      assert ReplyStream(rs) + tail == ReplyFrame(rs[0]) + more;
      ReplyRoundTripIff(rs[0], more);
      ReplyStreamRoundTrip(rs[1..], tail);
      AnswersCons(rs);
    }
  }

  lemma AnswersCons(rs: seq<Reply>)
    requires rs != []
    ensures Kinds(rs) == [rs[0].kind] + Kinds(rs[1..]) && Answers(rs) == [AnswerOf(rs[0])] + Answers(rs[1..])
  {
  }

  function Kinds(rs: seq<Reply>): (r: seq<nat>)
    ensures |r| == |rs| && forall i | 0 <= i < |r| :: r[i] == rs[i].kind
  {
    seq(|rs|, i requires 0 <= i < |rs| => rs[i].kind)
  }

  function Answers(rs: seq<Reply>): (r: seq<Answer>)
    ensures |r| == |rs| && forall i | 0 <= i < |r| :: r[i] == AnswerOf(rs[i])
  {
    seq(|rs|, i requires 0 <= i < |rs| => AnswerOf(rs[i]))
  }
}
