// DriverData: one request on its way from the driver through the storage and back.
module Requests {
  import opened Bytes

  // The wire values of DriverData::ActionType.
  const READ := 0
  const WRITE := 1
  const DISCONNECT := 2
  const FLUSH := 3
  const TRIM := 4
  const GET_SIZE := 5
  const LIST_OFFSETS := 6

  /** InputMediator has a handler for the type. */
  predicate Handled(kind: nat) {
    kind in {READ, WRITE, DISCONNECT, FLUSH, TRIM, GET_SIZE, LIST_OFFSETS}
  }

  /** Its handler sends a reply. */
  predicate GetsReply(kind: nat) {
    Handled(kind) && kind != DISCONNECT
  }

  /** By the numbers on the wire: 0 to 6 have handlers, and all of those but DISCONNECT, 2, reply. */
  lemma AnsweredTypes(kind: nat)
    ensures Handled(kind) <==> kind <= 6
    ensures GetsReply(kind) <==> kind in {0, 1, 3, 4, 5, 6}
  {
  }

  class DriverData {
    /** Cast from the 32-bit type field of the request, so any value is possible. */
    const kind: nat
    const handle: nat
    const offset: nat
    var len: nat
    /** m_status == SUCCESS. */
    var ok: bool
    var buffer: seq<byte>
    const sourceFd: int

    constructor (kind: nat, handle: nat, offset: nat, len: nat, sourceFd: int)
      ensures this.kind == kind && this.handle == handle && this.offset == offset
      ensures this.len == len && this.ok && this.buffer == Zeros(len) && this.sourceFd == sourceFd
    {
      this.kind, this.handle, this.offset := kind, handle, offset;
      this.len, this.ok, this.buffer, this.sourceFd := len, true, Zeros(len), sourceFd;
    }
  }
}
