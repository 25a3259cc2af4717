/**
 * What one GATT write or read does to a HAP-BLE transaction: the reference that the class in
 * `BleTransaction` is proved against. The request and response halves share storage, so the state
 * decides which of the two slots is live.
 */
module TransactionModel {
  import opened Bytes
  import opened RawBuffer
  import opened Pdu

  datatype State =
    | WaitingForInitialWrite
    | ReadingRequest
    | HandlingRequest
    | WaitingForInitialRead
    | WritingResponse

  datatype Slot =
    | RequestSlot(opcode: byte, tid: byte, iid: u16,
                  hasBuffer: bool, maxBodyBytes: nat, totalBodyBytes: u16, bodyOffset: nat)
    | ResponseSlot(tid: byte, status: byte, hasBody: bool, totalBodyBytes: u16, bodyOffset: nat)

  datatype Tx = Tx(state: State, slot: Slot)

  /**
   * How an operation ends. `Aborted` means that an assertion of the library fails, or that the texts of a write are
   * moved beyond their buffer or over each other; what the library does after that is not modelled.
   */
  datatype Status = Done | Failed(error: Error) | Aborted

  predicate Valid(t: Tx) {
    && (t.slot.RequestSlot? <==> t.state in {WaitingForInitialWrite, ReadingRequest, HandlingRequest})
    && t.slot.bodyOffset <= t.slot.totalBodyBytes
    && (t.slot.RequestSlot? && !t.slot.hasBuffer ==> t.slot.maxBodyBytes == 0)
    && (t.slot.ResponseSlot? && !t.slot.hasBody ==> t.slot.totalBodyBytes == 0)
    && (t.state in {WaitingForInitialWrite, WaitingForInitialRead} ==> t.slot.bodyOffset == 0)
  }

  function Created(hasBuffer: bool, maxBodyBytes: nat): Tx {
    Tx(WaitingForInitialWrite, RequestSlot(0, 0, 0, hasBuffer, maxBodyBytes, 0, 0))
  }

  // Writes.

  /** `fragment` is the part of the request body that the write carried. */
  datatype WriteResult = WriteResult(status: Status, tx: Tx, fragment: seq<byte>)

  predicate BodyFits(t: Tx)
    requires t.slot.RequestSlot?
  {
    t.slot.totalBodyBytes <= t.slot.maxBodyBytes
  }

  function AtOffset(slot: Slot, offset: nat): Slot {
    match slot
    case RequestSlot(opcode, tid, iid, hasBuffer, maxBodyBytes, totalBodyBytes, _) =>
      RequestSlot(opcode, tid, iid, hasBuffer, maxBodyBytes, totalBodyBytes, offset)
    case ResponseSlot(tid, status, hasBody, totalBodyBytes, _) =>
      ResponseSlot(tid, status, hasBody, totalBodyBytes, offset)
  }

  /** A fragment that is present goes to the buffer, unless the body as a whole is too large for it. */
  function Append(t: Tx, present: bool, fragment: seq<byte>): WriteResult
    requires t.slot.RequestSlot?
  {
    if BodyFits(t) && present && !t.slot.hasBuffer then WriteResult(Aborted, t, [])
    else
      WriteResult(Done, t.(slot := AtOffset(t.slot, t.slot.bodyOffset + |fragment|)), fragment)
  }

  /**
   * The transaction identifier that late continuations are compared with. While a request is being
   * handled the response slot is not set yet and its first byte is still the request's opcode.
   */
  function LateTid(t: Tx): byte {
    if t.slot.RequestSlot? then t.slot.opcode else t.slot.tid
  }

  function Write(t: Tx, bytes: seq<byte>): WriteResult
    requires Valid(t)
  {
    match t.state
    case WaitingForInitialWrite =>
      var reading := t.(state := ReadingRequest);
      (match DecodeFirst(bytes)
       case Ok(FirstRequest(opcode, tid, iid, body)) =>
         var total := if body.Body? then body.total else 0;
         var slot := t.slot.(opcode := opcode, tid := tid, iid := iid, totalBodyBytes := total, bodyOffset := 0);
         Append(reading.(slot := slot), body.Body?, if body.Body? then body.fragment else [])
       case _ => WriteResult(Failed(InvalidData), reading, []))
    case ReadingRequest =>
      (match DecodeContinuation(bytes, Request, t.slot.totalBodyBytes, t.slot.bodyOffset)
       case Ok(pdu) =>
         if pdu.tid != t.slot.tid then WriteResult(Failed(InvalidData), t, [])
         else Append(t, pdu.fragment != [], pdu.fragment)
       case Err(_) => WriteResult(Failed(InvalidData), t, []))
    case WritingResponse => WriteResult(Failed(InvalidState), t, [])
    case _ =>
      // The request is complete, but writes with empty fragments may still follow.
      match DecodeContinuation(bytes, Request, 0, 0)
      case Ok(pdu) => WriteResult(if pdu.tid == LateTid(t) then Done else Failed(InvalidData), t, [])
      case Err(_) => WriteResult(Failed(InvalidData), t, [])
  }

  /** The transaction buffer after a write that led to `r`. */
  function Stored(mem: seq<byte>, r: WriteResult): seq<byte> {
    if r.tx.slot.RequestSlot? && BodyFits(r.tx) && |r.fragment| <= r.tx.slot.bodyOffset <= |mem|
    then Overwritten(mem, r.tx.slot.bodyOffset - |r.fragment|, r.fragment)
    else mem
  }

  lemma WriteKeepsValid(t: Tx, bytes: seq<byte>)
    requires Valid(t)
    ensures var r := Write(t, bytes);
            && Valid(r.tx)
            && r.tx.slot.RequestSlot? == t.slot.RequestSlot?
            && (t.slot.ResponseSlot? ==> r.tx == t && r.fragment == [])
            && (r.fragment != [] ==> r.tx.state == ReadingRequest && |r.fragment| <= r.tx.slot.bodyOffset)
            && (t.slot.RequestSlot? ==>
                  && r.tx.slot.hasBuffer == t.slot.hasBuffer
                  && r.tx.slot.maxBodyBytes == t.slot.maxBodyBytes)
  {
    if t.state == WaitingForInitialWrite && DecodeFirst(bytes).Ok? {
      EncodeDecodedFirst(bytes);
    }
  }

  /** A write runs into the library's assertion exactly in this case. */
  lemma WriteAbortsIff(t: Tx, bytes: seq<byte>)
    requires Valid(t)
    ensures Write(t, bytes).status == Aborted <==>
              && t.state == WaitingForInitialWrite && !t.slot.hasBuffer
              && exists opcode, tid, iid :: bytes == Encode(FirstRequest(opcode, tid, iid, Body(0, [])))
  {
    if t.state == WaitingForInitialWrite && DecodeFirst(bytes).Ok? {
      EncodeDecodedFirst(bytes);
    }
    if exists opcode, tid, iid :: bytes == Encode(FirstRequest(opcode, tid, iid, Body(0, []))) {
      var opcode, tid, iid :| bytes == Encode(FirstRequest(opcode, tid, iid, Body(0, [])));
      DecodeEncodedFirst(FirstRequest(opcode, tid, iid, Body(0, [])));
    }
  }

  /** A first fragment of a request. Its body, if it is not declared to be empty, needs no buffer to be discarded. */
  ghost predicate IsFirstFragment(bytes: seq<byte>, hasBuffer: bool) {
    exists opcode, tid, iid, body ::
      && bytes == Encode(FirstRequest(opcode, tid, iid, body)) && WellFormed(FirstRequest(opcode, tid, iid, body))
      && (body.NoBody? || hasBuffer || body.total > 0)
  }

  ghost predicate IsNextFragment(bytes: seq<byte>, tid: byte, missing: nat, mayCarry: bool) {
    exists fragment ::
      bytes == Encode(Continuation(Request, tid, fragment)) && |fragment| <= missing && (mayCarry || fragment == [])
  }

  /** Which packets are accepted; late ones may only be empty continuations. */
  ghost predicate Expects(t: Tx, bytes: seq<byte>)
    requires Valid(t)
  {
    match t.state
    case WaitingForInitialWrite => IsFirstFragment(bytes, t.slot.hasBuffer)
    case ReadingRequest =>
      IsNextFragment(bytes, t.slot.tid, t.slot.totalBodyBytes - t.slot.bodyOffset,
                     t.slot.hasBuffer || t.slot.totalBodyBytes > t.slot.maxBodyBytes)
    case HandlingRequest => bytes == Encode(Continuation(Request, t.slot.opcode, []))
    case WaitingForInitialRead => bytes == Encode(Continuation(Request, t.slot.tid, []))
    case WritingResponse => false
  }

  /** A write succeeds exactly for the packets that are expected; after the first read of a response none is. */
  lemma WriteSucceedsIff(t: Tx, bytes: seq<byte>)
    requires Valid(t)
    ensures Write(t, bytes).status == Done <==> Expects(t, bytes)
    ensures Write(t, bytes).status == Failed(InvalidState) <==> t.state == WritingResponse
    ensures Write(t, bytes).status in {Done, Aborted, Failed(InvalidState), Failed(InvalidData)}
  {
    match t.state
    case WaitingForInitialWrite => FirstWriteSucceedsIff(t, bytes);
    case ReadingRequest => NextWriteSucceedsIff(t, bytes);
    case WritingResponse =>
    case _ => LateWriteSucceedsIff(t, bytes);
  }

  lemma FirstWriteSucceedsIff(t: Tx, bytes: seq<byte>)
    requires Valid(t) && t.state == WaitingForInitialWrite
    ensures Write(t, bytes).status == Done <==> Expects(t, bytes)
    ensures Write(t, bytes).status in {Done, Aborted, Failed(InvalidData)}
  {
    hide DecodeFirst, Encode;
    if DecodeFirst(bytes).Ok? {
      EncodeDecodedFirst(bytes);
    }
    if Expects(t, bytes) {
      var opcode, tid, iid, body :|
        bytes == Encode(FirstRequest(opcode, tid, iid, body)) && WellFormed(FirstRequest(opcode, tid, iid, body))
        && (body.NoBody? || t.slot.hasBuffer || body.total > 0);
      DecodeEncodedFirst(FirstRequest(opcode, tid, iid, body));
    }
  }

  lemma NextWriteSucceedsIff(t: Tx, bytes: seq<byte>)
    requires Valid(t) && t.state == ReadingRequest
    ensures Write(t, bytes).status == Done <==> Expects(t, bytes)
    ensures Write(t, bytes).status in {Done, Aborted, Failed(InvalidData)}
  {
    hide DecodeContinuation, Encode;
    var total, offset := t.slot.totalBodyBytes, t.slot.bodyOffset;
    if DecodeContinuation(bytes, Request, total, offset).Ok? {
      EncodeDecodedContinuation(bytes, Request, total, offset);
    }
    if Expects(t, bytes) {
      var fragment :| bytes == Encode(Continuation(Request, t.slot.tid, fragment)) && |fragment| <= total - offset
                      && (t.slot.hasBuffer || total > t.slot.maxBodyBytes || fragment == []);
      DecodeEncodedContinuation(Continuation(Request, t.slot.tid, fragment), total, offset);
    }
  }

  lemma LateWriteSucceedsIff(t: Tx, bytes: seq<byte>)
    requires Valid(t) && (t.state == HandlingRequest || t.state == WaitingForInitialRead)
    ensures Write(t, bytes).status == Done <==> Expects(t, bytes)
    ensures Write(t, bytes).status in {Done, Failed(InvalidData)}
  {
    hide DecodeContinuation, Encode;
    if DecodeContinuation(bytes, Request, 0, 0).Ok? {
      EncodeDecodedContinuation(bytes, Request, 0, 0);
    }
    if Expects(t, bytes) {
      DecodeEncodedContinuation(Continuation(Request, if t.slot.RequestSlot? then t.slot.opcode else t.slot.tid, []),
                                0, 0);
    }
  }

  predicate IsRequestAvailable(t: Tx)
    requires Valid(t)
  {
    t.state == ReadingRequest && t.slot.bodyOffset == t.slot.totalBodyBytes
  }

  // Handing over the request and setting the response.

  /** Taking the request fails, without a way back, when its body was too large for the buffer. */
  function GetRequest(t: Tx): (Status, Tx)
    requires Valid(t) && IsRequestAvailable(t)
  {
    (if BodyFits(t) then Done else Failed(OutOfResources), t.(state := HandlingRequest))
  }

  function SetResponse(t: Tx, status: byte, body: Option<u16>): Tx
    requires Valid(t) && t.state == HandlingRequest
  {
    Tx(WaitingForInitialRead,
       ResponseSlot(t.slot.tid, status, body.Some?, if body.Some? then body.value else 0, 0))
  }

  // Reads.

  datatype ReadResult = ReadResult(status: Status, tx: Tx, packet: seq<byte>, isFinalFragment: bool)

  function Min(a: nat, b: nat): nat {
    if a < b then a else b
  }

  function Respond(t: Tx, pdu: Pdu, numFragmentBytes: nat, maxBytes: nat): ReadResult
    requires t.slot.ResponseSlot?
  {
    if |Encode(pdu)| > maxBytes then ReadResult(Failed(OutOfResources), t, [], false)
    else
      var offset := t.slot.bodyOffset + numFragmentBytes;
      ReadResult(Done, t.(slot := AtOffset(t.slot, offset)), Encode(pdu), offset == t.slot.totalBodyBytes)
  }

  /** The response body is at the start of `mem`. */
  function Read(t: Tx, mem: seq<byte>, maxBytes: nat): ReadResult
    requires Valid(t)
    requires t.slot.ResponseSlot? ==> t.slot.totalBodyBytes <= |mem|
  {
    match t.state
    case WaitingForInitialRead =>
      var writing := t.(state := WritingResponse);
      var numHeaderBytes := RESPONSE_HEADER_BYTES + if t.slot.totalBodyBytes != 0 then BODY_HEADER_BYTES else 0;
      if maxBytes < numHeaderBytes then ReadResult(Failed(OutOfResources), writing, [], false) else
      var n := Min(t.slot.totalBodyBytes, maxBytes - numHeaderBytes);
      var body := if t.slot.hasBody then Body(t.slot.totalBodyBytes, mem[..n]) else NoBody;
      Respond(writing, FirstResponse(t.slot.tid, t.slot.status, body), n, maxBytes)
    case WritingResponse =>
      if maxBytes < CONTINUATION_HEADER_BYTES then ReadResult(Failed(OutOfResources), t, [], false)
      else if !t.slot.hasBody then ReadResult(Aborted, t, [], false) else
      var n := Min(t.slot.totalBodyBytes - t.slot.bodyOffset, maxBytes - CONTINUATION_HEADER_BYTES);
      Respond(t, Continuation(Response, t.slot.tid, mem[t.slot.bodyOffset..t.slot.bodyOffset + n]), n, maxBytes)
    case _ => ReadResult(Failed(InvalidState), t, [], false)
  }

  lemma ReadKeepsValid(t: Tx, mem: seq<byte>, maxBytes: nat)
    requires Valid(t)
    requires t.slot.ResponseSlot? ==> t.slot.totalBodyBytes <= |mem|
    ensures var r := Read(t, mem, maxBytes);
            && Valid(r.tx)
            && (t.slot.ResponseSlot? ==>
                  && r.tx.state == WritingResponse
                  && r.tx.slot == AtOffset(t.slot, r.tx.slot.bodyOffset))
            && (t.slot.RequestSlot? ==> r.tx == t)
            && (r.status == Done ==> t.slot.ResponseSlot? && |r.packet| <= maxBytes)
  {
  }
}
