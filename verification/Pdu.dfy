/**
 * HAP-BLE PDUs (section 7.3.3 of HAP Specification R14): the wire format, the parsers for first
 * fragments and continuations, and the serializer that fills a caller's buffer.
 */
module Pdu {
  import opened Bytes
  import opened RawBuffer

  datatype PduType = Request | Response

  /** The optional body of a first fragment. A zero-length body differs from an absent one. */
  datatype Body = NoBody | Body(total: u16, fragment: seq<byte>)

  datatype Pdu =
    | FirstRequest(opcode: byte, tid: byte, iid: u16, body: Body)
    | FirstResponse(tid: byte, status: byte, body: Body)
    | Continuation(pduType: PduType, tid: byte, fragment: seq<byte>)

  const REQUEST_HEADER_BYTES: nat := 5
  const RESPONSE_HEADER_BYTES: nat := 3
  const CONTINUATION_HEADER_BYTES: nat := 2
  const BODY_HEADER_BYTES: nat := 2

  // The wire format.

  predicate WellFormed(pdu: Pdu) {
    match pdu
    case FirstRequest(_, _, _, body) => WellFormedBody(body)
    case FirstResponse(_, _, body) => WellFormedBody(body)
    case Continuation(_, _, _) => true
  }

  /** A fragment is never longer than the body it belongs to. */
  predicate WellFormedBody(body: Body) {
    body.Body? ==> |body.fragment| <= body.total
  }

  /** Bit 7 marks a continuation and bits 3 to 1 hold the PDU type; all other bits are 0. */
  function ControlField(continuation: bool, pduType: PduType): byte {
    (if continuation then 0x80 else 0) + (if pduType == Response then 2 else 0)
  }

  function EncodeBody(body: Body): seq<byte> {
    match body
    case NoBody => []
    case Body(total, fragment) => LittleUInt16(total) + fragment
  }

  function Header(pdu: Pdu): seq<byte> {
    match pdu
    case FirstRequest(opcode, tid, iid, _) => [ControlField(false, Request), opcode, tid] + LittleUInt16(iid)
    case FirstResponse(tid, status, _) => [ControlField(false, Response), tid, status]
    case Continuation(pduType, tid, _) => [ControlField(true, pduType), tid]
  }

  function Payload(pdu: Pdu): seq<byte> {
    if pdu.Continuation? then pdu.fragment else EncodeBody(pdu.body)
  }

  function Encode(pdu: Pdu): seq<byte> {
    Header(pdu) + Payload(pdu)
  }

  // Parsing.

  datatype Control = Control(continuation: bool, pduType: PduType)

  function DecodeControlField(field: byte): Result<Control> {
    if (field / 0x10) % 8 != 0 then Err(InvalidData) // Reserved bits 6 to 4.
    else if (field / 2) % 8 > 1 then Err(InvalidData) // PDU type in bits 3 to 1.
    else if field % 2 != 0 then Err(InvalidData) // Length in bit 0.
    else Ok(Control(field / 0x80 == 1, if (field / 2) % 8 == 0 then Request else Response))
  }

  function DecodeBody(bytes: seq<byte>): Result<Body> {
    if bytes == [] then Ok(NoBody)
    else if |bytes| < 2 then Err(InvalidData)
    else
      var total := ReadLittleUInt16(bytes, 0);
      if total < |bytes| - 2 then Err(InvalidData) else Ok(Body(total, bytes[2..]))
  }

  function DecodeFirst(bytes: seq<byte>): Result<Pdu> {
    if |bytes| < 1 then Err(InvalidData) else
    var control := DecodeControlField(bytes[0]);
    if control.Err? then Err(control.error)
    else if control.value.continuation then Err(InvalidData)
    else if control.value.pduType == Request then
      if |bytes| < REQUEST_HEADER_BYTES then Err(InvalidData) else
      var body := DecodeBody(bytes[REQUEST_HEADER_BYTES..]);
      if body.Err? then Err(body.error)
      else Ok(FirstRequest(bytes[1], bytes[2], ReadLittleUInt16(bytes, 3), body.value))
    else
      if |bytes| < RESPONSE_HEADER_BYTES then Err(InvalidData) else
      var body := DecodeBody(bytes[RESPONSE_HEADER_BYTES..]);
      if body.Err? then Err(body.error)
      else Ok(FirstResponse(bytes[1], bytes[2], body.value))
  }

  /** Parses a continuation when `soFar` of the `total` body bytes have arrived. */
  function DecodeContinuation(bytes: seq<byte>, expected: PduType, total: nat, soFar: nat): Result<Pdu>
    requires soFar <= total <= UINT16_MAX
  {
    if |bytes| < 1 then Err(InvalidData) else
    var control := DecodeControlField(bytes[0]);
    if control.Err? then Err(control.error)
    else if !control.value.continuation then Err(InvalidData)
    else if control.value.pduType != expected then Err(InvalidData)
    else if |bytes| < CONTINUATION_HEADER_BYTES then Err(InvalidData)
    else if |bytes| - CONTINUATION_HEADER_BYTES > total - soFar then Err(InvalidData)
    else Ok(Continuation(expected, bytes[1], bytes[CONTINUATION_HEADER_BYTES..]))
  }

  // The parsers accept exactly the encodings.

  lemma ControlFieldRoundTrip(field: byte)
    ensures forall c: Control ::
              DecodeControlField(field) == Ok(c) <==> field == ControlField(c.continuation, c.pduType)
  {
  }

  lemma DecodeEncodedBody(body: Body)
    requires WellFormedBody(body)
    ensures DecodeBody(EncodeBody(body)) == Ok(body)
  {
    if body.Body? {
      ReadAfterWrite(body.total, [], body.fragment);
      assert [] + LittleUInt16(body.total) + body.fragment == EncodeBody(body);
      assert EncodeBody(body)[2..] == body.fragment;
    }
  }

  lemma EncodeDecodedBody(bytes: seq<byte>)
    requires DecodeBody(bytes).Ok?
    ensures WellFormedBody(DecodeBody(bytes).value)
    ensures EncodeBody(DecodeBody(bytes).value) == bytes
  {
    if bytes != [] {
      WriteAfterRead(bytes, 0);
      assert bytes == bytes[0..2] + bytes[2..];
    }
  }

  /** Every well-formed first fragment parses back to itself, absent and empty bodies included. */
  lemma DecodeEncodedFirst(pdu: Pdu)
    requires WellFormed(pdu) && !pdu.Continuation?
    ensures DecodeFirst(Encode(pdu)) == Ok(pdu)
  {
    var header, payload := Header(pdu), EncodeBody(pdu.body);
    EncodedParts(header, payload);
    ControlFieldRoundTrip(header[0]);
    assert DecodeControlField(header[0]) == Ok(Control(false, if pdu.FirstRequest? then Request else Response));
    DecodeEncodedBody(pdu.body);
    if pdu.FirstRequest? {
      ReadAfterWrite(pdu.iid, header[..3], []);
      assert header == header[..3] + LittleUInt16(pdu.iid) + [];
      assert ReadLittleUInt16(header + payload, 3) == ReadLittleUInt16(header, 3);
    }
  }

  /** The bytes on the wire (Tables 7-3 to 7-6 and Figures of section 7.3.3 of HAP Specification R14). */
  lemma PacketBytes(opcode: byte, tid: byte, iid: u16, status: byte, total: u16, fragment: seq<byte>)
    ensures Encode(FirstRequest(opcode, tid, iid, NoBody)) == [0x00, opcode, tid, iid % 256, iid / 256]
    ensures Encode(FirstRequest(opcode, tid, iid, Body(total, fragment)))
         == [0x00, opcode, tid, iid % 256, iid / 256, total % 256, total / 256] + fragment
    ensures Encode(FirstResponse(tid, status, NoBody)) == [0x02, tid, status]
    ensures Encode(FirstResponse(tid, status, Body(total, fragment)))
         == [0x02, tid, status, total % 256, total / 256] + fragment
    ensures Encode(Continuation(Request, tid, fragment)) == [0x80, tid] + fragment
    ensures Encode(Continuation(Response, tid, fragment)) == [0x82, tid] + fragment
  {
  }

  /** Every packet that is not accepted is invalid data. */
  lemma RejectionsAreInvalidData(bytes: seq<byte>, expected: PduType, total: nat, soFar: nat)
    requires soFar <= total <= UINT16_MAX
    ensures DecodeFirst(bytes).Err? ==> DecodeFirst(bytes).error == InvalidData
    ensures var r := DecodeContinuation(bytes, expected, total, soFar); r.Err? ==> r.error == InvalidData
  {
  }

  lemma EncodedParts(header: seq<byte>, payload: seq<byte>)
    ensures (header + payload)[|header|..] == payload
    ensures forall k :: 0 <= k < |header| ==> (header + payload)[k] == header[k]
  {
  }

  /** Every accepted first fragment is the encoding of what the parser returned. */
  lemma EncodeDecodedFirst(bytes: seq<byte>)
    requires DecodeFirst(bytes).Ok?
    ensures WellFormed(DecodeFirst(bytes).value) && !DecodeFirst(bytes).value.Continuation?
    ensures Encode(DecodeFirst(bytes).value) == bytes
  {
    var pdu := DecodeFirst(bytes).value;
    ControlFieldRoundTrip(bytes[0]);
    EncodeDecodedBody(bytes[|Header(pdu)|..]);
    if pdu.FirstRequest? {
      WriteAfterRead(bytes, 3);
      assert Header(pdu) == bytes[..5];
    } else {
      assert Header(pdu) == bytes[..3];
    }
  }

  /** Every continuation that fits into the missing part of the body parses back to itself. */
  lemma DecodeEncodedContinuation(pdu: Pdu, total: nat, soFar: nat)
    requires pdu.Continuation? && soFar <= total <= UINT16_MAX
    requires |pdu.fragment| <= total - soFar
    ensures DecodeContinuation(Encode(pdu), pdu.pduType, total, soFar) == Ok(pdu)
  {
    var bytes := Encode(pdu);
    ControlFieldRoundTrip(bytes[0]);
    assert DecodeControlField(bytes[0]) == Ok(Control(true, pdu.pduType));
    assert bytes[2..] == pdu.fragment;
  }

  /** Every accepted continuation is the encoding of what the parser returned and fits into the body. */
  lemma EncodeDecodedContinuation(bytes: seq<byte>, expected: PduType, total: nat, soFar: nat)
    requires soFar <= total <= UINT16_MAX
    requires DecodeContinuation(bytes, expected, total, soFar).Ok?
    ensures var pdu := DecodeContinuation(bytes, expected, total, soFar).value;
            pdu.Continuation? && pdu.pduType == expected && |pdu.fragment| <= total - soFar && Encode(pdu) == bytes
  {
    ControlFieldRoundTrip(bytes[0]);
    var pdu := DecodeContinuation(bytes, expected, total, soFar).value;
    assert Header(pdu) == bytes[..2];
  }

  /** The first-fragment parser accepts exactly the encodings and returns what was encoded. */
  lemma FirstFragmentCodec(bytes: seq<byte>, pdu: Pdu)
    ensures DecodeFirst(bytes) == Ok(pdu) <==> WellFormed(pdu) && !pdu.Continuation? && Encode(pdu) == bytes
  {
    if DecodeFirst(bytes) == Ok(pdu) {
      EncodeDecodedFirst(bytes);
    } else if WellFormed(pdu) && !pdu.Continuation? && Encode(pdu) == bytes {
      DecodeEncodedFirst(pdu);
    }
  }

  /** The continuation parser accepts exactly the encodings that fit into the missing part of the body. */
  lemma ContinuationCodec(bytes: seq<byte>, pdu: Pdu, expected: PduType, total: nat, soFar: nat)
    requires soFar <= total <= UINT16_MAX
    ensures DecodeContinuation(bytes, expected, total, soFar) == Ok(pdu)
            <==> pdu.Continuation? && pdu.pduType == expected && soFar + |pdu.fragment| <= total && Encode(pdu) == bytes
  {
    if DecodeContinuation(bytes, expected, total, soFar) == Ok(pdu) {
      EncodeDecodedContinuation(bytes, expected, total, soFar);
    } else if pdu.Continuation? && pdu.pduType == expected && soFar + |pdu.fragment| <= total && Encode(pdu) == bytes {
      DecodeEncodedContinuation(pdu, total, soFar);
    }
  }

  /** The format is unambiguous. */
  lemma EncodeInjective(p: Pdu, q: Pdu)
    requires WellFormed(p) && WellFormed(q)
    requires Encode(p) == Encode(q)
    ensures p == q
  {
    ControlFieldRoundTrip(Encode(p)[0]);
    ControlFieldRoundTrip(Encode(q)[0]);
    if p.Continuation? {
      assert DecodeControlField(Encode(p)[0]) == Ok(Control(true, p.pduType));
      assert q.Continuation?;
      assert p.tid == Encode(p)[1] == q.tid;
      assert Encode(p)[2..] == p.fragment && Encode(q)[2..] == q.fragment;
    } else {
      assert DecodeControlField(Encode(p)[0]).value.continuation == false;
      assert !q.Continuation?;
      DecodeEncodedFirst(p);
      DecodeEncodedFirst(q);
    }
  }

  // The parsers and the serializer as the library runs them.

  method Deserialize(bytes: seq<byte>) returns (r: Result<Pdu>)
    ensures r == DecodeFirst(bytes)
  {
    var b: nat := 0;
    var remainingBytes := |bytes|;

    // PDU header: control field.
    if remainingBytes < 1 {
      return Err(InvalidData);
    }
    var control := DecodeControlField(bytes[b]);
    if control.Err? {
      return Err(control.error);
    }
    if control.value.continuation {
      return Err(InvalidData);
    }
    b, remainingBytes := b + 1, remainingBytes - 1;

    // Fixed parameters.
    var opcode, tid, iid, status: byte := 0, 0, 0, 0;
    match control.value.pduType {
      case Request =>
        if remainingBytes < 4 {
          return Err(InvalidData);
        }
        opcode, tid, iid := bytes[b], bytes[b + 1], ReadLittleUInt16(bytes, b + 2);
        b, remainingBytes := b + 4, remainingBytes - 4;
      case Response =>
        if remainingBytes < 2 {
          return Err(InvalidData);
        }
        tid, status := bytes[b], bytes[b + 1];
        b, remainingBytes := b + 2, remainingBytes - 2;
    }
    ghost var start := b;

    // Optional body.
    var body := NoBody;
    if remainingBytes != 0 {
      if remainingBytes < 2 {
        return Err(InvalidData);
      }
      var totalBodyBytes := ReadLittleUInt16(bytes, b);
      b, remainingBytes := b + 2, remainingBytes - 2;
      // A first fragment, or the complete body.
      var numBytes := if remainingBytes < totalBodyBytes then remainingBytes else totalBodyBytes;
      body := Body(totalBodyBytes, bytes[b..b + numBytes]);
      b, remainingBytes := b + numBytes, remainingBytes - numBytes;
    }
    assert start + 2 <= |bytes| ==> bytes[start..][2..] == bytes[start + 2..];
    assert remainingBytes == 0 && body.Body? ==> body.fragment == bytes[start + 2..];

    // All data read?
    if remainingBytes != 0 {
      return Err(InvalidData);
    }
    if control.value.pduType == Request {
      return Ok(FirstRequest(opcode, tid, iid, body));
    } else {
      return Ok(FirstResponse(tid, status, body));
    }
  }

  method DeserializeContinuation(bytes: seq<byte>, typeOfFirstFragment: PduType,
                                 remainingBodyBytes: nat, totalBodyBytesSoFar: nat)
    returns (r: Result<Pdu>)
    requires totalBodyBytesSoFar <= remainingBodyBytes <= UINT16_MAX
    ensures r == DecodeContinuation(bytes, typeOfFirstFragment, remainingBodyBytes, totalBodyBytesSoFar)
  {
    var b: nat := 0;
    var remainingBytes := |bytes|;

    // PDU header: control field.
    if remainingBytes < 1 {
      return Err(InvalidData);
    }
    var control := DecodeControlField(bytes[b]);
    if control.Err? {
      return Err(control.error);
    }
    if !control.value.continuation {
      return Err(InvalidData);
    }
    if control.value.pduType != typeOfFirstFragment {
      return Err(InvalidData);
    }
    b, remainingBytes := b + 1, remainingBytes - 1;

    // Fixed parameters.
    if remainingBytes < 1 {
      return Err(InvalidData);
    }
    var tid := bytes[b];
    b, remainingBytes := b + 1, remainingBytes - 1;

    // Optional body fragment.
    var fragment := [];
    if remainingBytes != 0 && remainingBytes <= remainingBodyBytes - totalBodyBytesSoFar {
      fragment := bytes[b..b + remainingBytes];
      b, remainingBytes := b + remainingBytes, 0;
    }

    // All data read?
    if remainingBytes != 0 {
      return Err(InvalidData);
    }
    assert fragment == bytes[2..];
    return Ok(Continuation(typeOfFirstFragment, tid, fragment));
  }

  /** Writes `part` behind the first `b` bytes of the buffer. */
  method Put(bytes: array<byte>, b: nat, part: seq<byte>)
    requires b + |part| <= bytes.Length
    modifies bytes
    ensures bytes[..b + |part|] == old(bytes[..b]) + part
    ensures forall k :: b + |part| <= k < bytes.Length ==> bytes[k] == old(bytes[k])
  {
    ghost var was := bytes[..];
    StoreBytes(bytes, b, part);
    ghost var now := bytes[..];
    assert now[..b + |part|] == was[..b] + part;
    assert forall k :: b + |part| <= k < bytes.Length ==> now[k] == was[k];
  }

  /** Fills `bytes`, of which the first `maxBytes` may be used, and returns the length of the PDU. */
  method Serialize(pdu: Pdu, bytes: array<byte>, maxBytes: nat) returns (r: Result<nat>)
    requires WellFormed(pdu)
    requires maxBytes <= bytes.Length
    modifies bytes
    ensures r == if |Encode(pdu)| <= maxBytes then Ok(|Encode(pdu)|) else Err(OutOfResources)
    ensures r.Ok? ==> bytes[..|Encode(pdu)|] == Encode(pdu)
    ensures r.Ok? ==> forall k :: |Encode(pdu)| <= k < bytes.Length ==> bytes[k] == old(bytes[k])
    ensures forall k :: maxBytes <= k < bytes.Length ==> bytes[k] == old(bytes[k])
  {
    var header := SerializeHeader(pdu, bytes, maxBytes);
    if header.Err? {
      return header;
    }
    r := SerializeBody(pdu, bytes, maxBytes, header.value);
  }

  /** Writes the control field and the fixed parameters. */
  method SerializeHeader(pdu: Pdu, bytes: array<byte>, maxBytes: nat) returns (r: Result<nat>)
    requires maxBytes <= bytes.Length
    modifies bytes
    ensures r == if |Header(pdu)| <= maxBytes then Ok(|Header(pdu)|) else Err(OutOfResources)
    ensures r.Ok? ==> bytes[..|Header(pdu)|] == Header(pdu)
    ensures r.Ok? ==> forall k :: |Header(pdu)| <= k < bytes.Length ==> bytes[k] == old(bytes[k])
    ensures forall k :: maxBytes <= k < bytes.Length ==> bytes[k] == old(bytes[k])
  {
    if maxBytes < 1 {
      return Err(OutOfResources);
    }
    var control := match pdu
      case FirstRequest(_, _, _, _) => ControlField(false, Request)
      case FirstResponse(_, _, _) => ControlField(false, Response)
      case Continuation(pduType, _, _) => ControlField(true, pduType);
    bytes[0] := control;
    var fixedParams: seq<byte> := match pdu
      case FirstRequest(opcode, tid, iid, _) => [opcode, tid] + LittleUInt16(iid)
      case FirstResponse(tid, status, _) => [tid, status]
      case Continuation(_, tid, _) => [tid];
    assert [control] + fixedParams == Header(pdu);
    if maxBytes - 1 < |fixedParams| {
      return Err(OutOfResources);
    }
    assert bytes[..1] == [control];
    Put(bytes, 1, fixedParams);
    return Ok(1 + |fixedParams|);
  }

  /** Writes the body behind a header of `b` bytes. */
  method SerializeBody(pdu: Pdu, bytes: array<byte>, maxBytes: nat, b: nat) returns (r: Result<nat>)
    requires b <= maxBytes <= bytes.Length
    modifies bytes
    ensures r == if b + |Payload(pdu)| <= maxBytes then Ok(b + |Payload(pdu)|) else Err(OutOfResources)
    ensures r.Ok? ==> bytes[..b + |Payload(pdu)|] == old(bytes[..b]) + Payload(pdu)
    ensures r.Ok? ==> forall k :: b + |Payload(pdu)| <= k < bytes.Length ==> bytes[k] == old(bytes[k])
    ensures forall k :: maxBytes <= k < bytes.Length ==> bytes[k] == old(bytes[k])
  {
    ghost var header := bytes[..b];
    if pdu.Continuation? {
      if maxBytes - b < |pdu.fragment| {
        return Err(OutOfResources);
      }
      if pdu.fragment != [] {
        Put(bytes, b, pdu.fragment);
      }
      return Ok(b + |pdu.fragment|);
    }
    match pdu.body {
      case NoBody =>
        return Ok(b);
      case Body(total, fragment) =>
        if maxBytes - b < 2 {
          return Err(OutOfResources);
        }
        Put(bytes, b, LittleUInt16(total));
        if maxBytes - b - 2 < |fragment| {
          return Err(OutOfResources);
        }
        Put(bytes, b + 2, fragment);
        assert header + LittleUInt16(total) + fragment == header + Payload(pdu);
        return Ok(b + 2 + |fragment|);
    }
  }
}
