/** A HAP-BLE transaction: reassembles a fragmented request and fragments the response. */
module BleTransaction {
  import opened Bytes
  import opened RawBuffer
  import opened Pdu
  import Model = TransactionModel

  class Transaction {
    var state: Model.State

    // Request and response share this storage.
    var opcode: byte
    var tid: byte
    var iid: u16
    var status: byte
    var bodyBytes: array?<byte>
    var maxBodyBytes: nat
    var totalBodyBytes: u16
    var bodyOffset: nat

    ghost function View(): Model.Tx
      reads this
    {
      Model.Tx(state,
               if state.WaitingForInitialWrite? || state.ReadingRequest? || state.HandlingRequest?
               then Model.RequestSlot(opcode, tid, iid, bodyBytes != null, maxBodyBytes, totalBodyBytes, bodyOffset)
               else Model.ResponseSlot(tid, status, bodyBytes != null, totalBodyBytes, bodyOffset))
    }

    ghost predicate Valid()
      reads this
    {
      && Model.Valid(View())
      && (View().slot.RequestSlot? && bodyBytes != null ==> maxBodyBytes <= bodyBytes.Length)
      && (View().slot.ResponseSlot? && bodyBytes != null ==> totalBodyBytes <= bodyBytes.Length)
    }

    /** The memory that request bodies are stored in and that response bodies are taken from. */
    ghost function Memory(): seq<byte>
      reads this, bodyBytes
    {
      if bodyBytes == null then [] else bodyBytes[..]
    }

    constructor (bodyBytes: array?<byte>)
      ensures Valid()
      ensures this.bodyBytes == bodyBytes
      ensures View() == Model.Created(bodyBytes != null, if bodyBytes == null then 0 else bodyBytes.Length)
    {
      state, opcode, tid, iid, status := Model.WaitingForInitialWrite, 0, 0, 0, 0;
      this.bodyBytes, maxBodyBytes := bodyBytes, if bodyBytes == null then 0 else bodyBytes.Length;
      totalBodyBytes, bodyOffset := 0, 0;
    }

    method Create(bodyBytes: array?<byte>)
      modifies this
      ensures Valid()
      ensures this.bodyBytes == bodyBytes
      ensures View() == Model.Created(bodyBytes != null, if bodyBytes == null then 0 else bodyBytes.Length)
    {
      state, opcode, tid, iid, status := Model.WaitingForInitialWrite, 0, 0, 0, 0;
      this.bodyBytes, maxBodyBytes := bodyBytes, if bodyBytes == null then 0 else bodyBytes.Length;
      totalBodyBytes, bodyOffset := 0, 0;
    }

    method TryAppendBodyFragment(present: bool, fragment: seq<byte>) returns (status: Model.Status)
      requires Valid() && state == Model.ReadingRequest
      requires bodyOffset + |fragment| <= totalBodyBytes
      requires fragment != [] ==> present
      modifies this`bodyOffset, bodyBytes
      ensures Valid()
      ensures Model.WriteResult(status, View(), if status == Model.Done then fragment else [])
              == Model.Append(old(View()), present, fragment)
      ensures bodyBytes != null ==>
                bodyBytes[..] == if status == Model.Done && totalBodyBytes <= maxBodyBytes
                                 then Overwritten(old(bodyBytes[..]), old(bodyOffset), fragment)
                                 else old(bodyBytes[..])
    {
      if totalBodyBytes > maxBodyBytes {
        // The fragment is discarded because the buffer is not large enough.
      } else if present {
        if bodyBytes == null {
          return Model.Aborted;
        }
        StoreBytes(bodyBytes, bodyOffset, fragment);
      }
      bodyOffset := bodyOffset + |fragment|;
      return Model.Done;
    }

    method HandleWrite(bytes: seq<byte>) returns (status: Model.Status)
      requires Valid()
      modifies this, bodyBytes
      ensures Valid() && bodyBytes == old(bodyBytes)
      ensures var r := Model.Write(old(View()), bytes);
              && status == r.status && View() == r.tx
              && (bodyBytes != null ==> bodyBytes[..] == Model.Stored(old(bodyBytes[..]), r))
    {
      match state {
        case WaitingForInitialWrite =>
          status := HandleInitialWrite(bytes);
        case ReadingRequest =>
          status := HandleContinuationWrite(bytes);
        case WritingResponse =>
          status := Model.Failed(InvalidState);
        case _ =>
          status := HandleLateWrite(bytes);
      }
    }

    method HandleInitialWrite(bytes: seq<byte>) returns (status: Model.Status)
      requires Valid() && state == Model.WaitingForInitialWrite
      modifies this, bodyBytes
      ensures Valid() && bodyBytes == old(bodyBytes)
      ensures var r := Model.Write(old(View()), bytes);
              && status == r.status && View() == r.tx
              && (bodyBytes != null ==> bodyBytes[..] == Model.Stored(old(bodyBytes[..]), r))
    {
      hide DecodeFirst, DecodeContinuation, Encode;
      state := Model.ReadingRequest;
      var pdu := Deserialize(bytes);
      if pdu.Err? {
        return Model.Failed(InvalidData);
      }
      if !pdu.value.FirstRequest? {
        return Model.Failed(InvalidData);
      }
      EncodeDecodedFirst(bytes);
      opcode, tid, iid := pdu.value.opcode, pdu.value.tid, pdu.value.iid;
      totalBodyBytes := if pdu.value.body.Body? then pdu.value.body.total else 0;
      bodyOffset := 0;
      status := TryAppendBodyFragment(pdu.value.body.Body?,
                                      if pdu.value.body.Body? then pdu.value.body.fragment else []);
    }

    method HandleContinuationWrite(bytes: seq<byte>) returns (status: Model.Status)
      requires Valid() && state == Model.ReadingRequest
      modifies this, bodyBytes
      ensures Valid() && bodyBytes == old(bodyBytes)
      ensures var r := Model.Write(old(View()), bytes);
              && status == r.status && View() == r.tx
              && (bodyBytes != null ==> bodyBytes[..] == Model.Stored(old(bodyBytes[..]), r))
    {
      var pdu := DeserializeContinuation(bytes, Request, totalBodyBytes, bodyOffset);
      if pdu.Err? {
        return Model.Failed(InvalidData);
      }
      if pdu.value.tid != tid {
        return Model.Failed(InvalidData);
      }
      status := TryAppendBodyFragment(pdu.value.fragment != [], pdu.value.fragment);
    }

    method HandleLateWrite(bytes: seq<byte>) returns (status: Model.Status)
      requires Valid() && state in {Model.HandlingRequest, Model.WaitingForInitialRead}
      modifies this, bodyBytes
      ensures Valid() && bodyBytes == old(bodyBytes)
      ensures var r := Model.Write(old(View()), bytes);
              && status == r.status && View() == r.tx
              && (bodyBytes != null ==> bodyBytes[..] == Model.Stored(old(bodyBytes[..]), r))
    {
      var pdu := DeserializeContinuation(bytes, Request, 0, 0);
      if pdu.Err? {
        return Model.Failed(InvalidData);
      }
      // The response slot's first byte is its transaction identifier, the request slot's is its opcode.
      if pdu.value.tid != (if state == Model.HandlingRequest then opcode else tid) {
        return Model.Failed(InvalidData);
      }
      return Model.Done;
    }

    predicate IsRequestAvailable()
      requires Valid()
      reads this
      ensures IsRequestAvailable() == Model.IsRequestAvailable(View())
    {
      state == Model.ReadingRequest && bodyOffset == totalBodyBytes
    }

    method GetRequest() returns (status: Model.Status)
      requires Valid() && IsRequestAvailable()
      modifies this`state
      ensures Valid()
      ensures (status, View()) == Model.GetRequest(old(View()))
    {
      state := Model.HandlingRequest;
      if totalBodyBytes > maxBodyBytes {
        return Model.Failed(OutOfResources);
      }
      return Model.Done;
    }

    /** `body` holds the response body in its first `numBytes` bytes. */
    method SetResponse(status: byte, body: array?<byte>, numBytes: u16)
      requires Valid() && state == Model.HandlingRequest
      requires if body == null then numBytes == 0 else numBytes <= body.Length
      modifies this
      ensures Valid() && bodyBytes == body
      ensures View() == Model.SetResponse(old(View()), status, if body == null then None else Some(numBytes))
    {
      state := Model.WaitingForInitialRead;
      this.status := status;
      bodyBytes, totalBodyBytes, bodyOffset := body, numBytes, 0;
    }

    /** Puts the next fragment of the response into `bytes`, of which the first `maxBytes` may be used. */
    method HandleRead(bytes: array<byte>, maxBytes: nat)
      returns (status: Model.Status, numBytes: nat, isFinalFragment: bool)
      requires Valid() && maxBytes <= bytes.Length
      requires bytes != bodyBytes
      modifies this, bytes
      ensures Valid() && bodyBytes == old(bodyBytes)
      ensures old(View()).slot.ResponseSlot? ==> old(View()).slot.totalBodyBytes <= |old(Memory())|
      ensures var r := Model.Read(old(View()), old(Memory()), maxBytes);
              && status == r.status && View() == r.tx
              && numBytes == |r.packet| <= bytes.Length && bytes[..numBytes] == r.packet
              && isFinalFragment == r.isFinalFragment
    {
      numBytes, isFinalFragment := 0, false;
      match state {
        case WaitingForInitialRead =>
          status, numBytes, isFinalFragment := HandleInitialRead(bytes, maxBytes);
        case WritingResponse =>
          status, numBytes, isFinalFragment := HandleContinuationRead(bytes, maxBytes);
        case _ =>
          status := Model.Failed(InvalidState);
      }
    }

    method HandleInitialRead(bytes: array<byte>, maxBytes: nat)
      returns (status: Model.Status, numBytes: nat, isFinalFragment: bool)
      requires Valid() && maxBytes <= bytes.Length && state == Model.WaitingForInitialRead
      requires bytes != bodyBytes
      modifies this`state, this`bodyOffset, bytes
      ensures Valid()
      ensures old(View()).slot.totalBodyBytes <= |old(Memory())|
      ensures var r := Model.Read(old(View()), old(Memory()), maxBytes);
              && status == r.status && View() == r.tx
              && numBytes == |r.packet| <= bytes.Length && bytes[..numBytes] == r.packet
              && isFinalFragment == r.isFinalFragment
    {
      numBytes, isFinalFragment := 0, false;
      state := Model.WritingResponse;
      var numHeaderBytes := RESPONSE_HEADER_BYTES;
      if totalBodyBytes != 0 {
        numHeaderBytes := numHeaderBytes + BODY_HEADER_BYTES;
      }
      if maxBytes < numHeaderBytes {
        return Model.Failed(OutOfResources), 0, false;
      }
      var numFragmentBytes: nat := totalBodyBytes;
      if maxBytes - numHeaderBytes < numFragmentBytes {
        numFragmentBytes := maxBytes - numHeaderBytes;
      }
      var body := NoBody;
      if bodyBytes != null {
        body := Body(totalBodyBytes, bodyBytes[..numFragmentBytes]);
      }
      var r := Serialize(FirstResponse(tid, this.status, body), bytes, maxBytes);
      if r.Err? {
        return Model.Failed(r.error), 0, false;
      }
      bodyOffset := bodyOffset + numFragmentBytes;
      return Model.Done, r.value, bodyOffset == totalBodyBytes;
    }

    method HandleContinuationRead(bytes: array<byte>, maxBytes: nat)
      returns (status: Model.Status, numBytes: nat, isFinalFragment: bool)
      requires Valid() && maxBytes <= bytes.Length && state == Model.WritingResponse
      requires bytes != bodyBytes
      modifies this`bodyOffset, bytes
      ensures Valid()
      ensures old(View()).slot.totalBodyBytes <= |old(Memory())|
      ensures var r := Model.Read(old(View()), old(Memory()), maxBytes);
              && status == r.status && View() == r.tx
              && numBytes == |r.packet| <= bytes.Length && bytes[..numBytes] == r.packet
              && isFinalFragment == r.isFinalFragment
    {
      var numHeaderBytes := CONTINUATION_HEADER_BYTES;
      if maxBytes < numHeaderBytes {
        return Model.Failed(OutOfResources), 0, false;
      }
      var numFragmentBytes: nat := totalBodyBytes - bodyOffset;
      if maxBytes - numHeaderBytes < numFragmentBytes {
        numFragmentBytes := maxBytes - numHeaderBytes;
      }
      if bodyBytes == null {
        return Model.Aborted, 0, false;
      }
      var fragment := bodyBytes[bodyOffset..bodyOffset + numFragmentBytes];
      numBytes, isFinalFragment := 0, false;
      var r := Serialize(Continuation(Response, tid, fragment), bytes, maxBytes);
      if r.Err? {
        status := Model.Failed(OutOfResources);
        return;
      }
      bodyOffset := bodyOffset + numFragmentBytes;
      return Model.Done, r.value, bodyOffset == totalBodyBytes;
    }
  }
}
