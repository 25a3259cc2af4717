/**
 * What fragmentation promises over whole transactions (sections 7.3.3.5 and 7.3.5.6 of HAP
 * Specification R14): requests are reassembled and responses are taken apart without loss.
 */
module Fragmentation {
  import opened Bytes
  import opened RawBuffer
  import opened Pdu
  import opened TransactionModel

  // Requests.

  datatype Received = Received(tx: Tx, mem: seq<byte>)

  /** The state after `writes`, unless one of them was rejected. */
  function WriteAll(start: Received, writes: seq<seq<byte>>): Option<Received>
    requires Valid(start.tx)
    ensures WriteAll(start, writes).Some? ==> Valid(WriteAll(start, writes).value.tx)
  {
    if writes == [] then Some(start) else
    var prior := WriteAll(start, writes[..|writes| - 1]);
    if prior.None? then None else
    var r := Write(prior.value.tx, writes[|writes| - 1]);
    WriteKeepsValid(prior.value.tx, writes[|writes| - 1]);
    if r.status == Done then Some(Received(r.tx, Stored(prior.value.mem, r))) else None
  }

  /** The body bytes in a first fragment: everything behind header and body length. */
  function FirstBodyBytes(write: seq<byte>): seq<byte> {
    if |write| < REQUEST_HEADER_BYTES + BODY_HEADER_BYTES then []
    else write[REQUEST_HEADER_BYTES + BODY_HEADER_BYTES..]
  }

  /** The body bytes in a continuation: everything behind its header. */
  function ContinuationBodyBytes(write: seq<byte>): seq<byte> {
    if |write| < CONTINUATION_HEADER_BYTES then [] else write[CONTINUATION_HEADER_BYTES..]
  }

  /** The body bytes of a transaction's writes in the order in which they were sent. */
  function BodySent(writes: seq<seq<byte>>): seq<byte> {
    if writes == [] then []
    else if |writes| == 1 then FirstBodyBytes(writes[0])
    else BodySent(writes[..|writes| - 1]) + ContinuationBodyBytes(writes[|writes| - 1])
  }

  /** The body length that a first fragment declares; 0 when it has no body. */
  function DeclaredLength(write: seq<byte>): nat {
    if |write| < REQUEST_HEADER_BYTES + BODY_HEADER_BYTES then 0
    else ReadLittleUInt16(write, REQUEST_HEADER_BYTES)
  }

  lemma FirstWrite(t: Tx, write: seq<byte>)
    requires Valid(t) && t.state == WaitingForInitialWrite
    requires Write(t, write).status == Done
    ensures var r := Write(t, write);
            && Valid(r.tx) && r.tx.state == ReadingRequest
            && r.fragment == FirstBodyBytes(write)
            && |write| >= REQUEST_HEADER_BYTES
            && r.tx.slot == RequestSlot(write[1], write[2], ReadLittleUInt16(write, 3),
                                        t.slot.hasBuffer, t.slot.maxBodyBytes,
                                        DeclaredLength(write), |FirstBodyBytes(write)|)
  {
    WriteKeepsValid(t, write);
    var pdu := DecodeFirst(write).value;
    if |write| >= REQUEST_HEADER_BYTES + BODY_HEADER_BYTES {
      assert write[REQUEST_HEADER_BYTES..][2..] == FirstBodyBytes(write);
    }
  }

  lemma NextWrite(t: Tx, write: seq<byte>)
    requires Valid(t) && t.state == ReadingRequest
    requires Write(t, write).status == Done
    ensures var r := Write(t, write);
            && r.fragment == ContinuationBodyBytes(write)
            && r.tx == t.(slot := AtOffset(t.slot, t.slot.bodyOffset + |r.fragment|))
  {
  }

  /**
   * Every accepted sequence of writes, whatever the sizes of its fragments: the body that arrived is
   * at the start of the buffer when the declared length fits, and the buffer is untouched when it does
   * not; the request is available exactly when the declared length has arrived.
   */
  lemma {:induction false} RequestIsReassembled(hasBuffer: bool, max: nat, mem: seq<byte>, writes: seq<seq<byte>>)
    requires |mem| == max && (!hasBuffer ==> max == 0)
    requires writes != []
    requires WriteAll(Received(Created(hasBuffer, max), mem), writes).Some?
    ensures var r := WriteAll(Received(Created(hasBuffer, max), mem), writes).value;
            var total := DeclaredLength(writes[0]);
            && |writes[0]| >= REQUEST_HEADER_BYTES
            && r.tx == Tx(ReadingRequest, RequestSlot(writes[0][1], writes[0][2], ReadLittleUInt16(writes[0], 3),
                                                      hasBuffer, max, total, |BodySent(writes)|))
            && |BodySent(writes)| <= total
            && (IsRequestAvailable(r.tx) <==> |BodySent(writes)| == total)
            && r.mem == if total <= max then BodySent(writes) + mem[|BodySent(writes)|..] else mem
  {
    var start := Received(Created(hasBuffer, max), mem);
    var n := |writes| - 1;
    if n == 0 {
      assert writes[..0] == [];
      assert WriteAll(start, writes[..0]) == Some(start);
      FirstWrite(start.tx, writes[0]);
    } else {
      var prior := WriteAll(start, writes[..n]).value;
      RequestIsReassembled(hasBuffer, max, mem, writes[..n]);
      NextWrite(prior.tx, writes[n]);
      var sent, more := BodySent(writes[..n]), ContinuationBodyBytes(writes[n]);
      WriteKeepsValid(prior.tx, writes[n]);
      if DeclaredLength(writes[0]) <= max {
        assert Overwritten(sent + mem[|sent|..], |sent|, more) == sent + more + mem[|sent + more|..];
      }
    }
  }

  /** The writes with which a controller sends a body that it split into `fragments`. */
  function RequestWrites(opcode: byte, tid: byte, iid: u16, total: u16, fragments: seq<seq<byte>>): seq<seq<byte>>
    requires fragments != [] && |fragments[0]| <= total
    ensures |RequestWrites(opcode, tid, iid, total, fragments)| == |fragments|
  {
    if |fragments| == 1 then [Encode(FirstRequest(opcode, tid, iid, Body(total, fragments[0])))]
    else
      var n := |fragments| - 1;
      RequestWrites(opcode, tid, iid, total, fragments[..n]) + [Encode(Continuation(Request, tid, fragments[n]))]
  }

  lemma FirstFragmentIsFirst(opcode: byte, tid: byte, iid: u16, total: u16, fragments: seq<seq<byte>>)
    requires fragments != [] && |fragments[0]| <= total
    ensures RequestWrites(opcode, tid, iid, total, fragments)[0]
            == Encode(FirstRequest(opcode, tid, iid, Body(total, fragments[0])))
  {
    if |fragments| > 1 {
      FirstFragmentIsFirst(opcode, tid, iid, total, fragments[..|fragments| - 1]);
    }
  }

  lemma FirstFragmentIsShort(fragments: seq<seq<byte>>)
    requires fragments != []
    ensures |fragments[0]| <= |Concat(fragments)|
  {
    if |fragments| > 1 {
      FirstFragmentIsShort(fragments[..|fragments| - 1]);
    }
  }

  /**
   * Every split of a body, empty fragments included, is accepted as long as it is not longer than
   * declared. Without a buffer this needs a body that is not declared to be empty.
   */
  lemma {:induction false} EverySplitIsAccepted(opcode: byte, tid: byte, iid: u16, total: u16,
                                                fragments: seq<seq<byte>>, hasBuffer: bool, mem: seq<byte>)
    requires fragments != [] && |Concat(fragments)| <= total
    requires !hasBuffer ==> mem == []
    ensures |fragments[0]| <= total
    ensures WriteAll(Received(Created(hasBuffer, |mem|), mem), RequestWrites(opcode, tid, iid, total, fragments)).Some?
            <==> hasBuffer || total > 0
    ensures BodySent(RequestWrites(opcode, tid, iid, total, fragments)) == Concat(fragments)
  {
    hide Write, Encode, Stored, FirstBodyBytes, ContinuationBodyBytes, DeclaredLength, ReadLittleUInt16;
    var n := |fragments| - 1;
    var start := Received(Created(hasBuffer, |mem|), mem);
    FirstFragmentIsShort(fragments);
    var writes := RequestWrites(opcode, tid, iid, total, fragments);
    if n == 0 {
      WholeBodyIsAccepted(opcode, tid, iid, total, fragments, start);
    } else {
      var prior := RequestWrites(opcode, tid, iid, total, fragments[..n]);
      EverySplitIsAccepted(opcode, tid, iid, total, fragments[..n], hasBuffer, mem);
      assert writes[..n] == prior;
      assert writes[n] == Encode(Continuation(Request, tid, fragments[n]));
      ContinuationEncodesFragment(tid, fragments[n]);
      if hasBuffer || total > 0 {
        NextFragmentIsAccepted(opcode, tid, iid, total, fragments[..n], fragments[n], hasBuffer, mem);
      }
    }
  }

  lemma NextFragmentIsAccepted(opcode: byte, tid: byte, iid: u16, total: u16, sent: seq<seq<byte>>, next: seq<byte>,
      hasBuffer: bool, mem: seq<byte>)
    requires sent != [] && |sent[0]| <= total && (hasBuffer || total > 0) && (!hasBuffer ==> mem == [])
    requires var writes := RequestWrites(opcode, tid, iid, total, sent);
             WriteAll(Received(Created(hasBuffer, |mem|), mem), writes).Some? && |BodySent(writes)| + |next| <= total
    ensures var start := Received(Created(hasBuffer, |mem|), mem);
            Write(WriteAll(start, RequestWrites(opcode, tid, iid, total, sent)).value.tx,
                  Encode(Continuation(Request, tid, next))).status == Done
  {
    hide Write, WriteAll, Encode, DeclaredLength, BodySent;
    var writes := RequestWrites(opcode, tid, iid, total, sent);
    RequestIsReassembled(hasBuffer, |mem|, mem, writes);
    FirstFragmentIsFirst(opcode, tid, iid, total, sent);
    FirstWriteHeader(opcode, tid, iid, total, sent[0]);
    NextWriteStatus(WriteAll(Received(Created(hasBuffer, |mem|), mem), writes).value.tx, next);
  }

  lemma WholeBodyIsAccepted(opcode: byte, tid: byte, iid: u16, total: u16, fragments: seq<seq<byte>>, start: Received)
    requires |fragments| == 1 && |fragments[0]| <= total
    requires Valid(start.tx) && start.tx.state == WaitingForInitialWrite
    ensures var writes := RequestWrites(opcode, tid, iid, total, fragments);
            && (WriteAll(start, writes).Some? <==> start.tx.slot.hasBuffer || total > 0)
            && BodySent(writes) == Concat(fragments)
  {
    hide Write, Encode, Stored, FirstBodyBytes;
    var writes := RequestWrites(opcode, tid, iid, total, fragments);
    assert fragments[..0] == [] && Concat(fragments) == [] + fragments[0] == fragments[0];
    assert writes[..0] == [];
    assert WriteAll(start, writes[..0]) == Some(start);
    FirstWriteStatus(opcode, tid, iid, total, fragments[0], start.tx);
  }

  lemma ContinuationEncodesFragment(tid: byte, fragment: seq<byte>)
    ensures ContinuationBodyBytes(Encode(Continuation(Request, tid, fragment))) == fragment
  {
  }

  lemma FirstWriteStatus(opcode: byte, tid: byte, iid: u16, total: u16, fragment: seq<byte>, t: Tx)
    requires Valid(t) && t.state == WaitingForInitialWrite
    requires |fragment| <= total
    ensures var write := Encode(FirstRequest(opcode, tid, iid, Body(total, fragment)));
            && FirstBodyBytes(write) == fragment
            && Write(t, write).status == if t.slot.hasBuffer || total > 0 then Done else Aborted
  {
    DecodeEncodedFirst(FirstRequest(opcode, tid, iid, Body(total, fragment)));
  }

  lemma NextWriteStatus(t: Tx, fragment: seq<byte>)
    requires Valid(t) && t.state == ReadingRequest
    requires t.slot.bodyOffset + |fragment| <= t.slot.totalBodyBytes
    requires t.slot.hasBuffer || t.slot.totalBodyBytes > 0
    ensures Write(t, Encode(Continuation(Request, t.slot.tid, fragment))).status == Done
  {
    DecodeEncodedContinuation(Continuation(Request, t.slot.tid, fragment), t.slot.totalBodyBytes, t.slot.bodyOffset);
  }

  lemma FirstWriteHeader(opcode: byte, tid: byte, iid: u16, total: u16, fragment: seq<byte>)
    requires |fragment| <= total
    ensures var write := Encode(FirstRequest(opcode, tid, iid, Body(total, fragment)));
            && |write| >= 7 && write[1] == opcode && write[2] == tid && ReadLittleUInt16(write, 3) == iid
            && DeclaredLength(write) == total
  {
    var header := Header(FirstRequest(opcode, tid, iid, Body(total, fragment)));
    ReadAfterWrite(iid, header[..3], LittleUInt16(total) + fragment);
    ReadAfterWrite(total, header, fragment);
    assert header[..3] + LittleUInt16(iid) == header;
    assert header + LittleUInt16(total) + fragment == Encode(FirstRequest(opcode, tid, iid, Body(total, fragment)));
  }

  // Responses.

  datatype Sent = Sent(tx: Tx, packets: seq<seq<byte>>, isFinalFragment: bool)

  /** Reads with the given capacities until one fails or one is asked for after the final fragment. */
  function ReadAll(t: Tx, mem: seq<byte>, capacities: seq<nat>): Option<Sent>
    requires Valid(t) && t.state == WaitingForInitialRead && t.slot.totalBodyBytes <= |mem|
    ensures var r := ReadAll(t, mem, capacities);
            r.Some? ==>
              && Valid(r.value.tx) && |r.value.packets| == |capacities|
              && r.value.tx.slot == AtOffset(t.slot, r.value.tx.slot.bodyOffset)
              && r.value.tx.state == if capacities == [] then WaitingForInitialRead else WritingResponse
  {
    if capacities == [] then Some(Sent(t, [], false)) else
    var n := |capacities| - 1;
    var prior := ReadAll(t, mem, capacities[..n]);
    if prior.None? || prior.value.isFinalFragment then None else
    var r := Read(prior.value.tx, mem, capacities[n]);
    ReadKeepsValid(prior.value.tx, mem, capacities[n]);
    if r.status == Done then Some(Sent(r.tx, prior.value.packets + [r.packet], r.isFinalFragment)) else None
  }

  /** A response as the controller knows it: its header, the announced length and the body so far. */
  datatype Message = Message(tid: byte, status: byte, total: u16, body: seq<byte>)

  /** The controller's side: parses the packets of one response and joins their bodies. */
  function Reassemble(packets: seq<seq<byte>>): Option<Message>
    ensures Reassemble(packets).Some? ==> |Reassemble(packets).value.body| <= Reassemble(packets).value.total
  {
    if packets == [] then None
    else if |packets| == 1 then
      match DecodeFirst(packets[0])
      case Ok(FirstResponse(tid, status, NoBody)) => Some(Message(tid, status, 0, []))
      case Ok(FirstResponse(tid, status, Body(total, fragment))) =>
        EncodeDecodedFirst(packets[0]);
        Some(Message(tid, status, total, fragment))
      case _ => None
    else
      var n := |packets| - 1;
      match Reassemble(packets[..n])
      case None => None
      case Some(m) =>
        match DecodeContinuation(packets[n], Response, m.total, |m.body|)
        case Ok(Continuation(_, tid, fragment)) =>
          if tid == m.tid then Some(m.(body := m.body + fragment)) else None
        case _ => None
  }

  /** A read of a response that is not complete succeeds exactly when its packet's headers fit. */
  lemma ReadSucceedsIff(t: Tx, mem: seq<byte>, capacity: nat)
    requires Valid(t) && t.slot.ResponseSlot? && t.slot.totalBodyBytes <= |mem|
    requires t.state == WritingResponse ==> t.slot.bodyOffset < t.slot.totalBodyBytes
    ensures Read(t, mem, capacity).status == Done <==>
              capacity >= if t.state == WritingResponse then CONTINUATION_HEADER_BYTES
                          else if t.slot.hasBody then RESPONSE_HEADER_BYTES + BODY_HEADER_BYTES
                          else RESPONSE_HEADER_BYTES
  {
  }

  /** A read that fails sends nothing: too little room, nothing to send, or an assertion after a bodiless response. */
  lemma ReadFailsHow(t: Tx, mem: seq<byte>, capacity: nat)
    requires Valid(t) && (t.slot.ResponseSlot? ==> t.slot.totalBodyBytes <= |mem|)
    ensures var r := Read(t, mem, capacity);
            && (r.status != Done ==> r.packet == [] && !r.isFinalFragment)
            && (r.status == Failed(InvalidState) <==> t.slot.RequestSlot?)
            && (r.status == Aborted <==> t.state == WritingResponse && !t.slot.hasBody && capacity >= 2)
            && r.status in {Done, Aborted, Failed(InvalidState), Failed(OutOfResources)}
  {
  }

  /** Beyond its header, a continuation uses its whole capacity or finishes the response. */
  lemma ContinuationMakesProgress(t: Tx, mem: seq<byte>, capacity: nat)
    requires Valid(t) && t.state == WritingResponse && t.slot.totalBodyBytes <= |mem|
    requires t.slot.bodyOffset < t.slot.totalBodyBytes
    requires capacity > CONTINUATION_HEADER_BYTES
    ensures var r := Read(t, mem, capacity);
            && r.status == Done
            && t.slot.totalBodyBytes - r.tx.slot.bodyOffset < t.slot.totalBodyBytes - t.slot.bodyOffset
            && (r.isFinalFragment || r.tx.slot.bodyOffset - t.slot.bodyOffset == capacity - CONTINUATION_HEADER_BYTES)
  {
  }

  /**
   * Every sequence of successful reads: the controller parses all packets, and they carry exactly the
   * bytes of the body up to the offset; a fragment is final exactly when the body is complete.
   */
  lemma {:induction false} ResponseIsReassembled(t: Tx, mem: seq<byte>, capacities: seq<nat>)
    requires Valid(t) && t.state == WaitingForInitialRead && t.slot.totalBodyBytes <= |mem|
    requires capacities != [] && ReadAll(t, mem, capacities).Some?
    ensures var r := ReadAll(t, mem, capacities).value;
            && Reassemble(r.packets)
               == Some(Message(t.slot.tid, t.slot.status, t.slot.totalBodyBytes, mem[..r.tx.slot.bodyOffset]))
            && (r.isFinalFragment <==> r.tx.slot.bodyOffset == t.slot.totalBodyBytes)
            && (r.isFinalFragment ==> Reassemble(r.packets).value.body == mem[..t.slot.totalBodyBytes])
  {
    hide Read, DecodeFirst, DecodeContinuation;
    var n := |capacities| - 1;
    var r := ReadAll(t, mem, capacities).value;
    var prior := ReadAll(t, mem, capacities[..n]).value;
    if n == 0 {
      InitialPacketParses(t, mem, capacities[0]);
      assert r.packets == [Read(t, mem, capacities[0]).packet];
    } else {
      ResponseIsReassembled(t, mem, capacities[..n]);
      NextPacketParses(prior.tx, mem, capacities[n]);
      assert r.packets[..n] == prior.packets;
      var offset, sent := prior.tx.slot.bodyOffset, r.tx.slot.bodyOffset;
      assert mem[..offset] + mem[offset..sent] == mem[..sent];
    }
  }

  lemma InitialPacketParses(t: Tx, mem: seq<byte>, capacity: nat)
    requires Valid(t) && t.state == WaitingForInitialRead && t.slot.totalBodyBytes <= |mem|
    requires Read(t, mem, capacity).status == Done
    ensures var r := Read(t, mem, capacity);
            && |r.packet| <= capacity && r.tx.slot.bodyOffset <= t.slot.totalBodyBytes
            && Reassemble([r.packet])
               == Some(Message(t.slot.tid, t.slot.status, t.slot.totalBodyBytes, mem[..r.tx.slot.bodyOffset]))
            && (r.isFinalFragment <==> r.tx.slot.bodyOffset == t.slot.totalBodyBytes)
  {
    var r := Read(t, mem, capacity);
    var n := r.tx.slot.bodyOffset;
    DecodeEncodedFirst(FirstResponse(t.slot.tid, t.slot.status,
                                     if t.slot.hasBody then Body(t.slot.totalBodyBytes, mem[..n]) else NoBody));
  }

  lemma NextPacketParses(t: Tx, mem: seq<byte>, capacity: nat)
    requires Valid(t) && t.state == WritingResponse && t.slot.totalBodyBytes <= |mem|
    requires Read(t, mem, capacity).status == Done
    ensures var r := Read(t, mem, capacity);
            && |r.packet| <= capacity
            && t.slot.bodyOffset <= r.tx.slot.bodyOffset <= t.slot.totalBodyBytes
            && DecodeContinuation(r.packet, Response, t.slot.totalBodyBytes, t.slot.bodyOffset)
               == Ok(Continuation(Response, t.slot.tid, mem[t.slot.bodyOffset..r.tx.slot.bodyOffset]))
            && (r.isFinalFragment <==> r.tx.slot.bodyOffset == t.slot.totalBodyBytes)
  {
    var n := Read(t, mem, capacity).tx.slot.bodyOffset;
    DecodeEncodedContinuation(Continuation(Response, t.slot.tid, mem[t.slot.bodyOffset..n]),
                              t.slot.totalBodyBytes, t.slot.bodyOffset);
  }

  predicate Roomy(capacities: seq<nat>) {
    forall i :: 0 <= i < |capacities| ==> capacities[i] >= RESPONSE_HEADER_BYTES + BODY_HEADER_BYTES
  }

  /** With room for one body byte in every packet, one read more than there are body bytes is enough. */
  lemma {:induction false} ResponseTerminates(t: Tx, mem: seq<byte>, capacities: seq<nat>)
    requires Valid(t) && t.state == WaitingForInitialRead && t.slot.totalBodyBytes <= |mem|
    requires Roomy(capacities) && |capacities| > t.slot.totalBodyBytes
    ensures exists k :: 0 < k <= |capacities|
                        && ReadAll(t, mem, capacities[..k]).Some?
                        && ReadAll(t, mem, capacities[..k]).value.isFinalFragment
  {
    var k := FirstFinalRead(t, mem, capacities, |capacities|);
  }

  /** Either one of the first `n` reads was final or all succeeded and sent at least `n - 1` body bytes. */
  lemma {:induction false} FirstFinalRead(t: Tx, mem: seq<byte>, capacities: seq<nat>, n: nat) returns (k: nat)
    requires Valid(t) && t.state == WaitingForInitialRead && t.slot.totalBodyBytes <= |mem|
    requires Roomy(capacities) && 0 < n <= |capacities|
    ensures 0 < k <= n && ReadAll(t, mem, capacities[..k]).Some?
    ensures var r := ReadAll(t, mem, capacities[..k]).value;
            r.isFinalFragment || (k == n && n - 1 <= r.tx.slot.bodyOffset < t.slot.totalBodyBytes)
    decreases n
  {
    if n == 1 {
      k := 1;
      assert capacities[..1][..0] == [];
      assert ReadAll(t, mem, capacities[..1][..0]) == Some(Sent(t, [], false));
      ReadSucceedsIff(t, mem, capacities[0]);
    } else {
      k := FirstFinalRead(t, mem, capacities, n - 1);
      var prior := ReadAll(t, mem, capacities[..k]).value;
      if !prior.isFinalFragment {
        ContinuationMakesProgress(prior.tx, mem, capacities[n - 1]);
        ReadKeepsValid(prior.tx, mem, capacities[n - 1]);
        assert capacities[..n][..n - 1] == capacities[..n - 1];
        k := n;
      }
    }
  }

  // Requests and their responses.

  /**
   * Whatever is answered to a complete request, after any writes and in any packets: the response has the identifier
   * that the request's first fragment carried and the status that was set, and its body is the one that was set.
   */
  lemma ResponseAnswersRequest(hasBuffer: bool, max: nat, mem: seq<byte>, writes: seq<seq<byte>>,
      status: byte, body: Option<u16>, buffer: seq<byte>, capacities: seq<nat>)
    requires |mem| == max && (!hasBuffer ==> max == 0) && writes != [] && capacities != []
    requires WriteAll(Received(Created(hasBuffer, max), mem), writes).Some?
    requires IsRequestAvailable(WriteAll(Received(Created(hasBuffer, max), mem), writes).value.tx)
    requires body.Some? ==> body.value <= |buffer|
    requires var w := WriteAll(Received(Created(hasBuffer, max), mem), writes).value;
             ReadAll(SetResponse(GetRequest(w.tx).1, status, body), buffer, capacities).Some?
    ensures var w := WriteAll(Received(Created(hasBuffer, max), mem), writes).value;
            var (taken, handling) := GetRequest(w.tx);
            var r := ReadAll(SetResponse(handling, status, body), buffer, capacities).value;
            var numBytes := if body.Some? then body.value else 0;
            && |writes[0]| >= REQUEST_HEADER_BYTES
            && taken == (if DeclaredLength(writes[0]) <= max then Done else Failed(OutOfResources))
            && r.tx.slot.bodyOffset <= numBytes
            && Reassemble(r.packets) == Some(Message(writes[0][2], status, numBytes, buffer[..r.tx.slot.bodyOffset]))
            && (r.isFinalFragment <==> r.tx.slot.bodyOffset == numBytes)
  {
    hide WriteAll, ReadAll, Reassemble;
    var w := WriteAll(Received(Created(hasBuffer, max), mem), writes).value;
    RequestIsReassembled(hasBuffer, max, mem, writes);
    ResponseIsReassembled(SetResponse(GetRequest(w.tx).1, status, body), buffer, capacities);
  }
}
