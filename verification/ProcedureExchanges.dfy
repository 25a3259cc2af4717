/**
 * Whole exchanges with a procedure: what a controller reassembles from the packets that it reads after it has sent a
 * request, in whatever fragments both go.
 */
module ProcedureExchanges {
  import opened Bytes
  import opened Pdu
  import opened TransactionModel
  import opened ProcedureModel
  import opened ProcedureAnswers
  import opened WriteFields
  import opened TimedWrites
  import opened Completion = TimedWriteCompletion
  import Fragmentation

  datatype Answered = Answered(proc: Proc, packets: seq<seq<byte>>)

  /** The packets of successive GATT reads, as long as all of them succeed. */
  function Respond(target: Target, p: Proc, events: seq<Event>): (r: Option<Answered>)
    requires ValidProc(p)
    ensures r.Some? ==> ValidProc(r.value.proc) && |r.value.packets| == |events|
  {
    if events == [] then Some(Answered(p, [])) else
    var n := |events| - 1;
    var prior := Respond(target, p, events[..n]);
    if prior.None? then None else
    NextKeepsValid(target, Run(prior.value.proc, [], []), events[n]);
    var r := Step(target, prior.value.proc, events[n]);
    if events[n].GattRead? && r.status == Done then Some(Answered(r.proc, prior.value.packets + [r.packet])) else None
  }

  predicate AllReads(events: seq<Event>, secured: bool) {
    forall k :: 0 <= k < |events| ==> events[k].GattRead? && (secured ==> events[k].maxBytes >= TAG_BYTES)
  }

  /** The room for packets that reads leave, once encryption has its share. */
  function Capacities(events: seq<Event>, secured: bool): seq<nat>
    requires AllReads(events, secured)
  {
    seq(|events|, k requires 0 <= k < |events| =>
      if secured then events[k].maxBytes - TAG_BYTES else events[k].maxBytes)
  }

  /** A procedure with a response to send. */
  predicate Responds(p: Proc) {
    ValidProc(p) && p.timer && !p.terminal && p.tx.state == WaitingForInitialRead
  }

  lemma SuccessfulRead(target: Target, p: Proc, e: Event)
    requires ValidProc(p) && e.GattRead? && Step(target, p, e).status == Done && !IsRequestAvailable(p.tx)
    ensures p.startedSecured ==> e.maxBytes >= TAG_BYTES
    ensures p.tx.slot.ResponseSlot?
    ensures var r := Step(target, p, e);
            var sent := Read(p.tx, p.scratch, if p.startedSecured then e.maxBytes - TAG_BYTES else e.maxBytes);
            && sent.status == Done && r.packet == sent.packet
            && (if sent.isFinalFragment then
                  r.proc.tx == if p.multi.NoneActive? then Created(true, |p.scratch|) else Created(false, 0)
                else
                  && r.proc.tx == sent.tx && r.proc.scratch == p.scratch && r.proc.multi == p.multi
                  && r.proc.startedSecured == p.startedSecured)
  {
    hide Send, Process, Read;
    SuccessfulSend(p, if p.startedSecured && e.maxBytes >= TAG_BYTES then e.maxBytes - TAG_BYTES else e.maxBytes,
                   e.readEnv);
  }

  lemma SuccessfulSend(p: Proc, maxBytes: nat, env: ReadEnv)
    requires ValidProc(p)
    ensures var r := Send(p, maxBytes, env);
            var sent := Read(p.tx, p.scratch, maxBytes);
            r.status == Done ==>
              && p.tx.slot.ResponseSlot?
              && sent.status == Done && r.packet == sent.packet
              && (if sent.isFinalFragment then
                    r.proc.tx == if p.multi.NoneActive? then Created(true, |p.scratch|) else Created(false, 0)
                  else
                    && r.proc.tx == sent.tx && r.proc.scratch == p.scratch && r.proc.multi == p.multi
                    && r.proc.startedSecured == p.startedSecured)
  {
    ReadKeepsValid(p.tx, p.scratch, maxBytes);
    hide Read;
  }

  /** The packets are those of the transaction, and its end is the end of the response. */
  lemma {:induction false} PacketsOfResponse(target: Target, p: Proc, events: seq<Event>)
    requires Responds(p) && events != [] && Respond(target, p, events).Some?
    ensures AllReads(events, p.startedSecured)
    ensures var s := Fragmentation.ReadAll(p.tx, p.scratch, Capacities(events, p.startedSecured));
            var r := Respond(target, p, events).value;
            && s.Some? && r.packets == s.value.packets
            && (if s.value.isFinalFragment then r.proc.tx.state == WaitingForInitialWrite
                else r.proc.tx == s.value.tx && r.proc.scratch == p.scratch && r.proc.multi == p.multi
                     && r.proc.startedSecured == p.startedSecured)
  {
    hide Step, Read, AllReads, Capacities;
    var n := |events| - 1;
    var prior := Respond(target, p, events[..n]).value;
    if n == 0 {
      assert AllReads(events[..0], p.startedSecured) by { NoReads(events[..0], p.startedSecured); }
    } else {
      PacketsOfResponse(target, p, events[..n]);
    }
    SuccessfulRead(target, prior.proc, events[n]);
    OneMoreRead(events, p.startedSecured);
  }

  lemma NoReads(events: seq<Event>, secured: bool)
    requires events == []
    ensures AllReads(events, secured)
  {
  }

  lemma OneMoreRead(events: seq<Event>, secured: bool)
    requires events != [] && AllReads(events[..|events| - 1], secured)
    requires events[|events| - 1].GattRead? && (secured ==> events[|events| - 1].maxBytes >= TAG_BYTES)
    ensures AllReads(events, secured)
    ensures var n := |events| - 1;
            var capacities := Capacities(events, secured);
            && |capacities| == |events| && capacities[..n] == Capacities(events[..n], secured)
            && capacities[n] == if secured then events[n].maxBytes - TAG_BYTES else events[n].maxBytes
  {
  }

  /** The message that was set as the response is what the controller gets, in whatever packets. */
  lemma ResponseArrives(target: Target, p: Proc, events: seq<Event>)
    requires Responds(p) && events != [] && Respond(target, p, events).Some?
    ensures var r := Respond(target, p, events).value;
            var m := Fragmentation.Reassemble(r.packets);
            && m.Some? && m.value.tid == p.tx.slot.tid && m.value.status == p.tx.slot.status
            && m.value.total == p.tx.slot.totalBodyBytes && m.value.body <= p.scratch[..p.tx.slot.totalBodyBytes]
            && (r.proc.tx.state == WaitingForInitialWrite ==> m.value.body == p.scratch[..p.tx.slot.totalBodyBytes])
  {
    hide Respond, Fragmentation.ReadAll, Fragmentation.Reassemble;
    PacketsOfResponse(target, p, events);
    Fragmentation.ResponseIsReassembled(p.tx, p.scratch, Capacities(events, p.startedSecured));
  }

  /** The first read of a complete request prepares the response, which is then sent like any other. */
  lemma {:induction false} RespondPrepared(target: Target, p: Proc, events: seq<Event>)
    requires ValidProc(p) && IsRequestAvailable(p.tx) && events != [] && Respond(target, p, events).Some?
    ensures events[0].GattRead? && !p.terminal
    ensures var q := Prepare(target, p, events[0].readEnv);
            && q.status == Done && ValidProc(q.proc)
            && Respond(target, q.proc, events).Some?
            && Respond(target, q.proc, events).value == Respond(target, p, events).value
  {
    var n := |events| - 1;
    if n == 0 {
      assert events[..0] == [];
      PreparedRead(target, p, events[0]);
    } else {
      RespondPrepared(target, p, events[..n]);
    }
  }

  lemma PreparedRead(target: Target, p: Proc, e: Event)
    requires ValidProc(p) && IsRequestAvailable(p.tx) && e.GattRead? && Step(target, p, e).status == Done
    ensures !p.terminal
    ensures var q := Prepare(target, p, e.readEnv);
            && q.status == Done && ValidProc(q.proc)
            && Step(target, q.proc, e).status == Done && Step(target, q.proc, e).proc == Step(target, p, e).proc
            && Step(target, q.proc, e).packet == Step(target, p, e).packet
  {
    hide Process, Read, Write;
    PrepareKeepsValid(target, p, e.readEnv);
  }

  /** The message is the answer, with the body as far as it was sent. */
  predicate Conveys(m: Option<Fragmentation.Message>, tid: byte, answer: Answer, buffer: seq<byte>, complete: bool) {
    && answer.Answer? && m.Some? && m.value.tid == tid && m.value.status == answer.status
    && var total := if answer.body.Some? then answer.body.value else 0;
       && total <= |buffer| && m.value.total == total && m.value.body <= buffer[..total]
       && (complete ==> m.value.body == buffer[..total])
  }

  /** Any complete request: the answer arrives with the request's identifier, or the session is over. */
  lemma AnswerArrives(target: Target, p: Proc, events: seq<Event>)
    requires ValidProc(p) && IsRequestAvailable(p.tx) && p.timer
    requires events != [] && Respond(target, p, events).Some?
    ensures events[0].GattRead?
    ensures var r := Process(target, events[0].readEnv, p.transient, p.tx, p.multi, p.scratch);
            var done := Respond(target, p, events).value;
            Conveys(Fragmentation.Reassemble(done.packets), p.tx.slot.tid, r.answer, r.scratch,
                    done.proc.tx.state == WaitingForInitialWrite)
  {
    hide Process, Respond, Fragmentation.Reassemble;
    RespondPrepared(target, p, events);
    var q := Prepare(target, p, events[0].readEnv).proc;
    ResponseArrives(target, q, events);
  }

  // What a controller sees.

  /** The writes are accepted and carry a complete request for the characteristic, with a body that fits. */
  predicate IsRequest(target: Target, scratch: seq<byte>, writes: seq<seq<byte>>, opcode: byte) {
    && writes != [] && |writes[0]| >= REQUEST_HEADER_BYTES
    && Fragmentation.WriteAll(Completion.Start(scratch), writes).Some?
    && writes[0][1] == opcode && ReadLittleUInt16(writes[0], 3) == target.characteristicIid
    && |Fragmentation.BodySent(writes)| == Fragmentation.DeclaredLength(writes[0]) <= |scratch|
  }

  /** The procedure after a request was sent. */
  function AfterRequest(target: Target, scratch: seq<byte>, secured: bool, writes: seq<seq<byte>>): (p: Proc)
    ensures ValidProc(p)
  {
    RunAll(target, scratch, false, AllSent(writes, secured)).proc
  }

  lemma RequestIsThere(target: Target, scratch: seq<byte>, secured: bool, writes: seq<seq<byte>>, opcode: byte)
    requires !target.dropsSecuritySession && IsRequest(target, scratch, writes, opcode)
    ensures var p := AfterRequest(target, scratch, secured, writes);
            var body := Fragmentation.BodySent(writes);
            && writes != [] && |writes[0]| >= 5 && |body| <= |scratch|
            && IsRequestAvailable(p.tx) && p.timer && !p.transient && p.multi == NoneActive
            && p.tx.slot.opcode == opcode && p.tx.slot.tid == writes[0][2]
            && p.tx.slot.iid == target.characteristicIid && p.tx.slot.totalBodyBytes == |body|
            && p.tx.slot.maxBodyBytes == |scratch| == |p.scratch| && p.scratch[..|body|] == body
  {
    hide Fragmentation.WriteAll, RunAll, AllSent, Fragmentation.BodySent;
    RequestArrives(target, scratch, secured, writes);
    Fragmentation.RequestIsReassembled(true, |scratch|, scratch, writes);
  }

  /** The first `n` bytes that a handler left in the buffer. */
  function Left(env: ReadEnv, n: nat): (s: seq<byte>)
    ensures |s| == n && (n <= |env.scratch| ==> s == env.scratch[..n])
  {
    seq(n, k => if 0 <= k < |env.scratch| then env.scratch[k] else 0)
  }

  /** A response with a body, which is complete once the exchange is. */
  predicate Carries(m: Fragmentation.Message, complete: bool, body: seq<byte>) {
    m.status == 0x00 && m.total == |body| && m.body <= body && (complete ==> m.body == body)
  }

  predicate Bare(m: Fragmentation.Message) {
    m.total == 0 && m.body == []
  }

  /** The message carries the value if the read is permitted and the handler succeeds; otherwise it has no body. */
  predicate ReportsRead(target: Target, env: ReadEnv, size: nat, m: Fragmentation.Message, complete: bool) {
    if ReadPermitted(target, env, false) && HasBody(env, size) then
      Carries(m, complete, Left(env, env.serialized.value))
    else
      && Bare(m)
      && (m.status == 0x06 <==> ReadPermitted(target, env, false))
      && (m.status == 0x01 <==> !target.readable && (env.secured || !target.readableWithoutSecurity))
      && m.status in {0x01, 0x05, 0x06}
  }

  /**
   * A Characteristic-Read, in any fragments and packets, secured or not: the response has the identifier of the
   * request and reports the value or why there is none.
   */
  lemma ReadIsAnswered(target: Target, scratch: seq<byte>, secured: bool, writes: seq<seq<byte>>, events: seq<Event>)
    requires !target.dropsSecuritySession && IsRequest(target, scratch, writes, 0x03)
    requires events != [] && Respond(target, AfterRequest(target, scratch, secured, writes), events).Some?
    ensures events[0].GattRead?
    ensures var done := Respond(target, AfterRequest(target, scratch, secured, writes), events).value;
            var m := Fragmentation.Reassemble(done.packets);
            && m.Some? && m.value.tid == writes[0][2]
            && ReportsRead(target, events[0].readEnv, |scratch|, m.value, done.proc.tx.state == WaitingForInitialWrite)
  {
    hide *;
    var p := AfterRequest(target, scratch, secured, writes);
    RequestIsThere(target, scratch, secured, writes, 0x03);
    AnswerArrives(target, p, events);
    ReadIsProcessed(target, events[0].readEnv, p);
    var done := Respond(target, p, events).value;
    ReadMessage(target, events[0].readEnv, p.scratch, Fragmentation.Reassemble(done.packets), writes[0][2],
                done.proc.tx.state == WaitingForInitialWrite);
  }

  lemma ReadIsProcessed(target: Target, env: ReadEnv, p: Proc)
    requires ValidProc(p) && IsRequestAvailable(p.tx) && !p.transient && p.multi == NoneActive
    requires p.tx.slot.opcode == 0x03 && p.tx.slot.iid == target.characteristicIid
    requires p.tx.slot.totalBodyBytes <= p.tx.slot.maxBodyBytes == |p.scratch|
    ensures Process(target, env, p.transient, p.tx, p.multi, p.scratch)
         == ProcessRead(target, env, false, p.scratch, true)
  {
    RejectionOutcome(target, env, false, p.tx, NoneActive, p.scratch);
    DispatchOutcome(target, env, false, 0x03, p.tx.slot.totalBodyBytes, p.scratch);
    hide ProcessRead, Dispatch, Process;
  }

  lemma ReadMessage(target: Target, env: ReadEnv, scratch: seq<byte>, m: Option<Fragmentation.Message>, tid: byte,
      complete: bool)
    requires var r := ProcessRead(target, env, false, scratch, true); Conveys(m, tid, r.answer, r.scratch, complete)
    ensures m.Some? && m.value.tid == tid && ReportsRead(target, env, |scratch|, m.value, complete)
  {
    ReadOutcomeIff(target, env, false, scratch, true);
    ReadRefusedIff(target, env, false, scratch, true);
    LeftInBuffer(env, scratch, ProcessRead(target, env, false, scratch, true).scratch);
    hide ProcessRead, WorkedIn, Left;
  }

  /**
   * A message of success means that the application took the value, and carries what was read after it if the request
   * wanted that; 0x03 means that the application refused it.
   */
  predicate ReportsWrite(target: Target, env: ReadEnv, body: seq<byte>, size: nat, m: Fragmentation.Message,
      complete: bool)
    requires |body| <= size
  {
    var f := ParseFields(body, target.supportsAuthData);
    var handed := WritePermitted(target, env, false, false) && HandedOver(target, env, body, size - |body|, None);
    var answering := f.Some? && (f.value.returnResponse || target.supportsWriteResponse);
    && (m.status == 0x00 <==>
          && handed && env.result == Taken
          && (answering ==> ReadPermitted(target, env, false) && HasBody(env, size)))
    && (m.status == 0x03 <==> handed && env.result == Unauthorized)
    && if m.status == 0x00 && f.value.returnResponse then Carries(m, complete, Left(env, env.serialized.value))
       else Bare(m)
  }

  /** A Characteristic-Write, in any fragments and packets, secured or not. */
  lemma WriteIsAnswered(target: Target, scratch: seq<byte>, secured: bool, writes: seq<seq<byte>>, events: seq<Event>)
    requires !target.dropsSecuritySession && IsRequest(target, scratch, writes, 0x02)
    requires events != [] && Respond(target, AfterRequest(target, scratch, secured, writes), events).Some?
    ensures events[0].GattRead?
    ensures var done := Respond(target, AfterRequest(target, scratch, secured, writes), events).value;
            var m := Fragmentation.Reassemble(done.packets);
            && m.Some? && m.value.tid == writes[0][2]
            && ReportsWrite(target, events[0].readEnv, Fragmentation.BodySent(writes), |scratch|, m.value,
                            done.proc.tx.state == WaitingForInitialWrite)
  {
    hide *;
    var p := AfterRequest(target, scratch, secured, writes);
    var body := Fragmentation.BodySent(writes);
    RequestIsThere(target, scratch, secured, writes, 0x02);
    AnswerArrives(target, p, events);
    var env := events[0].readEnv;
    WriteIsProcessed(target, env, p, |body|);
    var done := Respond(target, p, events).value;
    WriteMessage(target, env, p.scratch, |body|, Fragmentation.Reassemble(done.packets), writes[0][2],
                 done.proc.tx.state == WaitingForInitialWrite);
  }

  lemma WriteIsProcessed(target: Target, env: ReadEnv, p: Proc, numBytes: nat)
    requires ValidProc(p) && IsRequestAvailable(p.tx) && !p.transient && p.multi == NoneActive
    requires p.tx.slot.opcode == 0x02 && p.tx.slot.iid == target.characteristicIid
    requires p.tx.slot.totalBodyBytes == numBytes <= p.tx.slot.maxBodyBytes == |p.scratch|
    ensures Process(target, env, p.transient, p.tx, p.multi, p.scratch)
         == ProcessWrite(target, env, false, p.scratch, numBytes, None)
  {
    RejectionOutcome(target, env, false, p.tx, NoneActive, p.scratch);
    DispatchOutcome(target, env, false, 0x02, numBytes, p.scratch);
    hide ProcessWrite, Dispatch, Process;
  }

  lemma LeftInBuffer(env: ReadEnv, before: seq<byte>, after: seq<byte>)
    ensures WorkedIn(before, after, env) && HasBody(env, |before|) ==>
              |after| == |before| && after[..env.serialized.value] == Left(env, env.serialized.value)
  {
  }

  lemma WriteMessage(target: Target, env: ReadEnv, scratch: seq<byte>, numBytes: nat, m: Option<Fragmentation.Message>,
      tid: byte, complete: bool)
    requires numBytes <= |scratch|
    requires var r := ProcessWrite(target, env, false, scratch, numBytes, None);
             Conveys(m, tid, r.answer, r.scratch, complete)
    ensures m.Some? && m.value.tid == tid
    ensures ReportsWrite(target, env, scratch[..numBytes], |scratch|, m.value, complete)
  {
    WriteAnswers(target, env, scratch, numBytes);
    LeftInBuffer(env, scratch, ProcessWrite(target, env, false, scratch, numBytes, None).scratch);
    hide ProcessWrite, WorkedIn, Left, HandedOver, WritePermitted, ReadPermitted, ParseFields;
  }

  /** The answers to a plain write, put together. */
  lemma WriteAnswers(target: Target, env: ReadEnv, scratch: seq<byte>, numBytes: nat)
    requires numBytes <= |scratch|
    ensures var r := ProcessWrite(target, env, false, scratch, numBytes, None);
            var body := scratch[..numBytes];
            var f := ParseFields(body, target.supportsAuthData);
            var handed := WritePermitted(target, env, false, false)
                          && HandedOver(target, env, body, |scratch| - |body|, None);
            var answering := f.Some? && (f.value.returnResponse || target.supportsWriteResponse);
            r.answer.Answer? ==>
              && (r.answer.status == 0x00 <==>
                    && handed && env.result == Taken
                    && (answering ==> ReadPermitted(target, env, false) && HasBody(env, |scratch|)))
              && (r.answer.status == 0x03 <==> handed && env.result == Unauthorized)
              && (r.answer.body == if r.answer.status == 0x00 && f.value.returnResponse then env.serialized else None)
              && (r.answer.status == 0x00 && f.value.returnResponse ==> WorkedIn(scratch, r.scratch, env))
  {
    hide ProcessWrite, ParseFields, HandedOver;
    if !WritePermitted(target, env, false, false) {
      ForbiddenWriteAnswers(target, env, false, scratch, numBytes, None);
    } else if !HandedOver(target, env, scratch[..numBytes], |scratch| - numBytes, None) {
      MalformedWriteAnswers(target, env, false, scratch, numBytes, None);
    } else if env.result == Taken {
      HandedOverParses(target, env, scratch[..numBytes], |scratch| - numBytes, None);
      TakenValueAnswers(target, env, false, scratch, numBytes, None);
    } else {
      HandedOverParses(target, env, scratch[..numBytes], |scratch| - numBytes, None);
      RefusedValueAnswers(target, env, false, scratch, numBytes, None);
    }
  }

  lemma HandedOverParses(target: Target, env: ReadEnv, body: seq<byte>, room: nat, startTime: Option<nat>)
    requires HandedOver(target, env, body, room, startTime)
    ensures ParseFields(body, target.supportsAuthData).Some? && env.result != OutsideConstraints
  {
  }
}
