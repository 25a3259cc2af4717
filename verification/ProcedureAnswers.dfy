/**
 * What a procedure answers: the outcome of every kind of request, stated over the properties of the characteristic,
 * the session and the request alone.
 */
module ProcedureAnswers {
  import opened Bytes
  import opened TransactionModel
  import opened ProcedureModel
  import opened WriteFields
  import opened ValueFormats

  // Who may do what.

  /** Unsecured sessions need a permission of their own, secured ones the ordinary one, some values an administrator. */
  predicate ReadPermitted(target: Target, env: ReadEnv, transient: bool) {
    && !transient
    && (if env.secured then target.readable else target.readableWithoutSecurity)
    && (target.readRequiresAdmin ==> env.admin)
  }

  /** Likewise; Identify may be written without security exactly while unpaired, and some values need a Timed Write. */
  predicate WritePermitted(target: Target, env: ReadEnv, transient: bool, timed: bool) {
    && !transient
    && (if env.secured then target.writable
        else if target.isIdentify then !env.paired
        else target.writableWithoutSecurity)
    && (target.writeRequiresAdmin ==> env.admin)
    && (target.requiresTimedWrite ==> timed)
  }

  lemma WritePermittedIff(target: Target, env: ReadEnv, transient: bool, timed: bool)
    ensures WritePermitted(target, env, transient, timed) <==> !transient && WriteRejection(target, env, timed).None?
  {
  }

  /** The request fits, has a known opcode and addresses the characteristic or its service. */
  predicate Addresses(target: Target, tx: Tx)
    requires tx.slot.RequestSlot?
  {
    var opcode := tx.slot.opcode;
    && tx.slot.totalBodyBytes <= tx.slot.maxBodyBytes
    && (0x01 <= opcode <= 0x08 || 0x10 <= opcode <= 0x12)
    && (opcode == 0x06
        || tx.slot.iid == if opcode == 0x08 then target.serviceIid else target.characteristicIid)
  }

  /** The handler's response body is there and fits into the buffer. */
  predicate HasBody(env: ReadEnv, size: nat) {
    env.serialized.Some? && env.serialized.value <= size
  }

  /** The buffer after a handler worked in it: what the handler left, as far as that goes. */
  predicate WorkedIn(before: seq<byte>, after: seq<byte>, env: ReadEnv) {
    |after| == |before| && forall k :: 0 <= k < |after| ==> after[k] == if k < |env.scratch| then env.scratch[k] else 0
  }

  // Reads.

  /** A read answers with the value exactly if it is permitted and the handler succeeds. */
  lemma ReadOutcomeIff(target: Target, env: ReadEnv, transient: bool, scratch: seq<byte>, wanted: bool)
    ensures var r := ProcessRead(target, env, transient, scratch, wanted);
            && (r.answer == Answer(0x00, if wanted then env.serialized else None)
                <==> ReadPermitted(target, env, transient) && HasBody(env, |scratch|))
            && (r.answer.status == 0x00 <==> ReadPermitted(target, env, transient) && HasBody(env, |scratch|))
            && (r.answer == Answer(0x06, None)
                <==> ReadPermitted(target, env, transient) && !HasBody(env, |scratch|))
            && (ReadPermitted(target, env, transient) ==>
                  && WorkedIn(scratch, r.scratch, env)
                  && r.transient == (target.dropsSecuritySession && env.transientAfter))
            && (!ReadPermitted(target, env, transient) ==> r.scratch == scratch && r.transient == transient)
  {
  }

  /** The status of a read that is not permitted: 0x05 where another session could read, 0x01 where none could. */
  lemma ReadRefusedIff(target: Target, env: ReadEnv, transient: bool, scratch: seq<byte>, wanted: bool)
    ensures var answer := ProcessRead(target, env, transient, scratch, wanted).answer;
            && (answer == Answer(0x05, None) <==>
                  && !transient && !ReadPermitted(target, env, transient)
                  && (env.secured ==> target.readable)
                  && (!env.secured ==> target.readableWithoutSecurity || target.readable))
            && (answer == Answer(0x01, None) <==>
                  || transient
                  || (env.secured && !target.readable)
                  || (!env.secured && !target.readableWithoutSecurity && !target.readable))
  {
  }

  // Writes.

  /** The fields of the body if it parses, its texts fit behind it and nothing speaks against its value. */
  predicate HandedOver(target: Target, env: ReadEnv, body: seq<byte>, room: nat, startTime: Option<nat>) {
    && ParseFields(body, target.supportsAuthData).Some?
    && var f := ParseFields(body, target.supportsAuthData).value;
       && TotalSpace(f) <= room && |f.value| <= 64000 && Conforms(target.format, f.value)
       && (startTime.Some? ==> f.ttl != 0 && env.now <= startTime.value + 100 * f.ttl)
       && !env.result.OutsideConstraints?
  }

  /** The application is called exactly if the write is permitted and its body in order. */
  lemma HandedOverIff(target: Target, env: ReadEnv, transient: bool, scratch: seq<byte>, numBytes: nat,
      startTime: Option<nat>)
    requires numBytes <= |scratch|
    ensures var r := ProcessWrite(target, env, transient, scratch, numBytes, startTime);
            var body, room := scratch[..numBytes], |scratch| - numBytes;
            r.entries == if WritePermitted(target, env, transient, startTime.Some?)
                            && HandedOver(target, env, body, room, startTime)
                         then [Handed(body, ParseFields(body, target.supportsAuthData).value, startTime.Some?, env.now)]
                         else []
  {
    hide ParseFields, Conforms, AfterWrite, Used;
  }

  /** A value that was not taken leads to 0x03 if the application says so, and to 0x06 otherwise. */
  lemma RefusedValueAnswers(target: Target, env: ReadEnv, transient: bool, scratch: seq<byte>, numBytes: nat,
      startTime: Option<nat>)
    requires numBytes <= |scratch| && env.result != Taken
    requires WritePermitted(target, env, transient, startTime.Some?)
    requires HandedOver(target, env, scratch[..numBytes], |scratch| - numBytes, startTime)
    ensures var r := ProcessWrite(target, env, transient, scratch, numBytes, startTime);
            r.answer == Answer(if env.result == Unauthorized then 0x03 else 0x06, None)
  {
    hide ParseFields, Conforms, Used;
  }

  /**
   * A value that was taken is answered without a body, unless a response is wanted or the characteristic supports one:
   * then the value is read, and the answer is that of the read, with its body only if it is wanted.
   */
  lemma TakenValueAnswers(target: Target, env: ReadEnv, transient: bool, scratch: seq<byte>, numBytes: nat,
      startTime: Option<nat>)
    requires numBytes <= |scratch| && env.result == Taken
    requires WritePermitted(target, env, transient, startTime.Some?)
    requires HandedOver(target, env, scratch[..numBytes], |scratch| - numBytes, startTime)
    ensures var r := ProcessWrite(target, env, transient, scratch, numBytes, startTime);
            var wanted := ParseFields(scratch[..numBytes], target.supportsAuthData).value.returnResponse;
            if !wanted && !target.supportsWriteResponse then
              r.answer == Answer(0x00, None) && r.transient == transient
            else
              && r.answer.Answer?
              && (r.answer.status == 0x00 <==> ReadPermitted(target, env, transient) && HasBody(env, |scratch|))
              && (r.answer.status == 0x00 ==> r.answer.body == if wanted then env.serialized else None)
              && (r.answer.status != 0x00 ==> r.answer.body.None?)
              && (r.answer.status == 0x06 <==> ReadPermitted(target, env, transient) && !HasBody(env, |scratch|))
              && (r.answer.status == 0x01 <==>
                    !target.readable && (env.secured || !target.readableWithoutSecurity))
              && r.answer.status in {0x00, 0x01, 0x05, 0x06}
              && (ReadPermitted(target, env, transient) ==> WorkedIn(scratch, r.scratch, env))
  {
    hide ParseFields, Conforms;
  }

  /** Without permission the body is not looked at: 0x06 only asks for a Timed Write, 0x05 for another session. */
  lemma ForbiddenWriteAnswers(target: Target, env: ReadEnv, transient: bool, scratch: seq<byte>, numBytes: nat,
      startTime: Option<nat>)
    requires numBytes <= |scratch| && !WritePermitted(target, env, transient, startTime.Some?)
    ensures var r := ProcessWrite(target, env, transient, scratch, numBytes, startTime);
            && r.scratch == scratch && r.transient == transient && r.answer.Answer? && r.answer.body.None?
            && (r.answer.status == 0x06 <==>
                  WritePermitted(target, env, transient, true) && startTime.None? && target.requiresTimedWrite)
            && (r.answer.status == 0x01 <==>
                  || transient
                  || (!target.writable
                      && (env.secured || !(if target.isIdentify then !env.paired else target.writableWithoutSecurity))))
            && r.answer.status in {0x01, 0x05, 0x06}
  {
  }

  /** With permission, a body that is not in order is answered with 0x01 if its time is over, otherwise with 0x06. */
  lemma MalformedWriteAnswers(target: Target, env: ReadEnv, transient: bool, scratch: seq<byte>, numBytes: nat,
      startTime: Option<nat>)
    requires numBytes <= |scratch| && WritePermitted(target, env, transient, startTime.Some?)
    requires !HandedOver(target, env, scratch[..numBytes], |scratch| - numBytes, startTime)
    ensures var r := ProcessWrite(target, env, transient, scratch, numBytes, startTime);
            var f := ParseFields(scratch[..numBytes], target.supportsAuthData);
            && (r.answer.Overrun? <==> f.Some? && TotalSpace(f.value) > |scratch| - numBytes)
            && (!r.answer.Overrun? ==>
                  r.answer == Answer(
                    if f.Some? && startTime.Some? && f.value.ttl != 0 && env.now > startTime.value + 100 * f.value.ttl
                    then 0x01 else 0x06, None))
            && r.transient == transient
  {
    hide ParseFields, Conforms, Used;
  }

  /** Texts are moved astray exactly if the write is permitted and they do not fit behind the body. */
  lemma OverrunsIff(target: Target, env: ReadEnv, transient: bool, scratch: seq<byte>, numBytes: nat,
      startTime: Option<nat>)
    requires numBytes <= |scratch|
    ensures var f := ParseFields(scratch[..numBytes], target.supportsAuthData);
            ProcessWrite(target, env, transient, scratch, numBytes, startTime).answer.Overrun? <==>
              && WritePermitted(target, env, transient, startTime.Some?)
              && f.Some? && numBytes + TotalSpace(f.value) > |scratch|
  {
    WritePermittedIff(target, env, transient, startTime.Some?);
    hide WriteRejection, WritePermitted, ParseFields, FieldsRejection, Used;
  }

  // Other requests.

  /** Opcodes are those of Table 7-8 of HAP Specification R14, and the status codes those of Table 7-37. */
  predicate RequestPermitted(target: Target, env: ReadEnv, transient: bool, opcode: byte) {
    match opcode
    case 0x01 => !(env.secured && target.dropsSecuritySession)
    case 0x06 => target.isServiceSignature
    case 0x07 => env.secured && !transient
    case 0x08 => env.secured && !transient && target.isServiceSignature && target.serviceSupportsConfiguration
    case _ => env.secured && target.isServiceSignature && target.inProtocolInformation
  }

  /** The answer to a permitted request that neither reads nor writes the value. */
  predicate AnswersRequest(answer: Answer, env: ReadEnv, opcode: byte, size: nat) {
    if opcode in {0x07, 0x08, 0x11} && !env.configured then answer == Answer(0x06, None)
    else if opcode == 0x11 || (opcode == 0x08 && !env.getAllParams) then answer == Answer(0x00, None)
    else answer == if HasBody(env, size) then Answer(0x00, env.serialized) else Answer(0x06, None)
  }

  /** Everything that is processed while nothing is pending, by opcode. */
  lemma DispatchOutcome(target: Target, env: ReadEnv, transient: bool, opcode: byte, numBytes: nat, scratch: seq<byte>)
    requires numBytes <= |scratch| && (0x01 <= opcode <= 0x08 || 0x10 <= opcode <= 0x12)
    ensures IsValidOpcode(opcode)
    ensures var r := Dispatch(target, env, transient, opcode, numBytes, NoneActive, scratch);
            match opcode
            case 0x02 => r == ProcessWrite(target, env, transient, scratch, numBytes, None)
            case 0x03 => r == ProcessRead(target, env, transient, scratch, true)
            case 0x04 =>
              r == if transient then Processed(Answer(0x01, None), NoneActive, transient, scratch, [])
                   else Processed(Answer(0x00, None), TimedWrite(env.now, numBytes), transient, scratch,
                                  [Deferred(scratch[..numBytes], env.now)])
            case 0x05 => r == Processed(Refusal, NoneActive, transient, scratch, [])
            case _ =>
              && r.multi == NoneActive && r.transient == transient && r.entries == []
              && (if RequestPermitted(target, env, transient, opcode) then
                    AnswersRequest(r.answer, env, opcode, |scratch|) && WorkedIn(scratch, r.scratch, env)
                  else r.answer == Answer(0x01, None) && r.scratch == scratch)
  {
    hide ProcessWrite, ProcessRead;
  }

  /** While a Timed Write is pending, only its execution is processed; anything else ends the session. */
  lemma PendingOutcome(target: Target, env: ReadEnv, transient: bool, opcode: byte, numBytes: nat, multi: Multi,
      scratch: seq<byte>)
    requires numBytes <= |scratch| && (0x01 <= opcode <= 0x08 || 0x10 <= opcode <= 0x12)
    requires multi.TimedWrite? && multi.numBytes <= |scratch|
    ensures IsValidOpcode(opcode)
    ensures var r := Dispatch(target, env, transient, opcode, numBytes, multi, scratch);
            if opcode != 0x05 then r == Processed(Refusal, multi, transient, scratch, [])
            else if transient then r.answer == Breakdown
            else r == ProcessWrite(target, env, transient, scratch, multi.numBytes, Some(multi.startTime))
  {
    hide ProcessWrite, ProcessRead;
  }

  /**
   * A request is refused before it is dispatched if its body is too large (0x06), its opcode unknown (0x01) or its
   * instance another one (0x04); only Service-Signature-Read may address any instance.
   */
  lemma RejectionOutcome(target: Target, env: ReadEnv, transient: bool, tx: Tx, multi: Multi, scratch: seq<byte>)
    requires Valid(tx) && IsRequestAvailable(tx) && tx.slot.maxBodyBytes <= |scratch|
    requires multi.TimedWrite? ==> multi.numBytes <= |scratch|
    ensures var r := Process(target, env, transient, tx, multi, scratch);
            var opcode := tx.slot.opcode;
            if Addresses(target, tx) then
              && IsValidOpcode(opcode)
              && r == Dispatch(target, env, transient, opcode, tx.slot.totalBodyBytes, multi, scratch)
            else
              r == Processed(
                Answer(if tx.slot.totalBodyBytes > tx.slot.maxBodyBytes then 0x06
                       else if !(0x01 <= opcode <= 0x08 || 0x10 <= opcode <= 0x12) then 0x01
                       else 0x04, None),
                multi, transient, scratch, [])
  {
    hide Dispatch;
  }

  /** Whatever is processed: the application is called only by a write that is permitted, and with the stored body. */
  lemma OnlyPermittedWritesAreHanded(target: Target, p: Proc, env: ReadEnv, k: nat)
    requires ValidProc(p) && k < |Prepare(target, p, env).entries|
    ensures var entry := Prepare(target, p, env).entries[k];
            entry.Handed? ==>
              && WritePermitted(target, env, p.transient, entry.timed)
              && (if entry.timed then p.multi.TimedWrite? && entry.body == p.scratch[..p.multi.numBytes]
                  else entry.body == p.scratch[..p.tx.slot.totalBodyBytes])
              && HandedOver(target, env, entry.body, |p.scratch| - |entry.body|,
                            if entry.timed then Some(p.multi.startTime) else None)
              && entry.fields == ParseFields(entry.body, target.supportsAuthData).value && entry.time == env.now
  {
    hide ProcessWrite, ProcessRead, HandedOver, WritePermitted, ParseFields, OtherRequest;
    RejectionOutcome(target, env, p.transient, p.tx, p.multi, p.scratch);
    if Addresses(target, p.tx) {
      match p.multi
      case TimedWrite(startTime, numBytes) =>
        HandedOverIff(target, env, p.transient, p.scratch, numBytes, Some(startTime));
      case NoneActive =>
        HandedOverIff(target, env, p.transient, p.scratch, p.tx.slot.totalBodyBytes, None);
    }
  }

  // Sessions and timers.

  /** The first write of a procedure: refused shortly before the session ends, and without a timer. */
  lemma StartIff(target: Target, p: Proc, env: WriteEnv)
    ensures var (status, q) := Start(target, p, env);
            var drops := env.secured && target.dropsSecuritySession;
            && (status == Failed(InvalidState) <==> env.terminalSoon)
            && (status == Failed(OutOfResources) <==> !env.terminalSoon && !env.procedureTimerStarts)
            && status in {Done, Failed(InvalidState), Failed(OutOfResources)}
            && (env.terminalSoon ==> q == p)
            && (!env.terminalSoon ==>
                  && q.startedSecured == (env.secured && !target.dropsSecuritySession) && q.scratch == p.scratch
                  && (drops ==> q.multi == NoneActive && q.tx == Created(true, |p.scratch|) && !q.transient)
                  && (!drops ==> q.multi == p.multi && q.tx == p.tx && q.transient == p.transient)
                  && q.timer == (status == Done || (p.timer && !drops))
                  && q.terminal == (p.terminal || (status == Done && q.startedSecured && !env.linkTimerStarts)))
  {
  }

  /** A write to a procedure in progress succeeds exactly if it can be decrypted and its packet is expected. */
  lemma GattWriteSucceedsIff(target: Target, p: Proc, bytes: seq<byte>, env: WriteEnv)
    requires ValidProc(p) && p.timer
    ensures var r := Step(target, p, GattWrite(bytes, env));
            var readable := p.startedSecured ==> |bytes| >= 16 && env.plaintext.Ok?;
            && (r.status == Done <==>
                  && !p.terminal && readable
                  && Expects(p.tx, if p.startedSecured then env.plaintext.value else bytes))
            && (p.terminal ==> r.status == Failed(InvalidState))
            && (!p.terminal && !readable ==>
                  r.status == if |bytes| < 16 then Failed(InvalidData) else Failed(env.plaintext.error))
            && (r.status != Done ==> r.proc.terminal) && (r.status == Done ==> !r.proc.terminal)
            && r.proc.multi == p.multi && r.proc.timer == p.timer && r.proc.transient == p.transient
            && r.proc.startedSecured == p.startedSecured && r.packet == [] && r.entries == []
  {
    hide Write, Expects, ValidProc, Stored;
    if p.startedSecured && env.plaintext.Err? {
      return;
    }
    assert Valid(p.tx) by { TxIsValid(p); }
    WriteSucceedsIff(p.tx, if p.startedSecured then env.plaintext.value else bytes);
  }

  lemma TxIsValid(p: Proc)
    requires ValidProc(p)
    ensures Valid(p.tx)
  {
  }

  /** A read needs a live session and, if that is secured, room for the authentication tag. */
  lemma GattReadRefusedIff(target: Target, p: Proc, maxBytes: nat, env: ReadEnv)
    requires ValidProc(p)
    ensures p.terminal || (p.startedSecured && maxBytes < 16) ==>
              var r := Step(target, p, GattRead(maxBytes, env));
              && r.status == (if p.terminal then Failed(InvalidState) else Failed(OutOfResources))
              && r.proc == p.(terminal := true) && r.packet == [] && r.entries == []
  {
    hide Process, Send;
  }

  /**
   * Sending a packet: it must be encrypted over a secured session, the final one ends the procedure unless a Timed
   * Write is pending, and a procedure that ends over a session that lost its security ends the session.
   */
  lemma SendIff(p: Proc, maxBytes: nat, env: ReadEnv)
    requires ValidProc(p) && p.timer
    ensures var r := Send(p, maxBytes, env);
            var sent := Read(p.tx, p.scratch, maxBytes);
            var ends := sent.isFinalFragment && p.multi.NoneActive?;
            && (r.status == Done <==> sent.status == Done && (p.startedSecured ==> env.encrypted))
            && (sent.status != Done ==> r.status == sent.status)
            && (sent.status == Done && r.status != Done ==> r.status == Failed(InvalidState))
            && (r.status == Done ==>
                  && r.packet == sent.packet
                  && r.proc.timer == !ends
                  && r.proc.tx == (if ends then Created(true, |p.scratch|)
                                   else if sent.isFinalFragment then Created(false, 0)
                                   else sent.tx)
                  && r.proc.terminal == (p.terminal || (ends && p.startedSecured && !env.securedAfter)))
            && r.proc.multi == p.multi && r.proc.scratch == p.scratch && r.proc.transient == p.transient
  {
    hide Read;
  }

  /** The final fragment of a procedure whose timer is gone runs into an assertion, unless a Timed Write is pending. */
  lemma CompletionAbortsIff(p: Proc)
    ensures CompleteTransaction(p).0 == Aborted <==> p.multi.NoneActive? && !p.timer
    ensures CompleteTransaction(p).0 in {Done, Aborted}
  {
  }

  /** The timeout of a procedure ends the session and forgets everything else. */
  lemma TimeoutOutcome(target: Target, p: Proc)
    requires ValidProc(p)
    ensures var r := Step(target, p, TimerExpired);
            && r.status == Done && r.packet == [] && r.entries == []
            && r.proc == if p.timer then Proc(false, NoneActive, false, Created(true, |p.scratch|), p.scratch, true,
                                              p.transient)
                         else p
  {
  }

  /** The first write of a procedure starts it or fails as starting does. */
  lemma FirstGattWriteOutcome(target: Target, p: Proc, bytes: seq<byte>, env: WriteEnv)
    requires ValidProc(p) && !p.timer && !p.terminal
    ensures var (status, q) := Start(target, p, env);
            var r := Step(target, p, GattWrite(bytes, env));
            if status != Done then
              r.status == status && r.proc == q.(terminal := true) && r.fragment == [] && r.packet == []
            else
              && ValidProc(q)
              && (q.terminal || r == Step(target, q, GattWrite(bytes, env)))
  {
    hide Write, Stored;
  }

  /** A packet that is accepted changes the transaction, and the buffer if the transaction has it. */
  lemma GattWriteOutcome(target: Target, p: Proc, bytes: seq<byte>, env: WriteEnv)
    requires ValidProc(p) && p.timer && !p.terminal
    requires p.startedSecured ==> |bytes| >= 16 && env.plaintext.Ok?
    ensures var r := Step(target, p, GattWrite(bytes, env));
            var w := Write(p.tx, if p.startedSecured then env.plaintext.value else bytes);
            && r.status == w.status && r.fragment == w.fragment
            && r.proc == p.(tx := w.tx, terminal := w.status != Done,
                            scratch := if p.tx.slot.RequestSlot? && p.tx.slot.hasBuffer then Stored(p.scratch, w)
                                       else p.scratch)
  {
    hide Write, Stored;
  }

  /** A request is processed by the first read after it is complete, and the answer takes its place. */
  lemma GattReadOutcome(target: Target, p: Proc, maxBytes: nat, env: ReadEnv)
    requires ValidProc(p) && IsRequestAvailable(p.tx) && !p.terminal && (p.startedSecured ==> maxBytes >= 16)
    ensures var r := Step(target, p, GattRead(maxBytes, env));
            var done := Process(target, env, p.transient, p.tx, p.multi, p.scratch);
            match done.answer
            case Refusal =>
              && r.status == Failed(InvalidState) && r.packet == [] && r.entries == []
              && r.proc == p.(tx := p.tx.(state := HandlingRequest), terminal := true)
            case Answer(status, body) =>
              var numBytes := if body.Some? then body.value else 0;
              var q := p.(tx := Tx(WaitingForInitialRead, ResponseSlot(p.tx.slot.tid, status, body.Some?, numBytes, 0)),
                          multi := done.multi, transient := done.transient, scratch := done.scratch);
              var sent := Send(q, if p.startedSecured then maxBytes - 16 else maxBytes, env);
              && ValidProc(q)
              && r.status == sent.status && r.packet == sent.packet && r.entries == done.entries
              && r.proc == sent.proc.(terminal := sent.proc.terminal || sent.status != Done)
            case _ =>
              && r.status == Aborted && r.packet == [] && r.entries == []
              && r.proc.terminal && r.proc.tx == p.tx.(state := HandlingRequest)
              && (done.answer.Overrun? ==>
                    r.proc.multi == done.multi && r.proc.transient == done.transient && r.proc.scratch == done.scratch)
  {
    hide Process, Send;
    PrepareKeepsValid(target, p, env);
  }

  /** Later reads send the rest of the answer and process nothing; without a request there is nothing to read. */
  lemma LaterReadOutcome(target: Target, p: Proc, maxBytes: nat, env: ReadEnv)
    requires ValidProc(p) && !IsRequestAvailable(p.tx) && !p.terminal && (p.startedSecured ==> maxBytes >= 16)
    ensures var r := Step(target, p, GattRead(maxBytes, env));
            var sent := Send(p, if p.startedSecured then maxBytes - 16 else maxBytes, env);
            && r.status == sent.status && r.packet == sent.packet && r.entries == []
            && r.proc == sent.proc.(terminal := sent.proc.terminal || sent.status != Done)
            && (p.tx.slot.RequestSlot? ==> r.status == Failed(InvalidState))
  {
    hide Process, Send;
    if p.tx.slot.RequestSlot? {
      NothingToSend(p, if p.startedSecured then maxBytes - 16 else maxBytes, env);
    }
  }

  lemma NothingToSend(p: Proc, maxBytes: nat, env: ReadEnv)
    requires ValidProc(p) && p.tx.slot.RequestSlot?
    ensures Send(p, maxBytes, env).status == Failed(InvalidState)
  {
  }
}
