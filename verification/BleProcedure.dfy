/** A HAP-BLE procedure: runs transactions on one characteristic and keeps a pending Timed Write. */
module BleProcedure {
  import opened Bytes
  import opened BleTransaction
  import Tx = TransactionModel
  import opened Model = ProcedureModel
  import opened WriteFields
  import opened ValueFormats
  import WriteRequest
  import TlvReader

  class Procedure {
    var target: Target
    const scratchBytes: array<byte>
    const transaction: Transaction
    var procedureTimer: bool
    var multiTransactionType: Multi
    var startedSecured: bool
    var sessionIsTerminal: bool
    var sessionIsTransient: bool

    ghost function View(): Proc
      reads this, transaction, scratchBytes
    {
      Proc(procedureTimer, multiTransactionType, startedSecured, transaction.View(), scratchBytes[..],
           sessionIsTerminal, sessionIsTransient)
    }

    ghost predicate Valid()
      reads this, transaction, scratchBytes
    {
      && transaction.Valid()
      && (transaction.bodyBytes == null || transaction.bodyBytes == scratchBytes)
      && ValidProc(View())
    }

    /** Attaches a procedure to a characteristic. */
    constructor (target: Target, scratchBytes: array<byte>, sessionIsTerminal: bool, sessionIsTransient: bool)
      ensures Valid() && fresh(transaction)
      ensures this.scratchBytes == scratchBytes && this.target == target
      ensures View() == Attached(scratchBytes[..], sessionIsTerminal, sessionIsTransient)
    {
      this.target, this.scratchBytes := target, scratchBytes;
      transaction := new Transaction(scratchBytes);
      procedureTimer, multiTransactionType, startedSecured := false, NoneActive, false;
      this.sessionIsTerminal, this.sessionIsTransient := sessionIsTerminal, sessionIsTransient;
    }

    /** Stops the timer and attaches the procedure to `target` anew. */
    method Attach(target: Target)
      modifies this, transaction
      ensures Valid() && this.target == target
      ensures View() == Attached(scratchBytes[..], old(sessionIsTerminal), old(sessionIsTransient))
    {
      this.target := target;
      procedureTimer, multiTransactionType, startedSecured := false, NoneActive, false;
      transaction.Create(scratchBytes);
    }

    method ProcedureTimerExpired()
      requires Valid() && procedureTimer
      modifies this, transaction
      ensures Valid() && target == old(target)
      ensures View() == Step(target, old(View()), TimerExpired).proc
    {
      Attach(target);
      sessionIsTerminal := true;
    }

    predicate IsInProgress()
      reads this
      ensures IsInProgress() == View().timer
    {
      procedureTimer
    }

    method StartProcedure(env: WriteEnv) returns (status: Tx.Status)
      requires Valid() && !procedureTimer && !sessionIsTerminal
      modifies this, transaction
      ensures Valid() && target == old(target)
      ensures (status, View()) == Start(target, old(View()), env)
    {
      if env.terminalSoon {
        return Tx.Failed(InvalidState);
      }
      var secured := env.secured;
      if secured && target.dropsSecuritySession {
        // Invalidating the session leaves the link without security.
        secured := false;
        sessionIsTransient := false;
        Attach(target);
      }
      startedSecured := secured;
      if !env.procedureTimerStarts {
        return Tx.Failed(OutOfResources);
      }
      procedureTimer := true;
      if secured && !env.linkTimerStarts {
        sessionIsTerminal := true;
      }
      return Tx.Done;
    }

    method HandleGATTWrite(bytes: seq<byte>, env: WriteEnv) returns (status: Tx.Status)
      requires Valid()
      modifies this, transaction, scratchBytes
      ensures Valid() && target == old(target)
      ensures var r := HandleGattWrite(target, old(View()), bytes, env); status == r.status && View() == r.proc
    {
      if sessionIsTerminal {
        return Tx.Failed(InvalidState);
      }
      if !IsInProgress() {
        status := StartProcedure(env);
        if status != Tx.Done {
          return;
        }
      }
      status := HandlePacket(bytes, env);
    }

    method HandlePacket(bytes: seq<byte>, env: WriteEnv) returns (status: Tx.Status)
      requires Valid() && procedureTimer
      modifies transaction, scratchBytes
      ensures Valid()
      ensures var q := old(View());
              var plain := Decrypted(q.startedSecured, bytes, env);
              if plain.Err? then status == Tx.Failed(plain.error) && View() == q else
              var r := Tx.Write(q.tx, plain.value);
              status == r.status
              && View() == q.(tx := r.tx,
                              scratch := if q.tx.slot.RequestSlot? && q.tx.slot.hasBuffer
                                         then Tx.Stored(q.scratch, r) else q.scratch)
    {
      var plain := bytes;
      if startedSecured {
        if |bytes| < TAG_BYTES {
          return Tx.Failed(InvalidData);
        }
        if env.plaintext.Err? {
          return Tx.Failed(env.plaintext.error);
        }
        plain := env.plaintext.value;
      }
      ghost var q := View();
      ghost var r := Tx.Write(q.tx, plain);
      Tx.WriteKeepsValid(q.tx, plain);
      status := transaction.HandleWrite(plain);
    }

    /** Sets the response of the request that is being handled; its body is in the scratch buffer. */
    method Respond(answer: Answer)
      requires Valid() && transaction.state == Tx.HandlingRequest
      requires answer.Answer? && BodyWithin(answer, scratchBytes[..])
      modifies transaction
      ensures Valid()
      ensures View() == old(View()).(tx := Tx.SetResponse(old(View()).tx, answer.status, answer.body))
    {
      if answer.body.None? {
        transaction.SetResponse(answer.status, null, 0);
      } else {
        transaction.SetResponse(answer.status, scratchBytes, answer.body.value);
      }
    }

    /** The scratch buffer is worked in. */
    method UseScratch(env: ReadEnv)
      modifies scratchBytes
      ensures scratchBytes[..] == Used(old(scratchBytes[..]), env)
    {
      forall k | 0 <= k < scratchBytes.Length {
        scratchBytes[k] := if k < |env.scratch| then env.scratch[k] else 0;
      }
    }

    method ReadValue(env: ReadEnv, hasReturnResponse: bool)
      requires Valid() && transaction.state == Tx.HandlingRequest && multiTransactionType == NoneActive
      modifies this`sessionIsTransient, transaction, scratchBytes
      ensures Valid()
      ensures var p := old(View());
              var r := ProcessRead(target, env, p.transient, p.scratch, hasReturnResponse);
              View() == p.(tx := Tx.SetResponse(p.tx, r.answer.status, r.answer.body), transient := r.transient,
                           scratch := r.scratch)
    {
      ReadOutcome(target, env, sessionIsTransient, scratchBytes[..], hasReturnResponse);
      hide ProcessRead, ReadRejection, Serialized, Used, Kept, Tx.SetResponse;
      var rejection := ReadRejection(target, env, sessionIsTransient);
      if rejection.Some? {
        Respond(Answer(rejection.value, None));
        return;
      }
      ReadIntoScratch(env);
      RespondWithValue(env, hasReturnResponse);
    }

    /** Reads the value; for a pairing characteristic this may change the session. */
    method ReadIntoScratch(env: ReadEnv)
      requires Valid()
      modifies this`sessionIsTransient, scratchBytes
      ensures Valid()
      ensures View() == old(View()).(transient := if target.dropsSecuritySession then env.transientAfter
                                                  else old(View()).transient,
                                     scratch := Used(old(View()).scratch, env))
    {
      hide Used;
      UseScratch(env);
      if target.dropsSecuritySession {
        sessionIsTransient := env.transientAfter;
      }
    }

    /** Sets what a read serialized as the response; the response of a write that wants none is discarded. */
    method RespondWithValue(env: ReadEnv, hasReturnResponse: bool)
      requires Valid() && transaction.state == Tx.HandlingRequest
      modifies transaction
      ensures Valid()
      ensures var p := old(View());
              var answer := Kept(Serialized(p.scratch, env), hasReturnResponse);
              View() == p.(tx := Tx.SetResponse(p.tx, answer.status, answer.body))
    {
      hide Serialized;
      var answer := Serialized(scratchBytes[..], env);
      if answer.status == SUCCESS && !hasReturnResponse {
        answer := Answer(SUCCESS, None);
      }
      Respond(answer);
    }

    /** Parses the request body in place; the texts of the fields are read from where they were moved. */
    method ParseBody(numBytes: nat) returns (written: Written, fields: Option<Fields>)
      requires numBytes <= scratchBytes.Length
      modifies scratchBytes
      ensures var f := ParseFields(old(scratchBytes[..numBytes]), target.supportsAuthData);
              if f.None? then fields.None? && written == NotWritten(INVALID_REQUEST)
              else if numBytes + TotalSpace(f.value) > scratchBytes.Length then fields.None? && written == Overran
              else fields == f
    {
      ghost var f := ParseFields(scratchBytes[..numBytes], target.supportsAuthData);
      var room := scratchBytes.Length - numBytes;
      var reader := new TlvReader.Reader(scratchBytes, 0, numBytes, scratchBytes.Length);
      assert reader.Window() == scratchBytes[..numBytes];
      hide ParseFields, WriteRequest.Conveys, WriteRequest.Describes, TotalSpace;
      var outcome := WriteRequest.ParseRequest(reader, target.supportsAuthData);
      match outcome {
        case Refused =>
          written, fields := NotWritten(INVALID_REQUEST), None;
        case Escapes =>
          written, fields := Overran, None;
        case Accepted(_, _, _, _, _, _) =>
          WriteRequest.DescribedSpace(outcome, f.value);
          written, fields := Overran, None;
          if WriteRequest.SpaceOf(outcome) <= room {
            WriteRequest.ConveysFields(outcome, scratchBytes[..], numBytes, room, f.value);
            fields := Some(WriteRequest.Delivered(outcome, scratchBytes[..]));
          }
      }
    }

    /** Parses the request body and hands its value over, unless its fields are refused. */
    method ParseAndWriteValue(env: ReadEnv, numBytes: nat, startTime: Option<nat>)
      returns (written: Written, handed: Option<Fields>)
      requires numBytes <= scratchBytes.Length
      modifies scratchBytes
      ensures (written, handed)
           == ParseAndWrite(target, env, old(scratchBytes[..numBytes]), scratchBytes.Length - numBytes, startTime)
    {
      hide ParseFields, HasExpired, Conforms;
      var fields;
      written, fields := ParseBody(numBytes);
      handed := None;
      if fields.None? {
        return;
      }
      if startTime.Some? {
        if fields.value.ttl == 0 {
          written := NotWritten(INVALID_REQUEST);
          return;
        }
        if HasExpired(fields.value.ttl, startTime.value, env.now) {
          written := NotWritten(UNSUPPORTED_PDU);
          return;
        }
      }
      if |fields.value.value| > MAX_VALUE_BYTES {
        written := NotWritten(INVALID_REQUEST);
        return;
      }
      var hasFormat := CheckFormat(target.format, fields.value.value);
      if !hasFormat {
        written := NotWritten(INVALID_REQUEST);
        return;
      }
      match env.result {
        case OutsideConstraints => written := NotWritten(INVALID_REQUEST);
        case Taken => written, handed := Written(fields.value.returnResponse), fields;
        case Unauthorized => written, handed := NotWritten(INSUFFICIENT_AUTHORIZATION), fields;
        case Refused => written, handed := NotWritten(INVALID_REQUEST), fields;
      }
    }

    /** Writes the first `numBytes` bytes of the scratch buffer; without room for their texts there is no response. */
    method WriteValue(env: ReadEnv, numBytes: nat, startTime: Option<nat>)
      returns (status: Tx.Status, entries: seq<Entry>)
      requires Valid() && transaction.state == Tx.HandlingRequest && multiTransactionType == NoneActive
      requires numBytes <= scratchBytes.Length
      modifies this`sessionIsTransient, transaction, scratchBytes
      ensures Valid()
      ensures var p := old(View());
              var r := ProcessWrite(target, env, p.transient, p.scratch, numBytes, startTime);
              && entries == r.entries
              && status == (if r.answer.Answer? then Tx.Done else Tx.Aborted)
              && View() == p.(tx := if r.answer.Answer? then Tx.SetResponse(p.tx, r.answer.status, r.answer.body)
                                    else p.tx,
                              transient := r.transient, scratch := r.scratch)
    {
      hide ParseAndWrite, WriteRejection, AfterWrite, Used;
      status, entries := Tx.Done, [];
      if sessionIsTransient {
        Respond(Answer(UNSUPPORTED_PDU, None));
        return;
      }
      var rejection := WriteRejection(target, env, startTime.Some?);
      if rejection.Some? {
        Respond(Answer(rejection.value, None));
        return;
      }
      var body := scratchBytes[..numBytes];
      ghost var before := scratchBytes[..];
      assert body == before[..numBytes];
      var written, handed := ParseAndWriteValue(env, numBytes, startTime);
      if handed.Some? {
        entries := [Handed(body, handed.value, startTime.Some?, env.now)];
      }
      status := FinishWrite(env, written, before);
    }

    /** The scratch buffer, which held `before`, is worked in and the write is answered. */
    method FinishWrite(env: ReadEnv, written: Written, ghost before: seq<byte>) returns (status: Tx.Status)
      requires Valid() && transaction.state == Tx.HandlingRequest && multiTransactionType == NoneActive
      requires |before| == scratchBytes.Length
      modifies this`sessionIsTransient, transaction, scratchBytes
      ensures Valid()
      ensures var p := old(View()).(scratch := before);
              var r := AfterWrite(target, env, p.transient, Used(before, env), written);
              && status == (if r.answer.Answer? then Tx.Done else Tx.Aborted)
              && View() == p.(tx := if r.answer.Answer? then Tx.SetResponse(p.tx, r.answer.status, r.answer.body)
                                    else p.tx,
                              transient := r.transient, scratch := r.scratch)
    {
      hide AfterWrite, Used, Tx.SetResponse;
      UsedIgnoresContents(scratchBytes[..], before, env);
      UseScratch(env);
      status := RespondToWrite(env, written);
    }

    method RespondToWrite(env: ReadEnv, written: Written) returns (status: Tx.Status)
      requires Valid() && transaction.state == Tx.HandlingRequest && multiTransactionType == NoneActive
      modifies this`sessionIsTransient, transaction, scratchBytes
      ensures Valid()
      ensures var p := old(View());
              var r := AfterWrite(target, env, p.transient, p.scratch, written);
              && status == (if r.answer.Answer? then Tx.Done else Tx.Aborted)
              && View() == p.(tx := if r.answer.Answer? then Tx.SetResponse(p.tx, r.answer.status, r.answer.body)
                                    else p.tx,
                              transient := r.transient, scratch := r.scratch)
    {
      hide ProcessRead;
      status := Tx.Done;
      match written {
        case Overran =>
          status := Tx.Aborted;
        case NotWritten(code) =>
          Respond(Answer(code, None));
        case Written(hasReturnResponse) =>
          if !hasReturnResponse && !target.supportsWriteResponse {
            Respond(Answer(SUCCESS, None));
          } else {
            // The write handler's response is read from the characteristic.
            ReadValue(env, hasReturnResponse);
          }
      }
    }

    /** Processes a complete request; `entries` are the bodies that it stores or hands over. */
    method ProcessTransaction(env: ReadEnv) returns (status: Tx.Status, entries: seq<Entry>)
      requires Valid() && transaction.IsRequestAvailable()
      modifies this, transaction, scratchBytes
      ensures Valid() && target == old(target)
      ensures var r := Prepare(target, old(View()), env);
              status == r.status && entries == r.entries && View() == r.proc
    {
      ghost var p := View();
      ConcludedIsDispatched(p, Process(target, env, p.transient, p.tx, p.multi, p.scratch));
      hide Dispatch, Concluded, Dispatched, RequestRejection, Tx.SetResponse;
      var opcode, numBytes, rejection := TakeRequest();
      if rejection.Some? {
        Reject(rejection.value);
        status, entries := Tx.Done, [];
      } else {
        status, entries := HandleRequest(env, opcode, numBytes);
      }
    }

    /** Takes the request out of the transaction and checks what it addresses. */
    method TakeRequest() returns (opcode: byte, numBytes: nat, rejection: Option<byte>)
      requires Valid() && transaction.IsRequestAvailable()
      modifies transaction
      ensures Valid() && transaction.state == Tx.HandlingRequest
      ensures var t := old(View()).tx;
              && View() == old(View()).(tx := Tx.GetRequest(t).1)
              && opcode == t.slot.opcode && numBytes == t.slot.totalBodyBytes
              && rejection == RequestRejection(target, t)
              && (rejection.None? ==> IsValidOpcode(opcode) && numBytes <= scratchBytes.Length)
    {
      opcode, numBytes := transaction.opcode, transaction.totalBodyBytes;
      var requestIid := transaction.iid;
      var status := transaction.GetRequest();
      var iid := if IsServiceOperation(opcode) then target.serviceIid else target.characteristicIid;
      rejection := None;
      if status != Tx.Done {
        rejection := Some(INVALID_REQUEST);
      } else if !IsValidOpcode(opcode) {
        rejection := Some(UNSUPPORTED_PDU);
      } else if requestIid != iid && opcode != SERVICE_SIGNATURE_READ {
        rejection := Some(INVALID_INSTANCE_ID);
      }
    }

    method Reject(status: byte)
      requires Valid() && transaction.state == Tx.HandlingRequest
      modifies transaction
      ensures Valid()
      ensures var p := old(View());
              View() == Dispatched(p, Processed(Answer(status, None), p.multi, p.transient, p.scratch, []))
    {
      Respond(Answer(status, None));
    }

    /** Dispatches a request that addresses the attached characteristic or its service. */
    method HandleRequest(env: ReadEnv, opcode: byte, numBytes: nat) returns (status: Tx.Status, entries: seq<Entry>)
      requires Valid() && transaction.state == Tx.HandlingRequest
      requires IsValidOpcode(opcode) && numBytes <= scratchBytes.Length
      modifies this`multiTransactionType, this`sessionIsTransient, transaction, scratchBytes
      ensures Valid()
      ensures var p := old(View());
              var r := Dispatch(target, env, p.transient, opcode, numBytes, p.multi, p.scratch);
              && status == StatusOf(r.answer)
              && entries == r.entries
              && View() == Dispatched(p, r)
    {
      hide Serialized, Used, ProcessWrite, ProcessRead, ReachesHandler;
      status, entries := Tx.Done, [];
      if opcode == CHARACTERISTIC_EXECUTE_WRITE {
        status, entries := ExecuteWrite(env);
      } else if multiTransactionType.TimedWrite? {
        // Only one procedure on a characteristic at any point in time.
        status := Tx.Failed(InvalidState);
      } else if opcode == CHARACTERISTIC_TIMED_WRITE {
        entries := DeferWrite(env, numBytes);
      } else if opcode == CHARACTERISTIC_WRITE {
        status, entries := WriteValue(env, numBytes, None);
      } else if opcode == CHARACTERISTIC_READ {
        ReadValue(env, true);
      } else {
        AnswerOtherRequest(env, opcode);
      }
    }

    /** Keeps the body of a Timed Write in the scratch buffer. */
    method DeferWrite(env: ReadEnv, numBytes: nat) returns (entries: seq<Entry>)
      requires Valid() && transaction.state == Tx.HandlingRequest && multiTransactionType == NoneActive
      requires numBytes <= scratchBytes.Length
      modifies this`multiTransactionType, transaction
      ensures Valid()
      ensures var p := old(View());
              var status := if p.transient then UNSUPPORTED_PDU else SUCCESS;
              && entries == (if p.transient then [] else [Deferred(p.scratch[..numBytes], env.now)])
              && View() == p.(tx := Tx.SetResponse(p.tx, status, None),
                              multi := if p.transient then NoneActive else TimedWrite(env.now, numBytes))
    {
      if sessionIsTransient {
        Respond(Answer(UNSUPPORTED_PDU, None));
        return [];
      }
      multiTransactionType := TimedWrite(env.now, numBytes);
      entries := [Deferred(scratchBytes[..numBytes], env.now)];
      assert scratchBytes[..numBytes] == scratchBytes[..][..numBytes];
      Respond(Answer(SUCCESS, None));
    }

    /** Answers a request that neither reads nor writes the characteristic's value. */
    method AnswerOtherRequest(env: ReadEnv, opcode: byte)
      requires Valid() && transaction.state == Tx.HandlingRequest
      requires OtherRequest(target, env, sessionIsTransient, opcode, scratchBytes[..]).Some?
      modifies transaction, scratchBytes
      ensures Valid()
      ensures var p := old(View());
              var answer := OtherRequest(target, env, p.transient, opcode, p.scratch).value;
              View() == p.(tx := Tx.SetResponse(p.tx, answer.status, answer.body),
                           scratch := if ReachesHandler(target, env, p.transient, opcode) then Used(p.scratch, env)
                                      else p.scratch)
    {
      hide OtherRequest, ReachesHandler;
      var answer := OtherRequest(target, env, sessionIsTransient, opcode, scratchBytes[..]);
      if ReachesHandler(target, env, sessionIsTransient, opcode) {
        UseScratch(env);
      }
      Respond(answer.value);
    }

    method ProcessPendingRequest(env: ReadEnv) returns (status: Tx.Status, entries: seq<Entry>)
      requires Valid()
      modifies this, transaction, scratchBytes
      ensures Valid() && target == old(target)
      ensures var r := Prepare(target, old(View()), env);
              status == r.status && entries == r.entries && View() == r.proc
    {
      hide Process;
      if transaction.IsRequestAvailable() {
        status, entries := ProcessTransaction(env);
      } else {
        status, entries := Tx.Done, [];
      }
    }

    method ExecuteWrite(env: ReadEnv) returns (status: Tx.Status, entries: seq<Entry>)
      requires Valid() && transaction.state == Tx.HandlingRequest
      modifies this`multiTransactionType, this`sessionIsTransient, transaction, scratchBytes
      ensures Valid()
      ensures var p := old(View());
              if p.multi.NoneActive? then status == Tx.Failed(InvalidState) && entries == [] && View() == p
              else if p.transient then status == Tx.Aborted && entries == [] && View() == p
              else
                var r := ProcessWrite(target, env, p.transient, p.scratch, p.multi.numBytes, Some(p.multi.startTime));
                && status == (if r.answer.Answer? then Tx.Done else Tx.Aborted)
                && entries == r.entries && View() == Dispatched(p, r)
    {
      hide ProcessWrite;
      match multiTransactionType {
        case NoneActive =>
          return Tx.Failed(InvalidState), [];
        case TimedWrite(startTime, numBytes) =>
          if sessionIsTransient {
            return Tx.Aborted, [];
          }
          multiTransactionType := NoneActive;
          status, entries := WriteValue(env, numBytes, Some(startTime));
      }
    }

    method CompleteTransaction() returns (status: Tx.Status)
      requires Valid()
      modifies this`procedureTimer, transaction
      ensures Valid()
      ensures (status, View()) == Model.CompleteTransaction(old(View()))
    {
      match multiTransactionType {
        case NoneActive =>
          if !procedureTimer {
            return Tx.Aborted;
          }
          procedureTimer := false;
          transaction.Create(scratchBytes);
        case TimedWrite(_, _) =>
          // The buffer still stores the pending write request.
          transaction.Create(null);
      }
      return Tx.Done;
    }

    /** Puts the next response fragment into `bytes`; `numBytes` is its length before encryption. */
    method HandleGATTRead(bytes: array<byte>, env: ReadEnv)
      returns (status: Tx.Status, numBytes: nat, entries: seq<Entry>)
      requires Valid() && bytes != scratchBytes
      modifies this, transaction, scratchBytes, bytes
      ensures Valid() && target == old(target)
      ensures var r := HandleGattRead(target, old(View()), bytes.Length, env);
              && status == r.status && entries == r.entries && View() == r.proc
              && (status == Tx.Done ==> numBytes == |r.packet| <= bytes.Length && bytes[..numBytes] == r.packet)
    {
      hide Prepare, Process, Send;
      ghost var p := View();
      PrepareKeepsValid(target, p, env);
      numBytes, entries := 0, [];
      if sessionIsTerminal {
        status := Tx.Failed(InvalidState);
        return;
      }
      var maxBytes := bytes.Length;
      if startedSecured {
        if maxBytes < TAG_BYTES {
          status := Tx.Failed(OutOfResources);
          return;
        }
        maxBytes := maxBytes - TAG_BYTES;
      }
      status, entries := ProcessPendingRequest(env);
      if status != Tx.Done {
        return;
      }
      status, numBytes := SendResponse(bytes, maxBytes, env);
    }

    method SendResponse(bytes: array<byte>, maxBytes: nat, env: ReadEnv) returns (status: Tx.Status, numBytes: nat)
      requires Valid() && bytes != scratchBytes && maxBytes <= bytes.Length
      modifies this`procedureTimer, this`sessionIsTerminal, transaction, bytes
      ensures Valid()
      ensures var r := Send(old(View()), maxBytes, env);
              && status == r.status && View() == r.proc
              && (status == Tx.Done ==> numBytes == |r.packet| <= bytes.Length && bytes[..numBytes] == r.packet)
    {
      hide Tx.Read, Model.CompleteTransaction;
      var isFinalFragment: bool;
      status, numBytes, isFinalFragment := SendFragment(bytes, maxBytes);
      if status != Tx.Done {
        return;
      }
      if startedSecured && !env.encrypted {
        status := Tx.Failed(InvalidState);
        return;
      }
      status := FinishFragment(isFinalFragment, env);
    }

    /** Completes the transaction after the final fragment; a session that lost its security is over. */
    method FinishFragment(isFinalFragment: bool, env: ReadEnv) returns (status: Tx.Status)
      requires Valid()
      modifies this`procedureTimer, this`sessionIsTerminal, transaction
      ensures Valid()
      ensures var sent := old(View());
              var (completed, done) := if isFinalFragment then Model.CompleteTransaction(sent) else (Tx.Done, sent);
              var closed := !done.timer && done.startedSecured && !env.securedAfter;
              status == completed && View() == done.(terminal := done.terminal || closed)
    {
      status := Tx.Done;
      if isFinalFragment {
        status := CompleteTransaction();
      }
      if !procedureTimer && startedSecured && !env.securedAfter {
        sessionIsTerminal := true;
      }
    }

    method SendFragment(bytes: array<byte>, maxBytes: nat)
      returns (status: Tx.Status, numBytes: nat, isFinalFragment: bool)
      requires Valid() && bytes != scratchBytes && maxBytes <= bytes.Length
      modifies transaction, bytes
      ensures Valid()
      ensures var r := Tx.Read(old(View()).tx, old(View()).scratch, maxBytes);
              && status == r.status && View() == old(View()).(tx := r.tx)
              && numBytes == |r.packet| <= bytes.Length && bytes[..numBytes] == r.packet
              && isFinalFragment == r.isFinalFragment
    {
      ghost var p := View();
      ReadIgnoresMemory(p.tx, p.scratch, transaction.Memory(), maxBytes);
      Tx.ReadKeepsValid(p.tx, p.scratch, maxBytes);
      status, numBytes, isFinalFragment := transaction.HandleRead(bytes, maxBytes);
    }
  }

  function StatusOf(answer: Answer): Tx.Status {
    match answer
    case Answer(_, _) => Tx.Done
    case Refusal => Tx.Failed(InvalidState)
    case _ => Tx.Aborted
  }

  lemma ConcludedIsDispatched(p: Proc, r: Processed)
    requires ValidProc(p) && Tx.IsRequestAvailable(p.tx) && Sound(r, p.scratch)
    ensures var c := Concluded(p, r);
            && c.status == StatusOf(r.answer) && c.entries == r.entries
            && c.proc == Dispatched(p.(tx := Tx.GetRequest(p.tx).1), r)
  {
  }

  /** The procedure after a request that was being handled was dispatched with the result `r`. */
  function Dispatched(p: Proc, r: Processed): Proc
    requires Tx.Valid(p.tx) && p.tx.state == Tx.HandlingRequest
  {
    match r.answer
    case Answer(status, body) =>
      p.(tx := Tx.SetResponse(p.tx, status, body), multi := r.multi, transient := r.transient, scratch := r.scratch)
    case Overrun => p.(multi := r.multi, transient := r.transient, scratch := r.scratch)
    case _ => p
  }

  /** Without a response body, what is read does not depend on the memory. */
  lemma ReadIgnoresMemory(t: Tx.Tx, mem: seq<byte>, other: seq<byte>, maxBytes: nat)
    requires Tx.Valid(t)
    requires t.slot.ResponseSlot? ==> t.slot.totalBodyBytes <= |mem| && t.slot.totalBodyBytes <= |other|
    requires !(t.slot.ResponseSlot? && !t.slot.hasBody) && t.slot.ResponseSlot? ==> mem == other
    ensures Tx.Read(t, mem, maxBytes) == Tx.Read(t, other, maxBytes)
  {
  }
}
