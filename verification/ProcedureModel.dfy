/**
 * What GATT writes, GATT reads and the procedure timer do to a HAP-BLE procedure: the reference that
 * the class in `BleProcedure` is proved against. Request handlers, the clock, timers and encryption
 * are represented by their results.
 */
module ProcedureModel {
  import opened Bytes
  import opened TransactionModel
  import opened WriteFields
  import opened ValueFormats

  // HAP opcodes and status codes.

  const CHARACTERISTIC_SIGNATURE_READ: byte := 0x01
  const CHARACTERISTIC_WRITE: byte := 0x02
  const CHARACTERISTIC_READ: byte := 0x03
  const CHARACTERISTIC_TIMED_WRITE: byte := 0x04
  const CHARACTERISTIC_EXECUTE_WRITE: byte := 0x05
  const SERVICE_SIGNATURE_READ: byte := 0x06
  const CHARACTERISTIC_CONFIGURATION: byte := 0x07
  const PROTOCOL_CONFIGURATION: byte := 0x08
  const TOKEN: byte := 0x10
  const TOKEN_UPDATE: byte := 0x11
  const INFO: byte := 0x12

  const SUCCESS: byte := 0x00
  const UNSUPPORTED_PDU: byte := 0x01
  const MAX_PROCEDURES: byte := 0x02
  const INSUFFICIENT_AUTHORIZATION: byte := 0x03
  const INVALID_INSTANCE_ID: byte := 0x04
  const INSUFFICIENT_AUTHENTICATION: byte := 0x05
  const INVALID_REQUEST: byte := 0x06

  /** Length of the authentication tag behind every encrypted packet. */
  const TAG_BYTES: nat := 16

  const MAX_VALUE_BYTES: nat := 64000

  predicate IsValidOpcode(opcode: byte) {
    CHARACTERISTIC_SIGNATURE_READ <= opcode <= PROTOCOL_CONFIGURATION || TOKEN <= opcode <= INFO
  }

  predicate IsServiceOperation(opcode: byte) {
    opcode == SERVICE_SIGNATURE_READ || opcode == PROTOCOL_CONFIGURATION
  }

  /** The characteristic that a procedure is attached to. */
  datatype Target = Target(
    serviceIid: u16,
    characteristicIid: u16,
    isServiceSignature: bool,
    inProtocolInformation: bool,
    serviceSupportsConfiguration: bool,
    dropsSecuritySession: bool,
    isIdentify: bool,
    readable: bool,
    readableWithoutSecurity: bool,
    readRequiresAdmin: bool,
    writable: bool,
    writableWithoutSecurity: bool,
    writeRequiresAdmin: bool,
    requiresTimedWrite: bool,
    supportsAuthData: bool,
    supportsWriteResponse: bool,
    format: Format)

  /**
   * What becomes of a value of the right format: it violates the constraints on range, step or length, or it is handed
   * to the application, which takes it or refuses it.
   */
  datatype HandlerResult = OutsideConstraints | Taken | Unauthorized | Refused

  /**
   * The surroundings of one GATT read. `scratch` is what request handlers leave in the scratch buffer, and
   * `transientAfter` whether the session is transient after a pairing characteristic was read.
   */
  datatype ReadEnv = ReadEnv(
    secured: bool,
    transientAfter: bool,
    admin: bool,
    paired: bool,
    now: nat,
    configured: bool,
    getAllParams: bool,
    result: HandlerResult,
    serialized: Option<u16>,
    scratch: seq<byte>,
    encrypted: bool,
    securedAfter: bool)

  /** The surroundings of one GATT write. `plaintext` is the result of decrypting it. */
  datatype WriteEnv = WriteEnv(
    terminalSoon: bool,
    secured: bool,
    procedureTimerStarts: bool,
    linkTimerStarts: bool,
    plaintext: Result<seq<byte>>)

  /** A pending Timed Write: when it arrived and how many bytes of the scratch buffer its body takes. */
  datatype Multi = NoneActive | TimedWrite(startTime: nat, numBytes: nat)

  /**
   * `terminal` and `transient` belong to the session: no more requests are accepted, and it was secured by a
   * transient pairing.
   */
  datatype Proc = Proc(
    timer: bool,
    multi: Multi,
    startedSecured: bool,
    tx: Tx,
    scratch: seq<byte>,
    terminal: bool,
    transient: bool)

  /**
   * `Deferred` is a stored Timed Write, `Handed` a body whose fields passed every check, so that the application's
   * handler is called with them.
   */
  datatype Entry =
    | Deferred(body: seq<byte>, time: nat)
    | Handed(body: seq<byte>, fields: Fields, timed: bool, time: nat)

  function Attached(scratch: seq<byte>, terminal: bool, transient: bool): Proc {
    Proc(false, NoneActive, false, Created(true, |scratch|), scratch, terminal, transient)
  }

  // Processing a complete request.

  datatype Answer =
    | Answer(status: byte, body: Option<u16>)
    | Refusal // The procedure may not go on: the session is invalidated.
    | Breakdown // An assertion of the library fails.
    | Overrun // The texts of a write request do not fit behind it: moving them goes astray.

  datatype Processed =
    Processed(answer: Answer, multi: Multi, transient: bool, scratch: seq<byte>, entries: seq<Entry>)

  /** A response body lies within the scratch buffer. */
  predicate BodyWithin(answer: Answer, scratch: seq<byte>) {
    answer.Answer? && answer.body.Some? ==> answer.body.value <= |scratch|
  }

  predicate Sound(r: Processed, scratch: seq<byte>) {
    && |r.scratch| == |scratch|
    && BodyWithin(r.answer, scratch)
    && (!r.answer.Answer? ==> r.entries == [])
    && (r.multi.TimedWrite? ==> r.multi.numBytes <= |scratch|)
  }

  /** The scratch buffer after it was worked in. */
  function Used(scratch: seq<byte>, env: ReadEnv): (r: seq<byte>)
    ensures |r| == |scratch|
  {
    seq(|scratch|, k => if 0 <= k < |env.scratch| then env.scratch[k] else 0)
  }

  lemma UsedIgnoresContents(a: seq<byte>, b: seq<byte>, env: ReadEnv)
    requires |a| == |b|
    ensures Used(a, env) == Used(b, env)
  {
  }

  /** The answer of a handler that serialized a response body into the scratch buffer. */
  function Serialized(scratch: seq<byte>, env: ReadEnv): (r: Answer)
    ensures r.Answer? && BodyWithin(r, scratch)
  {
    if env.serialized.None? then Answer(INVALID_REQUEST, None)
    else if env.serialized.value <= |scratch| then Answer(SUCCESS, env.serialized)
    else Answer(INVALID_REQUEST, None)
  }

  lemma SerializedIgnoresContents(a: seq<byte>, b: seq<byte>, env: ReadEnv)
    requires |a| == |b|
    ensures Serialized(a, env) == Serialized(b, env)
  {
  }

  /** The status with which a write is rejected before the request body is looked at. */
  function WriteRejection(target: Target, env: ReadEnv, timed: bool): Option<byte> {
    var supportsWrite := if target.isIdentify then !env.paired else target.writableWithoutSecurity;
    if !env.secured && !supportsWrite then
      Some(if target.writable then INSUFFICIENT_AUTHENTICATION else UNSUPPORTED_PDU)
    else if env.secured && !target.writable then Some(UNSUPPORTED_PDU)
    else if target.writeRequiresAdmin && !env.admin then Some(INSUFFICIENT_AUTHENTICATION)
    else if !timed && target.requiresTimedWrite then Some(INVALID_REQUEST)
    else None
  }

  function ReadRejection(target: Target, env: ReadEnv, transient: bool): Option<byte> {
    if transient then Some(UNSUPPORTED_PDU)
    else if !env.secured && !target.readableWithoutSecurity then
      Some(if target.readable then INSUFFICIENT_AUTHENTICATION else UNSUPPORTED_PDU)
    else if env.secured && !target.readable then Some(UNSUPPORTED_PDU)
    else if target.readRequiresAdmin && !env.admin then Some(INSUFFICIENT_AUTHENTICATION)
    else None
  }

  /** Whether a Timed Write that arrived at `startTime` (in milliseconds) has outlived its time to live. */
  predicate HasExpired(ttl: byte, startTime: nat, now: nat) {
    now >= ttl * 100 && now - ttl * 100 > startTime
  }

  datatype Written = Written(hasReturnResponse: bool) | NotWritten(status: byte) | Overran

  /** The status with which parsed fields are refused, in a Timed Write if `startTime` is set. */
  function FieldsRejection(format: Format, f: Fields, startTime: Option<nat>, now: nat): Option<byte> {
    if startTime.Some? && f.ttl == 0 then Some(INVALID_REQUEST)
    else if startTime.Some? && HasExpired(f.ttl, startTime.value, now) then Some(UNSUPPORTED_PDU)
    else if |f.value| > MAX_VALUE_BYTES then Some(INVALID_REQUEST)
    else if !Conforms(format, f.value) then Some(INVALID_REQUEST)
    else None
  }

  /** The outcome of parsing and writing a body that has `room` behind it, and the fields that are handed over. */
  function ParseAndWrite(target: Target, env: ReadEnv, body: seq<byte>, room: nat, startTime: Option<nat>)
    : (Written, Option<Fields>)
  {
    match ParseFields(body, target.supportsAuthData)
    case None => (NotWritten(INVALID_REQUEST), None)
    case Some(f) =>
      if TotalSpace(f) > room then (Overran, None)
      else if FieldsRejection(target.format, f, startTime, env.now).Some? then
        (NotWritten(FieldsRejection(target.format, f, startTime, env.now).value), None)
      else
        match env.result
        case OutsideConstraints => (NotWritten(INVALID_REQUEST), None)
        case Taken => (Written(f.returnResponse), Some(f))
        case Unauthorized => (NotWritten(INSUFFICIENT_AUTHORIZATION), Some(f))
        case Refused => (NotWritten(INVALID_REQUEST), Some(f))
  }

  /** The answer without a response body that is not wanted. */
  function Kept(answer: Answer, hasReturnResponse: bool): (r: Answer)
    requires answer.Answer?
    ensures r.Answer? && (r.body.None? || r == answer)
  {
    if answer.status == SUCCESS && !hasReturnResponse then Answer(SUCCESS, None) else answer
  }

  /** Only reading a pairing characteristic can make a session transient, or end that. */
  function ProcessRead(target: Target, env: ReadEnv, transient: bool, scratch: seq<byte>, hasReturnResponse: bool)
    : (r: Processed)
    ensures Sound(r, scratch) && r.answer.Answer? && r.multi == NoneActive && r.entries == []
  {
    var rejection := ReadRejection(target, env, transient);
    if rejection.Some? then Processed(Answer(rejection.value, None), NoneActive, transient, scratch, [])
    else
      Processed(Kept(Serialized(scratch, env), hasReturnResponse), NoneActive,
                if target.dropsSecuritySession then env.transientAfter else transient,
                Used(scratch, env), [])
  }

  /** A read that is not rejected answers with what it left in the scratch buffer. */
  lemma ReadOutcome(target: Target, env: ReadEnv, transient: bool, scratch: seq<byte>, hasReturnResponse: bool)
    ensures var r := ProcessRead(target, env, transient, scratch, hasReturnResponse);
            var rejection := ReadRejection(target, env, transient);
            && (rejection.Some? ==> r == Processed(Answer(rejection.value, None), NoneActive, transient, scratch, []))
            && (rejection.None? ==>
                  && r.answer == Kept(Serialized(Used(scratch, env), env), hasReturnResponse)
                  && r.transient == (if target.dropsSecuritySession then env.transientAfter else transient)
                  && r.scratch == Used(scratch, env))
  {
    hide ReadRejection, Serialized, Used, Kept;
    SerializedIgnoresContents(scratch, Used(scratch, env), env);
  }

  /** A write that wants a response, or whose characteristic supports one, is followed by a read. */
  function AfterWrite(target: Target, env: ReadEnv, transient: bool, scratch: seq<byte>, written: Written)
    : (r: Processed)
    ensures Sound(r, scratch) && r.multi == NoneActive && r.entries == []
    ensures if written.Overran? then r.answer.Overrun? else r.answer.Answer?
  {
    match written
    case Overran => Processed(Overrun, NoneActive, transient, scratch, [])
    case NotWritten(status) => Processed(Answer(status, None), NoneActive, transient, scratch, [])
    case Written(hasReturnResponse) =>
      if !hasReturnResponse && !target.supportsWriteResponse then
        Processed(Answer(SUCCESS, None), NoneActive, transient, scratch, [])
      else ProcessRead(target, env, transient, scratch, hasReturnResponse)
  }

  /** Writes the first `numBytes` bytes of the scratch buffer; `startTime` is set for a Timed Write. */
  function ProcessWrite(target: Target, env: ReadEnv, transient: bool, scratch: seq<byte>, numBytes: nat,
      startTime: Option<nat>)
    : (r: Processed)
    requires numBytes <= |scratch|
    ensures Sound(r, scratch) && r.multi == NoneActive && (r.answer.Answer? || r.answer.Overrun?)
  {
    if transient then Processed(Answer(UNSUPPORTED_PDU, None), NoneActive, transient, scratch, []) else
    var rejection := WriteRejection(target, env, startTime.Some?);
    if rejection.Some? then Processed(Answer(rejection.value, None), NoneActive, transient, scratch, []) else
    var body := scratch[..numBytes];
    var (written, handed) := ParseAndWrite(target, env, body, |scratch| - numBytes, startTime);
    var entries := if handed.Some? then [Handed(body, handed.value, startTime.Some?, env.now)] else [];
    AfterWrite(target, env, transient, Used(scratch, env), written).(entries := entries)
  }

  /** The answer to a request that neither reads nor writes the characteristic's value. */
  function OtherRequest(target: Target, env: ReadEnv, transient: bool, opcode: byte, scratch: seq<byte>): Option<Answer>
    ensures var r := OtherRequest(target, env, transient, opcode, scratch);
            r.Some? ==> r.value.Answer? && BodyWithin(r.value, scratch)
  {
    var reject := Some(Answer(UNSUPPORTED_PDU, None));
    if opcode == SERVICE_SIGNATURE_READ then
      if !target.isServiceSignature then reject else Some(Serialized(scratch, env))
    else if opcode == CHARACTERISTIC_SIGNATURE_READ then
      if env.secured && target.dropsSecuritySession then reject else Some(Serialized(scratch, env))
    else if opcode == CHARACTERISTIC_CONFIGURATION then
      if transient || !env.secured then reject
      else if !env.configured then Some(Answer(INVALID_REQUEST, None))
      else Some(Serialized(scratch, env))
    else if opcode == PROTOCOL_CONFIGURATION then
      if transient || !target.isServiceSignature || !target.serviceSupportsConfiguration || !env.secured then reject
      else if !env.configured then Some(Answer(INVALID_REQUEST, None))
      else if !env.getAllParams then Some(Answer(SUCCESS, None))
      else Some(Serialized(scratch, env))
    else if opcode == TOKEN_UPDATE then
      if !target.isServiceSignature || !target.inProtocolInformation || !env.secured then reject
      else if !env.configured then Some(Answer(INVALID_REQUEST, None))
      else Some(Answer(SUCCESS, None))
    else if opcode == TOKEN || opcode == INFO then
      if !target.isServiceSignature || !target.inProtocolInformation || !env.secured then reject
      else Some(Serialized(scratch, env))
    else None
  }

  predicate ReachesHandler(target: Target, env: ReadEnv, transient: bool, opcode: byte) {
    if opcode == SERVICE_SIGNATURE_READ then target.isServiceSignature
    else if opcode == CHARACTERISTIC_SIGNATURE_READ then !(env.secured && target.dropsSecuritySession)
    else if opcode == CHARACTERISTIC_CONFIGURATION then !transient && env.secured
    else if opcode == PROTOCOL_CONFIGURATION then
      !transient && target.isServiceSignature && target.serviceSupportsConfiguration && env.secured
    else target.isServiceSignature && target.inProtocolInformation && env.secured
  }

  /** Processes a request with a body of `numBytes` bytes that addresses the right instance. */
  function Dispatch(target: Target, env: ReadEnv, transient: bool, opcode: byte, numBytes: nat, multi: Multi,
      scratch: seq<byte>)
    : (r: Processed)
    requires IsValidOpcode(opcode) && numBytes <= |scratch|
    requires multi.TimedWrite? ==> multi.numBytes <= |scratch|
    ensures Sound(r, scratch)
  {
    if opcode == CHARACTERISTIC_EXECUTE_WRITE then
      if multi.NoneActive? then Processed(Refusal, multi, transient, scratch, [])
      else if transient then Processed(Breakdown, multi, transient, scratch, [])
      else ProcessWrite(target, env, transient, scratch, multi.numBytes, Some(multi.startTime))
    else if multi.TimedWrite? then Processed(Refusal, multi, transient, scratch, [])
    else if opcode == CHARACTERISTIC_TIMED_WRITE then
      if transient then Processed(Answer(UNSUPPORTED_PDU, None), multi, transient, scratch, [])
      else
        Processed(Answer(SUCCESS, None), TimedWrite(env.now, numBytes), transient, scratch,
                  [Deferred(scratch[..numBytes], env.now)])
    else if opcode == CHARACTERISTIC_WRITE then ProcessWrite(target, env, transient, scratch, numBytes, None)
    else if opcode == CHARACTERISTIC_READ then ProcessRead(target, env, transient, scratch, true)
    else
      var answer := OtherRequest(target, env, transient, opcode, scratch);
      Processed(answer.value, multi, transient,
                if ReachesHandler(target, env, transient, opcode) then Used(scratch, env) else scratch, [])
  }

  /** The status for a request that is too large, has an unknown opcode or addresses another instance. */
  function RequestRejection(target: Target, tx: Tx): Option<byte>
    requires tx.slot.RequestSlot?
  {
    var opcode := tx.slot.opcode;
    var iid := if IsServiceOperation(opcode) then target.serviceIid else target.characteristicIid;
    if !BodyFits(tx) then Some(INVALID_REQUEST)
    else if !IsValidOpcode(opcode) then Some(UNSUPPORTED_PDU)
    else if tx.slot.iid != iid && opcode != SERVICE_SIGNATURE_READ then Some(INVALID_INSTANCE_ID)
    else None
  }

  /** Processes the available request of `tx`. */
  function Process(target: Target, env: ReadEnv, transient: bool, tx: Tx, multi: Multi, scratch: seq<byte>)
    : (r: Processed)
    requires Valid(tx) && IsRequestAvailable(tx)
    requires multi.TimedWrite? ==> multi.numBytes <= |scratch|
    requires tx.slot.maxBodyBytes <= |scratch|
    ensures Sound(r, scratch)
  {
    var rejection := RequestRejection(target, tx);
    if rejection.Some? then Processed(Answer(rejection.value, None), multi, transient, scratch, [])
    else Dispatch(target, env, transient, tx.slot.opcode, tx.slot.totalBodyBytes, multi, scratch)
  }

  // GATT requests and the timer.

  datatype Event =
    | GattWrite(bytes: seq<byte>, writeEnv: WriteEnv)
    | GattRead(maxBytes: nat, readEnv: ReadEnv)
    | TimerExpired

  /** `fragment` is the part of a request body, `packet` the response fragment before encryption. */
  datatype Stepped = Stepped(status: Status, proc: Proc, fragment: seq<byte>, packet: seq<byte>, entries: seq<Entry>)

  function Quiet(status: Status, p: Proc): Stepped {
    Stepped(status, p, [], [], [])
  }

  /** Starts a procedure with its first GATT write. */
  function Start(target: Target, p: Proc, env: WriteEnv): (Status, Proc) {
    if env.terminalSoon then (Failed(InvalidState), p) else
    var reset := env.secured && target.dropsSecuritySession;
    var clean := if reset then Attached(p.scratch, p.terminal, false) else p;
    var secured := env.secured && !reset;
    if !env.procedureTimerStarts then (Failed(OutOfResources), clean.(startedSecured := secured))
    else
      (Done, clean.(startedSecured := secured, timer := true,
                    terminal := p.terminal || (secured && !env.linkTimerStarts)))
  }

  predicate ValidProc(p: Proc) {
    && Valid(p.tx)
    && (p.multi.TimedWrite? ==> p.multi.numBytes <= |p.scratch|)
    && (p.tx.slot.RequestSlot? && p.tx.slot.hasBuffer ==> p.tx.slot.maxBodyBytes == |p.scratch|)
    && (p.tx.slot.ResponseSlot? ==> p.tx.slot.totalBodyBytes <= |p.scratch|)
  }

  /** The packet in the bytes of a GATT write. */
  function Decrypted(secured: bool, bytes: seq<byte>, env: WriteEnv): Result<seq<byte>> {
    if !secured then Ok(bytes)
    else if |bytes| < TAG_BYTES then Err(InvalidData)
    else env.plaintext
  }

  function HandleGattWrite(target: Target, p: Proc, bytes: seq<byte>, env: WriteEnv): Stepped
    requires ValidProc(p)
  {
    if p.terminal then Quiet(Failed(InvalidState), p) else
    var (status, q) := if p.timer then (Done, p) else Start(target, p, env);
    if status != Done then Quiet(status, q)
    else
      var plain := Decrypted(q.startedSecured, bytes, env);
      if plain.Err? then Quiet(Failed(plain.error), q) else
      var r := Write(q.tx, plain.value);
      var scratch := if q.tx.slot.RequestSlot? && q.tx.slot.hasBuffer then Stored(q.scratch, r) else q.scratch;
      Stepped(r.status, q.(tx := r.tx, scratch := scratch), r.fragment, [], [])
  }

  /** Ends a transaction after its final fragment; a pending Timed Write keeps the scratch buffer. */
  function CompleteTransaction(p: Proc): (Status, Proc) {
    match p.multi
    case NoneActive =>
      if p.timer then (Done, p.(timer := false, tx := Created(true, |p.scratch|))) else (Aborted, p)
    case TimedWrite(_, _) => (Done, p.(tx := Created(false, 0)))
  }

  /** What becomes of the procedure once its available request was processed with the result `r`. */
  function Concluded(p: Proc, r: Processed): Stepped
    requires ValidProc(p) && IsRequestAvailable(p.tx)
  {
    var handling := GetRequest(p.tx).1;
    match r.answer
    case Refusal => Quiet(Failed(InvalidState), p.(tx := handling))
    case Breakdown => Quiet(Aborted, p.(tx := handling))
    case Overrun =>
      Quiet(Aborted, p.(tx := handling, multi := r.multi, transient := r.transient, scratch := r.scratch))
    case Answer(status, body) =>
      Stepped(Done, p.(tx := SetResponse(handling, status, body), multi := r.multi, transient := r.transient,
                       scratch := r.scratch), [], [], r.entries)
  }

  /** Prepares the response of a complete request. */
  function Prepare(target: Target, p: Proc, env: ReadEnv): Stepped
    requires ValidProc(p)
  {
    if !IsRequestAvailable(p.tx) then Quiet(Done, p)
    else Concluded(p, Process(target, env, p.transient, p.tx, p.multi, p.scratch))
  }

  lemma ConcludedKeepsValid(p: Proc, r: Processed)
    requires ValidProc(p) && IsRequestAvailable(p.tx) && Sound(r, p.scratch)
    ensures ValidProc(Concluded(p, r).proc) && |Concluded(p, r).proc.scratch| == |p.scratch|
  {
    var handling := GetRequest(p.tx).1;
    var q := p.(tx := handling);
    assert ValidProc(q);
    ResultKeepsValid(q, r);
    if r.answer.Answer? {
      ResponseKeepsValid(q.(multi := r.multi, transient := r.transient, scratch := r.scratch),
                         r.answer.status, r.answer.body);
    }
    hide ValidProc, GetRequest, SetResponse;
  }

  lemma ResultKeepsValid(q: Proc, r: Processed)
    requires ValidProc(q) && q.tx.state == HandlingRequest && Sound(r, q.scratch)
    ensures ValidProc(q.(multi := r.multi, transient := r.transient, scratch := r.scratch))
  {
  }

  lemma ResponseKeepsValid(q: Proc, status: byte, body: Option<u16>)
    requires ValidProc(q) && q.tx.state == HandlingRequest && (body.Some? ==> body.value <= |q.scratch|)
    ensures ValidProc(q.(tx := SetResponse(q.tx, status, body)))
  {
  }

  lemma PrepareKeepsValid(target: Target, p: Proc, env: ReadEnv)
    requires ValidProc(p)
    ensures ValidProc(Prepare(target, p, env).proc)
    ensures |Prepare(target, p, env).proc.scratch| == |p.scratch|
  {
    hide Process, Concluded;
    if IsRequestAvailable(p.tx) {
      ConcludedKeepsValid(p, Process(target, env, p.transient, p.tx, p.multi, p.scratch));
    }
  }

  /** Sends the next response fragment and completes the transaction after the final one. */
  function Send(p: Proc, maxBytes: nat, env: ReadEnv): Stepped
    requires ValidProc(p)
  {
    var r := Read(p.tx, p.scratch, maxBytes);
    var sent := p.(tx := r.tx);
    if r.status != Done then Quiet(r.status, sent)
    else if p.startedSecured && !env.encrypted then Quiet(Failed(InvalidState), sent)
    else
      var (status, done) := if r.isFinalFragment then CompleteTransaction(sent) else (Done, sent);
      var closed := !done.timer && done.startedSecured && !env.securedAfter;
      Stepped(status, done.(terminal := done.terminal || closed), [], r.packet, [])
  }

  function HandleGattRead(target: Target, p: Proc, maxBytes: nat, env: ReadEnv): Stepped
    requires ValidProc(p)
  {
    if p.terminal then Quiet(Failed(InvalidState), p)
    else if p.startedSecured && maxBytes < TAG_BYTES then Quiet(Failed(OutOfResources), p)
    else
      PrepareKeepsValid(target, p, env);
      var prepared := Prepare(target, p, env);
      if prepared.status != Done then prepared else
      var sent := Send(prepared.proc, if p.startedSecured then maxBytes - TAG_BYTES else maxBytes, env);
      sent.(entries := prepared.entries)
  }

  /**
   * One event, together with the peripheral manager's reaction to a failure: it invalidates the session,
   * which is terminal from then on.
   */
  function Step(target: Target, p: Proc, e: Event): Stepped
    requires ValidProc(p)
  {
    var r := match e
      case GattWrite(bytes, env) => HandleGattWrite(target, p, bytes, env)
      case GattRead(maxBytes, env) => HandleGattRead(target, p, maxBytes, env)
      case TimerExpired => Quiet(Done, if p.timer then Attached(p.scratch, true, p.transient) else p);
    r.(proc := r.proc.(terminal := r.proc.terminal || r.status != Done))
  }
}
