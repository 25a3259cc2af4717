/**
 * What GATT requests do to the one full procedure and to the fallback procedures that answer for
 * characteristics while it is busy: the reference that the class in `PeripheralManager` is proved
 * against. Characteristics are identified by their position in the GATT table.
 */
module ManagerModel {
  import opened Bytes
  import opened TransactionModel
  import opened ProcedureModel

  datatype FallbackStatus = MaxProcedures | InvalidInstanceID | ZeroInstanceIDServiceSignatureRead

  /** A procedure that only skips the request and then answers with an error. */
  datatype Fallback = Fallback(tid: byte, remainingBodyBytes: u16, status: FallbackStatus)

  /** `fallbacks` has an entry per characteristic; the session's terminal flag is kept in `full`. */
  datatype Manager = Manager(attached: Option<nat>, full: Proc, fallbacks: seq<Option<Fallback>>)

  datatype Attachment = ToFull | ToFallback

  /** The surroundings of a GATT write on top of those of the procedure. */
  datatype ManagerEnv = ManagerEnv(running: bool, fallbackTimerStarts: bool, writeEnv: WriteEnv)

  predicate ValidManager(targets: seq<Target>, m: Manager) {
    && |m.fallbacks| == |targets|
    && (m.attached.Some? ==> m.attached.value < |targets| && m.fallbacks[m.attached.value].None?)
    && ValidProc(m.full)
  }

  function Aborted(fallbacks: seq<Option<Fallback>>): (r: seq<Option<Fallback>>)
    ensures |r| == |fallbacks|
    ensures forall i :: 0 <= i < |r| ==> r[i] == None
  {
    seq(|fallbacks|, _ => None)
  }

  /** Attaches a procedure for a write to characteristic `c`; also tells whether it is a new one. */
  function Attach(targets: seq<Target>, m: Manager, c: nat, env: ManagerEnv): (Status, Manager, Attachment, bool)
    requires ValidManager(targets, m) && c < |targets|
  {
    var drops := targets[c].dropsSecuritySession;
    if m.full.terminal then (Failed(InvalidState), m, ToFull, false)
    else if !env.running && !(m.attached.Some? && m.full.timer) then (Failed(InvalidState), m, ToFull, false)
    else
      var n := if drops then m.(fallbacks := Aborted(m.fallbacks)) else m;
      if n.fallbacks[c].Some? then (Done, n, ToFallback, false)
      else if n.attached == Some(c) then (Done, n, ToFull, false)
      else if n.attached.Some? && n.full.timer && !drops then
        if !env.fallbackTimerStarts then (Failed(OutOfResources), n, ToFull, false)
        else
          var terminal := env.writeEnv.secured && !env.writeEnv.linkTimerStarts;
          (Done,
           n.(fallbacks := n.fallbacks[c := Some(Fallback(0, 0, MaxProcedures))],
              full := n.full.(terminal := n.full.terminal || terminal)),
           ToFallback, true)
      else
        (Done, n.(attached := Some(c), full := Attached(n.full.scratch, n.full.terminal, n.full.transient)),
         ToFull, true)
  }

  /** The error that a fallback procedure answers with. */
  function StatusFor(target: Target, opcode: byte, iid: u16): FallbackStatus {
    var expected := if IsServiceOperation(opcode) then target.serviceIid else target.characteristicIid;
    if !IsValidOpcode(opcode) || iid == expected then MaxProcedures
    else if opcode == SERVICE_SIGNATURE_READ && iid == 0 then ZeroInstanceIDServiceSignatureRead
    else InvalidInstanceID
  }

  /** Skips one fragment of a request. */
  function FallbackWrite(target: Target, f: Fallback, isNew: bool, data: seq<byte>): Option<Fallback> {
    if isNew then
      if |data| < 5 || data[0] != 0 then None else
      var status := StatusFor(target, data[1], ReadLittleUInt16(data, 3));
      if |data| == 5 then Some(Fallback(data[2], 0, status))
      else if |data| < 7 then None else
      var total := ReadLittleUInt16(data, 5);
      if total < |data| - 7 then None else Some(Fallback(data[2], total - (|data| - 7), status))
    else
      if |data| < 2 || data[0] != 0x80 || data[1] != f.tid then None
      else if f.remainingBodyBytes < |data| - 2 then None
      else Some(f.(remainingBodyBytes := f.remainingBodyBytes - (|data| - 2)))
  }

  /** TLV type of the linked services in a service signature. */
  const HAP_LINKED_SERVICES: byte := 0x10

  function FallbackResponse(f: Fallback): seq<byte> {
    match f.status
    case MaxProcedures => [2, f.tid, MAX_PROCEDURES]
    case InvalidInstanceID => [2, f.tid, INVALID_INSTANCE_ID]
    case ZeroInstanceIDServiceSignatureRead =>
      [2, f.tid, SUCCESS] + LittleUInt16(2) + [HAP_LINKED_SERVICES, 0]
  }

  datatype ManagerEvent =
    | WriteRequest(c: nat, bytes: seq<byte>, env: ManagerEnv)
    | ReadRequest(c: nat, maxBytes: nat, readEnv: ReadEnv)
    | FullTimerExpired
    | FallbackTimerExpired(c: nat)

  /**
   * `skipped` is the plaintext that a fallback took, `packet` a response before encryption; `fragment` and `entries`
   * are those of the full procedure.
   */
  datatype Handled = Handled(status: Status, manager: Manager, attachment: Attachment, isNew: bool,
                             skipped: Option<seq<byte>>, packet: seq<byte>, fragment: seq<byte>, entries: seq<Entry>)

  /** The full procedure is not involved. */
  function Aside(status: Status, m: Manager, attachment: Attachment, isNew: bool, skipped: Option<seq<byte>>,
      packet: seq<byte>): Handled
  {
    Handled(status, m, attachment, isNew, skipped, packet, [], [])
  }

  function Invalidated(m: Manager): Manager {
    m.(full := m.full.(terminal := true))
  }

  /** A write that the fallback procedure of `c` skips. */
  function WriteToFallback(target: Target, n: Manager, c: nat, bytes: seq<byte>, env: WriteEnv, isNew: bool): Handled
    requires c < |n.fallbacks| && n.fallbacks[c].Some?
  {
    var data := Decrypted(env.secured, bytes, env);
    if data.Err? then Aside(Failed(data.error), Invalidated(n), ToFallback, isNew, None, [])
    else
      var f := FallbackWrite(target, n.fallbacks[c].value, isNew, data.value);
      if f.None? then Aside(Failed(InvalidData), Invalidated(n), ToFallback, isNew, None, [])
      else Aside(Done, n.(fallbacks := n.fallbacks[c := f]), ToFallback, isNew, Some(data.value), [])
  }

  function HandleWrite(targets: seq<Target>, m: Manager, c: nat, bytes: seq<byte>, env: ManagerEnv): Handled
    requires ValidManager(targets, m) && c < |targets|
  {
    var (status, n, attachment, isNew) := Attach(targets, m, c, env);
    if status != Done then Aside(status, Invalidated(n), attachment, isNew, None, [])
    else if attachment == ToFull then
      var r := Step(targets[c], n.full, GattWrite(bytes, env.writeEnv));
      Handled(r.status, n.(full := r.proc), ToFull, isNew, None, [], r.fragment, r.entries)
    else WriteToFallback(targets[c], n, c, bytes, env.writeEnv, isNew)
  }

  /** A read in a live session, by the procedure that is attached. */
  function ReadFrom(targets: seq<Target>, n: Manager, c: nat, maxBytes: nat, env: ReadEnv): Handled
    requires ValidManager(targets, n) && c < |targets|
  {
    if n.fallbacks[c].Some? then
      var f := n.fallbacks[c].value;
      var packet := FallbackResponse(f);
      if f.remainingBodyBytes != 0 then Aside(Failed(InvalidState), Invalidated(n), ToFallback, false, None, [])
      else if maxBytes < |packet| + (if env.secured then TAG_BYTES else 0) then
        Aside(Failed(OutOfResources), Invalidated(n), ToFallback, false, None, [])
      else if env.secured && !env.encrypted then
        Aside(Failed(InvalidState), Invalidated(n), ToFallback, false, None, [])
      else Aside(Done, n.(fallbacks := n.fallbacks[c := None]), ToFallback, false, None, packet)
    else if n.attached == Some(c) then
      var r := Step(targets[c], n.full, GattRead(maxBytes, env));
      Handled(r.status, n.(full := r.proc), ToFull, false, None, r.packet, r.fragment, r.entries)
    else Aside(Failed(InvalidState), Invalidated(n), ToFull, false, None, [])
  }

  function HandleRead(targets: seq<Target>, m: Manager, c: nat, maxBytes: nat, env: ReadEnv): Handled
    requires ValidManager(targets, m) && c < |targets|
  {
    if m.full.terminal then Aside(Failed(InvalidState), m, ToFull, false, None, []) else
    var n := if targets[c].dropsSecuritySession then m.(fallbacks := Aborted(m.fallbacks)) else m;
    ReadFrom(targets, n, c, maxBytes, env)
  }

  function Handle(targets: seq<Target>, m: Manager, e: ManagerEvent): Handled
    requires ValidManager(targets, m)
    requires !e.FullTimerExpired? ==> e.c < |targets|
  {
    match e
    case WriteRequest(c, bytes, env) => HandleWrite(targets, m, c, bytes, env)
    case ReadRequest(c, maxBytes, env) => HandleRead(targets, m, c, maxBytes, env)
    case FullTimerExpired =>
      if m.attached.None? || !m.full.timer then Aside(Done, m, ToFull, false, None, [])
      else
        Aside(Done, m.(full := Step(targets[m.attached.value], m.full, TimerExpired).proc), ToFull, false, None, [])
    case FallbackTimerExpired(c) =>
      if m.fallbacks[c].None? then Aside(Done, m, ToFallback, false, None, [])
      else Aside(Done, Invalidated(m.(fallbacks := m.fallbacks[c := None])), ToFallback, false, None, [])
  }
}
