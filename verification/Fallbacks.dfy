/**
 * What the attachment of procedures promises over whole connections: a procedure in progress keeps its
 * characteristic, and a fallback procedure accepts and counts a request exactly as a transaction would,
 * so that its answer never comes before the request is complete.
 */
module Fallbacks {
  import opened Bytes
  import opened Pdu
  import opened TransactionModel
  import opened ProcedureModel
  import opened ManagerModel
  import opened Fragmentation
  import TimedWrites

  lemma HandleKeepsValid(targets: seq<Target>, m: Manager, e: ManagerEvent)
    requires ValidManager(targets, m)
    requires !e.FullTimerExpired? ==> e.c < |targets|
    ensures ValidManager(targets, Handle(targets, m, e).manager)
  {
    hide HandleGattWrite, HandleGattRead, HandleWrite, HandleRead;
    match e
    case WriteRequest(c, bytes, env) => WriteKeepsValidManager(targets, m, c, bytes, env);
    case ReadRequest(c, maxBytes, env) => ReadKeepsValidManager(targets, m, c, maxBytes, env);
    case FullTimerExpired =>
    case FallbackTimerExpired(c) =>
  }

  lemma WriteKeepsValidManager(targets: seq<Target>, m: Manager, c: nat, bytes: seq<byte>, env: ManagerEnv)
    requires ValidManager(targets, m) && c < |targets|
    ensures ValidManager(targets, HandleWrite(targets, m, c, bytes, env).manager)
  {
    hide Step, Valid, FallbackWrite, Attach;
    AttachKeepsValid(targets, m, c, env);
    StepKeepsValidProc(targets[c], Attach(targets, m, c, env).1.full, GattWrite(bytes, env.writeEnv));
  }

  lemma ReadKeepsValidManager(targets: seq<Target>, m: Manager, c: nat, maxBytes: nat, env: ReadEnv)
    requires ValidManager(targets, m) && c < |targets|
    ensures ValidManager(targets, HandleRead(targets, m, c, maxBytes, env).manager)
  {
    hide Step, ValidProc, FallbackResponse;
    StepKeepsValidProc(targets[c], m.full, GattRead(maxBytes, env));
    assert ValidProc(m.full.(terminal := true)) by { TerminalKeepsValid(m.full); }
  }

  lemma TerminalKeepsValid(p: Proc)
    requires ValidProc(p)
    ensures ValidProc(p.(terminal := true))
  {
  }

  lemma StepKeepsValidProc(target: Target, p: Proc, e: Event)
    requires ValidProc(p)
    ensures ValidProc(Step(target, p, e).proc)
  {
    TimedWrites.NextKeepsValid(target, TimedWrites.Run(p, [], []), e);
  }

  lemma AttachKeepsValid(targets: seq<Target>, m: Manager, c: nat, env: ManagerEnv)
    requires ValidManager(targets, m) && c < |targets|
    ensures var (status, n, attachment, isNew) := Attach(targets, m, c, env);
            && ValidManager(targets, n)
            && (status == Done && attachment == ToFallback ==> n.fallbacks[c].Some? && n.attached != Some(c))
            && (status == Done && attachment == ToFull ==> n.attached == Some(c))
  {
  }

  // A procedure in progress keeps its characteristic.

  /**
   * As long as the session is not terminal, requests for other characteristics leave the procedure and
   * its attachment alone, unless the characteristic drops the security session.
   */
  lemma ProcedureInProgressIsKept(targets: seq<Target>, m: Manager, e: ManagerEvent)
    requires ValidManager(targets, m) && m.attached.Some? && m.full.timer && !m.full.terminal
    requires e.WriteRequest? || e.ReadRequest?
    requires e.c < |targets| && e.c != m.attached.value
    ensures var r := Handle(targets, m, e);
            if e.WriteRequest? && targets[e.c].dropsSecuritySession then
              r.manager.attached == Some(e.c) && r.attachment == ToFull && r.isNew
            else
              && r.manager.attached == m.attached
              && r.manager.full == m.full.(terminal := r.manager.full.terminal)
              && (r.status == Done ==> r.attachment == ToFallback)
  {
    hide Step;
  }

  /** What a new procedure is attached to, and when none is. */
  lemma AttachmentIff(targets: seq<Target>, m: Manager, c: nat, env: ManagerEnv)
    requires ValidManager(targets, m) && c < |targets|
    ensures var (status, n, attachment, isNew) := Attach(targets, m, c, env);
            var drops := targets[c].dropsSecuritySession;
            var busy := m.attached.Some? && m.full.timer;
            var refused := m.full.terminal || (!env.running && !busy);
            var needsFallback := busy && m.attached != Some(c) && !drops && m.fallbacks[c].None?;
            && (status == Failed(InvalidState) <==> refused)
            && (status == Failed(OutOfResources) <==> !refused && needsFallback && !env.fallbackTimerStarts)
            && status in {Done, Failed(InvalidState), Failed(OutOfResources)}
            && (status != Done ==> n == m && !isNew)
            && (status == Done ==>
                  && (attachment == ToFallback <==> needsFallback || (!drops && m.fallbacks[c].Some?))
                  && (isNew <==> needsFallback || (attachment == ToFull && m.attached != Some(c)))
                  && n.attached == (if attachment == ToFull then Some(c) else m.attached)
                  && (forall i :: 0 <= i < |targets| ==>
                        n.fallbacks[i] == if drops then None
                                          else if i == c && needsFallback then Some(Fallback(0, 0, MaxProcedures))
                                          else m.fallbacks[i])
                  && n.full == if needsFallback then
                                 m.full.(terminal := env.writeEnv.secured && !env.writeEnv.linkTimerStarts)
                               else if isNew then Attached(m.full.scratch, false, m.full.transient)
                               else m.full)
  {
    hide ValidProc;
  }

  /** A read by a characteristic that has a fallback, in a live session. */
  lemma FallbackReadIff(targets: seq<Target>, m: Manager, c: nat, maxBytes: nat, env: ReadEnv)
    requires ValidManager(targets, m) && c < |targets| && m.fallbacks[c].Some?
    requires !m.full.terminal && !targets[c].dropsSecuritySession
    ensures var r := Handle(targets, m, ReadRequest(c, maxBytes, env));
            var f := m.fallbacks[c].value;
            var size := if f.status == ZeroInstanceIDServiceSignatureRead then 7 else 3;
            var fits := maxBytes >= size + if env.secured then 16 else 0;
            && (r.status == Done <==> f.remainingBodyBytes == 0 && fits && (env.secured ==> env.encrypted))
            && (r.status == Failed(OutOfResources) <==> f.remainingBodyBytes == 0 && !fits)
            && r.status in {Done, Failed(InvalidState), Failed(OutOfResources)}
            && (r.status == Done ==>
                  |r.packet| == size && r.manager == m.(fallbacks := m.fallbacks[c := None]))
            && (r.status != Done ==> r.packet == [] && r.manager == m.(full := m.full.(terminal := true)))
            && r.attachment == ToFallback && !r.isNew && r.entries == [] && r.fragment == []
  {
    hide ValidProc;
  }

  /** A read that no write preceded ends the session; one that comes after its end is refused. */
  lemma StrayReadEndsSession(targets: seq<Target>, m: Manager, c: nat, maxBytes: nat, env: ReadEnv)
    requires ValidManager(targets, m) && c < |targets| && m.attached != Some(c)
    requires m.full.terminal || targets[c].dropsSecuritySession || m.fallbacks[c].None?
    ensures var r := Handle(targets, m, ReadRequest(c, maxBytes, env));
            && r.status == Failed(InvalidState) && r.packet == [] && r.manager.full == m.full.(terminal := true)
            && r.manager.attached == m.attached && !r.isNew && r.entries == [] && r.fragment == []
  {
    hide ValidProc;
  }

  /** A write that is not attached, cannot be decrypted or is rejected by its fallback ends the session. */
  lemma FailedWriteEndsSession(targets: seq<Target>, m: Manager, c: nat, bytes: seq<byte>, env: ManagerEnv)
    requires ValidManager(targets, m) && c < |targets|
    ensures var r := Handle(targets, m, WriteRequest(c, bytes, env));
            && (r.status != Done ==> r.manager.full.terminal)
            && (r.status == Done && r.attachment == ToFallback ==>
                  && r.skipped == Some(if env.writeEnv.secured then env.writeEnv.plaintext.value else bytes)
                  && (env.writeEnv.secured ==> |bytes| >= 16 && env.writeEnv.plaintext.Ok?))
            && (r.status == Done && r.attachment == ToFull ==> r.skipped.None?)
  {
    hide ValidProc, FallbackWrite, HandleGattWrite;
  }

  /** Requests that are attached to the full procedure are steps of it, and change nothing else. */
  lemma FullRequestIsStep(targets: seq<Target>, m: Manager, e: ManagerEvent)
    requires ValidManager(targets, m) && (e.WriteRequest? || e.ReadRequest?) && e.c < |targets|
    requires !m.full.terminal && m.attached == Some(e.c) && !targets[e.c].dropsSecuritySession
    requires e.WriteRequest? ==> e.env.running || m.full.timer
    ensures var r := Handle(targets, m, e);
            var s := Step(targets[e.c], m.full, if e.WriteRequest? then GattWrite(e.bytes, e.env.writeEnv)
                                                else GattRead(e.maxBytes, e.readEnv));
            && r.status == s.status && r.packet == (if e.ReadRequest? then s.packet else [])
            && r.fragment == s.fragment && r.entries == s.entries
            && r.attachment == ToFull && !r.isNew && r.skipped.None? && r.manager == m.(full := s.proc)
  {
    hide Step, ValidProc;
  }

  /** A fallback takes what it can decrypt and accepts; anything else ends the session. */
  lemma FallbackWriteIff(targets: seq<Target>, m: Manager, c: nat, bytes: seq<byte>, env: ManagerEnv)
    requires ValidManager(targets, m) && c < |targets| && !m.full.terminal && env.running
    requires m.fallbacks[c].Some? && !targets[c].dropsSecuritySession
    ensures var r := Handle(targets, m, WriteRequest(c, bytes, env));
            var readable := env.writeEnv.secured ==> |bytes| >= 16 && env.writeEnv.plaintext.Ok?;
            && r.attachment == ToFallback && !r.isNew && r.packet == [] && r.entries == []
            && (r.status == Done ==> readable)
            && (readable ==>
                  var f := FallbackWrite(targets[c], m.fallbacks[c].value, false,
                                         if env.writeEnv.secured then env.writeEnv.plaintext.value else bytes);
                  && r.status == (if f.Some? then Done else Failed(InvalidData))
                  && (f.Some? ==> r.manager == m.(fallbacks := m.fallbacks[c := f])))
            && (!readable ==>
                  r.status == Failed(if |bytes| < 16 then InvalidData else env.writeEnv.plaintext.error))
            && (r.status != Done ==> r.manager == m.(full := m.full.(terminal := true)) && r.skipped.None?)
  {
    hide FallbackWrite, ValidProc;
  }

  /** Timers that are pending end the session and what they are for; others do nothing. */
  lemma ManagerTimers(targets: seq<Target>, m: Manager, c: nat)
    requires ValidManager(targets, m) && c < |targets|
    ensures var r := Handle(targets, m, FullTimerExpired);
            && r.status == Done && !r.isNew && r.packet == [] && r.fragment == [] && r.entries == []
            && r.manager == if m.attached.Some? && m.full.timer
                            then m.(full := Attached(m.full.scratch, true, m.full.transient)) else m
    ensures var r := Handle(targets, m, FallbackTimerExpired(c));
            && r.status == Done && !r.isNew && r.packet == [] && r.fragment == [] && r.entries == []
            && r.manager == if m.fallbacks[c].Some?
                            then m.(fallbacks := m.fallbacks[c := None], full := m.full.(terminal := true)) else m
  {
    hide ValidProc;
  }

  // A fallback is a transaction without a buffer for its body.

  /** Opcodes are those of Table 7-8 of HAP Specification R14; 0x06 and 0x08 address the service. */
  predicate IsKnown(opcode: byte) {
    0x01 <= opcode <= 0x08 || 0x10 <= opcode <= 0x12
  }

  predicate IsForThis(target: Target, opcode: byte, iid: u16) {
    iid == if opcode == 0x06 || opcode == 0x08 then target.serviceIid else target.characteristicIid
  }

  /** A known request for another instance has an invalid ID, except for a service signature of instance 0. */
  predicate Answers(status: FallbackStatus, target: Target, opcode: byte, iid: u16) {
    match status
    case MaxProcedures => !IsKnown(opcode) || IsForThis(target, opcode, iid)
    case InvalidInstanceID =>
      IsKnown(opcode) && !IsForThis(target, opcode, iid) && !(opcode == 0x06 && iid == 0)
    case ZeroInstanceIDServiceSignatureRead => !IsForThis(target, opcode, iid) && opcode == 0x06 && iid == 0
  }

  /** The fallback waits for as many bytes as the transaction does, with the same identifier. */
  predicate Mirrors(f: Fallback, t: Tx) {
    && Valid(t) && t.state == ReadingRequest
    && f.tid == t.slot.tid
    && f.remainingBodyBytes == t.slot.totalBodyBytes - t.slot.bodyOffset
  }

  /** The first fragment is accepted by the fallback exactly when a transaction accepts it. */
  lemma FirstFragmentsAgree(target: Target, f: Fallback, data: seq<byte>, t: Tx)
    requires Valid(t) && t.state == WaitingForInitialWrite && t.slot.hasBuffer
    ensures var r := Write(t, data);
            var g := FallbackWrite(target, f, true, data);
            && (g.Some? <==> r.status == Done)
            && (g.Some? ==>
                  Mirrors(g.value, r.tx) && Answers(g.value.status, target, r.tx.slot.opcode, r.tx.slot.iid))
  {
    if |data| >= 5 {
      ControlFieldRoundTrip(data[0]);
      var body := data[5..];
      assert |body| >= 2 ==> ReadLittleUInt16(body, 0) == ReadLittleUInt16(data, 5);
    }
  }

  /** A continuation is accepted by the fallback exactly when the mirrored transaction accepts it. */
  lemma ContinuationsAgree(target: Target, f: Fallback, data: seq<byte>, t: Tx)
    requires Mirrors(f, t) && t.slot.hasBuffer
    ensures var r := Write(t, data);
            var g := FallbackWrite(target, f, false, data);
            && (g.Some? <==> r.status == Done)
            && (g.Some? ==> Mirrors(g.value, r.tx) && g.value.status == f.status
                            && r.tx.slot == AtOffset(t.slot, r.tx.slot.bodyOffset))
  {
    if |data| >= 2 {
      ControlFieldRoundTrip(data[0]);
    }
  }

  // Whole connections.

  /** A connection with the plaintext writes that every active fallback has taken. */
  datatype Connection = Connection(manager: Manager, taken: seq<seq<seq<byte>>>)

  predicate ValidConnection(targets: seq<Target>, k: Connection) {
    ValidManager(targets, k.manager) && |k.taken| == |targets|
  }

  function NextConnection(targets: seq<Target>, k: Connection, e: ManagerEvent): (n: Connection)
    requires ValidConnection(targets, k)
    ensures ValidConnection(targets, n)
  {
    if !e.FullTimerExpired? && e.c >= |targets| then k else
    HandleKeepsValid(targets, k.manager, e);
    var r := Handle(targets, k.manager, e);
    Connection(r.manager,
               seq(|targets|, i requires 0 <= i < |targets| =>
                 if r.manager.fallbacks[i].None? then []
                 else if r.skipped.Some? && e.c == i then (if r.isNew then [] else k.taken[i]) + [r.skipped.value]
                 else k.taken[i]))
  }

  function Established(targets: seq<Target>, scratch: seq<byte>): (k: Connection)
    ensures ValidConnection(targets, k)
  {
    Connection(Manager(None, Attached(scratch, false, false), seq(|targets|, _ => None)), seq(|targets|, _ => []))
  }

  function ConnectionAfter(targets: seq<Target>, scratch: seq<byte>, events: seq<ManagerEvent>): (k: Connection)
    ensures ValidConnection(targets, k)
  {
    if events == [] then Established(targets, scratch)
    else NextConnection(targets, ConnectionAfter(targets, scratch, events[..|events| - 1]), events[|events| - 1])
  }

  const START: Received := Received(Created(true, 0), [])

  /** A transaction that is given the same writes accepts them all and is mirrored by the fallback. */
  predicate Shadowed(target: Target, f: Fallback, taken: seq<seq<byte>>) {
    && taken != []
    && WriteAll(START, taken).Some?
    && Mirrors(f, WriteAll(START, taken).value.tx)
    && WriteAll(START, taken).value.tx.slot.hasBuffer
    && Answers(f.status, target, WriteAll(START, taken).value.tx.slot.opcode,
               WriteAll(START, taken).value.tx.slot.iid)
  }

  predicate AllShadowed(targets: seq<Target>, k: Connection)
    requires ValidConnection(targets, k)
  {
    k.manager.full.terminal ||
    forall i :: 0 <= i < |targets| && k.manager.fallbacks[i].Some? ==>
      Shadowed(targets[i], k.manager.fallbacks[i].value, k.taken[i])
  }

  lemma ShadowedFirst(target: Target, f: Fallback, data: seq<byte>)
    requires FallbackWrite(target, f, true, data).Some?
    ensures Shadowed(target, FallbackWrite(target, f, true, data).value, [] + [data])
  {
    var taken := [] + [data];
    assert taken[..0] == [];
    assert WriteAll(START, taken[..0]) == Some(START);
    FirstFragmentsAgree(target, f, data, START.tx);
    WriteKeepsValid(START.tx, data);
  }

  lemma ShadowedNext(target: Target, f: Fallback, taken: seq<seq<byte>>, data: seq<byte>)
    requires Shadowed(target, f, taken) && FallbackWrite(target, f, false, data).Some?
    ensures Shadowed(target, FallbackWrite(target, f, false, data).value, taken + [data])
  {
    assert (taken + [data])[..|taken|] == taken;
    ContinuationsAgree(target, f, data, WriteAll(START, taken).value.tx);
    WriteKeepsValid(WriteAll(START, taken).value.tx, data);
  }

  /** In a live session a fallback either stays as it is or takes the write that is addressed to it. */
  lemma FallbackAfter(targets: seq<Target>, m: Manager, e: ManagerEvent, i: nat)
    requires ValidManager(targets, m) && i < |targets|
    requires !e.FullTimerExpired? ==> e.c < |targets|
    requires var n := Handle(targets, m, e).manager; !n.full.terminal && n.fallbacks[i].Some?
    ensures !m.full.terminal
    ensures var r := Handle(targets, m, e);
            (r.skipped.Some? ==> e.WriteRequest?) &&
            if r.skipped.Some? && e.c == i then
              exists f :: r.manager.fallbacks[i] == FallbackWrite(targets[i], f, r.isNew, r.skipped.value)
                          && (!r.isNew ==> m.fallbacks[i] == Some(f))
            else r.manager.fallbacks[i] == m.fallbacks[i]
  {
    hide Step, ValidProc, FallbackWrite, FallbackResponse, Decrypted;
    match e
    case WriteRequest(c, _, env) =>
      var n := Attach(targets, m, c, env).1;
      assert n.fallbacks[c].Some? ==> n.fallbacks[c] == Some(n.fallbacks[c].value);
    case ReadRequest(_, _, _) =>
    case FullTimerExpired =>
      if m.attached.Some? {
        StepKeepsTerminal(targets, m);
      }
    case FallbackTimerExpired(_) =>
  }

  lemma StepKeepsTerminal(targets: seq<Target>, m: Manager)
    requires ValidManager(targets, m) && m.attached.Some?
    ensures m.full.terminal ==> Step(targets[m.attached.value], m.full, TimerExpired).proc.terminal
  {
  }

  lemma StepKeepsShadows(targets: seq<Target>, k: Connection, e: ManagerEvent)
    requires ValidConnection(targets, k) && AllShadowed(targets, k)
    ensures AllShadowed(targets, NextConnection(targets, k, e))
  {
    hide Handle, Shadowed, FallbackWrite;
    var n := NextConnection(targets, k, e);
    if (e.FullTimerExpired? || e.c < |targets|) && !n.manager.full.terminal {
      var r := Handle(targets, k.manager, e);
      forall i | 0 <= i < |targets| && n.manager.fallbacks[i].Some?
        ensures Shadowed(targets[i], n.manager.fallbacks[i].value, n.taken[i])
      {
        FallbackAfter(targets, k.manager, e, i);
        if r.skipped.Some? && e.WriteRequest? && e.c == i {
          var f :| r.manager.fallbacks[i] == FallbackWrite(targets[i], f, r.isNew, r.skipped.value)
                   && (!r.isNew ==> k.manager.fallbacks[i] == Some(f));
          if r.isNew {
            ShadowedFirst(targets[i], f, r.skipped.value);
          } else {
            ShadowedNext(targets[i], f, k.taken[i], r.skipped.value);
          }
        }
      }
    }
  }

  lemma {:induction false} EveryConnectionIsShadowed(targets: seq<Target>, scratch: seq<byte>,
      events: seq<ManagerEvent>)
    ensures AllShadowed(targets, ConnectionAfter(targets, scratch, events))
  {
    if events != [] {
      EveryConnectionIsShadowed(targets, scratch, events[..|events| - 1]);
      StepKeepsShadows(targets, ConnectionAfter(targets, scratch, events[..|events| - 1]), events[|events| - 1]);
    }
  }

  /**
   * Whenever a fallback answers, the controller has sent the whole request: as many body bytes as its
   * first fragment declared. The answer is a complete response with the request's identifier.
   */
  lemma FallbackAnswersWholeRequest(targets: seq<Target>, scratch: seq<byte>, events: seq<ManagerEvent>,
      e: ManagerEvent)
    requires e.ReadRequest? && e.c < |targets|
    ensures var k := ConnectionAfter(targets, scratch, events);
            var taken := k.taken[e.c];
            var r := Handle(targets, k.manager, e);
            r.status == Done && r.attachment == ToFallback ==>
              && taken != [] && |taken[0]| >= REQUEST_HEADER_BYTES
              && |BodySent(taken)| == DeclaredLength(taken[0])
              && r.manager.fallbacks[e.c].None?
              && var opcode, tid, iid := taken[0][1], taken[0][2], ReadLittleUInt16(taken[0], 3);
                 Reassemble([r.packet])
                 == Some(if !IsKnown(opcode) || IsForThis(targets[e.c], opcode, iid) then Message(tid, 0x02, 0, [])
                         else if opcode == 0x06 && iid == 0 then Message(tid, 0x00, 2, [0x10, 0x00])
                         else Message(tid, 0x04, 0, []))
  {
    hide Step, FallbackWrite, WriteAll;
    EveryConnectionIsShadowed(targets, scratch, events);
    var k := ConnectionAfter(targets, scratch, events);
    var r := Handle(targets, k.manager, e);
    if r.status == Done && r.attachment == ToFallback {
      var f := k.manager.fallbacks[e.c].value;
      assert Shadowed(targets[e.c], f, k.taken[e.c]);
      RequestIsReassembled(true, 0, [], k.taken[e.c]);
      FallbackResponseParses(f);
    }
  }

  lemma FallbackResponseParses(f: Fallback)
    ensures Reassemble([FallbackResponse(f)])
            == Some(match f.status
                    case MaxProcedures => Message(f.tid, 0x02, 0, [])
                    case InvalidInstanceID => Message(f.tid, 0x04, 0, [])
                    case ZeroInstanceIDServiceSignatureRead => Message(f.tid, 0x00, 2, [0x10, 0x00]))
  {
    var (status, body) := match f.status
      case MaxProcedures => (MAX_PROCEDURES, NoBody)
      case InvalidInstanceID => (INVALID_INSTANCE_ID, NoBody)
      case ZeroInstanceIDServiceSignatureRead => (SUCCESS, Body(2, [HAP_LINKED_SERVICES, 0]));
    var pdu := FirstResponse(f.tid, status, body);
    assert FallbackResponse(f) == Encode(pdu);
    DecodeEncodedFirst(pdu);
  }
}
