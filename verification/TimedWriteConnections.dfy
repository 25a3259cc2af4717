/**
 * Timed Writes over whole connections: the one full procedure is attached to ever other characteristics, gives way
 * to pairing and times out, while fallback procedures answer for the rest.
 */
module TimedWriteConnections {
  import opened Bytes
  import opened TransactionModel
  import opened ProcedureModel
  import opened ManagerModel
  import opened WriteFields
  import opened ValueFormats
  import opened TimedWrites
  import Fallbacks

  /** A connection with the body bytes sent in the full procedure's transaction and the record of the past. */
  datatype History = History(manager: Manager, wire: seq<byte>, log: seq<Record>)

  predicate Attaches(r: Handled) {
    r.isNew && r.attachment == ToFull
  }

  function NextHistory(targets: seq<Target>, h: History, e: ManagerEvent): (n: History)
    requires ValidManager(targets, h.manager)
    ensures ValidManager(targets, n.manager)
  {
    if !e.FullTimerExpired? && e.c >= |targets| then h else
    Fallbacks.HandleKeepsValid(targets, h.manager, e);
    var r := Handle(targets, h.manager, e);
    var wire := if Attaches(r) then [] else h.wire;
    History(r.manager,
            if r.manager.full.tx.state == WaitingForInitialWrite then [] else wire + r.fragment,
            if e.FullTimerExpired? then h.log else h.log + Records(r.entries, wire, targets[e.c]))
  }

  /** What `events` lead to after a central connected. */
  function HistoryAfter(targets: seq<Target>, scratch: seq<byte>, events: seq<ManagerEvent>): (h: History)
    ensures ValidManager(targets, h.manager)
  {
    if events == [] then History(Fallbacks.Established(targets, scratch).manager, [], [])
    else NextHistory(targets, HistoryAfter(targets, scratch, events[..|events| - 1]), events[|events| - 1])
  }

  /** What is recorded is justified, and the attached procedure remembers what it has to. */
  predicate GoodHistory(targets: seq<Target>, h: History) {
    && ValidManager(targets, h.manager) && Faithful(h.log)
    && match h.manager.attached
       case None => h.manager.full.multi.NoneActive?
       case Some(c) => Good(targets[c], Run(h.manager.full, h.wire, h.log))
  }

  lemma GoodAttached(target: Target, scratch: seq<byte>, terminal: bool, transient: bool, log: seq<Record>)
    requires Faithful(log)
    ensures Good(target, Run(Attached(scratch, terminal, transient), [], log))
  {
  }

  /** The event that the full procedure sees. */
  function FullEvent(e: ManagerEvent): Event {
    match e
    case WriteRequest(_, bytes, env) => GattWrite(bytes, env.writeEnv)
    case ReadRequest(_, maxBytes, env) => GattRead(maxBytes, env)
    case FullTimerExpired => TimerExpired
    case FallbackTimerExpired(_) => TimerExpired
  }

  /** The procedure that handles the event: the old one, or a new one over the same buffer and session. */
  function Handling(m: Manager, r: Handled): Proc {
    if Attaches(r) then Attached(m.full.scratch, m.full.terminal, m.full.transient) else m.full
  }

  /** The full procedure makes one step. */
  predicate StepsFull(targets: seq<Target>, m: Manager, e: ManagerEvent, r: Handled)
    requires ValidManager(targets, m)
  {
    && !e.FallbackTimerExpired?
    && r.manager.attached.Some? && r.manager.attached.value < |targets|
    && (!e.FullTimerExpired? ==> r.manager.attached == Some(e.c))
    && (!Attaches(r) ==> m.attached == r.manager.attached)
    && ValidProc(Handling(m, r))
    && var s := Step(targets[r.manager.attached.value], Handling(m, r), FullEvent(e));
       r.manager.full == s.proc && r.fragment == s.fragment && r.entries == s.entries && r.status == s.status
  }

  /** The full procedure is left alone, except that the session may have become terminal. */
  predicate KeepsFull(m: Manager, r: Handled) {
    && r.manager.attached == m.attached
    && (r.manager.full == m.full || r.manager.full == m.full.(terminal := true))
    && !Attaches(r) && r.fragment == [] && r.entries == [] && r.status != Aborted
  }

  lemma FullAfter(targets: seq<Target>, m: Manager, e: ManagerEvent)
    requires ValidManager(targets, m)
    requires !e.FullTimerExpired? ==> e.c < |targets|
    ensures var r := Handle(targets, m, e); StepsFull(targets, m, e, r) || KeepsFull(m, r)
  {
    hide HandleWrite, HandleRead;
    match e
    case WriteRequest(c, bytes, env) => FullAfterWrite(targets, m, c, bytes, env);
    case ReadRequest(c, maxBytes, env) => FullAfterRead(targets, m, c, maxBytes, env);
    case FullTimerExpired =>
    case FallbackTimerExpired(_) =>
  }

  /** Attaching either provides the full procedure, old or new, or leaves it alone. */
  lemma FullAfterAttach(targets: seq<Target>, m: Manager, c: nat, env: ManagerEnv)
    requires ValidManager(targets, m) && c < |targets|
    ensures var (status, n, attachment, isNew) := Attach(targets, m, c, env);
            && ValidManager(targets, n)
            && (status == Done && attachment == ToFallback ==> n.fallbacks[c].Some?)
            && (status != Done || attachment == ToFallback ==>
                  && n.attached == m.attached && !(isNew && attachment == ToFull)
                  && (n.full == m.full || n.full == m.full.(terminal := true)))
            && (status == Done && attachment == ToFull ==>
                  && n.attached == Some(c) && (!isNew ==> m.attached == Some(c))
                  && n.full == if isNew then Attached(m.full.scratch, m.full.terminal, m.full.transient) else m.full)
  {
    hide ValidProc;
    Fallbacks.AttachKeepsValid(targets, m, c, env);
  }

  lemma FallbackKeepsFull(target: Target, n: Manager, c: nat, bytes: seq<byte>, env: WriteEnv, isNew: bool)
    requires c < |n.fallbacks| && n.fallbacks[c].Some?
    ensures KeepsFull(n, WriteToFallback(target, n, c, bytes, env, isNew))
  {
    hide FallbackWrite, Decrypted;
  }

  lemma FullAfterWrite(targets: seq<Target>, m: Manager, c: nat, bytes: seq<byte>, env: ManagerEnv)
    requires ValidManager(targets, m) && c < |targets|
    ensures var r := HandleWrite(targets, m, c, bytes, env);
            StepsFull(targets, m, WriteRequest(c, bytes, env), r) || KeepsFull(m, r)
  {
    assert ValidProc(Attached(m.full.scratch, m.full.terminal, m.full.transient));
    FullAfterAttach(targets, m, c, env);
    hide Step, WriteToFallback, ValidProc, Created, Attach;
    var (status, n, attachment, isNew) := Attach(targets, m, c, env);
    if status == Done && attachment == ToFallback {
      FallbackKeepsFull(targets[c], n, c, bytes, env.writeEnv, isNew);
    }
  }

  lemma FullAfterReadFrom(targets: seq<Target>, m: Manager, c: nat, maxBytes: nat, env: ReadEnv)
    requires ValidManager(targets, m) && c < |targets|
    ensures var r := ReadFrom(targets, m, c, maxBytes, env);
            StepsFull(targets, m, ReadRequest(c, maxBytes, env), r) || KeepsFull(m, r)
  {
    hide Step, FallbackResponse, ValidProc;
  }

  lemma FullAfterRead(targets: seq<Target>, m: Manager, c: nat, maxBytes: nat, env: ReadEnv)
    requires ValidManager(targets, m) && c < |targets|
    ensures var r := HandleRead(targets, m, c, maxBytes, env);
            StepsFull(targets, m, ReadRequest(c, maxBytes, env), r) || KeepsFull(m, r)
  {
    hide Step, ReadFrom, ValidProc;
    if !m.full.terminal {
      FullAfterReadFrom(targets, m, c, maxBytes, env);
      FullAfterReadFrom(targets, m.(fallbacks := ManagerModel.Aborted(m.fallbacks)), c, maxBytes, env);
    }
  }

  lemma TimerMakesNoEntry(target: Target, run: Run)
    requires ValidProc(run.proc)
    ensures Step(target, run.proc, TimerExpired).entries == []
    ensures Next(target, run, TimerExpired).log == run.log
  {
  }

  lemma KeptIsGood(targets: seq<Target>, h: History, e: ManagerEvent)
    requires GoodHistory(targets, h) && (!e.FullTimerExpired? ==> e.c < |targets|)
    requires KeepsFull(h.manager, Handle(targets, h.manager, e))
    ensures GoodHistory(targets, NextHistory(targets, h, e))
  {
    hide Handle, Faithful, Settled;
    var r := Handle(targets, h.manager, e);
    Fallbacks.HandleKeepsValid(targets, h.manager, e);
    assert h.log + [] == h.log && h.wire + [] == h.wire;
  }

  lemma SteppedIsGood(targets: seq<Target>, h: History, e: ManagerEvent)
    requires GoodHistory(targets, h) && (!e.FullTimerExpired? ==> e.c < |targets|)
    requires StepsFull(targets, h.manager, e, Handle(targets, h.manager, e))
    ensures GoodHistory(targets, NextHistory(targets, h, e))
  {
    hide Handle, Faithful, Settled, Remembered, Step;
    var r := Handle(targets, h.manager, e);
    Fallbacks.HandleKeepsValid(targets, h.manager, e);
    var target := targets[r.manager.attached.value];
    var run := Run(Handling(h.manager, r), if Attaches(r) then [] else h.wire, h.log);
    if Attaches(r) {
      GoodAttached(target, h.manager.full.scratch, h.manager.full.terminal, h.manager.full.transient, h.log);
    }
    TimerMakesNoEntry(target, run);
    StepIsGood(target, run, FullEvent(e));
  }

  /** A connection keeps the invariant, whatever happens. */
  lemma {:induction false} EveryHistoryIsGood(targets: seq<Target>, scratch: seq<byte>, events: seq<ManagerEvent>)
    ensures GoodHistory(targets, HistoryAfter(targets, scratch, events))
  {
    if events != [] {
      var n := |events| - 1;
      var h, e := HistoryAfter(targets, scratch, events[..n]), events[n];
      EveryHistoryIsGood(targets, scratch, events[..n]);
      if e.FullTimerExpired? || e.c < |targets| {
        FullAfter(targets, h.manager, e);
        if KeepsFull(h.manager, Handle(targets, h.manager, e)) {
          KeptIsGood(targets, h, e);
        } else {
          SteppedIsGood(targets, h, e);
        }
      }
    }
  }

  /**
   * Over a whole connection, what an Execute Write hands over is the value of the Timed Write that the controller sent
   * last: to the same characteristic, byte for byte, at most once, and within the time to live that it states.
   */
  lemma ConnectionHandsOverInTime(targets: seq<Target>, scratch: seq<byte>, events: seq<ManagerEvent>, i: nat)
    requires i < |HistoryAfter(targets, scratch, events).log|
    ensures var log := HistoryAfter(targets, scratch, events).log;
            log[i].entry.Handed? && log[i].entry.timed ==>
              && i > 0 && log[i - 1].target == log[i].target && log[i - 1].entry.Deferred?
              && log[i].entry.body == log[i - 1].entry.body == log[i - 1].wire
              && ParseFields(log[i - 1].wire, log[i].target.supportsAuthData) == Some(log[i].entry.fields)
              && Conforms(log[i].target.format, log[i].entry.fields.value)
              && log[i].entry.fields.ttl != 0
              && log[i].entry.time <= log[i - 1].entry.time + 100 * log[i].entry.fields.ttl
              && (i + 1 < |log| && log[i + 1].entry.Handed? ==> !log[i + 1].entry.timed)
  {
    hide ParseFields, Conforms;
    EveryHistoryIsGood(targets, scratch, events);
    var log := HistoryAfter(targets, scratch, events).log;
    assert FaithfulAt(log, i);
    assert i > 0 ==> FaithfulAt(log, i - 1);
    assert i + 1 < |log| ==> FaithfulAt(log, i + 1);
  }

  lemma OnlyWritesAttach(targets: seq<Target>, m: Manager, e: ManagerEvent)
    requires ValidManager(targets, m)
    requires !e.FullTimerExpired? ==> e.c < |targets|
    ensures Attaches(Handle(targets, m, e)) ==> e.WriteRequest?
  {
    hide Step, FallbackResponse;
  }

  lemma WriteDefersNothing(target: Target, p: Proc, e: Event)
    requires ValidProc(p) && p.multi.NoneActive? && e.GattWrite?
    ensures Step(target, p, e).proc.multi.NoneActive?
  {
    hide Write;
  }

  /** While a Timed Write is pending in a live session, nothing that happens on the connection changes its bytes. */
  lemma PendingBodyOutlastsOthers(targets: seq<Target>, scratch: seq<byte>, events: seq<ManagerEvent>, e: ManagerEvent)
    ensures var p := HistoryAfter(targets, scratch, events).manager.full;
            var q := HistoryAfter(targets, scratch, events + [e]).manager.full;
            p.multi.TimedWrite? && !p.terminal && q.multi.TimedWrite? ==> q.multi == p.multi && q.scratch == p.scratch
  {
    hide Handle, Faithful, Remembered, Settled, ValidProc, Step, Records;
    EveryHistoryIsGood(targets, scratch, events);
    assert (events + [e])[..|events|] == events;
    var m := HistoryAfter(targets, scratch, events).manager;
    if m.full.multi.TimedWrite? && !m.full.terminal && (e.FullTimerExpired? || e.c < |targets|) {
      FullAfter(targets, m, e);
      var r := Handle(targets, m, e);
      if KeepsFull(m, r) {
        return;
      }
      var target := targets[r.manager.attached.value];
      if Attaches(r) {
        OnlyWritesAttach(targets, m, e);
        WriteDefersNothing(target, Handling(m, r), FullEvent(e));
      } else {
        PendingAfterStep(target, m.full, FullEvent(e));
      }
    }
  }

  /**
   * In a live connection the only events that abort are those of the attached procedure, in its two cases; above all,
   * a Timed Write is never pending over a session that has become transient.
   */
  lemma ConnectionAbortsIff(targets: seq<Target>, scratch: seq<byte>, events: seq<ManagerEvent>, e: ManagerEvent)
    requires !e.FullTimerExpired? ==> e.c < |targets|
    ensures var m := HistoryAfter(targets, scratch, events).manager;
            !m.full.terminal ==>
              && (m.full.multi.TimedWrite? ==> !m.full.transient)
              && (Handle(targets, m, e).status == Aborted <==> AbortsProcedure(targets, m, e))
  {
    hide Handle, Faithful, Remembered;
    EveryHistoryIsGood(targets, scratch, events);
    var h := HistoryAfter(targets, scratch, events);
    if !h.manager.full.terminal {
      HandleAbortsIff(targets, h, e);
    }
  }

  /** The event goes to the attached procedure and meets one of its two cases there. */
  predicate AbortsProcedure(targets: seq<Target>, m: Manager, e: ManagerEvent)
    requires ValidManager(targets, m) && (!e.FullTimerExpired? ==> e.c < |targets|)
  {
    && (e.WriteRequest? || e.ReadRequest?) && m.attached == Some(e.c)
    && (EmptyBodyWhilePending(m.full, FullEvent(e)) || LacksRoom(targets[e.c], m.full, FullEvent(e)))
  }

  lemma HandleAbortsIff(targets: seq<Target>, h: History, e: ManagerEvent)
    requires GoodHistory(targets, h) && !h.manager.full.terminal && (!e.FullTimerExpired? ==> e.c < |targets|)
    ensures Handle(targets, h.manager, e).status == Aborted <==> AbortsProcedure(targets, h.manager, e)
  {
    hide Step, Faithful, Remembered, Handle;
    var m, r := h.manager, Handle(targets, h.manager, e);
    FullAfter(targets, m, e);
    if StepsFull(targets, m, e, r) {
      var target := targets[r.manager.attached.value];
      if Attaches(r) {
        GoodAttached(target, m.full.scratch, m.full.terminal, m.full.transient, []);
      }
      SettledAbortsIff(target, Handling(m, r), FullEvent(e));
    }
    if AbortsProcedure(targets, m, e) {
      AttachedProcedureSteps(targets, m, e);
    }
  }

  lemma AttachedProcedureSteps(targets: seq<Target>, m: Manager, e: ManagerEvent)
    requires ValidManager(targets, m) && !m.full.terminal && m.full.timer
    requires (e.WriteRequest? || e.ReadRequest?) && m.attached == Some(e.c)
    ensures var r := Handle(targets, m, e); StepsFull(targets, m, e, r) && !Attaches(r)
  {
    hide Step, ValidProc;
  }
}
