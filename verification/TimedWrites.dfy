/**
 * Timed Writes over whole runs (section 7.3.5.4 of HAP Specification R14): the body that an Execute
 * Write hands to the application is the body that the controller sent with the Timed Write, it is
 * handed over at most once and only within its time to live.
 */
module TimedWrites {
  import opened Bytes
  import opened RawBuffer
  import opened Pdu
  import opened TransactionModel
  import opened ProcedureModel
  import opened ProcedureAnswers
  import opened WriteFields
  import opened ValueFormats

  /**
   * An entry together with the characteristic it is for and the request body that had been sent when it was made.
   */
  datatype Record = Record(entry: Entry, wire: seq<byte>, target: Target)

  /** A procedure with the body bytes sent in the current transaction and the record of the past. */
  datatype Run = Run(proc: Proc, wire: seq<byte>, log: seq<Record>)

  function Records(entries: seq<Entry>, wire: seq<byte>, target: Target): seq<Record> {
    if entries == [] then []
    else [Record(entries[0], wire, target)] + Records(entries[1..], wire, target)
  }

  function Next(target: Target, run: Run, e: Event): Run
    requires ValidProc(run.proc)
  {
    var r := Step(target, run.proc, e);
    Run(r.proc,
        if r.proc.tx.state == WaitingForInitialWrite then [] else run.wire + r.fragment,
        run.log + Records(r.entries, run.wire, target))
  }

  lemma NextKeepsValid(target: Target, run: Run, e: Event)
    requires ValidProc(run.proc)
    ensures ValidProc(Next(target, run, e).proc)
    ensures |Next(target, run, e).proc.scratch| == |run.proc.scratch|
  {
    match e
    case GattWrite(bytes, env) => WriteKeepsValidProc(target, run.proc, bytes, env);
    case GattRead(maxBytes, env) => ReadKeepsValidProc(target, run.proc, maxBytes, env);
    case TimerExpired =>
  }

  lemma WriteKeepsValidProc(target: Target, p: Proc, bytes: seq<byte>, env: WriteEnv)
    requires ValidProc(p)
    ensures ValidProc(HandleGattWrite(target, p, bytes, env).proc)
    ensures |HandleGattWrite(target, p, bytes, env).proc.scratch| == |p.scratch|
  {
    hide Write;
    var q := if p.timer then p else Start(target, p, env).1;
    var plain := Decrypted(q.startedSecured, bytes, env);
    WriteKeepsValid(q.tx, if plain.Ok? then plain.value else bytes);
  }

  lemma ReadKeepsValidProc(target: Target, p: Proc, maxBytes: nat, env: ReadEnv)
    requires ValidProc(p)
    ensures ValidProc(HandleGattRead(target, p, maxBytes, env).proc)
    ensures |HandleGattRead(target, p, maxBytes, env).proc.scratch| == |p.scratch|
  {
    hide Prepare, Send, ValidProc;
    PrepareKeepsValid(target, p, env);
    var q := Prepare(target, p, env).proc;
    SendKeepsValidProc(q, if p.startedSecured && maxBytes >= TAG_BYTES then maxBytes - TAG_BYTES else maxBytes, env);
  }

  lemma SendKeepsValidProc(p: Proc, maxBytes: nat, env: ReadEnv)
    requires ValidProc(p)
    ensures ValidProc(Send(p, maxBytes, env).proc) && |Send(p, maxBytes, env).proc.scratch| == |p.scratch|
  {
    hide Read;
    ReadKeepsValid(p.tx, p.scratch, maxBytes);
  }

  /** The run that `events` lead to after attaching a procedure to a scratch buffer, over any live session. */
  function RunAll(target: Target, scratch: seq<byte>, transient: bool, events: seq<Event>): (run: Run)
    ensures ValidProc(run.proc) && |run.proc.scratch| == |scratch|
  {
    if events == [] then Run(Attached(scratch, false, transient), [], []) else
    var prior := RunAll(target, scratch, transient, events[..|events| - 1]);
    NextKeepsValid(target, prior, events[|events| - 1]);
    Next(target, prior, events[|events| - 1])
  }

  // The invariant.

  /**
   * Between events: no request is being handled, no response is complete, and the transaction has the
   * scratch buffer exactly when no Timed Write is pending. A procedure without a timer is pristine, and
   * a Timed Write is never pending over a transient session.
   */
  predicate Settled(p: Proc) {
    && ValidProc(p)
    && p.tx.state != HandlingRequest
    && (p.tx.slot.RequestSlot? ==> (p.tx.slot.hasBuffer <==> p.multi.NoneActive?))
    && (p.tx.slot.ResponseSlot? && p.multi.TimedWrite? ==> !p.tx.slot.hasBody)
    && (p.tx.state == WritingResponse ==> p.tx.slot.hasBody && p.tx.slot.bodyOffset < p.tx.slot.totalBodyBytes)
    && (p.tx.state == WaitingForInitialWrite ==> p.tx == Created(p.tx.slot.hasBuffer, p.tx.slot.maxBodyBytes))
    && (!p.timer ==> p.multi.NoneActive? && p.tx.state == WaitingForInitialWrite)
    && (p.multi.TimedWrite? ==> !p.transient)
  }

  /** Every entry of the record is justified. */
  predicate Faithful(log: seq<Record>) {
    forall i :: 0 <= i < |log| ==> FaithfulAt(log, i)
  }

  predicate FaithfulAt(log: seq<Record>, i: nat)
    requires i < |log|
  {
    Justified(if i > 0 then Some(log[i - 1]) else None, log[i])
  }

  /**
   * A body is the one that was sent. What was handed over parses to the recorded fields; a Timed Write was deferred
   * just before, and its time to live, as the body states it, is not over.
   */
  predicate Justified(previous: Option<Record>, record: Record) {
    match record.entry
    case Deferred(body, _) => body == record.wire
    case Handed(body, fields, timed, time) =>
      && ParseFields(body, record.target.supportsAuthData) == Some(fields)
      && |fields.value| <= MAX_VALUE_BYTES && Conforms(record.target.format, fields.value)
      && if timed then
           && previous.Some? && previous.value.target == record.target
           && previous.value.entry.Deferred? && previous.value.entry.body == body
           && fields.ttl != 0 && time <= previous.value.entry.time + 100 * fields.ttl
         else body == record.wire
  }

  /** The scratch buffer holds the pending Timed Write, or what has been sent of the current request. */
  predicate Remembered(target: Target, run: Run)
    requires ValidProc(run.proc)
  {
    var p := run.proc;
    && (p.multi.TimedWrite? ==>
          run.log != []
          && run.log[|run.log| - 1].entry == Deferred(p.scratch[..p.multi.numBytes], p.multi.startTime)
          && run.log[|run.log| - 1].target == target)
    && (p.tx.state == WaitingForInitialWrite ==> run.wire == [])
    && (p.tx.state == ReadingRequest && p.multi.NoneActive? && BodyFits(p.tx) ==>
          |run.wire| == p.tx.slot.bodyOffset && p.scratch[..p.tx.slot.bodyOffset] == run.wire)
  }

  predicate Good(target: Target, run: Run) {
    && ValidProc(run.proc)
    && Faithful(run.log)
    && (run.proc.terminal || (Settled(run.proc) && Remembered(target, run)))
  }

  lemma GoodWrite(target: Target, run: Run, bytes: seq<byte>, env: WriteEnv)
    requires Good(target, run)
    ensures Good(target, Next(target, run, GattWrite(bytes, env)))
  {
    hide Write, Stored;
    NextKeepsValid(target, run, GattWrite(bytes, env));
    var p := run.proc;
    var r := HandleGattWrite(target, p, bytes, env);
    assert run.log + Records([], run.wire, target) == run.log;
    if !p.terminal && r.status == Done {
      var q := if p.timer then p else Start(target, p, env).1;
      var plain := Decrypted(q.startedSecured, bytes, env).value;
      assert Settled(q) && Remembered(target, Run(q, run.wire, run.log));
      GoodTransactionWrite(target, Run(q, run.wire, run.log), plain);
    }
  }

  lemma GoodTransactionWrite(target: Target, run: Run, bytes: seq<byte>)
    requires Settled(run.proc) && Remembered(target, run)
    requires run.proc.timer && Write(run.proc.tx, bytes).status == Done
    ensures var r := Write(run.proc.tx, bytes);
            var scratch := if run.proc.multi.NoneActive? then Stored(run.proc.scratch, r) else run.proc.scratch;
            var q := run.proc.(tx := r.tx, scratch := scratch);
            && |scratch| == |run.proc.scratch|
            && r.tx.state != WaitingForInitialWrite
            && Settled(q) && Remembered(target, Run(q, run.wire + r.fragment, run.log))
            && (run.proc.tx.slot.ResponseSlot? ==> r.tx == run.proc.tx && r.fragment == [])
            && (run.proc.tx.slot.RequestSlot? ==> r.tx.slot.RequestSlot?)
  {
    var p := run.proc;
    var r := Write(p.tx, bytes);
    TransactionAfterWrite(p.tx, bytes);
    hide Write;
    if r.tx.slot.RequestSlot? && p.multi.NoneActive? && BodyFits(r.tx) {
      PrefixGrows(p.scratch, r.tx.slot.bodyOffset - |r.fragment|, r.fragment);
    }
    hide Overwritten;
  }

  lemma PrefixGrows(mem: seq<byte>, before: nat, fragment: seq<byte>)
    requires before + |fragment| <= |mem|
    ensures Overwritten(mem, before, fragment)[..before + |fragment|] == mem[..before] + fragment
  {
  }

  /** An accepted write to a transaction that is not handling a request. */
  lemma TransactionAfterWrite(t: Tx, bytes: seq<byte>)
    requires Valid(t) && t.state != HandlingRequest && Write(t, bytes).status == Done
    ensures var r := Write(t, bytes);
            && Valid(r.tx)
            && (t.slot.ResponseSlot? ==> r.tx == t && r.fragment == [])
            && (t.slot.RequestSlot? ==>
                  && r.tx.state == ReadingRequest
                  && r.tx.slot.hasBuffer == t.slot.hasBuffer && r.tx.slot.maxBodyBytes == t.slot.maxBodyBytes
                  && r.tx.slot.bodyOffset == t.slot.bodyOffset + |r.fragment|
                  && (t.state == ReadingRequest ==> r.tx.slot.totalBodyBytes == t.slot.totalBodyBytes))
  {
    WriteKeepsValid(t, bytes);
    hide DecodeFirst, DecodeContinuation;
  }

  /** Processing either leaves a pending Timed Write alone or consumes it, and records what it uses. */
  lemma ProcessOutcome(target: Target, env: ReadEnv, transient: bool, tx: Tx, multi: Multi, scratch: seq<byte>)
    requires Valid(tx) && IsRequestAvailable(tx) && tx.slot.maxBodyBytes <= |scratch|
    requires multi.TimedWrite? ==> multi.numBytes <= |scratch|
    ensures var r := Process(target, env, transient, tx, multi, scratch);
            if r.multi.TimedWrite? then
              && r.scratch == scratch && (r.answer.Answer? ==> r.answer.body.None?) && r.transient == transient
              && (if multi.TimedWrite? then r.multi == multi && r.entries == []
                  else BodyFits(tx) && !transient && r.multi == TimedWrite(env.now, tx.slot.totalBodyBytes)
                       && r.entries == [Deferred(scratch[..tx.slot.totalBodyBytes], env.now)])
            else
              || r.entries == []
              || (multi.TimedWrite? && HandsOver(r, target, env, scratch, multi.numBytes, Some(multi.startTime)))
              || (multi.NoneActive? && BodyFits(tx)
                  && HandsOver(r, target, env, scratch, tx.slot.totalBodyBytes, None))
  {
    hide ParseAndWrite, WriteRejection, ReadRejection, Serialized, Used, OtherRequest;
    if multi.TimedWrite? {
      WriteOutcome(target, env, transient, scratch, multi.numBytes, Some(multi.startTime));
    } else if BodyFits(tx) {
      WriteOutcome(target, env, transient, scratch, tx.slot.totalBodyBytes, None);
    }
  }

  /** The only entry is a body at the start of the buffer that parses to acceptable fields. */
  predicate HandsOver(r: Processed, target: Target, env: ReadEnv, scratch: seq<byte>, numBytes: nat,
      startTime: Option<nat>)
    requires numBytes <= |scratch|
  {
    var body := scratch[..numBytes];
    var f := ParseFields(body, target.supportsAuthData);
    && f.Some? && FieldsRejection(target.format, f.value, startTime, env.now).None?
    && r.entries == [Handed(body, f.value, startTime.Some?, env.now)]
  }

  lemma WriteOutcome(target: Target, env: ReadEnv, transient: bool, scratch: seq<byte>, numBytes: nat,
      startTime: Option<nat>)
    requires numBytes <= |scratch|
    ensures var r := ProcessWrite(target, env, transient, scratch, numBytes, startTime);
            r.entries == [] || HandsOver(r, target, env, scratch, numBytes, startTime)
  {
    hide WriteRejection, ParseFields, AfterWrite, FieldsRejection, Used;
  }

  lemma FaithfulAppend(log: seq<Record>, record: Record)
    requires Faithful(log)
    requires Justified(if log != [] then Some(log[|log| - 1]) else None, record)
    ensures Faithful(log + [record])
  {
    hide Justified;
    var all := log + [record];
    forall i | 0 <= i < |all| ensures FaithfulAt(all, i) {
      assert i < |log| ==> FaithfulAt(log, i);
    }
  }

  lemma GoodPrepare(target: Target, run: Run, env: ReadEnv)
    requires Good(target, run) && !run.proc.terminal
    ensures var r := Prepare(target, run.proc, env);
            && Faithful(run.log + Records(r.entries, run.wire, target))
            && ValidProc(r.proc)
            && (r.status == Done && r.proc.tx.slot.ResponseSlot? ==>
                  Settled(r.proc) && r.proc.timer
                  && Remembered(target, Run(r.proc, run.wire, run.log + Records(r.entries, run.wire, target))))
  {
    hide Process, Concluded;
    var p := run.proc;
    PrepareKeepsValid(target, p, env);
    assert run.log + Records([], run.wire, target) == run.log;
    if IsRequestAvailable(p.tx) {
      var r := Process(target, env, p.transient, p.tx, p.multi, p.scratch);
      GoodEntries(target, run, env);
      ProcessOutcome(target, env, p.transient, p.tx, p.multi, p.scratch);
      hide HandsOver, Faithful, Settled, Remembered;
      GoodConcluded(target, run, r, env);
    }
  }

  /** What processing adds to the record is justified. */
  lemma GoodEntries(target: Target, run: Run, env: ReadEnv)
    requires Good(target, run) && !run.proc.terminal && IsRequestAvailable(run.proc.tx)
    ensures var p := run.proc;
            var r := Process(target, env, p.transient, p.tx, p.multi, p.scratch);
            Faithful(run.log + Records(r.entries, run.wire, target))
  {
    hide Process, Faithful, Settled, HandsOver;
    var p := run.proc;
    var r := Process(target, env, p.transient, p.tx, p.multi, p.scratch);
    ProcessOutcome(target, env, p.transient, p.tx, p.multi, p.scratch);
    if r.entries == [] {
      assert run.log + [] == run.log;
      return;
    }
    match p.multi
    case TimedWrite(startTime, numBytes) => TimedEntry(target, run, r, env, numBytes, startTime);
    case NoneActive =>
      assert p.scratch[..p.tx.slot.totalBodyBytes] == run.wire;
      if r.multi.TimedWrite? {
        OneRecord(target, run, r.entries[0]);
      } else {
        PlainEntry(target, run, r, env);
      }
  }

  lemma OneRecord(target: Target, run: Run, entry: Entry)
    requires Faithful(run.log)
    requires Justified(if run.log != [] then Some(run.log[|run.log| - 1]) else None,
                       Record(entry, run.wire, target))
    ensures Faithful(run.log + Records([entry], run.wire, target))
  {
    hide Justified, Faithful;
    var record := Record(entry, run.wire, target);
    assert [entry][1..] == [];
    assert Records([entry], run.wire, target) == [record];
    FaithfulAppend(run.log, record);
  }

  lemma TimedEntry(target: Target, run: Run, r: Processed, env: ReadEnv, numBytes: nat, startTime: nat)
    requires Faithful(run.log) && numBytes <= |run.proc.scratch|
    requires run.log != [] && run.log[|run.log| - 1].entry == Deferred(run.proc.scratch[..numBytes], startTime)
    requires run.log[|run.log| - 1].target == target
    requires HandsOver(r, target, env, run.proc.scratch, numBytes, Some(startTime))
    ensures Faithful(run.log + Records(r.entries, run.wire, target))
  {
    hide Faithful, ParseFields;
    OneRecord(target, run, r.entries[0]);
  }

  lemma PlainEntry(target: Target, run: Run, r: Processed, env: ReadEnv)
    requires Faithful(run.log) && run.proc.tx.slot.RequestSlot?
    requires run.proc.tx.slot.totalBodyBytes <= |run.proc.scratch|
    requires run.proc.scratch[..run.proc.tx.slot.totalBodyBytes] == run.wire
    requires HandsOver(r, target, env, run.proc.scratch, run.proc.tx.slot.totalBodyBytes, None)
    ensures Faithful(run.log + Records(r.entries, run.wire, target))
  {
    hide Faithful, ParseFields;
    OneRecord(target, run, r.entries[0]);
  }

  /** The procedure is settled again, and remembers a newly deferred body. */
  lemma GoodConcluded(target: Target, run: Run, r: Processed, env: ReadEnv)
    requires Good(target, run) && !run.proc.terminal && IsRequestAvailable(run.proc.tx) && Sound(r, run.proc.scratch)
    requires var p := run.proc;
             r.multi.TimedWrite? ==>
               && r.scratch == p.scratch && (r.answer.Answer? ==> r.answer.body.None?) && r.transient == p.transient
               && (if p.multi.TimedWrite? then r.multi == p.multi && r.entries == []
                   else BodyFits(p.tx) && !p.transient && r.multi == TimedWrite(env.now, p.tx.slot.totalBodyBytes)
                        && r.entries == [Deferred(p.scratch[..p.tx.slot.totalBodyBytes], env.now)])
    ensures var c := Concluded(run.proc, r);
            c.entries == (if c.status == Done then r.entries else [])
            && (c.status == Done ==>
                  && c.proc.tx.slot.ResponseSlot?
                  && Settled(c.proc) && c.proc.timer
                  && Remembered(target, Run(c.proc, run.wire, run.log + Records(r.entries, run.wire, target))))
  {
    ConcludedKeepsValid(run.proc, r);
    if r.multi.TimedWrite? && r.entries != [] {
      assert r.entries[1..] == [];
    } else {
      assert run.log + [] == run.log;
    }
  }

  lemma GoodRead(target: Target, run: Run, maxBytes: nat, env: ReadEnv)
    requires Good(target, run)
    ensures Good(target, Next(target, run, GattRead(maxBytes, env)))
  {
    hide Process, Prepare, Send;
    NextKeepsValid(target, run, GattRead(maxBytes, env));
    assert run.log + Records([], run.wire, target) == run.log;
    var p := run.proc;
    if !p.terminal && !(p.startedSecured && maxBytes < TAG_BYTES) {
      GoodPrepare(target, run, env);
      var prepared := Prepare(target, p, env);
      if prepared.status == Done {
        var log := run.log + Records(prepared.entries, run.wire, target);
        GoodSend(target, Run(prepared.proc, run.wire, log),
                 if p.startedSecured then maxBytes - TAG_BYTES else maxBytes, env);
      }
    }
  }

  lemma GoodSend(target: Target, run: Run, maxBytes: nat, env: ReadEnv)
    requires ValidProc(run.proc)
    requires run.proc.tx.slot.ResponseSlot? ==> Settled(run.proc) && run.proc.timer && Remembered(target, run)
    ensures var r := Send(run.proc, maxBytes, env);
            && r.entries == [] && r.fragment == []
            && (r.status == Done ==>
                  var wire := if r.proc.tx.state == WaitingForInitialWrite then [] else run.wire;
                  Settled(r.proc) && Remembered(target, Run(r.proc, wire, run.log)))
  {
    hide Read;
    ReadKeepsValid(run.proc.tx, run.proc.scratch, maxBytes);
    ReadReachesEnd(run.proc.tx, run.proc.scratch, maxBytes);
  }

  lemma ReadReachesEnd(t: Tx, mem: seq<byte>, maxBytes: nat)
    requires Valid(t) && (t.slot.ResponseSlot? ==> t.slot.totalBodyBytes <= |mem|)
    ensures var r := Read(t, mem, maxBytes);
            r.status == Done && !r.isFinalFragment ==>
              r.tx.slot.hasBody && r.tx.slot.bodyOffset < r.tx.slot.totalBodyBytes
  {
    ReadKeepsValid(t, mem, maxBytes);
  }

  lemma StepIsGood(target: Target, run: Run, e: Event)
    requires Good(target, run)
    ensures Good(target, Next(target, run, e))
  {
    match e
    case GattWrite(bytes, env) => GoodWrite(target, run, bytes, env);
    case GattRead(maxBytes, env) => GoodRead(target, run, maxBytes, env);
    case TimerExpired => assert run.log + Records([], run.wire, target) == run.log;
  }

  /** The invariant holds after every sequence of events. */
  lemma {:induction false} EveryRunIsGood(target: Target, scratch: seq<byte>, transient: bool, events: seq<Event>)
    ensures Good(target, RunAll(target, scratch, transient, events))
  {
    if events != [] {
      EveryRunIsGood(target, scratch, transient, events[..|events| - 1]);
      StepIsGood(target, RunAll(target, scratch, transient, events[..|events| - 1]), events[|events| - 1]);
    }
  }

  // What follows for every run.

  /** An executed Timed Write hands over the body that was deferred last, as it was sent, and only once. */
  lemma ExecutedBodyIsTheDeferredOne(target: Target, scratch: seq<byte>, transient: bool, events: seq<Event>, i: nat)
    requires i < |RunAll(target, scratch, transient, events).log|
    ensures var log := RunAll(target, scratch, transient, events).log;
            log[i].entry.Handed? && log[i].entry.timed ==>
              && i > 0 && log[i - 1].entry.Deferred?
              && log[i].entry.body == log[i - 1].entry.body == log[i - 1].wire
              && (i + 1 < |log| && log[i + 1].entry.Handed? ==> !log[i + 1].entry.timed)
  {
    EveryRunIsGood(target, scratch, transient, events);
    var log := RunAll(target, scratch, transient, events).log;
    assert FaithfulAt(log, i);
    assert i > 0 ==> FaithfulAt(log, i - 1);
    assert i + 1 < |log| ==> FaithfulAt(log, i + 1);
  }

  /** It is handed over within the time to live that its own bytes state, counted from when it was deferred. */
  lemma HandedInTime(target: Target, scratch: seq<byte>, transient: bool, events: seq<Event>, i: nat)
    requires i < |RunAll(target, scratch, transient, events).log|
    ensures var log := RunAll(target, scratch, transient, events).log;
            var entry := log[i].entry;
            entry.Handed? && entry.timed ==>
              && ParseFields(entry.body, log[i].target.supportsAuthData) == Some(entry.fields)
              && |entry.fields.value| <= MAX_VALUE_BYTES && Conforms(log[i].target.format, entry.fields.value)
              && entry.fields.ttl != 0
              && i > 0 && log[i - 1].entry.Deferred?
              && entry.time <= log[i - 1].entry.time + 100 * entry.fields.ttl
  {
    EveryRunIsGood(target, scratch, transient, events);
    assert FaithfulAt(RunAll(target, scratch, transient, events).log, i);
  }

  /** A write that is not timed hands over the body of its own request. */
  lemma WrittenBodyIsTheSentOne(target: Target, scratch: seq<byte>, transient: bool, events: seq<Event>, i: nat)
    requires i < |RunAll(target, scratch, transient, events).log|
    ensures var record := RunAll(target, scratch, transient, events).log[i];
            record.entry.Handed? && !record.entry.timed ==>
              && record.entry.body == record.wire
              && ParseFields(record.wire, record.target.supportsAuthData) == Some(record.entry.fields)
              && Conforms(record.target.format, record.entry.fields.value)
  {
    EveryRunIsGood(target, scratch, transient, events);
    assert FaithfulAt(RunAll(target, scratch, transient, events).log, i);
  }

  /**
   * While a Timed Write is pending in a live session the procedure timer runs, and no write or response
   * touches the scratch buffer until the Timed Write is executed.
   */
  lemma PendingBodyIsUntouched(target: Target, scratch: seq<byte>, transient: bool, events: seq<Event>, e: Event)
    ensures var p := RunAll(target, scratch, transient, events).proc;
            var q := RunAll(target, scratch, transient, events + [e]).proc;
            p.multi.TimedWrite? && !p.terminal ==>
              && p.timer
              && (q.multi.TimedWrite? ==> q.multi == p.multi && q.scratch == p.scratch)
  {
    EveryRunIsGood(target, scratch, transient, events);
    var p := RunAll(target, scratch, transient, events).proc;
    assert (events + [e])[..|events|] == events;
    if p.multi.TimedWrite? && !p.terminal {
      PendingAfterStep(target, p, e);
    }
  }

  lemma PendingAfterStep(target: Target, p: Proc, e: Event)
    requires ValidProc(p) && (p.terminal || Settled(p))
    ensures var q := Step(target, p, e).proc;
            p.multi.TimedWrite? && q.multi.TimedWrite? ==> q.multi == p.multi && q.scratch == p.scratch
  {
    if p.multi.TimedWrite? && !p.terminal {
      match e
      case GattWrite(bytes, env) => WriteKeepsPending(target, p, bytes, env);
      case GattRead(maxBytes, env) => ReadKeepsPending(target, p, maxBytes, env);
      case TimerExpired =>
    }
  }

  lemma WriteKeepsPending(target: Target, p: Proc, bytes: seq<byte>, env: WriteEnv)
    requires Settled(p) && p.multi.TimedWrite?
    ensures var q := HandleGattWrite(target, p, bytes, env).proc; q.multi == p.multi && q.scratch == p.scratch
  {
    hide Write;
  }

  lemma ReadKeepsPending(target: Target, p: Proc, maxBytes: nat, env: ReadEnv)
    requires Settled(p) && p.multi.TimedWrite?
    ensures var q := HandleGattRead(target, p, maxBytes, env).proc;
            q.multi.TimedWrite? ==> q.multi == p.multi && q.scratch == p.scratch
  {
    hide Process, Read;
    PrepareKeepsValid(target, p, env);
    if IsRequestAvailable(p.tx) {
      ProcessOutcome(target, env, p.transient, p.tx, p.multi, p.scratch);
    }
  }

  /** The time-to-live test does not suffer from the unsigned subtraction in it. */
  lemma ExpiredIff(ttl: byte, startTime: nat, now: nat)
    ensures HasExpired(ttl, startTime, now) <==> now > startTime + 100 * ttl
  {
  }

  // Assertions.

  /** A Timed Write is never pending over a transient session, so that the assertion on that cannot fail. */
  lemma TransientSessionsHaveNothingPending(target: Target, scratch: seq<byte>, transient: bool, events: seq<Event>,
      env: ReadEnv)
    ensures var p := RunAll(target, scratch, transient, events).proc;
            !p.terminal ==>
              && (p.multi.TimedWrite? ==> !p.transient)
              && (IsRequestAvailable(p.tx) ==>
                    !Process(target, env, p.transient, p.tx, p.multi, p.scratch).answer.Breakdown?)
  {
    EveryRunIsGood(target, scratch, transient, events);
    var p := RunAll(target, scratch, transient, events).proc;
    if !p.terminal && IsRequestAvailable(p.tx) {
      BreakdownIff(target, env, p.transient, p.tx, p.multi, p.scratch);
    }
  }

  /**
   * In a live session, one event runs into an assertion of the library or writes astray exactly in these two cases.
   * Nothing is claimed about what happens after that: the session counts as terminal.
   */
  lemma AbortsIff(target: Target, scratch: seq<byte>, transient: bool, events: seq<Event>, e: Event)
    ensures var p := RunAll(target, scratch, transient, events).proc;
            !p.terminal ==>
              (Step(target, p, e).status == Aborted <==> EmptyBodyWhilePending(p, e) || LacksRoom(target, p, e))
  {
    EveryRunIsGood(target, scratch, transient, events);
    var p := RunAll(target, scratch, transient, events).proc;
    if !p.terminal {
      SettledAbortsIff(target, p, e);
    }
  }

  lemma SettledAbortsIff(target: Target, p: Proc, e: Event)
    requires Settled(p) && !p.terminal
    ensures Step(target, p, e).status == Aborted <==> EmptyBodyWhilePending(p, e) || LacksRoom(target, p, e)
  {
    match e
    case GattWrite(bytes, env) => WriteAborts(target, p, bytes, env);
    case GattRead(maxBytes, env) => ReadAborts(target, p, maxBytes, env);
    case TimerExpired =>
  }

  /** With a Timed Write pending, the next request starts with an explicitly empty body. */
  predicate EmptyBodyWhilePending(p: Proc, e: Event) {
    && p.multi.TimedWrite? && p.tx.state == WaitingForInitialWrite && e.GattWrite?
    && var plain := Decrypted(p.startedSecured, e.bytes, e.writeEnv);
       plain.Ok? && IsFirstRequestWithEmptyBody(plain.value)
  }

  predicate IsFirstRequestWithEmptyBody(bytes: seq<byte>) {
    var pdu := DecodeFirst(bytes);
    pdu.Ok? && pdu.value.FirstRequest? && pdu.value.body == Body(0, [])
  }

  /** The read processes a write, executed or plain, whose texts do not fit behind the request. */
  predicate LacksRoom(target: Target, p: Proc, e: Event)
    requires ValidProc(p)
  {
    && e.GattRead? && (p.startedSecured ==> e.maxBytes >= TAG_BYTES)
    && IsRequestAvailable(p.tx) && Addresses(target, p.tx)
    && match p.multi
       case TimedWrite(_, numBytes) =>
         && p.tx.slot.opcode == CHARACTERISTIC_EXECUTE_WRITE
         && TextsOverrun(target, e.readEnv, p.transient, p.scratch, numBytes, true)
       case NoneActive =>
         && p.tx.slot.opcode == CHARACTERISTIC_WRITE
         && TextsOverrun(target, e.readEnv, p.transient, p.scratch, p.tx.slot.totalBodyBytes, false)
  }

  predicate TextsOverrun(target: Target, env: ReadEnv, transient: bool, scratch: seq<byte>, numBytes: nat, timed: bool)
    requires numBytes <= |scratch|
  {
    var f := ParseFields(scratch[..numBytes], target.supportsAuthData);
    WritePermitted(target, env, transient, timed) && f.Some? && numBytes + TotalSpace(f.value) > |scratch|
  }

  lemma WriteAborts(target: Target, p: Proc, bytes: seq<byte>, env: WriteEnv)
    requires Settled(p) && !p.terminal
    ensures HandleGattWrite(target, p, bytes, env).status == Aborted
            <==> EmptyBodyWhilePending(p, GattWrite(bytes, env))
  {
    var q := if p.timer then p else Start(target, p, env).1;
    var plain := Decrypted(q.startedSecured, bytes, env);
    if plain.Ok? {
      WriteAbortsWhen(q.tx, plain.value);
    }
  }

  lemma WriteAbortsWhen(t: Tx, bytes: seq<byte>)
    requires Valid(t)
    ensures Write(t, bytes).status == Aborted
            <==> t.state == WaitingForInitialWrite && !t.slot.hasBuffer && IsFirstRequestWithEmptyBody(bytes)
  {
    if DecodeFirst(bytes).Ok? {
      EncodeDecodedFirst(bytes);
    }
  }

  lemma ReadAborts(target: Target, p: Proc, maxBytes: nat, env: ReadEnv)
    requires Settled(p) && !p.terminal
    ensures HandleGattRead(target, p, maxBytes, env).status == Aborted
            <==> LacksRoom(target, p, GattRead(maxBytes, env))
  {
    hide Process, Read, TextsOverrun;
    PrepareKeepsValid(target, p, env);
    if IsRequestAvailable(p.tx) {
      BreakdownIff(target, env, p.transient, p.tx, p.multi, p.scratch);
      OverrunIff(target, env, p);
      ProcessOutcome(target, env, p.transient, p.tx, p.multi, p.scratch);
    }
    var q := Prepare(target, p, env).proc;
    var room := if p.startedSecured && maxBytes >= TAG_BYTES then maxBytes - TAG_BYTES else maxBytes;
    ReadAbortsWhen(q.tx, q.scratch, room);
    ReadKeepsValid(q.tx, q.scratch, room);
  }

  lemma BreakdownIff(target: Target, env: ReadEnv, transient: bool, tx: Tx, multi: Multi, scratch: seq<byte>)
    requires Valid(tx) && IsRequestAvailable(tx) && tx.slot.maxBodyBytes <= |scratch|
    requires multi.TimedWrite? ==> multi.numBytes <= |scratch|
    ensures Process(target, env, transient, tx, multi, scratch).answer == Breakdown
            <==> && BodyFits(tx) && multi.TimedWrite? && transient
                 && tx.slot.opcode == CHARACTERISTIC_EXECUTE_WRITE && tx.slot.iid == target.characteristicIid
  {
    hide ProcessRead, ParseAndWrite, WriteRejection;
  }

  lemma OverrunIff(target: Target, env: ReadEnv, p: Proc)
    requires ValidProc(p) && IsRequestAvailable(p.tx)
    ensures Process(target, env, p.transient, p.tx, p.multi, p.scratch).answer == Overrun
            <==> LacksRoom(target, p, GattRead(TAG_BYTES, env))
  {
    hide Process, Dispatch, ProcessWrite, ProcessRead, ParseFields, WritePermitted;
    RejectionOutcome(target, env, p.transient, p.tx, p.multi, p.scratch);
    if Addresses(target, p.tx) {
      match p.multi
      case TimedWrite(startTime, numBytes) =>
        PendingOutcome(target, env, p.transient, p.tx.slot.opcode, p.tx.slot.totalBodyBytes, p.multi, p.scratch);
        OverrunsIff(target, env, p.transient, p.scratch, numBytes, Some(startTime));
        WritePermittedIff(target, env, p.transient, true);
      case NoneActive =>
        DispatchOutcome(target, env, p.transient, p.tx.slot.opcode, p.tx.slot.totalBodyBytes, p.scratch);
        OverrunsIff(target, env, p.transient, p.scratch, p.tx.slot.totalBodyBytes, None);
    }
  }

  lemma ReadAbortsWhen(t: Tx, mem: seq<byte>, maxBytes: nat)
    requires Valid(t) && (t.slot.ResponseSlot? ==> t.slot.totalBodyBytes <= |mem|)
    ensures Read(t, mem, maxBytes).status == Aborted ==> t.state == WritingResponse && !t.slot.hasBody
  {
  }
}
