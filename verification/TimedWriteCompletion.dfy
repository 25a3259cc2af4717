/**
 * What a controller has to send for a Timed Write to take effect, however it splits the body into fragments,
 * and runs that reach the two situations in which a procedure aborts.
 */
module TimedWriteCompletion {
  import opened Bytes
  import opened Pdu
  import opened TransactionModel
  import opened ProcedureModel
  import opened ProcedureAnswers
  import opened WriteFields
  import opened ValueFormats
  import opened TimedWrites
  import opened Fragmentation
  import Tlv = TlvFormat

  /** A GATT write of `plain`, encrypted if the session is secured, on an accessory that has its timers. */
  function Sent(plain: seq<byte>, secured: bool): Event {
    GattWrite(if secured then plain + seq(TAG_BYTES, _ => 0) else plain,
              WriteEnv(false, secured, true, true, Ok(plain)))
  }

  function AllSent(writes: seq<seq<byte>>, secured: bool): seq<Event> {
    seq(|writes|, k requires 0 <= k < |writes| => Sent(writes[k], secured))
  }

  /** A procedure in progress over a session that is not transient. */
  function InProgress(secured: bool, multi: Multi, tx: Tx, scratch: seq<byte>): Proc {
    Proc(true, multi, secured, tx, scratch, false, false)
  }

  // A request arrives.

  /** A write to a procedure without a pending Timed Write does what it does to the transaction. */
  lemma WriteArrives(target: Target, p: Proc, secured: bool, write: seq<byte>)
    requires ValidProc(p) && !target.dropsSecuritySession && p.tx.slot.RequestSlot? && p.tx.slot.hasBuffer
    requires p == Attached(p.scratch, false, false) || p == InProgress(secured, NoneActive, p.tx, p.scratch)
    requires Write(p.tx, write).status == Done
    ensures var r := Write(p.tx, write);
            (Step(target, p, Sent(write, secured))
             == Stepped(Done, InProgress(secured, NoneActive, r.tx, Stored(p.scratch, r)), r.fragment, [], []))
  {
    hide Write, Stored;
  }

  function Start(scratch: seq<byte>): Received {
    Received(Created(true, |scratch|), scratch)
  }

  lemma {:induction false} RequestArrives(target: Target, scratch: seq<byte>, secured: bool, writes: seq<seq<byte>>)
    requires !target.dropsSecuritySession && writes != [] && WriteAll(Start(scratch), writes).Some?
    ensures var w := WriteAll(Start(scratch), writes).value;
            (RunAll(target, scratch, false, AllSent(writes, secured))
             == Run(InProgress(secured, NoneActive, w.tx, w.mem), BodySent(writes), []))
  {
    hide Step, Stored, Write;
    var n := |writes| - 1;
    var events := AllSent(writes, secured);
    assert events[..n] == AllSent(writes[..n], secured) && events[n] == Sent(writes[n], secured);
    var prior := RunAll(target, scratch, false, events[..n]);
    var before := WriteAll(Start(scratch), writes[..n]).value;
    if n == 0 {
      assert writes[..0] == [];
      FirstWrite(before.tx, writes[0]);
    } else {
      RequestArrives(target, scratch, secured, writes[..n]);
      RequestIsReassembled(true, |scratch|, scratch, writes[..n]);
      NextWrite(before.tx, writes[n]);
    }
    WriteArrives(target, prior.proc, secured, writes[n]);
    NextWithout(target, prior, events[n]);
  }

  lemma NextWithout(target: Target, run: Run, e: Event)
    requires ValidProc(run.proc) && Step(target, run.proc, e).entries == []
    ensures Next(target, run, e).log == run.log
  {
    hide Step;
    assert run.log + [] == run.log;
  }

  /** The slot of a request that has arrived completely. */
  function Arrived(opcode: byte, tid: byte, iid: u16, hasBuffer: bool, max: nat, total: u16): Tx {
    Tx(ReadingRequest, RequestSlot(opcode, tid, iid, hasBuffer, max, total, total))
  }

  /** The writes with which a controller sends `body` to the characteristic, split into `fragments`. */
  function SplitRequest(target: Target, opcode: byte, tid: byte, fragments: seq<seq<byte>>): seq<seq<byte>>
    requires fragments != [] && |Concat(fragments)| <= UINT16_MAX
  {
    FirstFragmentIsShort(fragments);
    RequestWrites(opcode, tid, target.characteristicIid, |Concat(fragments)|, fragments)
  }

  lemma {:induction false} SplitArrives(target: Target, scratch: seq<byte>, secured: bool, opcode: byte, tid: byte,
      fragments: seq<seq<byte>>)
    requires !target.dropsSecuritySession
    requires fragments != [] && |Concat(fragments)| <= |scratch| && |Concat(fragments)| <= UINT16_MAX
    ensures var body := Concat(fragments);
            var tx := Arrived(opcode, tid, target.characteristicIid, true, |scratch|, |body|);
            (RunAll(target, scratch, false, AllSent(SplitRequest(target, opcode, tid, fragments), secured))
             == Run(InProgress(secured, NoneActive, tx, body + scratch[|body|..]), body, []))
  {
    hide RunAll, WriteAll, Encode, DeclaredLength;
    var body, iid := Concat(fragments), target.characteristicIid;
    FirstFragmentIsShort(fragments);
    var writes := SplitRequest(target, opcode, tid, fragments);
    EverySplitIsAccepted(opcode, tid, iid, |body|, fragments, true, scratch);
    RequestArrives(target, scratch, secured, writes);
    RequestIsReassembled(true, |scratch|, scratch, writes);
    FirstFragmentIsFirst(opcode, tid, iid, |body|, fragments);
    FirstWriteHeader(opcode, tid, iid, |body|, fragments[0]);
  }

  // It is deferred.

  /** A read that can carry a response without a body. */
  predicate Answering(env: ReadEnv, secured: bool, maxBytes: nat) {
    && env.encrypted && env.securedAfter
    && maxBytes >= RESPONSE_HEADER_BYTES + if secured then TAG_BYTES else 0
  }

  lemma TimedWriteIsDeferred(target: Target, scratch: seq<byte>, secured: bool, tid: byte, numBytes: u16,
      maxBytes: nat, env: ReadEnv)
    requires numBytes <= |scratch| && Answering(env, secured, maxBytes)
    ensures var tx := Arrived(CHARACTERISTIC_TIMED_WRITE, tid, target.characteristicIid, true, |scratch|, numBytes);
            var r := Step(target, InProgress(secured, NoneActive, tx, scratch), GattRead(maxBytes, env));
            && r.proc == InProgress(secured, TimedWrite(env.now, numBytes), Created(false, 0), scratch)
            && r.fragment == [] && r.entries == [Deferred(scratch[..numBytes], env.now)]
  {
    hide DecodeFirst, DecodeContinuation;
  }

  /** The events of a Timed Write up to its response. */
  function TimedWriteEvents(target: Target, secured: bool, tid: byte, fragments: seq<seq<byte>>, maxBytes: nat,
      env: ReadEnv): seq<Event>
    requires fragments != [] && |Concat(fragments)| <= UINT16_MAX
  {
    AllSent(SplitRequest(target, CHARACTERISTIC_TIMED_WRITE, tid, fragments), secured) + [GattRead(maxBytes, env)]
  }

  /** Whatever the split, the secured or unsecured procedure then keeps the whole body and waits for its execution. */
  lemma SplitIsDeferred(target: Target, scratch: seq<byte>, secured: bool, tid: byte, fragments: seq<seq<byte>>,
      maxBytes: nat, env: ReadEnv)
    requires !target.dropsSecuritySession && Answering(env, secured, maxBytes)
    requires fragments != [] && |Concat(fragments)| <= |scratch| && |Concat(fragments)| <= UINT16_MAX
    ensures var body := Concat(fragments);
            var p := InProgress(secured, TimedWrite(env.now, |body|), Created(false, 0), body + scratch[|body|..]);
            (RunAll(target, scratch, false, TimedWriteEvents(target, secured, tid, fragments, maxBytes, env))
             == Run(p, [], [Record(Deferred(body, env.now), body, target)]))
  {
    hide Step, Next, SplitRequest, Concat;
    var body, filled := Concat(fragments), Concat(fragments) + scratch[|Concat(fragments)|..];
    var sent := AllSent(SplitRequest(target, CHARACTERISTIC_TIMED_WRITE, tid, fragments), secured);
    SplitArrives(target, scratch, secured, CHARACTERISTIC_TIMED_WRITE, tid, fragments);
    assert (sent + [GattRead(maxBytes, env)])[..|sent|] == sent;
    TimedWriteIsDeferred(target, filled, secured, tid, |body|, maxBytes, env);
    assert filled[..|body|] == body;
    NextDeferred(target, RunAll(target, scratch, false, sent), GattRead(maxBytes, env), Deferred(body, env.now));
  }

  lemma NextDeferred(target: Target, run: Run, e: Event, entry: Entry)
    requires ValidProc(run.proc) && run.log == [] && Step(target, run.proc, e).entries == [entry]
    requires Step(target, run.proc, e).proc.tx.state == WaitingForInitialWrite
    ensures Next(target, run, e) == Run(Step(target, run.proc, e).proc, [], [Record(entry, run.wire, target)])
  {
    hide Step;
    assert Records([entry][1..], run.wire, target) == [];
  }

  // It is executed.

  function ExecuteWrite(target: Target, secured: bool, tid: byte): Event {
    Sent(Encode(FirstRequest(CHARACTERISTIC_EXECUTE_WRITE, tid, target.characteristicIid, NoBody)), secured)
  }

  lemma ExecuteWriteArrives(target: Target, scratch: seq<byte>, secured: bool, multi: Multi, tid: byte)
    requires multi.TimedWrite? && multi.numBytes <= |scratch|
    ensures var tx := Arrived(CHARACTERISTIC_EXECUTE_WRITE, tid, target.characteristicIid, false, 0, 0);
            (Step(target, InProgress(secured, multi, Created(false, 0), scratch), ExecuteWrite(target, secured, tid))
             == Stepped(Done, InProgress(secured, multi, tx, scratch), [], [], []))
  {
    DecodeEncodedFirst(FirstRequest(CHARACTERISTIC_EXECUTE_WRITE, tid, target.characteristicIid, NoBody));
  }

  /**
   * The body is acceptable: the characteristic may be written in this session, the body parses, its texts fit behind
   * it, its value is not longer than 64000 bytes, has the format of the characteristic and keeps its constraints, and
   * it states a time to live that is not over.
   */
  predicate Acceptable(target: Target, env: ReadEnv, body: seq<byte>, room: nat, startTime: nat) {
    && (if env.secured then target.writable
        else if target.isIdentify then !env.paired
        else target.writableWithoutSecurity)
    && (target.writeRequiresAdmin ==> env.admin)
    && HandedOver(target, env, body, room, Some(startTime))
  }

  lemma ExecutionHandsOver(target: Target, scratch: seq<byte>, secured: bool, multi: Multi, tid: byte, maxBytes: nat,
      env: ReadEnv)
    requires multi.TimedWrite? && multi.numBytes <= |scratch| && (secured ==> maxBytes >= TAG_BYTES)
    ensures var tx := Arrived(CHARACTERISTIC_EXECUTE_WRITE, tid, target.characteristicIid, false, 0, 0);
            var r := Step(target, InProgress(secured, multi, tx, scratch), GattRead(maxBytes, env));
            var body := scratch[..multi.numBytes];
            r.entries == if Acceptable(target, env, body, |scratch| - |body|, multi.startTime)
                         then [Handed(body, ParseFields(body, target.supportsAuthData).value, true, env.now)] else []
  {
    hide Read, Send, ProcessWrite, ParseFields, HandedOver;
    var tx := Arrived(CHARACTERISTIC_EXECUTE_WRITE, tid, target.characteristicIid, false, 0, 0);
    PrepareKeepsValid(target, InProgress(secured, multi, tx, scratch), env);
    HandedOverIff(target, env, false, scratch, multi.numBytes, Some(multi.startTime));
  }

  /** The whole exchange: a Timed Write, its response, an Execute Write and its response. */
  function Exchange(target: Target, secured: bool, tid: byte, fragments: seq<seq<byte>>, deferMax: nat,
      deferEnv: ReadEnv, executeTid: byte, executeMax: nat, executeEnv: ReadEnv): seq<Event>
    requires fragments != [] && |Concat(fragments)| <= UINT16_MAX
  {
    TimedWriteEvents(target, secured, tid, fragments, deferMax, deferEnv)
    + [ExecuteWrite(target, secured, executeTid)] + [GattRead(executeMax, executeEnv)]
  }

  /**
   * Whatever the body, the split and the buffer it fits into, secured or not: the exchange defers the body, and hands
   * its fields to the application if and only if the body is acceptable when it is executed.
   */
  lemma TimedWriteCompletesIff(target: Target, scratch: seq<byte>, secured: bool, tid: byte, fragments: seq<seq<byte>>,
      deferMax: nat, deferEnv: ReadEnv, executeTid: byte, executeMax: nat, executeEnv: ReadEnv)
    requires !target.dropsSecuritySession && Answering(deferEnv, secured, deferMax)
    requires secured ==> executeMax >= TAG_BYTES
    requires fragments != [] && |Concat(fragments)| <= |scratch| && |Concat(fragments)| <= UINT16_MAX
    ensures var events := Exchange(target, secured, tid, fragments, deferMax, deferEnv,
                                   executeTid, executeMax, executeEnv);
            var body := Concat(fragments);
            RunAll(target, scratch, false, events).log
            == [Record(Deferred(body, deferEnv.now), body, target)]
             + if Acceptable(target, executeEnv, body, |scratch| - |body|, deferEnv.now)
               then [Record(Handed(body, ParseFields(body, target.supportsAuthData).value, true, executeEnv.now),
                            [], target)]
               else []
  {
    hide Step, TimedWriteEvents, Concat, Acceptable, ParseFields, ExecuteWrite;
    var body, filled := Concat(fragments), Concat(fragments) + scratch[|Concat(fragments)|..];
    var first := TimedWriteEvents(target, secured, tid, fragments, deferMax, deferEnv);
    var execute, read := ExecuteWrite(target, secured, executeTid), GattRead(executeMax, executeEnv);
    var multi := TimedWrite(deferEnv.now, |body|);
    assert filled[..|body|] == body;
    SplitIsDeferred(target, scratch, secured, tid, fragments, deferMax, deferEnv);
    ExecuteWriteArrives(target, filled, secured, multi, executeTid);
    ExecutionHandsOver(target, filled, secured, multi, executeTid, executeMax, executeEnv);
    assert (first + [execute])[..|first|] == first;
    assert (first + [execute] + [read])[..|first + [execute]|] == first + [execute];
    var third := RunAll(target, scratch, false, first + [execute]);
    assert third.wire == [];
    RecordsOfStep(target, third, read);
  }

  lemma RecordsOfStep(target: Target, run: Run, e: Event)
    requires ValidProc(run.proc) && |Step(target, run.proc, e).entries| <= 1
    ensures var entries := Step(target, run.proc, e).entries;
            Next(target, run, e).log == run.log + if entries == [] then [] else [Record(entries[0], run.wire, target)]
  {
    hide Step;
    var entries := Step(target, run.proc, e).entries;
    if entries != [] {
      assert Records(entries[1..], run.wire, target) == [];
    }
  }

  /**
   * What a controller encodes is what the application gets: any fields with a time to live, in a body that takes up at
   * most half of the buffer and is executed in time, to a characteristic that may be written and whose format and
   * constraints the value keeps.
   */
  lemma EncodedFieldsArrive(target: Target, scratch: seq<byte>, secured: bool, tid: byte, fragments: seq<seq<byte>>,
      deferMax: nat, deferEnv: ReadEnv, executeTid: byte, executeMax: nat, executeEnv: ReadEnv, f: Fields)
    requires !target.dropsSecuritySession && Answering(deferEnv, secured, deferMax)
    requires secured ==> executeMax >= TAG_BYTES
    requires fragments != [] && Concat(fragments) == Tlv.Encode(FieldItems(f))
    requires 2 * |Concat(fragments)| <= |scratch| && |Concat(fragments)| <= UINT16_MAX
    requires f.authData.Some? ==> target.supportsAuthData
    requires WritePermitted(target, executeEnv, false, true) && |f.value| <= MAX_VALUE_BYTES
    requires Conforms(target.format, f.value) && !executeEnv.result.OutsideConstraints?
    requires f.ttl != 0 && executeEnv.now <= deferEnv.now + 100 * f.ttl
    ensures var events := Exchange(target, secured, tid, fragments, deferMax, deferEnv,
                                   executeTid, executeMax, executeEnv);
            var log := RunAll(target, scratch, false, events).log;
            |log| == 2 && log[1].entry == Handed(Concat(fragments), f, true, executeEnv.now)
  {
    hide RunAll, Exchange, ParseFields, TotalSpace, FieldItems, Tlv.Encode, Conforms;
    RequestRoundTrip(f, target.supportsAuthData);
    HalfFreeSuffices(Concat(fragments), target.supportsAuthData);
    TimedWriteCompletesIff(target, scratch, secured, tid, fragments, deferMax, deferEnv,
                           executeTid, executeMax, executeEnv);
  }

  // Runs that abort.

  /** After any Timed Write, a first fragment that declares an empty body runs into an assertion. */
  lemma EmptyBodyRun(target: Target, scratch: seq<byte>, secured: bool, tid: byte, fragments: seq<seq<byte>>,
      maxBytes: nat, env: ReadEnv, opcode: byte, nextTid: byte, iid: u16)
    requires !target.dropsSecuritySession && Answering(env, secured, maxBytes)
    requires fragments != [] && |Concat(fragments)| <= |scratch| && |Concat(fragments)| <= UINT16_MAX
    ensures var p := RunAll(target, scratch, false,
                            TimedWriteEvents(target, secured, tid, fragments, maxBytes, env)).proc;
            var e := Sent(Encode(FirstRequest(opcode, nextTid, iid, Body(0, []))), secured);
            !p.terminal && EmptyBodyWhilePending(p, e) && Step(target, p, e).status == Aborted
  {
    hide RunAll, TimedWriteEvents, Concat, Encode, Step;
    SplitIsDeferred(target, scratch, secured, tid, fragments, maxBytes, env);
    DecodeEncodedFirst(FirstRequest(opcode, nextTid, iid, Body(0, [])));
    var events := TimedWriteEvents(target, secured, tid, fragments, maxBytes, env);
    AbortsIff(target, scratch, false, events, Sent(Encode(FirstRequest(opcode, nextTid, iid, Body(0, []))), secured));
  }

  /** A plain write whose texts do not fit behind its body, in a buffer that takes the body. */
  lemma CrampedRun(target: Target, scratch: seq<byte>, secured: bool, tid: byte, fragments: seq<seq<byte>>,
      maxBytes: nat, env: ReadEnv)
    requires !target.dropsSecuritySession && (secured ==> maxBytes >= TAG_BYTES)
    requires fragments != [] && |Concat(fragments)| <= |scratch| && |Concat(fragments)| <= UINT16_MAX
    requires WritePermitted(target, env, false, false)
    requires ParseFields(Concat(fragments), target.supportsAuthData).Some?
    requires |scratch| - |Concat(fragments)|
             < TotalSpace(ParseFields(Concat(fragments), target.supportsAuthData).value)
    ensures var events := AllSent(SplitRequest(target, CHARACTERISTIC_WRITE, tid, fragments), secured);
            var p := RunAll(target, scratch, false, events).proc;
            !p.terminal && LacksRoom(target, p, GattRead(maxBytes, env))
            && Step(target, p, GattRead(maxBytes, env)).status == Aborted
  {
    hide RunAll, SplitRequest, Concat, Step, WritePermitted, ParseFields, TotalSpace;
    var body := Concat(fragments);
    var events := AllSent(SplitRequest(target, CHARACTERISTIC_WRITE, tid, fragments), secured);
    SplitArrives(target, scratch, secured, CHARACTERISTIC_WRITE, tid, fragments);
    assert (body + scratch[|body|..])[..|body|] == body;
    AbortsIff(target, scratch, false, events, GattRead(maxBytes, env));
  }

  /** A body of nine bytes in a buffer of eleven, written to any characteristic that supports authorization data. */
  lemma SmallRun(target: Target, scratch: seq<byte>, secured: bool, tid: byte, maxBytes: nat, env: ReadEnv)
    requires !target.dropsSecuritySession && target.supportsAuthData && WritePermitted(target, env, false, false)
    requires |scratch| == 11 && maxBytes >= TAG_BYTES
    ensures var writes := SplitRequest(target, CHARACTERISTIC_WRITE, tid, [SMALL_BODY]);
            var p := RunAll(target, scratch, false, AllSent(writes, secured)).proc;
            Step(target, p, GattRead(maxBytes, env)).status == Aborted
  {
    hide RunAll, Step, WritePermitted, ParseFields;
    assert [SMALL_BODY][..0] == [] && Concat([SMALL_BODY]) == SMALL_BODY;
    SmallBody();
    CrampedRun(target, scratch, secured, tid, [SMALL_BODY], maxBytes, env);
  }
}
