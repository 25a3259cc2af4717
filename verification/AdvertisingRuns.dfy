/**
 * What the advertising state machine promises over whole runs from factory state, with restarts, firmware updates,
 * resets and failures of the key-value store.
 */
module AdvertisingRuns {
  import opened Bytes
  import opened GlobalStateNumber
  import opened AdvertisingModel

  // Invariants of the state.

  /**
   * No timer runs and nothing is broadcast during a connection. A broadcast has its timer, an incremented
   * number and a key; the event timer runs only after an increment.
   */
  predicate Consistent(s: Adv) {
    && GetGSN(s).gsn > 0
    && (s.connected ==> s.fastStarted && !s.timer && !s.fastTimer && s.broadcast.iid == 0)
    && (s.broadcast.iid != 0 ==>
          !s.connected && s.timer && GetGSN(s).didIncrement && GetParameters(s).keyExpirationGSN != 0)
    && (s.timer ==> GetGSN(s).didIncrement)
    && (s.fastTimer ==> s.fastStarted)
  }

  /** What a step promises: no assertion fails, and the number changes exactly by increments. */
  predicate Sound(s: Adv, r: Outcome) {
    && Consistent(r.adv) && r.status != Aborted
    && (if r.cause == NoIncrement then GetGSN(r.adv).gsn == GetGSN(s).gsn
        else GetGSN(r.adv) == Gsn(Successor(GetGSN(s).gsn), true))
    && (r.cause == ByEvent ==> !GetGSN(s).didIncrement)
    && (r.cause == ByBroadcast ==> !s.connected)
  }

  /** The number starts anew at 1. */
  predicate Renumbers(e: Event) {
    e.RestoreFactorySettings? || (e.Restart? && e.firmwareUpdate)
  }

  lemma StepIsConsistent(s: Adv, e: Event)
    requires Consistent(s) && Enabled(s, e)
    ensures if Renumbers(e) then Consistent(Step(s, e).adv) && GetGSN(Step(s, e).adv) == Gsn(1, false)
            else Sound(s, Step(s, e))
    ensures Step(s, e).status != Aborted && (Renumbers(e) ==> Step(s, e).cause == NoIncrement)
  {
    if e.RaiseEvent? {
      BroadcastIsConsistent(s, e.source, e.timerStarts, e.fault);
      DisconnectedIsConsistent(s, e.timerStarts, e.fault);
    } else {
      hide DidRaiseEvent;
    }
  }

  lemma BroadcastIsConsistent(s: Adv, source: Source, timerStarts: bool, fault: Fault)
    requires Consistent(s)
    ensures !s.connected && KeyIsUsable(s) && source.broadcastInterval.Some? ==>
              Sound(s, BroadcastEvent(s, source, source.broadcastInterval.value, timerStarts, fault))
  {
  }

  lemma DisconnectedIsConsistent(s: Adv, timerStarts: bool, fault: Fault)
    requires Consistent(s)
    ensures Sound(s, DisconnectedEvent(s, timerStarts, fault))
  {
  }

  /** A consistent state never reports a broadcast without a valid key. */
  lemma BroadcastHasKey(s: Adv)
    requires Consistent(s)
    ensures GetAdvertisement(s) != WithoutKey
    ensures GetAdvertisement(s).Inactive? <==> s.connected
    ensures GetAdvertisement(s).Encrypted? <==> s.broadcast.iid != 0
  {
  }

  /** Purging the parameters while an event is broadcast leaves the broadcast without a key, and only that does. */
  lemma PurgeLosesKeyIff(s: Adv)
    requires Consistent(s)
    ensures GetAdvertisement(Step(s, PurgeParameters).adv) == WithoutKey <==> s.broadcast.iid != 0
    ensures Consistent(Step(s, PurgeParameters).adv) <==> s.broadcast.iid == 0
  {
  }

  /** Restoring factory settings without a restart is harmless exactly while no event is advertised. */
  lemma ResetIsConsistentIff(s: Adv, timerStarts: bool)
    requires Consistent(s)
    ensures var r := Step(s, RestoreFactorySettings).adv;
            && (Consistent(r) <==> !s.timer)
            && (DisconnectedEvent(r, timerStarts, NoFault).status == Aborted <==> s.timer)
  {
  }

  // Runs.

  /** The increments since the last connection, disconnection or reset, and the number at that time. */
  datatype Period = Period(start: u16, events: nat, broadcasts: nat)

  /** A generated key, and the number of the connection in which it was generated. */
  datatype Generated = Generated(key: nat, connection: nat)

  /** The keys generated so far, the number at which the last one was, and the increments since then. */
  datatype Epoch = Epoch(keys: seq<Generated>, start: u16, age: nat)

  /**
   * An encrypted advertisement, with the position of its key among all keys and the age of the key. The advertising
   * identifier is authenticated with it; without one, the device identifier is.
   */
  datatype Emission = Emission(
    epoch: nat, age: nat, key: nat, gsn: u16, iid: u16, value: seq<byte>, advertisingID: Option<nat>)

  /** `raised` is what the event that was broadcast last said about its characteristic. */
  datatype Run = Run(adv: Adv, connections: nat, period: Period, epoch: Epoch, raised: Option<Source>,
                     log: seq<Emission>)

  const FACTORY := Run(Booted(None, None), 0, Period(1, 0, 0), Epoch([], 1, 0), None, [])

  function NextPeriod(p: Period, r: Outcome, e: Event): Period {
    if Renumbers(e) || ((e.Connect? || e.Disconnect?) && r.status == Done) then Period(GetGSN(r.adv).gsn, 0, 0)
    else
      match r.cause
      case NoIncrement => p
      case ByEvent => p.(events := p.events + 1)
      case ByBroadcast => p.(broadcasts := p.broadcasts + 1)
  }

  function NextEpoch(k: Epoch, connections: nat, s: Adv, r: Outcome, e: Event): Epoch {
    if e.NewKey? && r.status == Done then Epoch(k.keys + [Generated(e.key, connections)], GetGSN(s).gsn, 0)
    else if r.cause == NoIncrement then k
    else k.(age := k.age + 1)
  }

  function NextLog(run: Run, e: Event): seq<Emission> {
    if !e.Advertise? then run.log else
    match GetAdvertisement(run.adv)
    case Encrypted(key, gsn, iid, value, advertisingID) =>
      run.log + [Emission(|run.epoch.keys|, run.epoch.age, key, gsn, iid, value, advertisingID)]
    case _ => run.log
  }

  function Next(run: Run, e: Event): Run {
    if !Enabled(run.adv, e) then run else
    var r := Step(run.adv, e);
    Run(r.adv, if e.Connect? then run.connections + 1 else run.connections,
        NextPeriod(run.period, r, e), NextEpoch(run.epoch, run.connections, run.adv, r, e),
        if r.cause == ByBroadcast then Some(e.source) else run.raised, NextLog(run, e))
  }

  function RunAll(events: seq<Event>): Run {
    if events == [] then FACTORY else Next(RunAll(events[..|events| - 1]), events[|events| - 1])
  }

  // The invariant of runs.

  /** At most one event advances the number per period, and only broadcasts do so any further. */
  predicate PeriodHolds(s: Adv, p: Period) {
    && p.start > 0 && p.events <= 1
    && (s.connected ==> p.broadcasts == 0)
    && (GetGSN(s).didIncrement <==> p.events + p.broadcasts > 0)
    && GetGSN(s).gsn == Advance(p.start, p.events + p.broadcasts)
  }

  /** While there is a key, it is the last one that was generated and not too old. */
  predicate EpochHolds(s: Adv, k: Epoch) {
    && k.start > 0
    && (GetParameters(s).keyExpirationGSN != 0 ==>
          && GetGSN(s).gsn == Advance(k.start, k.age)
          && k.keys != []
          && GetParameters(s).key == k.keys[|k.keys| - 1].key
          && GetParameters(s).keyExpirationGSN == ExpirationGSN(k.start)
          && k.age < KEY_LIFETIME)
    && (s.broadcast.iid != 0 ==> k.age > 0)
  }

  /** An emission was made with the key of its epoch, within the lifetime of that key. */
  predicate EmissionHolds(x: Emission, k: Epoch) {
    && k.start > 0 && 0 < x.epoch <= |k.keys| && x.key == k.keys[x.epoch - 1].key
    && 0 < x.age < KEY_LIFETIME
    && (x.epoch == |k.keys| ==> x.age <= k.age && x.gsn == Advance(k.start, x.age))
  }

  /** Equal keys and numbers seal equal contents. */
  predicate Agree(x: Emission, y: Emission) {
    x.epoch == y.epoch && (x.gsn == y.gsn || x.age == y.age) ==>
      && x.gsn == y.gsn && x.age == y.age
      && x.iid == y.iid && x.value == y.value && x.advertisingID == y.advertisingID
  }

  predicate LogHolds(run: Run) {
    && (forall i :: 0 <= i < |run.log| ==> EmissionHolds(run.log[i], run.epoch))
    && (forall i, j :: 0 <= i < |run.log| && 0 <= j < |run.log| ==> Agree(run.log[i], run.log[j]))
    && (run.adv.broadcast.iid != 0 ==>
          forall i :: 0 <= i < |run.log| && run.log[i].epoch == |run.epoch.keys| && run.log[i].age == run.epoch.age ==>
            && run.log[i].iid == run.adv.broadcast.iid && run.log[i].value == run.adv.broadcast.value
            && run.log[i].advertisingID == GetParameters(run.adv).advertisingID)
  }

  /**
   * Keys are recorded in the order of their connections, and a key that sealed anything is the last one of its
   * connection, which is over.
   */
  predicate ConnectionsHold(run: Run) {
    var keys := run.epoch.keys;
    && (forall a :: 0 <= a < |keys| ==> keys[a].connection <= run.connections)
    && (forall i :: 0 <= i < |run.log| ==> LastOfItsConnection(run, run.log[i].epoch))
  }

  predicate LastOfItsConnection(run: Run, epoch: nat) {
    var keys := run.epoch.keys;
    && 0 < epoch <= |keys|
    && (forall b :: epoch <= b < |keys| ==> keys[epoch - 1].connection < keys[b].connection)
    && (run.adv.connected ==> keys[epoch - 1].connection < run.connections)
  }

  /** What is being broadcast is the value and the interval of the event that was broadcast last. */
  predicate RaisedHolds(s: Adv, raised: Option<Source>) {
    s.broadcast.iid != 0 ==>
      && raised.Some? && raised.value.iid == s.broadcast.iid && raised.value.value == Some(s.broadcast.value)
      && raised.value.broadcastInterval == Some(s.broadcast.interval)
  }

  predicate Holds(run: Run) {
    && Consistent(run.adv) && PeriodHolds(run.adv, run.period) && EpochHolds(run.adv, run.epoch)
    && RaisedHolds(run.adv, run.raised) && LogHolds(run) && ConnectionsHold(run)
  }

  lemma RaisedStep(s: Adv, raised: Option<Source>, e: Event)
    requires Consistent(s) && Enabled(s, e) && RaisedHolds(s, raised)
    ensures var r := Step(s, e);
            && (r.cause == ByBroadcast ==> e.RaiseEvent?)
            && RaisedHolds(r.adv, if r.cause == ByBroadcast then Some(e.source) else raised)
  {
  }

  lemma ConnectedOnlyBy(s: Adv, e: Event)
    requires Enabled(s, e)
    ensures Step(s, e).adv.connected ==> s.connected || e.Connect?
    ensures e.NewKey? ==> s.connected
  {
  }

  /** Without an increment, only a new period changes what the number says. */
  lemma NumberAfter(s: Adv, e: Event)
    requires Consistent(s) && Enabled(s, e)
    ensures var r := Step(s, e);
            if (e.Connect? || e.Disconnect?) && r.status == Done then !GetGSN(r.adv).didIncrement
            else r.cause == NoIncrement && !Renumbers(e) ==> GetGSN(r.adv) == GetGSN(s)
    ensures e.Connect? || e.Disconnect? ==> Step(s, e).cause == NoIncrement
  {
  }

  lemma PeriodStep(s: Adv, p: Period, e: Event)
    requires Consistent(s) && PeriodHolds(s, p) && Enabled(s, e)
    ensures PeriodHolds(Step(s, e).adv, NextPeriod(p, Step(s, e), e))
  {
    StepIsConsistent(s, e);
    ConnectedOnlyBy(s, e);
    NumberAfter(s, e);
    hide Advance, Step, Consistent, Enabled;
    var r := Step(s, e);
    var n := p.events + p.broadcasts;
    assert Advance(p.start, n + 1) == Successor(Advance(p.start, n)) by { AdvanceOnce(p.start, n); }
    assert Advance(GetGSN(r.adv).gsn, 0) == GetGSN(r.adv).gsn by { AdvanceOnce(GetGSN(r.adv).gsn, 0); }
  }

  lemma AdvanceOnce(gsn: u16, n: nat)
    requires gsn > 0
    ensures Advance(gsn, n + 1) == Successor(Advance(gsn, n)) && Advance(gsn, 0) == gsn
  {
  }

  /** How a step changes the broadcast parameters and the broadcast. */
  lemma ParametersAfter(s: Adv, e: Event)
    requires Consistent(s) && Enabled(s, e) && !e.NewKey?
    ensures var r := Step(s, e);
            && (GetParameters(r.adv).keyExpirationGSN != 0 ==>
                  && GetParameters(r.adv).keyExpirationGSN == GetParameters(s).keyExpirationGSN
                  && GetParameters(r.adv).key == GetParameters(s).key
                  && (r.cause != NoIncrement ==> GetGSN(s).gsn != GetParameters(s).keyExpirationGSN))
            && (r.adv.broadcast.iid != 0 && r.cause == NoIncrement ==>
                  r.adv.broadcast == s.broadcast
                  && GetParameters(r.adv).advertisingID == GetParameters(s).advertisingID)
  {
  }

  lemma EpochStep(s: Adv, k: Epoch, connections: nat, e: Event)
    requires Consistent(s) && EpochHolds(s, k) && Enabled(s, e)
    ensures EpochHolds(Step(s, e).adv, NextEpoch(k, connections, s, Step(s, e), e))
  {
    StepIsConsistent(s, e);
    var r := Step(s, e);
    if e.NewKey? {
      AdvanceOnce(GetGSN(s).gsn, 0);
    } else {
      ParametersAfter(s, e);
      AdvanceOnce(k.start, k.age);
      if GetParameters(r.adv).keyExpirationGSN != 0 && r.cause != NoIncrement && k.age == KEY_LIFETIME - 1 {
        ExpirationIsAdvance(k.start);
      }
    }
  }

  lemma LogStep(run: Run, e: Event)
    requires Holds(run) && Enabled(run.adv, e)
    ensures LogHolds(Next(run, e))
  {
    StepIsConsistent(run.adv, e);
    hide Step;
    var n := Next(run, e);
    if e.Advertise? && GetAdvertisement(run.adv).Encrypted? {
      EmissionAgrees(run);
    } else if !e.NewKey? {
      ParametersAfter(run.adv, e);
    }
  }

  lemma EmissionAgrees(run: Run)
    requires Holds(run) && GetAdvertisement(run.adv).Encrypted?
    ensures LogHolds(run.(log := NextLog(run, Advertise)))
  {
    var log := NextLog(run, Advertise);
    var x := log[|run.log|];
    forall i | 0 <= i < |run.log| ensures Agree(x, log[i]) && Agree(log[i], x) {
      var y := run.log[i];
      assert EmissionHolds(y, run.epoch);
      if x.epoch == y.epoch && x.gsn == y.gsn {
        AdvanceInjective(run.epoch.start, x.age, y.age);
      }
    }
    assert forall i :: 0 <= i < |run.log| ==> log[i] == run.log[i];
  }

  lemma EmissionIsLast(run: Run)
    requires Holds(run) && GetAdvertisement(run.adv).Encrypted?
    ensures LastOfItsConnection(run, |run.epoch.keys|)
  {
  }

  lemma ConnectionsStep(run: Run, e: Event)
    requires Holds(run) && Enabled(run.adv, e)
    ensures ConnectionsHold(Next(run, e))
  {
    BroadcastHasKey(run.adv);
    ConnectedOnlyBy(run.adv, e);
    hide Step, LogHolds, GetAdvertisement, PeriodHolds, EpochHolds, Consistent;
    var n := Next(run, e);
    forall i | 0 <= i < |n.log| ensures LastOfItsConnection(n, n.log[i].epoch) {
      if i < |run.log| {
        assert n.log[i] == run.log[i];
        assert LastOfItsConnection(run, run.log[i].epoch);
      } else {
        EmissionIsLast(run);
      }
    }
  }

  lemma {:induction false} EveryRunHolds(events: seq<Event>)
    ensures Holds(RunAll(events))
  {
    if events != [] {
      var run, e := RunAll(events[..|events| - 1]), events[|events| - 1];
      EveryRunHolds(events[..|events| - 1]);
      if Enabled(run.adv, e) {
        StepIsConsistent(run.adv, e);
        PeriodStep(run.adv, run.period, e);
        EpochStep(run.adv, run.epoch, run.connections, e);
        LogStep(run, e);
        ConnectionsStep(run, e);
        RaisedStep(run.adv, run.raised, e);
      }
    }
  }

  // What follows for every run.

  /** Whatever happens next, no assertion of the library fails and no broadcast lacks its key. */
  lemma NothingAborts(events: seq<Event>, e: Event)
    requires Enabled(RunAll(events).adv, e)
    ensures Step(RunAll(events).adv, e).status != Aborted
    ensures GetAdvertisement(RunAll(events).adv) != WithoutKey
  {
    EveryRunHolds(events);
    StepIsConsistent(RunAll(events).adv, e);
  }

  /**
   * The number stays in 1..65535. A connection advances it at most once. After a disconnection, events
   * advance it at most once, and every further increment starts a broadcast.
   */
  lemma NumberAdvancesOncePerPeriod(events: seq<Event>)
    ensures var run := RunAll(events);
            && 1 <= GetGSN(run.adv).gsn <= 65535
            && run.period.start > 0 && run.period.events <= 1
            && (run.adv.connected ==> run.period.broadcasts == 0)
            && GetGSN(run.adv).gsn == Advance(run.period.start, run.period.events + run.period.broadcasts)
            && (GetGSN(run.adv).didIncrement <==> run.period.events + run.period.broadcasts > 0)
  {
    EveryRunHolds(events);
  }

  /** The age counts the increments since the last key; a key that is still there is younger than 32767. */
  lemma KeyIsYoung(events: seq<Event>)
    ensures var run := RunAll(events);
            GetParameters(run.adv).keyExpirationGSN != 0 ==>
              && run.epoch.keys != [] && GetParameters(run.adv).key == run.epoch.keys[|run.epoch.keys| - 1].key
              && run.epoch.age < 32767 && run.epoch.start > 0
              && GetGSN(run.adv).gsn == Advance(run.epoch.start, run.epoch.age)
  {
    EveryRunHolds(events);
  }

  /**
   * One generation of a key, whatever happens to the store and however often the accessory restarts: the key never
   * seals two different contents under one number, and each at an age in 1..32766 of its own.
   */
  lemma EpochSealsOncePerNumber(events: seq<Event>, i: nat, j: nat)
    requires var run := RunAll(events); i < |run.log| && j < |run.log|
    ensures var x, y := RunAll(events).log[i], RunAll(events).log[j];
            && 1 <= x.age <= 32766
            && (x.epoch == y.epoch && (x.gsn == y.gsn || x.age == y.age) ==> x == y)
  {
    EveryRunHolds(events);
    var run := RunAll(events);
    var x, y := run.log[i], run.log[j];
    assert EmissionHolds(x, run.epoch) && EmissionHolds(y, run.epoch) && Agree(x, y);
  }

  /** A session secret goes into a key, so that keys of different connections differ; within one they may repeat. */
  predicate ConnectionsHaveOwnKeys(keys: seq<Generated>) {
    forall a, b :: 0 <= a < b < |keys| && keys[a].connection != keys[b].connection ==> keys[a].key != keys[b].key
  }

  /** Then emissions under one key belong to one generation of it, even if the key was generated repeatedly. */
  lemma OneKeyOneEpoch(events: seq<Event>, i: nat, j: nat)
    requires var run := RunAll(events); i < |run.log| && j < |run.log| && run.log[i].key == run.log[j].key
    requires ConnectionsHaveOwnKeys(RunAll(events).epoch.keys)
    ensures RunAll(events).log[i].epoch == RunAll(events).log[j].epoch
  {
    EveryRunHolds(events);
    var run := RunAll(events);
    var x, y := run.log[i], run.log[j];
    assert EmissionHolds(x, run.epoch) && EmissionHolds(y, run.epoch);
    assert LastOfItsConnection(run, x.epoch) && LastOfItsConnection(run, y.epoch);
  }

  /** A key never seals two different contents under the same number. */
  lemma SealedContentsAreUnique(events: seq<Event>, i: nat, j: nat)
    requires var run := RunAll(events); i < |run.log| && j < |run.log|
    requires ConnectionsHaveOwnKeys(RunAll(events).epoch.keys)
    ensures var x, y := RunAll(events).log[i], RunAll(events).log[j];
            x.key == y.key && (x.gsn == y.gsn || x.age == y.age) ==> x == y
  {
    EpochSealsOncePerNumber(events, i, j);
    var run := RunAll(events);
    if run.log[i].key == run.log[j].key {
      OneKeyOneEpoch(events, i, j);
    }
  }

  /** Everything that a key has sealed. */
  function SealedWith(log: seq<Emission>, key: nat): set<Emission> {
    set x | x in log && x.key == key
  }

  lemma {:induction false} AtMostOnePerAge(sealed: set<Emission>, n: nat)
    requires forall x :: x in sealed ==> 1 <= x.age <= n
    requires forall x, y :: x in sealed && y in sealed && x.age == y.age ==> x == y
    ensures |sealed| <= n
    decreases n
  {
    if x :| x in sealed && x.age == n {
      AtMostOnePerAge(sealed - {x}, n - 1);
    } else if n > 0 {
      AtMostOnePerAge(sealed, n - 1);
    } else if x :| x in sealed {
      assert false;
    }
  }

  /** A key seals at most 32766 different contents in its life. */
  lemma KeySealsAtMost(events: seq<Event>, key: nat)
    requires ConnectionsHaveOwnKeys(RunAll(events).epoch.keys)
    ensures |SealedWith(RunAll(events).log, key)| <= 32766
  {
    var log := RunAll(events).log;
    var sealed := SealedWith(log, key);
    forall x | x in sealed ensures 1 <= x.age <= 32766 {
      var i :| 0 <= i < |log| && log[i] == x;
      EpochSealsOncePerNumber(events, i, i);
    }
    forall x, y | x in sealed && y in sealed && x.age == y.age ensures x == y {
      var i :| 0 <= i < |log| && log[i] == x;
      var j :| 0 <= j < |log| && log[j] == y;
      SealedContentsAreUnique(events, i, j);
    }
    AtMostOnePerAge(sealed, 32766);
  }

  /** What the value of the characteristic 7 is broadcast with. */
  const BROADCASTING := Source(7, true, true, Some(1), Some([1, 2, 3, 4, 5, 6, 7, 8]))

  /** A run that broadcasts: a controller generates a key and disconnects, and the value changes. */
  const BROADCAST_EVENTS: seq<Event> :=
    [StartAdvertising(true), Connect(NoFault), NewKey(5, None, NoFault), Disconnect(true, NoFault),
     RaiseEvent(BROADCASTING, true, NoFault), Advertise]

  lemma RunLast(events: seq<Event>, n: nat)
    requires 0 < n <= |events|
    ensures RunAll(events[..n]) == Next(RunAll(events[..n - 1]), events[n - 1])
  {
    hide Next;
    assert events[..n][..n - 1] == events[..n - 1];
  }

  /** The accessory with a key, after the controller disconnected. */
  const KEYED := Run(Adv(false, false, true, true, NO_BROADCAST, Some(Gsn(1, false)), Some(Parameters(32767, 5, None))),
                     1, Period(1, 0, 0), Epoch([Generated(5, 1)], 1, 0), None, [])

  lemma KeyedRun()
    ensures RunAll(BROADCAST_EVENTS[..4]) == KEYED
  {
    RunLast(BROADCAST_EVENTS, 1);
    RunLast(BROADCAST_EVENTS, 2);
    RunLast(BROADCAST_EVENTS, 3);
    RunLast(BROADCAST_EVENTS, 4);
    assert BROADCAST_EVENTS[..0] == [];
    hide RunAll;
    var s1 := Next(FACTORY, BROADCAST_EVENTS[0]);
    assert s1.adv.fastStarted && !s1.adv.connected;
  }

  /** The broadcast has started. */
  const BROADCAST := Run(
    KEYED.adv.(timer := true, broadcast := Broadcast(7, [1, 2, 3, 4, 5, 6, 7, 8], 1), storedGsn := Some(Gsn(2, true))),
    1, Period(1, 0, 1), Epoch([Generated(5, 1)], 1, 1), Some(BROADCASTING), [])

  lemma BroadcastStarts()
    ensures Next(KEYED, BROADCAST_EVENTS[4]) == BROADCAST
  {
    assert KeyIsUsable(KEYED.adv) && Successor(1) == 2;
  }

  lemma BroadcastIsSealed()
    ensures Next(BROADCAST, Advertise).adv == BROADCAST.adv
    ensures Next(BROADCAST, Advertise).log == [Emission(1, 1, 5, 2, 7, [1, 2, 3, 4, 5, 6, 7, 8], None)]
    ensures BROADCAST.adv.broadcast.iid == 7 && BROADCAST.adv.timer
    ensures GetAdvertisement(Step(BROADCAST.adv, PurgeParameters).adv) == WithoutKey
    ensures DisconnectedEvent(Step(BROADCAST.adv, RestoreFactorySettings).adv, true, NoFault).status == Aborted
  {
  }

  /** The run seals an advertisement while the timer of its broadcast runs: purging then leaves it without a key. */
  lemma BroadcastRun()
    ensures var run := RunAll(BROADCAST_EVENTS);
            && run.log == [Emission(1, 1, 5, 2, 7, [1, 2, 3, 4, 5, 6, 7, 8], None)]
            && run.adv.broadcast.iid == 7 && run.adv.timer
            && GetAdvertisement(Step(run.adv, PurgeParameters).adv) == WithoutKey
            && DisconnectedEvent(Step(run.adv, RestoreFactorySettings).adv, true, NoFault).status == Aborted
  {
    KeyedRun();
    RunLast(BROADCAST_EVENTS, 5);
    RunLast(BROADCAST_EVENTS, 6);
    assert BROADCAST_EVENTS[..6] == BROADCAST_EVENTS && BROADCAST_EVENTS[5] == Advertise;
    BroadcastStarts();
    BroadcastIsSealed();
    hide *;
  }

  /** A key can be generated twice in one connection; the premise allows that. */
  lemma RepeatedKeyRun(key: nat)
    ensures var start, connect, newKey := StartAdvertising(true), Connect(NoFault), NewKey(key, None, NoFault);
            var keys := RunAll([start, connect, newKey, newKey]).epoch.keys;
            && |keys| == 2 && keys[0] == keys[1] && ConnectionsHaveOwnKeys(keys)
  {
    var events := [StartAdvertising(true), Connect(NoFault), NewKey(key, None, NoFault), NewKey(key, None, NoFault)];
    assert events[..3][..2] == events[..2] && events[..2][..1] == events[..1] && events[..1][..0] == [];
    assert RunAll(events[..1]) == Next(FACTORY, events[0]);
    assert RunAll(events[..2]) == Next(RunAll(events[..1]), events[1]);
    assert RunAll(events[..3]) == Next(RunAll(events[..2]), events[2]);
  }
}
