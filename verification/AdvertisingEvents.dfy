/**
 * What every event does to the advertising state, and what is put into the air as a consequence: stated over the
 * state, the surroundings of the event and the point at which the key-value store fails.
 */
module AdvertisingEvents {
  import opened Bytes
  import opened GlobalStateNumber
  import opened AdvertisingModel
  import opened AdvertisingRuns

  // Events that are raised.

  /** There is a key, and it may be used once more. */
  predicate CanBroadcast(s: Adv, source: Source) {
    && source.supportsBroadcast && !s.connected && source.broadcastInterval.Some?
    && GetParameters(s).keyExpirationGSN !in {0, GetGSN(s).gsn}
  }

  /** The event is to advance the number. */
  predicate Advances(s: Adv, source: Source) {
    if CanBroadcast(s, source) then source.value.Some?
    else source.supportsDisconnected && !GetGSN(s).didIncrement
  }

  /** Where the store has to fail for an increment to fail; discarding the key is only tried where it expires. */
  predicate IncrementFails(s: Adv, fault: Fault) {
    fault == OnIncrement || fault == OnSave || (fault == OnExpire && GetGSN(s).gsn == GetParameters(s).keyExpirationGSN)
  }

  /** Raising an event fails exactly if an access to the store that it needs fails. */
  lemma RaisingFailsIff(s: Adv, source: Source, timerStarts: bool, fault: Fault)
    requires Consistent(s)
    ensures var r := Step(s, RaiseEvent(source, timerStarts, fault));
            var tries := source.supportsBroadcast && !s.connected;
            var usable := GetParameters(s).keyExpirationGSN !in {0, GetGSN(s).gsn};
            && r.status in {Done, Failed}
            && (r.status == Failed <==>
                  || (fault == OnRead && (tries || source.supportsDisconnected))
                  || (fault == OnConfiguration && tries && usable)
                  || (Advances(s, source) && IncrementFails(s, fault)))
            && (r.status == Failed ==> r.cause == NoIncrement && GetGSN(r.adv) == GetGSN(s))
  {
  }

  /** An event that succeeds advances the number exactly if it is to, to the successor. */
  lemma EventAdvancesIff(s: Adv, source: Source, timerStarts: bool, fault: Fault)
    requires Consistent(s)
    requires Step(s, RaiseEvent(source, timerStarts, fault)).status == Done
    ensures var r := Step(s, RaiseEvent(source, timerStarts, fault));
            && GetGSN(r.adv) == (if Advances(s, source) then Gsn(Successor(GetGSN(s).gsn), true) else GetGSN(s))
            && r.cause == (if !Advances(s, source) then NoIncrement
                           else if CanBroadcast(s, source) then ByBroadcast else ByEvent)
            && r.adv.connected == s.connected && r.adv.fastTimer == s.fastTimer && r.adv.fastStarted == s.fastStarted
  {
  }

  /** An event that is not broadcast starts the event timer while disconnected, and leaves the broadcast alone. */
  lemma DisconnectedEventOutcome(s: Adv, source: Source, timerStarts: bool, fault: Fault)
    requires Consistent(s) && !CanBroadcast(s, source)
    requires Step(s, RaiseEvent(source, timerStarts, fault)).status == Done
    ensures var r := Step(s, RaiseEvent(source, timerStarts, fault)).adv;
            && r.timer == (if Advances(s, source) && !s.connected then timerStarts else s.timer)
            && r.broadcast == s.broadcast
            && (!Advances(s, source) ==> r == s)
  {
  }

  /** An event that is broadcast replaces the broadcast in progress; without value or timer there is none then. */
  lemma BroadcastEventOutcome(s: Adv, source: Source, timerStarts: bool, fault: Fault)
    requires Consistent(s) && CanBroadcast(s, source) && source.iid != 0
    requires fault != OnRead && fault != OnConfiguration
    ensures var r := Step(s, RaiseEvent(source, timerStarts, fault));
            var t := r.adv;
            && t.timer == (r.status == Done && source.value.Some? && timerStarts)
            && t.broadcast.value == (if source.value.Some? then source.value.value else NO_BROADCAST.value)
            && (if t.timer then t.broadcast.iid == source.iid && t.broadcast.interval == source.broadcastInterval.value
                else t.broadcast.iid == 0 && t.broadcast.interval == s.broadcast.interval)
  {
  }

  /** Advancing discards the key exactly at its expiration number, and keeps the advertising identifier. */
  lemma KeyAfterEvent(s: Adv, source: Source, timerStarts: bool, fault: Fault)
    requires Consistent(s) && Step(s, RaiseEvent(source, timerStarts, fault)).status == Done
    ensures var r := Step(s, RaiseEvent(source, timerStarts, fault)).adv;
            var expires := Advances(s, source) && GetGSN(s).gsn == GetParameters(s).keyExpirationGSN;
            && GetParameters(r) == (if expires then Parameters(0, 0, GetParameters(s).advertisingID)
                                    else GetParameters(s))
  {
  }

  /** The first event that is sent in a connection advances the number; the others change nothing. */
  lemma NotificationOutcome(s: Adv, fault: Fault)
    requires Consistent(s) && s.connected
    ensures var r := DidSendEventNotification(s, fault);
            var advances := !GetGSN(s).didIncrement;
            && (r.status == Failed <==> fault == OnRead || (advances && IncrementFails(s, fault)))
            && r.status in {Done, Failed}
            && (r.status == Done ==>
                  && GetGSN(r.adv) == (if advances then Gsn(Successor(GetGSN(s).gsn), true) else GetGSN(s))
                  && r.adv == s.(storedGsn := r.adv.storedGsn, storedParameters := r.adv.storedParameters)
                  && (r.cause == ByEvent <==> advances) && (!advances ==> r.adv == s))
            && (r.status == Failed ==> r.cause == NoIncrement && GetGSN(r.adv) == GetGSN(s))
  {
  }

  // Connections, timers and keys.

  predicate StoreFails(fault: Fault) {
    fault in {OnRead, OnSave}
  }

  lemma ConnectionOutcome(s: Adv, fault: Fault)
    requires Consistent(s) && Enabled(s, Connect(fault))
    ensures var r := DidConnect(s, fault);
            && r.status == (if StoreFails(fault) then Failed else Done)
            && r.adv.connected && !r.adv.timer && !r.adv.fastTimer && r.adv.fastStarted
            && r.adv.storedParameters == s.storedParameters
            && (r.status == Done ==>
                  GetGSN(r.adv) == Gsn(GetGSN(s).gsn, false) && r.adv.broadcast == NO_BROADCAST)
            && (r.status == Failed ==> r.adv.storedGsn == s.storedGsn)
  {
  }

  lemma DisconnectionOutcome(s: Adv, timerStarts: bool, fault: Fault)
    requires Consistent(s) && s.connected
    ensures var r := DidDisconnect(s, timerStarts, fault);
            && r.status == (if StoreFails(fault) then Failed else Done)
            && !r.adv.connected && !r.adv.timer && r.adv.fastTimer == timerStarts && r.adv.fastStarted
            && r.adv.broadcast == s.broadcast && r.adv.storedParameters == s.storedParameters
            && (if r.status == Done then GetGSN(r.adv) == Gsn(GetGSN(s).gsn, false)
                else r.adv.storedGsn == s.storedGsn)
  {
  }

  /** Fast advertising starts once after boot. */
  lemma StartOutcome(s: Adv, timerStarts: bool)
    requires Consistent(s) && !s.connected
    ensures var r := Step(s, StartAdvertising(timerStarts));
            && r.status == Done
            && r.adv == if s.fastStarted then s else s.(fastStarted := true, fastTimer := timerStarts)
  {
  }

  /** A broadcast whose time is over becomes an event that is advertised with the same number. */
  lemma TimerOutcome(s: Adv, fast: bool, timerStarts: bool)
    requires Consistent(s) && (if fast then s.fastTimer else s.timer)
    ensures var r := Step(s, if fast then FastTimerExpired(timerStarts) else AdvTimerExpired(timerStarts));
            var over := !fast && s.broadcast.iid != 0;
            && r.status == Done
            && r.adv == s.(fastTimer := s.fastTimer && !fast, timer := if over then timerStarts else s.timer && fast,
                           broadcast := if over then NO_BROADCAST else s.broadcast)
  {
  }

  /** A new key replaces the old one, and expires 32766 increments from now; the identifier changes only if given. */
  lemma KeyOutcome(s: Adv, key: nat, advertisingID: Option<nat>, fault: Fault)
    requires Consistent(s) && s.connected
    ensures var r := Step(s, NewKey(key, advertisingID, fault));
            && r.status == (if StoreFails(fault) then Failed else Done)
            && (r.status == Failed ==> r.adv == s)
            && (r.status == Done ==>
                  && GetParameters(r.adv).key == key
                  && GetParameters(r.adv).keyExpirationGSN == Advance(GetGSN(s).gsn, 32766)
                  && GetParameters(r.adv).advertisingID
                     == (if advertisingID.Some? then advertisingID else GetParameters(s).advertisingID)
                  && r.adv == s.(storedParameters := r.adv.storedParameters))
  {
    ExpirationIsAdvance(GetGSN(s).gsn);
  }

  lemma IdentifierOutcome(s: Adv, advertisingID: nat, fault: Fault)
    requires Consistent(s) && s.connected
    ensures var r := Step(s, NewAdvertisingID(advertisingID, fault));
            && r.status == (if StoreFails(fault) then Failed else Done)
            && (r.status == Failed ==> r.adv == s)
            && (r.status == Done ==>
                  && GetParameters(r.adv) == Parameters(GetParameters(s).keyExpirationGSN, GetParameters(s).key,
                                                        Some(advertisingID))
                  && r.adv == s.(storedParameters := r.adv.storedParameters))
  {
  }

  /** A restart forgets what is in memory; an update restarts the number and takes the key, but not the identifier. */
  lemma RestartOutcome(s: Adv, firmwareUpdate: bool)
    ensures var r := Step(s, Restart(firmwareUpdate)).adv;
            && !r.connected && !r.timer && !r.fastTimer && !r.fastStarted && r.broadcast.iid == 0
            && GetGSN(r) == (if firmwareUpdate then Gsn(1, false) else GetGSN(s))
            && GetParameters(r) == (if firmwareUpdate then Parameters(0, 0, GetParameters(s).advertisingID)
                                    else GetParameters(s))
  {
  }

  /** Purging and resetting the store leave the memory as it is. */
  lemma ResetOutcome(s: Adv)
    ensures var purged, restored := Step(s, PurgeParameters).adv, Step(s, RestoreFactorySettings).adv;
            && purged == s.(storedParameters := None) && GetParameters(purged) == Parameters(0, 0, None)
            && restored == purged.(storedGsn := None) && GetGSN(restored) == Gsn(1, false)
  {
  }

  /** The assertions of the library, in every state, consistent or not. */
  lemma AssertionsFailIff(s: Adv, timerStarts: bool, fault: Fault)
    ensures Step(s, StartAdvertising(timerStarts)).status == Aborted <==> !s.fastStarted && s.fastTimer
    ensures Step(s, Disconnect(timerStarts, fault)).status == Aborted <==>
              !s.fastStarted || s.fastTimer || s.timer || (!StoreFails(fault) && s.broadcast.iid != 0)
    ensures Step(s, AdvTimerExpired(timerStarts)).status == Aborted <==> s.connected
    ensures Step(s, FastTimerExpired(timerStarts)).status == Aborted <==> s.connected
    ensures Step(s, SendEventNotification(fault)).status == Aborted <==>
              !GetGSN(s).didIncrement && (s.broadcast.iid != 0 || s.timer) && fault != OnRead
    ensures GetAdvertisement(s) == WithoutKey <==>
              !s.connected && s.broadcast.iid != 0 && GetParameters(s).keyExpirationGSN == 0
  {
  }

  lemma EventAssertionsFailIff(s: Adv, source: Source, timerStarts: bool, fault: Fault)
    ensures Step(s, RaiseEvent(source, timerStarts, fault)).status == Aborted <==>
              && !CanBroadcast(s, source) && source.supportsDisconnected && !GetGSN(s).didIncrement
              && (s.broadcast.iid != 0 || s.timer)
              && fault != OnRead
              && !(fault == OnConfiguration && source.supportsBroadcast && !s.connected
                   && GetParameters(s).keyExpirationGSN !in {0, GetGSN(s).gsn})
  {
  }

  // Over runs.

  /**
   * What is in the air, over every run: nothing during a connection, the event that was broadcast last while it is
   * broadcast, and otherwise the number of the period, fast around boot, events and disconnections.
   */
  lemma AdvertisementTellsTheNumber(events: seq<Event>)
    ensures var run := RunAll(events);
            var s := run.adv;
            && run.period.start > 0
            && var number := Advance(run.period.start, run.period.events + run.period.broadcasts);
               if s.connected then GetAdvertisement(s) == Inactive
               else if s.broadcast.iid == 0 then
                 GetAdvertisement(s) == Regular(number, s.timer || s.fastTimer || !s.fastStarted)
               else
                 && run.raised.Some? && run.raised.value.value.Some? && run.epoch.keys != []
                 && GetAdvertisement(s)
                    == Encrypted(run.epoch.keys[|run.epoch.keys| - 1].key, number, run.raised.value.iid,
                                 run.raised.value.value.value, GetParameters(s).advertisingID)
  {
    EveryRunHolds(events);
  }

  /** An event that is to advance the number and succeeds is counted in its period. */
  lemma SuccessfulEventCounts(events: seq<Event>, source: Source, timerStarts: bool, fault: Fault)
    requires Advances(RunAll(events).adv, source)
    requires Step(RunAll(events).adv, RaiseEvent(source, timerStarts, fault)).status == Done
    ensures var before := RunAll(events).period;
            var after := RunAll(events + [RaiseEvent(source, timerStarts, fault)]).period;
            && after.start == before.start
            && after.events + after.broadcasts == before.events + before.broadcasts + 1
  {
    EveryRunHolds(events);
    assert (events + [RaiseEvent(source, timerStarts, fault)])[..|events|] == events;
    EventAdvancesIff(RunAll(events).adv, source, timerStarts, fault);
    hide RunAll, Step;
  }

  /** While disconnected, an event of a characteristic with disconnected events always leaves the number advanced. */
  lemma EventIsAnnounced(events: seq<Event>, source: Source, timerStarts: bool)
    requires source.supportsDisconnected && (source.value.None? ==> !CanBroadcast(RunAll(events).adv, source))
    ensures var run := RunAll(events + [RaiseEvent(source, timerStarts, NoFault)]);
            run.period.events + run.period.broadcasts > 0 && GetGSN(run.adv).didIncrement
  {
    EveryRunHolds(events);
    EveryRunHolds(events + [RaiseEvent(source, timerStarts, NoFault)]);
    assert (events + [RaiseEvent(source, timerStarts, NoFault)])[..|events|] == events;
    EventIncrements(RunAll(events).adv, source, timerStarts);
    hide Step, Consistent, CanBroadcast, LogHolds, ConnectionsHold, EpochHolds, RaisedHolds;
  }

  lemma EventIncrements(s: Adv, source: Source, timerStarts: bool)
    requires Consistent(s) && source.supportsDisconnected && (source.value.None? ==> !CanBroadcast(s, source))
    ensures GetGSN(Step(s, RaiseEvent(source, timerStarts, NoFault)).adv).didIncrement
  {
    RaisingFailsIff(s, source, timerStarts, NoFault);
    EventAdvancesIff(s, source, timerStarts, NoFault);
    hide Step, Consistent, CanBroadcast;
  }
}
