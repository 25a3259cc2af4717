/** The BLE advertising part of the accessory server, which keeps its numbers in the key-value store. */
module AdvertisingServer {
  import opened Bytes
  import opened Model = AdvertisingModel
  import opened GlobalStateNumber
  import opened AdvertisingRuns

  class Server {
    var connected: bool
    var timer: bool
    var fastTimer: bool
    var fastStarted: bool
    var broadcastedEvent: Broadcast

    // In the key-value store.
    var storedGsn: Option<Gsn>
    var storedParameters: Option<Parameters>

    ghost function View(): Adv
      reads this
    {
      Adv(connected, timer, fastTimer, fastStarted, broadcastedEvent, storedGsn, storedParameters)
    }

    /** The accessory is switched on. */
    constructor (storedGsn: Option<Gsn>, storedParameters: Option<Parameters>)
      requires storedGsn.Some? ==> storedGsn.value.gsn > 0
      ensures View() == Booted(storedGsn, storedParameters) && Consistent(View())
    {
      connected, timer, fastTimer, fastStarted := false, false, false, false;
      broadcastedEvent := NO_BROADCAST;
      this.storedGsn, this.storedParameters := storedGsn, storedParameters;
    }

    method GetGSN() returns (gsn: Gsn)
      ensures gsn == Model.GetGSN(View())
    {
      gsn := if storedGsn.None? then Gsn(1, false) else storedGsn.value;
    }

    method GetBroadcastParameters() returns (parameters: Parameters)
      ensures parameters == GetParameters(View())
    {
      parameters := if storedParameters.None? then Parameters(0, 0, None) else storedParameters.value;
    }

    method DidStartAdvertising(timerStarts: bool)
      requires Consistent(View()) && !connected
      modifies this
      ensures Consistent(View())
      ensures View() == Step(old(View()), StartAdvertising(timerStarts)).adv
    {
      if !fastStarted {
        assert !fastTimer;
        fastStarted := true;
        fastTimer := timerStarts;
      }
    }

    /** A failure of the store is fatal to the caller; in memory the broadcast is then still there. */
    method DidConnect(fault: Fault) returns (status: Status)
      requires Consistent(View()) && !connected && fastStarted
      modifies this
      ensures (status, View()) == var r := Model.DidConnect(old(View()), fault); (r.status, r.adv)
      ensures status == (if Fails(fault) then Failed else Done)
      ensures status == Done ==> Consistent(View()) && GetParameters(View()) == GetParameters(old(View()))
      ensures Consistent(Boot(View(), false))
    {
      connected := true;
      if fastTimer {
        fastTimer := false;
      }
      if timer {
        timer := false;
      }
      // Reset coalescing.
      if fault == OnRead {
        return Failed;
      }
      var gsn := GetGSN();
      if fault == OnSave {
        return Failed;
      }
      storedGsn := Some(gsn.(didIncrement := false));
      broadcastedEvent := NO_BROADCAST;
      return Done;
    }

    method DidDisconnect(timerStarts: bool, fault: Fault) returns (status: Status)
      requires Consistent(View()) && connected
      modifies this
      ensures (status, View()) == var r := Model.DidDisconnect(old(View()), timerStarts, fault); (r.status, r.adv)
      ensures status == (if Fails(fault) then Failed else Done)
      ensures Consistent(View())
    {
      connected := false;
      assert fastStarted && !fastTimer && !timer;
      // Allow quick reconnection.
      fastTimer := timerStarts;
      if fault == OnRead {
        return Failed;
      }
      var gsn := GetGSN();
      if fault == OnSave {
        return Failed;
      }
      storedGsn := Some(gsn.(didIncrement := false));
      assert broadcastedEvent.iid == 0;
      return Done;
    }

    method TimerExpired(fast: bool, timerStarts: bool)
      requires Consistent(View()) && (if fast then fastTimer else timer)
      modifies this
      ensures Consistent(View())
      ensures View()
           == Step(old(View()), if fast then FastTimerExpired(timerStarts) else AdvTimerExpired(timerStarts)).adv
    {
      if fast {
        fastTimer := false;
      } else {
        timer := false;
      }
      assert !connected;
      if broadcastedEvent.iid != 0 && !timer {
        broadcastedEvent := NO_BROADCAST;
        timer := timerStarts;
      }
    }

    method IncrementGSN(fault: Fault) returns (status: Status)
      modifies this`storedGsn, this`storedParameters
      ensures (status, View()) == Model.IncrementGSN(old(View()), fault)
    {
      if fault == OnIncrement {
        return Failed;
      }
      var parameters := GetBroadcastParameters();
      var gsn := GetGSN();
      if gsn.gsn == parameters.keyExpirationGSN {
        if fault == OnExpire {
          return Failed;
        }
        storedParameters := Some(parameters.(keyExpirationGSN := 0, key := 0));
      }
      if gsn.gsn == UINT16_MAX {
        gsn := gsn.(gsn := 1);
      } else {
        gsn := gsn.(gsn := gsn.gsn + 1);
      }
      if fault == OnSave {
        return Failed;
      }
      storedGsn := Some(gsn.(didIncrement := true));
      return Done;
    }

    /** Replaces the current broadcast, if reading the value succeeds. */
    method BroadcastEvent(source: Source, interval: byte, timerStarts: bool, fault: Fault) returns (status: Status)
      modifies this
      ensures var r := Model.BroadcastEvent(old(View()), source, interval, timerStarts, fault);
              status == r.status && View() == r.adv
    {
      timer := false;
      broadcastedEvent := broadcastedEvent.(iid := 0, value := NO_BROADCAST.value);
      if source.value.None? {
        return Done;
      }
      broadcastedEvent := broadcastedEvent.(value := source.value.value);
      status := IncrementGSN(fault);
      if status != Done {
        return;
      }
      if timerStarts {
        timer := true;
        broadcastedEvent := broadcastedEvent.(interval := interval);
        broadcastedEvent := broadcastedEvent.(iid := source.iid);
      }
    }

    method DidRaiseEvent(source: Source, timerStarts: bool, fault: Fault) returns (status: Status)
      requires Consistent(View())
      modifies this
      ensures Consistent(View())
      ensures var r := Step(old(View()), RaiseEvent(source, timerStarts, fault));
              status == r.status && View() == r.adv
    {
      StepIsConsistent(View(), RaiseEvent(source, timerStarts, fault));
      hide Consistent, Model.BroadcastEvent, Model.IncrementGSN;
      if source.supportsBroadcast {
        if !connected {
          if fault == OnRead {
            return Failed;
          }
          var parameters := GetBroadcastParameters();
          var gsn := GetGSN();
          if parameters.keyExpirationGSN != 0 && parameters.keyExpirationGSN != gsn.gsn {
            if fault == OnConfiguration {
              return Failed;
            }
            if source.broadcastInterval.Some? {
              status := BroadcastEvent(source, source.broadcastInterval.value, timerStarts, fault);
              return;
            }
          }
        }
      }
      if source.supportsDisconnected {
        if fault == OnRead {
          return Failed;
        }
        status := RaiseDisconnectedEvent(timerStarts, fault);
        return;
      }
      return Done;
    }

    method RaiseDisconnectedEvent(timerStarts: bool, fault: Fault) returns (status: Status)
      modifies this
      ensures var r := DisconnectedEvent(old(View()), timerStarts, fault);
              status == r.status && View() == r.adv
    {
      var gsn := GetGSN();
      if !gsn.didIncrement {
        if broadcastedEvent.iid != 0 || timer {
          return Aborted;
        }
        status := IncrementGSN(fault);
        if status != Done {
          return;
        }
        if !connected {
          timer := timerStarts;
        }
      }
      return Done;
    }

    method DidSendEventNotification(fault: Fault) returns (status: Status)
      requires Consistent(View()) && connected
      modifies this
      ensures Consistent(View()) && status != Aborted
      ensures (status, View()) == var r := Model.DidSendEventNotification(old(View()), fault); (r.status, r.adv)
      ensures status == Done && Model.GetGSN(old(View())).didIncrement ==> View() == old(View())
    {
      if fault == OnRead {
        return Failed;
      }
      var gsn := GetGSN();
      if !gsn.didIncrement {
        assert broadcastedEvent.iid == 0;
        assert !timer;
        status := IncrementGSN(fault);
        if status != Done {
          return;
        }
      }
      return Done;
    }

    /** Generates a broadcast key over a secured session. */
    method BroadcastGenerateKey(key: nat, advertisingID: Option<nat>, fault: Fault) returns (status: Status)
      requires Consistent(View()) && connected
      modifies this`storedParameters
      ensures Consistent(View()) && status != Aborted
      ensures var r := Step(old(View()), NewKey(key, advertisingID, fault)); status == r.status && View() == r.adv
      ensures status == Done ==>
                GetParameters(View()).keyExpirationGSN == Advance(Model.GetGSN(View()).gsn, KEY_LIFETIME - 1)
    {
      ExpirationIsAdvance(Model.GetGSN(View()).gsn);
      if fault == OnRead {
        return Failed;
      }
      var parameters := GetBroadcastParameters();
      var gsn := GetGSN();
      var keyExpirationGSN: int := gsn.gsn + 32767 - 1;
      if keyExpirationGSN > UINT16_MAX {
        keyExpirationGSN := keyExpirationGSN - UINT16_MAX;
      }
      assert keyExpirationGSN != 0 && keyExpirationGSN <= UINT16_MAX;
      parameters := parameters.(keyExpirationGSN := keyExpirationGSN, key := key);
      if advertisingID.Some? {
        parameters := parameters.(advertisingID := advertisingID);
      }
      if fault == OnSave {
        return Failed;
      }
      storedParameters := Some(parameters);
      return Done;
    }

    method BroadcastSetAdvertisingID(advertisingID: nat, fault: Fault) returns (status: Status)
      requires Consistent(View()) && connected
      modifies this`storedParameters
      ensures Consistent(View()) && status != Aborted
      ensures var r := Step(old(View()), NewAdvertisingID(advertisingID, fault)); status == r.status && View() == r.adv
      ensures GetParameters(View()).keyExpirationGSN == GetParameters(old(View())).keyExpirationGSN
      ensures GetParameters(View()).key == GetParameters(old(View())).key
    {
      if fault == OnRead {
        return Failed;
      }
      var parameters := GetBroadcastParameters();
      if fault == OnSave {
        return Failed;
      }
      storedParameters := Some(parameters.(advertisingID := Some(advertisingID)));
      return Done;
    }

    /** Selects the advertisement; a broadcast in progress always finds its key. */
    method GetAdvertisingParameters() returns (advertisement: Advertisement)
      requires Consistent(View())
      ensures advertisement == GetAdvertisement(View()) && advertisement != WithoutKey
    {
      if connected {
        return Inactive;
      }
      var gsn := GetGSN();
      if broadcastedEvent.iid != 0 {
        var parameters := GetBroadcastParameters();
        if parameters.keyExpirationGSN == 0 {
          return WithoutKey;
        }
        return Encrypted(parameters.key, gsn.gsn, broadcastedEvent.iid, broadcastedEvent.value,
                         parameters.advertisingID);
      } else {
        return Regular(gsn.gsn, timer || !fastStarted || fastTimer);
      }
    }
  }
}
