/**
 * The BLE advertising state machine: connections, connected, disconnected and broadcasted events
 * (section 7.4.6 of HAP Specification R14), their timers and the broadcast encryption key. The reference
 * that the class in `AdvertisingServer` is proved against. Keys are identified by a number.
 */
module AdvertisingModel {
  import opened Bytes
  import opened GlobalStateNumber

  datatype Gsn = Gsn(gsn: u16, didIncrement: bool)

  datatype Parameters = Parameters(keyExpirationGSN: u16, key: nat, advertisingID: Option<nat>)

  /** An event that is being broadcast; `iid` 0 means that there is none. */
  datatype Broadcast = Broadcast(iid: u16, value: seq<byte>, interval: byte)

  const NO_BROADCAST := Broadcast(0, [0, 0, 0, 0, 0, 0, 0, 0], 0)

  /** `storedGsn` and `storedParameters` are in the key-value store; the rest is in memory. */
  datatype Adv = Adv(
    connected: bool,
    timer: bool,
    fastTimer: bool,
    fastStarted: bool,
    broadcast: Broadcast,
    storedGsn: Option<Gsn>,
    storedParameters: Option<Parameters>)

  /** Where access to the key-value store fails. */
  datatype Fault = NoFault | OnRead | OnConfiguration | OnIncrement | OnExpire | OnSave

  datatype Status = Done | Failed | Aborted

  /** What made the Global State Number advance. */
  datatype Cause = NoIncrement | ByEvent | ByBroadcast

  datatype Outcome = Outcome(status: Status, adv: Adv, cause: Cause)

  function GetGSN(s: Adv): Gsn {
    if s.storedGsn.None? then Gsn(1, false) else s.storedGsn.value
  }

  function GetParameters(s: Adv): Parameters {
    if s.storedParameters.None? then Parameters(0, 0, None) else s.storedParameters.value
  }

  /** The characteristic whose value changed, and what reading its value for a broadcast gives. */
  datatype Source = Source(
    iid: u16,
    supportsBroadcast: bool,
    supportsDisconnected: bool,
    broadcastInterval: Option<byte>,
    value: Option<seq<byte>>)

  /** Increments the number, discarding the broadcast key if it expires. */
  function IncrementGSN(s: Adv, fault: Fault): (Status, Adv) {
    if fault == OnIncrement then (Failed, s) else
    var gsn := GetGSN(s);
    var expires := gsn.gsn == GetParameters(s).keyExpirationGSN;
    if expires && fault == OnExpire then (Failed, s) else
    var t := if expires then
               s.(storedParameters := Some(GetParameters(s).(keyExpirationGSN := 0, key := 0)))
             else s;
    if fault == OnSave then (Failed, t)
    else (Done, t.(storedGsn := Some(Gsn(Successor(gsn.gsn), true))))
  }

  function DidStartAdvertising(s: Adv, timerStarts: bool): Outcome {
    if s.fastStarted then Outcome(Done, s, NoIncrement)
    else if s.fastTimer then Outcome(Aborted, s, NoIncrement)
    else Outcome(Done, s.(fastStarted := true, fastTimer := timerStarts), NoIncrement)
  }

  /** Reading the number and saving it are the only accesses. */
  predicate Fails(fault: Fault) {
    fault == OnRead || fault == OnSave
  }

  function DidConnect(s: Adv, fault: Fault): Outcome {
    var t := s.(connected := true, fastTimer := false, timer := false);
    if Fails(fault) then Outcome(Failed, t, NoIncrement)
    else
      Outcome(Done, t.(storedGsn := Some(GetGSN(s).(didIncrement := false)), broadcast := NO_BROADCAST), NoIncrement)
  }

  function DidDisconnect(s: Adv, timerStarts: bool, fault: Fault): Outcome {
    if !s.fastStarted || s.fastTimer || s.timer then Outcome(Aborted, s.(connected := false), NoIncrement)
    else
      var t := s.(connected := false, fastTimer := timerStarts);
      if Fails(fault) then Outcome(Failed, t, NoIncrement)
      else
        Outcome(if s.broadcast.iid != 0 then Aborted else Done,
                t.(storedGsn := Some(GetGSN(s).(didIncrement := false))), NoIncrement)
  }

  /** A broadcast whose three seconds are over falls back to a disconnected event. */
  function TimerExpired(s: Adv, fast: bool, timerStarts: bool): Outcome {
    var t := if fast then s.(fastTimer := false) else s.(timer := false);
    if t.connected then Outcome(Aborted, t, NoIncrement)
    else if t.broadcast.iid != 0 && !t.timer then
      Outcome(Done, t.(broadcast := NO_BROADCAST, timer := timerStarts), NoIncrement)
    else Outcome(Done, t, NoIncrement)
  }

  /** Replaces the current broadcast by the latest value, or ends it if there is none. */
  function BroadcastEvent(s: Adv, source: Source, interval: byte, timerStarts: bool, fault: Fault): Outcome {
    var t := s.(timer := false, broadcast := s.broadcast.(iid := 0, value := NO_BROADCAST.value));
    if source.value.None? then Outcome(Done, t, NoIncrement) else
    var u := t.(broadcast := t.broadcast.(value := source.value.value));
    var (status, v) := IncrementGSN(u, fault);
    if status != Done then Outcome(status, v, NoIncrement)
    else if !timerStarts then Outcome(Done, v, ByBroadcast)
    else Outcome(Done, v.(timer := true, broadcast := Broadcast(source.iid, source.value.value, interval)), ByBroadcast)
  }

  /** The first event of a connected or disconnected period advances the number. */
  function DisconnectedEvent(s: Adv, timerStarts: bool, fault: Fault): Outcome {
    if GetGSN(s).didIncrement then Outcome(Done, s, NoIncrement)
    else if s.broadcast.iid != 0 || s.timer then Outcome(Aborted, s, NoIncrement)
    else
      var (status, t) := IncrementGSN(s, fault);
      if status != Done then Outcome(status, t, NoIncrement)
      else Outcome(Done, if s.connected then t else t.(timer := timerStarts), ByEvent)
  }

  predicate KeyIsUsable(s: Adv) {
    var expiration := GetParameters(s).keyExpirationGSN;
    expiration != 0 && expiration != GetGSN(s).gsn
  }

  function DidRaiseEvent(s: Adv, source: Source, timerStarts: bool, fault: Fault): Outcome {
    var tryBroadcast := source.supportsBroadcast && !s.connected;
    if tryBroadcast && fault == OnRead then Outcome(Failed, s, NoIncrement)
    else if tryBroadcast && KeyIsUsable(s) && fault == OnConfiguration then Outcome(Failed, s, NoIncrement)
    else if tryBroadcast && KeyIsUsable(s) && source.broadcastInterval.Some? then
      BroadcastEvent(s, source, source.broadcastInterval.value, timerStarts, fault)
    else if !source.supportsDisconnected then Outcome(Done, s, NoIncrement)
    else if fault == OnRead then Outcome(Failed, s, NoIncrement)
    else DisconnectedEvent(s, timerStarts, fault)
  }

  function DidSendEventNotification(s: Adv, fault: Fault): Outcome {
    if fault == OnRead then Outcome(Failed, s, NoIncrement)
    else if GetGSN(s).didIncrement then Outcome(Done, s, NoIncrement)
    else if s.broadcast.iid != 0 || s.timer then Outcome(Aborted, s, NoIncrement)
    else
      var (status, t) := IncrementGSN(s, fault);
      Outcome(status, t, if status == Done then ByEvent else NoIncrement)
  }

  function GenerateKey(s: Adv, key: nat, advertisingID: Option<nat>, fault: Fault): Outcome {
    if Fails(fault) then Outcome(Failed, s, NoIncrement)
    else
      Outcome(Done,
              s.(storedParameters :=
                   Some(Parameters(ExpirationGSN(GetGSN(s).gsn), key,
                                   if advertisingID.Some? then advertisingID else GetParameters(s).advertisingID))),
              NoIncrement)
  }

  function SetAdvertisingID(s: Adv, advertisingID: nat, fault: Fault): Outcome {
    if Fails(fault) then Outcome(Failed, s, NoIncrement)
    else
      Outcome(Done, s.(storedParameters := Some(GetParameters(s).(advertisingID := Some(advertisingID)))), NoIncrement)
  }

  // Restarts and resets.

  /** The accessory after it was switched on, with what is in the key-value store. */
  function Booted(storedGsn: Option<Gsn>, storedParameters: Option<Parameters>): Adv {
    Adv(false, false, false, false, NO_BROADCAST, storedGsn, storedParameters)
  }

  /** After a firmware update the number starts anew, and the key is discarded. */
  function Boot(s: Adv, firmwareUpdate: bool): Adv {
    if firmwareUpdate then Booted(None, Some(GetParameters(s).(keyExpirationGSN := 0, key := 0)))
    else Booted(s.storedGsn, s.storedParameters)
  }

  /** A fatal error: the accessory starts again. */
  function AfterFatal(r: Outcome): Outcome {
    if r.status == Failed then r.(adv := Boot(r.adv, false)) else r
  }

  /** What is put into the air; encrypted advertisements are sealed with the key and the number. */
  datatype Advertisement =
    | Inactive
    | Regular(gsn: u16, fast: bool)
    | Encrypted(key: nat, gsn: u16, iid: u16, value: seq<byte>, advertisingID: Option<nat>)
    | WithoutKey

  function GetAdvertisement(s: Adv): Advertisement {
    if s.connected then Inactive
    else if s.broadcast.iid != 0 then
      var parameters := GetParameters(s);
      if parameters.keyExpirationGSN == 0 then WithoutKey
      else
        Encrypted(parameters.key, GetGSN(s).gsn, s.broadcast.iid, s.broadcast.value, parameters.advertisingID)
    else Regular(GetGSN(s).gsn, s.timer || !s.fastStarted || s.fastTimer)
  }

  // Events.

  datatype Event =
    | StartAdvertising(timerStarts: bool)
    | Connect(fault: Fault)
    | Disconnect(timerStarts: bool, fault: Fault)
    | RaiseEvent(source: Source, timerStarts: bool, fault: Fault)
    | SendEventNotification(fault: Fault)
    | AdvTimerExpired(timerStarts: bool)
    | FastTimerExpired(timerStarts: bool)
    | NewKey(key: nat, advertisingID: Option<nat>, fault: Fault)
    | NewAdvertisingID(advertisingID_: nat, fault: Fault)
    | PurgeParameters // No administrator is left among the pairings.
    | RestoreFactorySettings
    | Restart(firmwareUpdate: bool)
    | Advertise

  /**
   * What the surroundings can do: a central connects only to an advertising accessory, a connection is needed to end
   * one, to send an event or to configure the protocol, only running timers expire, and the key-value store is not
   * reset while an event is advertised.
   */
  predicate Enabled(s: Adv, e: Event) {
    match e
    case StartAdvertising(_) => !s.connected
    case Connect(_) => !s.connected && s.fastStarted
    case Disconnect(_, _) => s.connected
    case SendEventNotification(_) => s.connected
    case AdvTimerExpired(_) => s.timer
    case FastTimerExpired(_) => s.fastTimer
    case NewKey(_, _, _) => s.connected
    case NewAdvertisingID(_, _) => s.connected
    case PurgeParameters => s.broadcast.iid == 0
    case RestoreFactorySettings => !s.timer
    case _ => true
  }

  /** An event, together with the restart that a failure brings about where it is fatal. */
  function Step(s: Adv, e: Event): Outcome {
    match e
    case StartAdvertising(timerStarts) => DidStartAdvertising(s, timerStarts)
    case Connect(fault) => AfterFatal(DidConnect(s, fault))
    case Disconnect(timerStarts, fault) => AfterFatal(DidDisconnect(s, timerStarts, fault))
    case RaiseEvent(source, timerStarts, fault) => DidRaiseEvent(s, source, timerStarts, fault)
    case SendEventNotification(fault) => AfterFatal(DidSendEventNotification(s, fault))
    case AdvTimerExpired(timerStarts) => TimerExpired(s, false, timerStarts)
    case FastTimerExpired(timerStarts) => TimerExpired(s, true, timerStarts)
    case NewKey(key, advertisingID, fault) => GenerateKey(s, key, advertisingID, fault)
    case NewAdvertisingID(advertisingID, fault) => SetAdvertisingID(s, advertisingID, fault)
    case PurgeParameters => Outcome(Done, s.(storedParameters := None), NoIncrement)
    case RestoreFactorySettings => Outcome(Done, s.(storedGsn := None, storedParameters := None), NoIncrement)
    case Restart(firmwareUpdate) => Outcome(Done, Boot(s, firmwareUpdate), NoIncrement)
    case Advertise => Outcome(Done, s, NoIncrement)
  }
}
