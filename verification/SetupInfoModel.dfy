/** The setup code's life: when it is drawn, shown, locked for a pairing attempt, kept and discarded. */
module SetupInfoModel {
  import opened Bytes

  /** What the accessory is equipped with. */
  datatype Config = Config(display: bool, nfc: bool, legacyDisplay: bool, legacyNfc: bool, setupId: bool)

  /** The provisioned setup code, or the one that was drawn at random for the `serial`-th time. */
  datatype Code = Static | Drawn(serial: nat)

  /**
   * `info` is the code that the stored SRP verifier was derived from, `shown` the code on the display, and `draws`
   * the number of codes drawn so far. `failed` is set where the source runs into a failing assertion.
   */
  datatype State = State(
    started: bool, paired: bool, pairing: bool,
    code: Option<Code>, info: Option<Code>, locked: bool, keep: bool,
    refreshTimer: bool, nfcTimer: bool, shown: Option<Code>, draws: nat, failed: bool)
  {
    predicate Available() {
      info.Some? || code.Some?
    }
  }

  const INITIAL := State(false, false, false, None, None, false, false, false, false, None, 0, false)

  function Check(s: State, ok: bool): (r: State)
    ensures r == s.(failed := r.failed) && (ok ==> r == s)
  {
    s.(failed := s.failed || !ok)
  }

  predicate ShowsCodes(c: Config) {
    c.display || c.legacyDisplay || c.legacyNfc
  }

  /** Updates display and tag; a pairable payload must not be made while the accessory is paired. */
  function Synchronize(c: Config, s: State): (r: State)
    ensures r == s.(failed := r.failed, shown := r.shown)
  {
    if !c.nfc && !ShowsCodes(c) then s
    else
      var pairable := s.code.Some? && (ShowsCodes(c) || (c.nfc && s.nfcTimer)) && c.setupId;
      s.(failed := s.failed || (pairable && s.paired), shown := if c.display then s.code else s.shown)
  }

  function Clear(s: State): State {
    var cleared :=
      if s.Available() then s.(code := None, info := None, locked := false, keep := false, refreshTimer := false)
      else s;
    Check(cleared, !cleared.refreshTimer)
  }

  /** Draws a code at random. Unless it is locked it expires. */
  function Draw(s: State, lock: bool): State {
    Check(s, lock || !s.refreshTimer).(
      code := Some(Drawn(s.draws)), draws := s.draws + 1, locked := lock, keep := false,
      refreshTimer := !lock || s.refreshTimer)
  }

  /** Loads the provisioned verifier, and the code if a tag can show it. */
  function Load(c: Config, s: State, lock: bool): State {
    s.(code := if c.nfc || c.legacyNfc then Some(Static) else None, info := Some(Static), locked := lock, keep := false)
  }

  function Acquire(c: Config, s: State, lock: bool): State {
    if c.display || c.legacyDisplay then Draw(s, lock) else Load(c, s, lock)
  }

  /** Makes a setup code available, and locks it if asked to. */
  function Prepare(c: Config, s: State, lock: bool): State {
    var s := Check(s, !s.paired);
    if s.Available() then
      if lock then s.(locked := true, refreshTimer := false) else s
    else Synchronize(c, Acquire(c, s, lock))
  }

  function RefreshExpired(c: Config, s: State): State {
    var s := s.(refreshTimer := false);
    var s := Clear(Check(s, !s.paired && !s.locked && s.Available()));
    if c.display then Prepare(c, s, false) else s
  }

  /** Unless the code is to be restored, one that was kept from the previous attempt is replaced. */
  function Renew(c: Config, s: State, restore: bool): State {
    if !restore && s.keep then
      var s := Prepare(c, Clear(s), true);
      Check(s, !s.keep)
    else s
  }

  /** The verifier is derived from the code when it is needed for the first time. */
  function Derive(s: State): State {
    if s.info.None? then s.(info := s.code) else s
  }

  /** Gives the verifier for the attempt. */
  function GetSetupInfo(c: Config, s: State, restore: bool): (State, Option<Code>) {
    if restore && !s.Available() then (s, None)
    else
      var s := Derive(Renew(c, Check(s, s.Available()), restore));
      (s, s.info)
  }

  function ServerStart(c: Config, s: State): State {
    var s := Check(s, !s.refreshTimer).(started := true);
    if c.display && !s.paired then Prepare(c, s, false) else s
  }

  function ServerStop(c: Config, s: State): State {
    Synchronize(c, INITIAL.(paired := s.paired, shown := s.shown, draws := s.draws, failed := s.failed))
  }

  /** The code is not used for anything but the tag once NFC pairing mode is left. */
  function CompleteExitingNfc(c: Config, s: State): State {
    var s := Check(s, !s.nfcTimer);
    Synchronize(c, if !s.locked && !s.refreshTimer then Clear(s) else s)
  }

  function ExitNfc(c: Config, s: State): State {
    if !s.nfcTimer then s else CompleteExitingNfc(c, s.(nfcTimer := false))
  }

  function EnterNfc(c: Config, s: State): State {
    if s.paired then s
    else
      var entered := s.(nfcTimer := true);
      if !s.Available() then Prepare(c, entered, false)
      else if !s.nfcTimer then Synchronize(c, entered)
      else entered
  }

  function StateUpdate(c: Config, s: State): State {
    if !s.paired then
      if c.display then Prepare(c, s, false) else Synchronize(c, s)
    else if c.nfc && s.nfcTimer then ExitNfc(c, s)
    else s
  }

  function PairingStart(c: Config, s: State): State {
    var s := Prepare(c, s.(pairing := true), true);
    Check(s, !s.refreshTimer)
  }

  function PairingStop(c: Config, s: State, keep: bool): State {
    var s := s.(pairing := false);
    var s := if keep then Check(s, s.locked).(keep := true) else Synchronize(c, Clear(s));
    if c.display && !s.paired then Prepare(c, s, false) else s
  }

  /** The attempt is broken off; its code stays for the attempt that replaces it. */
  function Abandon(c: Config, s: State): State {
    PairingStop(c, s, true).(keep := false)
  }

  function Refresh(c: Config, s: State): State {
    if !s.refreshTimer then s else Prepare(c, Clear(s), false)
  }

  function EnterLegacy(c: Config, s: State): State {
    if !c.legacyDisplay && !c.legacyNfc then s
    else if s.pairing then s
    else if s.paired then s
    else Prepare(c, s, false)
  }

  // Steps.

  datatype Event =
    | Start
    | Stop
    | Updated
    | BeginPairing
    | EndPairing(keeping: bool)
    | AbandonPairing
    | Fetch(restore: bool)
    | RefreshRequested
    | RefreshTimeout
    | NfcEntered
    | NfcExited
    | NfcTimeout
    | LegacyEntered
    | PairingAdded
    | PairingsRemoved

  /** When the rest of the server lets an event happen. */
  predicate Enabled(c: Config, s: State, e: Event) {
    match e
    case Start => !s.started
    case Stop => s.started && !s.pairing
    case Updated => s.started
    case BeginPairing => s.started && !s.paired && !s.pairing
    case EndPairing(_) => s.pairing
    case AbandonPairing => s.pairing
    case Fetch(_) => s.pairing && !s.paired
    case RefreshRequested => s.started && c.display
    case RefreshTimeout => s.refreshTimer
    case NfcEntered => s.started && c.nfc
    case NfcExited => s.started && c.nfc
    case NfcTimeout => s.nfcTimer
    case LegacyEntered => s.started && !c.display && !c.nfc
    case PairingAdded => s.pairing
    case PairingsRemoved => s.paired
  }

  function Step(c: Config, s: State, e: Event): State {
    match e
    case Start => ServerStart(c, s)
    case Stop => ServerStop(c, s)
    case Updated => StateUpdate(c, s)
    case BeginPairing => PairingStart(c, s)
    case EndPairing(keeping) => PairingStop(c, s, keeping)
    case AbandonPairing => Abandon(c, s)
    case Fetch(restore) => GetSetupInfo(c, s, restore).0
    case RefreshRequested => Refresh(c, s)
    case RefreshTimeout => RefreshExpired(c, s)
    case NfcEntered => EnterNfc(c, s)
    case NfcExited => ExitNfc(c, s)
    case NfcTimeout => CompleteExitingNfc(c, s.(nfcTimer := false))
    case LegacyEntered => EnterLegacy(c, s)
    case PairingAdded => s.(paired := true)
    case PairingsRemoved => s.(paired := false)
  }

  function Run(c: Config, s: State, events: seq<Event>): State
    decreases |events|
  {
    if events == [] then s else Run(c, Step(c, s, events[0]), events[1..])
  }

  predicate Possible(c: Config, s: State, events: seq<Event>)
    decreases |events|
  {
    events != [] ==> Enabled(c, s, events[0]) && Possible(c, Step(c, s, events[0]), events[1..])
  }
}
