/** What holds of the setup code over every run. */
module SetupInfoRuns {
  import opened Bytes
  import opened SetupInfoModel

  predicate Consistent(c: Config, s: State) {
    && (s.refreshTimer <==> s.code.Some? && s.code.value.Drawn? && !s.locked)
    && (s.refreshTimer ==> !s.paired)
    && (s.pairing ==> s.locked)
    && (s.keep ==> s.locked)
    && (s.locked ==> s.Available())
    && (s.code.Some? && s.info.Some? ==> s.info == s.code)
    && (s.code.Some? && s.code.value.Drawn? ==> s.code.value.serial < s.draws)
    && (c.nfc || ShowsCodes(c) ==> s.info.Some? ==> s.code.Some?)
    && (c.display ==> s.shown == s.code)
    && (s.nfcTimer ==> c.nfc)
    && (!s.started ==> s == INITIAL.(paired := s.paired, shown := s.shown, draws := s.draws, failed := s.failed))
  }

  /** The code that the verifier of the current attempt belongs to, or will belong to. */
  function Effective(s: State): Option<Code> {
    if s.info.Some? then s.info else s.code
  }

  lemma StartIsConsistent(c: Config, s: State)
    requires Consistent(c, s) && Enabled(c, s, Start)
    ensures Consistent(c, ServerStart(c, s))
  {
  }

  lemma StopIsConsistent(c: Config, s: State)
    requires Consistent(c, s) && Enabled(c, s, Stop)
    ensures Consistent(c, ServerStop(c, s))
  {
  }

  lemma UpdatedIsConsistent(c: Config, s: State)
    requires Consistent(c, s) && Enabled(c, s, Updated)
    ensures Consistent(c, StateUpdate(c, s))
  {
  }

  lemma BeginPairingIsConsistent(c: Config, s: State)
    requires Consistent(c, s) && Enabled(c, s, BeginPairing)
    ensures Consistent(c, PairingStart(c, s))
  {
  }

  lemma EndPairingIsConsistent(c: Config, s: State, k: bool)
    requires Consistent(c, s) && Enabled(c, s, EndPairing(k))
    ensures Consistent(c, PairingStop(c, s, k))
  {
  }

  lemma AbandonPairingIsConsistent(c: Config, s: State)
    requires Consistent(c, s) && Enabled(c, s, AbandonPairing)
    ensures Consistent(c, Abandon(c, s))
  {
  }

  lemma RenewIsConsistent(c: Config, s: State, restore: bool)
    requires Consistent(c, s) && s.pairing && !s.paired
    ensures var r := Renew(c, s, restore);
            && Consistent(c, r) && r.pairing && !r.paired && (restore || !r.keep)
            && (restore || !s.keep ==> r == s)
  {
    if !restore && s.keep {
      var cleared := Clear(s);
      assert !cleared.Available() && !cleared.paired && cleared.pairing && cleared.started;
      PrepareIsConsistent(c, cleared);
    }
  }

  /** A fresh code can be prepared for an attempt whatever the display still shows. */
  lemma PrepareIsConsistent(c: Config, s: State)
    requires !s.Available() && !s.paired && s.pairing && s.started && !s.refreshTimer && (s.nfcTimer ==> c.nfc)
    ensures var r := Prepare(c, s, true);
            Consistent(c, r) && r.pairing && !r.paired && !r.keep
  {
  }

  lemma DeriveIsConsistent(c: Config, s: State)
    requires Consistent(c, s) && s.pairing
    ensures Consistent(c, Derive(s)) && Derive(s).info == Effective(s) && Derive(s).info.Some?
    ensures Derive(s) == s.(info := Effective(s))
  {
  }

  lemma CheckIsConsistent(c: Config, s: State, ok: bool)
    requires Consistent(c, s)
    ensures Consistent(c, Check(s, ok))
  {
  }

  /** In an attempt a fetch gives the verifier of the code in effect, after replacing a kept code that is not wanted. */
  lemma FetchReturns(c: Config, s: State, restore: bool)
    requires Consistent(c, s) && s.pairing && !s.paired
    ensures var (next, info) := GetSetupInfo(c, s, restore);
            && Consistent(c, next)
            && info == Effective(next) && info.Some? && next.pairing
            && (restore || !s.keep ==> info == Effective(s) && next == s.(info := info, failed := next.failed))
            && (!restore ==> !next.keep)
  {
    var checked := Check(s, s.Available());
    CheckIsConsistent(c, s, s.Available());
    RenewIsConsistent(c, checked, restore);
    DeriveIsConsistent(c, Renew(c, checked, restore));
    assert s.Available();
    hide Renew, Derive, Check, Consistent;
  }

  lemma RefreshRequestedIsConsistent(c: Config, s: State)
    requires Consistent(c, s) && Enabled(c, s, RefreshRequested)
    ensures Consistent(c, Refresh(c, s))
  {
  }

  lemma RefreshTimeoutIsConsistent(c: Config, s: State)
    requires Consistent(c, s) && Enabled(c, s, RefreshTimeout)
    ensures Consistent(c, RefreshExpired(c, s))
  {
  }

  lemma NfcEnteredIsConsistent(c: Config, s: State)
    requires Consistent(c, s) && Enabled(c, s, NfcEntered)
    ensures Consistent(c, EnterNfc(c, s))
  {
  }

  lemma NfcExitedIsConsistent(c: Config, s: State)
    requires Consistent(c, s) && Enabled(c, s, NfcExited)
    ensures Consistent(c, ExitNfc(c, s))
  {
  }

  lemma NfcTimeoutIsConsistent(c: Config, s: State)
    requires Consistent(c, s) && Enabled(c, s, NfcTimeout)
    ensures Consistent(c, CompleteExitingNfc(c, s.(nfcTimer := false)))
  {
  }

  lemma LegacyEnteredIsConsistent(c: Config, s: State)
    requires Consistent(c, s) && Enabled(c, s, LegacyEntered)
    ensures Consistent(c, EnterLegacy(c, s))
  {
  }

  lemma StepIsConsistent(c: Config, s: State, e: Event)
    requires Consistent(c, s) && Enabled(c, s, e)
    ensures Consistent(c, Step(c, s, e))
  {
    match e
    case Start => StartIsConsistent(c, s);
    case Stop => StopIsConsistent(c, s);
    case Updated => UpdatedIsConsistent(c, s);
    case BeginPairing => BeginPairingIsConsistent(c, s);
    case EndPairing(keeping) => EndPairingIsConsistent(c, s, keeping);
    case AbandonPairing => AbandonPairingIsConsistent(c, s);
    case Fetch(restore) => FetchReturns(c, s, restore);
    case RefreshRequested => RefreshRequestedIsConsistent(c, s);
    case RefreshTimeout => RefreshTimeoutIsConsistent(c, s);
    case NfcEntered => NfcEnteredIsConsistent(c, s);
    case NfcExited => NfcExitedIsConsistent(c, s);
    case NfcTimeout => NfcTimeoutIsConsistent(c, s);
    case LegacyEntered => LegacyEnteredIsConsistent(c, s);
    case PairingAdded =>
    case PairingsRemoved =>
  }

  lemma {:induction false} EveryRunHolds(c: Config, s: State, events: seq<Event>)
    requires Consistent(c, s) && Possible(c, s, events)
    ensures Consistent(c, Run(c, s, events))
    decreases |events|
  {
    if events != [] {
      hide Consistent, Step, Enabled;
      StepIsConsistent(c, s, events[0]);
      EveryRunHolds(c, Step(c, s, events[0]), events[1..]);
    }
  }

  // The code of a pairing attempt.

  /** The events that take a locked code away. */
  predicate Replaces(s: State, e: Event) {
    e == Stop || e == EndPairing(false) || (e == Fetch(false) && s.keep)
  }

  /** Nothing else changes a locked code: no refresh, no NFC pairing mode, no state update, no other fetch. */
  lemma LockedCodeStays(c: Config, s: State, e: Event)
    requires Consistent(c, s) && Enabled(c, s, e) && s.locked && !Replaces(s, e)
    ensures var next := Step(c, s, e);
            next.locked && next.code == s.code && Effective(next) == Effective(s) && next.draws == s.draws
    ensures e == Fetch(false) || (s.pairing && !s.keep && !e.EndPairing?) ==> !Step(c, s, e).keep
  {
    hide Prepare, Synchronize, Check;
    match e
    case Stop =>
    case Start =>
    case Updated => PrepareWhenAvailable(c, s, false);
    case BeginPairing => PrepareWhenAvailable(c, s.(pairing := true), true);
    case EndPairing(_) => PrepareWhenAvailable(c, Check(s.(pairing := false), s.locked).(keep := true), false);
    case AbandonPairing => PrepareWhenAvailable(c, Check(s.(pairing := false), s.locked).(keep := true), false);
    case Fetch(restore) => FetchReturns(c, s, restore);
    case RefreshRequested =>
    case RefreshTimeout =>
    case NfcEntered =>
    case NfcExited =>
    case NfcTimeout =>
    case LegacyEntered => PrepareWhenAvailable(c, s, false);
    case PairingAdded =>
    case PairingsRemoved =>
  }

  lemma PrepareWhenAvailable(c: Config, s: State, lock: bool)
    requires s.Available()
    ensures var r := Prepare(c, s, lock);
            r == s.(failed := r.failed, locked := lock || s.locked, refreshTimer := !lock && s.refreshTimer)
  {
  }

  lemma ReplacedCodeIsGone(c: Config, s: State, e: Event)
    requires Consistent(c, s) && Enabled(c, s, e) && s.locked && s.code.Some? && s.code.value.Drawn? && Replaces(s, e)
    ensures Step(c, s, e).code != s.code
  {
    match e
    case Stop =>
    case EndPairing(_) => EndedCodeIsGone(c, s);
    case Fetch(_) => RenewedCodeIsGone(c, s);
  }

  lemma EndedCodeIsGone(c: Config, s: State)
    requires Consistent(c, s) && s.code.Some? && s.code.value.Drawn?
    ensures PairingStop(c, s, false).code != s.code
  {
    hide Synchronize, Check;
  }

  lemma RenewedCodeIsGone(c: Config, s: State)
    requires Consistent(c, s) && s.keep && s.code.Some? && s.code.value.Drawn?
    ensures GetSetupInfo(c, s, false).0.code != s.code
  {
    hide Synchronize, Check;
  }

  /** A locked drawn code is replaced by exactly those events. */
  lemma LockedCodeChangesIff(c: Config, s: State, e: Event)
    requires Consistent(c, s) && Enabled(c, s, e) && s.locked && s.code.Some? && s.code.value.Drawn?
    ensures Step(c, s, e).code != s.code <==> Replaces(s, e)
  {
    hide Step, Consistent;
    if Replaces(s, e) {
      ReplacedCodeIsGone(c, s, e);
    } else {
      LockedCodeStays(c, s, e);
    }
  }

  // Whole attempts.

  predicate StaysInAttempt(events: seq<Event>) {
    forall k :: 0 <= k < |events| ==> !events[k].EndPairing? && !events[k].AbandonPairing?
  }

  /** From the first fetch of an attempt that does not restore a code to the end of the attempt, one code is used. */
  lemma {:induction false} AttemptUsesOneCode(c: Config, s: State, events: seq<Event>)
    requires Consistent(c, s) && s.pairing && !s.keep
    requires Possible(c, s, events) && StaysInAttempt(events)
    ensures var last := Run(c, s, events);
            && Consistent(c, last) && last.pairing && !last.keep
            && last.code == s.code && Effective(last) == Effective(s)
    decreases |events|
  {
    if events != [] {
      var e := events[0];
      StaysPairing(c, s, e);
      StepIsConsistent(c, s, e);
      hide Step, Enabled;
      LockedCodeStays(c, s, e);
      AttemptUsesOneCode(c, Step(c, s, e), events[1..]);
    }
  }

  lemma StaysPairing(c: Config, s: State, e: Event)
    requires Consistent(c, s) && s.pairing && Enabled(c, s, e) && !e.EndPairing? && !e.AbandonPairing?
    ensures Step(c, s, e).pairing && !e.Stop? && s.locked
  {
    hide Prepare, Synchronize, Check;
    if e.Fetch? {
      FetchReturns(c, s, e.restore);
    } else {
      PrepareWhenAvailable(c, s, false);
    }
  }

  predicate Keeping(events: seq<Event>) {
    forall k :: 0 <= k < |events| ==>
      events[k] != Stop && events[k] != EndPairing(false) && events[k] != Fetch(false)
  }

  /** A code that was kept for the next attempt is the one that the next attempt restores. */
  lemma {:induction false} KeptCodeReturns(c: Config, s: State, events: seq<Event>)
    requires Consistent(c, s) && s.locked && Possible(c, s, events) && Keeping(events)
    ensures var last := Run(c, s, events);
            && last.locked && last.code == s.code && Effective(last) == Effective(s)
            && (last.pairing && !last.paired ==> GetSetupInfo(c, last, true).1 == Effective(s))
    decreases |events|
  {
    if events == [] {
      if s.pairing && !s.paired {
        FetchReturns(c, s, true);
      }
    } else {
      hide Step, Enabled, GetSetupInfo;
      StepIsConsistent(c, s, events[0]);
      LockedCodeStays(c, s, events[0]);
      KeptCodeReturns(c, Step(c, s, events[0]), events[1..]);
    }
  }

  /** Every code in use was drawn at or after `mark`. */
  predicate NotBefore(s: State, mark: nat) {
    && mark <= s.draws
    && (s.code.Some? && s.code.value.Drawn? ==> mark <= s.code.value.serial)
    && (s.info.Some? && s.info.value.Drawn? ==> mark <= s.info.value.serial)
  }

  lemma AcquireNotBefore(c: Config, s: State, lock: bool, mark: nat)
    requires NotBefore(s, mark)
    ensures NotBefore(Acquire(c, s, lock), mark)
  {
  }

  lemma PrepareNotBefore(c: Config, s: State, lock: bool, mark: nat)
    requires NotBefore(s, mark)
    ensures NotBefore(Prepare(c, s, lock), mark)
  {
    hide Synchronize, Check, Acquire;
    AcquireNotBefore(c, Check(s, !s.paired), lock, mark);
  }

  lemma ClearNotBefore(s: State, mark: nat)
    requires NotBefore(s, mark)
    ensures NotBefore(Clear(s), mark)
  {
  }

  lemma ExitNotBefore(c: Config, s: State, mark: nat)
    requires NotBefore(s, mark)
    ensures NotBefore(CompleteExitingNfc(c, s.(nfcTimer := false)), mark)
  {
    hide Synchronize, Check;
  }

  lemma StepNotBefore(c: Config, s: State, e: Event, mark: nat)
    requires NotBefore(s, mark)
    ensures NotBefore(Step(c, s, e), mark)
  {
    hide Prepare, Synchronize, Check, CompleteExitingNfc, Clear, PairingStop, GetSetupInfo, RefreshExpired;
    ClearNotBefore(s, mark);
    match e
    case Stop =>
    case Start => PrepareNotBefore(c, Check(s, !s.refreshTimer).(started := true), false, mark);
    case Updated =>
      PrepareNotBefore(c, s, false, mark);
      ExitNotBefore(c, s, mark);
    case BeginPairing => PrepareNotBefore(c, s.(pairing := true), true, mark);
    case EndPairing(keeping) => StopNotBefore(c, s, keeping, mark);
    case AbandonPairing => StopNotBefore(c, s, true, mark);
    case Fetch(restore) => FetchNotBefore(c, s, restore, mark);
    case RefreshRequested => PrepareNotBefore(c, Clear(s), false, mark);
    case RefreshTimeout => TimeoutNotBefore(c, s, mark);
    case NfcEntered => PrepareNotBefore(c, s.(nfcTimer := true), false, mark);
    case NfcExited => ExitNotBefore(c, s, mark);
    case NfcTimeout => ExitNotBefore(c, s, mark);
    case LegacyEntered => PrepareNotBefore(c, s, false, mark);
    case PairingAdded =>
    case PairingsRemoved =>
  }

  lemma FetchNotBefore(c: Config, s: State, restore: bool, mark: nat)
    requires NotBefore(s, mark)
    ensures NotBefore(GetSetupInfo(c, s, restore).0, mark)
  {
    hide Prepare, Check, Clear;
    var checked := Check(s, s.Available());
    ClearNotBefore(checked, mark);
    PrepareNotBefore(c, Clear(checked), true, mark);
  }

  lemma TimeoutNotBefore(c: Config, s: State, mark: nat)
    requires NotBefore(s, mark)
    ensures NotBefore(RefreshExpired(c, s), mark)
  {
    hide Prepare, Check, Clear;
    var stopped := Check(s.(refreshTimer := false), !s.paired && !s.locked && s.Available());
    ClearNotBefore(stopped, mark);
    PrepareNotBefore(c, Clear(stopped), false, mark);
  }

  lemma StopNotBefore(c: Config, s: State, keep: bool, mark: nat)
    requires NotBefore(s, mark)
    ensures NotBefore(PairingStop(c, s, keep), mark)
  {
    hide Prepare, Synchronize, Check;
    var ended := s.(pairing := false);
    var left := if keep then Check(ended, s.locked).(keep := true) else Synchronize(c, Clear(ended));
    PrepareNotBefore(c, left, false, mark);
  }

  /** A drawn code that was discarded is never used again. */
  lemma {:induction false} DiscardedCodeNeverReturns(c: Config, s: State, events: seq<Event>)
    requires s.code.None? && s.info.None?
    ensures NotBefore(Run(c, s, events), s.draws)
  {
    RunNotBefore(c, s, events, s.draws);
  }

  lemma {:induction false} RunNotBefore(c: Config, s: State, events: seq<Event>, mark: nat)
    requires NotBefore(s, mark)
    ensures NotBefore(Run(c, s, events), mark)
    decreases |events|
  {
    if events != [] {
      StepNotBefore(c, s, events[0], mark);
      hide NotBefore, Step;
      RunNotBefore(c, Step(c, s, events[0]), events[1..], mark);
    }
  }

  /** An attempt that ends without keeping its drawn code leaves that code behind for good. */
  lemma NextAttemptUsesNewCode(c: Config, s: State, events: seq<Event>)
    requires Consistent(c, s) && s.pairing && s.code.Some? && s.code.value.Drawn?
    ensures Run(c, Step(c, s, EndPairing(false)), events).code != s.code
  {
    var ended := Synchronize(c, Clear(s.(pairing := false)));
    assert NotBefore(ended, s.draws);
    PrepareNotBefore(c, ended, false, s.draws);
    RunNotBefore(c, Step(c, s, EndPairing(false)), events, s.draws);
    hide Run, Prepare, Synchronize;
  }

  // The assertion that can fail.

  /** An accessory that has no other way than the NFC tag to show a code, or no setup ID to make a payload with. */
  predicate Sound(c: Config) {
    !(c.nfc && ShowsCodes(c) && c.setupId)
  }

  lemma AcquireSucceeds(c: Config, s: State, lock: bool)
    requires !s.paired && !s.refreshTimer
    ensures var r := Acquire(c, s, lock);
            r.failed == s.failed && !r.keep && !r.paired && (lock ==> !r.refreshTimer)
  {
  }

  lemma PrepareSucceeds(c: Config, s: State, lock: bool)
    requires !s.paired && (s.Available() || !s.refreshTimer)
    ensures Prepare(c, s, lock).failed == s.failed && (lock ==> !Prepare(c, s, lock).refreshTimer)
    ensures !s.keep || !s.Available() ==> !Prepare(c, s, lock).keep
  {
    var checked := Check(s, !s.paired);
    if !s.Available() {
      AcquireSucceeds(c, checked, lock);
      SynchronizeFailsIff(c, Acquire(c, checked, lock));
      hide Acquire, Synchronize;
    }
  }

  lemma ClearSucceeds(s: State)
    requires s.Available() || !s.refreshTimer
    ensures Clear(s).failed == s.failed && !Clear(s).Available() && !Clear(s).refreshTimer
    ensures Clear(s).paired == s.paired
  {
  }

  lemma SynchronizeFailsIff(c: Config, s: State)
    ensures Synchronize(c, s).failed
       <==> s.failed || (s.paired && s.code.Some? && c.setupId && (ShowsCodes(c) || (c.nfc && s.nfcTimer)))
  {
  }

  lemma ExitFailsIff(c: Config, s: State)
    requires Consistent(c, s) && s.nfcTimer
    ensures CompleteExitingNfc(c, s.(nfcTimer := false)).failed
       <==> s.failed || (!Sound(c) && s.paired && s.locked)
  {
  }

  /** An assertion fails exactly when NFC pairing mode is left while the accessory is paired and its code is locked. */
  lemma StepFailsIff(c: Config, s: State, e: Event)
    requires Consistent(c, s) && Enabled(c, s, e)
    ensures Step(c, s, e).failed
       <==> s.failed
            || (!Sound(c) && s.paired && s.locked && s.nfcTimer && (e == Updated || e == NfcExited || e == NfcTimeout))
  {
    hide Prepare, Clear, Synchronize, CompleteExitingNfc;
    match e
    case Start =>
      if !s.paired {
        PrepareSucceeds(c, Check(s, !s.refreshTimer).(started := true), false);
      }
    case Stop =>
      SynchronizeFailsIff(c, INITIAL.(paired := s.paired, shown := s.shown, draws := s.draws, failed := s.failed));
    case Updated =>
      if !s.paired {
        PrepareSucceeds(c, s, false);
        SynchronizeFailsIff(c, s);
      } else if s.nfcTimer {
        ExitFailsIff(c, s);
      }
    case BeginPairing => PrepareSucceeds(c, s.(pairing := true), true);
    case EndPairing(keeping) => EndSucceeds(c, s, keeping);
    case AbandonPairing => EndSucceeds(c, s, true);
    case Fetch(restore) =>
      ClearSucceeds(s);
      PrepareSucceeds(c, Clear(s), true);
    case RefreshRequested =>
      if s.refreshTimer {
        ClearSucceeds(s);
        PrepareSucceeds(c, Clear(s), false);
      }
    case RefreshTimeout =>
      var stopped := s.(refreshTimer := false);
      ClearSucceeds(stopped);
      PrepareSucceeds(c, Clear(stopped), false);
    case NfcEntered =>
      if !s.paired {
        PrepareSucceeds(c, s.(nfcTimer := true), false);
        SynchronizeFailsIff(c, s.(nfcTimer := true));
      }
    case NfcExited =>
      if s.nfcTimer {
        ExitFailsIff(c, s);
      }
    case NfcTimeout => ExitFailsIff(c, s);
    case LegacyEntered =>
      if !s.paired {
        PrepareSucceeds(c, s, false);
      }
    case PairingAdded =>
    case PairingsRemoved =>
  }

  lemma EndSucceeds(c: Config, s: State, keep: bool)
    requires Consistent(c, s) && s.pairing
    ensures PairingStop(c, s, keep).failed == s.failed
  {
    hide Prepare, Clear, Synchronize;
    var ended := s.(pairing := false);
    if keep {
      if !s.paired {
        PrepareSucceeds(c, Check(ended, s.locked).(keep := true), false);
      }
    } else {
      ClearSucceeds(ended);
      SynchronizeFailsIff(c, Clear(ended));
      if !s.paired {
        PrepareSucceeds(c, Synchronize(c, Clear(ended)), false);
      }
    }
  }

  lemma {:induction false} SoundNeverFails(c: Config, s: State, events: seq<Event>)
    requires Sound(c) && Consistent(c, s) && !s.failed && Possible(c, s, events)
    ensures !Run(c, s, events).failed
    decreases |events|
  {
    if events != [] {
      hide Consistent, Step, Enabled, Sound;
      StepIsConsistent(c, s, events[0]);
      StepFailsIff(c, s, events[0]);
      SoundNeverFails(c, Step(c, s, events[0]), events[1..]);
    }
  }

  /** NFC pairing mode is entered, a controller pairs, and the server's state is updated before the attempt ends. */
  const FAILING: seq<Event> := [Start, NfcEntered, BeginPairing, PairingAdded, Updated]

  lemma FourSteps(c: Config) returns (s1: State, s2: State, s3: State, s4: State)
    requires !Sound(c)
    ensures s1 == Step(c, INITIAL, Start) && s2 == Step(c, s1, NfcEntered)
    ensures s3 == Step(c, s2, BeginPairing) && s4 == Step(c, s3, PairingAdded)
    ensures Enabled(c, INITIAL, Start) && Enabled(c, s1, NfcEntered) && Enabled(c, s2, BeginPairing)
    ensures Enabled(c, s3, PairingAdded) && Enabled(c, s4, Updated)
    ensures Consistent(c, s4) && s4.paired && s4.nfcTimer && s4.locked
  {
    s1 := Step(c, INITIAL, Start);
    StepIsConsistent(c, INITIAL, Start);
    assert s1.started && !s1.paired && !s1.pairing;
    s2 := Step(c, s1, NfcEntered);
    StepIsConsistent(c, s1, NfcEntered);
    assert s2.started && !s2.paired && !s2.pairing && s2.nfcTimer;
    s3 := Step(c, s2, BeginPairing);
    StepIsConsistent(c, s2, BeginPairing);
    assert s3.started && s3.pairing && s3.nfcTimer;
    s4 := Step(c, s3, PairingAdded);
    StepIsConsistent(c, s3, PairingAdded);
  }

  lemma FailingRun(c: Config)
    requires !Sound(c)
    ensures Possible(c, INITIAL, FAILING) && Run(c, INITIAL, FAILING).failed
  {
    var s1, s2, s3, s4 := FourSteps(c);
    StepFailsIff(c, s4, Updated);
    hide Step;
    RunFive(c, INITIAL, Start, NfcEntered, BeginPairing, PairingAdded, Updated);
  }

  lemma RunFive(c: Config, s: State, a: Event, b: Event, d: Event, e: Event, f: Event)
    ensures Run(c, s, [a, b, d, e, f]) == Step(c, Step(c, Step(c, Step(c, Step(c, s, a), b), d), e), f)
    ensures Possible(c, s, [a, b, d, e, f])
       <==> var s1 := Step(c, s, a);
            var s2 := Step(c, s1, b);
            var s3 := Step(c, s2, d);
            var s4 := Step(c, s3, e);
            Enabled(c, s, a) && Enabled(c, s1, b) && Enabled(c, s2, d) && Enabled(c, s3, e) && Enabled(c, s4, f)
  {
    hide Step, Enabled, Run, Possible;
    var s1 := Step(c, s, a);
    var s2 := Step(c, s1, b);
    var s3 := Step(c, s2, d);
    var s4 := Step(c, s3, e);
    RunHead(c, s, a, [b, d, e, f]);
    RunHead(c, s1, b, [d, e, f]);
    RunHead(c, s2, d, [e, f]);
    RunHead(c, s3, e, [f]);
    RunHead(c, s4, f, []);
    assert [a] + [b, d, e, f] == [a, b, d, e, f] && [b] + [d, e, f] == [b, d, e, f];
    assert [d] + [e, f] == [d, e, f] && [e] + [f] == [e, f] && [f] + [] == [f];
  }

  lemma RunHead(c: Config, s: State, e: Event, rest: seq<Event>)
    ensures Run(c, s, [e] + rest) == Run(c, Step(c, s, e), rest)
    ensures Possible(c, s, [e] + rest) <==> Enabled(c, s, e) && Possible(c, Step(c, s, e), rest)
    ensures rest == [] ==> Run(c, Step(c, s, e), rest) == Step(c, s, e) && Possible(c, Step(c, s, e), rest)
  {
    hide Step, Enabled;
    assert ([e] + rest)[1..] == rest;
  }

  /** The assertions hold in every run exactly on accessories that do not combine the tag with another display. */
  lemma AssertionsHoldIff(c: Config)
    ensures Sound(c) <==> forall events :: Possible(c, INITIAL, events) ==> !Run(c, INITIAL, events).failed
  {
    if Sound(c) {
      forall events | Possible(c, INITIAL, events) ensures !Run(c, INITIAL, events).failed {
        SoundNeverFails(c, INITIAL, events);
      }
    } else {
      FailingRun(c);
    }
  }
}
