/** The handlers that prepare, lock, show and discard the setup code, on the fields they update. */
module SetupInfo {
  import opened Bytes
  import opened SetupInfoModel
  import opened SetupInfoRuns

  class AccessorySetup {
    const config: Config
    var started: bool
    var paired: bool
    var pairing: bool
    var code: Option<Code>
    var info: Option<Code>
    var locked: bool
    var keep: bool
    var refreshTimer: bool
    var nfcTimer: bool
    var shown: Option<Code>
    var draws: nat
    var failed: bool

    constructor (config: Config)
      ensures this.config == config && View() == INITIAL && Valid()
    {
      this.config := config;
      started, paired, pairing, code, info, locked, keep := false, false, false, None, None, false, false;
      refreshTimer, nfcTimer, shown, draws, failed := false, false, None, 0, false;
    }

    function View(): State
      reads this
    {
      State(started, paired, pairing, code, info, locked, keep, refreshTimer, nfcTimer, shown, draws, failed)
    }

    ghost predicate Valid()
      reads this
    {
      Consistent(config, View())
    }

    // What the handlers are made of.

    /** Notes a failing assertion of the source. */
    method Assert(ok: bool)
      modifies `failed
      ensures View() == Check(old(View()), ok)
    {
      failed := failed || !ok;
    }

    method SynchronizeDisplayAndNFC()
      modifies `failed, `shown
      ensures View() == Synchronize(config, old(View()))
    {
      if !config.display && !config.legacyDisplay && !config.nfc && !config.legacyNfc {
        return;
      }
      if code.Some? && (config.legacyDisplay || config.legacyNfc || config.display || (config.nfc && nfcTimer)) {
        if config.setupId {
          Assert(!paired);
        }
      }
      if config.display {
        shown := code;
      }
    }

    method ClearSetupInfo()
      modifies this
      ensures View() == Clear(old(View()))
    {
      hide Check;
      if info.Some? || code.Some? {
        code, info, locked, keep := None, None, false, false;
        if refreshTimer {
          refreshTimer := false;
        }
      }
      Assert(!refreshTimer);
    }

    method DrawSetupCode(lockSetupInfo: bool)
      modifies this
      ensures View() == Draw(old(View()), lockSetupInfo)
    {
      locked, keep := lockSetupInfo, false;
      code, draws := Some(Drawn(draws)), draws + 1;
      if !locked {
        failed := failed || refreshTimer;
        refreshTimer := true;
      }
    }

    method LoadSetupInfo(lockSetupInfo: bool)
      modifies this
      ensures View() == Load(config, old(View()), lockSetupInfo)
    {
      locked, keep := lockSetupInfo, false;
      code := if config.nfc || config.legacyNfc then Some(Static) else None;
      info := Some(Static);
    }

    method PrepareSetupInfo(lockSetupInfo: bool)
      modifies this
      ensures View() == Prepare(config, old(View()), lockSetupInfo)
    {
      hide Check, Synchronize, Draw, Load;
      Assert(!paired);
      if info.Some? || code.Some? {
        if lockSetupInfo {
          locked := true;
          if refreshTimer {
            refreshTimer := false;
          }
        }
        return;
      }
      if config.display || config.legacyDisplay {
        DrawSetupCode(lockSetupInfo);
      } else {
        LoadSetupInfo(lockSetupInfo);
      }
      SynchronizeDisplayAndNFC();
    }

    /** Replaces a setup code that was kept from the previous attempt, unless it is to be restored. */
    method DiscardKeptSetupInfo(restorePrevious: bool)
      modifies this
      ensures View() == Renew(config, old(View()), restorePrevious)
    {
      hide Check, Clear, Prepare;
      if !restorePrevious && keep {
        ClearSetupInfo();
        PrepareSetupInfo(true);
        Assert(!keep);
      }
    }

    /** Derives the verifier from the code, unless that was done before. */
    method DeriveSetupInfo() returns (r: Option<Code>)
      modifies `info
      ensures View() == Derive(old(View())) && r == info
    {
      if info.None? {
        info := code;
      }
      r := info;
    }

    method CompleteExitingNFCPairingMode()
      modifies this
      ensures View() == CompleteExitingNfc(config, old(View()))
    {
      hide Check, Clear, Synchronize;
      Assert(!nfcTimer);
      if !locked && !refreshTimer {
        ClearSetupInfo();
      }
      SynchronizeDisplayAndNFC();
    }

    // The handlers.

    /** An unpaired accessory with a display has a code from the start, and shows it. */
    method HandleServerStart()
      requires Valid() && Enabled(config, View(), Start)
      modifies this
      ensures Valid() && View() == Step(config, old(View()), Start)
      ensures failed == old(failed)
      ensures config.display && !paired ==> code.Some? && refreshTimer && shown == code
    {
      StepIsConsistent(config, View(), Start);
      StepFailsIff(config, View(), Start);
      PreparedIsAvailable(config, View(), false);
      hide Check, Prepare;
      Assert(!refreshTimer);
      started := true;
      if config.display && !paired {
        PrepareSetupInfo(false);
      }
    }

    /** Code and timers are gone, and so is the code on the display. */
    method HandleServerStop()
      requires Valid() && Enabled(config, View(), Stop)
      modifies this
      ensures Valid() && View() == Step(config, old(View()), Stop)
      ensures failed == old(failed) && code.None? && info.None? && !refreshTimer && !nfcTimer
      ensures config.display ==> shown.None?
    {
      StepIsConsistent(config, View(), Stop);
      StepFailsIff(config, View(), Stop);
      hide Synchronize;
      started, pairing, code, info, locked, keep := false, false, None, None, false, false;
      refreshTimer, nfcTimer := false, false;
      assert View() == INITIAL.(paired := paired, shown := shown, draws := draws, failed := failed);
      SynchronizeDisplayAndNFC();
    }

    /** The code of the attempt is available and locked, and does not expire. */
    method HandlePairingStart()
      requires Valid() && Enabled(config, View(), BeginPairing)
      modifies this
      ensures Valid() && View() == Step(config, old(View()), BeginPairing)
      ensures failed == old(failed) && pairing && locked && !refreshTimer && View().Available()
      ensures old(View()).Available() ==> code == old(code) && info == old(info)
    {
      StepIsConsistent(config, View(), BeginPairing);
      StepFailsIff(config, View(), BeginPairing);
      hide Check, Prepare;
      pairing := true;
      PrepareSetupInfo(true);
      Assert(!refreshTimer);
    }

    /** A code that is not kept does not stay; while the accessory is unpaired its display shows a code. */
    method HandlePairingStop(keepSetupInfo: bool)
      requires Valid() && Enabled(config, View(), EndPairing(keepSetupInfo))
      modifies this
      ensures Valid() && View() == Step(config, old(View()), EndPairing(keepSetupInfo))
      ensures failed == old(failed) && !pairing
      ensures keepSetupInfo ==> locked && keep && code == old(code) && Effective(View()) == Effective(old(View()))
      ensures !keepSetupInfo && old(code.Some? && code.value.Drawn?) ==> code != old(code)
      ensures config.display && !paired ==> code.Some? && shown == code
    {
      StepIsConsistent(config, View(), EndPairing(keepSetupInfo));
      StepFailsIff(config, View(), EndPairing(keepSetupInfo));
      StopPairing(keepSetupInfo);
    }

    /** The attempt is broken off in favour of a new one, which is to use the same code. */
    method AbandonPairing()
      requires Valid() && Enabled(config, View(), Event.AbandonPairing)
      modifies this
      ensures Valid() && View() == Step(config, old(View()), Event.AbandonPairing)
      ensures failed == old(failed) && !pairing && locked && !keep
      ensures code == old(code) && Effective(View()) == Effective(old(View()))
    {
      StepIsConsistent(config, View(), Event.AbandonPairing);
      StepFailsIff(config, View(), Event.AbandonPairing);
      hide PairingStop;
      StopPairing(true);
      keep := false;
    }

    /** In an attempt there is a verifier, and it is that of the code in effect. */
    method FetchSetupInfo(restorePrevious: bool) returns (r: Option<Code>)
      requires Valid()
      modifies this
      ensures (View(), r) == GetSetupInfo(config, old(View()), restorePrevious)
      ensures old(pairing && !paired) ==>
                && Valid() && failed == old(failed) && r.Some? && r == Effective(View())
                && (restorePrevious || !old(keep) ==> code == old(code) && r == Effective(old(View())))
                && (!restorePrevious ==> !keep)
    {
      FetchedInAttempt(config, View(), restorePrevious);
      hide Check, Renew, Derive, Consistent, Effective;
      if restorePrevious && info.None? && code.None? {
        return None;
      }
      Assert(info.Some? || code.Some?);
      DiscardKeptSetupInfo(restorePrevious);
      r := DeriveSetupInfo();
    }

    /** The expired code is discarded; with a display a new one takes its place. */
    method DynamicSetupInfoExpired()
      requires Valid() && Enabled(config, View(), RefreshTimeout)
      modifies this
      ensures Valid() && View() == Step(config, old(View()), RefreshTimeout)
      ensures failed == old(failed) && code != old(code)
      ensures if config.display then code.Some? && refreshTimer && shown == code else !View().Available()
    {
      StepIsConsistent(config, View(), RefreshTimeout);
      StepFailsIff(config, View(), RefreshTimeout);
      ExpiredFacts(config, View());
      hide Check, Clear, Prepare, Consistent;
      refreshTimer := false;
      Assert(!paired && !locked && (info.Some? || code.Some?));
      ClearSetupInfo();
      if config.display {
        PrepareSetupInfo(false);
      }
    }

    /** A code is replaced on request only while it expires anyway. */
    method RefreshSetupPayload()
      requires Valid() && Enabled(config, View(), RefreshRequested)
      modifies this
      ensures Valid() && View() == Step(config, old(View()), RefreshRequested)
      ensures failed == old(failed)
      ensures if old(refreshTimer) then code.Some? && code != old(code) && refreshTimer else View() == old(View())
    {
      StepIsConsistent(config, View(), RefreshRequested);
      StepFailsIff(config, View(), RefreshRequested);
      hide Clear, Prepare;
      if !refreshTimer {
        return;
      }
      ClearSetupInfo();
      PrepareSetupInfo(false);
    }

    /** Codes resume while the accessory is unpaired; NFC pairing mode ends once it is paired. Locked codes stay. */
    method HandleStateUpdate()
      requires Valid() && Enabled(config, View(), Updated)
      modifies this
      ensures Valid() && View() == Step(config, old(View()), Updated)
      ensures failed == (old(failed) || (!Sound(config) && old(paired && locked && nfcTimer)))
      ensures old(locked) ==> locked && code == old(code) && Effective(View()) == Effective(old(View()))
      ensures if paired then !nfcTimer else nfcTimer == old(nfcTimer)
      ensures !paired && config.display ==> code.Some? && shown == code
    {
      StepIsConsistent(config, View(), Updated);
      StepFailsIff(config, View(), Updated);
      if !paired {
        if config.display {
          PrepareSetupInfo(false);
        } else {
          SynchronizeDisplayAndNFC();
        }
      } else if config.nfc && nfcTimer {
        ExitNFCPairingMode();
      }
    }

    /** On an unpaired accessory a code is available for the tag, and one that was available stays. */
    method EnterNFCPairingMode()
      requires Valid() && Enabled(config, View(), NfcEntered)
      modifies this
      ensures Valid() && View() == Step(config, old(View()), NfcEntered)
      ensures failed == old(failed)
      ensures if paired then View() == old(View()) else nfcTimer && View().Available()
      ensures old(View()).Available() ==> code == old(code) && info == old(info) && locked == old(locked)
    {
      StepIsConsistent(config, View(), NfcEntered);
      StepFailsIff(config, View(), NfcEntered);
      EnteredFacts(config, View());
      hide Prepare, Synchronize, Check, Consistent;
      if paired {
        return;
      }
      var forceSynchronization := !nfcTimer;
      nfcTimer := true;
      if info.None? && code.None? {
        PrepareSetupInfo(false);
      } else if forceSynchronization {
        SynchronizeDisplayAndNFC();
      }
    }

    /** Once the mode is left, a code remains exactly if something else uses it. */
    method ExitNFCPairingMode()
      requires Valid() && Enabled(config, View(), NfcExited)
      modifies this
      ensures Valid() && View() == Step(config, old(View()), NfcExited)
      ensures !nfcTimer && failed == (old(failed) || (!Sound(config) && old(paired && locked && nfcTimer)))
      ensures if old(nfcTimer) && !locked && !refreshTimer then !View().Available()
              else code == old(code) && info == old(info)
      ensures !old(nfcTimer) ==> View() == old(View())
    {
      StepIsConsistent(config, View(), NfcExited);
      StepFailsIff(config, View(), NfcExited);
      ExitedFacts(config, View());
      hide CompleteExitingNfc, Consistent;
      if !nfcTimer {
        return;
      }
      nfcTimer := false;
      CompleteExitingNFCPairingMode();
    }

    /** The expiry leaves the mode as a request does. */
    method NFCPairingModeExpired()
      requires Valid() && Enabled(config, View(), NfcTimeout)
      modifies this
      ensures Valid() && View() == Step(config, old(View()), NfcTimeout)
      ensures !nfcTimer && failed == (old(failed) || (!Sound(config) && old(paired && locked && nfcTimer)))
      ensures if !locked && !refreshTimer then !View().Available() else code == old(code) && info == old(info)
    {
      StepIsConsistent(config, View(), NfcTimeout);
      StepFailsIff(config, View(), NfcTimeout);
      ExitedFacts(config, View());
      assert Step(config, View(), NfcTimeout) == CompleteExitingNfc(config, View().(nfcTimer := false));
      hide *;
      ghost var s := View();
      nfcTimer := false;
      assert View() == s.(nfcTimer := false);
      CompleteExitingNFCPairingMode();
    }

    /** A code is prepared for the mode only outside of attempts and while the accessory is not paired. */
    method EnterLegacyPairingMode()
      requires Valid() && Enabled(config, View(), LegacyEntered)
      modifies this
      ensures Valid() && View() == Step(config, old(View()), LegacyEntered)
      ensures failed == old(failed)
      ensures (config.legacyDisplay || config.legacyNfc) && !pairing && !paired ==> View().Available()
      ensures pairing || paired || old(View()).Available() ==> View() == old(View())
    {
      StepIsConsistent(config, View(), LegacyEntered);
      StepFailsIff(config, View(), LegacyEntered);
      if !config.legacyDisplay && !config.legacyNfc {
        return;
      }
      if pairing || paired {
        return;
      }
      PrepareSetupInfo(false);
    }

    /** Ends an attempt. */
    method StopPairing(keepSetupInfo: bool)
      modifies this
      ensures View() == PairingStop(config, old(View()), keepSetupInfo)
    {
      hide Check, Clear, Synchronize, Prepare;
      pairing := false;
      if keepSetupInfo {
        Assert(locked);
        keep := true;
      } else {
        ClearSetupInfo();
        SynchronizeDisplayAndNFC();
      }
      if config.display && !paired {
        PrepareSetupInfo(false);
      }
    }
  }

  lemma PreparedIsAvailable(c: Config, s: State, lock: bool)
    ensures Prepare(c, s, lock).Available()
    ensures Prepare(c, s, lock).paired == s.paired && Prepare(c, s, lock).nfcTimer == s.nfcTimer
  {
    var checked := Check(s, !s.paired);
    if s.Available() {
      PrepareWhenAvailable(c, s, lock);
      hide *;
    } else {
      assert Prepare(c, s, lock) == Synchronize(c, Acquire(c, checked, lock)) by { hide Synchronize, Acquire, Check; }
      AcquiredIsAvailable(c, checked, lock);
      hide Acquire, Check, Synchronize, Prepare;
    }
  }

  lemma AcquiredIsAvailable(c: Config, s: State, lock: bool)
    ensures Acquire(c, s, lock).Available()
    ensures Acquire(c, s, lock).paired == s.paired && Acquire(c, s, lock).nfcTimer == s.nfcTimer
  {
    hide Check;
  }

  lemma EnteredFacts(c: Config, s: State)
    ensures var r := EnterNfc(c, s);
            && (!s.paired ==> r.nfcTimer && r.Available() && !r.paired)
            && (s.Available() ==> r.code == s.code && r.info == s.info && r.locked == s.locked)
  {
    PreparedIsAvailable(c, s.(nfcTimer := true), false);
    hide Check, Prepare, Synchronize;
  }

  lemma ExitedFacts(c: Config, s: State)
    ensures var r := CompleteExitingNfc(c, s.(nfcTimer := false));
            && !r.nfcTimer && r.paired == s.paired
            && (s.locked || s.refreshTimer ==>
                  r.code == s.code && r.info == s.info && r.locked == s.locked && r.refreshTimer == s.refreshTimer)
            && (!s.locked && !s.refreshTimer ==> !r.Available() && !r.locked && !r.refreshTimer)
  {
  }

  lemma ExpiredFacts(c: Config, s: State)
    requires Consistent(c, s) && s.refreshTimer
    ensures var r := RefreshExpired(c, s);
            && r.code != s.code
            && (if c.display then r.code.Some? && r.refreshTimer && r.shown == r.code else !r.Available())
  {
    hide Check;
  }

  lemma FetchedInAttempt(c: Config, s: State, restore: bool)
    requires Consistent(c, s)
    ensures s.pairing && !s.paired ==>
              var (next, info) := GetSetupInfo(c, s, restore);
              && Consistent(c, next) && next.failed == s.failed && info.Some? && info == Effective(next)
              && (restore || !s.keep ==> next.code == s.code && info == Effective(s))
              && (!restore ==> !next.keep)
  {
    if s.pairing && !s.paired {
      FetchReturns(c, s, restore);
      StepFailsIff(c, s, Fetch(restore));
    }
  }
}
