/** What every event does to the setup code, stated over the accessory's equipment, the state and the event alone. */
module SetupInfoEvents {
  import opened Bytes
  import opened SetupInfoModel
  import opened SetupInfoRuns

  /** No code is there and no refresh is due; a display is empty. */
  function Emptied(c: Config, s: State): State {
    s.(code := None, info := None, locked := false, keep := false, refreshTimer := false,
       shown := if c.display then None else s.shown)
  }

  /**
   * A code has become available: drawn for accessories that can show one, which expires unless it is locked, and
   * provisioned for the others, where only a tag has to know it. The display shows it.
   */
  predicate IsFresh(c: Config, s: State, r: State, lock: bool) {
    && r.locked == lock && !r.keep && r.failed == s.failed
    && (if c.display || c.legacyDisplay then
          && r.code == Some(Drawn(s.draws)) && r.info == s.info && r.draws == s.draws + 1
          && r.refreshTimer == (!lock || s.refreshTimer)
        else
          && r.info == Some(Static) && r.code == (if c.nfc || c.legacyNfc then Some(Static) else None)
          && r.draws == s.draws && r.refreshTimer == s.refreshTimer)
    && r.shown == (if c.display then r.code else s.shown)
    && r.started == s.started && r.paired == s.paired && r.pairing == s.pairing && r.nfcTimer == s.nfcTimer
  }

  /** A code that is available stays; otherwise a fresh one is made available. */
  predicate IsPrepared(c: Config, s: State, r: State, lock: bool) {
    if s.Available() then r == s.(locked := s.locked || lock, refreshTimer := s.refreshTimer && !lock)
    else IsFresh(c, s, r, lock)
  }

  lemma PreparedIs(c: Config, s: State, lock: bool)
    requires !s.paired && (s.Available() || !s.refreshTimer)
    ensures IsPrepared(c, s, Prepare(c, s, lock), lock)
  {
    PrepareSucceeds(c, s, lock);
    if s.Available() {
      PrepareWhenAvailable(c, s, lock);
    } else {
      SynchronizeFailsIff(c, Acquire(c, s, lock));
    }
  }

  lemma ClearedIs(c: Config, s: State)
    requires Consistent(c, s)
    ensures Synchronize(c, Clear(s)) == Emptied(c, s)
    ensures Clear(s) == Emptied(c, s).(shown := s.shown)
  {
  }

  lemma StartOutcome(c: Config, s: State)
    requires Consistent(c, s) && Enabled(c, s, Start)
    ensures var r, on := Step(c, s, Start), s.(started := true);
            if c.display && !s.paired then IsPrepared(c, on, r, false) else r == on
  {
    hide Prepare;
    if !s.paired {
      PreparedIs(c, s.(started := true), false);
    }
  }

  /** A stopped server knows no code and shows none. */
  lemma StopOutcome(c: Config, s: State)
    requires Consistent(c, s) && Enabled(c, s, Stop)
    ensures Step(c, s, Stop)
         == Emptied(c, s).(started := false, pairing := false, nfcTimer := false)
  {
  }

  /** A display of an unpaired accessory gets a code; a paired accessory leaves NFC pairing mode. */
  lemma UpdatedOutcome(c: Config, s: State)
    requires Consistent(c, s) && Enabled(c, s, Updated)
    ensures var r := Step(c, s, Updated);
            if s.paired && s.nfcTimer then HasLeftNfc(c, s, r)
            else if !s.paired && c.display then IsPrepared(c, s, r, false)
            else r == s
  {
    hide Prepare;
    if s.paired && s.nfcTimer {
      LeftNfc(c, s);
    } else if !s.paired {
      PreparedIs(c, s, false);
      SynchronizeFailsIff(c, s);
    }
  }

  lemma BeginPairingOutcome(c: Config, s: State)
    requires Consistent(c, s) && Enabled(c, s, BeginPairing)
    ensures IsPrepared(c, s.(pairing := true), Step(c, s, BeginPairing), true)
    ensures !Step(c, s, BeginPairing).refreshTimer
  {
    hide Prepare;
    PreparedIs(c, s.(pairing := true), true);
  }

  /** Without an attempt, a code that is not kept is replaced on a display of an unpaired accessory. */
  lemma EndPairingOutcome(c: Config, s: State, keeping: bool)
    requires Consistent(c, s) && Enabled(c, s, EndPairing(keeping))
    ensures var r := Step(c, s, EndPairing(keeping));
            var left := if keeping then s.(pairing := false, keep := true) else Emptied(c, s).(pairing := false);
            if c.display && !s.paired then IsPrepared(c, left, r, false) else r == left
  {
    hide Prepare, Synchronize, Clear;
    assert Consistent(c, s.(pairing := false));
    ClearedIs(c, s.(pairing := false));
    if !s.paired {
      PreparedIs(c, if keeping then s.(pairing := false, keep := true) else Emptied(c, s).(pairing := false), false);
    }
  }

  lemma AbandonOutcome(c: Config, s: State)
    requires Consistent(c, s) && Enabled(c, s, AbandonPairing)
    ensures Step(c, s, AbandonPairing) == s.(pairing := false, keep := false)
  {
    hide Prepare;
    if !s.paired {
      PreparedIs(c, s.(pairing := false, keep := true), false);
    }
  }

  /** A fetch derives the verifier of the code in effect; a kept code that is not wanted is replaced before. */
  lemma FetchOutcome(c: Config, s: State, restore: bool)
    requires Consistent(c, s) && Enabled(c, s, Fetch(restore))
    ensures var (r, info) := GetSetupInfo(c, s, restore);
            && info == r.info
            && if restore || !s.keep then r == s.(info := if s.info.Some? then s.info else s.code)
               else
                 && r.info == (if c.display || c.legacyDisplay then r.code else Some(Static))
                 && IsFresh(c, Emptied(c, s),
                            r.(info := if c.display || c.legacyDisplay then None else Some(Static)), true)
  {
    hide Prepare;
    if !restore && s.keep {
      PreparedIs(c, Clear(s), true);
    }
  }

  /** Only a code that is about to expire is refreshed. */
  lemma RefreshOutcome(c: Config, s: State)
    requires Consistent(c, s) && Enabled(c, s, RefreshRequested)
    ensures var r := Step(c, s, RefreshRequested);
            if s.refreshTimer then IsFresh(c, Emptied(c, s), r, false) else r == s
  {
    hide Prepare;
    if s.refreshTimer {
      PreparedIs(c, Clear(s), false);
    }
  }

  lemma RefreshTimeoutOutcome(c: Config, s: State)
    requires Consistent(c, s) && Enabled(c, s, RefreshTimeout)
    ensures var r := Step(c, s, RefreshTimeout);
            if c.display then IsFresh(c, Emptied(c, s), r, false) else r == Emptied(c, s)
  {
    hide Prepare;
    if c.display {
      PreparedIs(c, Clear(s), false);
    }
  }

  lemma NfcEnteredOutcome(c: Config, s: State)
    requires Consistent(c, s) && Enabled(c, s, NfcEntered)
    ensures var r := Step(c, s, NfcEntered);
            if s.paired then r == s else IsPrepared(c, s.(nfcTimer := true), r, false)
  {
    hide Prepare;
    if !s.paired {
      PreparedIs(c, s.(nfcTimer := true), false);
      SynchronizeFailsIff(c, s.(nfcTimer := true));
    }
  }

  /** The mode is over, and with it a code that only the tag used; an assertion may have failed. */
  predicate HasLeftNfc(c: Config, s: State, r: State) {
    var off := s.(nfcTimer := false);
    r.(failed := s.failed) == if s.locked || s.refreshTimer then off else Emptied(c, off)
  }

  lemma LeftNfc(c: Config, s: State)
    requires Consistent(c, s) && s.nfcTimer
    ensures HasLeftNfc(c, s, CompleteExitingNfc(c, s.(nfcTimer := false)))
  {
  }

  lemma NfcLeftOutcome(c: Config, s: State)
    requires Consistent(c, s)
    ensures Enabled(c, s, NfcExited) ==>
              if s.nfcTimer then HasLeftNfc(c, s, Step(c, s, NfcExited)) else Step(c, s, NfcExited) == s
    ensures Enabled(c, s, NfcTimeout) ==> HasLeftNfc(c, s, Step(c, s, NfcTimeout))
  {
    if s.nfcTimer {
      LeftNfc(c, s);
    }
    hide CompleteExitingNfc;
  }

  lemma LegacyOutcome(c: Config, s: State)
    requires Consistent(c, s) && Enabled(c, s, LegacyEntered)
    ensures var r := Step(c, s, LegacyEntered);
            if (c.legacyDisplay || c.legacyNfc) && !s.pairing && !s.paired then IsPrepared(c, s, r, false) else r == s
  {
    hide Prepare;
    if !s.paired {
      PreparedIs(c, s, false);
    }
  }

  lemma PairingsOutcome(c: Config, s: State)
    ensures Step(c, s, PairingAdded) == s.(paired := true) && Step(c, s, PairingsRemoved) == s.(paired := false)
  {
  }
}
