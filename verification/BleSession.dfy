/** The handlers of a Bluetooth LE session, on the fields they update. */
module BleSession {
  import opened SessionModel

  class BleSession {
    var linkTimer: bool
    var linkDeadline: nat
    var pairingTimer: bool
    var safeTimer: bool
    var terminal: bool
    var safe: bool
    var secured: bool
    var connected: bool
    var stopping: bool
    var requested: bool

    function View(): Session
      reads this
    {
      Session(linkTimer, linkDeadline, pairingTimer, safeTimer, terminal, safe, secured, connected, stopping, requested)
    }

    ghost predicate Valid()
      reads this
    {
      Consistent(View())
    }

    constructor (now: nat)
      ensures View() == Created(now) && Valid() && GoingDown(View())
    {
      linkDeadline := now + LINK_TIMEOUT;
      linkTimer, pairingTimer, safeTimer, terminal := true, false, false, false;
      safe, secured, connected, stopping, requested := true, false, true, false, false;
    }

    /** The central is to be disconnected. */
    method CancelConnection()
      modifies `requested
      ensures requested
    {
      requested := true;
    }

    method StopLinkTimer()
      modifies `linkTimer, `linkDeadline
      ensures !linkTimer && linkDeadline == if old(linkTimer) then 0 else old(linkDeadline)
    {
      if linkTimer {
        linkTimer := false;
        linkDeadline := 0;
      }
    }

    /** Clears the security session, then the Bluetooth LE part. */
    method InvalidateSession(terminateLink: bool)
      modifies this
      ensures View() == Invalidate(old(View()), terminateLink)
      ensures !linkTimer && !pairingTimer && !secured && terminal == (old(terminal) || terminateLink)
      ensures old(Valid()) ==> Valid() && (GoingDown(old(View())) ==> GoingDown(View()))
      ensures old(Valid()) && terminateLink && connected ==> requested || safeTimer
    {
      secured := false;
      StopLinkTimer();
      if terminateLink {
        terminal := true;
        if safe && connected {
          CancelConnection();
        }
      }
      if pairingTimer {
        pairingTimer := false;
      }
    }

    method LinkTimerOrPairingProcedureTimerExpired(isLinkTimer: bool)
      requires Valid() && (if isLinkTimer then linkTimer else pairingTimer)
      modifies this
      ensures Valid() && View() == Step(old(View()), if isLinkTimer then LinkTimeout else PairingTimeout)
      ensures terminal && !linkTimer && !pairingTimer && !secured
      ensures connected ==> requested || safeTimer
      ensures GoingDown(old(View())) ==> GoingDown(View())
    {
      if isLinkTimer {
        linkTimer := false;
        linkDeadline := 0;
      } else {
        pairingTimer := false;
      }
      InvalidateSession(true);
    }

    method ReleaseTimers()
      modifies `linkTimer, `linkDeadline, `pairingTimer, `safeTimer
      ensures !linkTimer && !pairingTimer && !safeTimer
      ensures linkDeadline == if old(linkTimer) then 0 else old(linkDeadline)
    {
      StopLinkTimer();
      if pairingTimer {
        pairingTimer := false;
      }
      if safeTimer {
        safeTimer := false;
      }
    }

    method ReleaseSession()
      requires Valid() && connected
      modifies this
      ensures Valid() && View() == Step(old(View()), Disconnected)
      ensures terminal && !connected && !linkTimer && !pairingTimer && !safeTimer && !secured
      ensures GoingDown(old(View())) ==> GoingDown(View())
    {
      connected := false;
      InvalidateSession(true);
      ReleaseTimers();
    }

    method SafeToDisconnectTimerExpired()
      requires Valid() && safeTimer
      modifies this
      ensures Valid() && View() == Step(old(View()), SafeTimeout)
      ensures safe && !safeTimer && (terminal || stopping ==> requested)
      ensures GoingDown(old(View())) ==> GoingDown(View())
    {
      safeTimer := false;
      safe := true;
      if terminal {
        CancelConnection();
      } else if stopping {
        CancelConnection();
      }
    }

    method DidSendGATTResponse(registered: bool)
      requires Valid() && connected
      modifies this
      ensures Valid() && View() == Step(old(View()), ResponseSent(registered))
      ensures safeTimer == registered && safe == !registered && requested == old(requested)
      ensures GoingDown(old(View())) ==> (GoingDown(View()) <==> registered || requested || !(terminal || stopping))
    {
      safe := false;
      if safeTimer {
        safeTimer := false;
      }
      if registered {
        safeTimer := true;
      } else {
        safe := true;
      }
    }

    method RestartLinkTimer(now: nat, registered: bool)
      modifies this
      ensures View() == StartSecurityTimeout(old(View()), now, registered)
    {
      StopLinkTimer();
      linkDeadline := now + SECURITY_TIMEOUT;
      if registered {
        linkTimer := true;
      } else {
        InvalidateSession(true);
      }
    }

    method DidStartBLEProcedure(now: nat, registered: bool)
      requires Valid() && connected
      modifies this
      ensures Valid() && View() == Step(old(View()), ProcedureStarted(now, registered))
      ensures !old(terminal) && secured ==> linkTimer && linkDeadline == now + SECURITY_TIMEOUT && !terminal
      ensures !old(terminal) && old(secured) && !registered ==> terminal && (requested || safeTimer)
      ensures !old(terminal) && !old(secured) ==> !linkTimer && !terminal
      ensures GoingDown(old(View())) ==> GoingDown(View())
    {
      if terminal {
        return;
      }
      if !secured {
        StopLinkTimer();
      } else {
        RestartLinkTimer(now, registered);
      }
    }

    method DidStartPairingProcedure(registered: bool)
      requires Valid() && connected
      modifies this
      ensures Valid() && View() == Step(old(View()), PairingStarted(registered))
      ensures terminal || pairingTimer
      ensures !old(terminal) && terminal ==> !registered && (requested || safeTimer)
      ensures GoingDown(old(View())) ==> GoingDown(View())
    {
      if terminal {
        return;
      }
      if !pairingTimer {
        if registered {
          pairingTimer := true;
        } else {
          InvalidateSession(true);
        }
      }
    }

    method DidCompletePairingProcedure(verified: bool, now: nat, registered: bool)
      requires Valid() && connected
      modifies this
      ensures Valid() && View() == Step(old(View()), PairingCompleted(verified, now, registered))
      ensures !pairingTimer
      ensures !old(terminal) && verified && secured ==> linkTimer && linkDeadline == now + SECURITY_TIMEOUT
      ensures GoingDown(old(View())) ==> GoingDown(View())
    {
      if terminal {
        return;
      }
      if pairingTimer {
        pairingTimer := false;
      }
      if verified && secured {
        RestartLinkTimer(now, registered);
      }
    }

    method TryStopServer() returns (didStop: bool)
      requires Valid()
      modifies this
      ensures Valid() && View() == Step(old(View()), Stopped) && didStop == !connected
      ensures GoingDown(View())
    {
      stopping := true;
      didStop := !connected;
      if connected {
        if safe {
          CancelConnection();
        }
      }
    }
  }
}
