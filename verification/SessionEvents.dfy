/** What every event does to a Bluetooth LE session, stated over the session and the event alone. */
module SessionEvents {
  import opened SessionModel

  /** Only the two timeouts and the requests and flags named by the events change; nothing else in a session does. */
  predicate SameConnection(s: Session, t: Session) {
    t.connected == s.connected && t.stopping == s.stopping
  }

  /** A session that is terminated: no timeout is left, and the link is asked to go down if that is safe. */
  predicate IsTerminated(s: Session, t: Session) {
    && SameConnection(s, t)
    && t.terminal && !t.secured && !t.linkTimer && !t.pairingTimer
    && t.safe == s.safe && t.safeTimer == s.safeTimer
    && t.requested == (s.requested || (s.safe && s.connected))
  }

  /** The session lives on, with other timeouts. */
  predicate LivesOn(s: Session, t: Session) {
    && SameConnection(s, t)
    && t.terminal == s.terminal && t.secured == s.secured && t.requested == s.requested
    && t.safe == s.safe && t.safeTimer == s.safeTimer
  }

  /** A new session has ten seconds, and its link may be taken down. */
  lemma CreatedOutcome(now: nat)
    ensures var s := Created(now);
            && s.linkTimer && s.linkDeadline == now + 10000 && !s.pairingTimer && !s.safeTimer
            && !s.terminal && s.safe && !s.secured && s.connected && !s.stopping && !s.requested
  {
  }

  lemma InvalidationOutcome(s: Session, terminateLink: bool)
    ensures var t := Step(s, Invalidated(terminateLink));
            if terminateLink then IsTerminated(s, t)
            else LivesOn(s, t.(secured := s.secured)) && !t.secured && !t.linkTimer && !t.pairingTimer
  {
  }

  lemma TimeoutOutcome(s: Session)
    ensures IsTerminated(s, Step(s, LinkTimeout)) && IsTerminated(s, Step(s, PairingTimeout))
  {
  }

  /** Once it is safe, a terminal session or a stopping server asks the link to go down. */
  lemma SafeOutcome(s: Session)
    ensures var t := Step(s, SafeTimeout);
            && t == s.(safe := true, safeTimer := false, requested := t.requested)
            && (t.requested <==> s.requested || s.terminal || s.stopping)
  {
  }

  /** After a response the link may not be taken down until the safety timer expires, if there is one. */
  lemma ResponseOutcome(s: Session, registered: bool)
    ensures Step(s, ResponseSent(registered)) == s.(safe := !registered, safeTimer := registered)
  {
  }

  /** A procedure gives a secured session thirty seconds, and an unsecured one as long as the procedure takes. */
  lemma ProcedureOutcome(s: Session, now: nat, registered: bool)
    ensures var t := Step(s, ProcedureStarted(now, registered));
            && (s.terminal ==> t == s)
            && (!s.terminal && s.secured && !registered ==> IsTerminated(s, t))
            && (!s.terminal && s.secured && registered ==>
                  LivesOn(s, t) && t.linkTimer && t.linkDeadline == now + 30000 && t.pairingTimer == s.pairingTimer)
            && (!s.terminal && !s.secured ==>
                  LivesOn(s, t) && !t.linkTimer && t.pairingTimer == s.pairingTimer)
  {
  }

  /** A pairing procedure has one timeout, from its first message on. */
  lemma PairingOutcome(s: Session, registered: bool)
    ensures var t := Step(s, PairingStarted(registered));
            && (s.terminal || s.pairingTimer ==> t == s)
            && (!s.terminal && !s.pairingTimer && registered ==> t == s.(pairingTimer := true))
            && (!s.terminal && !s.pairingTimer && !registered ==> IsTerminated(s, t))
  {
  }

  /** Pair Verify over a session that is still secured starts the thirty seconds. */
  lemma PairedOutcome(s: Session, verified: bool, now: nat, registered: bool)
    ensures var t := Step(s, PairingCompleted(verified, now, registered));
            var starts := verified && s.secured;
            && (s.terminal ==> t == s)
            && (!s.terminal && !starts ==> t == s.(pairingTimer := false))
            && (!s.terminal && starts && registered ==>
                  LivesOn(s, t) && !t.pairingTimer && t.linkTimer && t.linkDeadline == now + 30000)
            && (!s.terminal && starts && !registered ==> IsTerminated(s, t))
  {
  }

  /** A stopping server asks at once if that is safe. */
  lemma StopOutcome(s: Session)
    ensures var t := Step(s, Stopped);
            && t == s.(stopping := true, requested := t.requested)
            && (t.requested <==> s.requested || (s.connected && s.safe))
  {
  }

  /** Of a session whose central is gone nothing but its flags remains. */
  lemma ReleaseOutcome(s: Session)
    ensures var t := Step(s, Disconnected);
            && !t.connected && t.terminal && !t.secured && !t.linkTimer && !t.pairingTimer && !t.safeTimer
            && t.safe == s.safe && t.stopping == s.stopping && t.requested == s.requested
  {
  }

  /** Securing a session changes nothing else. */
  lemma SecuredOutcome(s: Session)
    ensures Step(s, Secured) == s.(secured := true)
  {
  }

  /** The deadline of a timer that is not pending is kept only if no timer was pending before. */
  lemma DeadlineOutcome(s: Session, e: Event)
    requires e.Invalidated? || e == LinkTimeout || e == PairingTimeout || e == Disconnected
             || (e.ProcedureStarted? && !s.secured && !s.terminal)
    ensures Step(s, e).linkDeadline == if s.linkTimer || e == LinkTimeout then 0 else s.linkDeadline
  {
  }
}
