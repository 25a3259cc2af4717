/** The timers of a Bluetooth LE session, and how a session that has become terminal is disconnected. */
module SessionModel {
  const LINK_TIMEOUT: nat := 10000
  const SECURITY_TIMEOUT: nat := 30000
  const LOOK_AHEAD: nat := 200

  const TWO64: nat := 0x1_0000_0000_0000_0000

  /**
   * `secured`, `connected` and `stopping` are maintained by the code around the session; `requested` records that
   * the disconnection of the central was requested.
   */
  datatype Session = Session(
    linkTimer: bool, linkDeadline: nat, pairingTimer: bool, safeTimer: bool, terminal: bool, safe: bool,
    secured: bool, connected: bool, stopping: bool, requested: bool)

  function Created(now: nat): Session {
    Session(true, now + LINK_TIMEOUT, false, false, false, true, false, true, false, false)
  }

  function Invalidate(s: Session, terminateLink: bool): Session {
    s.(linkTimer := false, linkDeadline := if s.linkTimer then 0 else s.linkDeadline, pairingTimer := false,
       secured := false, terminal := s.terminal || terminateLink,
       requested := s.requested || (terminateLink && s.safe && s.connected))
  }

  function LinkTimerExpired(s: Session): Session {
    Invalidate(s.(linkTimer := false, linkDeadline := 0), true)
  }

  function PairingTimerExpired(s: Session): Session {
    Invalidate(s.(pairingTimer := false), true)
  }

  function SafeTimerExpired(s: Session): Session {
    s.(safeTimer := false, safe := true, requested := s.requested || s.terminal || s.stopping)
  }

  /** A response was handed to the stack; `registered` tells whether a timer was available. */
  function DidSendResponse(s: Session, registered: bool): Session {
    s.(safe := !registered, safeTimer := registered)
  }

  /** Starts the timeout of a secured session. */
  function StartSecurityTimeout(s: Session, now: nat, registered: bool): Session {
    var started := s.(linkTimer := registered, linkDeadline := now + SECURITY_TIMEOUT);
    if registered then started else Invalidate(started, true)
  }

  function DidStartProcedure(s: Session, now: nat, registered: bool): Session {
    if s.terminal then s
    else if s.secured then StartSecurityTimeout(s, now, registered)
    else s.(linkTimer := false, linkDeadline := if s.linkTimer then 0 else s.linkDeadline)
  }

  function DidStartPairing(s: Session, registered: bool): Session {
    if s.terminal || s.pairingTimer then s
    else if registered then s.(pairingTimer := true)
    else Invalidate(s, true)
  }

  function DidCompletePairing(s: Session, verified: bool, now: nat, registered: bool): Session {
    if s.terminal then s
    else
      var completed := s.(pairingTimer := false);
      if verified && s.secured then StartSecurityTimeout(completed, now, registered) else completed
  }

  /** The server stops: a link that is not safe to disconnect yet is left to the safety timer. */
  function TryStop(s: Session): Session {
    s.(stopping := true, requested := s.requested || (s.connected && s.safe))
  }

  /** The central is gone: the session is invalidated and none of its timers is left pending. */
  function Release(s: Session): Session {
    Invalidate(s.(connected := false), true).(safeTimer := false)
  }

  /** The deadline is compared in unsigned arithmetic. */
  predicate IsTerminalSoon(s: Session, now: nat) {
    s.terminal || (s.linkTimer && (s.linkDeadline < now || (now - s.linkDeadline) % TWO64 <= LOOK_AHEAD))
  }

  datatype Event =
    | Invalidated(terminateLink: bool)
    | LinkTimeout
    | PairingTimeout
    | SafeTimeout
    | ResponseSent(registered: bool)
    | ProcedureStarted(now: nat, registered: bool)
    | PairingStarted(registered: bool)
    | PairingCompleted(verified: bool, now: nat, registered: bool)
    | Secured
    | Stopped
    | Disconnected

  predicate Enabled(s: Session, e: Event) {
    match e
    case LinkTimeout => s.linkTimer
    case PairingTimeout => s.pairingTimer
    case SafeTimeout => s.safeTimer
    case Secured => s.connected && !s.terminal
    case _ => s.connected
  }

  function Step(s: Session, e: Event): Session {
    match e
    case Invalidated(terminateLink) => Invalidate(s, terminateLink)
    case LinkTimeout => LinkTimerExpired(s)
    case PairingTimeout => PairingTimerExpired(s)
    case SafeTimeout => SafeTimerExpired(s)
    case ResponseSent(registered) => DidSendResponse(s, registered)
    case ProcedureStarted(now, registered) => DidStartProcedure(s, now, registered)
    case PairingStarted(registered) => DidStartPairing(s, registered)
    case PairingCompleted(verified, now, registered) => DidCompletePairing(s, verified, now, registered)
    case Secured => s.(secured := true)
    case Stopped => TryStop(s)
    case Disconnected => Release(s)
  }

  function Run(s: Session, events: seq<Event>): Session
    decreases |events|
  {
    if events == [] then s else Run(Step(s, events[0]), events[1..])
  }

  predicate Possible(s: Session, events: seq<Event>)
    decreases |events|
  {
    events != [] ==> Enabled(s, events[0]) && Possible(Step(s, events[0]), events[1..])
  }

  // Invariants.

  predicate Consistent(s: Session) {
    && (s.terminal ==> !s.linkTimer && !s.pairingTimer && !s.secured)
    && (s.connected ==> (s.safeTimer <==> !s.safe))
    && (!s.connected ==> s.terminal && !s.safeTimer)
  }

  /** A link that must go down was asked to, or a pending timer will ask it to. */
  predicate GoingDown(s: Session) {
    (s.terminal || s.stopping) && s.connected ==> s.requested || s.safeTimer
  }

  /** A terminal session stays terminal, and its timers stay off; a released one has no timer at all. */
  lemma StepIsConsistent(s: Session, e: Event)
    requires Consistent(s) && Enabled(s, e)
    ensures Consistent(Step(s, e))
    ensures s.terminal ==> Step(s, e).terminal
    ensures s.requested ==> Step(s, e).requested
  {
  }

  /** Only a response whose safety timer cannot be registered leaves a link up that should go down. */
  lemma GoingDownFailsIff(s: Session, e: Event)
    requires Consistent(s) && Enabled(s, e) && GoingDown(s)
    ensures !GoingDown(Step(s, e))
       <==> e == ResponseSent(false) && (s.terminal || s.stopping) && s.connected && !s.requested
  {
  }

  /** A response, the server is stopped before it is safe to disconnect, and another response finds no timer. */
  const STRANDING: seq<Event> := [ResponseSent(true), Stopped, ResponseSent(false)]

  /** In this run the link stays up: nothing asked it to go down and nothing will. */
  lemma StrandingRun(now: nat)
    ensures Possible(Created(now), STRANDING)
    ensures var s := Run(Created(now), STRANDING); s.stopping && s.connected && !s.requested && !s.safeTimer
    ensures !GoingDown(Run(Created(now), STRANDING))
  {
    assert STRANDING[1..] == [Stopped, ResponseSent(false)] && STRANDING[1..][1..] == [ResponseSent(false)];
    assert STRANDING[1..][1..][1..] == [];
    var s1 := Step(Created(now), ResponseSent(true));
    var s2 := Step(s1, Stopped);
    assert Run(s1, STRANDING[1..]) == Run(s2, STRANDING[1..][1..]) == Step(s2, ResponseSent(false));
  }

  lemma {:induction false} EveryRunHolds(s: Session, events: seq<Event>)
    requires Consistent(s) && Possible(s, events)
    ensures Consistent(Run(s, events)) && (s.terminal ==> Run(s, events).terminal)
    ensures GoingDown(s) && ResponseSent(false) !in events ==> GoingDown(Run(s, events))
    decreases |events|
  {
    if events != [] {
      StepIsConsistent(s, events[0]);
      if GoingDown(s) {
        GoingDownFailsIff(s, events[0]);
      }
      hide Step, Consistent, GoingDown, Enabled;
      EveryRunHolds(Step(s, events[0]), events[1..]);
    }
  }

  /**
   * Over every run in which safety timers can be registered: a link that must go down has been asked to, or the
   * pending safety timer asks it when it expires.
   */
  lemma LinkGoesDown(now: nat, events: seq<Event>)
    requires Possible(Created(now), events) && ResponseSent(false) !in events
    ensures var s := Run(Created(now), events);
            (s.terminal || s.stopping) && s.connected && !s.requested ==>
              Enabled(s, SafeTimeout) && Step(s, SafeTimeout).requested
  {
    hide Run;
    EveryRunHolds(Created(now), events);
  }

  /** The expiry of either timeout makes the session terminal and asks the link to go down as soon as that is safe. */
  lemma TimeoutTerminates(s: Session, e: Event)
    requires Consistent(s) && Enabled(s, e) && (e == LinkTimeout || e == PairingTimeout)
    ensures var t := Step(s, e);
            && t.terminal && !t.linkTimer && !t.pairingTimer && !t.secured
            && (t.connected ==> t.requested || t.safeTimer)
  {
  }

  /** A session counts as terminal soon once it is terminal, and before that only from the deadline of its timer on. */
  lemma TerminalSoonIff(s: Session, now: nat)
    requires s.linkTimer ==> s.linkDeadline <= now + SECURITY_TIMEOUT
    ensures IsTerminalSoon(s, now) <==> s.terminal || (s.linkTimer && s.linkDeadline <= now)
  {
    if s.linkTimer && s.linkDeadline > now {
      assert now - s.linkDeadline + TWO64 == (now - s.linkDeadline) % TWO64;
    }
  }

  /** A session that will time out in a hundred milliseconds does not count as terminal soon. */
  lemma NoLookAhead()
    ensures !IsTerminalSoon(Created(0), LINK_TIMEOUT - 100)
  {
    TerminalSoonIff(Created(0), LINK_TIMEOUT - 100);
  }
}
