/** The peripheral manager: attaches GATT requests to the full procedure or to fallback procedures. */
module PeripheralManager {
  import opened Bytes
  import opened BleProcedure
  import Tx = TransactionModel
  import opened ProcedureModel
  import opened Model = ManagerModel
  import Fallbacks
  import ValueFormats

  /** What the procedure's storage says before the first attachment. */
  const BLANK: Target := Target(0, 0, false, false, false, false, false, false, false, false, false, false, false,
                                false, false, false, ValueFormats.Data)

  class Manager {
    const targets: seq<Target>
    const full: Procedure
    var procedureAttached: Option<nat>
    /** Per characteristic: the fallback procedure, if its timer runs. */
    const fallbackProcedures: array<Option<Fallback>>

    ghost function View(): Model.Manager
      reads this, full, full.transaction, full.scratchBytes, fallbackProcedures
    {
      Model.Manager(procedureAttached, full.View(), fallbackProcedures[..])
    }

    ghost predicate Valid()
      reads this, full, full.transaction, full.scratchBytes, fallbackProcedures
    {
      && full.Valid()
      && ValidManager(targets, View())
      && (procedureAttached.Some? ==> full.target == targets[procedureAttached.value])
    }

    /** The state in which a central connects. */
    constructor (targets: seq<Target>, procedureBuffer: array<byte>)
      ensures Valid() && fresh(full) && fresh(full.transaction) && fresh(fallbackProcedures)
      ensures this.targets == targets && full.scratchBytes == procedureBuffer
      ensures View() == Fallbacks.Established(targets, procedureBuffer[..]).manager
    {
      this.targets := targets;
      full := new Procedure(BLANK, procedureBuffer, false, false);
      procedureAttached := None;
      fallbackProcedures := new Option<Fallback>[|targets|](_ => None);
    }

    method AbortAllFallbackProcedures()
      modifies fallbackProcedures
      ensures fallbackProcedures[..] == Aborted(old(fallbackProcedures[..]))
    {
      for i := 0 to fallbackProcedures.Length
        invariant forall k :: 0 <= k < i ==> fallbackProcedures[k] == None
      {
        if fallbackProcedures[i].Some? {
          fallbackProcedures[i] := None;
        }
      }
    }

    method AttachProcedure(c: nat, env: ManagerEnv)
      returns (status: Tx.Status, attachment: Attachment, isNewProcedure: bool)
      requires Valid() && c < |targets|
      modifies this, full, full.transaction, fallbackProcedures
      ensures Valid()
      ensures (status, View(), attachment, isNewProcedure) == Attach(targets, old(View()), c, env)
    {
      attachment, isNewProcedure := ToFull, false;
      if full.sessionIsTerminal {
        status := Tx.Failed(InvalidState);
        return;
      }
      if !env.running && !(procedureAttached.Some? && full.IsInProgress()) {
        // Only a procedure in progress may finish after shutdown was requested.
        status := Tx.Failed(InvalidState);
        return;
      }
      var drops := targets[c].dropsSecuritySession;
      if drops {
        AbortAllFallbackProcedures();
      }
      status := Tx.Done;
      if fallbackProcedures[c].Some? {
        attachment := ToFallback;
        return;
      }
      if procedureAttached.Some? {
        if procedureAttached.value == c {
          return;
        }
        if full.IsInProgress() && !drops {
          status := AttachFallback(c, env);
          if status == Tx.Done {
            attachment, isNewProcedure := ToFallback, true;
          }
          return;
        }
      }
      AttachFull(c);
      isNewProcedure := true;
    }

    method AttachFallback(c: nat, env: ManagerEnv) returns (status: Tx.Status)
      requires Valid() && c < |targets| && procedureAttached != Some(c)
      modifies full`sessionIsTerminal, fallbackProcedures
      ensures Valid()
      ensures status == if env.fallbackTimerStarts then Tx.Done else Tx.Failed(OutOfResources)
      ensures View() == if !env.fallbackTimerStarts then old(View())
                        else old(View()).(fallbacks := old(View()).fallbacks[c := Some(Fallback(0, 0, MaxProcedures))],
                                          full := old(View()).full.(terminal := old(View()).full.terminal
                                            || (env.writeEnv.secured && !env.writeEnv.linkTimerStarts)))
    {
      if !env.fallbackTimerStarts {
        return Tx.Failed(OutOfResources);
      }
      fallbackProcedures[c] := Some(Fallback(0, 0, MaxProcedures));
      if env.writeEnv.secured && !env.writeEnv.linkTimerStarts {
        full.sessionIsTerminal := true;
      }
      return Tx.Done;
    }

    method AttachFull(c: nat)
      requires Valid() && c < |targets| && fallbackProcedures[c].None?
      modifies this, full, full.transaction
      ensures Valid()
      ensures View() == old(View()).(attached := Some(c),
                                     full := Attached(old(View()).full.scratch, old(View()).full.terminal,
                                                      old(View()).full.transient))
    {
      full.Attach(targets[c]);
      procedureAttached := Some(c);
    }

    method HandleWriteRequest(c: nat, bytes: seq<byte>, env: ManagerEnv) returns (status: Tx.Status)
      requires Valid() && c < |targets|
      modifies this, full, full.transaction, full.scratchBytes, fallbackProcedures
      ensures Valid()
      ensures var r := HandleWrite(targets, old(View()), c, bytes, env); status == r.status && View() == r.manager
    {
      hide Attach;
      Fallbacks.AttachKeepsValid(targets, View(), c, env);
      var attachment, isNewProcedure;
      status, attachment, isNewProcedure := AttachProcedure(c, env);
      if status != Tx.Done {
        full.sessionIsTerminal := true;
        return;
      }
      match attachment {
        case ToFull =>
          status := WriteToFull(c, bytes, env.writeEnv);
        case ToFallback =>
          status := WriteToFallback(c, bytes, env, isNewProcedure);
      }
    }

    method WriteToFull(c: nat, bytes: seq<byte>, env: WriteEnv) returns (status: Tx.Status)
      requires Valid() && procedureAttached == Some(c)
      modifies full, full.transaction, full.scratchBytes
      ensures Valid()
      ensures var r := Step(targets[c], old(View()).full, GattWrite(bytes, env));
              status == r.status && View() == old(View()).(full := r.proc)
    {
      hide HandleGattWrite;
      status := full.HandleGATTWrite(bytes, env);
      if status != Tx.Done {
        full.sessionIsTerminal := true;
      }
    }

    method WriteToFallback(c: nat, bytes: seq<byte>, env: ManagerEnv, isNewProcedure: bool) returns (status: Tx.Status)
      requires Valid() && c < |targets| && fallbackProcedures[c].Some?
      modifies full`sessionIsTerminal, fallbackProcedures
      ensures Valid()
      ensures var r := Model.WriteToFallback(targets[c], old(View()), c, bytes, env.writeEnv, isNewProcedure);
              status == r.status && View() == r.manager
    {
      hide FallbackWrite;
      var data := bytes;
      if env.writeEnv.secured {
        if |bytes| < TAG_BYTES {
          full.sessionIsTerminal := true;
          return Tx.Failed(InvalidData);
        }
        if env.writeEnv.plaintext.Err? {
          full.sessionIsTerminal := true;
          return Tx.Failed(env.writeEnv.plaintext.error);
        }
        data := env.writeEnv.plaintext.value;
      }
      var f := SkipFragment(targets[c], fallbackProcedures[c].value, isNewProcedure, data);
      if f.None? {
        full.sessionIsTerminal := true;
        return Tx.Failed(InvalidData);
      }
      fallbackProcedures[c] := f;
      return Tx.Done;
    }

    static method SkipFragment(target: Target, fallback: Fallback, isNewProcedure: bool, data: seq<byte>)
      returns (r: Option<Fallback>)
      ensures r == FallbackWrite(target, fallback, isNewProcedure, data)
    {
      var numBytes := |data|;
      if isNewProcedure {
        if numBytes < 5 {
          return None;
        }
        if data[0] != 0x00 {
          return None;
        }
        var status := MaxProcedures;
        var operation, iid := data[1], ReadLittleUInt16(data, 3);
        if IsValidOpcode(operation) {
          var expectedIid := if IsServiceOperation(operation) then target.serviceIid else target.characteristicIid;
          if iid != expectedIid {
            status := InvalidInstanceID;
            if operation == SERVICE_SIGNATURE_READ && iid == 0 {
              status := ZeroInstanceIDServiceSignatureRead;
            }
          }
        }
        // Skip the body.
        var remainingBodyBytes: u16 := 0;
        if numBytes > 5 {
          if numBytes < 7 {
            return None;
          }
          remainingBodyBytes := ReadLittleUInt16(data, 5);
          if remainingBodyBytes < numBytes - 7 {
            return None;
          }
          remainingBodyBytes := remainingBodyBytes - (numBytes - 7);
        }
        return Some(Fallback(data[2], remainingBodyBytes, status));
      } else {
        if numBytes < 2 {
          return None;
        }
        if data[0] != 0x80 {
          return None;
        }
        if data[1] != fallback.tid {
          return None;
        }
        if fallback.remainingBodyBytes < numBytes - 2 {
          return None;
        }
        return Some(fallback.(remainingBodyBytes := fallback.remainingBodyBytes - (numBytes - 2)));
      }
    }

    /** The timer of the full procedure expires, if it is pending. */
    method FullTimerExpires()
      requires Valid()
      modifies full, full.transaction
      ensures Valid()
      ensures View() == Handle(targets, old(View()), FullTimerExpired).manager
    {
      if procedureAttached.Some? && full.IsInProgress() {
        full.ProcedureTimerExpired();
      }
    }

    /** The timer of the fallback procedure of `c` expires, if it is pending; the session is invalidated. */
    method FallbackProcedureTimerExpires(c: nat)
      requires Valid() && c < |targets|
      modifies full`sessionIsTerminal, fallbackProcedures
      ensures Valid()
      ensures View() == Handle(targets, old(View()), FallbackTimerExpired(c)).manager
      ensures forall i :: 0 <= i < |targets| && i != c ==> fallbackProcedures[i] == old(fallbackProcedures[i])
    {
      if fallbackProcedures[c].Some? {
        fallbackProcedures[c] := None;
        full.sessionIsTerminal := true;
      }
    }

    /** Puts the response, before encryption, into `bytes`. */
    method HandleReadRequest(c: nat, bytes: array<byte>, env: ReadEnv) returns (status: Tx.Status, numBytes: nat)
      requires Valid() && c < |targets| && bytes != full.scratchBytes
      modifies this, full, full.transaction, full.scratchBytes, fallbackProcedures, bytes
      ensures Valid()
      ensures var r := HandleRead(targets, old(View()), c, bytes.Length, env);
              && status == r.status && View() == r.manager
              && (status == Tx.Done ==> numBytes == |r.packet| <= bytes.Length && bytes[..numBytes] == r.packet)
    {
      hide ReadFrom;
      if full.sessionIsTerminal {
        return Tx.Failed(InvalidState), 0;
      }
      if targets[c].dropsSecuritySession {
        AbortAllFallbackProcedures();
      }
      status, numBytes := ReadFromAttached(c, bytes, env);
    }

    method ReadFromAttached(c: nat, bytes: array<byte>, env: ReadEnv) returns (status: Tx.Status, numBytes: nat)
      requires Valid() && c < |targets| && bytes != full.scratchBytes
      modifies full, full.transaction, full.scratchBytes, fallbackProcedures, bytes
      ensures Valid()
      ensures var r := ReadFrom(targets, old(View()), c, bytes.Length, env);
              && status == r.status && View() == r.manager
              && (status == Tx.Done ==> numBytes == |r.packet| <= bytes.Length && bytes[..numBytes] == r.packet)
    {
      hide Step, FallbackResponse;
      if fallbackProcedures[c].Some? {
        status, numBytes := ReadFromFallback(c, bytes, env);
      } else if procedureAttached == Some(c) {
        status, numBytes := ReadFromFull(c, bytes, env);
      } else {
        // A read that no write preceded.
        full.sessionIsTerminal := true;
        status, numBytes := Tx.Failed(InvalidState), 0;
      }
    }

    method ReadFromFull(c: nat, bytes: array<byte>, env: ReadEnv) returns (status: Tx.Status, numBytes: nat)
      requires Valid() && procedureAttached == Some(c) && bytes != full.scratchBytes
      modifies full, full.transaction, full.scratchBytes, bytes
      ensures Valid()
      ensures var r := Step(targets[c], old(View()).full, GattRead(bytes.Length, env));
              && status == r.status && View() == old(View()).(full := r.proc)
              && (status == Tx.Done ==> numBytes == |r.packet| <= bytes.Length && bytes[..numBytes] == r.packet)
    {
      hide HandleGattRead;
      var entries;
      status, numBytes, entries := full.HandleGATTRead(bytes, env);
      if status != Tx.Done {
        full.sessionIsTerminal := true;
      }
    }

    static method SerializeResponse(fallback: Fallback, bytes: array<byte>)
      requires |FallbackResponse(fallback)| <= bytes.Length
      modifies bytes
      ensures bytes[..|FallbackResponse(fallback)|] == FallbackResponse(fallback)
    {
      bytes[0], bytes[1] := 0x02, fallback.tid;
      match fallback.status {
        case MaxProcedures =>
          bytes[2] := MAX_PROCEDURES;
        case InvalidInstanceID =>
          bytes[2] := INVALID_INSTANCE_ID;
        case ZeroInstanceIDServiceSignatureRead =>
          bytes[2] := SUCCESS;
          bytes[3], bytes[4] := 2, 0;
          bytes[5], bytes[6] := HAP_LINKED_SERVICES, 0;
      }
    }

    method ReadFromFallback(c: nat, bytes: array<byte>, env: ReadEnv) returns (status: Tx.Status, numBytes: nat)
      requires Valid() && c < |targets| && fallbackProcedures[c].Some? && bytes != full.scratchBytes
      modifies full`sessionIsTerminal, fallbackProcedures, bytes
      ensures Valid()
      ensures var m := old(View());
              var f := m.fallbacks[c].value;
              var packet := FallbackResponse(f);
              var room := |packet| + if env.secured then TAG_BYTES else 0;
              if f.remainingBodyBytes != 0 then status == Tx.Failed(InvalidState) && View() == Invalidated(m)
              else if bytes.Length < room then status == Tx.Failed(OutOfResources) && View() == Invalidated(m)
              else if env.secured && !env.encrypted then
                status == Tx.Failed(InvalidState) && View() == Invalidated(m)
              else
                && status == Tx.Done && View() == m.(fallbacks := m.fallbacks[c := None])
                && numBytes == |packet| && bytes[..numBytes] == packet
    {
      var fallback := fallbackProcedures[c].value;
      numBytes := 0;
      if fallback.remainingBodyBytes != 0 {
        full.sessionIsTerminal := true;
        return Tx.Failed(InvalidState), 0;
      }
      numBytes := 3;
      if fallback.status == ZeroInstanceIDServiceSignatureRead {
        numBytes := numBytes + 2; // Body length.
        numBytes := numBytes + 2;
      }
      if bytes.Length < numBytes + (if env.secured then TAG_BYTES else 0) {
        full.sessionIsTerminal := true;
        return Tx.Failed(OutOfResources), numBytes;
      }
      SerializeResponse(fallback, bytes);
      if env.secured && !env.encrypted {
        full.sessionIsTerminal := true;
        return Tx.Failed(InvalidState), numBytes;
      }
      fallbackProcedures[c] := None;
      status := Tx.Done;
    }
  }
}
