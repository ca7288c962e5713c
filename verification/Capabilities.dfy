/**
 Dropping capabilities before the container's program runs.

 The three capability sets of a process shrink one `drop` at a time and any drop can fail. What
 holds after success, and what holds at every step on the way, are stated separately.
 */
module Capabilities {

  // Capability numbers up to CAP_LAST_CAP (CAP_CHECKPOINT_RESTORE).
  const LAST_CAP: nat := 40
  type Capability = c: nat | c <= 40

  // CHOWN, DAC_OVERRIDE, FOWNER, FSETID, KILL, SETGID, SETUID, SETPCAP, NET_BIND_SERVICE, NET_RAW,
  // SYS_CHROOT, MKNOD, AUDIT_WRITE, SETFCAP.
  const DEFAULT_CAPABILITIES: set<Capability> := {0, 1, 3, 4, 5, 6, 7, 8, 10, 13, 18, 27, 29, 31}

  datatype CapSet = Effective | Permitted | Inheritable

  datatype CapState = CapState(effective: set<Capability>, permitted: set<Capability>, inheritable: set<Capability>) {
    function Drop(which: CapSet, cap: Capability): CapState {
      match which
      case Effective => this.(effective := effective - {cap})
      case Permitted => this.(permitted := permitted - {cap})
      case Inheritable => this.(inheritable := inheritable - {cap})
    }

    // Each set cut down to the allowed capabilities.
    function Restrict(allowed: set<Capability>): CapState {
      CapState(effective * allowed, permitted * allowed, inheritable * allowed)
    }

    predicate Within(other: CapState) {
      effective <= other.effective && permitted <= other.permitted && inheritable <= other.inheritable
    }
  }

  // A process between two drops: nothing allowed is lost, nothing is gained, and Effective stays
  // within Permitted.
  predicate Sound(before: CapState, allowed: set<Capability>, now: CapState) {
    && before.Restrict(allowed).Within(now)
    && now.Within(before)
    && (before.effective <= before.permitted ==> now.effective <= now.permitted)
  }

  // The three sets once every capability below `value` that is not allowed has been dropped.
  ghost function DroppedBelow(before: CapState, allowed: set<Capability>, value: nat): CapState {
    var kept := set c: Capability | c in allowed || value <= c;
    before.Restrict(kept)
  }

  // One round of the loop: nothing to do for an allowed capability, and three sound drops, in this
  // order, for any other.
  lemma DropStep(before: CapState, allowed: set<Capability>, cap: Capability)
    ensures var now := DroppedBelow(before, allowed, cap);
            var dropped := now.Drop(Effective, cap).Drop(Permitted, cap).Drop(Inheritable, cap);
            && Sound(before, allowed, now)
            && (cap in allowed ==> DroppedBelow(before, allowed, cap + 1) == now)
            && (cap !in allowed ==>
                  && DroppedBelow(before, allowed, cap + 1) == dropped
                  && Sound(before, allowed, now.Drop(Effective, cap))
                  && Sound(before, allowed, now.Drop(Effective, cap).Drop(Permitted, cap))
                  && Sound(before, allowed, dropped))
  {
  }

  class Process {
    var caps: CapState
    // Every state the process has been in, oldest first.
    ghost var history: seq<CapState>
    // How many drops have failed.
    ghost var failures: nat

    ghost predicate Valid()
      reads this
    {
      history != [] && history[|history| - 1] == caps
    }

    constructor (initial: CapState)
      ensures Valid() && caps == initial && history == [initial] && failures == 0
    {
      caps := initial;
      history := [initial];
      failures := 0;
    }

    // One system call, which changes one set by one capability or fails.
    method Drop(which: CapSet, cap: Capability) returns (ok: bool)
      requires Valid()
      modifies this
      ensures Valid()
      ensures caps == if ok then old(caps).Drop(which, cap) else old(caps)
      ensures history == if ok then old(history) + [caps] else old(history)
      ensures failures == if ok then old(failures) else old(failures) + 1
    {
      ok := *;
      if ok {
        caps := caps.Drop(which, cap);
        history := history + [caps];
      } else {
        failures := failures + 1;
      }
    }

    method ApplyCapabilities(additional: seq<Capability>) returns (ok: bool)
      requires Valid()
      modifies this
      ensures Valid()
      // It fails exactly when a drop fails, and stops there.
      ensures failures == if ok then old(failures) else old(failures) + 1
      // What is kept, by number, beside the additional capabilities.
      ensures var allowed := {0, 1, 3, 4, 5, 6, 7, 8, 10, 13, 18, 27, 29, 31} + (set c | c in additional);
              && (ok ==>
                    && caps.effective == old(caps).effective * allowed
                    && caps.permitted == old(caps).permitted * allowed
                    && caps.inheritable == old(caps).inheritable * allowed)
              && old(history) <= history
              && (forall i :: |old(history)| <= i < |history| ==> Sound(old(caps), allowed, history[i]))
    {
      var allowed := DEFAULT_CAPABILITIES + (set c | c in additional);
      ghost var before, first := caps, |history|;
      var value: nat := 0;
      while value <= LAST_CAP
        invariant value <= LAST_CAP + 1
        invariant Valid() && failures == old(failures)
        invariant caps == DroppedBelow(before, allowed, value)
        invariant |history| >= first && history[..first] == old(history)
        invariant forall i :: first <= i < |history| ==> Sound(before, allowed, history[i])
      {
        var cap: Capability := value;
        DropStep(before, allowed, cap);
        if cap !in allowed {
          ok := Drop(Effective, cap);
          if !ok { return; }
          ok := Drop(Permitted, cap);
          if !ok { return; }
          ok := Drop(Inheritable, cap);
          if !ok { return; }
        }
        value := value + 1;
      }
      ok := true;
    }
  }
}
