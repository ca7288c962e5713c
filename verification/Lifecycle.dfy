/**
 The container lifecycle as a state machine over a store of state files, with failures and crashes.

 A command is a script of effects that can stop after any of them, or in the middle of a write. The
 theorems are about the trace of all effects of any sequence of commands on an empty store.
 `RuntimeManager` shows that the commands of the source only do what is described here.
 */
module Lifecycle {
  import opened Wrappers
  import Processes

  type Id = string
  type Pid = nat

  datatype ContainerState = Creating | Created | Running | Stopped {
    predicate CanTransitionTo(next: ContainerState) {
      || (this == Creating && next == Created)
      || (this == Created && next == Running)
      || (this == Running && next == Stopped)
    }
  }

  datatype ContainerStatus = ContainerStatus(
    id: Id,
    state: ContainerState,
    pid: Option<Pid>,
    bundle: string,
    created: string,
    annotations: map<string, string>)

  // A state file: a status, or what an interrupted write leaves, which exists but cannot be loaded.
  datatype Record = Readable(status: ContainerStatus) | Torn

  type Store = map<Id, Record>

  // ------------------------------------------------------------------ effects

  datatype Event =
    | Write(status: ContainerStatus)
    | Tear(id: Id)
    | Remove(id: Id)
    | Spawn(id: Id, pid: Pid)
    | Kill(id: Id, pid: Pid, signal: int)
    | Launch(status: ContainerStatus, hook: Processes.Hook)
  {
    function Container(): Id {
      match this
      case Write(status) => status.id
      case Launch(status, _) => status.id
      case Tear(id) => id
      case Remove(id) => id
      case Spawn(id, _) => id
      case Kill(id, _, _) => id
    }

    // The write that brings a container into being.
    predicate Creates(id: Id) {
      Write? && status.id == id && status.state == Creating
    }

    // The second save of `start`, and any later one that keeps the process it names.
    predicate Records(id: Id, pid: Pid) {
      Write? && status.id == id && status.state == Running && status.pid == Some(pid)
    }

    predicate Signals(id: Id, pid: Pid) {
      Kill? && this.id == id && this.pid == pid
    }
  }

  function Apply(store: Store, e: Event): Store {
    match e
    case Write(status) => store[status.id := Readable(status)]
    case Tear(id) => store[id := Torn]
    case Remove(id) => store - {id}
    case _ => store
  }

  // The store after a trace of effects.
  function Replay(trace: seq<Event>): Store {
    if trace == [] then map[] else Apply(Replay(trace[..|trace| - 1]), trace[|trace| - 1])
  }

  function SpawnedAfter(prior: seq<Pid>, e: Event, id: Id): seq<Pid> {
    if e.Creates(id) then []
    else if e.Spawn? && e.id == id then prior + [e.pid]
    else prior
  }

  // The processes spawned for a container since it was last created.
  function Spawned(trace: seq<Event>, id: Id): seq<Pid> {
    if trace == [] then [] else SpawnedAfter(Spawned(trace[..|trace| - 1], id), trace[|trace| - 1], id)
  }

  function PersistedAfter(prior: seq<ContainerState>, e: Event, id: Id): seq<ContainerState> {
    if e.Creates(id) then [Creating]
    else if e.Write? && e.status.id == id && (prior == [] || prior[|prior| - 1] != e.status.state) then
      prior + [e.status.state]
    else prior
  }

  // The states its file has held since it was last created, without repetitions.
  function Persisted(trace: seq<Event>, id: Id): seq<ContainerState> {
    if trace == [] then [] else PersistedAfter(Persisted(trace[..|trace| - 1], id), trace[|trace| - 1], id)
  }

  function RecordedAfter(prior: set<Pid>, e: Event, id: Id): set<Pid> {
    if e.Creates(id) then {}
    else if e.Write? && e.status.pid.Some? && e.Records(id, e.status.pid.value) then prior + {e.status.pid.value}
    else prior
  }

  // The processes that its file has named while Running, since it was last created.
  function Recorded(trace: seq<Event>, id: Id): set<Pid> {
    if trace == [] then {} else RecordedAfter(Recorded(trace[..|trace| - 1], id), trace[|trace| - 1], id)
  }

  function SignalledAfter(prior: set<Pid>, e: Event, id: Id): set<Pid> {
    if e.Creates(id) then {}
    else if e.Kill? && e.id == id then prior + {e.pid}
    else prior
  }

  // The processes signalled for it since it was last created.
  function Signalled(trace: seq<Event>, id: Id): set<Pid> {
    if trace == [] then {} else SignalledAfter(Signalled(trace[..|trace| - 1], id), trace[|trace| - 1], id)
  }

  lemma AfterOneMore(trace: seq<Event>, e: Event, id: Id)
    ensures Replay(trace + [e]) == Apply(Replay(trace), e)
    ensures Spawned(trace + [e], id) == SpawnedAfter(Spawned(trace, id), e, id)
    ensures Persisted(trace + [e], id) == PersistedAfter(Persisted(trace, id), e, id)
    ensures Recorded(trace + [e], id) == RecordedAfter(Recorded(trace, id), e, id)
    ensures Signalled(trace + [e], id) == SignalledAfter(Signalled(trace, id), e, id)
  {
    assert (trace + [e])[..|trace|] == trace;
  }

  // ------------------------------------------------------------------ commands

  datatype Outcome = Done | Failed | Crashed

  // One execution of a command: what it was given by its environment, the effects it had, and how it
  // ended. `hooks` are those it launches if it gets that far.
  datatype Execution =
    | Create(status: ContainerStatus, hooks: seq<Processes.Hook>, events: seq<Event>, outcome: Outcome)
    | Start(id: Id, pid: Pid, hooks: seq<Processes.Hook>, events: seq<Event>, outcome: Outcome)
    | Stop(id: Id, stop: Processes.StopEnd, hooks: seq<Processes.Hook>, events: seq<Event>, outcome: Outcome)
    | Delete(id: Id, events: seq<Event>, outcome: Outcome)
  {
    function Container(): Id {
      if Create? then status.id else id
    }

    // The same command with these effects and this end.
    function Ended(events: seq<Event>, outcome: Outcome): Execution {
      this.(events := events, outcome := outcome)
    }
  }

  predicate Loads(store: Store, id: Id) {
    id in store && store[id].Readable?
  }

  predicate InState(store: Store, id: Id, state: ContainerState) {
    Loads(store, id) && store[id].status.state == state
  }

  // Hooks are launched one after the other, each with the status on its standard input.
  function Launches(status: ContainerStatus, hooks: seq<Processes.Hook>): seq<Event> {
    seq(|hooks|, i requires 0 <= i < |hooks| => Launch(status, hooks[i]))
  }

  function Kills(status: ContainerStatus, signals: seq<int>): seq<Event> {
    if status.pid.None? then []
    else seq(|signals|, i requires 0 <= i < |signals| => Kill(status.id, status.pid.value, signals[i]))
  }

  // All the effects of a command that neither fails nor is interrupted. A refused command has none,
  // but `stop` signals the process before it looks at the state.
  function Script(store: Store, x: Execution): seq<Event> {
    match x
    case Create(status, hooks, _, _) =>
      if status.id in store then []
      else [Write(status)] + Launches(status, hooks) + [Write(status.(state := Created))]
    case Start(id, pid, hooks, _, _) =>
      if !InState(store, id, Created) then []
      else
        var running := store[id].status.(state := Running);
        var started := running.(pid := Some(pid));
        [Write(running), Spawn(id, pid)] + ([Write(started)] + Launches(started, hooks))
    case Stop(id, stop, hooks, _, _) =>
      if !Loads(store, id) then []
      else
        var status := store[id].status;
        if !stop.ok || status.state != Running then Kills(status, stop.kills)
        else
          var cleared := status.(state := Stopped, pid := None);
          Kills(status, stop.kills) + [Write(status.(state := Stopped))] + ([Write(cleared)] + Launches(cleared, hooks))
    case Delete(id, _, _) =>
      if InState(store, id, Stopped) then [Remove(id)] else []
  }

  // Whether a command can succeed at all.
  predicate Accepts(store: Store, x: Execution) {
    match x
    case Create(status, _, _, _) => status.id !in store
    case Start(id, _, _, _, _) => InState(store, id, Created)
    case Stop(id, stop, _, _, _) => InState(store, id, Running) && stop.ok
    case Delete(id, _, _) => InState(store, id, Stopped)
  }

  // The effects of a command that stopped early: some first part of its script, the last write of
  // which may have torn the file.
  predicate CutShort(events: seq<Event>, script: seq<Event>) {
    || events <= script
    || (var n := |events| - 1;
        && 0 <= n < |script|
        && events[..n] == script[..n]
        && script[n].Write? && events[n] == Tear(script[n].status.id))
  }

  // The executions of a command on a store. A new status is in Creating without a pid, and a recorded
  // process is not dealt with before it has been sent a signal.
  predicate Possible(store: Store, x: Execution) {
    && CutShort(x.events, Script(store, x))
    && (x.outcome.Done? ==> Accepts(store, x) && x.events == Script(store, x))
    && (x.Create? ==> x.status.state == Creating && x.status.pid == None)
    && (x.Stop? && x.stop.ok && Loads(store, x.id) && store[x.id].status.pid.Some? ==> x.stop.kills != [])
  }

  // Sequences of commands from an empty store, and the trace of their effects.
  function Trace(xs: seq<Execution>): seq<Event> {
    if xs == [] then [] else Trace(xs[..|xs| - 1]) + xs[|xs| - 1].events
  }

  predicate Legal(xs: seq<Execution>) {
    xs == [] || (Legal(xs[..|xs| - 1]) && Possible(Replay(Trace(xs[..|xs| - 1])), xs[|xs| - 1]))
  }

  // ------------------------------------------------------------------ what every effect must respect

  predicate SameContainer(a: ContainerStatus, b: ContainerStatus) {
    a == b.(state := a.state, pid := a.pid)
  }

  predicate Advances(was: ContainerStatus, now: ContainerStatus, spawned: seq<Pid>) {
    && SameContainer(now, was)
    && (now.state == was.state || was.state.CanTransitionTo(now.state))
    && now.state != Creating
    && (now.pid.Some? ==> now.state in {Running, Stopped} && now.pid.value in spawned)
    // A pid that is recorded stays so while Running, and none is recorded later.
    && (now.state == Running && was.pid.Some? ==> now.pid == was.pid)
    && (now.state == Stopped && now.pid.Some? ==> now.pid == was.pid)
  }

  // The rules an effect must follow, given the trace before it.
  predicate Safe(trace: seq<Event>, e: Event) {
    var store := Replay(trace);
    match e
    case Write(status) =>
      // A state file is created in Creating, keeps its state or advances by one step, and changes
      // nothing else but the pid; a pid it holds is one spawned for the container since its creation.
      if status.id !in store then status.state == Creating && status.pid == None
      else
        && Loads(store, status.id)
        && var was := store[status.id].status;
           && Advances(was, status, Spawned(trace, status.id))
           // Stopped is not persisted before the recorded process has been signalled.
           && (was.state == Running && status.state == Stopped && was.pid.Some? ==>
                 was.pid.value in Signalled(trace, status.id))
    case Tear(id) =>
      id in store ==> Loads(store, id)
    case Remove(id) =>
      // A container disappears after its file has held all four states.
      InState(store, id, Stopped) && Persisted(trace, id) == [Creating, Created, Running, Stopped]
    case Spawn(id, _) =>
      // Running is persisted before the process exists, and there is no process yet.
      InState(store, id, Running) && Spawned(trace, id) == []
    case Kill(id, pid, _) =>
      // Signals go to the recorded process, which was spawned for this container.
      Loads(store, id) && store[id].status.pid == Some(pid) && pid in Spawned(trace, id)
    case Launch(status, _) =>
      // Hooks see the status on disk.
      status.id in store && store[status.id] == Readable(status)
  }

  // ------------------------------------------------------------------ the invariant

  function StatesUpTo(state: ContainerState): seq<ContainerState> {
    match state
    case Creating => [Creating]
    case Created => [Creating, Created]
    case Running => [Creating, Created, Running]
    case Stopped => [Creating, Created, Running, Stopped]
  }

  predicate Consistent(trace: seq<Event>, id: Id) {
    var store := Replay(trace);
    Loads(store, id) ==>
      var status := store[id].status;
      && status.id == id
      && Persisted(trace, id) == StatesUpTo(status.state)
      && |Spawned(trace, id)| <= 1
      && (status.state in {Creating, Created} ==> status.pid == None && Spawned(trace, id) == [])
      && (status.pid.Some? ==> Spawned(trace, id) == [status.pid.value] && status.pid.value in Recorded(trace, id))
      && (status.state != Stopped && status.pid.None? ==> Recorded(trace, id) == {})
      && Signalled(trace, id) <= Recorded(trace, id) <= (set pid | pid in Spawned(trace, id))
      && (status.state == Stopped ==> Signalled(trace, id) == Recorded(trace, id))
  }

  lemma WriteKeepsConsistent(trace: seq<Event>, status: ContainerStatus, after: seq<Event>)
    requires Consistent(trace, status.id) && Safe(trace, Write(status)) && after == trace + [Write(status)]
    ensures Consistent(after, status.id)
  {
    AfterOneMore(trace, Write(status), status.id);
  }

  lemma SafeKeepsConsistent(trace: seq<Event>, e: Event, after: seq<Event>, id: Id)
    requires Consistent(trace, id) && Safe(trace, e) && after == trace + [e]
    ensures Consistent(after, id)
  {
    if e.Write? && e.status.id == id {
      WriteKeepsConsistent(trace, e.status, after);
    } else {
      AfterOneMore(trace, e, id);
      assert Loads(Apply(Replay(trace), e), id) ==> Replay(trace)[id] == Apply(Replay(trace), e)[id];
    }
  }

  lemma Associative(a: seq<Event>, b: seq<Event>, c: seq<Event>)
    ensures a + b + c == a + (b + c)
  {
  }

  // ------------------------------------------------------------------ every command is safe

  predicate SafeAfter(trace: seq<Event>, more: seq<Event>) {
    forall k :: 0 <= k < |more| ==> Safe(trace + more[..k], more[k])
  }

  lemma SafeThen(trace: seq<Event>, e: Event, rest: seq<Event>)
    requires Safe(trace, e) && SafeAfter(trace + [e], rest)
    ensures SafeAfter(trace, [e] + rest)
  {
    var more := [e] + rest;
    forall k | 0 <= k < |more|
      ensures Safe(trace + more[..k], more[k])
    {
      if k == 0 {
        assert trace + more[..0] == trace;
      } else {
        assert trace + more[..k] == trace + [e] + rest[..k - 1];
      }
    }
  }

  lemma SafeAppend(trace: seq<Event>, a: seq<Event>, b: seq<Event>)
    requires SafeAfter(trace, a) && SafeAfter(trace + a, b)
    ensures SafeAfter(trace, a + b)
  {
    var more := a + b;
    forall k | 0 <= k < |more|
      ensures Safe(trace + more[..k], more[k])
    {
      if k < |a| {
        assert more[..k] == a[..k];
      } else {
        assert trace + more[..k] == trace + a + b[..k - |a|];
      }
    }
  }

  lemma SafePrefix(trace: seq<Event>, script: seq<Event>, part: seq<Event>)
    requires SafeAfter(trace, script) && part <= script
    ensures SafeAfter(trace, part)
  {
    forall k | 0 <= k < |part|
      ensures Safe(trace + part[..k], part[k])
    {
      assert part[..k] == script[..k];
    }
  }

  // Tearing the file is as safe as the write that was meant.
  lemma TearIsSafe(trace: seq<Event>, script: seq<Event>, n: nat)
    requires SafeAfter(trace, script) && n < |script| && script[n].Write?
    ensures SafeAfter(trace, script[..n] + [Tear(script[n].status.id)])
  {
    var part, tear := script[..n], Tear(script[n].status.id);
    assert Safe(trace + part, script[n]);
    SafeThen(trace + part, tear, []);
    assert [tear] + [] == [tear];
    SafePrefix(trace, script, part);
    SafeAppend(trace, part, [tear]);
  }

  // Stopping early, even in the middle of a write, is as safe as going on.
  lemma SafeCutShort(trace: seq<Event>, script: seq<Event>, events: seq<Event>)
    requires SafeAfter(trace, script) && CutShort(events, script)
    ensures SafeAfter(trace, events)
  {
    if events <= script {
      SafePrefix(trace, script, events);
    } else {
      var n := |events| - 1;
      TearIsSafe(trace, script, n);
      assert events == events[..n] + [events[n]] == script[..n] + [Tear(script[n].status.id)];
    }
  }

  ghost predicate AllConsistent(trace: seq<Event>) {
    forall id :: Consistent(trace, id)
  }

  lemma {:induction false} ConsistentUpTo(trace: seq<Event>, more: seq<Event>, n: nat)
    requires AllConsistent(trace) && SafeAfter(trace, more) && n <= |more|
    ensures AllConsistent(trace + more[..n])
  {
    if n == 0 {
      assert trace + more[..n] == trace;
    } else {
      ConsistentUpTo(trace, more, n - 1);
      var before, after := trace + more[..n - 1], trace + more[..n];
      assert after == before + [more[n - 1]];
      forall id
        ensures Consistent(after, id)
      {
        assert Consistent(before, id) && Safe(before, more[n - 1]);
        SafeKeepsConsistent(before, more[n - 1], after, id);
      }
    }
  }

  lemma ConsistentAfter(trace: seq<Event>, more: seq<Event>)
    requires AllConsistent(trace) && SafeAfter(trace, more)
    ensures AllConsistent(trace + more)
  {
    ConsistentUpTo(trace, more, |more|);
    assert more[..|more|] == more;
  }

  // The effect is on the state file.
  predicate OnFile(e: Event) {
    e.Write? || e.Tear? || e.Remove?
  }

  // Other effects do not change the store, and signals and hooks are no new processes of a container.
  lemma {:induction false} QuietEffects(trace: seq<Event>, events: seq<Event>, id: Id)
    requires forall e <- events :: !OnFile(e)
    ensures Replay(trace + events) == Replay(trace)
    ensures (forall e <- events :: !e.Spawn?) ==> Spawned(trace + events, id) == Spawned(trace, id)
  {
    if events == [] {
      assert trace + events == trace;
    } else {
      var n := |events| - 1;
      assert events[n] in events;
      QuietEffects(trace, events[..n], id);
      AfterOneMore(trace + events[..n], events[n], id);
      assert trace + events == trace + events[..n] + [events[n]];
    }
  }

  lemma KillsAreRemembered(trace: seq<Event>, status: ContainerStatus, signals: seq<int>)
    requires status.pid.Some? && signals != []
    ensures status.pid.value in Signalled(trace + Kills(status, signals), status.id)
  {
    var kills := Kills(status, signals);
    var n := |kills| - 1;
    AfterOneMore(trace + kills[..n], kills[n], status.id);
    assert trace + kills == trace + kills[..n] + [kills[n]];
  }

  lemma KillsAreSafe(trace: seq<Event>, status: ContainerStatus, signals: seq<int>)
    requires Loads(Replay(trace), status.id) && Replay(trace)[status.id].status == status
    requires Consistent(trace, status.id)
    ensures SafeAfter(trace, Kills(status, signals))
  {
    var kills := Kills(status, signals);
    forall k | 0 <= k < |kills|
      ensures Safe(trace + kills[..k], kills[k])
    {
      QuietEffects(trace, kills[..k], status.id);
    }
  }

  lemma LaunchesAreSafe(trace: seq<Event>, status: ContainerStatus, hooks: seq<Processes.Hook>)
    requires status.id in Replay(trace) && Replay(trace)[status.id] == Readable(status)
    ensures SafeAfter(trace, Launches(status, hooks))
    ensures Replay(trace + Launches(status, hooks)) == Replay(trace)
    ensures Spawned(trace + Launches(status, hooks), status.id) == Spawned(trace, status.id)
  {
    var launches := Launches(status, hooks);
    forall k | 0 <= k < |launches|
      ensures Safe(trace + launches[..k], launches[k])
    {
      QuietEffects(trace, launches[..k], status.id);
    }
    QuietEffects(trace, launches, status.id);
  }

  // A container is created after its hooks have run.
  lemma CreatedIsSafe(trace: seq<Event>, status: ContainerStatus, hooks: seq<Processes.Hook>)
    requires InState(Replay(trace), status.id, Creating) && Replay(trace)[status.id].status == status
    requires status.pid == None
    ensures SafeAfter(trace, Launches(status, hooks) + [Write(status.(state := Created))])
  {
    var created := Write(status.(state := Created));
    LaunchesAreSafe(trace, status, hooks);
    SafeThen(trace + Launches(status, hooks), created, []);
    assert [created] + [] == [created];
    SafeAppend(trace, Launches(status, hooks), [created]);
  }

  lemma CreateIsSafe(trace: seq<Event>, x: Execution)
    requires x.Create? && x.status.state == Creating && x.status.pid == None && x.status.id !in Replay(trace)
    ensures SafeAfter(trace, Script(Replay(trace), x))
  {
    var creating, created := Write(x.status), Write(x.status.(state := Created));
    var rest := Launches(x.status, x.hooks) + [created];
    AfterOneMore(trace, creating, x.status.id);
    CreatedIsSafe(trace + [creating], x.status, x.hooks);
    SafeThen(trace, creating, rest);
    Associative([creating], Launches(x.status, x.hooks), [created]);
  }

  // The last write of a command, then its hooks.
  lemma WriteThenHooksIsSafe(trace: seq<Event>, status: ContainerStatus, hooks: seq<Processes.Hook>)
    requires Safe(trace, Write(status))
    ensures SafeAfter(trace, [Write(status)] + Launches(status, hooks))
  {
    AfterOneMore(trace, Write(status), status.id);
    LaunchesAreSafe(trace + [Write(status)], status, hooks);
    SafeThen(trace, Write(status), Launches(status, hooks));
  }

  lemma StartIsSafe(trace: seq<Event>, x: Execution)
    requires x.Start? && InState(Replay(trace), x.id, Created) && Consistent(trace, x.id)
    ensures SafeAfter(trace, Script(Replay(trace), x))
  {
    var id := x.id;
    var running := Replay(trace)[id].status.(state := Running);
    var started := running.(pid := Some(x.pid));
    var t1 := trace + [Write(running)];
    var t2 := t1 + [Spawn(id, x.pid)];
    AfterOneMore(trace, Write(running), id);
    AfterOneMore(t1, Spawn(id, x.pid), id);
    var last := [Write(started)] + Launches(started, x.hooks);
    WriteThenHooksIsSafe(t2, started, x.hooks);
    SafeThen(t1, Spawn(id, x.pid), last);
    SafeThen(trace, Write(running), [Spawn(id, x.pid)] + last);
    Associative([Write(running)], [Spawn(id, x.pid)], last);
    assert [Write(running)] + [Spawn(id, x.pid)] == [Write(running), Spawn(id, x.pid)];
  }

  // The writes of `stop`, once the process has been dealt with.
  lemma StoppedIsSafe(trace: seq<Event>, status: ContainerStatus, hooks: seq<Processes.Hook>)
    requires InState(Replay(trace), status.id, Running) && Replay(trace)[status.id].status == status
    requires status.pid.Some? ==>
               status.pid.value in Spawned(trace, status.id) && status.pid.value in Signalled(trace, status.id)
    ensures var stopped := status.(state := Stopped);
            var cleared := stopped.(pid := None);
            SafeAfter(trace, [Write(stopped)] + ([Write(cleared)] + Launches(cleared, hooks)))
  {
    var stopped := status.(state := Stopped);
    var cleared := stopped.(pid := None);
    AfterOneMore(trace, Write(stopped), status.id);
    WriteThenHooksIsSafe(trace + [Write(stopped)], cleared, hooks);
    SafeThen(trace, Write(stopped), [Write(cleared)] + Launches(cleared, hooks));
  }

  lemma StopIsSafe(trace: seq<Event>, x: Execution)
    requires x.Stop? && Loads(Replay(trace), x.id) && Consistent(trace, x.id)
    requires x.stop.ok && Replay(trace)[x.id].status.pid.Some? ==> x.stop.kills != []
    ensures SafeAfter(trace, Script(Replay(trace), x))
  {
    var status := Replay(trace)[x.id].status;
    var kills := Kills(status, x.stop.kills);
    KillsAreSafe(trace, status, x.stop.kills);
    if x.stop.ok && status.state == Running {
      var stopped := status.(state := Stopped);
      var cleared := stopped.(pid := None);
      QuietEffects(trace, kills, x.id);
      if status.pid.Some? {
        KillsAreRemembered(trace, status, x.stop.kills);
      }
      StoppedIsSafe(trace + kills, status, x.hooks);
      SafeAppend(trace, kills, [Write(stopped)] + ([Write(cleared)] + Launches(cleared, x.hooks)));
      Associative(kills, [Write(stopped)], [Write(cleared)] + Launches(cleared, x.hooks));
    }
  }

  lemma CommandIsSafe(trace: seq<Event>, x: Execution)
    requires Possible(Replay(trace), x) && Consistent(trace, x.Container())
    ensures SafeAfter(trace, x.events)
  {
    var store := Replay(trace);
    var script := Script(store, x);
    if script != [] {
      match x
      case Create(_, _, _, _) => CreateIsSafe(trace, x);
      case Start(_, _, _, _, _) => StartIsSafe(trace, x);
      case Stop(_, _, _, _, _) => StopIsSafe(trace, x);
      case Delete(id, _, _) => assert trace + script[..0] == trace;
    }
    SafeCutShort(trace, script, x.events);
  }

  lemma {:induction false} RunIsConsistent(xs: seq<Execution>)
    requires Legal(xs)
    ensures AllConsistent(Trace(xs))
  {
    if xs == [] {
    } else {
      var prior, x := xs[..|xs| - 1], xs[|xs| - 1];
      RunIsConsistent(prior);
      assert Consistent(Trace(prior), x.Container());
      CommandIsSafe(Trace(prior), x);
      ConsistentAfter(Trace(prior), x.events);
    }
  }

  // ------------------------------------------------------------------ main results

  lemma {:induction false} SafeFromStart(xs: seq<Execution>)
    requires Legal(xs)
    ensures SafeAfter([], Trace(xs))
  {
    if xs == [] {
    } else {
      var prior, x := xs[..|xs| - 1], xs[|xs| - 1];
      SafeFromStart(prior);
      RunIsConsistent(prior);
      assert Consistent(Trace(prior), x.Container());
      CommandIsSafe(Trace(prior), x);
      assert [] + Trace(prior) == Trace(prior);
      SafeAppend([], Trace(prior), x.events);
    }
  }

  // In every run, every effect follows the rules.
  lemma {:induction false} EveryEffectIsSafe(xs: seq<Execution>)
    requires Legal(xs)
    ensures forall k :: 0 <= k < |Trace(xs)| ==> Safe(Trace(xs)[..k], Trace(xs)[k])
  {
    SafeFromStart(xs);
    forall k | 0 <= k < |Trace(xs)|
      ensures Safe(Trace(xs)[..k], Trace(xs)[k])
    {
      assert [] + Trace(xs)[..k] == Trace(xs)[..k];
    }
  }

  // At every moment of every run, a readable record holds the last of the states persisted, one after
  // the other, since its creation, at most one process has been spawned since then, and a pid is
  // recorded only once the container has been Running and is that process.
  lemma RecordsAreConsistent(xs: seq<Execution>, k: nat, id: Id)
    requires Legal(xs) && k <= |Trace(xs)|
    ensures Consistent(Trace(xs)[..k], id)
  {
    SafeFromStart(xs);
    ConsistentUpTo([], Trace(xs), k);
    assert [] + Trace(xs)[..k] == Trace(xs)[..k];
    assert Consistent([] + Trace(xs)[..k], id);
  }

  lemma {:induction false} SpawnIsRemembered(trace: seq<Event>, id: Id, i: nat, n: nat)
    requires i < n <= |trace| && trace[i].Spawn? && trace[i].id == id
    requires forall k :: i < k < n ==> !trace[k].Creates(id)
    ensures Spawned(trace[..n], id) != []
  {
    assert trace[..n] == trace[..n - 1] + [trace[n - 1]];
    AfterOneMore(trace[..n - 1], trace[n - 1], id);
    if i == n - 1 {
    } else {
      SpawnIsRemembered(trace, id, i, n - 1);
    }
  }

  // Between two processes spawned for the same container it has been created anew.
  lemma OneProcessPerCreation(xs: seq<Execution>, id: Id, i: nat, j: nat)
    requires Legal(xs) && i < j < |Trace(xs)|
    requires Trace(xs)[i].Spawn? && Trace(xs)[i].id == id
    requires Trace(xs)[j].Spawn? && Trace(xs)[j].id == id
    ensures exists k :: i < k < j && Trace(xs)[k].Creates(id)
  {
    EveryEffectIsSafe(xs);
    assert Safe(Trace(xs)[..j], Trace(xs)[j]);
    if forall k :: i < k < j ==> !Trace(xs)[k].Creates(id) {
      SpawnIsRemembered(Trace(xs), id, i, j);
    }
  }

  // What the two sets of processes mean, from a point where they did not have this one.
  lemma {:induction false} SetsMean(trace: seq<Event>, id: Id, pid: Pid, i: nat, n: nat)
    requires i <= n <= |trace|
    requires forall k :: i <= k < n ==> !trace[k].Creates(id)
    requires pid !in Recorded(trace[..i], id) && pid !in Signalled(trace[..i], id)
    ensures pid in Recorded(trace[..n], id) <==> exists k :: i <= k < n && trace[k].Records(id, pid)
    ensures pid in Signalled(trace[..n], id) <==> exists k :: i <= k < n && trace[k].Signals(id, pid)
  {
    if i == n {
    } else {
      SetsMean(trace, id, pid, i, n - 1);
      assert trace[..n] == trace[..n - 1] + [trace[n - 1]];
      AfterOneMore(trace[..n - 1], trace[n - 1], id);
    }
  }

  // A process is signalled before its container is removed if and only if `start` got to save its pid:
  // a process orphaned between its creation and that save is never signalled, and `stop` and `delete`
  // succeed without it.
  lemma SignalledBeforeRemoval(xs: seq<Execution>, id: Id, i: nat, n: nat)
    requires Legal(xs) && i < n < |Trace(xs)|
    requires Trace(xs)[i].Spawn? && Trace(xs)[i].id == id && Trace(xs)[n] == Remove(id)
    requires forall k :: i < k < n ==> !Trace(xs)[k].Creates(id)
    ensures (exists k :: i < k < n && Trace(xs)[k].Signals(id, Trace(xs)[i].pid))
        <==> exists k :: i < k < n && Trace(xs)[k].Records(id, Trace(xs)[i].pid)
  {
    var trace := Trace(xs);
    EveryEffectIsSafe(xs);
    assert Safe(trace[..i], trace[i]) && Safe(trace[..n], trace[n]);
    RecordsAreConsistent(xs, i, id);
    RecordsAreConsistent(xs, n, id);
    SetsMean(trace, id, trace[i].pid, i, n);
    assert !trace[i].Records(id, trace[i].pid) && !trace[i].Signals(id, trace[i].pid);
  }

  predicate TornAt(trace: seq<Event>, k: nat, id: Id)
    requires k <= |trace|
  {
    var store := Replay(trace[..k]);
    id in store && store[id] == Torn
  }

  lemma TornStays(trace: seq<Event>, k: nat, id: Id)
    requires SafeAfter([], trace) && k < |trace| && TornAt(trace, k, id)
    ensures TornAt(trace, k + 1, id)
  {
    var before, e := trace[..k], trace[k];
    assert [] + before == before && trace[..k + 1] == before + [e];
    assert Safe([] + trace[..k], trace[k]);
    AfterOneMore(before, e, id);
  }

  lemma {:induction false} TornStaysUntil(trace: seq<Event>, id: Id, i: nat, j: nat)
    requires i <= j <= |trace| && TornAt(trace, i, id)
    requires forall k: nat :: k < |trace| && TornAt(trace, k, id) ==> TornAt(trace, k + 1, id)
    ensures TornAt(trace, j, id)
  {
    if i == j {
    } else {
      TornStaysUntil(trace, id, i, j - 1);
    }
  }

  // A file torn by an interrupted write is never repaired, replaced or removed by any command.
  lemma TornIsForever(xs: seq<Execution>, id: Id, i: nat, j: nat)
    requires Legal(xs) && i <= j <= |Trace(xs)| && TornAt(Trace(xs), i, id)
    ensures TornAt(Trace(xs), j, id)
  {
    var trace := Trace(xs);
    SafeFromStart(xs);
    forall k: nat | k < |trace| && TornAt(trace, k, id)
      ensures TornAt(trace, k + 1, id)
    {
      TornStays(trace, k, id);
    }
    TornStaysUntil(trace, id, i, j);
  }

  // ------------------------------------------------------------------ what commands leave behind

  predicate SameRecord(a: Store, b: Store, id: Id) {
    (id in a <==> id in b) && (id in a ==> a[id] == b[id])
  }

  predicate OnlyOf(events: seq<Event>, id: Id) {
    forall k :: 0 <= k < |events| ==> events[k].Container() == id
  }

  // Effects on one container do not touch the record of another.
  lemma {:induction false} OtherRecordsStay(trace: seq<Event>, more: seq<Event>, own: Id, id: Id)
    requires OnlyOf(more, own) && id != own
    ensures SameRecord(Replay(trace), Replay(trace + more), id)
  {
    if more == [] {
      assert trace + more == trace;
    } else {
      var n := |more| - 1;
      OtherRecordsStay(trace, more[..n], own, id);
      AfterOneMore(trace + more[..n], more[n], id);
      assert trace + more == trace + more[..n] + [more[n]];
    }
  }

  lemma CutShortIsOf(script: seq<Event>, events: seq<Event>, id: Id)
    requires OnlyOf(script, id) && CutShort(events, script)
    ensures OnlyOf(events, id)
  {
    if !(events <= script) {
      var n := |events| - 1;
      forall k | 0 <= k < n
        ensures events[k] == script[k]
      {
        assert events[..n][k] == script[..n][k];
      }
      assert events[n].Container() == script[n].Container();
    }
  }

  lemma ScriptIsOf(store: Store, x: Execution)
    requires Loads(store, x.Container()) ==> store[x.Container()].status.id == x.Container()
    ensures OnlyOf(Script(store, x), x.Container())
  {
  }

  lemma CommandLeavesOthers(trace: seq<Event>, x: Execution, id: Id)
    requires Possible(Replay(trace), x) && Consistent(trace, x.Container()) && id != x.Container()
    ensures SameRecord(Replay(trace), Replay(trace + x.events), id)
  {
    ScriptIsOf(Replay(trace), x);
    CutShortIsOf(Script(Replay(trace), x), x.events, x.Container());
    OtherRecordsStay(trace, x.events, x.Container(), id);
  }

  // A container that a failed `create` left in Creating stays there, whatever commands follow: it can
  // be neither created, started, stopped nor deleted.
  lemma {:induction false} CreatingIsForever(xs: seq<Execution>, n: nat, id: Id)
    requires Legal(xs) && n <= |xs|
    requires InState(Replay(Trace(xs[..n])), id, Creating)
    ensures SameRecord(Replay(Trace(xs[..n])), Replay(Trace(xs)), id)
  {
    if n == |xs| {
      assert xs[..n] == xs;
    } else {
      var prior, x := xs[..|xs| - 1], xs[|xs| - 1];
      assert prior[..n] == xs[..n];
      CreatingIsForever(prior, n, id);
      RunIsConsistent(prior);
      assert Consistent(Trace(prior), id) && Consistent(Trace(prior), x.Container());
      if x.Container() == id {
        assert Script(Replay(Trace(prior)), x) == [];
        assert Trace(xs) == Trace(prior);
      } else {
        CommandLeavesOthers(Trace(prior), x, id);
      }
    }
  }

  // What a command that succeeds leaves on disk.
  predicate Achieves(store: Store, x: Execution) {
    match x
    case Create(status, _, _, _) => status.id in store && store[status.id] == Readable(status.(state := Created))
    case Start(id, pid, _, _, _) => InState(store, id, Running) && store[id].status.pid == Some(pid)
    case Stop(id, _, _, _, _) => InState(store, id, Stopped) && store[id].status.pid == None
    case Delete(id, _, _) => id !in store
  }

  lemma LastWrite(trace: seq<Event>, status: ContainerStatus, rest: seq<Event>)
    requires forall e <- rest :: !OnFile(e)
    ensures Replay(trace + ([Write(status)] + rest)) == Replay(trace)[status.id := Readable(status)]
  {
    AfterOneMore(trace, Write(status), status.id);
    QuietEffects(trace + [Write(status)], rest, status.id);
    Associative(trace, [Write(status)], rest);
  }

  lemma CreateAchieves(trace: seq<Event>, x: Execution)
    requires x.Create? && Accepts(Replay(trace), x) && x.events == Script(Replay(trace), x)
    ensures Achieves(Replay(trace + x.events), x)
  {
    var created := Write(x.status.(state := Created));
    var first := [Write(x.status)] + Launches(x.status, x.hooks);
    AfterOneMore(trace + first, created, x.status.id);
    Associative(trace, first, [created]);
  }

  lemma StartAchieves(trace: seq<Event>, x: Execution)
    requires x.Start? && Accepts(Replay(trace), x) && x.events == Script(Replay(trace), x)
    requires Replay(trace)[x.id].status.id == x.id
    ensures Achieves(Replay(trace + x.events), x)
  {
    var running := Replay(trace)[x.id].status.(state := Running);
    var started := running.(pid := Some(x.pid));
    var first := [Write(running), Spawn(x.id, x.pid)];
    LastWrite(trace + first, started, Launches(started, x.hooks));
    Associative(trace, first, [Write(started)] + Launches(started, x.hooks));
  }

  lemma StopAchieves(trace: seq<Event>, x: Execution)
    requires x.Stop? && Accepts(Replay(trace), x) && x.events == Script(Replay(trace), x)
    requires Replay(trace)[x.id].status.id == x.id
    ensures Achieves(Replay(trace + x.events), x)
  {
    var status := Replay(trace)[x.id].status;
    var cleared := status.(state := Stopped, pid := None);
    var first := Kills(status, x.stop.kills) + [Write(status.(state := Stopped))];
    var last := [Write(cleared)] + Launches(cleared, x.hooks);
    LastWrite(trace + first, cleared, Launches(cleared, x.hooks));
    Associative(trace, first, last);
  }

  lemma DeleteAchieves(trace: seq<Event>, x: Execution)
    requires x.Delete? && Accepts(Replay(trace), x) && x.events == Script(Replay(trace), x)
    ensures Achieves(Replay(trace + x.events), x)
  {
    AfterOneMore(trace, Remove(x.id), x.id);
  }

  // A command that succeeds leaves its container in the state it is for.
  lemma SuccessAchieves(xs: seq<Execution>)
    requires Legal(xs) && xs != [] && xs[|xs| - 1].outcome.Done?
    ensures Achieves(Replay(Trace(xs)), xs[|xs| - 1])
  {
    var trace, x := Trace(xs[..|xs| - 1]), xs[|xs| - 1];
    RunIsConsistent(xs[..|xs| - 1]);
    assert Consistent(trace, x.Container());
    match x
    case Create(_, _, _, _) => CreateAchieves(trace, x);
    case Start(_, _, _, _, _) => StartAchieves(trace, x);
    case Stop(_, _, _, _, _) => StopAchieves(trace, x);
    case Delete(_, _, _) => DeleteAchieves(trace, x);
  }

  // Whether it succeeds, fails or crashes, a command leaves the record of every other container.
  lemma OthersAreUntouched(xs: seq<Execution>, id: Id)
    requires Legal(xs) && xs != [] && id != xs[|xs| - 1].Container()
    ensures SameRecord(Replay(Trace(xs[..|xs| - 1])), Replay(Trace(xs)), id)
  {
    var trace, x := Trace(xs[..|xs| - 1]), xs[|xs| - 1];
    RunIsConsistent(xs[..|xs| - 1]);
    assert Consistent(trace, x.Container());
    CommandLeavesOthers(trace, x, id);
  }

  // ------------------------------------------------------------------ what does not hold

  // A record that can be loaded is Running if and only if it has a pid.
  predicate PidRule(store: Store, id: Id) {
    Loads(store, id) ==> (store[id].status.state == Running <==> store[id].status.pid.Some?)
  }

  // A `start` that ended after the first or the second of its effects, both of which succeeded, or a
  // `stop` of a record with a pid that ended right after the first of its writes.
  predicate EndsHalfway(before: Store, x: Execution) {
    match x
    case Start(_, _, _, events, _) =>
      1 <= |events| <= 2 && events[0].Write?
    case Stop(id, stop, _, events, _) =>
      && Loads(before, id) && before[id].status.pid.Some?
      && |events| == |stop.kills| + 1 && events[|events| - 1].Write?
    case _ => false
  }

  // The last command that changed the state file ended halfway.
  predicate Halfway(xs: seq<Execution>, id: Id) {
    xs != []
    && var prior, x := xs[..|xs| - 1], xs[|xs| - 1];
       if x.Container() == id && exists e <- x.events :: OnFile(e) then EndsHalfway(Replay(Trace(prior)), x)
       else Halfway(prior, id)
  }

  // After a torn write the rule says nothing.
  lemma TornKeepsRule(trace: seq<Event>, script: seq<Event>, events: seq<Event>, id: Id)
    requires OnlyOf(script, id) && CutShort(events, script) && !(events <= script)
    ensures 0 < |events| <= |script| && events[|events| - 1].Tear? && script[|events| - 1].Write?
    ensures PidRule(Replay(trace + events), id)
  {
    var n := |events| - 1;
    CutShortIsOf(script, events, id);
    assert events[n].Container() == id;
    AfterOneMore(trace + events[..n], events[n], id);
    assert trace + events == trace + events[..n] + [events[n]];
  }

  lemma TornIsNotHalfway(store: Store, x: Execution)
    requires 0 < |x.events| <= |Script(store, x)|
    requires x.events[|x.events| - 1].Tear? && Script(store, x)[|x.events| - 1].Write?
    ensures !EndsHalfway(store, x)
  {
  }

  lemma PartAfter(first: seq<Event>, rest: seq<Event>, events: seq<Event>)
    requires |first| <= |events| && events <= first + rest
    ensures events == first + events[|first|..] && events[|first|..] <= rest
  {
    var n := |first|;
    forall i | 0 <= i < |events| - n
      ensures events[n..][i] == rest[i]
    {
      assert events[n + i] == (first + rest)[n + i];
    }
    forall i | 0 <= i < n
      ensures events[i] == first[i]
    {
      assert events[i] == (first + rest)[i];
    }
  }

  lemma PartBefore(first: seq<Event>, rest: seq<Event>, events: seq<Event>)
    requires |events| <= |first| && events <= first + rest
    ensures events <= first
  {
    forall i | 0 <= i < |events|
      ensures events[i] == first[i]
    {
      assert events[i] == (first + rest)[i];
    }
  }

  // Once the write of a command's last status is over, that status is in the file.
  lemma AfterLastWrite(trace: seq<Event>, first: seq<Event>, status: ContainerStatus, rest: seq<Event>,
                       events: seq<Event>)
    requires |first| < |events| && events <= first + ([Write(status)] + rest) && forall e <- rest :: !OnFile(e)
    ensures Replay(trace + events) == Replay(trace + first)[status.id := Readable(status)]
  {
    PartAfter(first, [Write(status)] + rest, events);
    var last := events[|first|..];
    assert last == [Write(status)] + last[1..];
    assert forall i :: 0 <= i < |last[1..]| ==> last[1..][i] == rest[i];
    LastWrite(trace + first, status, last[1..]);
    Associative(trace, first, last);
  }

  lemma CreatePidRule(trace: seq<Event>, x: Execution)
    requires x.Create? && Possible(Replay(trace), x) && x.events <= Script(Replay(trace), x) && x.events != []
    ensures PidRule(Replay(trace + x.events), x.status.id)
  {
    var created := x.status.(state := Created);
    var first := [Write(x.status)] + Launches(x.status, x.hooks);
    if |x.events| <= |first| {
      assert x.events <= [] + first;
      AfterLastWrite(trace, [], x.status, Launches(x.status, x.hooks), x.events);
    } else {
      assert first + ([Write(created)] + []) == Script(Replay(trace), x);
      AfterLastWrite(trace, first, created, [], x.events);
    }
  }

  // The rule along the effects of `start`, once the first of them is over.
  lemma RuleAlongStart(trace: seq<Event>, status: ContainerStatus, pid: Pid, hooks: seq<Processes.Hook>,
                       events: seq<Event>)
    requires status.pid == None && events != []
    requires var running := status.(state := Running);
             var started := running.(pid := Some(pid));
             events <= [Write(running), Spawn(status.id, pid)] + ([Write(started)] + Launches(started, hooks))
    ensures PidRule(Replay(trace + events), status.id) <==> |events| > 2
  {
    var running := status.(state := Running);
    var started := running.(pid := Some(pid));
    var first := [Write(running), Spawn(status.id, pid)];
    if |events| > 2 {
      AfterLastWrite(trace, first, started, Launches(started, hooks), events);
    } else {
      PartBefore(first, [Write(started)] + Launches(started, hooks), events);
      AfterOneMore(trace, Write(running), status.id);
      AfterOneMore(trace + [Write(running)], Spawn(status.id, pid), status.id);
      assert trace + first == trace + [Write(running)] + [Spawn(status.id, pid)];
      assert events == first || events == [Write(running)];
    }
  }

  lemma StartPidRule(trace: seq<Event>, x: Execution)
    requires x.Start? && x.events <= Script(Replay(trace), x) && Consistent(trace, x.id) && x.events != []
    ensures PidRule(Replay(trace + x.events), x.id) <==> !EndsHalfway(Replay(trace), x)
  {
    RuleAlongStart(trace, Replay(trace)[x.id].status, x.pid, x.hooks, x.events);
  }

  // A `stop` that changed the state file found it Running, and got past its signals.
  lemma StopGoesOn(store: Store, x: Execution)
    requires x.Stop? && x.events <= Script(store, x)
    requires exists e <- x.events :: OnFile(e)
    ensures Accepts(store, x) && |x.events| > |Kills(store[x.id].status, x.stop.kills)|
  {
  }

  lemma StopWriteAfterSignals(store: Store, x: Execution)
    requires x.Stop? && Accepts(store, x) && x.events <= Script(store, x)
    requires |x.events| == |Kills(store[x.id].status, x.stop.kills)| + 1
    ensures x.events[|x.events| - 1].Write?
  {
  }

  lemma AfterFirstStopWrite(trace: seq<Event>, status: ContainerStatus, signals: seq<int>)
    ensures var stopped := status.(state := Stopped);
            Replay(trace + (Kills(status, signals) + [Write(stopped)])) == Replay(trace)[status.id := Readable(stopped)]
  {
    var kills, stopped := Kills(status, signals), Write(status.(state := Stopped));
    QuietEffects(trace, kills, status.id);
    AfterOneMore(trace + kills, stopped, status.id);
    Associative(trace, kills, [stopped]);
  }

  // The rule along the effects of `stop`, once the first of its writes is over.
  lemma RuleAlongStop(trace: seq<Event>, status: ContainerStatus, signals: seq<int>, hooks: seq<Processes.Hook>,
                      events: seq<Event>)
    requires |events| > |Kills(status, signals)|
    requires var cleared := status.(state := Stopped, pid := None);
             events <= Kills(status, signals) + [Write(status.(state := Stopped))]
                       + ([Write(cleared)] + Launches(cleared, hooks))
    ensures PidRule(Replay(trace + events), status.id) <==> status.pid.None? || |events| > |Kills(status, signals)| + 1
  {
    var first := Kills(status, signals) + [Write(status.(state := Stopped))];
    if |events| > |first| {
      var cleared := status.(state := Stopped, pid := None);
      AfterLastWrite(trace, first, cleared, Launches(cleared, hooks), events);
    } else {
      AfterFirstStopWrite(trace, status, signals);
      assert events == first;
    }
  }

  lemma StopPidRule(trace: seq<Event>, x: Execution)
    requires x.Stop? && x.events <= Script(Replay(trace), x) && Consistent(trace, x.id)
    requires exists e <- x.events :: OnFile(e)
    ensures PidRule(Replay(trace + x.events), x.id) <==> !EndsHalfway(Replay(trace), x)
  {
    var store := Replay(trace);
    StopGoesOn(store, x);
    RuleAlongStop(trace, store[x.id].status, x.stop.kills, x.hooks, x.events);
    if |x.events| == |Kills(store[x.id].status, x.stop.kills)| + 1 {
      StopWriteAfterSignals(store, x);
    }
  }

  lemma CommandPidRule(trace: seq<Event>, x: Execution)
    requires Possible(Replay(trace), x) && Consistent(trace, x.Container())
    requires exists e <- x.events :: OnFile(e)
    ensures PidRule(Replay(trace + x.events), x.Container()) <==> !EndsHalfway(Replay(trace), x)
  {
    if !(x.events <= Script(Replay(trace), x)) {
      ScriptIsOf(Replay(trace), x);
      TornKeepsRule(trace, Script(Replay(trace), x), x.events, x.Container());
      TornIsNotHalfway(Replay(trace), x);
    } else {
      match x
      case Create(_, _, _, _) => CreatePidRule(trace, x);
      case Start(_, _, _, _, _) => StartPidRule(trace, x);
      case Stop(_, _, _, _, _) => StopPidRule(trace, x);
      case Delete(id, _, _) => AfterOneMore(trace, Remove(id), id);
    }
  }

  // "Running if and only if a pid is recorded" holds exactly when the last command that changed the
  // state file did not end halfway.
  lemma {:induction false} PidRuleExactly(xs: seq<Execution>, id: Id)
    requires Legal(xs)
    ensures PidRule(Replay(Trace(xs)), id) <==> !Halfway(xs, id)
  {
    if xs == [] {
    } else {
      var prior, x := xs[..|xs| - 1], xs[|xs| - 1];
      PidRuleExactly(prior, id);
      RunIsConsistent(prior);
      assert Consistent(Trace(prior), x.Container());
      if x.Container() != id {
        CommandLeavesOthers(Trace(prior), x, id);
      } else if exists e <- x.events :: OnFile(e) {
        CommandPidRule(Trace(prior), x);
      } else {
        QuietEffects(Trace(prior), x.events, id);
      }
    }
  }

  lemma OneMoreCommand(xs: seq<Execution>, x: Execution)
    requires Legal(xs) && Possible(Replay(Trace(xs)), x)
    ensures Legal(xs + [x]) && Trace(xs + [x]) == Trace(xs) + x.events
  {
    assert (xs + [x])[..|xs|] == xs;
  }

  lemma ReachCreated(status: ContainerStatus) returns (xs: seq<Execution>)
    requires status.state == Creating && status.pid == None
    ensures Legal(xs)
    ensures status.id in Replay(Trace(xs)) && Replay(Trace(xs))[status.id] == Readable(status.(state := Created))
    ensures |xs| == 1 && Trace(xs) == [Write(status), Write(status.(state := Created))]
  {
    assert [Write(status)] + Launches(status, []) == [Write(status)];
    var x := Create(status, [], [Write(status)] + [Write(status.(state := Created))], Done);
    OneMoreCommand([], x);
    xs := [] + [x];
    CreateAchieves([], x);
  }

  // `start` ends after its first effect when the bundle has no process or cloning fails.
  lemma ReachRunningWithoutPid(status: ContainerStatus, pid: Pid) returns (xs: seq<Execution>)
    requires status.state == Creating && status.pid == None
    ensures Legal(xs)
    ensures InState(Replay(Trace(xs)), status.id, Running) && Replay(Trace(xs))[status.id].status.pid == None
  {
    var running := status.(state := Running);
    var x := Start(status.id, pid, [], [Write(running)], Failed);
    var prior := ReachCreated(status);
    OneMoreCommand(prior, x);
    AfterOneMore(Trace(prior), Write(running), status.id);
    xs := prior + [x];
  }

  lemma ReachRunning(status: ContainerStatus, pid: Pid) returns (xs: seq<Execution>)
    requires status.state == Creating && status.pid == None
    ensures Legal(xs)
    ensures status.id in Replay(Trace(xs))
    ensures Replay(Trace(xs))[status.id] == Readable(status.(state := Running, pid := Some(pid)))
  {
    var running := status.(state := Running);
    var started := running.(pid := Some(pid));
    var prior := ReachCreated(status);
    var first, last := [Write(running), Spawn(status.id, pid)], [Write(started)] + [];
    var x := Start(status.id, pid, [], first + last, Done);
    OneMoreCommand(prior, x);
    LastWrite(Trace(prior) + first, started, []);
    xs := prior + [x];
    assert Trace(xs) == Trace(prior) + first + last;
  }

  // `stop` ends between its two writes when the second fails.
  lemma ReachStoppedWithPid(status: ContainerStatus, pid: Pid) returns (xs: seq<Execution>)
    requires status.state == Creating && status.pid == None
    ensures Legal(xs)
    ensures InState(Replay(Trace(xs)), status.id, Stopped) && Replay(Trace(xs))[status.id].status.pid == Some(pid)
  {
    var started := status.(state := Running, pid := Some(pid));
    var stopped := started.(state := Stopped);
    var kills := Kills(started, [15]);
    var x := Stop(status.id, Processes.StopEnd(true, [15]), [], kills + [Write(stopped)], Failed);
    var prior := ReachRunning(status, pid);
    OneMoreCommand(prior, x);
    AfterOneMore(Trace(prior) + kills, Write(stopped), status.id);
    xs := prior + [x];
    assert Trace(xs) == Trace(prior) + kills + [Write(stopped)];
  }

  // And it fails both ways.
  lemma PidRuleFails(status: ContainerStatus, pid: Pid)
    requires status.state == Creating && status.pid == None
    ensures exists xs :: Legal(xs) && InState(Replay(Trace(xs)), status.id, Running)
                         && Replay(Trace(xs))[status.id].status.pid == None
    ensures exists xs :: Legal(xs) && InState(Replay(Trace(xs)), status.id, Stopped)
                         && Replay(Trace(xs))[status.id].status.pid == Some(pid)
  {
    var xs := ReachRunningWithoutPid(status, pid);
    var ys := ReachStoppedWithPid(status, pid);
  }

  lemma ReachOrphan(status: ContainerStatus, pid: Pid) returns (xs: seq<Execution>)
    requires status.state == Creating && status.pid == None
    ensures Legal(xs) && |xs| == 2
    ensures var running := status.(state := Running);
            && status.id in Replay(Trace(xs)) && Replay(Trace(xs))[status.id] == Readable(running)
            && Trace(xs) == [Write(status), Write(status.(state := Created)), Write(running), Spawn(status.id, pid)]
  {
    var running := Write(status.(state := Running));
    var x := Start(status.id, pid, [], [running, Spawn(status.id, pid)], Crashed);
    var prior := ReachCreated(status);
    OneMoreCommand(prior, x);
    AfterOneMore(Trace(prior), running, status.id);
    AfterOneMore(Trace(prior) + [running], Spawn(status.id, pid), status.id);
    xs := prior + [x];
    assert Trace(xs) == Trace(prior) + [running] + [Spawn(status.id, pid)];
  }

  lemma StopOrphan(xs: seq<Execution>, running: ContainerStatus) returns (x: Execution)
    requires Legal(xs) && running.state == Running && running.pid == None
    requires running.id in Replay(Trace(xs)) && Replay(Trace(xs))[running.id] == Readable(running)
    ensures var stopped := running.(state := Stopped);
            && Legal(xs + [x]) && x.Stop? && x.outcome.Done?
            && Trace(xs + [x]) == Trace(xs) + [Write(stopped), Write(stopped)]
            && InState(Replay(Trace(xs + [x])), running.id, Stopped)
  {
    var stopped := Write(running.(state := Stopped));
    assert Kills(running, []) + [stopped] + ([stopped] + Launches(stopped.status, [])) == [stopped, stopped];
    x := Stop(running.id, Processes.StopEnd(true, []), [], [stopped, stopped], Done);
    OneMoreCommand(xs, x);
    AfterOneMore(Trace(xs) + [stopped], stopped, running.id);
    assert Trace(xs) + [stopped, stopped] == Trace(xs) + [stopped] + [stopped];
  }

  // A process orphaned by a `start` that ended before it saved the pid: `stop` and `delete` succeed,
  // and the process is never signalled.
  lemma OrphanIsReachable(status: ContainerStatus, pid: Pid) returns (xs: seq<Execution>)
    requires status.state == Creating && status.pid == None
    ensures Legal(xs) && |xs| == 4 && xs[2].Stop? && xs[2].outcome.Done? && xs[3].Delete? && xs[3].outcome.Done?
    ensures var running, stopped := status.(state := Running), status.(state := Stopped);
            Trace(xs) == [Write(status), Write(status.(state := Created)), Write(running), Spawn(status.id, pid)]
                         + [Write(stopped), Write(stopped)]
                         + [Remove(status.id)]
  {
    var orphaned := ReachOrphan(status, pid);
    var stop := StopOrphan(orphaned, status.(state := Running));
    var delete := Delete(status.id, [Remove(status.id)], Done);
    OneMoreCommand(orphaned + [stop], delete);
    xs := orphaned + [stop] + [delete];
  }
}
