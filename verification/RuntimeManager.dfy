/**
 The commands of the runtime, as the source writes them.

 Every save, spawn, removal and hook can fail, and the command can be interrupted before or after it.
 A manager keeps, as ghost state, the executions so far: each command is proved to add one possible
 execution, so that the theorems of `Lifecycle` hold of every manager.
 */
module RuntimeManager {
  import opened Wrappers
  import opened Lifecycle
  import MachineIntegers
  import Processes
  import Timestamp

  const SIGTERM: int := 15
  const DEFAULT_STOP_TIMEOUT: nat := 10 * Processes.SECOND

  // What the commands read of a bundle's `config.json`. `runnable` says that it has the sections a
  // process needs.
  datatype Spec = Spec(
    annotations: map<string, string>,
    prestart: Option<seq<Processes.Hook>>,
    poststart: Option<seq<Processes.Hook>>,
    poststop: Option<seq<Processes.Hook>>,
    runnable: bool)

  // What a command meets outside the store: the bundle in each directory, if it can be read, the pid of
  // the process it spawns, if that succeeds, how each hook it launches behaves, and the process it stops.
  datatype Environment = Environment(
    bundles: string -> Option<Spec>,
    spawn: Option<Pid>,
    launch: nat -> Processes.Launch,
    target: Processes.Target)
  {
    ghost predicate TimePasses() {
      && (forall i: nat :: launch(i).Some? ==> Processes.SleepsAtLeast(launch(i).value.elapsed, 50_000_000))
      && Processes.SleepsAtLeast(target.elapsed, 100_000_000)
    }

    // The hooks of a bundle for one point of the lifecycle, if it has any.
    ghost predicate HooksSucceed(hooks: Option<seq<Processes.Hook>>) {
      hooks.Some? ==> Processes.AllSucceed(hooks.value, launch)
    }

    ghost predicate AreLaunched(hooks: Option<seq<Processes.Hook>>, launched: seq<Processes.Hook>) {
      match hooks
      case None => launched == []
      case Some(list) => Processes.AreLaunched(list, launch, launched)
    }

    ghost function Launched(hooks: Option<seq<Processes.Hook>>): (launched: seq<Processes.Hook>)
      ensures AreLaunched(hooks, launched)
    {
      match hooks
      case None => []
      case Some(list) =>
        Processes.LaunchedExactly(list, launch, Processes.Launched(list, launch));
        Processes.Launched(list, launch)
    }
  }

  datatype Error =
    | NotFound
    | AlreadyExists
    | Unreadable
    | BadBundle
    | InvalidTransition(from: ContainerState, to: ContainerState)
    | NotStopped(state: ContainerState)
    | SpawnFailed
    | HookFailed
    | StopFailed
    | IoError

  // The result of a command, or of one of its effects.
  type Reply<+T> = Wrappers.Reply<T, Error>

  function OutcomeOf<T>(r: Reply<T>): Outcome {
    match r
    case Success(_) => Done
    case Failure(_) => Failed
    case Cut => Crashed
  }

  // The record of a new container.
  function NewStatus(id: Id, bundle: string, now: string, spec: Spec): ContainerStatus {
    ContainerStatus(id, Creating, None, bundle, now, spec.annotations)
  }

  // Each command without its effects and its end.
  ghost function CreatePlan(id: Id, bundle: string, now: string, env: Environment): Execution {
    match env.bundles(bundle)
    case None => Create(ContainerStatus(id, Creating, None, bundle, now, map[]), [], [], Done)
    case Some(spec) => Create(NewStatus(id, bundle, now, spec), env.Launched(spec.prestart), [], Done)
  }

  ghost function StartPlan(id: Id, spec: Option<Spec>, env: Environment): Execution {
    Start(id, env.spawn.GetOr(0), if spec.Some? then env.Launched(spec.value.poststart) else [], [], Done)
  }

  ghost function StopPlan(id: Id, stop: Processes.StopEnd, spec: Option<Spec>, env: Environment): Execution {
    Stop(id, stop, if spec.Some? then env.Launched(spec.value.poststop) else [], [], Done)
  }

  // The bundle of a container, read from the directory its record names.
  function SpecOf(store: Store, id: Id, env: Environment): Option<Spec> {
    if Loads(store, id) then env.bundles(store[id].status.bundle) else None
  }

  // The effects of a command with these around the hooks it launches, each with this status.
  ghost predicate IsScript(script: seq<Event>, first: seq<Event>, hooks: Option<seq<Processes.Hook>>,
                           status: ContainerStatus, env: Environment, last: seq<Event>)
  {
    exists launched ::
      && env.AreLaunched(hooks, launched)
      && script == first + seq(|launched|, i requires 0 <= i < |launched| => Launch(status, launched[i])) + last
  }

  lemma ScriptOfLaunched(script: seq<Event>, first: seq<Event>, hooks: Option<seq<Processes.Hook>>,
                         status: ContainerStatus, env: Environment, last: seq<Event>)
    requires script == first + Launches(status, env.Launched(hooks)) + last
    ensures IsScript(script, first, hooks, status, env, last)
  {
    var launched := env.Launched(hooks);
    assert Launches(status, launched)
        == seq(|launched|, i requires 0 <= i < |launched| => Launch(status, launched[i]));
  }

  // The stores recorded along the effects of a command are those the trace replays to.
  lemma {:induction false} ReplayAlong(trace: seq<Event>, effects: seq<Event>, stores: seq<Store>)
    requires |stores| == |effects| + 1 && stores[0] == Replay(trace)
    requires forall i :: 0 <= i < |effects| ==> stores[i + 1] == Apply(stores[i], effects[i])
    ensures Replay(trace + effects) == stores[|effects|]
  {
    if effects == [] {
      assert trace + effects == trace;
    } else {
      var n := |effects| - 1;
      ReplayAlong(trace, effects[..n], stores[..n + 1]);
      AfterOneMore(trace + effects[..n], effects[n], "");
      assert trace + effects == trace + effects[..n] + [effects[n]];
    }
  }

  // Where a script goes on with a write, the write may tear the file or take place.
  lemma NextWrite(script: seq<Event>, done: seq<Event>, status: ContainerStatus)
    requires done <= script && |done| < |script| && script[|done|] == Write(status)
    ensures CutShort(done + [Tear(status.id)], script)
    ensures done + [Write(status)] == script[..|done| + 1]
  {
    var torn := done + [Tear(status.id)];
    assert torn[..|torn| - 1] == done == script[..|torn| - 1];
  }

  lemma LaunchesOneMore(status: ContainerStatus, hooks: seq<Processes.Hook>, n: nat)
    requires n < |hooks|
    ensures Launches(status, hooks[..n + 1]) == Launches(status, hooks[..n]) + [Launch(status, hooks[n])]
  {
  }

  lemma LaunchesPrefix(status: ContainerStatus, part: seq<Processes.Hook>, hooks: seq<Processes.Hook>)
    requires part <= hooks
    ensures Launches(status, part) <= Launches(status, hooks)
  {
    forall i | 0 <= i < |part|
      ensures Launches(status, part)[i] == Launches(status, hooks)[i]
    {
      assert part[i] == hooks[i];
    }
  }

  // Hooks launched while all before them succeed are a first part of those that are launched in the end,
  // and all of those if the last one fails or there are no more.
  lemma LaunchedSoFar(hooks: seq<Processes.Hook>, launch: nat -> Processes.Launch, launched: seq<Processes.Hook>)
    requires launched <= hooks
    requires forall i :: 0 <= i < |launched| - 1 ==> Processes.Succeeds(hooks[i], launch(i))
    ensures launched <= Processes.Launched(hooks, launch)
    ensures Processes.AreLaunched(hooks, launch, launched) ==> launched == Processes.Launched(hooks, launch)
  {
    Processes.LaunchedExactly(hooks, launch, launched);
    if launched != [] {
      Processes.LaunchedNext(hooks, launch, |launched| - 1);
      assert launched == hooks[..|launched|];
    }
  }

  // A command that followed its script to some point, and how it ended.
  predicate Planned(before: Store, command: Execution, effects: seq<Event>, outcome: Outcome) {
    && CutShort(effects, Script(before, command))
    && (outcome.Done? ==> Accepts(before, command) && effects == Script(before, command))
    && (command.Create? ==> command.status.state == Creating && command.status.pid == None)
    && (command.Stop? && command.stop.ok && Loads(before, command.id) && before[command.id].status.pid.Some? ==>
          command.stop.kills != [])
  }

  lemma PlannedIsPossible(before: Store, command: Execution, effects: seq<Event>, outcome: Outcome)
    requires Planned(before, command, effects, outcome)
    ensures Possible(before, command.Ended(effects, outcome))
  {
  }

  // What the theorems about runs say of one more command.
  lemma CommandEnds(runs: seq<Execution>, before: Store, x: Execution, after: Store)
    requires Legal(runs) && before == Replay(Trace(runs))
    requires Possible(before, x) && after == Replay(Trace(runs) + x.events)
    ensures Legal(runs + [x]) && after == Replay(Trace(runs + [x]))
    ensures x.outcome.Done? ==> Achieves(after, x)
    ensures forall other :: other != x.Container() ==> SameRecord(before, after, other)
  {
    var xs := runs + [x];
    OneMoreCommand(runs, x);
    assert xs[..|xs| - 1] == runs;
    if x.outcome.Done? {
      SuccessAchieves(xs);
    }
    forall other | other != x.Container()
      ensures SameRecord(before, after, other)
    {
      OthersAreUntouched(xs, other);
    }
  }

  lemma PlannedCommandEnds(
    runs: seq<Execution>, stores: seq<Store>, command: Execution, effects: seq<Event>, outcome: Outcome)
    returns (x: Execution)
    requires Legal(runs)
    requires |stores| == |effects| + 1 && stores[0] == Replay(Trace(runs))
    requires forall i :: 0 <= i < |effects| ==> stores[i + 1] == Apply(stores[i], effects[i])
    requires Planned(stores[0], command, effects, outcome)
    ensures x == command.Ended(effects, outcome) && Possible(stores[0], x)
    ensures var after := stores[|effects|];
            && Legal(runs + [x]) && after == Replay(Trace(runs + [x]))
            && (outcome.Done? ==> Achieves(after, x))
            && forall other :: other != command.Container() ==> SameRecord(stores[0], after, other)
  {
    x := command.Ended(effects, outcome);
    PlannedIsPossible(stores[0], command, effects, outcome);
    ReplayAlong(Trace(runs), effects, stores);
    CommandEnds(runs, stores[0], x, stores[|effects|]);
  }

  // How `start` ends when nothing outside fails, and with which effects: refused, it has none, but if the
  // bundle has no process or spawning it fails, Running has been saved.
  predicate StartsWithoutFaults(status: ContainerStatus, spec: Option<Spec>, env: Environment, r: Reply<()>,
                                effects: seq<Event>)
  {
    if spec.None? then r == Failure(BadBundle) && effects == []
    else if status.state != Created then r == Failure(InvalidTransition(status.state, Running)) && effects == []
    else if spec.value.runnable && env.spawn.Some? then r.Success?
    else
      && r == Failure(if spec.value.runnable then SpawnFailed else BadBundle)
      && effects == [Write(status.(state := Running))]
  }

  lemma StartScriptIs(store: Store, id: Id, env: Environment)
    requires Loads(store, id) ==> store[id].status.id == id
    ensures InState(store, id, Created) && SpecOf(store, id, env).Some? && env.spawn.Some? ==>
              var status := store[id].status;
              var started := status.(state := Running, pid := env.spawn);
              IsScript(Script(store, StartPlan(id, SpecOf(store, id, env), env)),
                       [Write(status.(state := Running)), Spawn(id, env.spawn.value), Write(started)],
                       SpecOf(store, id, env).value.poststart, started, env, [])
  {
    if InState(store, id, Created) && SpecOf(store, id, env).Some? && env.spawn.Some? {
      var status, poststart := store[id].status, SpecOf(store, id, env).value.poststart;
      var started := status.(state := Running, pid := env.spawn);
      var first := [Write(status.(state := Running)), Spawn(id, env.spawn.value), Write(started)];
      var script := Script(store, StartPlan(id, SpecOf(store, id, env), env));
      assert script == first + Launches(started, env.Launched(poststart)) + [];
      ScriptOfLaunched(script, first, poststart, started, env, []);
    }
  }

  // The effects of a `stop` that meets no fault, when the hooks it launches are these.
  function StopEffects(status: ContainerStatus, stop: Processes.StopEnd, hooks: seq<Processes.Hook>): seq<Event> {
    if !stop.ok || status.state != Running then Kills(status, stop.kills)
    else
      var cleared := status.(state := Stopped, pid := None);
      Kills(status, stop.kills) + [Write(status.(state := Stopped))] + ([Write(cleared)] + Launches(cleared, hooks))
  }

  ghost function StopHooks(status: ContainerStatus, env: Environment): seq<Processes.Hook> {
    match env.bundles(status.bundle)
    case None => []
    case Some(spec) => env.Launched(spec.poststop)
  }

  // The `kill` calls for the process of a status.
  predicate AreKills(events: seq<Event>, status: ContainerStatus, signals: seq<int>) {
    if status.pid.None? then events == []
    else
      && |events| == |signals|
      && forall i :: 0 <= i < |events| ==> events[i] == Kill(status.id, status.pid.value, signals[i])
  }

  lemma KillsAreKills(status: ContainerStatus, signals: seq<int>)
    ensures AreKills(Kills(status, signals), status, signals)
  {
  }

  lemma StoppedTwice(status: ContainerStatus, signals: seq<int>)
    ensures var stopped, cleared := status.(state := Stopped), status.(state := Stopped, pid := None);
            var effects := Kills(status, signals) + [Write(stopped)] + [Write(cleared)];
            && AreKills(effects[..|effects| - 2], status, signals)
            && effects[|effects| - 2..] == [Write(stopped), Write(cleared)]
    ensures AreKills(Kills(status, signals), status, signals)
  {
    var stopped, cleared := status.(state := Stopped), status.(state := Stopped, pid := None);
    var effects := Kills(status, signals) + [Write(stopped)] + [Write(cleared)];
    assert effects[..|effects| - 2] == Kills(status, signals);
  }

  // The script of a `stop`: the signals, whatever the state, and from Running the two saves and the hooks.
  ghost predicate IsStopScript(script: seq<Event>, status: ContainerStatus, stop: Processes.StopEnd,
                               spec: Option<Spec>, env: Environment)
  {
    var stopped, cleared := status.(state := Stopped), status.(state := Stopped, pid := None);
    if !stop.ok || status.state != Running then AreKills(script, status, stop.kills)
    else
      spec.Some? ==>
        exists kills ::
          && AreKills(kills, status, stop.kills)
          && IsScript(script, kills + [Write(stopped), Write(cleared)], spec.value.poststop, cleared, env, [])
  }

  lemma StopScriptIs(store: Store, id: Id, stop: Processes.StopEnd, env: Environment)
    ensures var spec := SpecOf(store, id, env);
            Loads(store, id) ==>
              IsStopScript(Script(store, StopPlan(id, stop, spec, env)), store[id].status, stop, spec, env)
  {
    if Loads(store, id) {
      var status := store[id].status;
      var kills := Kills(status, stop.kills);
      KillsAreKills(status, stop.kills);
      if InState(store, id, Running) && stop.ok && SpecOf(store, id, env).Some? {
        var poststop := SpecOf(store, id, env).value.poststop;
        var stopped, cleared := status.(state := Stopped), status.(state := Stopped, pid := None);
        var script := Script(store, StopPlan(id, stop, SpecOf(store, id, env), env));
        var first := kills + [Write(stopped), Write(cleared)];
        assert script == first + Launches(cleared, env.Launched(poststop)) + [];
        ScriptOfLaunched(script, first, poststop, cleared, env, []);
      }
    }
  }

  // How a `stop` is refused when nothing outside fails. Whatever the state, all its signals have been sent.
  predicate StopRefused(status: ContainerStatus, stop: Processes.StopEnd, spec: Option<Spec>, r: Reply<()>,
                        effects: seq<Event>)
  {
    var stopped := status.(state := Stopped);
    if !stop.ok || status.state != Running then
      && r == Failure(if !stop.ok then StopFailed else InvalidTransition(status.state, Stopped))
      && AreKills(effects, status, stop.kills)
    else
      && r == Failure(BadBundle) && spec.None?
      && |effects| >= 2 && AreKills(effects[..|effects| - 2], status, stop.kills)
      && effects[|effects| - 2..] == [Write(stopped), Write(stopped.(pid := None))]
  }

  class RuntimeManager {
    var store: Store

    // The commands so far, and of the one under way its effects so far, the store before each of them
    // and now, and its script.
    ghost var runs: seq<Execution>
    ghost var effects: seq<Event>
    ghost var stores: seq<Store>
    ghost var plan: seq<Event>

    // How often an effect has failed for no reason of the command's own, or the command was cut off.
    ghost var faults: nat

    ghost predicate Chained()
      reads this
    {
      && |stores| == |effects| + 1
      && forall i :: 0 <= i < |effects| ==> stores[i + 1] == Apply(stores[i], effects[i])
    }

    ghost predicate UnderWay()
      reads this
    {
      Chained() && store == stores[|effects|]
    }

    // The command under way has not left its script.
    ghost predicate OnPlan()
      reads this
    {
      UnderWay() && effects <= plan
    }

    ghost predicate NextIs(e: Event)
      reads this
    {
      OnPlan() && |effects| < |plan| && plan[|effects|] == e
    }

    // Between commands.
    ghost predicate Valid()
      reads this
    {
      effects == [] && stores == [store] && Legal(runs) && store == Replay(Trace(runs))
    }

    constructor ()
      ensures Valid() && store == map[] && runs == []
    {
      store, runs, effects, stores, plan, faults := map[], [], [], [map[]], [], 0;
    }

    // ---------------------------------------------------------------- effects

    ghost method Record(e: Event)
      requires Chained() && store == Apply(stores[|effects|], e)
      modifies this`effects, this`stores
      ensures UnderWay() && stores[0] == old(stores)[0]
      ensures effects == old(effects) + [e]
    {
      effects, stores := effects + [e], stores + [store];
    }

    // An interrupted save leaves the file as it was, torn, or written.
    method SaveStatus(status: ContainerStatus) returns (r: Reply<()>)
      requires NextIs(Write(status))
      modifies this`store, this`effects, this`stores, this`faults
      ensures stores != [] && stores[0] == old(stores)[0]
      ensures UnderWay() && CutShort(effects, plan)
      ensures r.Success? ==> OnPlan() && effects == old(effects) + [Write(status)]
      ensures r.Success? ==> store == old(store)[status.id := Readable(status)]
      ensures r.Failure? ==> r.error == IoError
      ensures faults == if r.Success? then old(faults) else old(faults) + 1
    {
      var fails, torn, late := *, *, *;
      NextWrite(plan, effects, status);
      if fails || late {
        faults := faults + 1;
      }
      if fails {
        if torn {
          store := store[status.id := Torn];
          Record(Tear(status.id));
        }
        var cut := *;
        return if cut then Cut else Failure(IoError);
      }
      store := store[status.id := Readable(status)];
      Record(Write(status));
      return if late then Cut else Success(());
    }

    method LoadStatus(id: Id) returns (r: Reply<ContainerStatus>)
      modifies this`faults
      ensures faults == if Loads(store, id) && !r.Success? then old(faults) + 1 else old(faults)
      ensures r.Success? ==> id in store && store[id] == Readable(r.value)
      ensures id !in store <==> r == Failure(NotFound)
      ensures id in store && store[id] == Torn ==> r == Failure(Unreadable)
      ensures r.Failure? ==> r.error in {NotFound, Unreadable, IoError}
      ensures r != Cut
    {
      if id !in store {
        return Failure(NotFound);
      }
      match store[id]
      case Readable(status) =>
        var fails := *;
        if fails {
          faults := faults + 1;
        }
        return if fails then Failure(IoError) else Success(status);
      case Torn =>
        return Failure(Unreadable);
    }

    method Transition(status: ContainerStatus, to: ContainerState) returns (r: Reply<ContainerStatus>)
      requires OnPlan()
      requires status.state.CanTransitionTo(to) ==> NextIs(Write(status.(state := to)))
      modifies this`store, this`effects, this`stores, this`faults
      ensures stores != [] && stores[0] == old(stores)[0]
      ensures UnderWay() && CutShort(effects, plan)
      ensures !status.state.CanTransitionTo(to) ==>
                effects == old(effects) && store == old(store) && r == Failure(InvalidTransition(status.state, to))
      ensures r.Success? ==>
                && r.value == status.(state := to)
                && OnPlan() && effects == old(effects) + [Write(r.value)]
                && store == old(store)[status.id := Readable(r.value)]
      ensures r.Failure? && status.state.CanTransitionTo(to) ==> r.error == IoError
      ensures faults == if status.state.CanTransitionTo(to) && !r.Success? then old(faults) + 1 else old(faults)
    {
      if !status.state.CanTransitionTo(to) {
        return Failure(InvalidTransition(status.state, to));
      }
      var moved := status.(state := to);
      var saved := SaveStatus(moved);
      if saved.IsFailure() {
        return saved.PropagateFailure();
      }
      return Success(moved);
    }

    // Runs hooks in order and stops at the first that does not succeed; the command can be cut off between
    // two of them.
    method RunHooks(hooks: seq<Processes.Hook>, status: ContainerStatus, env: Environment)
      returns (r: Reply<()>, ghost launched: seq<Processes.Hook>)
      requires UnderWay() && env.TimePasses()
      modifies this`effects, this`stores, this`faults
      ensures UnderWay() && stores[0] == old(stores)[0]
      ensures effects == old(effects) + Launches(status, launched)
      ensures launched <= hooks
      ensures forall i :: 0 <= i < |launched| - 1 ==> Processes.Succeeds(hooks[i], env.launch(i))
      ensures r.Success? ==> launched == hooks && Processes.AllSucceed(hooks, env.launch)
      ensures r.Failure? ==>
                && r.error == HookFailed && launched != []
                && !Processes.Succeeds(hooks[|launched| - 1], env.launch(|launched| - 1))
      ensures faults == if r.Cut? then old(faults) + 1 else old(faults)
    {
      for i := 0 to |hooks|
        invariant UnderWay() && stores[0] == old(stores)[0] && faults == old(faults)
        invariant effects == old(effects) + Launches(status, hooks[..i])
        invariant forall j :: 0 <= j < i ==> Processes.Succeeds(hooks[j], env.launch(j))
      {
        LaunchesOneMore(status, hooks, i);
        Record(Launch(status, hooks[i]));
        launched := hooks[..i + 1];
        var ok := Processes.RunHook(hooks[i], env.launch(i));
        var cut := *;
        if cut {
          faults := faults + 1;
          return Cut, launched;
        }
        if !ok {
          return Failure(HookFailed), launched;
        }
      }
      assert hooks[..|hooks|] == hooks;
      r, launched := Success(()), hooks;
    }

    // Runs the hooks of a bundle for one point of the lifecycle, if it has any.
    method CallHooks(hooks: Option<seq<Processes.Hook>>, status: ContainerStatus, env: Environment)
      returns (r: Reply<()>)
      requires OnPlan() && env.TimePasses()
      requires effects + Launches(status, env.Launched(hooks)) <= plan
      modifies this`effects, this`stores, this`faults
      ensures stores != [] && stores[0] == old(stores)[0]
      ensures OnPlan()
      ensures !r.Cut? ==> effects == old(effects) + Launches(status, env.Launched(hooks))
      ensures r.Success? ==> env.HooksSucceed(hooks)
      ensures r.Failure? ==> r.error == HookFailed && !env.HooksSucceed(hooks)
      ensures faults == if r.Cut? then old(faults) + 1 else old(faults)
    {
      match hooks
      case None =>
        return Success(());
      case Some(list) =>
        ghost var launched;
        r, launched := RunHooks(list, status, env);
        LaunchedSoFar(list, env.launch, launched);
        LaunchesPrefix(status, launched, env.Launched(hooks));
    }

    method SpawnProcess(id: Id, env: Environment) returns (r: Reply<Pid>)
      requires OnPlan() && (env.spawn.Some? ==> NextIs(Spawn(id, env.spawn.value)))
      modifies this`effects, this`stores, this`faults
      ensures stores != [] && stores[0] == old(stores)[0]
      ensures OnPlan()
      ensures r.Success? ==> env.spawn == Some(r.value) && |effects| == |old(effects)| + 1
      ensures r.Failure? ==> r.error == SpawnFailed && env.spawn.None? && effects == old(effects)
      ensures faults == if r.Cut? then old(faults) + 1 else old(faults)
    {
      if env.spawn.None? {
        return Failure(SpawnFailed);
      }
      Record(Spawn(id, env.spawn.value));
      var cut := *;
      if cut {
        faults := faults + 1;
      }
      return if cut then Cut else Success(env.spawn.value);
    }

    // The `kill` calls made for a process; the command can be cut off between two of them.
    method SendSignals(status: ContainerStatus, signals: seq<int>) returns (r: Reply<()>)
      requires OnPlan() && status.pid.Some? && |effects| + |signals| <= |plan|
      requires forall i :: 0 <= i < |signals| ==>
                 plan[|effects| + i] == Kill(status.id, status.pid.value, signals[i])
      modifies this`effects, this`stores, this`faults
      ensures stores != [] && stores[0] == old(stores)[0]
      ensures OnPlan()
      ensures r.Success? ==> |effects| == |old(effects)| + |signals|
      ensures !r.Failure?
      ensures faults == if r.Cut? then old(faults) + 1 else old(faults)
    {
      for i := 0 to |signals|
        invariant OnPlan() && |effects| == |old(effects)| + i && stores[0] == old(stores)[0]
        invariant faults == old(faults)
      {
        Record(Kill(status.id, status.pid.value, signals[i]));
        var cut := *;
        if cut {
          faults := faults + 1;
          return Cut;
        }
      }
      r := Success(());
    }

    // ---------------------------------------------------------------- finishing a command

    ghost method Append(x: Execution)
      requires Legal(runs + [x]) && store == Replay(Trace(runs + [x]))
      modifies this`runs, this`effects, this`stores
      ensures Valid() && runs == old(runs) + [x]
    {
      runs, effects, stores := runs + [x], [], [store];
    }

    // Adds the command under way to the history, where the theorems about runs apply to it. `command`
    // is that command, without its effects and its end.
    ghost method Finish(command: Execution, outcome: Outcome) returns (x: Execution)
      requires UnderWay() && Legal(runs) && stores[0] == Replay(Trace(runs))
      requires Planned(stores[0], command, effects, outcome)
      modifies this`runs, this`effects, this`stores
      ensures Valid() && runs == old(runs) + [x]
      ensures x == command.Ended(old(effects), outcome) && Possible(old(stores)[0], x)
      ensures outcome.Done? ==> Achieves(store, x)
      ensures forall other :: other != command.Container() ==> SameRecord(old(stores)[0], store, other)
    {
      x := PlannedCommandEnds(runs, stores, command, effects, outcome);
      Append(x);
    }

    // Between commands, a record that can be loaded has the id it is stored under, and no pid if Created.
    lemma RecordHasItsId(id: Id)
      requires Valid()
      ensures Loads(store, id) ==> store[id].status.id == id
      ensures InState(store, id, Created) ==> store[id].status.pid == None
    {
      RunIsConsistent(runs);
      assert Consistent(Trace(runs), id);
    }

    // ---------------------------------------------------------------- create

    // The body of `create`, once the bundle has been read and the id found free.
    method CreateSteps(status: ContainerStatus, prestart: Option<seq<Processes.Hook>>, env: Environment)
      returns (r: Reply<ContainerStatus>)
      requires Valid() && env.TimePasses()
      requires status.state == Creating
      requires plan == [Write(status)] + Launches(status, env.Launched(prestart)) + [Write(status.(state := Created))]
      modifies this`store, this`effects, this`stores, this`faults
      ensures stores != [] && stores[0] == old(stores)[0]
      ensures UnderWay() && CutShort(effects, plan)
      ensures r.Success? ==> effects == plan && r.value == status.(state := Created) && env.HooksSucceed(prestart)
      ensures r.Failure? ==> r.error in {IoError, HookFailed}
      ensures faults >= old(faults)
      ensures faults == old(faults) ==> (r.Success? <==> env.HooksSucceed(prestart))
      ensures faults == old(faults) && !r.Success? ==>
                && r == Failure(HookFailed)
                && effects == [Write(status)] + Launches(status, env.Launched(prestart))
                && status.id in store && store[status.id] == Readable(status)
    {
      var saved := SaveStatus(status);
      if saved.IsFailure() {
        return saved.PropagateFailure();
      }
      var hooks := CallHooks(prestart, status, env);
      if hooks.IsFailure() {
        return hooks.PropagateFailure();
      }
      r := Transition(status, Created);
    }

    method CreateIfFree(id: Id, bundle: string, now: string, env: Environment) returns (r: Reply<ContainerStatus>)
      requires Valid() && env.TimePasses()
      requires plan == Script(store, CreatePlan(id, bundle, now, env))
      modifies this`store, this`effects, this`stores, this`faults
      ensures stores != [] && stores[0] == old(store)
      ensures UnderWay() && CutShort(effects, plan)
      ensures r.Success? ==> effects == plan
      ensures id in old(store) <==> r == Failure(AlreadyExists)
      ensures id !in old(store) && env.bundles(bundle).None? <==> r == Failure(BadBundle)
      ensures id in old(store) || env.bundles(bundle).None? ==> store == old(store) && effects == []
      ensures id !in old(store) && env.bundles(bundle).Some? ==>
                var spec := env.bundles(bundle).value;
                var status := ContainerStatus(id, Creating, None, bundle, now, spec.annotations);
                && IsScript(plan, [Write(status)], spec.prestart, status, env, [Write(status.(state := Created))])
                && (r.Success? ==> r.value == status.(state := Created) && env.HooksSucceed(spec.prestart))
                && (faults == old(faults) && !r.Success? ==>
                      && r == Failure(HookFailed)
                      && IsScript(effects, [Write(status)], spec.prestart, status, env, [])
                      && id in store && store[id] == Readable(status))
                && (faults == old(faults) ==> (r.Success? <==> env.HooksSucceed(spec.prestart)))
      ensures faults >= old(faults)
    {
      if id in store {
        return Failure(AlreadyExists);
      }
      match env.bundles(bundle)
      case None =>
        return Failure(BadBundle);
      case Some(spec) =>
        var status := NewStatus(id, bundle, now, spec);
        ScriptOfLaunched(plan, [Write(status)], spec.prestart, status, env, [Write(status.(state := Created))]);
        r := CreateSteps(status, spec.prestart, env);
        if faults == old(faults) && !r.Success? {
          assert effects == [Write(status)] + Launches(status, env.Launched(spec.prestart)) + [];
          ScriptOfLaunched(effects, [Write(status)], spec.prestart, status, env, []);
        }
    }

    // Whatever the outcome, the execution `x` is added to the history, so the theorems about runs hold
    // of it; success leaves the status just built, in Created, after all prestart hooks succeeded.
    method CreateContainer(id: Id, bundle: string, now: string, env: Environment)
      returns (r: Reply<ContainerStatus>, ghost x: Execution)
      requires Valid() && env.TimePasses()
      modifies this
      ensures Valid() && runs == old(runs) + [x] && Possible(old(store), x)
      ensures x.Create? && x.status.id == id && x.outcome == OutcomeOf(r)
      ensures id in old(store) <==> r == Failure(AlreadyExists)
      ensures id !in old(store) && env.bundles(bundle).None? <==> r == Failure(BadBundle)
      ensures id in old(store) || env.bundles(bundle).None? ==> store == old(store) && x.events == []
      // The record, the hooks it is passed to, and the order of the effects.
      ensures id !in old(store) && env.bundles(bundle).Some? ==>
                var spec := env.bundles(bundle).value;
                && x.status == ContainerStatus(id, Creating, None, bundle, now, spec.annotations)
                && IsScript(plan, [Write(x.status)], spec.prestart, x.status, env, [Write(x.status.(state := Created))])
                && CutShort(x.events, plan)
                && (r.Success? ==> x.events == plan)
      ensures r.Success? ==>
                && r.value == ContainerStatus(id, Created, None, bundle, now, env.bundles(bundle).value.annotations)
                && id in store && store[id] == Readable(r.value)
                && env.HooksSucceed(env.bundles(bundle).value.prestart)
      ensures faults == old(faults) ==>
                (r.Success? <==>
                   && id !in old(store) && env.bundles(bundle).Some?
                   && env.HooksSucceed(env.bundles(bundle).value.prestart))
      // A failing hook leaves the container in Creating.
      ensures faults == old(faults) && id !in old(store) && env.bundles(bundle).Some? && !r.Success? ==>
                && r == Failure(HookFailed)
                && IsScript(x.events, [Write(x.status)], env.bundles(bundle).value.prestart, x.status, env, [])
                && id in store && store[id] == Readable(x.status)
      ensures forall other :: other != id ==> SameRecord(old(store), store, other)
    {
      ghost var command := CreatePlan(id, bundle, now, env);
      plan := Script(store, command);
      r := CreateIfFree(id, bundle, now, env);
      x := Finish(command, OutcomeOf(r));
    }

    // `create` records the time of the system clock, in a form that reads back as that second, or as the
    // epoch if the clock is set before it.
    method CreateContainerNow(id: Id, bundle: string, clock: Option<MachineIntegers.u64>, env: Environment)
      returns (r: Reply<ContainerStatus>, ghost x: Execution)
      requires Valid() && env.TimePasses()
      modifies this
      ensures Valid() && runs == old(runs) + [x] && x.Create? && x.status.id == id && x.outcome == OutcomeOf(r)
      ensures r.Success? ==>
                && env.bundles(bundle).Some?
                && r.value.annotations == env.bundles(bundle).value.annotations
                && r.value == ContainerStatus(id, Created, None, bundle, r.value.created, r.value.annotations)
                && Timestamp.ReadAnyYear(r.value.created) == Some(if clock.Some? then clock.value as nat else 0)
                && id in store && store[id] == Readable(r.value)
    {
      var now := Timestamp.NowRfc3339(clock);
      r, x := CreateContainer(id, bundle, now, env);
      Timestamp.ReadsBackAlways(if clock.Some? then clock.value else 0);
    }

    // ---------------------------------------------------------------- start

    method StartSteps(status: ContainerStatus, spec: Spec, env: Environment) returns (r: Reply<()>)
      requires Valid() && env.TimePasses()
      requires status.state == Created ==>
                 var running := status.(state := Running);
                 var started := running.(pid := Some(env.spawn.GetOr(0)));
                 plan == [Write(running), Spawn(status.id, env.spawn.GetOr(0))]
                         + ([Write(started)] + Launches(started, env.Launched(spec.poststart)))
      modifies this`store, this`effects, this`stores, this`faults
      ensures stores != [] && stores[0] == old(stores)[0]
      ensures UnderWay() && CutShort(effects, plan)
      ensures r.Success? ==>
                && status.state == Created && env.spawn.Some? && effects == plan
                && status.id in store && store[status.id] == Readable(status.(state := Running, pid := env.spawn))
      ensures status.state != Created ==> r == Failure(InvalidTransition(status.state, Running)) && effects == []
      ensures r.Failure? && status.state == Created ==> r.error in {IoError, BadBundle, SpawnFailed}
      ensures faults >= old(faults)
      ensures faults == old(faults) ==> (r.Success? <==> status.state == Created && spec.runnable && env.spawn.Some?)
      ensures status.state != Created ==> store == old(store)
      ensures faults == old(faults) ==> StartsWithoutFaults(status, Some(spec), env, r, effects)
      ensures faults == old(faults) && !r.Success? && effects != [] ==>
                InState(store, status.id, Running) && store[status.id].status == status.(state := Running)
    {
      var moved := Transition(status, Running);
      if moved.IsFailure() {
        return moved.PropagateFailure();
      }
      var running := moved.value;
      if !spec.runnable {
        return Failure(BadBundle);
      }
      var spawned := SpawnProcess(status.id, env);
      if spawned.IsFailure() {
        return spawned.PropagateFailure();
      }
      running := running.(pid := Some(spawned.value));
      var saved := SaveStatus(running);
      if saved.IsFailure() {
        return saved.PropagateFailure();
      }
      var hooks := CallHooks(spec.poststart, running, env);
      // A failing poststart hook does not stop the container.
      return if hooks.Cut? then Cut else Success(());
    }

    method LoadAndStart(id: Id, env: Environment) returns (r: Reply<()>)
      requires Valid() && env.TimePasses()
      requires plan == Script(store, StartPlan(id, SpecOf(store, id, env), env))
      requires Loads(store, id) ==> store[id].status.id == id
      modifies this`store, this`effects, this`stores, this`faults
      ensures stores != [] && stores[0] == old(store)
      ensures UnderWay() && CutShort(effects, plan)
      ensures id !in old(store) <==> r == Failure(NotFound)
      ensures r.Success? ==>
                && InState(old(store), id, Created) && SpecOf(old(store), id, env).Some? && env.spawn.Some?
                && effects == plan
                && id in store && store[id] == Readable(old(store)[id].status.(state := Running, pid := env.spawn))
      ensures !InState(old(store), id, Created) ==> !r.Success? && effects == [] && store == old(store)
      ensures id in old(store) && !InState(old(store), id, Created) ==> r.Failure?
      ensures r.Failure? && r.error.InvalidTransition? ==>
                && Loads(old(store), id) && old(store)[id].status.state != Created
                && r.error == InvalidTransition(old(store)[id].status.state, Running)
      ensures faults >= old(faults)
      ensures faults == old(faults) && Loads(old(store), id) ==>
                StartsWithoutFaults(old(store)[id].status, SpecOf(old(store), id, env), env, r, effects)
      ensures faults == old(faults) && !r.Success? && effects != [] ==>
                InState(store, id, Running) && store[id].status.pid == old(store)[id].status.pid
    {
      var loaded := LoadStatus(id);
      if loaded.IsFailure() {
        r := loaded.PropagateFailure();
      } else {
        match env.bundles(loaded.value.bundle)
        case None => r := Failure(BadBundle);
        case Some(spec) => r := StartSteps(loaded.value, spec, env);
      }
    }

    method StartContainer(id: Id, env: Environment) returns (r: Reply<()>, ghost x: Execution)
      requires Valid() && env.TimePasses()
      modifies this
      ensures Valid() && runs == old(runs) + [x] && Possible(old(store), x)
      ensures x.Start? && x.id == id && x.outcome == OutcomeOf(r)
      ensures id !in old(store) <==> r == Failure(NotFound)
      ensures id in old(store) && !InState(old(store), id, Created) ==>
                r.Failure? && store == old(store) && x.events == []
      ensures r.Failure? && r.error.InvalidTransition? ==>
                && Loads(old(store), id) && old(store)[id].status.state != Created
                && r.error == InvalidTransition(old(store)[id].status.state, Running)
      ensures r.Success? ==>
                && InState(old(store), id, Created) && env.spawn.Some?
                && id in store && store[id] == Readable(old(store)[id].status.(state := Running, pid := env.spawn))
      // The order of the effects, with the hooks of the bundle that the record names.
      ensures InState(old(store), id, Created) && SpecOf(old(store), id, env).Some? && env.spawn.Some? ==>
                var status, spec := old(store)[id].status, env.bundles(old(store)[id].status.bundle).value;
                var started := status.(state := Running, pid := env.spawn);
                && IsScript(plan, [Write(status.(state := Running)), Spawn(id, env.spawn.value), Write(started)],
                            spec.poststart, started, env, [])
                && CutShort(x.events, plan)
                && (r.Success? ==> x.events == plan)
      ensures faults == old(faults) ==>
                (r.Success? <==>
                   && InState(old(store), id, Created) && SpecOf(old(store), id, env).Some?
                   && SpecOf(old(store), id, env).value.runnable && env.spawn.Some?)
      ensures faults == old(faults) && Loads(old(store), id) ==>
                StartsWithoutFaults(old(store)[id].status, env.bundles(old(store)[id].status.bundle), env, r, x.events)
      // A `start` that fails after its first save leaves the container Running without a pid.
      ensures faults == old(faults) && !r.Success? && x.events != [] ==>
                InState(store, id, Running) && store[id].status.pid == None
      ensures forall other :: other != id ==> SameRecord(old(store), store, other)
    {
      RecordHasItsId(id);
      ghost var command := StartPlan(id, SpecOf(store, id, env), env);
      plan := Script(store, command);
      StartScriptIs(store, id, env);
      r := LoadAndStart(id, env);
      x := Finish(command, OutcomeOf(r));
    }

    // ---------------------------------------------------------------- stop

    // The saves of `stop` and its hooks, once the process has been dealt with.
    method SaveStopped(status: ContainerStatus, stop: Processes.StopEnd, env: Environment) returns (r: Reply<()>)
      requires OnPlan() && env.TimePasses() && stop.ok
      requires plan == StopEffects(status, stop, StopHooks(status, env)) && effects == Kills(status, stop.kills)
      modifies this`store, this`effects, this`stores, this`faults
      ensures stores != [] && stores[0] == old(stores)[0]
      ensures UnderWay() && CutShort(effects, plan)
      ensures r.Success? ==>
                && status.state == Running && env.bundles(status.bundle).Some? && effects == plan
                && status.id in store && store[status.id] == Readable(status.(state := Stopped, pid := None))
      ensures r.Failure? ==> match r.error
        case InvalidTransition(from, to) => status.state == from != Running && to == Stopped
        case BadBundle => env.bundles(status.bundle).None?
        case error => error == IoError
      ensures status.state != Running ==> store == old(store)
      ensures faults >= old(faults)
      ensures faults == old(faults) ==> (r.Success? <==> status.state == Running && env.bundles(status.bundle).Some?)
      ensures faults == old(faults) && !r.Success? ==>
                if status.state != Running then
                  r == Failure(InvalidTransition(status.state, Stopped)) && effects == Kills(status, stop.kills)
                else
                  var stopped, cleared := status.(state := Stopped), status.(state := Stopped, pid := None);
                  r == Failure(BadBundle) && effects == Kills(status, stop.kills) + [Write(stopped)] + [Write(cleared)]
    {
      var moved := Transition(status, Stopped);
      if moved.IsFailure() {
        return moved.PropagateFailure();
      }
      var cleared := moved.value.(pid := None);
      var saved := SaveStatus(cleared);
      if saved.IsFailure() {
        return saved.PropagateFailure();
      }
      match env.bundles(cleared.bundle)
      case None =>
        return Failure(BadBundle);
      case Some(spec) =>
        Associative(Kills(status, stop.kills) + [Write(moved.value)], [Write(cleared)],
                    Launches(cleared, StopHooks(status, env)));
        var hooks := CallHooks(spec.poststop, cleared, env);
        return if hooks.Cut? then Cut else Success(());
    }

    method StopSteps(status: ContainerStatus, stop: Processes.StopEnd, env: Environment) returns (r: Reply<()>)
      requires Valid() && env.TimePasses()
      requires status.pid.None? ==> stop == Processes.StopEnd(true, [])
      requires plan == StopEffects(status, stop, StopHooks(status, env))
      modifies this`store, this`effects, this`stores, this`faults
      ensures stores != [] && stores[0] == old(stores)[0]
      ensures UnderWay() && CutShort(effects, plan)
      ensures r.Success? ==>
                && status.state == Running && stop.ok && env.bundles(status.bundle).Some? && effects == plan
                && status.id in store && store[status.id] == Readable(status.(state := Stopped, pid := None))
      ensures r.Failure? ==> match r.error
        case StopFailed => !stop.ok
        case InvalidTransition(from, to) => status.state == from != Running && to == Stopped
        case BadBundle => env.bundles(status.bundle).None?
        case error => error == IoError
      ensures status.state != Running ==> store == old(store)
      ensures faults >= old(faults)
      ensures faults == old(faults) ==>
                (r.Success? <==> status.state == Running && stop.ok && env.bundles(status.bundle).Some?)
      ensures faults == old(faults) && !r.Success? ==> StopRefused(status, stop, env.bundles(status.bundle), r, effects)
    {
      if status.pid.Some? {
        var sent := SendSignals(status, stop.kills);
        if sent.IsFailure() {
          return sent.PropagateFailure();
        }
        KillsAreKills(status, stop.kills);
        if !stop.ok {
          return Failure(StopFailed);
        }
      }
      r := SaveStopped(status, stop, env);
      StoppedTwice(status, stop.kills);
    }

    // Only a status with a pid has a process to stop.
    method StopProcessOf(status: ContainerStatus, signal: int, timeout: nat, env: Environment)
      returns (stop: Processes.StopEnd)
      requires env.TimePasses()
      ensures if status.pid.Some? then stop == Processes.StopResult(env.target, signal, timeout)
              else stop == Processes.StopEnd(true, [])
      ensures status.pid.Some? && stop.ok ==> stop.kills != []
    {
      stop := Processes.StopEnd(true, []);
      if status.pid.Some? {
        var polls;
        stop, polls := Processes.StopProcess(env.target, signal, timeout);
        Processes.StopSucceedsExactly(env.target, signal, timeout, stop);
      }
    }

    method LoadAndStop(id: Id, signal: int, timeout: nat, env: Environment)
      returns (r: Reply<()>, stop: Processes.StopEnd)
      requires Valid() && env.TimePasses()
      requires Loads(store, id) ==> store[id].status.id == id
      modifies this`store, this`effects, this`stores, this`plan, this`faults
      ensures stores != [] && stores[0] == old(store)
      ensures UnderWay() && CutShort(effects, plan)
      ensures plan == Script(old(store), StopPlan(id, stop, SpecOf(old(store), id, env), env))
      ensures r.Success? ==>
                && effects == plan && InState(old(store), id, Running) && stop.ok && SpecOf(old(store), id, env).Some?
                && id in store && store[id] == Readable(old(store)[id].status.(state := Stopped, pid := None))
      ensures stop.ok && Loads(old(store), id) && old(store)[id].status.pid.Some? ==> stop.kills != []
      ensures id !in old(store) <==> r == Failure(NotFound)
      ensures !Loads(old(store), id) ==> effects == [] && r.Failure?
      ensures Loads(old(store), id) ==>
                if old(store)[id].status.pid.None? then stop == Processes.StopEnd(true, [])
                else
                  effects != [] || faults == old(faults) ==>
                    stop == Processes.StopResult(env.target, signal, timeout)
      ensures Loads(old(store), id) ==>
                IsStopScript(plan, old(store)[id].status, stop, SpecOf(old(store), id, env), env)
      ensures !InState(old(store), id, Running) ==> store == old(store)
      ensures faults >= old(faults)
      ensures faults == old(faults) && Loads(old(store), id) && !r.Success? ==>
                StopRefused(old(store)[id].status, stop, SpecOf(old(store), id, env), r, effects)
    {
      var loaded := LoadStatus(id);
      if loaded.IsFailure() {
        stop := Processes.StopEnd(Loads(store, id) && store[id].status.pid.None?, []);
        plan := Script(store, StopPlan(id, stop, SpecOf(store, id, env), env));
        StopScriptIs(store, id, stop, env);
        r := loaded.PropagateFailure();
      } else {
        stop := StopProcessOf(loaded.value, signal, timeout, env);
        plan := StopEffects(loaded.value, stop, StopHooks(loaded.value, env));
        StopScriptIs(store, id, stop, env);
        r := StopSteps(loaded.value, stop, env);
      }
    }

    // The process is dealt with before the state is looked at: whatever the state, a recorded process is
    // sent the signal, and a refused `stop` has sent all the signals of one that is not.
    method StopContainer(id: Id, signal: Option<int>, timeout: Option<nat>, env: Environment)
      returns (r: Reply<()>, ghost x: Execution)
      requires Valid() && env.TimePasses()
      modifies this
      ensures Valid() && runs == old(runs) + [x] && Possible(old(store), x)
      ensures x.Stop? && x.id == id && x.outcome == OutcomeOf(r)
      ensures id !in old(store) <==> r == Failure(NotFound)
      ensures Loads(old(store), id) && old(store)[id].status.pid.None? ==> x.stop == Processes.StopEnd(true, [])
      // By default SIGTERM and ten seconds.
      ensures Loads(old(store), id) && old(store)[id].status.pid.Some? && (x.events != [] || faults == old(faults)) ==>
                x.stop == Processes.StopResult(env.target, signal.GetOr(15), timeout.GetOr(10_000_000_000))
      ensures r.Success? ==>
                && InState(old(store), id, Running) && x.stop.ok
                && id in store && store[id] == Readable(old(store)[id].status.(state := Stopped, pid := None))
      // The order of the effects, with the hooks of the bundle that the record names.
      ensures Loads(old(store), id) ==>
                && IsStopScript(plan, old(store)[id].status, x.stop, env.bundles(old(store)[id].status.bundle), env)
                && CutShort(x.events, plan)
                && (r.Success? ==> x.events == plan)
      ensures faults == old(faults) ==>
                (r.Success? <==> InState(old(store), id, Running) && x.stop.ok && SpecOf(old(store), id, env).Some?)
      ensures !InState(old(store), id, Running) ==> store == old(store)
      ensures !Loads(old(store), id) ==> x.events == [] && r.Failure?
      ensures faults == old(faults) && Loads(old(store), id) && !r.Success? ==>
                StopRefused(old(store)[id].status, x.stop, env.bundles(old(store)[id].status.bundle), r, x.events)
      ensures forall other :: other != id ==> SameRecord(old(store), store, other)
    {
      var stop;
      RecordHasItsId(id);
      r, stop := LoadAndStop(id, signal.GetOr(SIGTERM), timeout.GetOr(DEFAULT_STOP_TIMEOUT), env);
      x := Finish(StopPlan(id, stop, SpecOf(old(store), id, env), env), OutcomeOf(r));
    }

    // Whatever the state, `stop` sends its signal to the recorded process first. So when a `stop` has failed
    // between its two saves, every later one signals the stale pid, is refused, and leaves it recorded.
    method StopRecordedProcess(id: Id, signal: int, timeout: Option<nat>, env: Environment)
      returns (r: Reply<()>, ghost x: Execution)
      requires Valid() && env.TimePasses() && 1 <= signal <= 31
      requires Loads(store, id) && store[id].status.pid.Some?
      modifies this
      ensures Valid() && runs == old(runs) + [x]
      ensures faults == old(faults) ==>
                x.events != [] && x.events[0] == Kill(id, old(store)[id].status.pid.value, signal)
      ensures InState(old(store), id, Stopped) ==> !r.Success? && store == old(store)
    {
      RecordHasItsId(id);
      r, x := StopContainer(id, Some(signal), timeout, env);
    }

    // ---------------------------------------------------------------- delete

    method DeleteContainer(id: Id) returns (r: Reply<()>, ghost x: Execution)
      requires Valid()
      modifies this
      ensures Valid() && runs == old(runs) + [x] && Possible(old(store), x)
      ensures x == Delete(id, x.events, OutcomeOf(r))
      ensures id !in old(store) <==> r == Failure(NotFound)
      ensures r.Success? ==> InState(old(store), id, Stopped) && id !in store
      ensures faults == old(faults) ==> (r.Success? <==> InState(old(store), id, Stopped))
      ensures id in old(store) && !InState(old(store), id, Stopped) ==>
                r.Failure? && store == old(store) && x.events == []
      ensures forall other :: other != id ==> SameRecord(old(store), store, other)
    {
      RecordHasItsId(id);
      ghost var command := Delete(id, [], Done);
      plan := Script(store, command);
      var loaded := LoadStatus(id);
      if loaded.IsFailure() {
        r := loaded.PropagateFailure();
      } else if loaded.value.state != Stopped {
        r := Failure(NotStopped(loaded.value.state));
      } else {
        // Removing the directory can fail before or after the state file is gone.
        var fails, late, cut := *, *, *;
        if cut || fails {
          faults := faults + 1;
        }
        r := if cut then Cut else if fails then Failure(IoError) else Success(());
        if r.Success? || late {
          store := store - {id};
          Record(Remove(id));
        }
      }
      x := Finish(command, OutcomeOf(r));
    }
  }
}
