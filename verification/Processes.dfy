/**
 Waiting for other processes: running the hooks of a container, and stopping its process.

 How a child behaves and how time passes are given by functions of the number of polls, so every
 statement is for all children and all clocks. Times are in nanoseconds since the wait began.
 */
module Processes {
  import opened Wrappers

  const MILLISECOND: nat := 1_000_000
  const SECOND: nat := 1000 * MILLISECOND

  // A thread that sleeps does so for at least the time it asks for.
  ghost predicate SleepsAtLeast(elapsed: nat -> nat, pause: nat) {
    forall i: nat :: elapsed(i) + pause <= elapsed(i + 1)
  }

  // So at poll `i` at least `i` pauses have passed.
  lemma {:induction false} PausesPass(elapsed: nat -> nat, pause: nat, i: nat)
    requires SleepsAtLeast(elapsed, pause)
    ensures pause * i <= elapsed(i)
  {
    if i == 0 {
    } else {
      PausesPass(elapsed, pause, i - 1);
      assert pause * i == pause * (i - 1) + pause;
    }
  }

  lemma PollsBound(polls: nat, pause: nat, limit: nat)
    requires 0 < pause && pause * polls <= limit
    ensures polls <= limit / pause
  {
    var q := limit / pause;
    assert limit == pause * q + limit % pause;
    assert polls >= q + 1 ==> pause * polls >= pause * (q + 1);
  }

  // ------------------------------------------------------------------ hooks

  const HOOK_PAUSE: nat := 50 * MILLISECOND

  datatype Hook = Hook(path: string, timeoutSecs: Option<int>) {
    // Negative timeouts count as zero.
    function Timeout(): Option<nat> {
      match timeoutSecs
      case None => None
      case Some(t) => Some(if t < 0 then 0 else t * SECOND)
    }
  }

  datatype Poll = StillRunning | Exited(success: bool) | WaitFailed

  // A hook's child: the answer and the time at each poll, and what a blocking wait returns.
  datatype Child = Child(poll: nat -> Poll, elapsed: nat -> nat, wait: Option<bool>)

  // Spawning a hook's command fails or gives a child.
  type Launch = Option<Child>

  datatype HookEnd = Succeeded | ExitedBadly | Lost | TimedOut

  // Waiting with a timeout ends at poll number `polls`, counted from one.
  ghost predicate EndsAt(child: Child, timeout: nat, polls: nat, end: HookEnd) {
    && polls > 0
    && (forall i: nat :: i < polls - 1 ==> child.poll(i) == StillRunning && child.elapsed(i) <= timeout)
    && match child.poll(polls - 1)
       case Exited(success) => end == if success then Succeeded else ExitedBadly
       case WaitFailed => end == Lost
       case StillRunning => child.elapsed(polls - 1) > timeout && end == TimedOut
  }

  lemma EndIsUnique(child: Child, timeout: nat, polls: nat, end: HookEnd, polls': nat, end': HookEnd)
    requires EndsAt(child, timeout, polls, end) && EndsAt(child, timeout, polls', end')
    ensures polls == polls' && end == end'
  {
  }

  ghost predicate SucceedsWithin(child: Child, timeout: nat) {
    exists polls :: EndsAt(child, timeout, polls, Succeeded)
  }

  // The hook's command ran and exited with success, within its timeout if it has one, which is given in
  // seconds.
  ghost predicate Succeeds(hook: Hook, launch: Launch) {
    && launch.Some?
    && match hook.timeoutSecs
       case None => launch.value.wait == Some(true)
       case Some(t) => SucceedsWithin(launch.value, if t < 0 then 0 else t * 1_000_000_000)
  }

  ghost predicate AllSucceed(hooks: seq<Hook>, launch: nat -> Launch) {
    forall i :: 0 <= i < |hooks| ==> Succeeds(hooks[i], launch(i))
  }

  // Hooks are run in order up to and including the first that does not succeed.
  ghost predicate AreLaunched(hooks: seq<Hook>, launch: nat -> Launch, launched: seq<Hook>) {
    && launched <= hooks
    && (forall i :: 0 <= i < |launched| - 1 ==> Succeeds(hooks[i], launch(i)))
    && (launched != hooks ==> launched != [] && !Succeeds(hooks[|launched| - 1], launch(|launched| - 1)))
  }

  ghost function Launched(hooks: seq<Hook>, launch: nat -> Launch): seq<Hook> {
    if forall i :: 0 <= i < |hooks| - 1 ==> Succeeds(hooks[i], launch(i)) then hooks
    else Launched(hooks[..|hooks| - 1], launch)
  }

  lemma {:induction false} LaunchedExactly(hooks: seq<Hook>, launch: nat -> Launch, launched: seq<Hook>)
    ensures AreLaunched(hooks, launch, launched) <==> launched == Launched(hooks, launch)
  {
    if forall i :: 0 <= i < |hooks| - 1 ==> Succeeds(hooks[i], launch(i)) {
    } else {
      LaunchedExactly(hooks[..|hooks| - 1], launch, launched);
      LaunchedExactly(hooks[..|hooks| - 1], launch, Launched(hooks, launch));
    }
  }

  // While all hooks before it succeed, a hook is launched.
  lemma LaunchedNext(hooks: seq<Hook>, launch: nat -> Launch, n: nat)
    requires n < |hooks| && forall i :: 0 <= i < n ==> Succeeds(hooks[i], launch(i))
    ensures n < |Launched(hooks, launch)| && Launched(hooks, launch)[..n + 1] == hooks[..n + 1]
    ensures Launched(hooks, launch)[..n] == hooks[..n]
  {
    var launched := Launched(hooks, launch);
    LaunchedExactly(hooks, launch, launched);
    assert launched == hooks[..|launched|];
  }

  method WaitForHook(child: Child, timeout: nat) returns (end: HookEnd, polls: nat, killed: bool)
    requires SleepsAtLeast(child.elapsed, 50_000_000)
    ensures EndsAt(child, timeout, polls, end)
    ensures polls <= timeout / 50_000_000 + 2
    ensures killed <==> child.poll(polls - 1) == StillRunning && child.elapsed(polls - 1) > timeout
  {
    polls, killed := 0, false;
    while true
      invariant forall i: nat :: i < polls ==> child.poll(i) == StillRunning && child.elapsed(i) <= timeout
      invariant polls <= timeout / HOOK_PAUSE + 1
      invariant !killed
      decreases timeout / HOOK_PAUSE + 2 - polls
    {
      var answer, elapsed := child.poll(polls), child.elapsed(polls);
      PausesPass(child.elapsed, HOOK_PAUSE, polls);
      polls := polls + 1;
      match answer
      case Exited(success) =>
        end := if success then Succeeded else ExitedBadly;
        return;
      case StillRunning =>
        if elapsed > timeout {
          killed := true;
          end := TimedOut;
          return;
        }
        PollsBound(polls - 1, HOOK_PAUSE, timeout);
      case WaitFailed =>
        end := Lost;
        return;
    }
  }

  // Launches one hook and waits for it, with a timeout if it has one.
  method RunHook(hook: Hook, launch: Launch) returns (ok: bool)
    requires launch.Some? ==> SleepsAtLeast(launch.value.elapsed, 50_000_000)
    ensures ok <==> Succeeds(hook, launch)
  {
    if launch.None? {
      return false;
    }
    match hook.Timeout()
    case None =>
      ok := launch.value.wait == Some(true);
    case Some(timeout) =>
      var end, polls, _ := WaitForHook(launch.value, timeout);
      ok := end == Succeeded;
      assert ok <==> SucceedsWithin(launch.value, timeout) by {
        if polls' :| EndsAt(launch.value, timeout, polls', Succeeded) {
          EndIsUnique(launch.value, timeout, polls, end, polls', Succeeded);
        }
      }
  }

  // The bound on the number of polls is reached, for every timeout, by a child that never exits.
  lemma HookPollBoundIsTight(timeout: nat)
    ensures exists child: Child ::
              && SleepsAtLeast(child.elapsed, 50_000_000)
              && EndsAt(child, timeout, timeout / 50_000_000 + 2, TimedOut)
  {
    var child := Child((_: nat) => StillRunning, (i: nat) => i * HOOK_PAUSE, None);
    var q := timeout / HOOK_PAUSE;
    var polls := q + 2;
    assert timeout == q * HOOK_PAUSE + timeout % HOOK_PAUSE;
    assert child.elapsed(polls - 1) == (q + 1) * HOOK_PAUSE > timeout;
    forall i: nat | i < polls - 1
      ensures child.elapsed(i) <= timeout
    {
      assert i * HOOK_PAUSE <= q * HOOK_PAUSE;
    }
    assert SleepsAtLeast(child.elapsed, HOOK_PAUSE);
    assert EndsAt(child, timeout, polls, TimedOut);
  }

  // ------------------------------------------------------------------ stopping a process

  const STOP_PAUSE: nat := 100 * MILLISECOND
  const SIGKILL: int := 9

  // The signal numbers of Linux that have a name.
  predicate IsSignal(signal: int) {
    1 <= signal <= 31
  }

  // What `waitpid` with WNOHANG answers: the process exited or was killed, it is in another state,
  // it is not a child (ECHILD), or the call failed otherwise.
  datatype WaitReply = Gone | Alive | NotAChild | WaitError

  // The process to stop: whether it can be signalled, and the answer and the time at each poll.
  datatype Target = Target(signalled: bool, wait: nat -> WaitReply, elapsed: nat -> nat)

  // What stopping a process does: whether it reports success, and the `kill` calls it makes.
  datatype StopEnd = StopEnd(ok: bool, kills: seq<int>)

  // Stopping ends at poll number `polls`, counted from one, or before the first poll.
  ghost predicate StopsAt(target: Target, signal: int, timeout: nat, polls: nat, end: StopEnd) {
    if !(1 <= signal <= 31) then polls == 0 && end == StopEnd(false, [])
    else if !target.signalled then polls == 0 && end == StopEnd(false, [signal])
    else
      && polls > 0
      && (forall i: nat :: i < polls - 1 ==> target.wait(i) == Alive && target.elapsed(i) <= timeout)
      && match target.wait(polls - 1)
         case Gone => end == StopEnd(true, [signal])
         case NotAChild => end == StopEnd(true, [signal])
         case WaitError => end == StopEnd(false, [signal])
         case Alive => target.elapsed(polls - 1) > timeout && end == StopEnd(true, [signal, 9])
  }

  // What stopping a process with this signal and timeout comes to.
  ghost predicate Stops(target: Target, signal: int, timeout: nat, end: StopEnd) {
    exists polls :: StopsAt(target, signal, timeout, polls, end)
  }

  method StopProcess(target: Target, signal: int, timeout: nat) returns (end: StopEnd, polls: nat)
    requires SleepsAtLeast(target.elapsed, 100_000_000)
    ensures StopsAt(target, signal, timeout, polls, end)
    ensures polls <= timeout / 100_000_000 + 2
  {
    polls := 0;
    if !IsSignal(signal) {
      return StopEnd(false, []), polls;
    }
    var kills := [signal];
    if !target.signalled {
      return StopEnd(false, kills), polls;
    }
    while true
      invariant forall i: nat :: i < polls ==> target.wait(i) == Alive && target.elapsed(i) <= timeout
      invariant polls <= timeout / STOP_PAUSE + 1
      decreases timeout / STOP_PAUSE + 2 - polls
    {
      var reply, elapsed := target.wait(polls), target.elapsed(polls);
      PausesPass(target.elapsed, STOP_PAUSE, polls);
      polls := polls + 1;
      match reply {
        case Gone => return StopEnd(true, kills), polls;
        case NotAChild => return StopEnd(true, kills), polls;
        case WaitError => return StopEnd(false, kills), polls;
        case Alive =>
      }
      if elapsed > timeout {
        kills := kills + [SIGKILL];
        return StopEnd(true, kills), polls;
      }
      PollsBound(polls - 1, STOP_PAUSE, timeout);
    }
  }

  lemma StopIsUnique(target: Target, signal: int, timeout: nat, polls: nat, end: StopEnd, polls': nat, end': StopEnd)
    requires StopsAt(target, signal, timeout, polls, end) && StopsAt(target, signal, timeout, polls', end')
    ensures polls == polls' && end == end'
  {
  }

  // The process stays alive for some poll after the timeout, and for all polls before that one.
  ghost predicate Outlives(target: Target, timeout: nat) {
    exists i: nat :: target.elapsed(i) > timeout && forall j: nat :: j <= i ==> target.wait(j) == Alive
  }

  // Some poll fails, and up to then the process is alive and the timeout has not passed.
  ghost predicate WaitingFails(target: Target, timeout: nat) {
    exists i: nat ::
      && target.wait(i) == WaitError
      && forall j: nat :: j < i ==> target.wait(j) == Alive && target.elapsed(j) <= timeout
  }

  // What stopping comes to, in terms of the process and the clock: SIGKILL is sent exactly to a process
  // that can be signalled and outlives the timeout, and stopping fails exactly when the process cannot be
  // signalled or waiting for it fails.
  ghost function StopResult(target: Target, signal: int, timeout: nat): StopEnd {
    StopEnd(
      1 <= signal <= 31 && target.signalled && !WaitingFails(target, timeout),
      if !(1 <= signal <= 31) then []
      else if target.signalled && Outlives(target, timeout) then [signal, 9]
      else [signal])
  }

  lemma StopSucceedsExactly(target: Target, signal: int, timeout: nat, end: StopEnd)
    requires Stops(target, signal, timeout, end)
    ensures end == StopResult(target, signal, timeout)
  {
    var polls: nat :| StopsAt(target, signal, timeout, polls, end);
    if IsSignal(signal) && target.signalled {
      var last: nat := polls - 1;
      if end.kills == [signal, SIGKILL] {
        assert target.elapsed(last) > timeout && forall j: nat :: j <= last ==> target.wait(j) == Alive;
      }
      if !end.ok {
        assert target.wait(last) == WaitError;
      }
    }
  }

  // Polling a process that has been alive within the timeout so far ends at some later poll.
  lemma {:induction false} PollingEnds(target: Target, timeout: nat, i: nat) returns (last: nat)
    requires SleepsAtLeast(target.elapsed, STOP_PAUSE)
    requires forall j: nat :: j < i ==> target.wait(j) == Alive && target.elapsed(j) <= timeout
    ensures forall j: nat :: j < last ==> target.wait(j) == Alive && target.elapsed(j) <= timeout
    ensures target.wait(last) != Alive || target.elapsed(last) > timeout
    decreases timeout / STOP_PAUSE + 1 - i
  {
    if target.wait(i) != Alive || target.elapsed(i) > timeout {
      last := i;
    } else {
      PausesPass(target.elapsed, STOP_PAUSE, i);
      PollsBound(i, STOP_PAUSE, timeout);
      last := PollingEnds(target, timeout, i + 1);
    }
  }

  // What stopping comes to when it ends at this poll.
  function EndOfPolling(target: Target, signal: int, polls: nat): StopEnd {
    if !IsSignal(signal) then StopEnd(false, [])
    else if !target.signalled || polls == 0 then StopEnd(false, [signal])
    else
      match target.wait(polls - 1)
      case Alive => StopEnd(true, [signal, SIGKILL])
      case WaitError => StopEnd(false, [signal])
      case _ => StopEnd(true, [signal])
  }

  // When time passes, stopping comes to that and to nothing else.
  lemma StopsExactly(target: Target, signal: int, timeout: nat, end: StopEnd)
    requires SleepsAtLeast(target.elapsed, STOP_PAUSE)
    ensures Stops(target, signal, timeout, end) <==> end == StopResult(target, signal, timeout)
  {
    if Stops(target, signal, timeout, end) {
      StopSucceedsExactly(target, signal, timeout, end);
    } else if end == StopResult(target, signal, timeout) {
      var polls := 0;
      if IsSignal(signal) && target.signalled {
        var last := PollingEnds(target, timeout, 0);
        polls := last + 1;
      }
      var end' := EndOfPolling(target, signal, polls);
      assert StopsAt(target, signal, timeout, polls, end');
      StopSucceedsExactly(target, signal, timeout, end');
    }
  }

  // A process that belongs to another invocation of the runtime is no child of this one: it gets the
  // first signal, is reported stopped at the first poll, and is never killed.
  lemma ForeignProcessIsNotKilled(target: Target, signal: int, timeout: nat, polls: nat, end: StopEnd)
    requires StopsAt(target, signal, timeout, polls, end)
    requires IsSignal(signal) && target.signalled && target.wait(0) == NotAChild
    ensures polls == 1 && end == StopEnd(true, [signal])
  {
    var first: nat := 0;
    assert polls - 1 > first ==> target.wait(first) == Alive;
  }
}
