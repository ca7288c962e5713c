/**
 The IP allocator: one global 32-bit counter, shared by every thread and every network manager.

 The machine interleaves the calls of any number of threads: the atomic increment is one step, and
 the rest of a call, which only looks at the thread's own variables, is another. `IpCounter` is the
 allocator as the source writes it: a call is proved to be those two steps of the machine, whatever
 other threads do between them.
 */
module IpAllocator {
  import opened MachineIntegers
  import opened Wrappers

  // What a call returns once it has fetched `host`. The sum cannot wrap for an aligned subnet.
  function Allocation(host: u32, subnet: u32): Option<u32> {
    if host > 0xFFFE then None else Some(WrappingAdd32(subnet, host))
  }

  // ------------------------------------------------------------------ interleaved calls

  type Thread = nat

  // A call that has fetched its host part. `number` counts the calls in the order of their fetches.
  datatype Call = Call(number: nat, subnet: u32, host: u32)

  datatype Pool = Pool(
    counter: u32,
    calls: seq<Call>,
    running: map<Thread, Call>,
    replies: map<nat, Option<u32>>)

  datatype Action = Fetch(thread: Thread, subnet: u32) | Return(thread: Thread)

  const INITIAL: Pool := Pool(2, [], map[], map[])

  predicate Enabled(pool: Pool, action: Action) {
    match action
    case Fetch(t, _) => t !in pool.running
    case Return(t) => t in pool.running
  }

  function Next(pool: Pool, action: Action): Pool
    requires Enabled(pool, action)
  {
    match action
    case Fetch(t, subnet) =>
      var call := Call(|pool.calls|, subnet, pool.counter);
      Pool(WrappingAdd32(pool.counter, 1), pool.calls + [call], pool.running[t := call], pool.replies)
    case Return(t) =>
      var call := pool.running[t];
      pool.(running := pool.running - {t},
            replies := pool.replies[call.number := Allocation(call.host, call.subnet)])
  }

  // The pool after a sequence of actions, if each was enabled when it was taken.
  function Exec(actions: seq<Action>): Option<Pool> {
    if actions == [] then Some(INITIAL)
    else
      var prior := Exec(actions[..|actions| - 1]);
      var last := actions[|actions| - 1];
      if prior.Some? && Enabled(prior.value, last) then Some(Next(prior.value, last)) else None
  }

  // ------------------------------------------------------------------ the invariant of every interleaving

  ghost predicate HostsCount(pool: Pool) {
    && pool.counter as int == (2 + |pool.calls|) % TWO_TO_THE_32
    && forall k :: 0 <= k < |pool.calls| ==>
         pool.calls[k].number == k && pool.calls[k].host as int == (2 + k) % TWO_TO_THE_32
  }

  ghost predicate RunsCall(pool: Pool, t: Thread, k: nat) {
    t in pool.running && pool.running[t].number == k
  }

  ghost predicate RunningAreCalls(pool: Pool) {
    && (forall t, k: nat :: RunsCall(pool, t, k) ==>
          k < |pool.calls| && pool.running[t] == pool.calls[k] && k !in pool.replies)
    && (forall t, t', k: nat :: RunsCall(pool, t, k) && RunsCall(pool, t', k) ==> t == t')
  }

  ghost predicate RepliesAreAllocations(pool: Pool) {
    forall k :: k in pool.replies ==>
      k < |pool.calls| && pool.replies[k] == Allocation(pool.calls[k].host, pool.calls[k].subnet)
  }

  ghost predicate NoCallIsLost(pool: Pool) {
    forall k :: 0 <= k < |pool.calls| && k !in pool.replies ==> exists t :: RunsCall(pool, t, k)
  }

  ghost predicate Invariant(pool: Pool) {
    HostsCount(pool) && RunningAreCalls(pool) && RepliesAreAllocations(pool) && NoCallIsLost(pool)
  }

  lemma FetchKeepsInvariant(pool: Pool, t: Thread, subnet: u32)
    requires Invariant(pool) && t !in pool.running
    ensures Invariant(Next(pool, Fetch(t, subnet)))
  {
    var pool' := Next(pool, Fetch(t, subnet));
    assert HostsCount(pool');
    forall u, k | RunsCall(pool', u, k)
      ensures u == t || RunsCall(pool, u, k)
    {
    }
    forall k | 0 <= k < |pool'.calls| && k !in pool'.replies
      ensures exists u :: RunsCall(pool', u, k)
    {
      if k == |pool.calls| {
        assert RunsCall(pool', t, k);
      } else {
        var u :| RunsCall(pool, u, k);
        assert RunsCall(pool', u, k);
      }
    }
  }

  lemma ReturnKeepsInvariant(pool: Pool, t: Thread)
    requires Invariant(pool) && t in pool.running
    ensures Invariant(Next(pool, Return(t)))
  {
    var pool' := Next(pool, Return(t));
    assert RunsCall(pool, t, pool.running[t].number);
    forall u, k | RunsCall(pool', u, k)
      ensures u != t && RunsCall(pool, u, k)
    {
    }
    forall k | 0 <= k < |pool'.calls| && k !in pool'.replies
      ensures exists u :: RunsCall(pool', u, k)
    {
      var u :| RunsCall(pool, u, k);
      assert RunsCall(pool', u, k);
    }
  }

  lemma ExecOneMore(actions: seq<Action>, action: Action)
    ensures Exec(actions + [action]) ==
              if Exec(actions).Some? && Enabled(Exec(actions).value, action)
              then Some(Next(Exec(actions).value, action)) else None
  {
    assert (actions + [action])[..|actions|] == actions;
  }

  // A sequence of actions that can be taken can be taken up to any point.
  lemma {:induction false} ExecPrefix(actions: seq<Action>, n: nat)
    requires Exec(actions).Some? && n <= |actions|
    ensures Exec(actions[..n]).Some?
  {
    if n == |actions| {
      assert actions[..n] == actions;
    } else {
      ExecPrefix(actions[..|actions| - 1], n);
      assert actions[..|actions| - 1][..n] == actions[..n];
    }
  }

  lemma {:induction false} InvariantHolds(actions: seq<Action>)
    requires Exec(actions).Some?
    ensures Invariant(Exec(actions).value)
  {
    if actions == [] {
    } else {
      InvariantHolds(actions[..|actions| - 1]);
      var prior := Exec(actions[..|actions| - 1]).value;
      match actions[|actions| - 1]
      case Fetch(t, subnet) => FetchKeepsInvariant(prior, t, subnet);
      case Return(t) => ReturnKeepsInvariant(prior, t);
    }
  }

  // ------------------------------------------------------------------ main results

  // Calls the counter serves before it wraps around to 0.
  const CALLS_BEFORE_WRAP: int := TWO_TO_THE_32 - 2

  // Hosts 2 to 0xFFFE.
  const POOL_SIZE: int := 65533

  predicate AlignedTo16(subnet: u32) {
    subnet as int % 0x1_0000 == 0
  }

  // Neither the network address, nor the gateway, nor the broadcast address of the subnet.
  predicate IsHostOf(address: u32, subnet: u32) {
    subnet as int + 2 <= address as int <= subnet as int + 0xFFFE
  }

  lemma AllocationOfHost(host: u32, subnet: u32)
    requires AlignedTo16(subnet) && host <= 0xFFFE
    ensures Allocation(host, subnet).Some?
    ensures Allocation(host, subnet).value as int == subnet as int + host as int
    ensures Allocation(host, subnet).value as int % 0x1_0000 == host as int
  {
  }

  lemma HostInPool(pool: Pool, k: nat)
    requires Invariant(pool) && k in pool.replies && |pool.calls| <= CALLS_BEFORE_WRAP
    ensures k < |pool.calls| && pool.calls[k].host as int == 2 + k
    ensures pool.replies[k] == Allocation(pool.calls[k].host, pool.calls[k].subnet)
  {
    assert (2 + k) % TWO_TO_THE_32 == 2 + k;
  }

  // Until the counter wraps, call number k has host part k + 2, and its reply is the allocation of it.
  lemma HostOfCall(actions: seq<Action>, k: nat)
    requires Exec(actions).Some? && k in Exec(actions).value.replies
    requires |Exec(actions).value.calls| <= CALLS_BEFORE_WRAP
    ensures var pool := Exec(actions).value;
            && k < |pool.calls|
            && pool.calls[k].host as int == 2 + k
            && pool.replies[k] == Allocation(pool.calls[k].host, pool.calls[k].subnet)
  {
    InvariantHolds(actions);
    HostInPool(Exec(actions).value, k);
  }

  // Until the counter wraps, calls are served in the order of their fetches: the first 65533
  // succeed, every later one fails, and every address handed out is a usable host of its subnet.
  lemma ServedInOrder(actions: seq<Action>, k: nat)
    requires Exec(actions).Some? && k in Exec(actions).value.replies
    requires |Exec(actions).value.calls| <= CALLS_BEFORE_WRAP
    ensures var pool := Exec(actions).value;
            && k < |pool.calls|
            && (pool.replies[k].Some? <==> k < 65533)
            && (k < 65533 && AlignedTo16(pool.calls[k].subnet) ==>
                  IsHostOf(pool.replies[k].value, pool.calls[k].subnet))
  {
    HostOfCall(actions, k);
    var call := Exec(actions).value.calls[k];
    if k < POOL_SIZE && AlignedTo16(call.subnet) {
      AllocationOfHost(call.host, call.subnet);
    }
  }

  // The address a call is handed determines its number, up to the width of the counter.
  lemma AddressOfCall(actions: seq<Action>, k: nat)
    requires Exec(actions).Some?
    requires var pool := Exec(actions).value;
             k in pool.replies && pool.replies[k].Some? && forall call <- pool.calls :: AlignedTo16(call.subnet)
    ensures k < |Exec(actions).value.calls|
    ensures Exec(actions).value.replies[k].value as int % 0x1_0000 == (2 + k) % TWO_TO_THE_32
  {
    InvariantHolds(actions);
    var call := Exec(actions).value.calls[k];
    AllocationOfHost(call.host, call.subnet);
  }

  // No two successful calls get the same address, on the same or on different aligned /16 subnets, among
  // the first 2^32 calls.
  lemma AddressesAreDistinct(actions: seq<Action>, k: nat, k': nat)
    requires Exec(actions).Some?
    requires var pool := Exec(actions).value;
             && |pool.calls| <= TWO_TO_THE_32
             && (forall call <- pool.calls :: AlignedTo16(call.subnet))
             && k in pool.replies && k' in pool.replies && k != k'
             && pool.replies[k].Some? && pool.replies[k'].Some?
    ensures Exec(actions).value.replies[k] != Exec(actions).value.replies[k']
  {
    AddressOfCall(actions, k);
    AddressOfCall(actions, k');
    var n, n' := 2 + k, 2 + k';
    assert n % TWO_TO_THE_32 == n' % TWO_TO_THE_32 ==> n == n' by {
      assert n == TWO_TO_THE_32 * (n / TWO_TO_THE_32) + n % TWO_TO_THE_32;
      assert n' == TWO_TO_THE_32 * (n' / TWO_TO_THE_32) + n' % TWO_TO_THE_32;
    }
  }

  // That bound is exact: the call after them is handed the address of the first call, if it is for the
  // same subnet.
  lemma AddressesRepeat(actions: seq<Action>)
    requires Exec(actions).Some?
    requires var pool := Exec(actions).value;
             && 0 in pool.replies && TWO_TO_THE_32 in pool.replies
             && |pool.calls| > TWO_TO_THE_32 && pool.calls[TWO_TO_THE_32].subnet == pool.calls[0].subnet
    ensures var pool := Exec(actions).value;
            pool.replies[0].Some? && pool.replies[TWO_TO_THE_32] == pool.replies[0]
  {
    InvariantHolds(actions);
  }

  ghost function Successes(pool: Pool): set<nat> {
    set k | k in pool.replies && pool.replies[k].Some?
  }

  function Below(n: nat): (s: set<nat>)
    ensures |s| == n
    ensures forall k: nat :: k in s <==> k < n
  {
    if n == 0 then {} else Below(n - 1) + {n - 1}
  }

  // Once all of n calls have returned, exactly min(n, 65533) of them have an address.
  lemma SuccessCount(actions: seq<Action>)
    requires Exec(actions).Some? && Exec(actions).value.running == map[]
    requires |Exec(actions).value.calls| <= CALLS_BEFORE_WRAP
    ensures var pool := Exec(actions).value;
            && pool.replies.Keys == Below(|pool.calls|)
            && |Successes(pool)| == if |pool.calls| <= 65533 then |pool.calls| else 65533
  {
    InvariantHolds(actions);
    var pool := Exec(actions).value;
    var n := if |pool.calls| <= POOL_SIZE then |pool.calls| else POOL_SIZE;
    forall k | 0 <= k < |pool.calls|
      ensures k in pool.replies
    {
      assert forall t :: !RunsCall(pool, t, k);
    }
    forall k | k in pool.replies
      ensures pool.replies[k].Some? <==> k < POOL_SIZE
    {
      ServedInOrder(actions, k);
    }
    assert Successes(pool) == Below(n);
  }

  // The bound on the number of calls is exact. Once all calls have returned, every address handed
  // out is usable if and only if the counter has not wrapped: the call after that is handed the
  // network address itself.
  lemma UsableUntilWrap(actions: seq<Action>)
    requires Exec(actions).Some? && Exec(actions).value.running == map[]
    requires forall call <- Exec(actions).value.calls :: AlignedTo16(call.subnet)
    ensures var pool := Exec(actions).value;
            (forall k :: 0 <= k < |pool.calls| && k in pool.replies && pool.replies[k].Some? ==>
               IsHostOf(pool.replies[k].value, pool.calls[k].subnet))
            <==> |pool.calls| <= CALLS_BEFORE_WRAP
  {
    InvariantHolds(actions);
    var pool := Exec(actions).value;
    if |pool.calls| <= CALLS_BEFORE_WRAP {
      forall k | k in pool.replies && pool.replies[k].Some?
        ensures k < |pool.calls| && IsHostOf(pool.replies[k].value, pool.calls[k].subnet)
      {
        ServedInOrder(actions, k);
      }
    } else {
      var k := CALLS_BEFORE_WRAP;
      assert pool.calls[k].host == 0;
      assert forall t :: !RunsCall(pool, t, k);
      AllocationOfHost(0, pool.calls[k].subnet);
      assert !IsHostOf(pool.replies[k].value, pool.calls[k].subnet);
    }
  }

  // ------------------------------------------------------------------ the allocator as the source writes it

  // What call number `n` is handed. Until the counter wraps, the first 65533 calls succeed, each with its
  // own host of its subnet, and later ones fail.
  // In general the host is n + 2 modulo 2^32, and calls with hosts above 65534 fail.
  predicate IsServed(n: nat, subnet: u32, address: Option<u32>) {
    && (n < 0xFFFF_FFFE ==> (address.Some? <==> n < 65533))
    && (n < 65533 && subnet as int % 0x1_0000 == 0 ==>
          && address.value as int == subnet as int + 2 + n
          && subnet as int + 2 <= address.value as int <= subnet as int + 65534)
    && (address.Some? <==> (2 + n) % 0x1_0000_0000 <= 65534)
    && (address.Some? && subnet as int + (2 + n) % 0x1_0000_0000 < 0x1_0000_0000 ==>
          address.value as int == subnet as int + (2 + n) % 0x1_0000_0000)
  }

  lemma Served(n: nat, subnet: u32, host: u32)
    requires host as int == (2 + n) % TWO_TO_THE_32
    ensures IsServed(n, subnet, Allocation(host, subnet))
  {
    if n < CALLS_BEFORE_WRAP {
      assert host as int == 2 + n;
    }
    if host <= 0xFFFE && AlignedTo16(subnet) {
      AllocationOfHost(host, subnet);
    }
  }

  class IpCounter {
    var value: u32

    // The steps of all calls so far, of which the last may still be running.
    ghost var actions: seq<Action>

    ghost predicate Valid()
      reads this
    {
      Exec(actions).Some? && Exec(actions).value.counter == value
    }

    ghost function State(): Pool
      requires Valid()
      reads this
    {
      Exec(actions).value
    }

    constructor ()
      ensures Valid() && actions == []
    {
      value, actions := 2, [];
    }

    // The one step that touches the counter.
    method FetchAdd(thread: Thread, subnet: u32) returns (was: u32)
      requires Valid() && thread !in State().running
      modifies this
      ensures Valid() && actions == old(actions) + [Fetch(thread, subnet)]
      ensures was == old(value) && value == WrappingAdd32(old(value), 1)
      ensures thread in State().running && State().running[thread] == Call(|old(State().calls)|, subnet, was)
    {
      was := value;
      value := WrappingAdd32(value, 1);
      ExecOneMore(actions, Fetch(thread, subnet));
      actions := actions + [Fetch(thread, subnet)];
    }

    // A step of another thread.
    method OtherStep(thread: Thread, action: Action)
      requires Valid() && Enabled(State(), action) && action.thread != thread
      modifies this
      ensures Valid() && actions == old(actions) + [action]
      ensures thread in old(State().running) ==>
                thread in State().running && State().running[thread] == old(State().running[thread])
    {
      ExecOneMore(actions, action);
      if action.Fetch? {
        value := WrappingAdd32(value, 1);
      }
      actions := actions + [action];
    }

    // The steps other threads take while this one is between its two.
    method OtherSteps(thread: Thread, others: seq<Action>)
      requires Valid() && thread in State().running
      requires Exec(actions + others).Some?
      requires forall action <- others :: action.thread != thread
      modifies this
      ensures Valid() && actions == old(actions) + others
      ensures thread in State().running && State().running[thread] == old(State().running[thread])
    {
      ghost var before := actions;
      assert others[..0] == [];
      for i := 0 to |others|
        invariant Valid() && actions == before + others[..i]
        invariant thread in State().running && State().running[thread] == old(State().running[thread])
      {
        assert (before + others)[..|before| + i + 1] == actions + [others[i]];
        ExecPrefix(before + others, |before| + i + 1);
        ExecOneMore(actions, others[i]);
        assert others[i] in others;
        OtherStep(thread, others[i]);
      }
      assert others[..|others|] == others;
    }

    // `None` is the error for an exhausted pool. `others` are the steps that other threads take after this
    // call has fetched its host and before it returns.
    method AllocateIp(thread: Thread, subnet: u32, others: seq<Action>) returns (address: Option<u32>)
      requires Valid() && thread !in State().running
      requires Exec(actions + [Fetch(thread, subnet)] + others).Some?
      requires forall action <- others :: action.thread != thread
      modifies this
      ensures Valid() && actions == old(actions) + [Fetch(thread, subnet)] + others + [Return(thread)]
      ensures var n := |old(State().calls)|;
              && n in State().replies && State().replies[n] == address
              && IsServed(n, subnet, address)
    {
      InvariantHolds(actions);
      ghost var n := |State().calls|;
      var host := FetchAdd(thread, subnet);
      OtherSteps(thread, others);
      if host > 0xFFFE {
        address := None;
      } else {
        var base := subnet;
        address := Some(WrappingAdd32(base, host));
      }
      Served(n, subnet, host);
      ExecOneMore(actions, Return(thread));
      actions := actions + [Return(thread)];
    }
  }
}
