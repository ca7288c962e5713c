/**
 The seccomp filter as a compiler from a denylist to a classic BPF program.

 The interpreter gives the meaning of the instructions the filter uses. The main result is exact
 for every denylist, of any length: the program denies the last 255 entries and nothing else,
 because the jump offsets are cast to eight bits.
 */
module Seccomp {
  import opened MachineIntegers

  datatype SockFilter = SockFilter(code: u16, jt: u8, jf: u8, k: u32)

  // BPF_LD | BPF_W | BPF_ABS, BPF_JMP | BPF_JEQ | BPF_K and BPF_RET | BPF_K.
  const LD_ABS_WORD: u16 := 0x20
  const JMP_JEQ_K: u16 := 0x15
  const RET_K: u16 := 0x06

  const SECCOMP_DATA_NR_OFFSET: u32 := 0
  const SECCOMP_RET_ALLOW: u32 := 0x7fff_0000
  // SECCOMP_RET_ERRNO | (EPERM & 0xffff)
  const SECCOMP_RET_EPERM: u32 := 0x0005_0001

  // ------------------------------------------------------------------ the meaning of a program

  // The value returned and the number of instructions executed, or a fault: a jump or a fall past
  // the end of the program, or an instruction outside the set above.
  datatype RunEnd = Returned(value: u32, steps: nat) | Fault

  function Step(rest: RunEnd): RunEnd {
    if rest.Returned? then rest.(steps := rest.steps + 1) else rest
  }

  // The program from instruction `pc` on, with accumulator `a`, for a call of number `nr`. Classic
  // BPF jumps forward only, relative to the next instruction.
  function Interpret(prog: seq<SockFilter>, nr: u32, pc: nat, a: u32): RunEnd
    decreases |prog| - pc
  {
    if pc >= |prog| then Fault
    else
      var insn := prog[pc];
      if insn.code == LD_ABS_WORD && insn.k == SECCOMP_DATA_NR_OFFSET then
        Step(Interpret(prog, nr, pc + 1, nr))
      else if insn.code == JMP_JEQ_K then
        Step(Interpret(prog, nr, pc + 1 + (if a == insn.k then insn.jt else insn.jf) as nat, a))
      else if insn.code == RET_K then
        Returned(insn.k, 1)
      else
        Fault
  }

  function Run(prog: seq<SockFilter>, nr: u32): RunEnd {
    Interpret(prog, nr, 0, 0)
  }

  // Every jump lands on an instruction after it, and the program ends with a return.
  predicate WellFormed(prog: seq<SockFilter>) {
    && prog != []
    && prog[|prog| - 1].code == RET_K
    && forall pc :: 0 <= pc < |prog| ==>
         || (prog[pc].code == LD_ABS_WORD && pc + 1 < |prog|)
         || (prog[pc].code == JMP_JEQ_K
             && pc + 1 + prog[pc].jt as int < |prog| && pc + 1 + prog[pc].jf as int < |prog|)
         || prog[pc].code == RET_K
  }

  // ------------------------------------------------------------------ the compiler

  // Entry `i` of `n` jumps over the entries after it and over the ALLOW instruction; the offset is
  // cast to eight bits.
  function JumpToDeny(denied: seq<u32>, i: nat): SockFilter
    requires i < |denied|
  {
    SockFilter(JMP_JEQ_K, ((|denied| - i) % 0x100) as u8, 0, denied[i])
  }

  function Compiled(denied: seq<u32>): seq<SockFilter> {
    [SockFilter(LD_ABS_WORD, 0, 0, SECCOMP_DATA_NR_OFFSET)]
    + seq(|denied|, i requires 0 <= i < |denied| => JumpToDeny(denied, i))
    + [SockFilter(RET_K, 0, 0, SECCOMP_RET_ALLOW), SockFilter(RET_K, 0, 0, SECCOMP_RET_EPERM)]
  }

  // ------------------------------------------------------------------ correctness

  // The entries whose jump fits in eight bits: the last 255.
  function Reached(denied: seq<u32>): seq<u32> {
    if |denied| <= 255 then denied else denied[|denied| - 255..]
  }

  function Verdict(denies: bool): u32 {
    if denies then SECCOMP_RET_EPERM else SECCOMP_RET_ALLOW
  }

  // Where the scan stands: the entries from `i` on, but never fewer than the reached ones.
  function Pending(denied: seq<u32>, i: nat): seq<u32>
    requires i <= |denied|
  {
    if |denied| - i <= 255 then denied[i..] else Reached(denied)
  }

  // One comparison of the scan.
  lemma ScanStep(denied: seq<u32>, nr: u32, i: nat)
    requires i < |denied|
    ensures var prog := Compiled(denied);
            var offset := if nr == denied[i] then (|denied| - i) % 0x100 else 0;
            Interpret(prog, nr, i + 1, nr) == Step(Interpret(prog, nr, i + 2 + offset, nr))
  {
    assert Compiled(denied)[i + 1] == JumpToDeny(denied, i);
  }

  lemma ScanEnd(denied: seq<u32>, nr: u32)
    ensures var n, prog := |denied|, Compiled(denied);
            && Interpret(prog, nr, n + 1, nr) == Returned(SECCOMP_RET_ALLOW, 1)
            && Interpret(prog, nr, n + 2, nr) == Returned(SECCOMP_RET_EPERM, 1)
  {
  }

  // Moving the scan forward from an entry other than `nr`, or past entries whose jump is truncated,
  // loses nothing.
  lemma PendingAfter(denied: seq<u32>, nr: u32, i: nat, j: nat)
    requires i < j <= |denied|
    requires (j == i + 1 && nr != denied[i]) || j <= |denied| - 255
    ensures nr in Pending(denied, j) <==> nr in Pending(denied, i)
  {
    if j == i + 1 && |denied| - i <= 255 {
      assert denied[i..] == [denied[i]] + denied[j..];
    } else if |denied| - j == 255 {
      assert Pending(denied, j) == Reached(denied);
    }
  }

  // An offset that does not fit in eight bits loses at least 256.
  lemma TruncatedOffset(offset: nat)
    ensures offset <= 255 ==> offset % 0x100 == offset
    ensures offset > 255 ==> offset % 0x100 + 256 <= offset
  {
  }

  // The scan from entry `i` on gives the verdict on the pending entries.
  predicate ScanCorrect(denied: seq<u32>, nr: u32, i: nat)
    requires i <= |denied|
  {
    var r := Interpret(Compiled(denied), nr, i + 1, nr);
    && r.Returned?
    && r.steps <= |denied| - i + 1
    && r.value == Verdict(nr in Pending(denied, i))
  }

  lemma ScanHit(denied: seq<u32>, nr: u32, i: nat)
    requires i < |denied| && nr == denied[i] && |denied| - i <= 255
    ensures ScanCorrect(denied, nr, i)
  {
    ScanStep(denied, nr, i);
    ScanEnd(denied, nr);
    assert denied[i..][0] == nr;
  }

  lemma ScanOn(denied: seq<u32>, nr: u32, i: nat, j: nat)
    requires i < |denied| && !(nr == denied[i] && |denied| - i <= 255)
    requires j == i + 1 + (if nr == denied[i] then (|denied| - i) % 0x100 else 0)
    requires j <= |denied| && ScanCorrect(denied, nr, j)
    ensures ScanCorrect(denied, nr, i)
  {
    ScanStep(denied, nr, i);
    TruncatedOffset(|denied| - i);
    PendingAfter(denied, nr, i, j);
  }

  lemma {:induction false} ScanFrom(denied: seq<u32>, nr: u32, i: nat)
    requires i <= |denied|
    ensures ScanCorrect(denied, nr, i)
    decreases |denied| - i
  {
    if i == |denied| {
      ScanEnd(denied, nr);
    } else if nr == denied[i] && |denied| - i <= 255 {
      ScanHit(denied, nr, i);
    } else {
      TruncatedOffset(|denied| - i);
      var j := i + 1 + (if nr == denied[i] then (|denied| - i) % 0x100 else 0);
      ScanFrom(denied, nr, j);
      ScanOn(denied, nr, i, j);
    }
  }

  // The compiled program halts within `|denied| + 2` instructions and denies exactly the last 255
  // entries of the list.
  lemma FilterDeniesExactly(denied: seq<u32>, nr: u32)
    ensures var r := Run(Compiled(denied), nr);
            && r.Returned?
            && r.steps <= |denied| + 2
            && r.value == Verdict(nr in Reached(denied))
  {
    ScanFrom(denied, nr, 0);
  }

  // The filter is correct for every system call exactly when each entry cut off by the cast is
  // listed again among the last 255.
  lemma FilterCorrectExactly(denied: seq<u32>)
    ensures (forall nr ::
               Run(Compiled(denied), nr).Returned? && Run(Compiled(denied), nr).value == Verdict(nr in denied))
       <==> (forall i :: 0 <= i < |denied| - 255 ==> denied[i] in Reached(denied))
  {
    forall nr
      ensures Run(Compiled(denied), nr).Returned?
      ensures Run(Compiled(denied), nr).value == Verdict(nr in Reached(denied))
      ensures nr in Reached(denied) ==> nr in denied
    {
      FilterDeniesExactly(denied, nr);
    }
    if forall nr :: Run(Compiled(denied), nr).value == Verdict(nr in denied) {
      forall i | 0 <= i < |denied| - 255
        ensures denied[i] in Reached(denied)
      {
        assert Run(Compiled(denied), denied[i]).value == Verdict(denied[i] in denied);
      }
    }
    if forall i :: 0 <= i < |denied| - 255 ==> denied[i] in Reached(denied) {
      forall nr | nr in denied
        ensures nr in Reached(denied)
      {
        var i :| 0 <= i < |denied| && denied[i] == nr;
        if i >= |denied| - 255 && |denied| > 255 {
          assert Reached(denied)[i - (|denied| - 255)] == nr;
        }
      }
    }
  }

  // For a list without repetitions the bound is 255 entries, and it is sharp: one more entry lets
  // the first one through.
  lemma DistinctListBound(denied: seq<u32>)
    requires forall i, j :: 0 <= i < j < |denied| ==> denied[i] != denied[j]
    ensures (forall nr ::
               Run(Compiled(denied), nr).Returned? && Run(Compiled(denied), nr).value == Verdict(nr in denied))
       <==> |denied| <= 255
    ensures |denied| > 255 ==> var r := Run(Compiled(denied), denied[0]); r.Returned? && r.value == SECCOMP_RET_ALLOW
  {
    FilterCorrectExactly(denied);
    if |denied| > 255 {
      assert denied[0] !in Reached(denied);
      FilterDeniesExactly(denied, denied[0]);
    }
  }

  // Whatever the list, no jump leaves the program and every path ends in a return.
  lemma FilterWellFormed(denied: seq<u32>)
    ensures WellFormed(Compiled(denied))
    ensures |Compiled(denied)| == |denied| + 3
  {
    var prog := Compiled(denied);
    forall pc | 0 <= pc < |prog|
      ensures prog[pc].code == JMP_JEQ_K ==>
                pc + 1 + prog[pc].jt as int < |prog| && pc + 1 + prog[pc].jf as int < |prog|
    {
      if 1 <= pc <= |denied| {
        assert prog[pc] == JumpToDeny(denied, pc - 1);
      }
    }
  }

  // The instructions as classic BPF encodes them: a word of the data is loaded, compared with each entry, and
  // a jump is taken to the second of the two returns, which are ALLOW and EPERM.
  predicate IsEncoded(prog: seq<SockFilter>, denied: seq<u32>) {
    var n := |denied|;
    && |prog| == n + 3
    && prog[0] == SockFilter(0x20, 0, 0, 0)
    && (forall i :: 0 <= i < n ==> prog[i + 1] == SockFilter(0x15, ((n - i) % 256) as u8, 0, denied[i]))
    && prog[n + 1] == SockFilter(0x06, 0, 0, 0x7fff_0000)
    && prog[n + 2] == SockFilter(0x06, 0, 0, 0x0005_0001)
  }

  lemma FilterIsEncoded(denied: seq<u32>)
    ensures IsEncoded(Compiled(denied), denied)
  {
    forall i | 0 <= i < |denied|
      ensures Compiled(denied)[i + 1] == JumpToDeny(denied, i)
    {
    }
  }

  // The source's construction: the program it pushes together, and what that program means.
  method BuildFilter(denied: seq<u32>) returns (filter: seq<SockFilter>)
    ensures filter == Compiled(denied) && WellFormed(filter)
    ensures IsEncoded(filter, denied)
    ensures forall nr :: Run(filter, nr).Returned? && Run(filter, nr).value == Verdict(nr in Reached(denied))
  {
    var denyCount := |denied|;
    filter := [SockFilter(LD_ABS_WORD, 0, 0, SECCOMP_DATA_NR_OFFSET)];
    for i := 0 to denyCount
      invariant filter == Compiled(denied)[..i + 1]
    {
      var jt := ((denyCount - i) % 0x100) as u8;
      filter := filter + [SockFilter(JMP_JEQ_K, jt, 0, denied[i])];
    }
    filter := filter + [SockFilter(RET_K, 0, 0, SECCOMP_RET_ALLOW)];
    filter := filter + [SockFilter(RET_K, 0, 0, SECCOMP_RET_EPERM)];
    assert filter == Compiled(denied);
    FilterIsEncoded(denied);
    FilterWellFormed(denied);
    forall nr
      ensures Run(filter, nr).Returned? && Run(filter, nr).value == Verdict(nr in Reached(denied))
    {
      FilterDeniesExactly(denied, nr);
    }
  }

  // ------------------------------------------------------------------ the list of the source

  // x86_64 numbers of the denied calls, in the order of the source.
  const DENIED_SYSCALLS: seq<u32> := [
    169, // reboot
    246, // kexec_load
    320, // kexec_file_load
    165, // mount
    101, // ptrace
    248, // add_key
    249, // request_key
    250, // keyctl
    298, // perf_event_open
    321, // bpf
    323, // userfaultfd
    175, // init_module
    313, // finit_module
    176, // delete_module
    163, // acct
    164, // settimeofday
    227, // clock_settime
    167, // swapon
    168  // swapoff
  ]

  // The program that is installed returns EPERM for these calls and ALLOW for all others.
  lemma InstalledFilter(nr: u32)
    ensures Run(Compiled(DENIED_SYSCALLS), nr).Returned?
    ensures Run(Compiled(DENIED_SYSCALLS), nr).steps <= 21
    ensures Run(Compiled(DENIED_SYSCALLS), nr).value
         == if nr in {169, 246, 320, 165, 101, 248, 249, 250, 298, 321, 323, 175, 313, 176, 163, 164, 227, 167, 168}
            then 0x0005_0001 else 0x7fff_0000
    ensures IsEncoded(Compiled(DENIED_SYSCALLS), DENIED_SYSCALLS)
  {
    FilterDeniesExactly(DENIED_SYSCALLS, nr);
    FilterIsEncoded(DENIED_SYSCALLS);
  }
}
