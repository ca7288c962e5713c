# A verified model of the container runtime's core logic

This project models the parts of crate-runtime whose correctness rests on its own logic, and proves
properties of them in Dafny. Run `dafny verify dfyconfig.toml` to check it.

What the program meets outside itself is left arbitrary: saves, spawns and hooks can fail, a command
or a pull can be cut off between any two effects, children exit when they like, registries answer
anything, and the hash is any function. Statements about sequences of commands or pulls are for all
sequences. Arithmetic that can wrap is modelled with its width.

| file | what it models |
|---|---|
| `Calendar.dfy` | the loop-free conversion of a day count to a Gregorian date, against a calendar that only moves to the next day |
| `Timestamp.dfy` | the RFC 3339 formatter, against an independent reader and the order of strings |
| `Lifecycle.dfy` | create, start, stop and delete as scripts of effects on a store of state files, with failures, torn writes and crashes; the theorems about all runs |
| `RuntimeManager.dfy` | the four commands as the source writes them, each shown to perform one possible execution of `Lifecycle` |
| `Processes.dfy` | running hooks and stopping a process: the two polling loops |
| `Seccomp.dfy` | the seccomp filter as a compiler to classic BPF, with an interpreter |
| `Capabilities.dfy` | dropping capabilities one system call at a time |
| `ImageReference.dfy` | parsing and printing image references |
| `ImageStore.dfy` | pulling images into the content-addressed store |
| `IpAllocator.dfy` | the global IP counter under any interleaving of calls |
| `Overlay.dfy` | the OverlayFS mount builder and its option string |
| `Text.dfy`, `Wrappers.dfy`, `MachineIntegers.dfy` | string searching, joining and splitting; `Option`, `Result` and `Reply`; fixed-width integers |

## Findings

Where a property one might expect does not hold, the project proves exactly when it does.

- `days_to_ymd` agrees with the calendar if and only if its first addition does not overflow. A build
  with overflow checks stops there; the model wraps, as a release build does. The program does not get
  there: its only caller passes a number of seconds divided by 86400 (src/runtime/mod.rs:575,582), and
  the theorems about timestamps hold for every number of seconds.
- Timestamps have the RFC 3339 format if and only if the year has at most four digits. Those before a
  given second all sort like time if and only if that second is at most the first of the year 10000.
  In general, two timestamps are in the right order if and only if the earlier year is at most as large
  as equally many leading digits of the later year: two five-digit years always are, 9999 and 10000
  are not.
- The seccomp filter denies exactly the last 255 entries of its list, whatever its length, because jump
  offsets are cast to eight bits. The list of the source has 19.
- A reference is printed and parsed back to itself if and only if it is a tag and, on the default
  registry, its repository has a namespace. Digest references never survive, because they are printed
  after a colon; a spelled-out default registry survives only with a namespace that does not look like
  a registry. The comment in the parser says that a colon is a tag separator only if no slash comes
  before it; the code looks for a slash after it, and the model follows the code.
- The documentation of `download_layer` promises that readers never see partial downloads, and they do
  not; but they can see unverified ones, because the rename comes before the digest check. A rejected
  download stays at its final path, and the next pull takes it for present and succeeds, even from a
  registry that now sends the right content. An image pulled successfully is intact if and only if
  none of its blobs was already bad.
- "Running if and only if a pid is recorded" holds of a record exactly unless the last command that
  changed it ended halfway: a `start` after its first or second effect, or a `stop` of a record with a
  pid right after its first save. No crash is needed for that. When the bundle has no process or
  cloning fails (src/runtime/mod.rs:208,209), `start` returns an ordinary error with Running already
  saved and no pid.
- A process whose `start` ended before its pid was saved is orphaned: `stop` and `delete` can
  succeed without signalling it. Before its container is removed, a process is signalled if and only if that
  save took place.
- `stop` signals the recorded process before it looks at the state. If a `stop` fails between its two
  saves, every later one signals the stale pid, is refused, and leaves it recorded.
- A container whose `create` fails after its first save stays in Creating for good, and a torn state
  file stays torn.
- SIGKILL is sent exactly to a process that can be signalled and stays alive until some poll after the
  timeout. A process started by another invocation of the runtime is no child of the one that stops it,
  so `stop` reports success at the first poll and never sends SIGKILL.
- Two references without slashes share a manifest file if and only if they agree in repository and
  reference, whatever their registries: the layers of an image are those of the last pull under its repository and
  reference that saved a manifest.
- The first 65533 calls for an address succeed; the comment at the allocator speaks of 65534. Addresses
  are distinct for 2^32 calls and no longer, and usable for 2^32 - 2 calls and no longer.

## Model

| member | source | states |
|---|---|---|
| Calendar.CivilDate | src/runtime/mod.rs:594-604 | the date computed is valid and is exactly the given number of days after 0000-03-01; no subtraction underflows |
| Calendar.DaysToYmdIsNaive | src/runtime/mod.rs:591-604 | the result is the date reached from 1970-01-01 by moving to the next day `days` times, if and only if the first addition does not overflow |
| Calendar.DaysToYmdInverse | src/runtime/mod.rs:591-604 | below the overflow limit the result is a valid date from 1970 on that has exactly `days` days before it, by an independent count of years and months |
| Calendar.DaysFromDateInverse | src/runtime/mod.rs:591-604 | every valid date from 1970 on, up to the overflow limit, is the result for its own day count |
| Calendar.DaysToYmdMonotone | src/runtime/mod.rs:591-604 | more days give a later date, and only more days do |
| Calendar.DaysToYmdPeriodic | src/runtime/mod.rs:591-604 | 146097 days later is the same day of the same month 400 years later |
| Timestamp.ReadsBack | src/runtime/mod.rs:567-588 | before the year 10000 a reader of the RFC 3339 format gets back the second that was formatted |
| Timestamp.ReadsBackAlways | src/runtime/mod.rs:567-588 | every second, also of a year with more than four digits, is read back from its timestamp by a reader that takes longer years |
| Timestamp.WritesBack | src/runtime/mod.rs:567-588 | every string the reader accepts is the one the formatter writes for that second |
| Timestamp.HasShapeExactly | src/runtime/mod.rs:584-587 | the string has the twenty-character UTC form of section 5.6 of RFC 3339 if and only if the second is before the year 10000 |
| Timestamp.SortsLikeTime | src/runtime/mod.rs:567-588 | before the year 10000 strings compare like the seconds they stand for, as section 5.1 of RFC 3339 asks |
| Timestamp.SortsExactly | src/runtime/mod.rs:567-588 | of any two seconds, the timestamps are in order if and only if the earlier year is at most as large as equally many leading digits of the later year, and otherwise they are the wrong way round |
| Timestamp.SortsUntilFiveDigits | src/runtime/mod.rs:567-588 | all timestamps of seconds before a given one sort like time if and only if that one is at most the first second of the year 10000 |
| Lifecycle.EveryEffectIsSafe | src/runtime/mod.rs:100-302 | in every run every effect follows the rules: a state file is created in Creating, keeps its state or advances one step and changes nothing else but the pid; a process is spawned only after Running is persisted and when there is none; signals go to the recorded process of this creation; a container is removed only from Stopped, after all four states were persisted; hooks see the status on disk |
| Lifecycle.RecordsAreConsistent | src/runtime/mod.rs:121-274 | at every moment of every run a readable record has persisted the states up to its own, at most one process was spawned since its creation, Creating and Created have no pid, and a pid is that process |
| Lifecycle.OneProcessPerCreation | src/runtime/mod.rs:199-235 | between two processes spawned for one id, the id was created anew |
| Lifecycle.TornIsForever | src/runtime/mod.rs:100-118 | no command ever repairs, replaces or removes a state file that cannot be loaded |
| Lifecycle.CreatingIsForever | src/runtime/mod.rs:144-182 | a record left in Creating by a command is never changed by any later command |
| Lifecycle.SuccessAchieves | src/runtime/mod.rs:178-302 | in every run, success leaves Created, Running with the spawned pid, Stopped without a pid, or no record |
| Lifecycle.OthersAreUntouched | src/runtime/mod.rs:144-302 | whether a command succeeds, fails or crashes, every other record stays as it was |
| Lifecycle.PidRuleExactly | src/runtime/mod.rs:204-263 | after every run a record is Running if and only if it has a pid, exactly unless the last command that changed it was a `start` that ended after its first or second effect or a `stop` of a record with a pid that ended right after its first write |
| Lifecycle.PidRuleFails | src/runtime/mod.rs:204-263 | the rule fails in both directions: Running without a pid and Stopped with a stale pid are reachable by commands that end with an ordinary error |
| Lifecycle.SignalledBeforeRemoval | src/runtime/mod.rs:209-297 | in every run, a spawned process is signalled before its container is removed if and only if `start` saved its pid |
| Lifecycle.OrphanIsReachable | src/runtime/mod.rs:209-297 | a process whose pid was not saved can outlive a `stop` and a `delete` that both succeed, without a signal |
| RuntimeManager.RuntimeManager.SaveStatus | src/runtime/mod.rs:100-107 | a save that succeeds has written the status; otherwise the file is as it was, torn, or written, and the command stays on its script |
| RuntimeManager.RuntimeManager.LoadStatus | src/runtime/mod.rs:110-118 | a status is loaded only from a readable file; not found means there is no file |
| RuntimeManager.RuntimeManager.Transition | src/runtime/mod.rs:121-137 | an invalid transition is refused with both states and without effect; a valid one is saved, and then the file holds the new state |
| RuntimeManager.RuntimeManager.RunHooks | src/runtime/mod.rs:418-515 | records each hook that it launches, in order, with the status it is passed: the hooks up to and including the first that does not succeed, or fewer if the command is cut off; succeeds exactly when all hooks do |
| RuntimeManager.RuntimeManager.CreateContainer | src/runtime/mod.rs:144-182 | performs one possible execution of create on the store; refuses an existing id or an unreadable bundle without effect; the record of a new container is its id, the bundle directory, the timestamp and the annotations of the bundle, in Creating without a pid; the effects are that save, the prestart hooks up to and including the first that fails, with that status, and the save of Created, up to some point; success returns and persists the record in Created; when nothing outside fails, it succeeds exactly when the id is free, the bundle is readable and all prestart hooks succeed, and a failing hook leaves the record in Creating |
| RuntimeManager.RuntimeManager.CreateContainerNow | src/runtime/mod.rs:156-165 | the record is that of the arguments with a timestamp that reads back as the second of the system clock, or as the epoch if the clock is before it |
| RuntimeManager.RuntimeManager.StartContainer | src/runtime/mod.rs:199-235 | performs one possible execution of start; the effects are, up to some point, the save of Running, the spawn, the save of the pid, and exactly the poststart hooks, up to and including the first that fails and with the status just saved, of the bundle in the directory that the record names; success persists the old record in Running with the spawned pid; from any state but Created nothing changes; when nothing outside fails, it succeeds exactly when the state is Created, the bundle is complete and the process is spawned, whatever the poststart hooks do; refused for another reason than the last two it has no effect, and for those two its one effect is to have saved Running without a pid |
| RuntimeManager.RuntimeManager.StopContainer | src/runtime/mod.rs:243-278 | performs one possible execution of stop; the process is dealt with as `linux_stop_process` does, by default with signal 15 and 10 seconds; the effects are, up to some point, its signals in order, and from Running the save of Stopped, the save without the pid, and exactly the poststop hooks, up to and including the first that fails and with the status just saved, of the bundle in the directory that the record names; success persists the old record in Stopped without a pid; when nothing outside fails, it succeeds exactly when the state is Running, the process is dealt with and the bundle is readable, a `stop` refused for its process or its state has sent all its signals and changed nothing, and one refused for its bundle has made both saves |
| RuntimeManager.RuntimeManager.StopRecordedProcess | src/runtime/mod.rs:243-263 | whatever the state, the recorded process is sent the signal first; in Stopped the command is then refused and the stale pid stays recorded |
| RuntimeManager.RuntimeManager.DeleteContainer | src/runtime/mod.rs:285-302 | performs one possible execution of delete; success removes the record; from any state but Stopped nothing changes; when nothing outside fails, it succeeds exactly from Stopped |
| Processes.WaitForHook | src/runtime/mod.rs:459-493 | waiting ends at the first poll that is not still running or is past the timeout; the child is killed exactly in the second case; there are at most timeout / 50 ms + 2 polls |
| Processes.HookPollBoundIsTight | src/runtime/mod.rs:459-493 | for every timeout some child takes that many polls |
| Processes.EndIsUnique | src/runtime/mod.rs:459-493 | the poll at which waiting ends, and how, are determined by the child, the clock and the timeout |
| Processes.RunHook | src/runtime/mod.rs:450-510 | a hook succeeds if its command starts and exits with success, within its timeout in seconds if it has one, negative timeouts counting as zero |
| Processes.LaunchedExactly | src/runtime/mod.rs:421-512 | which hooks are launched is determined by the list and how each hook behaves |
| Processes.StopProcess | src/runtime/mod.rs:519-561 | stops as `StopsAt` describes, within timeout / 100 ms + 2 polls |
| Processes.StopSucceedsExactly | src/runtime/mod.rs:519-561 | in terms of the process and the clock alone: the `kill` calls are none for an invalid signal, the signal and SIGKILL exactly for a process that can be signalled and is alive until some poll after the timeout, and else the signal; stopping fails exactly for an invalid signal, a process that cannot be signalled, or an error of `waitpid` while it is alive within the timeout |
| Processes.StopsExactly | src/runtime/mod.rs:519-561 | when sleeping takes its time, stopping always ends, and it comes to that result and no other |
| Processes.StopIsUnique | src/runtime/mod.rs:519-561 | the poll at which stopping ends, and how, are determined by the process, the clock, the signal and the timeout |
| Processes.ForeignProcessIsNotKilled | src/runtime/mod.rs:540-543 | a process that is no child is reported stopped at the first poll after the first signal alone |
| Seccomp.BuildFilter | src/security/mod.rs:253-295 | the program pushed together is encoded as the source numbers its instructions, well formed and, run for any call number, denies exactly the last 255 entries |
| Seccomp.FilterDeniesExactly | src/security/mod.rs:246-295 | for every list and every call number the program returns within two instructions more than the list has entries, with EPERM if the number is among the last 255 entries and ALLOW otherwise |
| Seccomp.FilterCorrectExactly | src/security/mod.rs:271-279 | the program decides membership in the whole list if and only if every entry before the last 255 is repeated among them |
| Seccomp.DistinctListBound | src/security/mod.rs:271-279 | for a list without repetitions the program is correct if and only if there are at most 255 entries; with more, the first one is allowed |
| Seccomp.FilterWellFormed | src/security/mod.rs:246-295 | every jump is forward and stays in the program, which ends with a return and has three instructions more than the list has entries |
| Seccomp.FilterIsEncoded | src/security/mod.rs:199-215 | the instructions by their numbers: a load (0x20), a comparison (0x15) for each entry in order, and two returns (0x06), ALLOW before EPERM |
| Seccomp.InstalledFilter | src/security/mod.rs:219-239 | the installed filter returns 0x00050001 for nineteen x86_64 call numbers and 0x7fff0000 for all others, within 21 instructions |
| Capabilities.Process.ApplyCapabilities | src/security/mod.rs:51-93 | fails exactly when a drop fails, and stops there; success leaves each set cut down to the fourteen default capabilities and the additional ones; at every step nothing allowed is lost, nothing is gained and Effective stays within Permitted |
| Capabilities.DropStep | src/security/mod.rs:67-89 | one round of the loop leads from the sets cut down below a capability to those cut down below the next, through sound states |
| ImageReference.RoundTripsExactly | src/image/mod.rs:57-139 | for every input that parses, printing and parsing again gives the same reference if and only if it is canonical |
| ImageReference.TagReferencesRoundTrip | src/image/mod.rs:57-139 | every input without an at sign that does not start with the default registry survives |
| ImageReference.DigestsDoNotReturn | src/image/mod.rs:127-139 | a printed digest reference never parses to itself |
| ImageReference.BareNameForms | src/image/mod.rs:50-56 | every bare name, with or without a tag, is a `library` repository of the default registry |
| ImageReference.NamespaceForms | src/image/mod.rs:50-56 | every name whose first component has neither dot nor colon and is not `localhost`, with or without a tag, is a repository of the default registry |
| ImageReference.RegistryForms | src/image/mod.rs:74-94 | every name whose first component has a dot or a colon or is `localhost`, with or without a tag, is a repository of the registry of that name |
| ImageReference.RegistryExactly | src/image/mod.rs:88-103 | the first component of a name is its registry if and only if it has a dot or a colon or is `localhost`; otherwise the registry is the default one and the whole name the repository |
| ImageReference.DigestForms | src/image/mod.rs:63-72 | what follows the first at sign is the digest, and digests other than sha256 are refused |
| ImageReference.DigestExactly | src/image/mod.rs:64-125 | a successful parse gives a digest if and only if the input has an at sign |
| ImageReference.ParseExactly | src/image/mod.rs:57-125 | every input without whitespace around it parses as its at sign, its last colon and its first slash say; a registry without repository and digests other than sha256 are refused |
| ImageReference.WhitespaceIsIgnored | src/image/mod.rs:58-61 | whitespace around an input makes no difference, and an input of nothing else is refused |
| ImageStore.SavedManifestsAreComplete | src/image/mod.rs:475-518 | after any sequence of pulls every saved manifest has its configuration and each of its layers among the blobs |
| ImageStore.BlobsNeverChange | src/image/mod.rs:487-511 | a blob's bytes never change over any sequence of pulls |
| ImageStore.BadBlobsAreFewerThanFailures | src/image/mod.rs:487-511 | there are never more blobs that do not hash to their name than pulls that did not get through |
| ImageStore.IntegrityExactly | src/image/mod.rs:487-514 | a successful pull leaves an intact image if and only if none of its blobs was bad before |
| ImageStore.PullAgain | src/image/mod.rs:487-514 | on every store, after a pull whose download was rejected, a pull of the same manifest from a registry that sends what it says succeeds and leaves an image with a bad blob, if nothing outside fails |
| ImageStore.BadImageIsReachable | src/image/mod.rs:487-514 | on a new store, for any content that does not hash to its name, a first pull is rejected and a second one succeeds with an image of just that content, if nothing outside fails |
| ImageStore.LastSaveWins | src/image/mod.rs:546-564 | the manifest file of a reference is what the last pull of that path that reached its saving made of it |
| ImageStore.ManifestPathInjective | src/image/mod.rs:546-551 | references without slashes have the same manifest path if and only if they agree in repository and reference, whatever their registries |
| ImageStore.LastSaveIsRead | src/image/mod.rs:546-564 | after any pulls, the manifest file of a reference holds the manifest last saved under its repository and reference, from whatever registry |
| ImageStore.ImageStore.DownloadLayer | src/image/mod.rs:297-365 | the final path changes only on success, and then holds the concatenation of all chunks that the registry sends for the URL of the blob; when no file operation fails, it succeeds exactly for a stream that ends properly |
| ImageStore.ConcatAppends | src/image/mod.rs:343-351 | chunks are written one after the other |
| ImageStore.ImageStore.VerifyDigest | src/image/mod.rs:376-399 | when the file can be read, succeeds exactly for a sha256 digest equal to the hash of the file |
| ImageStore.ImageStore.FetchBlob | src/image/mod.rs:487-510 | a present blob is left alone; otherwise success means that the registry sent what the digest says and it is there, and a rejected download is there too, with what the registry sent; when no file operation fails, the result is success for a blob that was there or is genuine, a digest mismatch for any other complete download, and a download failure for an incomplete one |
| ImageStore.ImageStore.FetchBlobs | src/image/mod.rs:487-511 | the blobs are fetched in order: success means that each was there when its turn came or genuine, and that no bad blob is new; a digest mismatch or a failed download is that of the first blob that is neither, and a mismatch leaves it there as the registry sent it; at most one bad blob is new |
| ImageStore.ImageStore.SaveManifest | src/image/mod.rs:553-564 | only the manifest of this path changes: saved on success, and otherwise as it was, torn or saved |
| ImageStore.ImageStore.PullImage | src/image/mod.rs:475-518 | whatever happens, the pull is one of those the theorems are about; the manifest is the registry's answer for its URL, and every new blob is the registry's answer for the URL of the configuration first and then of the layers in order; success returns and saves the manifest, and its configuration and every layer are there, with no new blob that is bad; when no file operation fails, it succeeds exactly if every blob is there when its turn comes or genuine, and otherwise ends at the first that is neither, which stays in the store if it was rejected |
| ImageStore.ImageStore.GetImageLayers | src/image/mod.rs:524-580 | a readable manifest gives the paths `blobs/sha256/<hex>` of all its layers in its order if all are present, and the path of a missing one otherwise, which never happens in a store changed only by pulls; they are the layers of the last pull that saved a manifest of the same repository and reference |
| IpAllocator.IpCounter.AllocateIp | src/network/mod.rs:43-53 | a call is a fetch and a return of the machine with any steps of other threads between them and its result is its reply there; call number n, counted from 0, has host (n + 2) mod 2^32 of its subnet and succeeds exactly if that is at most 65534, so until the counter wraps exactly for n < 65533 |
| IpAllocator.InvariantHolds | src/network/mod.rs:31-53 | under every interleaving host parts are counted up from 2, each call has at most one reply, which is its own allocation, and no call is lost |
| IpAllocator.ServedInOrder | src/network/mod.rs:43-53 | until the counter wraps, exactly the first 65533 calls succeed, so none does after the first failure, and aligned addresses are neither network, gateway nor broadcast |
| IpAllocator.AddressesAreDistinct | src/network/mod.rs:43-53 | among the first 2^32 calls, successful ones get distinct addresses, also across aligned /16 subnets |
| IpAllocator.AddressesRepeat | src/network/mod.rs:43-53 | the call after the first 2^32 is handed the address of the first one, if it is for the same subnet |
| IpAllocator.SuccessCount | src/network/mod.rs:43-53 | when all of n calls have returned, min(n, 65533) have an address |
| IpAllocator.UsableUntilWrap | src/network/mod.rs:43-53 | all addresses handed out are usable hosts if and only if there were at most 2^32 - 2 calls |
| Overlay.OverlayMountBuilder.Build | src/filesystem/mod.rs:223-254 | accepts only mounts with a mountpoint, a lower directory and an option string, unchanged; a refusal names the first thing missing |
| Overlay.DecodesExactly | src/filesystem/mod.rs:53-78 | the option string says exactly the directories, in order, if and only if there is a lower directory and no path contains a separator |
| Overlay.OptionForms | src/filesystem/mod.rs:53-78 | the option strings for one and for two lower directories, read-only and not, letter by letter |
| Overlay.SeparableDecodes | src/filesystem/mod.rs:53-78 | accepted mounts whose paths contain no separator decode to their directories |

## Left out

- System calls: cloning, mounting, `pivot_root`, devices, `prctl`, netlink and iptables. Where a core needs one (spawn, kill, waitpid, dropping a capability) it is an arbitrary outcome.
- HTTP, authentication tokens, JSON, TOML, tar, gzip and SHA-256 itself: persisted records are values and the hash is any function.
- Container ids, repositories and digests with path components such as `..`, leading slashes or dots: ids are single components and blob names are plain file names. Two manifest paths that name one file, or a file and a directory, are not identified.
- Several processes using one root or one image store at the same time: the source takes no lock.
- Querying and listing containers: they read state files one by one.
- Builds for systems other than Linux.
- `validate_path`, `ContainerBuilder`, host names, cgroup files, configuration defaults, the command line and logging.
- The length field of the BPF program, which is cast to 16 bits, and the kernel's own checks when it installs a program.
- The order in which the kernel stacks overlay layers.
- The arguments, environment and standard input of hooks.
- Calendar.DaysToYmdMonotone: is stated below the overflow limit only, where the dates are those of the calendar.
- RuntimeManager.RuntimeManager.RunHooks: a status always serialises, so the failure of writing the hooks' input before the first hook is not modelled.
- Capabilities.Process.ApplyCapabilities: knows the 41 capabilities of Linux up to CHECKPOINT_RESTORE; the bounding and ambient sets, which the source does not touch, are not modelled.
- Processes.StopProcess: takes the signal numbers 1 to 31 as the ones the signal library knows.
