# DMOJ sandbox policy and legacy judge, modelled in Dafny

This project models two pieces of the DMOJ judge.

The first is the syscall sandbox set up by `dmoj/cptbox/tracer.py`:
- how `TracedPopen.__init__` turns the requested time and memory into the limits the child gets;
- how it registers a security policy into per-ABI handler and callback tables;
- how `_get_seccomp_whitelist` builds the seccomp whitelist;
- how `_callback` decides a syscall routed to Python;
- the `AdvancedDebugger` helpers `get_syscall_name`, `address_bits`, `noop_syscall_id` and `readstr`;
- the verdict predicates `is_rte`, `is_ir` and `is_mle`.

The second is the legacy `judge.py`:
- the `Result` record and its flag bits;
- the output comparison of `ProgramJudge.run`, which strips both outputs, turns CRLF into LF, compares them and sets the WA bit;
- the 10-character preview;
- the line-ending normalisation of the data `write_async` feeds to the child;
- the `alive`/`close`/`read`/`readline` state machine around the child process.

Modules:
- `PyValues` (`pyvalues.dfy`): Python's `None`, the exceptions raised, and `Result` values standing for "returned or raised".
- `Text` (`text.dfy`): `str.strip`, `rstrip` and the two `replace` calls on line endings.
- `Syscalls` (`syscalls.dfy`): ABIs, the syscall tables, and the `AdvancedDebugger` helpers.
- `Tracer` (`tracer.dfy`): the `TracedPopen` class, its limits, the policy tables, the whitelist and the callback.
- `Judge` (`judge.dfy`): `Result`, `ProgramJudge` and the comparison.

Some values come from modules that are not part of this model: the syscall tables, the handler constants, the supported ABIs, and the syscall ids of `exit`, `exit_group` and `getpid`. They are passed in as one `Tables` value. `WellFormed` states what the code relies on in them: a name and six columns per row, every listed number below `MAX_SYSCALL_NUMBER`, a `getpid` id that is a row, a valid native ABI, a supported-ABI list without duplicates or the invalid ABI, and `ALLOW` different from `DISALLOW` (the whitelist tells an allowed number from a missing handler only by that difference).

The policy tables (`_callbacks`, and the codes passed to the native `_handler`) are lists of arrays, one array per ABI column, as `_callbacks` is a list of lists. The class fills them with three nested loops, one method per loop. Their contents are proved equal to a "last writer wins" specification (`LastWriter`), and the properties of that specification are proved as lemmas.

The child process of `ProgramJudge` is not running code here. Each answer it gives is a parameter of the method that asks for it: the result of `poll()` or `wait()`, or the data a read returns.

## Model

| member | source | states |
|---|---|---|
| `Syscalls.Column` | dmoj/cptbox/tracer.py:22-29 | each valid ABI has one of the six columns of `translator` |
| `Syscalls.ColumnInjective` | dmoj/cptbox/tracer.py:22-29 | two valid ABIs share a column iff they are the same ABI |
| `Syscalls.FirstRow` | dmoj/cptbox/tracer.py:69-72 | the result is the lowest row at or after the start whose column lists the number, and no earlier row lists it |
| `Syscalls.SyscallName` | dmoj/cptbox/tracer.py:64-73 | for the invalid ABI: "failed to read registers"; if no row lists the number: "unknown"; otherwise the name of the lowest-numbered row listing it |
| `Syscalls.GetSyscallName` | dmoj/cptbox/tracer.py:64-73 | the loop that stops at the first matching row returns exactly `SyscallName` |
| `Syscalls.AddressBits` | dmoj/cptbox/tracer.py:33-40 | None exactly for the invalid ABI; 32 exactly for x86, x32 and ARM; 64 exactly for x64, FreeBSD x64 and ARM64 |
| `Syscalls.NoopSyscallId` | dmoj/cptbox/tracer.py:58-62 | raises exactly when the ABI is invalid or `getpid`'s column is empty; otherwise returns the first entry of that column, which may be `None` |
| `Syscalls.NoopIsGetpid` | dmoj/cptbox/tracer.py:58-73 | a number `noop_syscall_id` returns is named after `getpid` by `get_syscall_name`, unless a lower syscall id lists the same number |
| `Syscalls.EffectiveAddress` | dmoj/cptbox/tracer.py:76-77 | on a 32-bit ABI the address is reduced to its low 32 bits (congruent mod 2^32, in range); otherwise it is unchanged |
| `Syscalls.ReadStr` | dmoj/cptbox/tracer.py:75-83 | asks the native reader for `max_size + 1` bytes at the effective address; a `None` read gives `None`; a read longer than `max_size` raises `MaxLengthExceeded` carrying the bytes; otherwise returns the read, at most `max_size` long |
| `Syscalls.ReadStrDefaultSize` | dmoj/cptbox/tracer.py:75 | at the default `max_size` of 4096 the reader is asked for 4097 bytes; a longer read than 4096 bytes raises, and a string returned is the read, at most 4096 bytes |
| `Tracer.DeriveLimits` | dmoj/cptbox/tracer.py:121-126 | the limit arithmetic of `__init__`: wall time, CPU time, data bytes and address bytes, with `__init__`'s defaults (`time=0`, `memory=0`, `address_grace=4096`, `data_grace=0`, `wall_time=None`); its properties are stated by `TimeLimits`, `MemoryLimitsInKib` and `DefaultLimits` |
| `Tracer.TimeLimits` | dmoj/cptbox/tracer.py:120-122 | the wall limit is the explicit wall time when given, else three times `time`; the CPU limit is `time + 5` when `time` is nonzero, else 0 |
| `Tracer.DefaultLimits` | dmoj/cptbox/tracer.py:90-126 | with the defaults of `__init__` and a given `memory`: no wall or CPU limit, a data limit of `memory * 1024` bytes, and an address limit of `(memory + 4096) * 1024` bytes when `memory` is nonzero, else 0 |
| `Tracer.MemoryLimitsInKib` | dmoj/cptbox/tracer.py:123-126 | the data limit is `(memory + data_grace) * 1024`; the address limit is `(memory + address_grace) * 1024` when `memory` is nonzero, else 0 |
| `Tracer.EnvStrings` | dmoj/cptbox/tracer.py:115-119 | every string is `NAME=value` for an entry whose value is not `None`; when no value is `None`, the list is every entry in order |
| `Tracer.HandlerFor` | dmoj/cptbox/tracer.py:146 | a syscall id missing from the policy gets DISALLOW; otherwise its policy entry |
| `Tracer.LastWriterSpec` | dmoj/cptbox/tracer.py:140-152 | `LastWriter` finds an id below `n` that lists the number and writes this table, and no later id below `n` does both; it finds none only when no id below `n` does both |
| `Tracer.NoneRejectedBelowEach` | dmoj/cptbox/tracer.py:141-149 | checking the ids one after another in loop order finds no rejected handler iff no id below `n` has one |
| `Tracer.AcceptedBeforeEach` | dmoj/cptbox/tracer.py:140-149 | visiting the ABIs one after another in loop order finds no rejected handler iff each of the first `a` ABIs accepts the policy |
| `Tracer.ColumnsBeforeStep` | dmoj/cptbox/tracer.py:140-141 | each round of the ABI loop visits a column that no earlier round visited |
| `Tracer.SupportedColumnsListed` | dmoj/cptbox/tracer.py:140-141 | after the ABI loop, the visited columns are exactly the columns of the supported ABIs |
| `Tracer.IsRte` | dmoj/cptbox/tracer.py:222-224 | `is_rte`: no return code, or a negative one (killed by a signal); `VerdictsPartitionExits` relates it to `is_ir` |
| `Tracer.IsMle` | dmoj/cptbox/tracer.py:214-216 | `is_mle`: a memory limit is set and the peak memory exceeds it; `NoMleWithoutLimit` states the unlimited case |
| `Tracer.IsIr` | dmoj/cptbox/tracer.py:210-212 | raises `TypeError` exactly for a missing return code and returns a bool for every code; true exactly for a positive one |
| `Tracer.VerdictsPartitionExits` | dmoj/cptbox/tracer.py:210-224 | `is_rte` holds iff the code is negative and `is_ir` iff it is positive; they never both hold; neither holds iff the code is 0 |
| `Tracer.NoMleWithoutLimit` | dmoj/cptbox/tracer.py:214-216 | with memory limit 0, `is_mle` is false whatever the peak memory |
| `Tracer.PyIndex` | dmoj/cptbox/tracer.py:250-252 | a Python list index succeeds exactly for `-len <= i < len`, counting negative indices from the end; otherwise `IndexError` |
| `Tracer.TracedPopen.constructor` | dmoj/cptbox/tracer.py:90-138 | takes `__init__`'s defaults for every argument except the tables (no policy, seccomp not avoided, no limits, 4096 KiB address grace); the limits are derived from the request; seccomp is used iff a policy is given and not avoided; syscalls are traced iff a policy is given; both tables start empty |
| `Tracer.TracedPopen.InstallPolicy` | dmoj/cptbox/tracer.py:135-152 | with no policy nothing is registered; with a policy it fails (raises) iff some handler that is neither int nor callable belongs to an id with a number under a supported ABI; on success every supported column holds the last write for each number and the other columns stay empty |
| `Tracer.TracedPopen.RegisterAll` | dmoj/cptbox/tracer.py:140-152 | the loop over `SUPPORTED_ABIS` succeeds iff no handler is rejected, and on success leaves the tables installed |
| `Tracer.TracedPopen.StageZero` | dmoj/cptbox/tracer.py:136-140 | empty tables are the state before the first ABI is visited |
| `Tracer.TracedPopen.StageComplete` | dmoj/cptbox/tracer.py:140-152 | once every supported ABI is visited, the tables are installed |
| `Tracer.TracedPopen.RegisterAbi` | dmoj/cptbox/tracer.py:141-152 | one ABI's round: its column is completed and the rest stay as they were, unless its column rejects a handler |
| `Tracer.TracedPopen.RegisterColumn` | dmoj/cptbox/tracer.py:141-152 | processing all ids for one column leaves the other columns alone and fills the column with the last write for each number, unless some id's handler is invalid |
| `Tracer.TracedPopen.RegisterNumbers` | dmoj/cptbox/tracer.py:143-152 | one id's numbers: an int handler is registered as is; a callable goes into the callback table and is registered as `_CALLBACK`; a handler that is neither fails if the id has any number |
| `Tracer.TracedPopen.SeccompWhitelist` | dmoj/cptbox/tracer.py:169-183 | a fresh list of `MAX_SYSCALL_NUMBER` entries; each entry is the verdict of the last int handler written to it, skipping exit and exit_group |
| `Tracer.TracedPopen.WhitelistNumbers` | dmoj/cptbox/tracer.py:178-182 | one id's native numbers: when its handler is an int, each takes the verdict `handler == ALLOW`, so the whitelist moves from the state after id `i` to the state after `i + 1` |
| `Tracer.TracedPopen.OnCallback` | dmoj/cptbox/tracer.py:245-260 | deny for the invalid ABI; a number outside the table is allowed iff the ABI is ARM and the number lies strictly between 0xF0000 and 0xF0006; inside the table, allowed iff a callable is registered and it returns true |
| `Tracer.EveryListedNumberRegistered` | dmoj/cptbox/tracer.py:140-152 | under an accepted policy, every number a supported ABI lists gets a handler; when its last id is missing from the policy, that handler is DISALLOW |
| `Tracer.SoleOwnerRegistration` | dmoj/cptbox/tracer.py:143-152 | for a number only one id lists: an int handler is registered as is with no callback; a callable is registered as `_CALLBACK` and stored in the callback table |
| `Tracer.WhitelistSound` | dmoj/cptbox/tracer.py:169-183 | a whitelisted number is listed by an id other than exit and exit_group whose handler is the int ALLOW |
| `Tracer.ExitAlwaysTraps` | dmoj/cptbox/tracer.py:173-176 | a number listed only by exit or exit_group is never whitelisted |
| `Tracer.WhitelistSoleOwner` | dmoj/cptbox/tracer.py:175-182 | for a number only one id lists: whitelisted iff that id is not exit or exit_group and its handler is the int ALLOW; callable and missing handlers give false |
| `Tracer.WhitelistAgreesWithHandlers` | dmoj/cptbox/tracer.py:169-183 | a number with one owner that seccomp lets through has the ptrace handler ALLOW in the native column |
| `Tracer.CallbackOnlyFromPolicy` | dmoj/cptbox/tracer.py:245-260 | after registration, `_callback` allows an in-table number only under a supported ABI, through a callable the policy gives to an id listing that number |
| `Text.RStrip` | judge.py:118 | `str.rstrip()` is never longer than its input; `RStripSpec` pins it down |
| `Text.LStrip` | judge.py:130 | `str.lstrip()` is never longer than its input; `LStripSpec` pins it down |
| `Text.Strip` | judge.py:130-136 | `str.strip()` is `lstrip` then `rstrip`, never longer than its input; `StripIgnoresSurroundingSpace` and `StripToCrlf` state its properties |
| `Text.RStripSpec` | judge.py:118 | `rstrip` returns a prefix that does not end in whitespace, and everything removed is whitespace |
| `Text.RStripIdempotent` | judge.py:121 | right-stripping an already right-stripped line changes nothing |
| `Text.LStripSpec` | judge.py:130 | `lstrip` returns a suffix that does not start with whitespace, and everything removed is whitespace |
| `Text.ReplaceCrlf` | judge.py:132 | replacing CRLF never lengthens the text |
| `Text.ReplaceCr` | judge.py:160 | the result has no CR; each CR becomes LF and every other character is kept in place |
| `Text.ReplaceCrlfKeepsCrFree` | judge.py:132 | text without CR is unchanged by the CRLF replacement |
| `Text.ReplaceChainIsUnify` | judge.py:160 | the two chained replacements equal a one-pass unification: CRLF, lone CR and LF each become one LF |
| `Text.ReplaceCrlfUndoesToCrlf` | judge.py:132 | CRLF text is turned back into the LF text it encodes |
| `Text.StripIgnoresSurroundingSpace` | judge.py:130 | whitespace around a text does not change its `strip()` |
| `Text.StripToCrlf` | judge.py:132 | stripping commutes with writing LF as CRLF |
| `Text.StripKeepsCrFree` | judge.py:130-132 | stripping text without CR gives text without CR |
| `Judge.FlagsAreDistinctBits` | judge.py:15-18 | AC is 0; WA, RTE and TLE are distinct single bits |
| `Judge.Normalized` | judge.py:132-136 | strip then CRLF to LF, as `run` applies to both outputs; never longer than its input; `Verdict` compares the two |
| `Judge.Preview` | judge.py:133 | the preview is the prefix of length min(10, length) |
| `Judge.Verdict` | judge.py:128-138 | the flag is AC or WA, and has the WA bit iff the stripped, CRLF-normalised outputs differ |
| `Judge.SurroundingWhitespaceAccepted` | judge.py:132-138 | the expected text with whitespace around it is accepted |
| `Judge.CrlfOutputAccepted` | judge.py:132-138 | the expected text printed with CRLF line endings is accepted |
| `Judge.FeedNormalized` | judge.py:160 | the data fed to the child contains no CR |
| `Judge.FeedNormalizedLineEndings` | judge.py:160 | CRLF becomes LF, a lone CR becomes LF, and text without CR is unchanged |
| `Judge.FeedNormalizedIdempotent` | judge.py:160 | normalising twice gives the same as once |
| `Judge.Result.constructor` | judge.py:20-24 | a fresh result has flag 0 (AC), time 0, memory 0 and no partial output |
| `Judge.ProgramJudge.constructor` | judge.py:61-78 | `redirect`, `transfer` and `interact` default to false; no result, not stopped, no exit code, empty write queue; the streams are redirected iff `redirect` |
| `Judge.ProgramJudge.Alive` | judge.py:89-98 | returns "not stopped"; once stopped nothing is polled or changed; otherwise it polls, and on an exit it stops, keeps the exit code, restores the streams and records the flag (`None` by default) |
| `Judge.ProgramJudge.Close` | judge.py:100-110 | `force_terminate` defaults to false and `result_flag` to `None`; a no-op without a result or once stopped; otherwise the judge ends stopped with the given flag, whether the poll found an exit or the child was running; a running child is terminated iff `force_terminate` or `interact`, and waited for otherwise |
| `Judge.ProgramJudge.Read` | judge.py:112-113 | returns the child's output while it is alive, and "" once it is not; polls once unless stopped, and keeps the polled exit code |
| `Judge.PollReadCalls` | judge.py:119-120 | `k` rounds of the readline loop make `2k` requests of the child |
| `Judge.ProgramJudge.ReadlineRound` | judge.py:119-120 | one round: `alive()` polls; while the child lives one line is read and right-stripped; on an exit nothing is read and the flag becomes `None` |
| `Judge.ProgramJudge.SkipBlankLines` | judge.py:116-120 | stops at the first round `k` whose poll shows an exit or whose line is not blank; every round before `k` found the child alive and read a blank line; round `k` either found it dead (no read, flag `None`) or read that line; the requests are the `k` earlier poll-and-read rounds plus round `k`'s, and the exit code is round `k`'s poll |
| `Judge.ProgramJudge.Readline` | judge.py:115-121 | once stopped returns "" and asks nothing; otherwise there is one round `k` such that every earlier poll found the child alive and every earlier line was blank, the exit code is poll `k`'s answer, and either poll `k` shows an exit (the judge is stopped, returns "", and the requests are `k` poll-and-read rounds and one poll) or the child is alive (returns line `k` right-stripped, which is not empty, after `k + 1` poll-and-read rounds); the line returned has no trailing whitespace |
| `Judge.ProgramJudge.Write` | judge.py:141-142 | the item is appended to the write queue |
| `Judge.QueuedInput` | judge.py:125-131 | three items with `transfer` and two without: the stdin data first when transferred, then the stripped input, then EOF last |
| `Judge.ProgramJudge.QueueInput` | judge.py:125-131 | the write queue grows by exactly the items of `QueuedInput` |
| `Judge.ProgramJudge.CollectOutput` | judge.py:132-135 | reads the output (the child's while alive at the poll, "" otherwise) and records its preview, the peak memory and the running time; the requests and exit code are those of `read` |
| `Judge.ProgramJudge.StdinRead` | judge.py:126 | `sys.stdin.read()`: the process's stdin when the streams are not redirected, with nothing polled or changed; while they are redirected, the judge's own `read()`: a poll, then the child's output while it lives, or "" with the judge stopped and the flag `None` on an exit |
| `Judge.ProgramJudge.QueueRunInput` | judge.py:125-131 | queues `sys.stdin.read()` (under `transfer`), the stripped input and EOF; only a transfer through the redirected streams polls, reads or stops the judge |
| `Judge.ProgramJudge.JudgeOutput` | judge.py:132-139 | records memory, time and the preview, and ends stopped; the flag is the comparison verdict when the child was alive at the read, and `None` when the read found it exited; the requests are a poll, and while the child lives a read, `close`'s poll, and then its `wait` (or `terminate` for an interactive judge) unless that poll finds an exit |
| `Judge.ProgramJudge.Run` | judge.py:123-139 | queues the transferred data, the stripped input and EOF: the transferred data is the real stdin when the streams are not redirected, otherwise the child's own output read back through `read()`, or "" when that read finds the child exited; it records memory, time and the preview and ends stopped; a child found exited at the transfer leaves the flag `None` after one poll; otherwise the flag is the comparison verdict when the child is alive at the read and `None` when it is not; the requests and exit code are the transfer's poll and read (when redirected), then those of the read and `close` |

## Left out

- Threads and synchronisation are left out because their point is concurrency. This covers the shocker and worker threads, the `threading.Event`s, the writer thread `write_async` (only its `replace` chain is modelled), `write_lock` and the `Queue`. The write queue is a sequence.
- The native ptrace/seccomp extension (`Debugger`, `Process`, `_handler`, `_spawn`, registers, `execution_time`, `max_memory`, spawn-failure codes in `wait`) is foreign code. Its results are parameters: the native `readstr` is a function parameter, a callback's answer is `invoke`, and `_handler` calls are the `handlers` table.
- OS and I/O plumbing is not modelled. This covers `os.killpg`, `oom_score_adj`, pipes and `__init_streams`, `find_exe_in_path`, `safe_communicate`, and file opens. `sys.stdin.read()` on the real stdin is the parameter `stdinData`. The swap of `sys.stdin`/`sys.stdout` is the boolean `redirected`.
- `TracedPopen.wait`, `poll`, `kill`, `mark_ole`, `is_ole`, `is_tle`, `_protection_fault` and `create_debugger` are not modelled: they forward native state or do I/O and logging. The `syscall_name` property is `get_syscall_name` of the current syscall.
- The `Judge` class (packet manager, the `run` generator) and `main` are network and printing code.
- Times are exact reals; floating-point rounding is not modelled.
- `translator`, `by_id`, `SYSCALL_COUNT`, `MAX_SYSCALL_NUMBER`, `ALLOW`, `DISALLOW`, `_CALLBACK`, `SUPPORTED_ABIS`, `NATIVE_ABI` and the syscall ids of `exit`, `exit_group` and `getpid` are parameters (`Tables`). `SYSCALL_COUNT` is taken to be the number of `translator` rows, every listed number is assumed below `MAX_SYSCALL_NUMBER`, `SUPPORTED_ABIS` is assumed to hold no duplicates and not the invalid ABI, and `ALLOW` is assumed to differ from `DISALLOW`.
- The `_callbacks` list and the handler table have one array per ABI column rather than one list per native ABI value. The two index the same rows because `Column` is injective. The rows are distinct arrays, so the model has no aliasing between them; in the source each row is a fresh list as well.
- `Syscalls.ReadStr`: does not model UTF-8 decoding of the bytes read; it returns the bytes.
- `Tracer.TracedPopen.constructor`: covers the limits, the seccomp and tracing flags and the empty tables. The executable lookup, arguments, streams and thread start-up are left out. The native default of `_trace_syscalls` with a policy is taken to be true.
- `Tracer.TracedPopen.InstallPolicy`: is the registration loop of `__init__`, run after the constructor. When it fails it says nothing about the partly filled tables; the source raises from `__init__`, so they are never used.
- `Tracer.TracedPopen.InstallPolicy`: a failure is `ok == false` and does not say which exception is raised. The source means to raise `ValueError('Handler not callable: ...')`, but it builds that message by `str` concatenation. So only a `str` handler gets the `ValueError`; for `None`, a float, a list or any other value the concatenation raises `TypeError` first.
- `Tracer.EnvStrings`: when some values are `None`, the contract states only that every string comes from a non-`None` entry, and not their order. `utf8bytes` encoding is left out, and `os.environ` is taken as the `env` parameter.
- `Judge.ProgramJudge.Alive`: requires a result to be set when the poll shows an exit; the source raises `AttributeError` there. `Read`, `StdinRead`, `ReadlineRound` and `SkipBlankLines` have the same requirement. `Readline` requires a result only when one of its polls that is reached (`ExitReached`: every earlier poll found the child alive and every earlier line was blank) shows an exit.
- `Judge.ProgramJudge.Readline`: the poll answers must end with an exit, so the loop terminates. A child that keeps writing blank lines forever is not modelled.
- `__del__` and `__exit__` just call `close(True)` and `close()`; they are covered by `Close`.
- As written, `run` leaves the flag as `None` when the child has exited before the output is read. `read()` calls `alive()` without a flag, which sets `result_flag` to `None` and returns "", and the final `close` is then a no-op. `Judge.ProgramJudge.Run` states this behaviour.
