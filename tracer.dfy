/** `TracedPopen` (dmoj/cptbox/tracer.py:86-260): the limits a traced child is
    given, the tables that route each syscall to a handler, the seccomp
    whitelist, the callback dispatch and the verdict predicates. */
module Tracer {
  import opened PyValues
  import opened Syscalls

  // ---------------------------------------------------------------------
  // Limits (tracer.py:120-126)

  /** The limits derived from a request: seconds of wall and CPU time, and
      bytes of data segment and address space (0 means unlimited). */
  datatype Limits = Limits(wallTime: real, cpuTime: real, dataBytes: int, addressBytes: int)

  /** The limit arithmetic of `TracedPopen.__init__`; `time` and `wallTime`
      are seconds, `memory` and both graces are KiB. The defaults are those
      of `__init__`. */
  function DeriveLimits(time: real := 0.0, memory: int := 0, addressGrace: int := 4096, dataGrace: int := 0,
                        wallTime: Option<real> := None): Limits {
    Limits(
      if wallTime.None? then time * 3.0 else wallTime.value,
      if time != 0.0 then time + 5.0 else 0.0,
      memory * 1024 + dataGrace * 1024,
      if memory != 0 then memory * 1024 + addressGrace * 1024 else 0)
  }

  /** The time limits: an explicit wall time is used as given, otherwise the
      wall limit is three times `time`; the CPU rlimit lies five
      seconds above the time limit and is off (0) when there is no time limit. */
  lemma TimeLimits(time: real, memory: int, addressGrace: int, dataGrace: int, wallTime: Option<real>)
    ensures var r := DeriveLimits(time, memory, addressGrace, dataGrace, wallTime);
            && (wallTime.Some? ==> r.wallTime == wallTime.value)
            && (wallTime.None? ==> r.wallTime == 3.0 * time)
            && (time != 0.0 ==> r.cpuTime - time == 5.0)
            && (time == 0.0 ==> r.cpuTime == 0.0)
  {
  }

  /** With `__init__`'s defaults there is no time limit, the data limit is
      `memory` KiB, and a nonzero `memory` gets an address-space limit 4096
      KiB above it. */
  lemma DefaultLimits(memory: int)
    ensures var r := DeriveLimits(memory := memory);
            && r.wallTime == 0.0 && r.cpuTime == 0.0
            && r.dataBytes == memory * 1024
            && (memory != 0 ==> r.addressBytes == (memory + 4096) * 1024)
            && (memory == 0 ==> r.addressBytes == 0)
  {
  }

  /** The memory limits are whole KiB: the data limit is `memory + data_grace`
      KiB, the address-space limit `memory + address_grace` KiB, or 0
      (unlimited) when no memory limit is set. */
  lemma MemoryLimitsInKib(time: real, memory: int, addressGrace: int, dataGrace: int, wallTime: Option<real>)
    ensures var r := DeriveLimits(time, memory, addressGrace, dataGrace, wallTime);
            && r.dataBytes % 1024 == 0 && r.dataBytes / 1024 == memory + dataGrace
            && r.addressBytes % 1024 == 0
            && (memory != 0 ==> r.addressBytes / 1024 == memory + addressGrace)
            && (memory == 0 ==> r.addressBytes == 0)
  {
  }

  /** `_env`: the `NAME=value` strings handed to the child, in order, skipping
      variables whose value is `None`. */
  function EnvStrings(env: seq<(string, Option<string>)>): (r: seq<string>)
    ensures |r| <= |env|
    ensures forall s | s in r :: exists i | 0 <= i < |env| :: env[i].1.Some? && s == env[i].0 + "=" + env[i].1.value
    ensures (forall i | 0 <= i < |env| :: env[i].1.Some?) ==>
              |r| == |env| && forall i | 0 <= i < |env| :: r[i] == env[i].0 + "=" + env[i].1.value
  {
    if env == [] then []
    else
      var rest := EnvStrings(env[1..]);
      if env[0].1.None? then rest else [env[0].0 + "=" + env[0].1.value] + rest
  }

  // ---------------------------------------------------------------------
  // Security policy (tracer.py:136-183)

  /** A Python callable registered as a syscall handler, known by identity. */
  datatype CallbackRef = CallbackRef(id: nat)

  /** A value of the security policy: an int handler code, a callable, or
      something else (which `__init__` rejects). */
  datatype Handler = Code(code: int) | Callable(fn: CallbackRef) | NotCallable

  /** The security policy: a dict from syscall id to handler. */
  type Policy = map<int, Handler>

  /** `security.get(i, DISALLOW)`. */
  function HandlerFor(t: Tables, policy: Policy, id: int): (h: Handler)
    ensures id !in policy ==> h == Code(t.disallow)
    ensures id in policy ==> h == policy[id]
  {
    if id in policy then policy[id] else Code(t.disallow)
  }

  /** The three tables the registration loops write. */
  datatype Table = HandlerTable | CallbackTable | SeccompTable

  /** Whether syscall id `i` writes its numbers' entries of `table`: every id
      registers a handler; only callables fill the callback table; the
      whitelist takes int handlers of ids other than exit and exit_group. */
  predicate Writes(table: Table, t: Tables, policy: Policy, i: nat) {
    match table
    case HandlerTable => true
    case CallbackTable => HandlerFor(t, policy, i).Callable?
    case SeccompTable => i != t.sysExit && i != t.sysExitGroup && HandlerFor(t, policy, i).Code?
  }

  /** The last syscall id below `n` that writes `call`'s entry of `table` in
      column `col`: the loops visit ids in increasing order, so a later write
      overwrites an earlier one. */
  function LastWriter(table: Table, t: Tables, policy: Policy, col: nat, call: int, n: nat): Option<nat>
    requires n <= |t.translator| && Columned(t.translator, col)
  {
    if n == 0 then None
    else if Some(call) in t.translator[n - 1][col] && Writes(table, t, policy, n - 1) then Some(n - 1)
    else LastWriter(table, t, policy, col, call, n - 1)
  }

  /** `LastWriter` finds an id below `n` that lists the number and writes the
      table, and no later id below `n` does both; `None` when no id does. */
  lemma {:induction false} LastWriterSpec(table: Table, t: Tables, policy: Policy, col: nat, call: int, n: nat)
    requires n <= |t.translator| && Columned(t.translator, col)
    ensures var r := LastWriter(table, t, policy, col, call, n);
            && (r.Some? ==> r.value < n && Some(call) in t.translator[r.value][col] && Writes(table, t, policy, r.value))
            && (forall j | (if r.Some? then r.value < j else 0 <= j) && j < n ::
                  !(Some(call) in t.translator[j][col] && Writes(table, t, policy, j)))
  {
    if n > 0 && !(Some(call) in t.translator[n - 1][col] && Writes(table, t, policy, n - 1)) {
      LastWriterSpec(table, t, policy, col, call, n - 1);
    }
  }

  /** The code `_handler` registers for id `i`: an int as it is, `_CALLBACK`
      for a callable. (A handler that is neither is never registered: it
      raises first.) */
  function CodeOf(t: Tables, h: Handler): Option<int> {
    match h
    case Code(x) => Some(x)
    case Callable(_) => Some(t.callbackCode)
    case NotCallable => None
  }

  /** The handler code registered for `call` in column `col` once ids below `n`
      are processed; `None` when nothing registered one. */
  function HandlerAfter(t: Tables, policy: Policy, col: nat, call: int, n: nat): Option<int>
    requires n <= |t.translator| && Columned(t.translator, col)
  {
    match LastWriter(HandlerTable, t, policy, col, call, n)
    case None => None
    case Some(i) => CodeOf(t, HandlerFor(t, policy, i))
  }

  /** The `_callbacks` entry for `call` in column `col` once ids below `n` are processed. */
  function CallbackAfter(t: Tables, policy: Policy, col: nat, call: int, n: nat): Option<CallbackRef>
    requires n <= |t.translator| && Columned(t.translator, col)
  {
    match LastWriter(CallbackTable, t, policy, col, call, n)
    case None => None
    case Some(i) => if HandlerFor(t, policy, i).Callable? then Some(HandlerFor(t, policy, i).fn) else None
  }

  /** The whitelist entry for `call` once ids below `n` are processed: the
      verdict of the last int handler written there, false if none was. */
  function WhitelistAfter(t: Tables, policy: Policy, call: int, n: nat): bool
    requires WellFormed(t) && n <= |t.translator|
  {
    match LastWriter(SeccompTable, t, policy, Column(t.native), call, n)
    case None => false
    case Some(i) => HandlerFor(t, policy, i) == Code(t.allow)
  }

  /** Whether a column lists at least one syscall number. */
  predicate HasCall(numbers: seq<Entry>) {
    exists k | 0 <= k < |numbers| :: numbers[k].Some?
  }

  /** Syscall id `i` makes the registration raise under column `col`: its
      handler is neither an int nor callable and it has a number there. */
  predicate Rejects(t: Tables, policy: Policy, col: nat, i: nat)
    requires i < |t.translator| && col < |t.translator[i]|
  {
    HandlerFor(t, policy, i).NotCallable? && HasCall(t.translator[i][col])
  }

  /** No syscall id below `n` makes the registration raise under column
      `col`, checked in the order the middle loop visits them. */
  ghost predicate NoneRejectedBelow(t: Tables, policy: Policy, col: nat, n: nat)
    requires WellFormed(t) && col < AbiColumns && n <= |t.translator|
  {
    n == 0 || (NoneRejectedBelow(t, policy, col, n - 1) && !Rejects(t, policy, col, n - 1))
  }

  /** Checked in order means checked for each id below `n`. */
  lemma {:induction false} NoneRejectedBelowEach(t: Tables, policy: Policy, col: nat, n: nat)
    requires WellFormed(t) && col < AbiColumns && n <= |t.translator|
    ensures NoneRejectedBelow(t, policy, col, n) <==> forall i | 0 <= i < n :: !Rejects(t, policy, col, i)
  {
    if n > 0 {
      NoneRejectedBelowEach(t, policy, col, n - 1);
    }
  }

  /** No syscall id makes the registration raise under column `col`. */
  ghost predicate Accepts(t: Tables, policy: Policy, col: nat)
    requires WellFormed(t) && col < AbiColumns
  {
    NoneRejectedBelow(t, policy, col, |t.translator|)
  }

  /** The first `a` supported ABIs accept the policy, in the order the
      registration loop visits them. */
  ghost predicate AcceptedBefore(t: Tables, policy: Policy, a: nat)
    requires WellFormed(t) && a <= |t.supported|
  {
    a == 0 || (AcceptedBefore(t, policy, a - 1) && Accepts(t, policy, Column(t.supported[a - 1])))
  }

  /** Accepted in order means accepted by each of the first `a` ABIs. */
  lemma {:induction false} AcceptedBeforeEach(t: Tables, policy: Policy, a: nat)
    requires WellFormed(t) && a <= |t.supported|
    ensures AcceptedBefore(t, policy, a) <==> forall b | 0 <= b < a :: Accepts(t, policy, Column(t.supported[b]))
  {
    if a > 0 {
      AcceptedBeforeEach(t, policy, a - 1);
    }
  }

  /** The policy holds a handler that is neither an int nor callable for some
      syscall that has a number under a supported ABI: `__init__` raises.
      The exception is `ValueError` only for a `str` handler; for any other
      value, building the message `'Handler not callable: ' + handler` raises
      `TypeError` first. */
  ghost predicate PolicyError(t: Tables, policy: Policy)
    requires WellFormed(t)
  {
    exists a | 0 <= a < |t.supported| :: !Accepts(t, policy, Column(t.supported[a]))
  }

  /** The columns of the supported ABIs. */
  ghost function SupportedColumns(t: Tables): set<nat> {
    set a | a in t.supported && a != Invalid :: Column(a)
  }

  /** The columns of the first `a` supported ABIs, which the registration
      loop has visited after `a` rounds. */
  ghost function ColumnsBefore(t: Tables, a: nat): set<nat>
    requires WellFormed(t) && a <= |t.supported|
  {
    set b | 0 <= b < a :: Column(t.supported[b])
  }

  /** Each round of the registration loop visits a column not visited before. */
  lemma ColumnsBeforeStep(t: Tables, a: nat)
    requires WellFormed(t) && a < |t.supported|
    ensures Column(t.supported[a]) !in ColumnsBefore(t, a)
    ensures ColumnsBefore(t, a + 1) == ColumnsBefore(t, a) + {Column(t.supported[a])}
  {
    forall b | 0 <= b < a ensures Column(t.supported[b]) != Column(t.supported[a]) {
      ColumnInjective(t.supported[b], t.supported[a]);
    }
  }

  /** The columns visited by the registration loop are exactly the supported ones. */
  lemma SupportedColumnsListed(t: Tables)
    requires WellFormed(t)
    ensures ColumnsBefore(t, |t.supported|) == SupportedColumns(t)
  {
    forall x | x in SupportedColumns(t) ensures x in ColumnsBefore(t, |t.supported|) {
      var abi :| abi in t.supported && abi != Invalid && Column(abi) == x;
      var b :| 0 <= b < |t.supported| && t.supported[b] == abi;
    }
  }

  // ---------------------------------------------------------------------
  // Verdict predicates (tracer.py:210-224)

  /** `is_rte`: killed by a signal (negative return code) or no return code at all. */
  predicate IsRte(returncode: Option<int>) {
    returncode.None? || returncode.value < 0
  }

  /** `is_ir`: a positive exit code. Python 3 raises `TypeError` for `None > 0`. */
  function IsIr(returncode: Option<int>): (r: Result<bool>)
    ensures r == Err(TypeError) <==> returncode.None?
    ensures r == Ok(true) <==> returncode.Some? && returncode.value > 0
    ensures returncode.Some? ==> r.Ok?
  {
    if returncode.None? then Err(TypeError) else Ok(returncode.value > 0)
  }

  /** `is_mle`: the child's peak memory exceeded a set memory limit (the
      falsy `0` returned when there is no limit reads as false). */
  predicate IsMle(memory: int, maxMemory: int) {
    memory != 0 && maxMemory > memory
  }

  /** Every exit is exactly one of: runtime error, invalid return, clean exit (0). */
  lemma VerdictsPartitionExits(returncode: int)
    ensures IsRte(Some(returncode)) <==> returncode < 0
    ensures IsIr(Some(returncode)) == Ok(true) <==> returncode > 0
    ensures !(IsRte(Some(returncode)) && IsIr(Some(returncode)) == Ok(true))
    ensures !IsRte(Some(returncode)) && IsIr(Some(returncode)) == Ok(false) <==> returncode == 0
  {
  }

  /** Without a memory limit nothing is a memory-limit verdict. */
  lemma NoMleWithoutLimit(maxMemory: int)
    ensures !IsMle(0, maxMemory)
  {
  }

  // ---------------------------------------------------------------------
  // Python list indexing

  /** The element `lst[i]` reads in a Python list of length `len`: negative
      indices count from the end; `None` is an `IndexError`. */
  function PyIndex(i: int, len: nat): (r: Option<nat>)
    ensures r.Some? <==> -(len as int) <= i < len
    ensures r.Some? ==> r.value < len && (r.value - i) % len == 0
    ensures 0 <= i < len ==> r == Some(i)
  {
    if 0 <= i < len then Some(i) else if -(len as int) <= i < 0 then Some(len + i) else None
  }

  /** The ARM private syscalls that `_callback` lets through when they lie
      beyond the callback table. */
  predicate ArmPrivate(syscall: int) {
    0xF0000 < syscall < 0xF0006
  }

  // ---------------------------------------------------------------------
  // The traced process

  class TracedPopen {
    const tables: Tables
    const security: Option<Policy>
    const useSeccomp: bool
    const time: real
    const memory: int
    const limits: Limits
    var traceSyscalls: bool
    /** `_callbacks`: one list per ABI column of the callable registered for each syscall number. */
    const callbacks: seq<array<Option<CallbackRef>>>
    /** The codes handed to the native `_handler`: one list per ABI column, indexed by syscall number. */
    const handlers: seq<array<Option<int>>>

    ghost predicate Valid()
      reads this
    {
      && WellFormed(tables)
      && |callbacks| == AbiColumns && |handlers| == AbiColumns
      && (forall r | 0 <= r < AbiColumns ::
            callbacks[r].Length == tables.maxSyscall && handlers[r].Length == tables.maxSyscall)
      && (forall q, r | 0 <= q < r < AbiColumns :: callbacks[q] != callbacks[r] && handlers[q] != handlers[r])
    }

    /** Row `r` of both tables holds what processing ids below `n` writes into column `r`. */
    ghost predicate RowAfter(r: nat, n: nat)
      requires Valid() && r < AbiColumns && n <= |tables.translator|
      reads this, callbacks[r], handlers[r]
    {
      forall c | 0 <= c < tables.maxSyscall ::
        && handlers[r][c] == (if security.Some? then HandlerAfter(tables, security.value, r, c, n) else None)
        && callbacks[r][c] == (if security.Some? then CallbackAfter(tables, security.value, r, c, n) else None)
    }

    /** Every row of both tables is empty. */
    ghost predicate Empty()
      requires Valid()
      reads this, callbacks, handlers
    {
      forall r, c | 0 <= r < AbiColumns && 0 <= c < tables.maxSyscall ::
        handlers[r][c].None? && callbacks[r][c].None?
    }

    /** The tables once the policy is registered: the columns of supported ABIs
        hold the last write of every syscall id, the others stay empty. */
    ghost predicate Installed()
      requires Valid()
      reads this, callbacks, handlers
    {
      forall r | 0 <= r < AbiColumns :: RowAfter(r, Progress(r))
    }

    /** How many syscall ids the registration has written into column `r`:
        all of them for a supported ABI's column, none for the others. */
    ghost function Progress(r: nat): (n: nat)
      reads this
      ensures n <= |tables.translator|
    {
      if r in SupportedColumns(tables) then |tables.translator| else 0
    }

    /** The part of `__init__` before any syscall is registered: the limits,
        whether seccomp is used, and empty callback and handler tables. */
    constructor (tables: Tables, security: Option<Policy> := None, avoidSeccomp: bool := false,
                 time: real := 0.0, memory: int := 0, addressGrace: int := 4096, dataGrace: int := 0,
                 wallTime: Option<real> := None)
      requires WellFormed(tables)
      ensures Valid() && Empty()
      ensures forall r | 0 <= r < AbiColumns :: fresh(callbacks[r]) && fresh(handlers[r])
      ensures this.tables == tables && this.security == security
      ensures this.time == time && this.memory == memory
      ensures limits == DeriveLimits(time, memory, addressGrace, dataGrace, wallTime)
      ensures useSeccomp <==> security.Some? && !avoidSeccomp
      ensures traceSyscalls <==> security.Some?
    {
      var cbs: seq<array<Option<CallbackRef>>> := [];
      var hs: seq<array<Option<int>>> := [];
      for r := 0 to AbiColumns
        invariant |cbs| == r && |hs| == r
        invariant forall q | 0 <= q < r ::
                    && fresh(cbs[q]) && cbs[q].Length == tables.maxSyscall
                    && fresh(hs[q]) && hs[q].Length == tables.maxSyscall
        invariant forall q, c | 0 <= q < r && 0 <= c < tables.maxSyscall :: cbs[q][c].None? && hs[q][c].None?
        invariant forall q, p | 0 <= q < p < r :: cbs[q] != cbs[p] && hs[q] != hs[p]
      {
        var row := new Option<CallbackRef>[tables.maxSyscall](_ => None);
        var codes := new Option<int>[tables.maxSyscall](_ => None);
        cbs := cbs + [row];
        hs := hs + [codes];
      }
      this.tables := tables;
      this.security := security;
      this.useSeccomp := security.Some? && !avoidSeccomp;
      this.time := time;
      this.memory := memory;
      this.limits := DeriveLimits(time, memory, addressGrace, dataGrace, wallTime);
      this.traceSyscalls := security.Some?;
      this.callbacks := cbs;
      this.handlers := hs;
    }

    /** The registration loops of `__init__`: for every supported ABI, every
        syscall id and every number it has there, register the policy's
        handler (DISALLOW when the policy has none); callables go to the
        callback table and are registered as `_CALLBACK`. `ok` is false where
        `__init__` raises (see `PolicyError`). Without a policy nothing is registered. */
    method InstallPolicy() returns (ok: bool)
      requires Valid() && Empty()
      modifies callbacks, handlers
      ensures security.None? ==> ok && Empty()
      ensures security.Some? ==> (ok <==> !PolicyError(tables, security.value))
      ensures ok ==> Installed()
    {
      if security.None? {
        return true;
      }
      StageZero();
      ok := RegisterAll();
    }

    /** The outer loop of the registration: every supported ABI in turn. */
    method RegisterAll() returns (ok: bool)
      requires Valid() && security.Some? && Stage(0)
      modifies callbacks, handlers
      ensures ok <==> !PolicyError(tables, security.value)
      ensures ok ==> Installed()
    {
      for a := 0 to |tables.supported|
        invariant Stage(a)
        invariant AcceptedBefore(tables, security.value, a)
      {
        ok := RegisterAbi(a);
        if !ok {
          assert !Accepts(tables, security.value, Column(tables.supported[a]));
          return;
        }
      }
      ok := true;
      AcceptedBeforeEach(tables, security.value, |tables.supported|);
      StageComplete();
    }

    /** The tables after the registration loop has visited the first `a`
        supported ABIs: their columns are complete, the others still empty. */
    ghost predicate Stage(a: nat)
      requires Valid() && a <= |tables.supported|
      reads this, callbacks, handlers
    {
      forall r | 0 <= r < AbiColumns ::
        RowAfter(r, if r in ColumnsBefore(tables, a) then |tables.translator| else 0)
    }

    /** Before the first round every column is still empty. */
    lemma StageZero()
      requires Valid() && Empty()
      ensures Stage(0)
    {
      assert ColumnsBefore(tables, 0) == {};
    }

    /** After the last round exactly the supported columns are complete. */
    lemma StageComplete()
      requires Valid() && Stage(|tables.supported|)
      ensures Installed()
    {
      SupportedColumnsListed(tables);
    }

    /** The outer loop's body for the `a`-th supported ABI: its whole column is
        registered, or the policy rejects one of its syscalls. */
    method RegisterAbi(a: nat) returns (ok: bool)
      requires Valid() && security.Some? && a < |tables.supported| && Stage(a)
      modifies callbacks[Column(tables.supported[a])], handlers[Column(tables.supported[a])]
      ensures ok <==> Accepts(tables, security.value, Column(tables.supported[a]))
      ensures ok ==> Stage(a + 1)
    {
      var col := Column(tables.supported[a]);
      ColumnsBeforeStep(tables, a);
      ok := RegisterColumn(col);
    }

    /** The middle loop of the registration: every syscall id in turn, for one ABI column. */
    method RegisterColumn(col: nat) returns (ok: bool)
      requires Valid() && security.Some? && col < AbiColumns && RowAfter(col, 0)
      modifies callbacks[col], handlers[col]
      ensures ok <==> Accepts(tables, security.value, col)
      ensures ok ==> RowAfter(col, |tables.translator|)
    {
      for i := 0 to |tables.translator|
        invariant RowAfter(col, i)
        invariant NoneRejectedBelow(tables, security.value, col, i)
      {
        ok := RegisterNumbers(col, i);
        if !ok {
          NoneRejectedBelowEach(tables, security.value, col, |tables.translator|);
          return;
        }
      }
      ok := true;
    }

    /** The inner loop of the registration: the numbers syscall id `i` has in column `col`. */
    method RegisterNumbers(col: nat, i: nat) returns (ok: bool)
      requires Valid() && security.Some? && col < AbiColumns && i < |tables.translator|
      requires RowAfter(col, i)
      modifies callbacks[col], handlers[col]
      ensures ok <==> !Rejects(tables, security.value, col, i)
      ensures ok ==> RowAfter(col, i + 1)
    {
      var t := tables;
      var policy := security.value;
      var h := HandlerFor(t, policy, i);
      var numbers := t.translator[i][col];
      assert NumbersBelow(numbers, t.maxSyscall);
      var row, codes := callbacks[col], handlers[col];
      for k := 0 to |numbers|
        invariant forall c | 0 <= c < t.maxSyscall ::
                    && codes[c] == (if Some(c) in numbers[..k] then CodeOf(t, h) else HandlerAfter(t, policy, col, c, i))
                    && row[c] == (if Some(c) in numbers[..k] && h.Callable? then Some(h.fn) else CallbackAfter(t, policy, col, c, i))
        invariant h.NotCallable? ==> forall m | 0 <= m < k :: numbers[m].None?
      {
        if numbers[k].Some? {
          var call := numbers[k].value;
          if h.NotCallable? {
            return false;
          }
          if h.Callable? {
            row[call] := Some(h.fn);
          }
          codes[call] := CodeOf(t, h);
        }
        assert numbers[..k + 1] == numbers[..k] + [numbers[k]];
      }
      assert numbers[..|numbers|] == numbers;
      return true;
    }

    /** `_get_seccomp_whitelist`: one entry per syscall number of the native
        ABI, true when the last int handler written there is ALLOW; exit and
        exit_group are skipped and callable handlers write nothing. */
    method SeccompWhitelist() returns (whitelist: array<bool>)
      requires Valid() && security.Some?
      ensures fresh(whitelist) && whitelist.Length == tables.maxSyscall
      ensures forall c | 0 <= c < whitelist.Length ::
                whitelist[c] == WhitelistAfter(tables, security.value, c, |tables.translator|)
    {
      whitelist := new bool[tables.maxSyscall](_ => false);
      for i := 0 to |tables.translator|
        invariant forall c | 0 <= c < whitelist.Length :: whitelist[c] == WhitelistAfter(tables, security.value, c, i)
      {
        if i == tables.sysExit || i == tables.sysExitGroup {
          continue;
        }
        WhitelistNumbers(whitelist, i);
      }
    }

    /** The inner loop of `_get_seccomp_whitelist`: the numbers syscall id `i`
        has under the native ABI take the verdict of its handler when that
        handler is an int. */
    method WhitelistNumbers(whitelist: array<bool>, i: nat)
      requires Valid() && security.Some? && i < |tables.translator|
      requires i != tables.sysExit && i != tables.sysExitGroup
      requires whitelist.Length == tables.maxSyscall
      requires forall c | 0 <= c < whitelist.Length :: whitelist[c] == WhitelistAfter(tables, security.value, c, i)
      modifies whitelist
      ensures forall c | 0 <= c < whitelist.Length :: whitelist[c] == WhitelistAfter(tables, security.value, c, i + 1)
    {
      var t := tables;
      var policy := security.value;
      var handler := HandlerFor(t, policy, i);
      var numbers := t.translator[i][Column(t.native)];
      assert NumbersBelow(numbers, t.maxSyscall);
      for k := 0 to |numbers|
        invariant forall c | 0 <= c < whitelist.Length ::
                    whitelist[c] == if Some(c) in numbers[..k] && handler.Code? then handler.code == t.allow
                                    else WhitelistAfter(t, policy, c, i)
      {
        if numbers[k].Some? && handler.Code? {
          whitelist[numbers[k].value] := handler.code == t.allow;
        }
        assert numbers[..k + 1] == numbers[..k] + [numbers[k]];
      }
      assert numbers[..|numbers|] == numbers;
    }

    /** `_callback`: the decision for a syscall the native side routed to
        `_CALLBACK`. `invoke` stands for calling the registered callable on the
        debugger. The invalid ABI is denied; a number outside the table is
        allowed only on ARM and only in the private range; otherwise the
        registered callable decides, and with none the call is denied. */
    function OnCallback(abi: Abi, syscall: int, invoke: CallbackRef -> bool): (allowed: bool)
      requires Valid()
      reads this, callbacks
      ensures abi == Invalid ==> !allowed
      ensures allowed && PyIndex(syscall, tables.maxSyscall).None? ==> abi == Arm && ArmPrivate(syscall)
      ensures abi == Arm && PyIndex(syscall, tables.maxSyscall).None? && ArmPrivate(syscall) ==> allowed
      ensures abi != Invalid && PyIndex(syscall, tables.maxSyscall).Some? ==>
                var f := callbacks[Column(abi)][PyIndex(syscall, tables.maxSyscall).value];
                (allowed <==> f.Some? && invoke(f.value))
    {
      if abi == Invalid then false
      else match PyIndex(syscall, tables.maxSyscall)
        case None => abi == Arm && ArmPrivate(syscall)
        case Some(j) =>
          match callbacks[Column(abi)][j]
          case None => false
          case Some(f) => invoke(f)
    }
  }


  // ---------------------------------------------------------------------
  // Properties of the registration and of the whitelist

  /** Under a policy `__init__` accepts, every number a supported ABI lists
      gets a handler, and when the last id listing it is absent from the
      policy that handler is DISALLOW. */
  lemma EveryListedNumberRegistered(t: Tables, policy: Policy, abi: Abi, id: nat, call: int)
    requires WellFormed(t) && !PolicyError(t, policy)
    requires abi in t.supported && id < |t.translator| && Some(call) in t.translator[id][Column(abi)]
    ensures HandlerAfter(t, policy, Column(abi), call, |t.translator|).Some?
    ensures id !in policy && (forall j | id < j < |t.translator| :: Some(call) !in t.translator[j][Column(abi)])
            ==> HandlerAfter(t, policy, Column(abi), call, |t.translator|) == Some(t.disallow)
  {
    var col := Column(abi);
    LastWriterSpec(HandlerTable, t, policy, col, call, |t.translator|);
    var w := LastWriter(HandlerTable, t, policy, col, call, |t.translator|);
    assert Writes(HandlerTable, t, policy, id);
    var i := w.value;
    var a :| 0 <= a < |t.supported| && t.supported[a] == abi;
    var k :| 0 <= k < |t.translator[i][col]| && t.translator[i][col][k] == Some(call);
    assert HasCall(t.translator[i][col]);
    assert Accepts(t, policy, col);
    NoneRejectedBelowEach(t, policy, col, |t.translator|);
    assert !Rejects(t, policy, col, i);
  }

  /** For a number only one syscall id lists: an int handler is registered as
      it is with no callback entry; a callable is stored in the callback table
      and registered as `_CALLBACK`. */
  lemma SoleOwnerRegistration(t: Tables, policy: Policy, col: nat, id: nat, call: int)
    requires WellFormed(t) && col < AbiColumns
    requires id < |t.translator| && Some(call) in t.translator[id][col]
    requires forall j | 0 <= j < |t.translator| && j != id :: Some(call) !in t.translator[j][col]
    ensures HandlerFor(t, policy, id).Code? ==>
              HandlerAfter(t, policy, col, call, |t.translator|) == Some(HandlerFor(t, policy, id).code)
              && CallbackAfter(t, policy, col, call, |t.translator|).None?
    ensures HandlerFor(t, policy, id).Callable? ==>
              HandlerAfter(t, policy, col, call, |t.translator|) == Some(t.callbackCode)
              && CallbackAfter(t, policy, col, call, |t.translator|) == Some(HandlerFor(t, policy, id).fn)
  {
    var n := |t.translator|;
    LastWriterSpec(HandlerTable, t, policy, col, call, n);
    LastWriterSpec(CallbackTable, t, policy, col, call, n);
    assert Writes(HandlerTable, t, policy, id);
    assert LastWriter(HandlerTable, t, policy, col, call, n) == Some(id);
    if HandlerFor(t, policy, id).Callable? {
      assert Writes(CallbackTable, t, policy, id);
      assert LastWriter(CallbackTable, t, policy, col, call, n) == Some(id);
    }
  }

  /** A whitelisted number is listed by some id other than exit and
      exit_group whose handler is the int ALLOW. */
  lemma {:induction false} WhitelistSound(t: Tables, policy: Policy, call: int, n: nat)
    requires WellFormed(t) && n <= |t.translator| && WhitelistAfter(t, policy, call, n)
    ensures exists i | 0 <= i < n ::
              && i != t.sysExit && i != t.sysExitGroup
              && Some(call) in t.translator[i][Column(t.native)]
              && HandlerFor(t, policy, i) == Code(t.allow)
  {
    LastWriterSpec(SeccompTable, t, policy, Column(t.native), call, n);
    var i := LastWriter(SeccompTable, t, policy, Column(t.native), call, n).value;
    assert Writes(SeccompTable, t, policy, i);
  }

  /** A number listed only by exit or exit_group is never whitelisted, so at
      least those calls always trap. */
  lemma ExitAlwaysTraps(t: Tables, policy: Policy, call: int)
    requires WellFormed(t)
    requires forall i | 0 <= i < |t.translator| && Some(call) in t.translator[i][Column(t.native)] ::
               i == t.sysExit || i == t.sysExitGroup
    ensures !WhitelistAfter(t, policy, call, |t.translator|)
  {
    if WhitelistAfter(t, policy, call, |t.translator|) {
      WhitelistSound(t, policy, call, |t.translator|);
    }
  }

  /** For a number only one id lists under the native ABI, the whitelist entry
      is true exactly when that id is not exit or exit_group and its handler is
      the int ALLOW: callable and missing handlers give false. */
  lemma WhitelistSoleOwner(t: Tables, policy: Policy, id: nat, call: int)
    requires WellFormed(t) && id < |t.translator| && Some(call) in t.translator[id][Column(t.native)]
    requires forall j | 0 <= j < |t.translator| && j != id :: Some(call) !in t.translator[j][Column(t.native)]
    ensures WhitelistAfter(t, policy, call, |t.translator|)
            <==> id != t.sysExit && id != t.sysExitGroup && HandlerFor(t, policy, id) == Code(t.allow)
    ensures id !in policy ==> !WhitelistAfter(t, policy, call, |t.translator|)
    ensures id in policy && policy[id].Callable? ==> !WhitelistAfter(t, policy, call, |t.translator|)
  {
    LastWriterSpec(SeccompTable, t, policy, Column(t.native), call, |t.translator|);
    if id != t.sysExit && id != t.sysExitGroup && HandlerFor(t, policy, id).Code? {
      assert Writes(SeccompTable, t, policy, id);
      assert LastWriter(SeccompTable, t, policy, Column(t.native), call, |t.translator|) == Some(id);
    }
  }

  /** Seccomp lets a call through only where the ptrace handler table also
      allows it, when the number has one owner and the native ABI is traced. */
  lemma WhitelistAgreesWithHandlers(t: Tables, policy: Policy, id: nat, call: int)
    requires WellFormed(t) && id < |t.translator| && Some(call) in t.translator[id][Column(t.native)]
    requires forall j | 0 <= j < |t.translator| && j != id :: Some(call) !in t.translator[j][Column(t.native)]
    requires WhitelistAfter(t, policy, call, |t.translator|)
    ensures HandlerAfter(t, policy, Column(t.native), call, |t.translator|) == Some(t.allow)
  {
    WhitelistSoleOwner(t, policy, id, call);
    SoleOwnerRegistration(t, policy, Column(t.native), id, call);
  }

  /** After registration, `_callback` allows a number inside the table only
      through a callable the policy gives to a syscall of a supported ABI that
      lists the number. */
  lemma CallbackOnlyFromPolicy(p: TracedPopen, abi: Abi, syscall: int, invoke: CallbackRef -> bool)
    requires p.Valid() && p.Installed()
    requires PyIndex(syscall, p.tables.maxSyscall).Some? && p.OnCallback(abi, syscall, invoke)
    ensures p.security.Some? && abi in p.tables.supported
    ensures exists i | 0 <= i < |p.tables.translator| ::
              && Some(PyIndex(syscall, p.tables.maxSyscall).value) in p.tables.translator[i][Column(abi)]
              && HandlerFor(p.tables, p.security.value, i).Callable?
              && invoke(HandlerFor(p.tables, p.security.value, i).fn)
  {
    var t := p.tables;
    var col := Column(abi);
    var j := PyIndex(syscall, t.maxSyscall).value;
    assert p.RowAfter(col, p.Progress(col));
    assert p.callbacks[col][j].Some?;
    var other :| other in t.supported && other != Invalid && Column(other) == col;
    ColumnInjective(other, abi);
    LastWriterSpec(CallbackTable, t, p.security.value, col, j, |t.translator|);
    var i := LastWriter(CallbackTable, t, p.security.value, col, j, |t.translator|).value;
    assert Writes(CallbackTable, t, p.security.value, i);
  }
}
