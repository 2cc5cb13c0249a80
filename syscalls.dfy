/** The syscall tables of the sandbox and the `AdvancedDebugger` helpers that
    read them (dmoj/cptbox/tracer.py:22-83).

    The tables themselves (`translator`, `by_id`, `MAX_SYSCALL_NUMBER`, the
    handler constants and the syscall ids of `exit`, `exit_group` and
    `getpid`) come from modules that are not part of this model; they are
    bundled in `Tables` and passed in. */
module Syscalls {
  import opened PyValues

  /** The ptrace ABIs the sandbox distinguishes. `Invalid` is what the tracer
      reports when it could not read the registers. */
  datatype Abi = Invalid | X86 | X64 | X32 | Arm | FreeBsdX64 | Arm64

  /** Number of ABI columns in every row of `translator`. */
  const AbiColumns: nat := 6

  /** `_SYSCALL_INDICIES`: the column of `translator` that holds an ABI's numbers. */
  function Column(abi: Abi): (col: nat)
    requires abi != Invalid
    ensures col < AbiColumns
  {
    match abi
    case X86 => 0
    case X64 => 1
    case X32 => 2
    case Arm => 3
    case FreeBsdX64 => 4
    case Arm64 => 5
  }

  /** Distinct ABIs own distinct columns. */
  lemma ColumnInjective(a: Abi, b: Abi)
    requires a != Invalid && b != Invalid
    ensures Column(a) == Column(b) <==> a == b
  {
  }

  /** One entry of a `translator` column: a syscall number or `None`. */
  type Entry = Option<int>

  /** One row of `translator`: per ABI column, the numbers a syscall has there. */
  type Row = seq<seq<Entry>>

  /** The native tables and constants the tracer consults. */
  datatype Tables = Tables(
    translator: seq<Row>,   // indexed by syscall id
    names: seq<string>,     // `by_id`: the name of each syscall id
    maxSyscall: nat,        // MAX_SYSCALL_NUMBER
    allow: int,             // ALLOW
    disallow: int,          // DISALLOW
    callbackCode: int,      // _CALLBACK
    sysExit: int,           // sys_exit
    sysExitGroup: int,      // sys_exit_group
    sysGetpid: nat,         // sys_getpid
    supported: seq<Abi>,    // SUPPORTED_ABIS
    native: Abi)            // NATIVE_ABI

  /** Every row has one column per ABI. */
  ghost predicate Columned(ts: seq<Row>, col: nat) {
    forall i | 0 <= i < |ts| :: col < |ts[i]|
  }

  /** Every number listed in a column lies in `0 .. max - 1`. */
  predicate NumbersBelow(numbers: seq<Entry>, max: nat) {
    forall k | 0 <= k < |numbers| :: numbers[k].Some? ==> 0 <= numbers[k].value < max
  }

  /** What the tracer relies on in the native tables. */
  ghost predicate WellFormed(t: Tables) {
    && |t.names| == |t.translator|
    && (forall i | 0 <= i < |t.translator| :: |t.translator[i]| == AbiColumns)
    && (forall i, c | 0 <= i < |t.translator| && 0 <= c < |t.translator[i]| :: NumbersBelow(t.translator[i][c], t.maxSyscall))
    && t.sysGetpid < |t.translator|
    && t.native != Invalid
    && Invalid !in t.supported
    && (forall a, b | 0 <= a < b < |t.supported| :: t.supported[a] != t.supported[b])
    && t.allow != t.disallow
  }

  // ---------------------------------------------------------------------
  // get_syscall_name

  /** The lowest syscall id at or after `from` whose column `col` lists `syscall`. */
  function FirstRow(ts: seq<Row>, col: nat, syscall: int, from: nat): (r: Option<nat>)
    requires from <= |ts| && Columned(ts, col)
    ensures r.Some? ==> from <= r.value < |ts| && Some(syscall) in ts[r.value][col]
    ensures forall j | from <= j < (if r.Some? then r.value else |ts|) :: Some(syscall) !in ts[j][col]
    decreases |ts| - from
  {
    if from == |ts| then None
    else if Some(syscall) in ts[from][col] then Some(from)
    else FirstRow(ts, col, syscall, from + 1)
  }

  /** `get_syscall_name`: the invalid ABI is reported as a register failure;
      otherwise the name of the lowest-numbered syscall listing the number, or
      "unknown" when no syscall does. */
  function SyscallName(t: Tables, abi: Abi, syscall: int): (name: string)
    requires WellFormed(t)
    ensures abi == Invalid ==> name == "failed to read registers"
    ensures abi != Invalid && (forall i | 0 <= i < |t.translator| :: Some(syscall) !in t.translator[i][Column(abi)])
            ==> name == "unknown"
    ensures forall id | 0 <= id < |t.translator| && abi != Invalid && Some(syscall) in t.translator[id][Column(abi)]
                          && (forall j | 0 <= j < id :: Some(syscall) !in t.translator[j][Column(abi)])
              :: name == t.names[id]
  {
    if abi == Invalid then "failed to read registers"
    else match FirstRow(t.translator, Column(abi), syscall, 0)
      case None => "unknown"
      case Some(id) => t.names[id]
  }

  /** `get_syscall_name` as the source runs it: a scan of `translator` that
      stops at the first row listing the number. */
  method GetSyscallName(t: Tables, abi: Abi, syscall: int) returns (callname: string)
    requires WellFormed(t)
    ensures callname == SyscallName(t, abi, syscall)
  {
    if abi == Invalid {
      return "failed to read registers";
    }
    callname := "unknown";
    var index := Column(abi);
    var id := 0;
    while id < |t.translator|
      invariant 0 <= id <= |t.translator|
      invariant FirstRow(t.translator, index, syscall, 0) == FirstRow(t.translator, index, syscall, id)
    {
      if Some(syscall) in t.translator[id][index] {
        callname := t.names[id];
        return;
      }
      id := id + 1;
    }
  }

  // ---------------------------------------------------------------------
  // address_bits, noop_syscall_id, readstr

  /** `address_bits`: the pointer width of an ABI; `None` for the invalid ABI. */
  function AddressBits(abi: Abi): (bits: Option<nat>)
    ensures bits.None? <==> abi == Invalid
    ensures bits == Some(32) <==> abi in {X86, X32, Arm}
    ensures bits == Some(64) <==> abi in {X64, FreeBsdX64, Arm64}
  {
    match abi
    case Invalid => None
    case X86 => Some(32)
    case X64 => Some(64)
    case X32 => Some(32)
    case Arm => Some(32)
    case Arm64 => Some(64)
    case FreeBsdX64 => Some(64)
  }

  /** `noop_syscall_id`: the first number of `getpid` under the ABI. The invalid
      ABI raises `ValueError`; an empty column would raise `IndexError`; a
      `None` entry is returned as it is. */
  function NoopSyscallId(t: Tables, abi: Abi): (r: Result<Entry>)
    requires WellFormed(t)
    ensures r.Err? <==> abi == Invalid || t.translator[t.sysGetpid][Column(abi)] == []
    ensures r.Ok? ==> r.value == t.translator[t.sysGetpid][Column(abi)][0]
  {
    if abi == Invalid then Err(ValueError("ABI is invalid"))
    else
      var numbers := t.translator[t.sysGetpid][Column(abi)];
      if numbers == [] then Err(IndexError) else Ok(numbers[0])
  }

  /** The no-op syscall is `getpid`: unless a lower syscall id lists the same
      number, `get_syscall_name` names the number `noop_syscall_id` returns
      after `getpid`. */
  lemma NoopIsGetpid(t: Tables, abi: Abi)
    requires WellFormed(t)
    ensures var r := NoopSyscallId(t, abi);
            r.Ok? && r.value.Some?
            && (forall j | 0 <= j < t.sysGetpid :: Some(r.value.value) !in t.translator[j][Column(abi)])
            ==> SyscallName(t, abi, r.value.value) == t.names[t.sysGetpid]
  {
    var r := NoopSyscallId(t, abi);
    if r.Ok? && r.value.Some? {
      assert Some(r.value.value) in t.translator[t.sysGetpid][Column(abi)];
    }
  }

  /** The address `readstr` hands to the native reader: on a 32-bit ABI the
      value is reduced to its low 32 bits (`address &= 0xFFFFFFFF`, which for
      Python's unbounded integers is reduction modulo 2^32). */
  function EffectiveAddress(abi: Abi, address: int): (a: int)
    ensures AddressBits(abi) == Some(32) ==> 0 <= a < 0x1_0000_0000 && (a - address) % 0x1_0000_0000 == 0
    ensures AddressBits(abi) != Some(32) ==> a == address
  {
    if AddressBits(abi) == Some(32) then address % 0x1_0000_0000 else address
  }

  /** `readstr(address, max_size)`: `reader` stands for the native
      `Debugger.readstr`, which is asked for `max_size + 1` bytes so that an
      over-long string can be told apart. Decoding the bytes as UTF-8 is not
      modelled. */
  function ReadStr(abi: Abi, address: int, maxSize: nat, reader: (int, nat) -> Option<seq<bv8>>): (r: Result<Option<seq<bv8>>>)
    ensures var read := reader(EffectiveAddress(abi, address), maxSize + 1);
            && (r == Ok(None) <==> read.None?)
            && (r.Err? <==> read.Some? && |read.value| > maxSize)
            && (r.Err? ==> r.error == MaxLengthExceeded(read.value))
            && (r.Ok? && r.value.Some? ==> r.value == read && |r.value.value| <= maxSize)
  {
    var read := reader(EffectiveAddress(abi, address), maxSize + 1);
    if read.None? then Ok(None)
    else if |read.value| > maxSize then Err(MaxLengthExceeded(read.value))
    else Ok(read)
  }

  /** `readstr`'s default `max_size`. */
  const DefaultMaxSize: nat := 4096

  /** `readstr` at its default size: the reader is asked for 4097 bytes, a
      longer string than 4096 bytes is an error, and a string returned is at
      most 4096 bytes long. */
  lemma ReadStrDefaultSize(abi: Abi, address: int, reader: (int, nat) -> Option<seq<bv8>>)
    ensures var r := ReadStr(abi, address, DefaultMaxSize, reader);
            var read := reader(EffectiveAddress(abi, address), 4097);
            && (r.Err? <==> read.Some? && |read.value| > 4096)
            && (r.Ok? && r.value.Some? ==> r.value == read && |read.value| <= 4096)
  {
  }
}
