/** The legacy judge (judge.py): the `Result` record of a test case, the
    comparison `ProgramJudge.run` makes, the line-ending normalisation of
    the data fed to the child, and the `alive`/`close` state machine of a
    `ProgramJudge` around its child process.

    The child process is not modelled as running code: each answer it gives
    (what `poll()` or `wait()` returns, what a read of its stdout returns)
    is a parameter of the method that asks for it, and `calls` records what
    the judge asked of it. */
module Judge {
  import opened PyValues
  import opened Text

  // ---------------------------------------------------------------------
  // Result flags (judge.py:14-18)

  /** A test-case verdict: a set of bits. */
  type Flags = bv8

  const AC: Flags := 0x0
  const WA: Flags := 0x1
  const RTE: Flags := 0x2
  const TLE: Flags := 0x4

  /** `ProgramJudge.EOF`: the queued item that closes the child's stdin. */
  const EOF: string := ""

  /** How much of the output `partial_output` keeps. */
  const PreviewLength: nat := 10

  /** AC is no bit at all; WA, RTE and TLE are three different single bits. */
  lemma FlagsAreDistinctBits()
    ensures AC == 0
    ensures WA & RTE == 0 && WA & TLE == 0 && RTE & TLE == 0
    ensures WA & (WA - 1) == 0 && RTE & (RTE - 1) == 0 && TLE & (TLE - 1) == 0
    ensures WA != 0 && RTE != 0 && TLE != 0
  {
  }

  // ---------------------------------------------------------------------
  // Comparison (judge.py:128-139)

  /** `s.strip().replace('\r\n', '\n')`: how `run` normalises the program's
      output and the expected output before comparing them. */
  function Normalized(s: string): (r: string)
    ensures |r| <= |s|
  {
    ReplaceCrlf(Strip(s))
  }

  /** `process_output[:10]`. */
  function Preview(s: string): (p: string)
    ensures p <= s && |p| == Min(PreviewLength, |s|)
  {
    if |s| <= PreviewLength then s else s[..PreviewLength]
  }

  /** The flag `run` computes: 0 or'ed with WA when the normalised outputs differ. */
  function Verdict(output: string, expected: string): (flag: Flags)
    ensures flag == AC || flag == WA
    ensures flag & WA != 0 <==> Normalized(output) != Normalized(expected)
  {
    var flag: Flags := 0;
    if Normalized(output) != Normalized(expected) then flag | WA else flag
  }

  /** Whitespace around the program's output does not change the verdict. */
  lemma SurroundingWhitespaceAccepted(w1: string, expected: string, w2: string)
    requires AllSpace(w1) && AllSpace(w2)
    ensures Verdict(w1 + expected + w2, expected) == AC
  {
    StripIgnoresSurroundingSpace(w1, expected, w2);
  }

  /** A program that prints the expected text with CRLF line endings is accepted. */
  lemma CrlfOutputAccepted(expected: string)
    requires '\r' !in expected
    ensures Verdict(ToCrlf(expected), expected) == AC
  {
    StripToCrlf(expected);
    StripKeepsCrFree(expected);
    ReplaceCrlfUndoesToCrlf(Strip(expected));
    ReplaceCrlfKeepsCrFree(Strip(expected));
  }

  // ---------------------------------------------------------------------
  // Input fed to the child (judge.py:160)

  /** `data.replace('\r\n', '\n').replace('\r', '\n')` in `write_async`. */
  function FeedNormalized(data: string): (r: string)
    ensures '\r' !in r
  {
    ReplaceCr(ReplaceCrlf(data))
  }

  /** The two replacements unify line endings in one pass: CRLF becomes LF, a
      lone CR becomes LF, and text without CR is left alone. */
  lemma FeedNormalizedLineEndings(s: string)
    ensures FeedNormalized("\r\n" + s) == "\n" + FeedNormalized(s)
    ensures s == [] || s[0] != '\n' ==> FeedNormalized("\r" + s) == "\n" + FeedNormalized(s)
    ensures '\r' !in s ==> FeedNormalized(s) == s
  {
    ReplaceChainIsUnify("\r\n" + s);
    ReplaceChainIsUnify("\r" + s);
    ReplaceChainIsUnify(s);
    assert ("\r\n" + s)[2..] == s;
    assert ("\r" + s)[1..] == s;
    if '\r' !in s {
      ReplaceCrlfKeepsCrFree(s);
      assert ReplaceCr(s) == s;
    }
  }

  /** Normalising the fed data a second time changes nothing. */
  lemma FeedNormalizedIdempotent(s: string)
    ensures FeedNormalized(FeedNormalized(s)) == FeedNormalized(s)
  {
    FeedNormalizedLineEndings(FeedNormalized(s));
  }

  // ---------------------------------------------------------------------
  // The judge and its child process (judge.py:14-139)

  /** The items `run` queues for the writer: what was read from stdin when
      input is transferred, then the stripped input and EOF. */
  function QueuedInput(transfer: bool, stdinData: string, input: string): (q: seq<string>)
    ensures |q| == if transfer then 3 else 2
    ensures q[|q| - 1] == EOF && q[|q| - 2] == Strip(input)
    ensures transfer ==> q[0] == stdinData
  {
    (if transfer then [stdinData] else []) + [Strip(input), EOF]
  }

  /** What the judge asks of its child process. */
  datatype ProcessCall = Poll | Terminate | Wait | ReadOutput | ReadLine

  /** Whether `readline()` reaches a poll that shows an exit: some poll
      answers with an exit code after only live polls and blank lines. */
  ghost predicate ExitReached(polls: seq<Option<int>>, lines: seq<string>)
    requires |lines| >= |polls|
  {
    exists k | 0 <= k < |polls| ::
      polls[k].Some? && forall j | 0 <= j < k :: polls[j].None? && RStrip(lines[j]) == ""
  }

  /** Whether the first `k` rounds of `readline()` each found the child alive
      and read a blank line. */
  ghost predicate BlankRounds(polls: seq<Option<int>>, lines: seq<string>, k: nat)
    requires k <= |polls| <= |lines|
  {
    forall j | 0 <= j < k :: polls[j].None? && RStrip(lines[j]) == ""
  }

  lemma ExitReachedAt(polls: seq<Option<int>>, lines: seq<string>, k: nat)
    requires k < |polls| <= |lines| && BlankRounds(polls, lines, k) && polls[k].Some?
    ensures ExitReached(polls, lines)
  {
  }

  /** The calls of `k` rounds of `readline`'s loop: a poll that finds the
      child alive, then a line read. */
  function PollReadCalls(k: nat): (c: seq<ProcessCall>)
    ensures |c| == 2 * k
  {
    if k == 0 then [] else PollReadCalls(k - 1) + [Poll, ReadLine]
  }

  /** The record of one test case. `result_flag` becomes `None` when `alive()`
      or `close()` is called without a flag. */
  class Result {
    var resultFlag: Option<Flags>
    var executionTime: real
    var maxMemory: int
    var partialOutput: Option<string>

    constructor ()
      ensures resultFlag == Some(AC) && executionTime == 0.0 && maxMemory == 0 && partialOutput == None
    {
      resultFlag := Some(AC);
      executionTime := 0.0;
      maxMemory := 0;
      partialOutput := None;
    }
  }

  class ProgramJudge {
    var result: Result?
    var stopped: bool
    var exitcode: Option<int>
    const redirect: bool
    const transfer: bool
    const interact: bool
    /** Whether `sys.stdin` and `sys.stdout` currently point at this judge. */
    var redirected: bool
    /** `write_queue`: the items waiting to be fed to the child. */
    var writeQueue: seq<string>
    /** Every request the judge has made of its child, in order. */
    var calls: seq<ProcessCall>

    /** No exit code is known while the judge runs, and the standard streams
        are redirected exactly while a redirecting judge is not stopped. */
    ghost predicate Valid()
      reads this
    {
      && (!stopped ==> exitcode.None?)
      && redirected == (redirect && !stopped)
    }

    /** The result record the judge currently writes to, if any. */
    ghost function Recorded(): set<Result>
      reads this
    {
      if result == null then {} else {result}
    }

    constructor (redirect: bool := false, transfer: bool := false, interact: bool := false)
      ensures Valid()
      ensures result == null && !stopped && exitcode.None?
      ensures this.redirect == redirect && this.transfer == transfer && this.interact == interact
      ensures writeQueue == [] && calls == []
    {
      result := null;
      stopped := false;
      exitcode := None;
      this.redirect := redirect;
      this.transfer := transfer;
      this.interact := interact;
      redirected := redirect;
      writeQueue := [];
      calls := [];
    }

    /** `alive(result_flag)`; `polled` is what `process.poll()` answers. Once
        stopped, the judge stays stopped and nothing is polled or changed. When
        the poll shows an exit, the judge stops, keeps the exit code, restores
        the standard streams and writes `resultFlag` into the result. */
    method Alive(polled: Option<int>, resultFlag: Option<Flags> := None) returns (live: bool)
      requires Valid()
      requires !stopped && polled.Some? ==> result != null
      modifies this, Recorded()`resultFlag
      ensures Valid() && live == !stopped
      ensures result == old(result) && writeQueue == old(writeQueue)
      ensures old(stopped) ==> stopped && exitcode == old(exitcode) && calls == old(calls)
      ensures !old(stopped) ==> calls == old(calls) + [Poll] && exitcode == polled && (stopped <==> polled.Some?)
      ensures !old(stopped) && polled.Some? ==> result.resultFlag == resultFlag
      ensures old(stopped) || polled.None? ==> result == null || result.resultFlag == old(result.resultFlag)
    {
      if !stopped {
        exitcode := polled;
        calls := calls + [Poll];
        if exitcode.Some? {
          redirected := false;
          stopped := true;
          result.resultFlag := resultFlag;
        }
      }
      live := !stopped;
    }

    /** `close(force_terminate, result_flag)`: a no-op without a result or once
        stopped. Otherwise the judge ends stopped with `resultFlag` recorded,
        whether the poll in `alive` finds the child already exited or the child
        is still running; a running child is terminated when `forceTerminate`
        or `interact` is set and waited for (`waited` is what `wait()` returns)
        otherwise. */
    method Close(polled: Option<int>, waited: int, forceTerminate: bool := false, resultFlag: Option<Flags> := None)
      requires Valid()
      modifies this, Recorded()`resultFlag
      ensures Valid() && result == old(result) && writeQueue == old(writeQueue)
      ensures old(result) == null || old(stopped) ==>
                stopped == old(stopped) && exitcode == old(exitcode) && calls == old(calls)
                && (result != null ==> result.resultFlag == old(result.resultFlag))
      ensures old(result) != null && !old(stopped) ==> stopped && result.resultFlag == resultFlag
      ensures old(result) != null && !old(stopped) ==>
                calls == old(calls) + [Poll] + (if polled.Some? then []
                                                else if forceTerminate || interact then [Terminate]
                                                else [Wait])
      ensures old(result) != null && !old(stopped) ==>
                exitcode == (if polled.Some? then polled
                             else if forceTerminate || interact then None
                             else Some(waited))
    {
      if result != null {
        var live := Alive(polled, resultFlag);
        if live {
          result.resultFlag := resultFlag;
          redirected := false;
          if forceTerminate || interact {
            calls := calls + [Terminate];
          } else {
            exitcode := Some(waited);
            calls := calls + [Wait];
          }
          stopped := true;
        }
      }
    }

    /** `read()`: what the child's stdout gives (`available`) while the child
        is alive, "" once it is not. */
    method Read(polled: Option<int>, available: string) returns (data: string)
      requires Valid()
      requires !stopped && polled.Some? ==> result != null
      modifies this, Recorded()`resultFlag
      ensures Valid() && result == old(result) && writeQueue == old(writeQueue)
      ensures data == (if !old(stopped) && polled.None? then available else "")
      ensures stopped <==> old(stopped) || polled.Some?
      ensures calls == old(calls) + (if old(stopped) then []
                                     else [Poll] + (if polled.None? then [ReadOutput] else []))
      ensures exitcode == if old(stopped) then old(exitcode) else polled
      ensures !old(stopped) && polled.Some? ==> result.resultFlag == None
      ensures old(stopped) || polled.None? ==> result == null || result.resultFlag == old(result.resultFlag)
    {
      var live := Alive(polled);
      if live {
        calls := calls + [ReadOutput];
        data := available;
      } else {
        data := "";
      }
    }

    /** `readline()`: reads lines until one is non-empty after `rstrip`, or
        the child is found dead. `polls` are the answers of the successive
        polls and `lines` the successive lines of the child's stdout; the last
        poll shows an exit, so the loop ends. A result must be set only when a
        poll that is reached shows an exit. The rounds are numbered by `k`:
        every round before `k` found the child alive and read a blank line, and
        round `k` either found it dead (the result is "") or read the first line
        that is not blank (the result is that line without trailing
        whitespace). */
    method Readline(polls: seq<Option<int>>, lines: seq<string>) returns (line: string)
      requires Valid()
      requires polls != [] && polls[|polls| - 1].Some? && |lines| >= |polls|
      requires stopped || result != null || !ExitReached(polls, lines)
      modifies this, Recorded()`resultFlag
      ensures Valid() && result == old(result) && writeQueue == old(writeQueue)
      ensures old(stopped) ==> line == "" && stopped && calls == old(calls) && exitcode == old(exitcode)
      ensures !old(stopped) ==> exists k | 0 <= k < |polls| ::
                BlankRounds(polls, lines, k)
                && exitcode == polls[k]
                && (polls[k].Some? ==> stopped && line == "" && calls == old(calls) + PollReadCalls(k) + [Poll])
                && (polls[k].None? ==> !stopped && line == RStrip(lines[k]) != ""
                                       && calls == old(calls) + PollReadCalls(k + 1))
      ensures line == "" <==> stopped
      ensures line == [] || !IsSpace(line[|line| - 1])
      ensures !old(stopped) && stopped ==> result.resultFlag == None
      ensures !stopped ==> result == null || result.resultFlag == old(result.resultFlag)
    {
      if stopped {
        return "";
      }
      var live, k, raw := SkipBlankLines(polls, lines);
      if live {
        RStripIdempotent(lines[k]);
        RStripSpec(lines[k]);
      }
      line := if raw != "" then RStrip(raw) else "";
    }

    /** The loop of `readline()`: rounds are run while the child is alive and
        the line read is blank. Round `k` is the last one: it found the child
        dead, or read the first line that is not blank. */
    method SkipBlankLines(polls: seq<Option<int>>, lines: seq<string>) returns (live: bool, k: nat, line: string)
      requires Valid() && !stopped
      requires polls != [] && polls[|polls| - 1].Some? && |lines| >= |polls|
      requires result != null || !ExitReached(polls, lines)
      modifies this, Recorded()`resultFlag
      ensures Valid() && result == old(result) && writeQueue == old(writeQueue)
      ensures k < |polls| && BlankRounds(polls, lines, k) && exitcode == polls[k]
      ensures live == polls[k].None? && live == !stopped
      ensures !live ==> line == "" && calls == old(calls) + PollReadCalls(k) + [Poll] && result.resultFlag == None
      ensures live ==> line == RStrip(lines[k]) != "" && calls == old(calls) + PollReadCalls(k + 1)
      ensures live ==> result == null || result.resultFlag == old(result.resultFlag)
    {
      k := 0;
      if polls[0].Some? {
        ExitReachedAt(polls, lines, 0);
      }
      live, line := ReadlineRound(polls[0], lines[0]);
      while live && line == ""
        invariant Valid() && result == old(result) && writeQueue == old(writeQueue)
        invariant k < |polls| && BlankRounds(polls, lines, k) && exitcode == polls[k]
        invariant live == polls[k].None? && live == !stopped
        invariant !live ==> line == "" && calls == old(calls) + PollReadCalls(k) + [Poll] && result.resultFlag == None
        invariant live ==> line == RStrip(lines[k]) && calls == old(calls) + PollReadCalls(k + 1)
        invariant live ==> result == null || result.resultFlag == old(result.resultFlag)
        decreases |polls| - k
      {
        assert BlankRounds(polls, lines, k + 1);
        k := k + 1;
        if polls[k].Some? {
          ExitReachedAt(polls, lines, k);
        }
        live, line := ReadlineRound(polls[k], lines[k]);
        assert live ==> calls == old(calls) + (PollReadCalls(k) + [Poll, ReadLine]);
      }
    }

    /** One round of `readline`: `alive()` polls (`polled`), and while the
        child is alive one line (`text`) is read and right-stripped. */
    method ReadlineRound(polled: Option<int>, text: string) returns (live: bool, line: string)
      requires Valid()
      requires !stopped && polled.Some? ==> result != null
      modifies this, Recorded()`resultFlag
      ensures Valid() && result == old(result) && writeQueue == old(writeQueue)
      ensures old(stopped) ==> !live && line == "" && stopped && calls == old(calls) && exitcode == old(exitcode)
      ensures !old(stopped) ==> exitcode == polled && (live <==> polled.None?)
      ensures live == !stopped
      ensures live ==> calls == old(calls) + [Poll, ReadLine] && line == RStrip(text)
      ensures !old(stopped) && !live ==> calls == old(calls) + [Poll] && line == "" && result.resultFlag == None
      ensures live || old(stopped) ==> result == null || result.resultFlag == old(result.resultFlag)
    {
      live := Alive(polled);
      if live {
        calls := calls + [ReadLine];
        line := RStrip(text);
      } else {
        line := "";
      }
    }

    /** `write(data)`: queue an item for the writer. */
    method Write(data: string)
      modifies this`writeQueue
      ensures writeQueue == old(writeQueue) + [data]
    {
      writeQueue := writeQueue + [data];
    }

    /** The items `run` queues for the writer: what was read from stdin when
        `transfer` is set, then the stripped input and EOF. */
    method QueueInput(stdinData: string, input: string)
      modifies this`writeQueue
      ensures writeQueue == old(writeQueue) + QueuedInput(transfer, stdinData, input)
    {
      if transfer {
        Write(stdinData);
      }
      Write(Strip(input));
      Write(EOF);
    }

    /** `sys.stdin.read()`: while the standard streams are redirected to this
        judge it is the judge's own `read()`; otherwise it reads the process's
        real stdin, whose contents are `stdinData`. */
    method StdinRead(stdinData: string, polled: Option<int>, available: string) returns (data: string)
      requires Valid()
      requires !stopped && polled.Some? ==> result != null
      modifies this, Recorded()`resultFlag
      ensures Valid() && result == old(result) && writeQueue == old(writeQueue)
      ensures !old(redirected) ==> data == stdinData && stopped == old(stopped)
                                   && calls == old(calls) && exitcode == old(exitcode)
                                   && (result != null ==> result.resultFlag == old(result.resultFlag))
      ensures old(redirected) ==> data == (if polled.None? then available else "")
                                  && (stopped <==> polled.Some?) && exitcode == polled
                                  && calls == old(calls) + [Poll] + (if polled.None? then [ReadOutput] else [])
      ensures old(redirected) && polled.Some? ==> result.resultFlag == None
      ensures old(redirected) && polled.None? ==> result == null || result.resultFlag == old(result.resultFlag)
    {
      if redirected {
        data := Read(polled, available);
      } else {
        data := stdinData;
      }
    }

    /** `run(result, input_file, output_file)` without the writer thread:
        `input` and `expected` are the two files' contents, `output` what the
        child's stdout holds at the read, `memory` and `time` what the child
        reports. With `transfer`, `sys.stdin.read()` is queued first: the
        real stdin (`stdinData`) when the streams are not redirected, and
        otherwise the judge's own `read()`, which polls (`pollAtTransfer`) and
        reads the child's output (`available`). When the child is still
        running at the read, the result records the verdict of the
        comparison. When a poll before it already finds the child exited, the
        output is read as "" and `alive` records a `None` flag, which the
        final `close` leaves in place. */
    method Run(r: Result, input: string, expected: string, stdinData: string, pollAtTransfer: Option<int>,
               available: string, pollAtRead: Option<int>, output: string, memory: int, time: real,
               pollAtClose: Option<int>, waited: int)
      requires Valid()
      modifies this, r
      ensures Valid() && result == r && stopped
      ensures writeQueue == old(writeQueue) + QueuedInput(transfer, if !old(redirected) then stdinData
                                                                   else if pollAtTransfer.None? then available
                                                                   else "", input)
      ensures r.maxMemory == memory && r.executionTime == time
      ensures old(stopped) ==> r.resultFlag == old(r.resultFlag) && calls == old(calls) && exitcode == old(exitcode)
      ensures var diedAtTransfer := transfer && old(redirected) && pollAtTransfer.Some?;
              diedAtTransfer ==> r.resultFlag == None && calls == old(calls) + [Poll] && exitcode == pollAtTransfer
      ensures var live := !old(stopped) && !(transfer && old(redirected) && pollAtTransfer.Some?);
              var transferCalls := if transfer && old(redirected) then [Poll, ReadOutput] else [];
              && r.partialOutput == Some(Preview(Normalized(if live && pollAtRead.None? then output else "")))
              && (live && pollAtRead.Some? ==>
                    r.resultFlag == None && calls == old(calls) + transferCalls + [Poll] && exitcode == pollAtRead)
              && (live && pollAtRead.None? ==>
                    r.resultFlag == Some(Verdict(output, expected))
                    && calls == old(calls) + transferCalls + [Poll, ReadOutput, Poll]
                               + (if pollAtClose.Some? then [] else if interact then [Terminate] else [Wait])
                    && exitcode == (if pollAtClose.Some? then pollAtClose else if interact then None else Some(waited)))
    {
      result := r;
      QueueRunInput(input, stdinData, pollAtTransfer, available);
      JudgeOutput(expected, pollAtRead, output, memory, time, pollAtClose, waited);
    }

    /** The start of `run`: with `transfer`, `sys.stdin.read()` is queued,
        then the stripped input and EOF. */
    method QueueRunInput(input: string, stdinData: string, pollAtTransfer: Option<int>, available: string)
      requires Valid() && result != null
      modifies this, result`resultFlag
      ensures Valid() && result == old(result)
      ensures writeQueue == old(writeQueue) + QueuedInput(transfer, if !old(redirected) then stdinData
                                                                   else if pollAtTransfer.None? then available
                                                                   else "", input)
      ensures !(transfer && old(redirected)) ==>
                stopped == old(stopped) && calls == old(calls) && exitcode == old(exitcode)
                && result.resultFlag == old(result.resultFlag)
      ensures transfer && old(redirected) ==>
                (stopped <==> pollAtTransfer.Some?) && exitcode == pollAtTransfer
                && calls == old(calls) + [Poll] + (if pollAtTransfer.None? then [ReadOutput] else [])
                && result.resultFlag == (if pollAtTransfer.Some? then None else old(result.resultFlag))
    {
      var data := stdinData;
      if transfer {
        data := StdinRead(stdinData, pollAtTransfer, available);
      }
      QueueInput(data, input);
    }

    /** The rest of `run`: read and compare the output, record it, and close
        with the verdict. */
    method JudgeOutput(expected: string, pollAtRead: Option<int>, output: string, memory: int, time: real,
                       pollAtClose: Option<int>, waited: int)
      requires Valid() && result != null
      modifies this, result
      ensures Valid() && result == old(result) && writeQueue == old(writeQueue) && stopped
      ensures result.maxMemory == memory && result.executionTime == time
      ensures result.partialOutput == Some(Preview(Normalized(if !old(stopped) && pollAtRead.None? then output else "")))
      ensures old(stopped) ==>
                result.resultFlag == old(result.resultFlag) && calls == old(calls) && exitcode == old(exitcode)
      ensures !old(stopped) && pollAtRead.Some? ==>
                result.resultFlag == None && calls == old(calls) + [Poll] && exitcode == pollAtRead
      ensures !old(stopped) && pollAtRead.None? ==>
                result.resultFlag == Some(Verdict(output, expected))
                && calls == old(calls) + [Poll, ReadOutput, Poll]
                           + (if pollAtClose.Some? then [] else if interact then [Terminate] else [Wait])
                && exitcode == (if pollAtClose.Some? then pollAtClose else if interact then None else Some(waited))
    {
      var read := CollectOutput(pollAtRead, output, memory, time);
      assert !old(stopped) && pollAtRead.None? ==> !stopped && read == output && calls == old(calls) + [Poll, ReadOutput];
      Close(pollAtClose, waited, resultFlag := Some(Verdict(read, expected)));
    }

    /** The middle of `run`: read the child's output (`output` while the child
        is alive at the poll, "" otherwise) and record its preview, the peak
        memory and the running time in the result. */
    method CollectOutput(pollAtRead: Option<int>, output: string, memory: int, time: real) returns (read: string)
      requires Valid() && result != null
      modifies this, result
      ensures Valid() && result == old(result) && writeQueue == old(writeQueue)
      ensures read == if !old(stopped) && pollAtRead.None? then output else ""
      ensures stopped <==> old(stopped) || pollAtRead.Some?
      ensures result.partialOutput == Some(Preview(Normalized(read)))
      ensures result.maxMemory == memory && result.executionTime == time
      ensures !old(stopped) && pollAtRead.Some? ==> result.resultFlag == None
      ensures old(stopped) || pollAtRead.None? ==> result.resultFlag == old(result.resultFlag)
      ensures calls == old(calls) + (if old(stopped) then []
                                     else [Poll] + (if pollAtRead.None? then [ReadOutput] else []))
      ensures exitcode == if old(stopped) then old(exitcode) else pollAtRead
    {
      var r := result;
      assert Recorded() == {r};
      read := Read(pollAtRead, output);
      r.partialOutput := Some(Preview(Normalized(read)));
      r.maxMemory := memory;
      r.executionTime := time;
    }
  }
}
