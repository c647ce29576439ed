/**
 * External programs (mariabackup, mbstream, stdbuf) as an oracle: what a
 * program does when started with some arguments is a fixed function of that
 * invocation, and the runner keeps the list of invocations it has started.
 */
module Processes {
  import opened Wrappers
  import opened Text
  import opened Files

  /** One command-line argument; a path argument is the prefix followed by the path. */
  datatype Arg = Word(text: string) | PathArg(prefix: string, path: Path)

  datatype Invocation = Invocation(program: string, args: seq<Arg>)

  /** How the process ended: it could not be started, `Wait` failed, or it exited with a code. */
  datatype Status = StartFailed | WaitFailed | Exited(code: int)

  /**
   * What started process does: its end, whether the pipe to or from it
   * carried the whole stream without error, and what it wrote to its stdout.
   */
  datatype Process = Process(status: Status, streamOk: bool, output: seq<byte>)

  /** Why `cmd.Wait()` returned an error: an `*exec.ExitError` for a non-zero status, or a failure of the wait itself. */
  datatype WaitFault = ExitStatus(code: int) | WaitBroken

  /**
   * The error `cmd.Wait()` returns for a process that started. Every
   * non-zero exit status is an error here, so a check of
   * `ProcessState.ExitCode()` after a nil `Wait` always finds 0.
   */
  function Waited(s: Status): (r: Option<WaitFault>)
    requires !s.StartFailed?
    ensures r.None? <==> s == Exited(0)
    ensures s.Exited? && s.code != 0 ==> r == Some(ExitStatus(s.code))
    ensures s.WaitFailed? ==> r == Some(WaitBroken)
  {
    match s
    case WaitFailed => Some(WaitBroken)
    case Exited(code) => if code == 0 then None else Some(ExitStatus(code))
  }

  predicate HasPathArg(inv: Invocation, prefix: string) {
    exists a :: a in inv.args && a.PathArg? && a.prefix == prefix
  }

  class ToolRunner {
    const run: Invocation -> Process
    /** Every invocation started so far, in order, including those whose start failed. */
    var log: seq<Invocation>

    constructor (run: Invocation -> Process)
      ensures this.run == run && log == []
    {
      this.run := run;
      log := [];
    }

    /** `cmd.Start()`, and what follows from it. */
    method Start(inv: Invocation) returns (p: Process)
      modifies this
      ensures log == old(log) + [inv]
      ensures p == run(inv)
    {
      log := log + [inv];
      p := run(inv);
    }
  }
}
