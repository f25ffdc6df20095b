/** The decisions `main` and `execute_command` take once a line is
    tokenized: which built-in (if any) the first argument names
    (a3.c:317-333), whether a command runs in the background (a3.c:256),
    and what the parent prints and records after launching it
    (a3.c:254-276). Process creation and waiting are the operating system's
    part and enter only as the answers it gives (`ChildReport`). */
module Dispatch {
  import opened Wrappers
  import opened Numerals
  import opened Status

  /** What the first argument asks for. `ChangeDir(None)` means HOME. */
  datatype Kind = Comment | Exit | ChangeDir(target: Option<string>) | ShowStatus | External

  /** The classification chain of `main` on the argument array. */
  function Classify(args: seq<Option<string>>): Kind
    requires |args| > 0 && args[0].Some?
  {
    var first := args[0].value;
    if |first| > 0 && (first[0] == ' ' || first[0] == '#') then Comment
    else if first == "exit" then Exit
    else if first == "cd" then ChangeDir(if |args| > 1 then args[1] else None)
    else if first == "status" then ShowStatus
    else External
  }

  /** The test of a3.c:256: the line asked for `&` and the shell is not in
      foreground-only mode. */
  function RunsInBackground(requested: bool, allowed: bool): bool {
    requested && allowed
  }

  /** What the operating system answers the parent for one launched child:
      its pid, the result of the immediate non-blocking probe of a
      background child (`None`: still running), the status the blocking wait
      of a foreground child collects, and the children the sweep reaps. */
  datatype ChildReport = ChildReport(pid: nat, probe: Option<WaitStatus>, waited: WaitStatus, reaped: seq<Reaped>)

  datatype ParentOutcome = ParentOutcome(text: string, status: WaitStatus)

  function BackgroundLine(pid: nat): string {
    "Background pid is " + Decimal(pid) + "\n"
  }

  /** The parent's branch of `execute_command`: the text it prints and the
      value left in `exit_status`, which every wait writes into, the sweep's
      included. */
  function ParentBranch(inBackground: bool, child: ChildReport, last: WaitStatus): ParentOutcome
  {
    var text := if inBackground then BackgroundLine(child.pid) + SweepText(child.reaped) else SweepText(child.reaped);
    var status :=
      if child.reaped != [] then child.reaped[|child.reaped| - 1].status
      else if inBackground then child.probe.GetOr(last)
      else child.waited;
    ParentOutcome(text, status)
  }

  /** The parent prints the background notice (only on the background
      path) and then one report per reaped child, in the order reaped. */
  lemma ParentText(inBackground: bool, child: ChildReport, last: WaitStatus)
    ensures ParentBranch(inBackground, child, last).text ==
              (if inBackground then BackgroundLine(child.pid) else "") + SweepText(child.reaped)
  {
    if !inBackground {
      assert "" + SweepText(child.reaped) == SweepText(child.reaped);
    }
  }

  /** What `show_status` is documented to report (a3.c:176): after a
      foreground command that the sweep does not overtake, the recorded
      status is how that command ended. */
  lemma ForegroundStatusRecorded(child: ChildReport, last: WaitStatus)
    requires child.reaped == []
    ensures ParentBranch(false, child, last).status == child.waited
  {
  }

  /** What the code does instead whenever the sweep reaps a child: every
      wait writes `exit_status`, so the last reaped child's status replaces
      the foreground command's, whatever path was taken. */
  lemma SweepOverwritesStatus(inBackground: bool, child: ChildReport, last: WaitStatus)
    requires child.reaped != []
    ensures ParentBranch(inBackground, child, last).status == child.reaped[|child.reaped| - 1].status
  {
  }

  /** The discrepancy with a3.c:176: a foreground command followed by a
      reaped background child that ended differently leaves a status that is
      not the foreground command's. */
  lemma ForegroundStatusLost(child: ChildReport, last: WaitStatus)
    requires child.reaped != [] && child.reaped[|child.reaped| - 1].status != child.waited
    ensures ParentBranch(false, child, last).status != child.waited
  {
    SweepOverwritesStatus(false, child, last);
  }

  /** The same on concrete values: `sleep` exits with 0 in the foreground
      while a background child killed by signal 15 is reaped; `status` then
      has the background child's signal, not the foreground exit value. */
  lemma ForegroundStatusLostExample()
    ensures var child := ChildReport(200, None, Exited(0), [Reaped(100, Signaled(15))]);
            ParentBranch(false, child, Exited(0)).status == Signaled(15)
  {
  }

  /** On the background path with nothing reaped, the immediate probe's
      answer is recorded, or the previous status stays when the child is
      still running. */
  lemma BackgroundProbeRecorded(child: ChildReport, last: WaitStatus)
    requires child.reaped == []
    ensures ParentBranch(true, child, last).status == if child.probe.Some? then child.probe.value else last
  {
  }

  predicate StartsWith(s: string, prefix: string) {
    |prefix| <= |s| && s[..|prefix|] == prefix
  }

  /** "Background pid is" is printed exactly on the background path, and it
      names the child. */
  lemma BackgroundLineIffBackground(inBackground: bool, child: ChildReport, last: WaitStatus)
    ensures StartsWith(ParentBranch(inBackground, child, last).text, "Background pid is ") <==> inBackground
    ensures inBackground ==> StartsWith(ParentBranch(inBackground, child, last).text, BackgroundLine(child.pid))
  {
    var t := ParentBranch(inBackground, child, last).text;
    var sweep := SweepText(child.reaped);
    if inBackground {
      assert t == BackgroundLine(child.pid) + sweep;
      assert t[..|BackgroundLine(child.pid)|] == BackgroundLine(child.pid);
      assert BackgroundLine(child.pid)[..18] == "Background pid is ";
    } else {
      assert t == sweep;
      if |t| >= 18 {
        assert t[..18][0] == t[0] == 'C';
      }
    }
  }

  /** In foreground-only mode no request makes a command run in the
      background: the parent waits for it, records its status, and prints no
      "Background pid is" line. */
  lemma ForegroundOnlyBlocks(requested: bool, child: ChildReport, last: WaitStatus)
    ensures !StartsWith(ParentBranch(RunsInBackground(requested, false), child, last).text, "Background pid is ")
    ensures child.reaped == [] ==> ParentBranch(RunsInBackground(requested, false), child, last).status == child.waited
  {
    BackgroundLineIffBackground(false, child, last);
  }
}
