/** One pass of the shell's main loop (`main`, a3.c:283-346): tokenize a
    line into the argument array, classify it, act, then free the arguments
    and reset the per-line flags. The argument array is the fixed
    `char* arguments[MAX_ARG]` of the source; slots it never clears keep
    their strings into the next line. */
module Shell {
  import opened Wrappers
  import opened Expansion
  import opened Tokenizer
  import opened Status
  import opened Dispatch
  import opened ForegroundMode

  const MaxArg: nat := 512

  /** Everything one loop pass reads and writes besides the mode switch. */
  datatype ShellState = ShellState(cmd: Parsed, exitStatus: WaitStatus)

  /** What the shell does with one line, for the outside world. */
  datatype Action =
    | Skip                                       // comment line
    | ExitShell                                  // `exit(0)`
    | ChangeDirectory(target: Option<string>)    // `chdir`, HOME when None
    | PrintStatus(text: string)                  // `show_status`
    | Launch(argv: seq<string>, inputFile: string, outputFile: string,
             inBackground: bool, report: string)  // `execute_command`

  datatype StepResult = StepResult(state: ShellState, action: Action)

  /** The state before the first line: all slots empty, no flags, and the
      `exit_status` of 0 that reads as "exit value 0". */
  function Initial(slots: nat): ShellState {
    ShellState(Parsed(seq(slots, _ => None), false, "", ""), Exited(0))
  }

  /** The cleanup loop `for (i = 0; arguments[i]; i++) arguments[i] = NULL`
      (a3.c:318-321, a3.c:337-340): it stops at the first empty slot, so
      slots after a gap are left as they are. */
  function ClearPrefix(a: seq<Option<string>>): (r: seq<Option<string>>)
    ensures |r| == |a|
    ensures forall k {:trigger r[k]} :: 0 <= k < |a| ==> r[k] == if Reached(a, k) then None else a[k]
  {
    if a == [] || a[0].None? then a
    else
      var rest := ClearPrefix(a[1..]);
      assert forall k :: 1 <= k < |a| ==> a[k] == a[1..][k - 1];
      [None] + rest
  }

  /** The argument vector `execvp` sees: the slots up to the first empty one. */
  function Argv(a: seq<Option<string>>): (r: seq<string>)
    ensures |r| <= |a|
    ensures forall k :: 0 <= k < |r| ==> a[k] == Some(r[k])
    ensures |r| == |a| || a[|r|].None?
    ensures |r| == FirstNone(a)
  {
    if a == [] || a[0].None? then []
    else
      var rest := Argv(a[1..]);
      assert forall k :: 1 <= k < |a| ==> a[k] == a[1..][k - 1];
      [a[0].value] + rest
  }

  /** Between lines: the first two slots are empty. The cleanup clears slot
      0 and, when slot 0 was set, slot 1 as well. */
  predicate Idle(st: ShellState) {
    |st.cmd.args| >= 2 && st.cmd.args[0].None? && st.cmd.args[1].None?
  }

  /** The groups of a line the source can tokenize. */
  function LineGroups(line: string): seq<Group>
    requires Groups(Split(line)).Some?
  {
    Groups(Split(line)).value
  }

  /** A line the source handles without crashing: it tokenizes, fits the
      array, starts with a plain word, so `arguments[0]` is not NULL when
      a3.c:317 reads it, and leaves a NULL somewhere in the array, so the
      scans at a3.c:84, a3.c:247, a3.c:318 and a3.c:337 stop inside it. */
  predicate Ready(st: ShellState, line: string) {
    && Idle(st)
    && Parsable(line, |st.cmd.args|)
    && |LineGroups(line)| > 0
    && LineGroups(line)[0].Arg?
    && FirstNone(Filled(st.cmd.args, LineGroups(line))) < |st.cmd.args|
  }

  /** After tokenizing a ready line the array still holds a NULL, so the
      `expand_variable`, `execvp` and cleanup scans all stop at a slot of
      the array. */
  lemma ReadyLeavesNull(st: ShellState, line: string, pid: nat)
    requires Ready(st, line)
    ensures FirstNone(Parse(st.cmd, line, pid).args) < |st.cmd.args|
  {
    var gs := LineGroups(line);
    ParseSlots(st.cmd, gs, pid);
    var F := Filled(st.cmd.args, gs);
    var n := FirstNone(F);
    assert !Reached(F, n);
    assert Parse(st.cmd, line, pid).args[n].None?;
  }

  /** Slot 0 after tokenizing holds the first word, expanded. */
  lemma FirstSlot(st: ShellState, line: string, pid: nat)
    requires Ready(st, line)
    ensures Parse(st.cmd, line, pid).args[0] == Some(ExpandWord(LineGroups(line)[0].word, pid))
  {
    var gs := LineGroups(line);
    ParseSlots(st.cmd, gs, pid);
    var F := Filled(st.cmd.args, gs);
    assert F[0] == Some(gs[0].word);
    assert Reached(F, 0);
    assert Stores(gs);
  }

  /** Slot 1 after tokenizing: the second word, expanded, when the second
      group is a plain word, and empty otherwise. */
  lemma SecondSlot(st: ShellState, line: string, pid: nat)
    requires Ready(st, line)
    ensures var gs := LineGroups(line);
            Parse(st.cmd, line, pid).args[1] ==
              if |gs| > 1 && gs[1].Arg? then Some(ExpandWord(gs[1].word, pid)) else None
  {
    var gs := LineGroups(line);
    ParseSlots(st.cmd, gs, pid);
    var F := Filled(st.cmd.args, gs);
    assert F[0] == Some(gs[0].word);
    assert Stores(gs);
    if |gs| > 1 && gs[1].Arg? {
      assert F[1] == Some(gs[1].word);
      assert Reached(F, 1);
    } else {
      assert F[1].None?;
    }
  }

  /** The per-iteration reset of a3.c:337-343. */
  function Reset(p: Parsed): Parsed {
    Parsed(ClearPrefix(p.args), false, "", "")
  }

  /** What the loop does with the tokenized line `p` (a3.c:316-343), given
      the `exit_status` left by the previous commands. */
  function Perform(p: Parsed, last: WaitStatus, allowBackground: bool, child: ChildReport): StepResult
    requires |p.args| > 0 && p.args[0].Some?
  {
    match Classify(p.args)
    case Comment =>
      // `continue` skips the reset of the flags and paths (a3.c:322)
      StepResult(ShellState(p.(args := ClearPrefix(p.args)), last), Skip)
    case Exit =>
      StepResult(ShellState(p, last), ExitShell)
    case ChangeDir(target) =>
      StepResult(ShellState(Reset(p), last), ChangeDirectory(target))
    case ShowStatus =>
      StepResult(ShellState(Reset(p), last), PrintStatus(StatusText(last)))
    case External =>
      var inBackground := RunsInBackground(p.background, allowBackground);
      var outcome := ParentBranch(inBackground, child, last);
      StepResult(ShellState(Reset(p), outcome.status),
                 Launch(Argv(p.args), p.inputFile, p.outputFile, inBackground, outcome.text))
  }

  /** One pass of the main loop on `line`. `pid` is the shell's own process
      id (what `$$` becomes), `allowBackground` the mode switch, `child` the
      operating system's answers should the line launch a program. */
  function Step(st: ShellState, line: string, pid: nat, allowBackground: bool, child: ChildReport): StepResult
    requires Ready(st, line)
  {
    FirstSlot(st, line, pid);
    Perform(Parse(st.cmd, line, pid), st.exitStatus, allowBackground, child)
  }

  // ------------------------------------------------------------ lemmas

  /** Every pass but `exit` leaves the first two slots empty again, so the
      next line can be read; every pass that is not a comment clears the
      background flag and both redirect paths. */
  lemma StepResets(st: ShellState, line: string, pid: nat, allowBackground: bool, child: ChildReport)
    requires Ready(st, line)
    ensures var r := Step(st, line, pid, allowBackground, child);
            !r.action.ExitShell? ==> Idle(r.state) && |r.state.cmd.args| == |st.cmd.args|
    ensures var r := Step(st, line, pid, allowBackground, child);
            !r.action.ExitShell? && !r.action.Skip? ==>
              !r.state.cmd.background && r.state.cmd.inputFile == "" && r.state.cmd.outputFile == ""
  {
    var p := Parse(st.cmd, line, pid);
    FirstSlot(st, line, pid);
    var c := ClearPrefix(p.args);
    assert Reached(p.args, 0);
    if p.args[1].Some? {
      assert Reached(p.args, 1);
    }
    assert c[0].None? && c[1].None?;
  }

  /** How the first word decides the pass (a3.c:317-333): `#` starts a
      comment, `exit` ends the shell, `cd` changes to the second word or to
      HOME when slot 1 is empty (also when a redirect or `&` follows `cd`
      directly), `status` prints the last status, and any other word is
      launched as `argv[0]`, after `$$` expansion. */
  lemma DispatchOfLine(st: ShellState, line: string, pid: nat, allowBackground: bool, child: ChildReport)
    requires Ready(st, line)
    ensures var gs := LineGroups(line);
            var w := gs[0].word;
            var act := Step(st, line, pid, allowBackground, child).action;
            && (w[0] == '#' ==> act == Skip)
            && (w == "exit" ==> act == ExitShell)
            && (w == "cd" ==> act == ChangeDirectory(
                  if |gs| > 1 && gs[1].Arg? then Some(ExpandWord(gs[1].word, pid)) else None))
            && (w == "status" ==> act == PrintStatus(StatusText(st.exitStatus)))
            && (w[0] != '#' && w != "exit" && w != "cd" && w != "status" ==>
                  act.Launch? && |act.argv| > 0 && act.argv[0] == ExpandWord(w, pid))
  {
    var gs := LineGroups(line);
    var w := gs[0].word;
    var p := Parse(st.cmd, line, pid);
    FirstSlot(st, line, pid);
    var e := ExpandWord(w, pid);
    assert p.args[0] == Some(e);
    WordsOfLine(line);
    assert IsWord(w);
    if w == "exit" || w == "cd" || w == "status" {
      assert !ContainsPair(w);
      if w == "cd" {
        SecondSlot(st, line, pid);
      }
    } else {
      FirstCharOfExpansion(w, pid);
      if w[0] == '#' {
        assert Classify(p.args) == Comment;
      } else {
        NotBuiltinAfterExpansion(w, pid);
        assert Classify(p.args) == External;
      }
    }
  }

  /** Every plain word of a tokenized line is a non-empty run without spaces. */
  lemma WordsOfLine(line: string)
    requires Groups(Split(line)).Some?
    ensures forall k :: 0 <= k < |LineGroups(line)| && LineGroups(line)[k].Arg? ==>
              IsWord(LineGroups(line)[k].word)
  {
    GroupWords(Split(line));
  }

  lemma {:induction false} GroupWords(words: seq<string>)
    requires forall i :: 0 <= i < |words| ==> IsWord(words[i])
    requires Groups(words).Some?
    ensures forall k :: 0 <= k < |Groups(words).value| && Groups(words).value[k].Arg? ==>
              IsWord(Groups(words).value[k].word)
    decreases |words|
  {
    if words != [] {
      if words[0] == "<" || words[0] == ">" {
        GroupWords(words[2..]);
      } else {
        GroupWords(words[1..]);
      }
    }
  }

  /** Expansion keeps a word's first character unless the word starts with
      `$$`, in which case it starts with a digit. */
  lemma FirstCharOfExpansion(w: string, pid: nat)
    requires |w| > 0
    ensures |ExpandWord(w, pid)| > 0
    ensures ExpandWord(w, pid)[0] == w[0] || Numerals.IsDigit(ExpandWord(w, pid)[0])
  {
    var j := FindPair(w, 0);
    if j < |w| {
      if j == 0 {
        assert ExpandWord(w, pid) == Numerals.Decimal(pid);
      } else {
        assert ExpandWord(w, pid)[0] == w[..j][0];
      }
    }
  }

  /** A word that expands always ends in a digit, so expansion never turns
      a word into a built-in name. */
  lemma NotBuiltinAfterExpansion(w: string, pid: nat)
    requires w != "exit" && w != "cd" && w != "status"
    ensures var e := ExpandWord(w, pid); e != "exit" && e != "cd" && e != "status"
  {
    if ContainsPair(w) {
      var j := FindPair(w, 0);
      var e := w[..j] + Numerals.Decimal(pid);
      assert ExpandWord(w, pid) == e;
      assert Numerals.IsDigit(e[|e| - 1]);
    }
  }

  /** `&` is honoured exactly when the mode allows it: in foreground-only
      mode a launched command is waited for and no "Background pid is" line
      is printed; otherwise a line with `&` runs in the background and says
      so. */
  lemma BackgroundDecision(st: ShellState, line: string, pid: nat, allowBackground: bool, child: ChildReport)
    requires Ready(st, line)
    ensures var act := Step(st, line, pid, allowBackground, child).action;
            act.Launch? ==>
              && act.inBackground == (Parse(st.cmd, line, pid).background && allowBackground)
              && (StartsWith(act.report, "Background pid is ") <==> act.inBackground)
    ensures var act := Step(st, line, pid, false, child).action;
            act.Launch? ==> !act.inBackground && !StartsWith(act.report, "Background pid is ")
  {
    var p := Parse(st.cmd, line, pid);
    BackgroundLineIffBackground(RunsInBackground(p.background, allowBackground), child, st.exitStatus);
    BackgroundLineIffBackground(false, child, st.exitStatus);
  }

  /** After a foreground command that no background child overtakes in the
      sweep, the next `status` prints exactly how that command ended. */
  lemma StatusAfterForeground(st: ShellState, line: string, next: string, pid: nat,
                              allowBackground: bool, child: ChildReport, child2: ChildReport)
    requires Ready(st, line)
    requires Step(st, line, pid, allowBackground, child).action.Launch?
    requires !Step(st, line, pid, allowBackground, child).action.inBackground
    requires child.reaped == []
    requires Ready(Step(st, line, pid, allowBackground, child).state, next)
    requires LineGroups(next)[0].word == "status"
    ensures Step(Step(st, line, pid, allowBackground, child).state, next, pid, allowBackground, child2).action
            == PrintStatus(StatusText(child.waited))
  {
    var s1 := Step(st, line, pid, allowBackground, child).state;
    assert s1.exitStatus == child.waited;
    DispatchOfLine(s1, next, pid, allowBackground, child2);
  }

  /** A comment line returns through `continue` before the reset, so an `&`
      on it leaves the background flag set for the next line, and its
      redirect paths stay in place as well. */
  lemma CommentKeepsFlags(st: ShellState, line: string, pid: nat, allowBackground: bool, child: ChildReport)
    requires Ready(st, line)
    requires LineGroups(line)[0].word[0] == '#'
    ensures var r := Step(st, line, pid, allowBackground, child);
            && r.action == Skip
            && r.state.cmd.background ==
                 (st.cmd.background || exists k :: 0 <= k < |LineGroups(line)| && LineGroups(line)[k] == Ampersand)
            && r.state.cmd.inputFile == Parse(st.cmd, line, pid).inputFile
            && r.state.cmd.outputFile == Parse(st.cmd, line, pid).outputFile
            && r.state.exitStatus == st.exitStatus
  {
    DispatchOfLine(st, line, pid, allowBackground, child);
    ParseBackground(st.cmd, LineGroups(line), pid);
  }

  /** Arguments after a gap are not cleared by the cleanup loop: a slot
      left set in the array is picked up by the next line that fills every
      slot before it, which then passes it to `execvp`. */
  lemma StaleSlotJoinsArgv(st: ShellState, line: string, pid: nat)
    requires Ready(st, line)
    requires forall k :: 0 <= k < |LineGroups(line)| ==> LineGroups(line)[k].Arg?
    requires |LineGroups(line)| < |st.cmd.args| && st.cmd.args[|LineGroups(line)|].Some?
    ensures var n := |LineGroups(line)|;
            var argv := Argv(Parse(st.cmd, line, pid).args);
            |argv| > n && argv[n] == ExpandWord(st.cmd.args[n].value, pid)
  {
    var gs := LineGroups(line);
    var n := |gs|;
    ParseSlots(st.cmd, gs, pid);
    var F := Filled(st.cmd.args, gs);
    assert Stores(gs) by { assert gs[0].Arg?; }
    assert Reached(F, n) by {
      forall j | 0 <= j <= n ensures F[j].Some? {
        if j < n { assert gs[j].Arg?; }
      }
    }
    var a := Parse(st.cmd, line, pid).args;
    forall j | 0 <= j <= n ensures a[j].Some? {
      assert Reached(F, j);
    }
    assert |Argv(a)| > n;
  }

  /** A line whose first argument is not a built-in launches it and resets. */
  lemma StepLaunches(st: ShellState, line: string, pid: nat, allowBackground: bool, child: ChildReport)
    requires Ready(st, line)
    requires Parse(st.cmd, line, pid).args[0].Some? && Classify(Parse(st.cmd, line, pid).args) == External
    ensures var p := Parse(st.cmd, line, pid);
            var inBackground := RunsInBackground(p.background, allowBackground);
            Step(st, line, pid, allowBackground, child) ==
              StepResult(ShellState(Reset(p), ParentBranch(inBackground, child, st.exitStatus).status),
                         Launch(Argv(p.args), p.inputFile, p.outputFile, inBackground,
                                ParentBranch(inBackground, child, st.exitStatus).text))
  {
  }

  // ------------------------------------------------ a stale argument, concretely

  /** The groups of `ls > out x`: a gap at slot 1 for the redirect. */
  function GapGroups(): seq<Group> {
    [Arg("ls"), OutputRedirect("out"), Arg("x")]
  }

  /** The groups of `a b`. */
  function PlainGroups(): seq<Group> {
    [Arg("a"), Arg("b")]
  }

  lemma SplitOfGapLine()
    ensures Split("ls > out x") == ["ls", ">", "out", "x"]
  {
    var words: seq<string> := ["ls", ">", "out", "x"];
    assert Join(words) == "ls > out x";
    SplitJoin(words);
  }

  lemma GroupsOfGapWords()
    ensures Groups(["ls", ">", "out", "x"]) == Some(GapGroups())
  {
    var words: seq<string> := ["ls", ">", "out", "x"];
    var gs := GapGroups();
    var noWords: seq<string> := [];
    var noGroups: seq<Group> := [];
    assert Groups(words[3..]) == Some(gs[2..]) by {
      assert words[3..][1..] == noWords;
      assert Groups(noWords) == Some(noGroups);
      assert gs[2..] == [Arg("x")] + noGroups;
    }
    assert Groups(words[1..]) == Some(gs[1..]) by {
      assert words[1..][2..] == words[3..];
      assert gs[1..] == [OutputRedirect("out")] + gs[2..];
    }
    assert gs == [Arg("ls")] + gs[1..];
  }

  /** `ls > out x` tokenizes into an argument, an output redirect and a
      second argument. */
  lemma GroupsOfGapLine()
    ensures Groups(Split("ls > out x")) == Some(GapGroups())
  {
    SplitOfGapLine();
    GroupsOfGapWords();
  }

  lemma SplitOfPlainLine()
    ensures Split("a b") == ["a", "b"]
  {
    var words: seq<string> := ["a", "b"];
    assert Join(words) == "a b";
    SplitJoin(words);
  }

  lemma GroupsOfPlainWords()
    ensures Groups(["a", "b"]) == Some(PlainGroups())
  {
    var words: seq<string> := ["a", "b"];
    var gs := PlainGroups();
    var noWords: seq<string> := [];
    var noGroups: seq<Group> := [];
    assert Groups(words[1..]) == Some(gs[1..]) by {
      assert words[1..][1..] == noWords;
      assert Groups(noWords) == Some(noGroups);
      assert gs[1..] == [Arg("b")] + noGroups;
    }
    assert gs == [Arg("a")] + gs[1..];
  }

  /** `a b` tokenizes into two arguments. */
  lemma GroupsOfPlainLine()
    ensures Groups(Split("a b")) == Some(PlainGroups())
  {
    SplitOfPlainLine();
    GroupsOfPlainWords();
  }

  /** A line grouped as `ls > out x`, tokenized into an empty array. */
  lemma ParseOfGapLine(st: ShellState, line: string, pid: nat)
    requires |st.cmd.args| >= 4 && forall k :: 0 <= k < |st.cmd.args| ==> st.cmd.args[k].None?
    requires Groups(Split(line)) == Some(GapGroups())
    ensures Ready(st, line)
    ensures var a := Parse(st.cmd, line, pid).args;
            |a| == |st.cmd.args| && a[0] == Some("ls") && a[1] == None && a[2] == Some("x") && a[3] == None
  {
    var gs := GapGroups();
    FreshSlots(st.cmd, gs, pid);
    assert Filled(st.cmd.args, gs)[1].None?;
    assert !ContainsPair("ls") && !ContainsPair("x");
  }

  /** Such a line run from an empty array: `x` lands in slot 2 behind the
      gap of the redirect, and the cleanup leaves it there. */
  lemma GapLineLeavesSlot(st: ShellState, line: string, pid: nat, allowBackground: bool, child: ChildReport)
    requires |st.cmd.args| >= 4 && forall k :: 0 <= k < |st.cmd.args| ==> st.cmd.args[k].None?
    requires Groups(Split(line)) == Some(GapGroups())
    ensures Ready(st, line)
    ensures var s1 := Step(st, line, pid, allowBackground, child).state;
            |s1.cmd.args| == |st.cmd.args| && Idle(s1) &&
            s1.cmd.args[2] == Some("x") && s1.cmd.args[3] == None &&
            !s1.cmd.background && s1.cmd.inputFile == "" && s1.cmd.outputFile == ""
  {
    ParseOfGapLine(st, line, pid);
    var p := Parse(st.cmd, line, pid);
    ClassifiedExternal(p.args, "ls");
    StepLaunches(st, line, pid, allowBackground, child);
    assert !Reached(p.args, 2) && !Reached(p.args, 3);
  }

  /** A line grouped as `a b`, tokenized over the array left behind. */
  lemma ParseOverStaleSlot(s1: ShellState, line: string, pid: nat)
    requires |s1.cmd.args| >= 4 && Idle(s1) && s1.cmd.args[2] == Some("x") && s1.cmd.args[3] == None
    requires !s1.cmd.background && s1.cmd.inputFile == "" && s1.cmd.outputFile == ""
    requires Groups(Split(line)) == Some(PlainGroups())
    ensures Ready(s1, line)
    ensures var p := Parse(s1.cmd, line, pid);
            p.args[0] == Some("a") && p.args[1] == Some("b") && p.args[2] == Some("x") && p.args[3] == None &&
            !p.background && p.inputFile == "" && p.outputFile == ""
  {
    var gs := PlainGroups();
    ParseSlots(s1.cmd, gs, pid);
    var F := Filled(s1.cmd.args, gs);
    assert Stores(gs) by { assert gs[0].Arg?; }
    assert F[0] == Some("a") && F[1] == Some("b") && F[2] == Some("x") && F[3] == None;
    assert Reached(F, 2) && !Reached(F, 3);
    assert !ContainsPair("a") && !ContainsPair("b") && !ContainsPair("x");
    ParseBackground(s1.cmd, gs, pid);
    ParseInputFile(s1.cmd, gs, pid);
    ParseOutputFile(s1.cmd, gs, pid);
  }

  /** An argument array headed by a word that names no built-in is launched. */
  lemma ClassifiedExternal(args: seq<Option<string>>, w: string)
    requires |args| > 0 && args[0] == Some(w) && |w| > 0 && w[0] != ' ' && w[0] != '#'
    requires w != "exit" && w != "cd" && w != "status"
    ensures Classify(args) == External
  {
  }

  /** `execvp` runs up to the first empty slot, whatever follows it. */
  lemma ArgvOfThree(a: seq<Option<string>>)
    requires |a| >= 4 && a[0] == Some("a") && a[1] == Some("b") && a[2] == Some("x") && a[3] == None
    ensures Argv(a) == ["a", "b", "x"]
  {
    assert FirstNone(a) == 3;
  }

  /** The stale slot in action: after `ls > out x`, the line `a b` runs as
      `a b x` (stated for any two lines that group that way). */
  lemma StaleArgumentExample(st: ShellState, line1: string, line2: string, pid: nat,
                             allowBackground: bool, c1: ChildReport, c2: ChildReport)
    requires |st.cmd.args| >= 4 && forall k :: 0 <= k < |st.cmd.args| ==> st.cmd.args[k].None?
    requires Groups(Split(line1)) == Some(GapGroups())
    requires Groups(Split(line2)) == Some(PlainGroups())
    ensures Ready(st, line1)
    ensures var s1 := Step(st, line1, pid, allowBackground, c1).state;
            Ready(s1, line2) &&
            Step(s1, line2, pid, allowBackground, c2).action == Launch(["a", "b", "x"], "", "", false, SweepText(c2.reaped))
  {
    GapLineLeavesSlot(st, line1, pid, allowBackground, c1);
    var s1 := Step(st, line1, pid, allowBackground, c1).state;
    ParseOverStaleSlot(s1, line2, pid);
    var p := Parse(s1.cmd, line2, pid);
    ClassifiedExternal(p.args, "a");
    StepLaunches(s1, line2, pid, allowBackground, c2);
    ArgvOfThree(p.args);
    assert !RunsInBackground(p.background, allowBackground);
  }

  /** The same for the literal lines. */
  lemma StaleArgumentOnLiterals(st: ShellState, pid: nat, allowBackground: bool, c1: ChildReport, c2: ChildReport)
    requires |st.cmd.args| >= 4 && forall k :: 0 <= k < |st.cmd.args| ==> st.cmd.args[k].None?
    ensures Ready(st, "ls > out x")
    ensures var s1 := Step(st, "ls > out x", pid, allowBackground, c1).state;
            Ready(s1, "a b") &&
            Step(s1, "a b", pid, allowBackground, c2).action == Launch(["a", "b", "x"], "", "", false, SweepText(c2.reaped))
  {
    GroupsOfGapLine();
    GroupsOfPlainLine();
    StaleArgumentExample(st, "ls > out x", "a b", pid, allowBackground, c1, c2);
  }

  // ------------------------------------------------------------ the shell

  class Shell {
    /** What `$$` expands to: `getpid()` of the shell itself. */
    const pid: nat
    /** `char* arguments[MAX_ARG]`; `None` is NULL. */
    const arguments: array<Option<string>>
    var background: bool
    /** Empty when there is no redirect (`input_file[0] == '\0'`). */
    var inputFile: string
    var outputFile: string
    /** `exit_status`, as the wait macros read it. */
    var exitStatus: WaitStatus
    /** The foreground-only switch the SIGTSTP handler flips. */
    const mode: ModeSwitch

    ghost function State(): ShellState
      reads this, arguments
    {
      ShellState(Parsed(arguments[..], background, inputFile, outputFile), exitStatus)
    }

    ghost predicate Valid()
      reads this, arguments
    {
      arguments.Length == MaxArg && Idle(State())
    }

    /** The set-up of `main` before its loop (a3.c:285-297). */
    constructor (pid: nat)
      ensures Valid() && State() == Initial(MaxArg)
      ensures this.pid == pid && fresh(arguments) && fresh(mode) && mode.isBackground
    {
      this.pid := pid;
      arguments := new Option<string>[MaxArg](_ => None);
      background, inputFile, outputFile := false, "", "";
      exitStatus := Exited(0);
      mode := new ModeSwitch();
    }

    /** `expand_variable(command)`: expand every slot up to the first NULL. */
    method ExpandVariable()
      modifies arguments
      ensures arguments[..] == ExpandArgs(old(arguments[..]), pid)
    {
      ghost var before := arguments[..];
      var i := 0;
      while i < arguments.Length && arguments[i].Some?
        invariant 0 <= i <= arguments.Length
        invariant forall k :: 0 <= k < i ==>
                    before[k].Some? && arguments[k] == Some(ExpandWord(before[k].value, pid))
        invariant forall k :: i <= k < arguments.Length ==> arguments[k] == before[k]
      {
        var expanded := ExpandInString(arguments[i].value, pid);
        arguments[i] := Some(expanded);
        i := i + 1;
      }
      assert i == FirstNone(before);
      ghost var r := ExpandArgs(before, pid);
      assert forall k :: 0 <= k < arguments.Length ==> arguments[k] == r[k];
    }

    /** `command[i] = strdup(argument); expand_variable(command);`
        (a3.c:144-145). */
    method StoreArgument(i: nat, argument: string)
      requires i < arguments.Length
      modifies arguments
      ensures arguments[..] == ExpandArgs(old(arguments[..])[i := Some(argument)], pid)
    {
      arguments[i] := Some(argument);
      ExpandVariable();
    }

    /** `get_command` on an input line (a3.c:118-151): the `strtok` loop
        with its slot counter. */
    method GetCommand(line: string)
      requires Parsable(line, arguments.Length)
      modifies this`background, this`inputFile, this`outputFile, arguments
      ensures State().cmd == Parse(old(State().cmd), line, pid)
    {
      var words := Split(line);
      ghost var gs := Groups(words).value;
      ghost var start := State().cmd;
      var next := 0;
      var i := 0;
      while next < |words|
        invariant 0 <= next <= |words| && 0 <= i <= |gs|
        invariant Groups(words[next..]) == Some(gs[i..])
        invariant State().cmd == ApplyGroups(start, gs[..i], pid)
      {
        GroupsUnfold(words[next..], gs[i..]);
        next := ConsumeGroup(words, next, i, gs[i..]);
        assert gs[i..][0] == gs[i] && gs[i..][1..] == gs[i + 1..];
        ApplyGroupsSnoc(start, gs, i, pid);
        i := i + 1;
      }
      assert gs[..i] == gs;
    }

    /** One pass of the `while (argument)` loop: the group that starts at
        `words[next]`, counted as slot `i`. Returns where the next group
        starts. */
    method ConsumeGroup(words: seq<string>, next: nat, i: nat, ghost gs: seq<Group>) returns (after: nat)
      requires next < |words| && Groups(words[next..]) == Some(gs) && gs != [] && i < arguments.Length
      modifies this`background, this`inputFile, this`outputFile, arguments
      ensures next < after <= |words| && Groups(words[after..]) == Some(gs[1..])
      ensures State().cmd == ApplyGroup(old(State().cmd), i, gs[0], pid)
    {
      GroupsUnfold(words[next..], gs);
      var argument := words[next];
      after := next + 1;
      if argument == "<" {
        assert words[next..][2..] == words[next + 2..];
        inputFile := words[after];
        after := after + 1;
      } else if argument == ">" {
        assert words[next..][2..] == words[next + 2..];
        outputFile := words[after];
        after := after + 1;
      } else if argument == "&" {
        assert words[next..][1..] == words[next + 1..];
        background := true;
      } else {
        assert words[next..][1..] == words[next + 1..];
        StoreArgument(i, argument);
      }
    }

    /** The cleanup loop of a3.c:318-321 and a3.c:337-340. */
    method ClearArguments()
      modifies arguments
      ensures arguments[..] == ClearPrefix(old(arguments[..]))
    {
      var i := 0;
      while i < arguments.Length && arguments[i].Some?
        invariant 0 <= i <= arguments.Length
        invariant forall k :: 0 <= k < i ==> old(arguments[k]).Some? && arguments[k].None?
        invariant forall k :: i <= k < arguments.Length ==> arguments[k] == old(arguments[k])
      {
        arguments[i] := None;
        i := i + 1;
      }
      ghost var before := old(arguments[..]);
      forall k | 0 <= k < arguments.Length
        ensures arguments[k] == ClearPrefix(before)[k]
      {
        if k < i {
          assert Reached(before, k) by {
            forall j | 0 <= j <= k ensures before[j].Some? { }
          }
        } else {
          assert !Reached(before, k) by {
            assert before[i].None?;
          }
        }
      }
    }

    /** The rest of a loop pass once the line is tokenized: dispatch on
        the first argument, then free the arguments and reset the flags
        (a3.c:316-343). */
    method RunParsed(child: ChildReport) returns (act: Action)
      requires arguments.Length > 0 && arguments[0].Some?
      modifies this`background, this`inputFile, this`outputFile, this`exitStatus, arguments
      ensures StepResult(State(), act) == Perform(old(State().cmd), old(exitStatus), mode.isBackground, child)
    {
      ghost var p := State().cmd;
      match Classify(arguments[..]) {
        case Comment =>
          ClearArguments();
          assert State().cmd == p.(args := ClearPrefix(p.args));
          return Skip;
        case Exit =>
          assert State().cmd == p;
          return ExitShell;
        case ChangeDir(target) =>
          act := ChangeDirectory(target);
        case ShowStatus =>
          act := PrintStatus(StatusText(exitStatus));
        case External =>
          var inBackground := RunsInBackground(background, mode.isBackground);
          var outcome := ParentBranch(inBackground, child, exitStatus);
          act := Launch(Argv(arguments[..]), inputFile, outputFile, inBackground, outcome.text);
          exitStatus := outcome.status;
      }
      ClearArguments();
      background := false;
      inputFile := "";
      outputFile := "";
      assert State().cmd == Reset(p);
    }

    /** One pass of the `while (1)` loop of `main` on `line`. */
    method Iterate(line: string, child: ChildReport) returns (act: Action)
      requires Valid() && Ready(State(), line)
      modifies this`background, this`inputFile, this`outputFile, this`exitStatus, arguments
      ensures StepResult(State(), act) == Step(old(State()), line, pid, mode.isBackground, child)
      ensures !act.ExitShell? ==> Valid()
    {
      ghost var st := State();
      GetCommand(line);
      FirstSlot(st, line, pid);
      StepResets(st, line, pid, mode.isBackground, child);
      act := RunParsed(child);
    }
  }
}
