# smallsh command-line core, modelled in Dafny

This project models the text-processing and decision layer of `a3.c`, a small
Unix shell. Each pass of the shell's main loop does the following:

- It cuts a line into words at spaces and groups them. `< path` and `> path`
  set the redirect paths, `&` sets the background flag, and every other word
  is stored in the fixed argument array `char* arguments[512]`.
- It expands `$$` in the stored arguments to the shell's process id.
- It classifies the first argument as a comment, `exit`, `cd`, `status` or an
  external program.
- For an external program, it runs it in the background only when the line
  asked for `&` and foreground-only mode is off. It prints
  `Background pid is N` in that case and waits for the child otherwise. The
  wait status is recorded for the `status` built-in.
- It frees the arguments and resets the flag and the paths.

SIGTSTP toggles foreground-only mode and prints a fixed message followed by
`: `.

The model keeps the source's own shape:

- `Shell.Shell` is a class holding the argument array, the flag, the two paths,
  `exit_status` and the mode switch.
- Its methods `GetCommand`, `ExpandVariable`, `ClearArguments` and `Iterate`
  perform the source's loops in place on the array.
- Each of those methods is proved equal to a pure specification:
  `Tokenizer.Parse`, `Expansion.ExpandArgs`, `Shell.ClearPrefix` and
  `Shell.Step`.
- The lemmas about those specifications state what the source promises.
- `ForegroundMode.ModeSwitch` is the global `is_background` with the SIGTSTP
  handler as a method.

Files:

- `wrappers.dfy`: the Option datatype (a NULL slot, or the OS's "nothing yet").
- `decimal.dfy`: what `%d` prints.
- `expansion.dfy`: `$$` expansion of one word and of the array.
- `tokenizer.dfy`: `strtok` splitting, token groups, and the tokenizer's effect on the array, flag and paths.
- `status.dfy`: the status texts.
- `mode.dfy`: foreground-only mode.
- `dispatch.dfy`: classification, the background test, and the parent's branch.
- `shell.dfy`: the main-loop pass, the shell class and the lemmas about whole passes.

Several behaviours of the source are modelled as written and are stated as
lemmas:

- **Gaps.** The slot counter advances once per group. So a word after `< f`,
  `> f` or `&` lands behind an empty slot. `execvp` never sees it, and
  `$$` expansion never reaches it (`FreshSlots`).
- **Stale slots.** The cleanup loop stops at the first empty slot. Words behind
  a gap therefore stay in the array, and the next line that fills the slots
  before them passes them to the program. After `ls > out x`, the line `a b`
  runs as `a b x` (`StaleSlotJoinsArgv`, `StaleArgumentExample`).
- **Comment lines.** A comment line leaves the loop pass through `continue`,
  before the reset. An `&` or a redirect on a comment line therefore carries
  over to the next command (`CommentKeepsFlags`).
- **Background statuses.** The reaping sweep writes every reaped child's status
  into `exit_status`. So `status` can report a background child
  (`Dispatch.SweepOverwritesStatus`, `Dispatch.ForegroundStatusLost`). The comment above `show_status` (a3.c:176) says it
  reports the last foreground process; the model follows the code.
- **No message after a foreground signal.** After a foreground child is killed
  by a signal, the parent prints nothing. The only code that would print
  `terminated by signal N` is in the SIGINT handler, which returns early
  because `getpid() != 0`. Its comment (a3.c:46) says it reports a foreground
  child's termination; the model follows the code and prints only the sweep's
  lines.
- **The `' '` test.** The test `arguments[0][0] == ' '` can never fire, because
  words never contain a space (`DispatchOfLine`).

## Model

| member | source | states |
|---|---|---|
| Numerals.Decimal | a3.c:89-91 | `%d` of a natural number is a non-empty digit string, one digit exactly below 10, with no leading zero |
| Numerals.ValueOfDecimal | a3.c:89-91 | reading back the printed digits gives the number (round trip) |
| Numerals.DecimalInjective | a3.c:89-91 | distinct numbers print differently |
| Expansion.FindPair | a3.c:85-86 | the scan returns the first index holding `$$` at or after its start, or the length when there is none |
| Expansion.FirstNone | a3.c:84 | the array scan stops at the first NULL slot: every slot before it is set, and it is NULL or the end of the array |
| Expansion.ExpandWord | a3.c:85-94 | a word in which the scan finds no `$$` is unchanged; otherwise it becomes the text before its first `$$` followed by the decimal pid, and the rest is lost; the result never contains `$$` |
| Expansion.TruncatedHasNoPair | a3.c:88-93 | the prefix before the first `$$` followed by the pid's digits contains no `$$` |
| Expansion.ExpandWordIdempotent | a3.c:84-95 | expanding an expanded word again changes nothing |
| Expansion.ExpandArgs | a3.c:84-95 | one `expand_variable` pass expands exactly the slots before the first NULL and leaves every later slot untouched |
| Expansion.ExpandArgsIdempotent | a3.c:144-145 | a second pass over an expanded array changes nothing, so the repeated passes of the tokenizer are harmless |
| Expansion.ExpandInString | a3.c:85-94 | the character loop, which keeps scanning the replaced string, computes `ExpandWord` |
| Tokenizer.Split | a3.c:126-129 | `strtok` on `" "` yields non-empty words without spaces |
| Tokenizer.SplitJoin | a3.c:126-148 | splitting words joined by single spaces returns exactly those words |
| Tokenizer.SplitAtSpace | a3.c:126-129 | a space always separates: the words of `a + " " + b` are the words of `a` followed by the words of `b` |
| Tokenizer.SplitPadded | a3.c:126-129 | runs of spaces before, between and after two words yield exactly those two words |
| Tokenizer.SplitExample | a3.c:126-129 | `"  ab  c "` splits into `ab` and `c` |
| Tokenizer.Groups | a3.c:129-149 | grouping yields at most one group per word, so the slot counter never passes the word count, and no word stored as a plain argument is `<`, `>` or `&` |
| Tokenizer.GroupsFlatten | a3.c:129-149 | spelling the groups back out (`<`/`>` and the target, `&`, or the word) gives exactly the words of the line |
| Tokenizer.GroupsNone | a3.c:130-139 | grouping fails exactly when the words before the last group cleanly and the last word is a `<` or `>`, whose target `strtok` then returns as NULL |
| Tokenizer.ParseSlots | a3.c:128-147 | for any starting array, group `k`'s word lands in slot `k` and other slots keep their contents; a slot ends expanded exactly when every slot up to it is set and at least one word was stored |
| Tokenizer.FreshSlots | a3.c:130-147 | from an empty array, slot `k` holds a word exactly when group `k` is a plain word (operators and their targets leave a NULL); the word is expanded only when no operator group precedes it |
| Tokenizer.OperatorsNotStored | a3.c:130-146 | `<`, `>` and `&` never appear in the argument array |
| Tokenizer.ExpandedNotOperator | a3.c:86-93 | expansion never turns a word into an operator |
| Tokenizer.ParseBackground | a3.c:140-141 | the background flag after the line is its old value or'ed with whether the line has an `&` group |
| Tokenizer.ParseInputFile | a3.c:130-134 | the input path is the target of the last `<`, or the previous path when the line has none |
| Tokenizer.ParseOutputFile | a3.c:135-139 | the output path is the target of the last `>`, or the previous path when the line has none |
| Status.StatusTextInjective | a3.c:178-183 | `status` prints `exit value N` or `terminated by signal N`, and different statuses give different text |
| Status.SweepText | a3.c:267-276 | the sweep prints nothing when no child is reaped; otherwise its text starts with `Child N terminated.` for the first child reaped |
| Status.SweepTextSnoc | a3.c:267-276 | children are reported in the order reaped: one more reaped child appends its report after the others |
| Status.ReapedStatusLine | a3.c:270-275 | the sweep's status line matches `show_status`'s text (a3.c:178-183) exactly when the child exited; a signal is reported with a capital `T` and a full stop |
| ForegroundMode.ModeSwitch.constructor | a3.c:35 | the shell starts with `&` honoured |
| ForegroundMode.ModeSwitch.HandleSIGTSTP | a3.c:61-75 | each SIGTSTP flips the mode; entering foreground-only mode prints the "Entering ..." message, leaving it prints the "Exiting ..." message, and both are followed by `: ` |
| ForegroundMode.ToggleParity | a3.c:61-75 | after `n` toggles the mode is the initial one exactly when `n` is even, so two toggles restore it |
| ForegroundMode.ToggleTextsAlternate | a3.c:61-75 | successive toggles print the enter and exit messages alternately |
| Dispatch.ParentText | a3.c:256-276 | the parent prints "Background pid is" only on the background path, then one report per reaped child in the order reaped |
| Dispatch.ForegroundStatusRecorded | a3.c:262-264 | on the foreground path with nothing reaped, the recorded status is the waited command's |
| Dispatch.SweepOverwritesStatus | a3.c:267-276 | whenever the sweep reaps a child, the recorded status is the last reaped child's, on either path |
| Dispatch.ForegroundStatusLost | a3.c:262-276 | a reaped child that ended differently replaces the foreground command's status, unlike what the comment above `show_status` (a3.c:176) says |
| Dispatch.ForegroundStatusLostExample | a3.c:262-276 | a foreground exit 0 followed by reaping a child killed by signal 15 records signal 15 |
| Dispatch.BackgroundProbeRecorded | a3.c:258-260 | on the background path with nothing reaped, the probe's answer is recorded, or the previous status stays when the child still runs |
| Dispatch.BackgroundLineIffBackground | a3.c:256-260 | "Background pid is" is printed exactly on the background path, naming the child |
| Dispatch.ForegroundOnlyBlocks | a3.c:256-264 | in foreground-only mode no "Background pid is" line is printed whatever the line requested, and with nothing reaped the waited status is recorded |
| Shell.ClearPrefix | a3.c:337-340 | cleanup empties exactly the slots before the first NULL and leaves later slots set |
| Shell.Argv | a3.c:247 | `execvp` gets the slots before the first NULL, in order, and nothing after it |
| Shell.FirstSlot | a3.c:144-145 | after tokenizing a line that starts with a plain word, slot 0 holds that word expanded |
| Shell.ReadyLeavesNull | a3.c:84 | after tokenizing a line the shell handles, the array still holds a NULL, so the `expand_variable` scan here, `execvp` (a3.c:247) and the cleanup scans (a3.c:318, a3.c:337) stop inside the array |
| Shell.SecondSlot | a3.c:144-147 | slot 1 holds the second word expanded when the second group is a plain word, and is NULL otherwise |
| Shell.StepResets | a3.c:337-343 | every pass but `exit` leaves slots 0 and 1 NULL; every pass other than a comment or `exit` clears the background flag and both paths |
| Shell.DispatchOfLine | a3.c:317-333 | a first word starting with `#` is skipped; `exit` exits; `cd` targets the expanded second word, or HOME when slot 1 is NULL; `status` prints the last status; any other word is launched as `argv[0]` after expansion |
| Shell.WordsOfLine | a3.c:127-148 | every plain word of a tokenized line is non-empty and has no space |
| Shell.FirstCharOfExpansion | a3.c:88-93 | expansion keeps a word's first character, or starts it with a digit |
| Shell.NotBuiltinAfterExpansion | a3.c:326-330 | expansion never turns a word into `exit`, `cd` or `status` |
| Shell.BackgroundDecision | a3.c:256-264 | a launched command runs in the background exactly when the line set `&` and the mode allows it; "Background pid is" appears exactly then; in foreground-only mode never |
| Shell.StatusAfterForeground | a3.c:263 | after a foreground command with nothing reaped by the sweep, the next `status` prints exactly how that command ended |
| Shell.CommentKeepsFlags | a3.c:317-323 | a comment line is skipped without the reset: the flag keeps any `&` of the line, the paths keep its redirects, and the status is untouched |
| Shell.StaleSlotJoinsArgv | a3.c:337-340 | a slot left set behind a gap is expanded and appended to `argv` by the next line that fills every slot before it |
| Shell.GapLineLeavesSlot | a3.c:132-147 | after `ls > out x` from an empty array, `x` survives the cleanup in slot 2 |
| Shell.ParseOverStaleSlot | a3.c:337-340 | tokenizing `a b` over that array gives the slots `a`, `b`, `x`, NULL |
| Shell.GroupsOfGapLine | a3.c:126-139 | `ls > out x` tokenizes into the argument `ls`, an output redirect to `out` and the argument `x` |
| Shell.GroupsOfPlainLine | a3.c:126-148 | `a b` tokenizes into the arguments `a` and `b` |
| Shell.StaleArgumentExample | a3.c:337-340 | for any lines that tokenize like `ls > out x` and then `a b`, the second launches `a b x` |
| Shell.StaleArgumentOnLiterals | a3.c:337-340 | after the line `ls > out x`, the line `a b` launches `a b x` |
| Shell.Shell.constructor | a3.c:285-297 | the shell starts with all slots NULL, no flag, no paths and exit status 0 |
| Shell.Shell.ExpandVariable | a3.c:82-97 | the array loop leaves exactly `ExpandArgs` of the old array |
| Shell.Shell.StoreArgument | a3.c:144-145 | storing a word at slot `i` and re-expanding gives `ExpandArgs` of the array with slot `i` set |
| Shell.Shell.ConsumeGroup | a3.c:130-148 | one pass of the `strtok` loop consumes one group (two words for a redirect, one otherwise) and applies it at the current slot |
| Shell.Shell.GetCommand | a3.c:118-151 | the `strtok` loop with its slot counter leaves array, flag and paths equal to `Parse` of the old ones |
| Shell.Shell.ClearArguments | a3.c:337-340 | the cleanup loop leaves `ClearPrefix` of the old array |
| Shell.Shell.RunParsed | a3.c:316-343 | dispatch, the parent's branch, cleanup and reset leave the state and action given by `Perform` |
| Shell.Shell.Iterate | a3.c:313-344 | one loop pass leaves the state and action given by `Step`, and the shell is ready for the next line unless it exits |

## Left out

- Process creation and replacement (`fork`, `execvp`) are not modelled. Redirection (`open`, `dup2`, `fcntl`) and the child's exit codes 1 and 2 are not modelled either. A launch is reported as a `Launch` action carrying argv, the paths and the background decision.
- The parent's waits are abstract. Their answers enter as a `ChildReport`: the pid, the background probe's result, the foreground wait's status and the list of children the sweep reaps. A wait interrupted by SIGTSTP (no `SA_RESTART`) is not modelled.
- The bit layout of wait statuses (`WIFEXITED`, `WEXITSTATUS`, `WTERMSIG`) is not modelled; statuses are `Exited(n)` or `Signaled(n)`.
- The SIGINT handler is not modelled. It returns at once in every process because `getpid() != 0`. Installing the signal handlers is not modelled either.
- The SIGTSTP handler is modelled as an ordinary call (`HandleSIGTSTP`). It can arrive asynchronously in the source.
- `get_input` is not modelled: the prompt, `fgets`, and the removal of the last character. The shell takes an already read line.
- `chdir` and `getenv("HOME")` are not modelled. Only the choice between the second argument and HOME is kept. So are the messages that depend on the outcome (`Cannot open directory: …`, `HOME environment variable not set.`).
- Memory management (`malloc`, `free`, `strdup`, `snprintf` sizing) is not modelled.
- Inputs that crash the source are excluded by `Ready` rather than modelled:
  - a blank line, or a line whose first group is not a plain word (`arguments[0]` is NULL at a3.c:317);
  - a `<` or `>` without a target (NULL passed to `strcpy`);
  - a line after which every one of the 512 slots is set (`arguments[512]` would be read at a3.c:84, a3.c:247, a3.c:318 and a3.c:337, and `execvp` would get no NULL terminator); this happens with 512 plain words, or with a line that fills the slots in front of stale ones.
- Lines with more groups than the 512 slots are excluded as well. The source writes past the array only when a plain word is the 513th group or later; operator groups there write nothing, so a line such as `a` followed by 600 `&` runs in the source but is not covered by the model.
- Shell.Shell.ExpandVariable, Shell.Shell.ClearArguments, Shell.Argv: stop at the end of the array. The source reads past it when every slot is set; `Ready` excludes those lines, and `Shell.ReadyLeavesNull` shows that a NULL remains.
- `exit` is modelled as the `ExitShell` action; the process ending is not modelled.
- Reading an unbounded sequence of lines (`while (1)`) is not modelled. The model proves one pass (`Iterate`) and that each pass other than `exit` leaves the shell ready for the next.
