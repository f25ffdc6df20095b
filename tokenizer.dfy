/** Command-line tokenizing (`get_command`, a3.c:118-151).

    The line is cut into words at single spaces with empty pieces dropped,
    as `strtok(line, " ")` does. The words are then read left to right in
    groups: `<` or `>` with the word after it, a lone `&`, or one plain
    word. The slot counter advances once per group, so the argument array
    slot of a plain word is its group's index and an operator group leaves
    its slot untouched (normally empty, which cuts the argument list short). */
module Tokenizer {
  import opened Wrappers
  import opened Expansion

  // ---------------------------------------------------------------- strtok

  /** Length of the leading run of non-space characters of `s`. */
  function WordLength(s: string): (n: nat)
    ensures n <= |s|
    ensures forall i :: 0 <= i < n ==> s[i] != ' '
    ensures n < |s| ==> s[n] == ' '
    ensures s != [] && s[0] != ' ' ==> n > 0
  {
    if s == [] || s[0] == ' ' then 0 else 1 + WordLength(s[1..])
  }

  /** The words `strtok(line, " ")` returns, in order. */
  function Split(line: string): (words: seq<string>)
    ensures forall i :: 0 <= i < |words| ==> |words[i]| > 0 && ' ' !in words[i]
    decreases |line|
  {
    if line == [] then []
    else if line[0] == ' ' then Split(line[1..])
    else
      var n := WordLength(line);
      [line[..n]] + Split(line[n..])
  }

  predicate IsWord(w: string) {
    |w| > 0 && ' ' !in w
  }

  /** Words written back with one space between each pair. */
  function Join(words: seq<string>): string {
    if |words| <= 1 then (if words == [] then "" else words[0])
    else words[0] + " " + Join(words[1..])
  }

  lemma {:induction false} WordLengthOfWord(w: string, t: string)
    requires IsWord(w)
    requires t == [] || t[0] == ' '
    ensures WordLength(w + t) == |w|
    decreases |w|
  {
    if |w| > 1 {
      assert (w + t)[1..] == w[1..] + t;
      WordLengthOfWord(w[1..], t);
    } else {
      assert (w + t)[1..] == t;
    }
  }

  /** Splitting a line built from words with single spaces gives the words
      back: the tokenizer loses nothing but the separators. */
  lemma {:induction false} SplitJoin(words: seq<string>)
    requires forall i :: 0 <= i < |words| ==> IsWord(words[i])
    ensures Split(Join(words)) == words
    decreases |words|
  {
    if words != [] {
      var w := words[0];
      var t := if |words| == 1 then "" else " " + Join(words[1..]);
      assert Join(words) == w + t;
      WordLengthOfWord(w, t);
      assert (w + t)[..|w|] == w;
      assert (w + t)[|w|..] == t;
      if |words| > 1 {
        SplitJoin(words[1..]);
        assert t[1..] == Join(words[1..]);
        assert Split(t) == Split(t[1..]);
        assert [w] + words[1..] == words;
      }
    }
  }

  /** A word run ends at the same place when what follows starts with a
      space (or nothing follows). */
  lemma {:induction false} WordLengthBeforeSpace(a: string, t: string)
    requires t == [] || t[0] == ' '
    ensures WordLength(a + t) == WordLength(a)
    decreases |a|
  {
    if a != [] && a[0] != ' ' {
      assert (a + t)[1..] == a[1..] + t;
      WordLengthBeforeSpace(a[1..], t);
    }
  }

  /** Where the first word of `a + " " + b` ends, when `a` starts with one. */
  lemma WordBeforeSpace(a: string, b: string)
    requires a != [] && a[0] != ' '
    ensures var line, n := a + " " + b, WordLength(a);
            line[0] == a[0] && WordLength(line) == n && line[..n] == a[..n] && line[n..] == a[n..] + " " + b
  {
    var line, n := a + " " + b, WordLength(a);
    WordLengthBeforeSpace(a, " " + b);
    assert line == a + (" " + b);
    assert a == a[..n] + a[n..];
  }

  /** A word run followed by a space splits off as one word. */
  lemma SplitAfterWord(a: string, b: string)
    requires a != [] && a[0] != ' '
    ensures var n := WordLength(a);
            Split(a + " " + b) == [a[..n]] + Split(a[n..] + " " + b)
  {
    WordBeforeSpace(a, b);
  }

  /** A space always separates: splitting two pieces joined by a space gives
      the words of each, so leading, trailing and repeated spaces produce no
      words. */
  lemma {:induction false} SplitAtSpace(a: string, b: string)
    ensures Split(a + " " + b) == Split(a) + Split(b)
    decreases |a|
  {
    var line := a + " " + b;
    if a == [] {
      assert line[0] == ' ' && line[1..] == b;
    } else if a[0] == ' ' {
      assert line[0] == ' ' && line[1..] == a[1..] + " " + b by {
        assert line == [a[0]] + (a[1..] + " " + b);
      }
      SplitAtSpace(a[1..], b);
    } else {
      var n := WordLength(a);
      SplitAfterWord(a, b);
      SplitAtSpace(a[n..], b);
      assert Split(a) == [a[..n]] + Split(a[n..]);
    }
  }

  /** `strtok` skips runs of spaces at either end and in between. */
  lemma PaddedLine(w1: string, w2: string)
    ensures " " + " " + w1 + " " + " " + w2 + " " == " " + " " + (w1 + " " + (" " + (w2 + " ")))
  {
    var sp := " ";
    assert sp + (w2 + sp) == sp + w2 + sp;
    assert w1 + sp + (sp + w2 + sp) == w1 + sp + sp + w2 + sp;
  }

  lemma SplitPadded(w1: string, w2: string)
    requires IsWord(w1) && IsWord(w2)
    ensures Split(" " + " " + w1 + " " + " " + w2 + " ") == [w1, w2]
  {
    var t2 := w2 + " ";
    var t1 := " " + t2;
    var t0 := w1 + " " + t1;
    assert Split(t2) == [w2] by {
      assert t2 == w2 + " " + [];
      SplitJoin([w2]);
      SplitAtSpace(w2, []);
    }
    assert Split(t1) == [w2] by {
      assert t1 == [] + " " + t2;
      SplitAtSpace([], t2);
    }
    assert Split(t0) == [w1, w2] by {
      SplitJoin([w1]);
      SplitAtSpace(w1, t1);
    }
    assert Split(" " + " " + t0) == [w1, w2] by {
      assert Split(" ") == [] by {
        assert " " == [] + " " + [];
        SplitAtSpace([], []);
      }
      SplitAtSpace(" ", t0);
    }
    PaddedLine(w1, w2);
  }

  lemma SplitExample(line: string)
    requires line == "  ab  c "
    ensures Split(line) == ["ab", "c"]
  {
    var w1, w2 := line[2..4], line[6..7];
    assert w1 == "ab" && w2 == "c";
    assert line == " " + " " + w1 + " " + " " + w2 + " ";
    SplitPadded(w1, w2);
  }

  // ---------------------------------------------------------------- groups

  /** What one step of the `while (argument)` loop consumes. */
  datatype Group =
    | Arg(word: string)               // a word copied into the argument array
    | InputRedirect(path: string)     // `<` and the word after it
    | OutputRedirect(path: string)    // `>` and the word after it
    | Ampersand                       // `&`

  predicate IsOperator(w: string) {
    w == "<" || w == ">" || w == "&"
  }

  /** Every plain word in `gs` is something other than an operator. */
  predicate PlainWords(gs: seq<Group>) {
    forall k :: 0 <= k < |gs| && gs[k].Arg? ==> !IsOperator(gs[k].word)
  }

  function Prepend(g: Group, rest: Option<seq<Group>>): Option<seq<Group>> {
    match rest
    case None => None
    case Some(gs) => Some([g] + gs)
  }

  /** The groups of a word sequence; `None` when a `<` or `>` is the last
      word, where the source hands NULL to `strcpy` (a3.c:133, a3.c:138). */
  function Groups(words: seq<string>): (r: Option<seq<Group>>)
    ensures r.Some? ==> |r.value| <= |words|
    ensures r.Some? ==> PlainWords(r.value)
    decreases |words|
  {
    if words == [] then Some([])
    else if words[0] == "<" || words[0] == ">" then
      if |words| == 1 then None
      else
        var g := if words[0] == "<" then InputRedirect(words[1]) else OutputRedirect(words[1]);
        Prepend(g, Groups(words[2..]))
    else if words[0] == "&" then Prepend(Ampersand, Groups(words[1..]))
    else Prepend(Arg(words[0]), Groups(words[1..]))
  }

  /** The words a group was read from. */
  function Spelling(g: Group): seq<string> {
    match g
    case Arg(w) => [w]
    case InputRedirect(path) => ["<", path]
    case OutputRedirect(path) => [">", path]
    case Ampersand => ["&"]
  }

  /** The words a sequence of groups was read from, in order. */
  function Flatten(gs: seq<Group>): seq<string> {
    if gs == [] then [] else Spelling(gs[0]) + Flatten(gs[1..])
  }

  /** Grouping loses and invents nothing: spelling the groups out again gives
      back exactly the words of the line. */
  lemma {:induction false} GroupsFlatten(ws: seq<string>)
    requires Groups(ws).Some?
    ensures Flatten(Groups(ws).value) == ws
    decreases |ws|
  {
    if ws != [] {
      var gs := Groups(ws).value;
      GroupsUnfold(ws, gs);
      if ws[0] == "<" || ws[0] == ">" {
        GroupsFlatten(ws[2..]);
        assert ws == [ws[0], ws[1]] + ws[2..];
      } else {
        GroupsFlatten(ws[1..]);
        assert ws == [ws[0]] + ws[1..];
      }
    }
  }

  /** Grouping fails exactly when the words before the last one group
      cleanly and the last one is a `<` or `>` that starts a group, so that
      the source would copy from the NULL `strtok` returns (a3.c:132-133,
      a3.c:137-138). */
  lemma {:induction false} GroupsNone(ws: seq<string>)
    ensures Groups(ws).None? <==>
              |ws| > 0 && (ws[|ws| - 1] == "<" || ws[|ws| - 1] == ">") && Groups(ws[..|ws| - 1]).Some?
    decreases |ws|
  {
    if ws != [] {
      var n := |ws|;
      var init := ws[..n - 1];
      if ws[0] == "<" || ws[0] == ">" {
        if n == 1 {
          assert init == [];
        } else if n == 2 {
          assert init == [ws[0]];
        } else {
          GroupsNone(ws[2..]);
          assert init[0] == ws[0] && init[1] == ws[1];
          assert ws[2..][..n - 3] == init[2..];
          assert ws[2..][n - 3] == ws[n - 1];
        }
      } else if n > 1 {
        GroupsNone(ws[1..]);
        assert init[0] == ws[0];
        assert ws[1..][..n - 2] == init[1..];
        assert ws[1..][n - 2] == ws[n - 1];
      }
    }
  }

  /** One step of the grouping, read off the first word. */
  lemma GroupsUnfold(ws: seq<string>, rest: seq<Group>)
    requires ws != [] && Groups(ws) == Some(rest)
    ensures rest != []
    ensures ws[0] == "<" ==> |ws| >= 2 && rest[0] == InputRedirect(ws[1]) && Groups(ws[2..]) == Some(rest[1..])
    ensures ws[0] == ">" ==> |ws| >= 2 && rest[0] == OutputRedirect(ws[1]) && Groups(ws[2..]) == Some(rest[1..])
    ensures ws[0] == "&" ==> rest[0] == Ampersand && Groups(ws[1..]) == Some(rest[1..])
    ensures !IsOperator(ws[0]) ==> rest[0] == Arg(ws[0]) && Groups(ws[1..]) == Some(rest[1..])
  {
  }

  // ---------------------------------------------------------------- state

  /** What `get_command` writes: the argument array, the background flag and
      the two redirect paths (an empty path means no redirect). */
  datatype Parsed = Parsed(args: seq<Option<string>>, background: bool, inputFile: string, outputFile: string)

  /** One loop step at slot `k`: a plain word is stored and the whole array
      is run through `expand_variable` again (a3.c:144-145). */
  function ApplyGroup(p: Parsed, k: nat, g: Group, pid: nat): Parsed
    requires k < |p.args|
  {
    match g
    case Arg(w) => p.(args := ExpandArgs(p.args[k := Some(w)], pid))
    case InputRedirect(path) => p.(inputFile := path)
    case OutputRedirect(path) => p.(outputFile := path)
    case Ampersand => p.(background := true)
  }

  /** The loop run over `gs`, the `i`-th group at slot `i`. */
  function ApplyGroups(p: Parsed, gs: seq<Group>, pid: nat): (r: Parsed)
    requires |gs| <= |p.args|
    ensures |r.args| == |p.args|
    decreases |gs|
  {
    if gs == [] then p
    else
      var m := |gs| - 1;
      ApplyGroup(ApplyGroups(p, gs[..m], pid), m, gs[m], pid)
  }

  /** Running the loop over one more group is one more `ApplyGroup`. */
  lemma ApplyGroupsSnoc(p: Parsed, gs: seq<Group>, i: nat, pid: nat)
    requires i < |gs| <= |p.args|
    ensures ApplyGroups(p, gs[..i + 1], pid) == ApplyGroup(ApplyGroups(p, gs[..i], pid), i, gs[i], pid)
  {
    assert gs[..i + 1][..i] == gs[..i];
  }

  /** The source can tokenize `line` into an array of `slots` entries
      without a NULL `strcpy` or an out-of-bounds slot. */
  predicate Parsable(line: string, slots: nat) {
    Groups(Split(line)).Some? && |Groups(Split(line)).value| <= slots
  }

  /** `get_command` on `line`, starting from whatever the previous line left. */
  function Parse(p: Parsed, line: string, pid: nat): Parsed
    requires Parsable(line, |p.args|)
  {
    ApplyGroups(p, Groups(Split(line)).value, pid)
  }

  // ---------------------------------------------------------------- slots

  /** The array with the group words written in and nothing expanded. */
  function Filled(a: seq<Option<string>>, gs: seq<Group>): (f: seq<Option<string>>)
    requires |gs| <= |a|
  {
    seq(|a|, k requires 0 <= k < |a| => if k < |gs| && gs[k].Arg? then Some(gs[k].word) else a[k])
  }

  /** At least one plain word was stored, so `expand_variable` ran. */
  predicate Stores(gs: seq<Group>) {
    exists k :: 0 <= k < |gs| && gs[k].Arg?
  }

  /** One store-and-expand step keeps the slot characterization of
      `ParseSlots`, with `w` written at slot `m`. */
  lemma StoreStep(prev: seq<Option<string>>, F: seq<Option<string>>, m: nat, w: string,
                  stored: bool, pid: nat, pre: seq<Option<string>>, F': seq<Option<string>>)
    requires |prev| == |F| && m < |F|
    requires forall k :: 0 <= k < |F| ==>
               prev[k] == if stored && Reached(F, k) then Some(ExpandWord(F[k].value, pid)) else F[k]
    requires pre == prev[m := Some(w)] && F' == F[m := Some(w)]
    ensures forall k :: 0 <= k < |F| ==>
              ExpandArgs(pre, pid)[k] ==
                if Reached(F', k) then Some(ExpandWord(F'[k].value, pid)) else F'[k]
  {
    assert forall j :: 0 <= j < |F| ==> (pre[j].Some? <==> F'[j].Some?);
    forall k | 0 <= k < |F|
      ensures ExpandArgs(pre, pid)[k] ==
                if Reached(F', k) then Some(ExpandWord(F'[k].value, pid)) else F'[k]
    {
      assert Reached(pre, k) <==> Reached(F', k);
      if Reached(F', k) {
        if k != m && stored && Reached(F, k) {
          ExpandWordIdempotent(F[k].value, pid);
        }
      } else if k != m {
        assert !Reached(F, k) by {
          var j :| 0 <= j <= k && F'[j].None?;
          assert F[j].None?;
        }
      }
    }
  }

  /** Slot contents after the loop, for any starting array: the `k`-th
      group's word lands in slot `k`, other slots keep what they held, and a
      slot is expanded exactly when the final array is set from slot 0 up
      to it (and at least one word was stored). */
  lemma {:induction false} ParseSlots(p: Parsed, gs: seq<Group>, pid: nat)
    requires |gs| <= |p.args|
    ensures forall k :: 0 <= k < |p.args| ==>
              ApplyGroups(p, gs, pid).args[k] ==
                if Stores(gs) && Reached(Filled(p.args, gs), k)
                then Some(ExpandWord(Filled(p.args, gs)[k].value, pid))
                else Filled(p.args, gs)[k]
    decreases |gs|
  {
    if gs == [] {
      assert Filled(p.args, gs) == p.args;
    } else {
      var m := |gs| - 1;
      var init, g := gs[..m], gs[m];
      ParseSlots(p, init, pid);
      var prev := ApplyGroups(p, init, pid).args;
      var F, F' := Filled(p.args, init), Filled(p.args, gs);
      if g.Arg? {
        assert F' == F[m := Some(g.word)];
        assert Stores(gs) by { assert gs[m].Arg?; }
        StoreStep(prev, F, m, g.word, Stores(init), pid, prev[m := Some(g.word)], F');
      } else {
        assert F' == F;
        assert Stores(gs) <==> Stores(init) by {
          if Stores(gs) { var j :| 0 <= j < |gs| && gs[j].Arg?; assert j < m && init[j] == gs[j]; }
          if Stores(init) { var j :| 0 <= j < m && init[j].Arg?; assert gs[j] == init[j]; }
        }
      }
    }
  }

  /** Slot contents from an all-empty array (the first line, or any line
      after a command without gaps): slot `k` holds the `k`-th group's word
      when that group is a plain word and is empty otherwise; a word is
      expanded only when every group before it is a plain word too. */
  lemma FreshSlots(p: Parsed, gs: seq<Group>, pid: nat)
    requires |gs| <= |p.args|
    requires forall k :: 0 <= k < |p.args| ==> p.args[k].None?
    ensures forall k :: 0 <= k < |p.args| ==>
              ApplyGroups(p, gs, pid).args[k] ==
                if k < |gs| && gs[k].Arg? then
                  Some(if forall j :: 0 <= j <= k ==> gs[j].Arg?
                       then ExpandWord(gs[k].word, pid) else gs[k].word)
                else None
  {
    ParseSlots(p, gs, pid);
    var F := Filled(p.args, gs);
    forall k | 0 <= k < |p.args| && k < |gs| && gs[k].Arg?
      ensures (Stores(gs) && Reached(F, k)) <==> (forall j :: 0 <= j <= k ==> gs[j].Arg?)
    {
      if forall j :: 0 <= j <= k ==> gs[j].Arg? {
        assert F[k] == Some(gs[k].word);
        assert Reached(F, k) by {
          forall j | 0 <= j <= k ensures F[j].Some? { assert gs[j].Arg?; }
        }
      } else {
        var j :| 0 <= j <= k && !gs[j].Arg?;
        assert F[j].None?;
      }
    }
  }

  /** Operator tokens never reach the argument array: if no slot holds `<`,
      `>` or `&` before a line is tokenized, none does afterwards. */
  lemma OperatorsNotStored(p: Parsed, gs: seq<Group>, pid: nat)
    requires |gs| <= |p.args|
    requires PlainWords(gs)
    requires forall k :: 0 <= k < |p.args| && p.args[k].Some? ==> !IsOperator(p.args[k].value)
    ensures forall k :: 0 <= k < |p.args| && ApplyGroups(p, gs, pid).args[k].Some? ==>
              !IsOperator(ApplyGroups(p, gs, pid).args[k].value)
  {
    ParseSlots(p, gs, pid);
    var F := Filled(p.args, gs);
    forall k | 0 <= k < |p.args| && F[k].Some?
      ensures !IsOperator(ExpandWord(F[k].value, pid))
    {
      ExpandedNotOperator(F[k].value, pid);
    }
  }

  lemma ExpandedNotOperator(w: string, pid: nat)
    requires !IsOperator(w)
    ensures !IsOperator(ExpandWord(w, pid))
  {
    if ContainsPair(w) {
      var j := FindPair(w, 0);
      var r := w[..j] + Numerals.Decimal(pid);
      assert ExpandWord(w, pid) == r;
      assert Numerals.IsDigit(r[|r| - 1]);
    }
  }

  // ---------------------------------------------------------------- flags

  /** The background flag is only ever set, by `&` (a3.c:140-141). */
  lemma {:induction false} ParseBackground(p: Parsed, gs: seq<Group>, pid: nat)
    requires |gs| <= |p.args|
    ensures ApplyGroups(p, gs, pid).background ==
              (p.background || exists k :: 0 <= k < |gs| && gs[k] == Ampersand)
    decreases |gs|
  {
    if gs != [] {
      var m := |gs| - 1;
      ParseBackground(p, gs[..m], pid);
      assert forall k :: 0 <= k < m ==> gs[..m][k] == gs[k];
    }
  }

  /** The input path is the target of the last `<` of the line, or what it
      was before the line when there is none (a3.c:130-134). */
  lemma {:induction false} ParseInputFile(p: Parsed, gs: seq<Group>, pid: nat)
    requires |gs| <= |p.args|
    ensures (forall k :: 0 <= k < |gs| ==> !gs[k].InputRedirect?) ==>
              ApplyGroups(p, gs, pid).inputFile == p.inputFile
    ensures forall k :: 0 <= k < |gs| && gs[k].InputRedirect? &&
              (forall j :: k < j < |gs| ==> !gs[j].InputRedirect?)
              ==> ApplyGroups(p, gs, pid).inputFile == gs[k].path
    decreases |gs|
  {
    if gs != [] {
      var m := |gs| - 1;
      var init := gs[..m];
      ParseInputFile(p, init, pid);
      var prev := ApplyGroups(p, init, pid);
      assert ApplyGroups(p, gs, pid) == ApplyGroup(prev, m, gs[m], pid);
      forall k | 0 <= k < |gs| && gs[k].InputRedirect? &&
                 (forall j :: k < j < |gs| ==> !gs[j].InputRedirect?)
        ensures ApplyGroups(p, gs, pid).inputFile == gs[k].path
      {
        if k < m {
          assert init[k] == gs[k];
          assert forall j :: k < j < m ==> init[j] == gs[j];
        }
      }
      if forall k :: 0 <= k < |gs| ==> !gs[k].InputRedirect? {
        assert forall k :: 0 <= k < m ==> init[k] == gs[k];
      }
    }
  }

  /** The output path is the target of the last `>` of the line, or what it
      was before the line when there is none (a3.c:135-139). */
  lemma {:induction false} ParseOutputFile(p: Parsed, gs: seq<Group>, pid: nat)
    requires |gs| <= |p.args|
    ensures (forall k :: 0 <= k < |gs| ==> !gs[k].OutputRedirect?) ==>
              ApplyGroups(p, gs, pid).outputFile == p.outputFile
    ensures forall k :: 0 <= k < |gs| && gs[k].OutputRedirect? &&
              (forall j :: k < j < |gs| ==> !gs[j].OutputRedirect?)
              ==> ApplyGroups(p, gs, pid).outputFile == gs[k].path
    decreases |gs|
  {
    if gs != [] {
      var m := |gs| - 1;
      var init := gs[..m];
      ParseOutputFile(p, init, pid);
      var prev := ApplyGroups(p, init, pid);
      assert ApplyGroups(p, gs, pid) == ApplyGroup(prev, m, gs[m], pid);
      forall k | 0 <= k < |gs| && gs[k].OutputRedirect? &&
                 (forall j :: k < j < |gs| ==> !gs[j].OutputRedirect?)
        ensures ApplyGroups(p, gs, pid).outputFile == gs[k].path
      {
        if k < m {
          assert init[k] == gs[k];
          assert forall j :: k < j < m ==> init[j] == gs[j];
        }
      }
      if forall k :: 0 <= k < |gs| ==> !gs[k].OutputRedirect? {
        assert forall k :: 0 <= k < m ==> init[k] == gs[k];
      }
    }
  }
}
