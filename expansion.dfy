/** `$$` expansion (`expand_variable`, a3.c:82-97): each argument is cut at
    its first `$$` and the shell's process id is appended in decimal; the
    scan over the argument array stops at the first empty slot. */
module Expansion {
  import opened Wrappers
  import opened Numerals

  /** `s` has a `$$` starting at index `j`. */
  predicate PairAt(s: string, j: int) {
    0 <= j && j + 1 < |s| && s[j] == '$' && s[j + 1] == '$'
  }

  predicate ContainsPair(s: string) {
    exists j :: 0 <= j < |s| && PairAt(s, j)
  }

  /** Index of the first `$$` at or after `from`, or `|s|` when there is none. */
  function FindPair(s: string, from: nat): (j: nat)
    requires from <= |s|
    ensures from <= j <= |s|
    ensures j < |s| ==> PairAt(s, j)
    ensures forall k :: from <= k < j ==> !PairAt(s, k)
    decreases |s| - from
  {
    if from + 1 >= |s| then |s|
    else if s[from] == '$' && s[from + 1] == '$' then from
    else FindPair(s, from + 1)
  }

  /** One argument after expansion. */
  function ExpandWord(s: string, pid: nat): (r: string)
    ensures FindPair(s, 0) == |s| ==> r == s
    ensures forall j :: PairAt(s, j) && (forall k :: 0 <= k < j ==> !PairAt(s, k)) ==>
              r == s[..j] + Decimal(pid)
    ensures !ContainsPair(r)
  {
    var j := FindPair(s, 0);
    if j == |s| then s
    else
      TruncatedHasNoPair(s, j, pid);
      s[..j] + Decimal(pid)
  }

  /** The text before the first `$$`, followed by digits, holds no `$$`. */
  lemma TruncatedHasNoPair(s: string, j: nat, pid: nat)
    requires j <= |s|
    requires forall k :: 0 <= k < j ==> !PairAt(s, k)
    ensures !ContainsPair(s[..j] + Decimal(pid))
  {
    var r := s[..j] + Decimal(pid);
    var d := Decimal(pid);
    forall k | 0 <= k
      ensures !PairAt(r, k)
    {
      if k + 1 < j {
        assert r[k] == s[k] && r[k + 1] == s[k + 1];
        assert !PairAt(s, k);
      } else if k + 1 < |r| {
        assert r[k + 1] == d[k + 1 - j];
        assert IsDigit(d[k + 1 - j]);
      }
    }
  }

  /** Expanding an already expanded argument changes nothing. */
  lemma ExpandWordIdempotent(s: string, pid: nat)
    ensures ExpandWord(ExpandWord(s, pid), pid) == ExpandWord(s, pid)
  {
  }

  /** Where the scan `for (i = 0; command[i]; i++)` stops: the index of the
      first empty slot, or `|a|` when every slot is set. */
  function FirstNone(a: seq<Option<string>>): (n: nat)
    ensures n <= |a|
    ensures forall j :: 0 <= j < n ==> a[j].Some?
    ensures n < |a| ==> a[n].None?
  {
    if a == [] || a[0].None? then 0
    else
      assert forall j :: 1 <= j < |a| ==> a[j] == a[1..][j - 1];
      1 + FirstNone(a[1..])
  }

  /** Slot `k` is visited by the scan: it and every slot before it are set. */
  predicate Reached(a: seq<Option<string>>, k: int) {
    0 <= k < FirstNone(a)
  }

  /** The argument array after one `expand_variable` pass: every slot before
      the first empty one is expanded, the rest are untouched. */
  function ExpandArgs(a: seq<Option<string>>, pid: nat): (r: seq<Option<string>>)
    ensures |r| == |a|
    ensures forall k {:trigger r[k]} :: 0 <= k < |a| ==>
              r[k] == if Reached(a, k) then Some(ExpandWord(a[k].value, pid)) else a[k]
  {
    if a == [] then a
    else if a[0].None? then
      assert forall k :: 0 <= k < |a| ==> !Reached(a, k);
      a
    else
      var rest := ExpandArgs(a[1..], pid);
      var r := [Some(ExpandWord(a[0].value, pid))] + rest;
      assert forall k :: 1 <= k < |a| ==> r[k] == rest[k - 1] && a[k] == a[1..][k - 1];
      r
  }

  /** A second pass over an expanded array changes nothing: repeated calls
      from the tokenizer are harmless to slots already expanded. */
  lemma ExpandArgsIdempotent(a: seq<Option<string>>, pid: nat)
    ensures ExpandArgs(ExpandArgs(a, pid), pid) == ExpandArgs(a, pid)
  {
    var r := ExpandArgs(a, pid);
    var rr := ExpandArgs(r, pid);
    var n := FirstNone(a);
    assert forall j :: 0 <= j < |a| ==> (r[j].Some? <==> a[j].Some?);
    assert FirstNone(r) == n;
    forall k | 0 <= k < |a|
      ensures rr[k] == r[k]
    {
      if k < n {
        ExpandWordIdempotent(a[k].value, pid);
      }
    }
  }

  /** The inner loop of `expand_variable` over the characters of one
      argument (a3.c:85-94): on a `$$` the argument is replaced by its
      prefix and the pid, and the scan continues in the new text. */
  method ExpandInString(s: string, pid: nat) returns (r: string)
    ensures r == ExpandWord(s, pid)
  {
    var digits := Decimal(pid);
    r := s;
    ghost var replaced := false;
    var j := 0;
    while j < |r|
      invariant 0 <= j <= |r| <= |s| + |digits|
      invariant !replaced ==> r == s && forall k :: 0 <= k < j ==> !PairAt(s, k)
      invariant replaced ==> r == ExpandWord(s, pid)
      decreases |s| + |digits| - j
    {
      if r[j] == '$' && j + 1 < |r| && r[j + 1] == '$' {
        // an expanded argument holds no `$$`, so this happens at most once
        assert PairAt(r, j);
        assert !replaced;
        r := r[..j] + digits;
        replaced := true;
      }
      j := j + 1;
    }
    if !replaced {
      assert !ContainsPair(s);
    }
  }
}
