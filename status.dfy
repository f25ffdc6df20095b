/** Reporting how a child ended: `show_status` (a3.c:178-183) and the
    lines of the reaping sweep (a3.c:267-276). A wait status is kept
    abstract, as what the `WIFEXITED`/`WEXITSTATUS`/`WTERMSIG` macros read
    out of it. */
module Status {
  import opened Numerals

  datatype WaitStatus = Exited(code: nat) | Signaled(signal: nat)

  /** What `show_status` prints for the `status` built-in. */
  function StatusText(s: WaitStatus): string {
    match s
    case Exited(n) => "exit value " + Decimal(n) + "\n"
    case Signaled(n) => "terminated by signal " + Decimal(n) + "\n"
  }

  /** Different statuses are reported differently: the `status` line tells
      the exit path and the exact number. */
  lemma StatusTextInjective(a: WaitStatus, b: WaitStatus)
    requires StatusText(a) == StatusText(b)
    ensures a == b
  {
    var s := StatusText(a);
    assert s[0] == (if a.Exited? then 'e' else 't');
    assert s[0] == (if b.Exited? then 'e' else 't');
    var head := if a.Exited? then "exit value " else "terminated by signal ";
    var da := if a.Exited? then Decimal(a.code) else Decimal(a.signal);
    var db := if b.Exited? then Decimal(b.code) else Decimal(b.signal);
    assert s == head + da + "\n" == head + db + "\n";
    assert da == s[|head|..|s| - 1] == db;
    if a.Exited? {
      DecimalInjective(a.code, b.code);
    } else {
      DecimalInjective(a.signal, b.signal);
    }
  }

  /** A child collected by the non-blocking sweep. */
  datatype Reaped = Reaped(pid: nat, status: WaitStatus)

  /** The first line the sweep prints for a reaped child. */
  function ChildLine(pid: nat): string {
    "Child " + Decimal(pid) + " terminated.\n"
  }

  /** The lines the sweep prints for one reaped child; note the capital `T`
      and the full stop, unlike `show_status`. */
  function ReapedText(r: Reaped): string {
    ChildLine(r.pid) +
    match r.status
    case Exited(n) => "exit value " + Decimal(n) + "\n"
    case Signaled(n) => "Terminated by signal " + Decimal(n) + ".\n"
  }

  /** The sweep's status line is `show_status`'s text exactly for a child
      that exited; for a child killed by a signal it is spelled differently. */
  lemma ReapedStatusLine(r: Reaped)
    ensures r.status.Exited? <==> ReapedText(r) == ChildLine(r.pid) + StatusText(r.status)
  {
    var c := ChildLine(r.pid);
    if r.status.Signaled? {
      var n := r.status.signal;
      var ours := c + ("Terminated by signal " + Decimal(n) + ".\n");
      var theirs := c + StatusText(r.status);
      assert ReapedText(r) == ours;
      assert ours[|c|] == 'T';
      assert theirs[|c|] == 't';
    }
  }

  /** Everything the sweep prints, one child after the other. */
  function SweepText(rs: seq<Reaped>): (t: string)
    ensures rs == [] ==> t == ""
    ensures rs != [] ==> |t| > 0 && t[0] == 'C'
    ensures rs != [] ==> |ChildLine(rs[0].pid)| <= |t| && t[..|ChildLine(rs[0].pid)|] == ChildLine(rs[0].pid)
  {
    if rs == [] then ""
    else
      var c := ChildLine(rs[0].pid);
      var rest := SweepText(rs[1..]);
      assert (ReapedText(rs[0]) + rest)[..|c|] == c;
      ReapedText(rs[0]) + rest
  }

  /** Children are reported in the order they are reaped: one more reaped
      child appends its report at the end. */
  lemma {:induction false} SweepTextSnoc(rs: seq<Reaped>, x: Reaped)
    ensures SweepText(rs + [x]) == SweepText(rs) + ReapedText(x)
    decreases |rs|
  {
    if rs == [] {
      assert [x][1..] == [];
      assert SweepText([x]) == ReapedText(x) + "";
    } else {
      assert (rs + [x])[1..] == rs[1..] + [x];
      SweepTextSnoc(rs[1..], x);
    }
  }
}
