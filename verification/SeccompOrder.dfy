/** The probe that finds out whether seccomp stops come before or after syscall-entry stops
    (src/filter_seccomp.c:103-253).

    The kernel's side is an input: the sequence of results of waitpid, each stop together with the
    success of the ptrace calls made on it.  A child that never reports again leaves the probe
    blocked in waitpid when the sequence is used up.
 */
module SeccompOrder {
  const PTRACE_EVENT_SECCOMP: nat := 7

  datatype StopSignal = SigStop | SigTrap(event: nat) | SigTrapSyscall | OtherSignal

  datatype WaitResult =
    | Interrupted  // -1 with EINTR
    | WaitError
    | Exited(status: nat)
    | Killed
    | Unrecognised
    | Stopped(signal: StopSignal, setOptionsOk: bool, restartOk: bool)

  // The results the tracer acts upon.
  function Reports(ws: seq<WaitResult>): (rs: seq<WaitResult>)
    ensures |rs| <= |ws|
  {
    if ws == [] then []
    else
      var last := ws[|ws| - 1];
      Reports(ws[..|ws| - 1]) + (if last.Interrupted? then [] else [last])
  }

  // Interrupted waits leave nothing behind, every other result is reported, in order.

  lemma ReportsOne(w: WaitResult)
    ensures Reports([w]) == if w.Interrupted? then [] else [w]
  {
    assert [w][..0] == [];
  }

  lemma {:induction false} ReportsConcat(a: seq<WaitResult>, b: seq<WaitResult>)
    ensures Reports(a + b) == Reports(a) + Reports(b)
  {
    if b == [] {
      assert a + b == a;
    } else {
      var init, last := b[..|b| - 1], b[|b| - 1];
      ReportsConcat(a, init);
      var all := a + b;
      assert all[..|all| - 1] == a + init && all[|all| - 1] == last;
      assert Reports(all) == Reports(a + init) + (if last.Interrupted? then [] else [last]);
    }
  }

  lemma {:induction false} ReportsPrefix(ws: seq<WaitResult>, i: nat)
    requires i <= |ws|
    ensures Reports(ws[..i]) <= Reports(ws) && |Reports(ws[..i])| <= i
  {
    if i < |ws| {
      var init := ws[..|ws| - 1];
      ReportsPrefix(init, i);
      assert init[..i] == ws[..i];
    } else {
      assert ws[..i] == ws;
    }
  }

  lemma ReportsNext(ws: seq<WaitResult>, i: nat)
    requires i < |ws| && !ws[i].Interrupted?
    ensures Reports(ws[..i + 1]) == Reports(ws[..i]) + [ws[i]] <= Reports(ws)
  {
    assert ws[..i + 1][..i] == ws[..i];
    ReportsPrefix(ws, i + 1);
  }

  predicate StopsWith(w: WaitResult, signal: StopSignal) {
    w.Stopped? && w.signal == signal && w.restartOk
  }

  // The report expected at a step of the probe: the stop of the child by itself, the two stops of
  // gettid in the given order, its exit, the entry of exit_group and the exit of the child.
  predicate Expected(step: nat, w: WaitResult, seccompFirst: bool) {
    match step
    case 0 => StopsWith(w, SigStop) && w.setOptionsOk
    case 1 => StopsWith(w, if seccompFirst then SigTrap(PTRACE_EVENT_SECCOMP) else SigTrapSyscall)
    case 2 => StopsWith(w, if seccompFirst then SigTrapSyscall else SigTrap(PTRACE_EVENT_SECCOMP))
    case 5 => w == Exited(0)
    case _ => (step == 3 || step == 4) && StopsWith(w, SigTrapSyscall)
  }

  predicate AsExpected(rs: seq<WaitResult>, n: nat, seccompFirst: bool)
    requires n <= |rs|
  {
    forall step :: 0 <= step < n ==> Expected(step, rs[step], seccompFirst)
  }

  // The run that proves the kernel usable, with the seccomp stop first or second.
  predicate Accepted(rs: seq<WaitResult>, seccompFirst: bool) {
    |rs| >= 6 && AsExpected(rs, 6, seccompFirst)
  }

  // What the tracer does with a report: restart the child and go on, or stop probing.
  datatype Decision =
    | GoOn(seccompBeforeSysentry: bool)
    | Stop(childGone: bool, usable: bool)

  function Handle(step: nat, w: WaitResult, before: bool): Decision {
    match w
    case Exited(status) => Stop(true, step == 5 && status == 0)
    case Killed => Stop(true, false)
    case Stopped(signal, setOptionsOk, restartOk) =>
      var known :=
        match signal
        case SigStop => step == 0 && setOptionsOk
        case SigTrap(event) => event == PTRACE_EVENT_SECCOMP && (step == 1 || (step == 2 && !before))
        case SigTrapSyscall => step == 1 || (step == 2 && before) || step == 3 || step == 4
        case OtherSignal => false;
      if known && restartOk then GoOn(if step == 1 then signal.SigTrap? else before)
      else Stop(false, false)
    case _ => Stop(false, false)
  }

  // The tracer goes on exactly when the report is the expected one for the order it has recorded
  // or, at step 1, now records; and only the sixth report can make the kernel usable.
  lemma HandleMeaning(step: nat, w: WaitResult, before: bool)
    requires step <= 5
    ensures var h := Handle(step, w, before);
            && (step == 0 ==> forall b :: Expected(step, w, b) <==> Expected(step, w, before))
            && (step == 1 ==> forall b :: h == GoOn(b) <==> Expected(step, w, b))
            && (step != 1 && step < 5 ==> (h == GoOn(before) <==> Expected(step, w, before)))
            && (step != 1 && h.GoOn? ==> h == GoOn(before))
            && (step == 5 ==> h.Stop? && (h.usable <==> Expected(step, w, before)))
            && (step < 5 && h.Stop? ==> !h.usable)
            && (h.Stop? ==> (h.childGone <==> w.Exited? || w.Killed?))
  {
  }

  // A report other than the expected one rules out acceptance.  Which order is still possible is
  // settled by the second report.
  lemma Rejected(rs: seq<WaitResult>, step: nat, before: bool)
    requires step < |rs| && step <= 5
    requires AsExpected(rs, step, before)
    requires if step == 1 then forall b :: !Expected(step, rs[step], b) else !Expected(step, rs[step], before)
    ensures !Accepted(rs, true) && !Accepted(rs, false)
  {
    assert step >= 2 ==> Expected(1, rs[1], before);
    forall b
      ensures !Accepted(rs, b)
    {
      AcceptedAt(rs, b, step);
      if step >= 2 {
        AcceptedAt(rs, b, 1);
      }
    }
  }

  lemma AcceptedAt(rs: seq<WaitResult>, seccompFirst: bool, step: nat)
    requires step < |rs| && step <= 5
    ensures Accepted(rs, seccompFirst) ==> Expected(step, rs[step], seccompFirst)
  {
  }

  datatype End = Gone | Alive | Blocked

  class Probe {
    var seccompFiltering: bool
    var seccompBeforeSysentry: bool

    // check_seccomp_order_tracer; `used` counts the results consumed.
    method Tracer(ws: seq<WaitResult>) returns (end: End, used: nat)
      modifies this
      ensures used <= |ws|
      ensures |Reports(ws[..used])| <= 6
      ensures seccompFiltering <==>
                old(seccompFiltering) || Accepted(Reports(ws), true) || Accepted(Reports(ws), false)
      ensures Accepted(Reports(ws), true) || Accepted(Reports(ws), false) ==>
                Accepted(Reports(ws), seccompBeforeSysentry)
      ensures var rs := Reports(ws[..used]);
              if end == Blocked then used == |ws| && AsExpected(rs, |rs|, seccompBeforeSysentry)
              else
                && |rs| >= 1 && AsExpected(rs, |rs| - 1, seccompBeforeSysentry)
                && (|rs| == 6 || !Expected(|rs| - 1, rs[|rs| - 1], seccompBeforeSysentry))
      ensures end == Gone <==> end != Blocked && used > 0 && (ws[used - 1].Exited? || ws[used - 1].Killed?)
    {
      hide Handle, Expected, Reports;
      used := 0;
      ghost var rs := Reports(ws);
      ReportsPrefix(ws, 0);
      var step := 0;
      while true
        invariant used <= |ws| && 0 <= step <= 5
        invariant |Reports(ws[..used])| == step && Reports(ws[..used]) <= rs
        invariant seccompFiltering == old(seccompFiltering)
        invariant AsExpected(rs, step, seccompBeforeSysentry)
        invariant step == 1 ==> forall b :: AsExpected(rs, step, b)
        decreases |ws| - used
      {
        used := SkipInterrupted(ws, used);
        if used == |ws| {
          assert ws[..used] == ws;
          return Blocked, used;
        }
        var w := ws[used];
        ReportsNext(ws, used);
        used := used + 1;
        assert w == rs[step];
        HandleMeaning(step, w, seccompBeforeSysentry);
        match Handle(step, w, seccompBeforeSysentry)
        case Stop(childGone, usable) =>
          if usable {
            seccompFiltering := true;
          } else {
            Rejected(rs, step, seccompBeforeSysentry);
          }
          return if childGone then Gone else Alive, used;
        case GoOn(before) =>
          assert AsExpected(rs, step, before) && Expected(step, rs[step], before);
          seccompBeforeSysentry := before;
          step := step + 1;
      }
    }
  }

  method SkipInterrupted(ws: seq<WaitResult>, start: nat) returns (i: nat)
    requires start <= |ws|
    ensures start <= i <= |ws| && (i < |ws| ==> !ws[i].Interrupted?)
    ensures Reports(ws[..i]) == Reports(ws[..start])
  {
    i := start;
    while i < |ws| && ws[i].Interrupted?
      invariant start <= i <= |ws|
      invariant Reports(ws[..i]) == Reports(ws[..start])
    {
      i := i + 1;
      assert ws[..i][..i - 1] == ws[..i - 1];
    }
  }
}
