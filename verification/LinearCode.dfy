/** The code of one personality section as written by linear_filter_generator: one test for each
    interval of traced syscall numbers (src/filter_seccomp.c:286-302, 341-392).
 */
module LinearCode {
  import opened Bits
  import opened Bpf
  import opened Section
  import opened Tables

  // bpf_syscalls_cmp
  function IntervalTest(lower: u32, upper: u32): (code: seq<Insn>) {
    if lower + 1 == upper then
      [Branch(JeqK, lower, JMP_PLACEHOLDER_TRACE, 0)]
    else
      [Branch(JgeK, lower, 0, 1), Branch(JgeK, upper, 0, JMP_PLACEHOLDER_TRACE)]
  }

  // The state of the scan over syscall numbers: the tests emitted so far, and the start of the
  // open interval of traced numbers (UINT_MAX when there is none).
  datatype Scan = Scan(code: seq<Insn>, lower: u32)

  function IntervalScan(t: Table, i: nat): Scan
    requires Small(t) && i <= |t.traced|
  {
    if i == 0 then Scan([], UINT_MAX)
    else
      var s := IntervalScan(t, i - 1);
      if t.traced[i - 1] then
        (if s.lower == UINT_MAX then s.(lower := i - 1) else s)
      else if s.lower == UINT_MAX then s
      else Scan(s.code + IntervalTest(Or32(s.lower, t.flag), Or32(i - 1, t.flag)), UINT_MAX)
  }

  // The unfolding of IntervalScan, for proofs that hide its definition.

  lemma ScanStart(t: Table)
    requires Small(t)
    ensures IntervalScan(t, 0) == Scan([], UINT_MAX)
  {
  }

  lemma ScanStep(t: Table, i: nat)
    requires Small(t) && i < |t.traced|
    ensures var s := IntervalScan(t, i);
            IntervalScan(t, i + 1) ==
            if t.traced[i] then (if s.lower == UINT_MAX then s.(lower := i) else s)
            else if s.lower == UINT_MAX then s
            else Scan(s.code + IntervalTest(Or32(s.lower, t.flag), Or32(i, t.flag)), UINT_MAX)
  {
    hide IntervalTest, Or32, FlagIsBit;
  }

  function IntervalTests(t: Table): seq<Insn>
    requires Small(t)
  {
    var s := IntervalScan(t, |t.traced|);
    if s.lower == UINT_MAX then s.code
    else s.code + IntervalTest(Or32(s.lower, t.flag), Or32(|t.traced|, t.flag))
  }

  function Tail(t: Table): seq<Insn>
    requires Small(t)
  {
    [Branch(JgeK, Or32(|t.traced|, t.flag), 1, 0),
     Stmt(RetK, SECCOMP_RET_ALLOW),
     Stmt(RetK, SECCOMP_RET_TRACE)]
  }

  // ---- the scan ----

  // Numbers below this one are covered by the tests emitted so far.
  function Settled(s: Scan, i: nat): nat {
    if s.lower == UINT_MAX then i else s.lower
  }

  // An open interval reaches from lower to the current number, and two instructions out of every
  // three numbers are enough for the tests emitted so far.
  lemma {:induction false} ScanShape(t: Table, i: nat)
    requires Small(t) && i <= |t.traced|
    ensures var s := IntervalScan(t, i);
            && (s.lower != UINT_MAX ==> s.lower < i && forall m :: s.lower <= m < i ==> t.traced[m])
            && 3 * |s.code| <= 2 * Settled(s, i)
            && SelfContained(s.code, false)
  {
    hide IntervalScan, Or32, FlagIsBit, SelfContained;
    ScanStart(t);
    EmptySelfContained();
    if i > 0 {
      ScanShape(t, i - 1);
      ScanStep(t, i - 1);
      var s := IntervalScan(t, i - 1);
      if !t.traced[i - 1] && s.lower != UINT_MAX {
        FlagOr(t, s.lower);
        FlagOr(t, i - 1);
        TestSelfContained(Or32(s.lower, t.flag), Or32(i - 1, t.flag));
        SelfContainedConcat(s.code, IntervalTest(Or32(s.lower, t.flag), Or32(i - 1, t.flag)), false);
      }
    }
  }

  lemma EmptySelfContained()
    ensures SelfContained([], false)
  {
  }

  lemma TestSelfContained(lower: u32, upper: u32)
    ensures SelfContained(IntervalTest(lower, upper), false)
  {
  }

  // Tests are only ever added.
  lemma {:induction false} ScanGrows(t: Table, i: nat)
    requires Small(t) && i <= |t.traced|
    ensures |IntervalScan(t, i).code| <= |IntervalTests(t)|
    decreases |t.traced| - i
  {
    hide IntervalTest, Or32, FlagIsBit;
    if i < |t.traced| {
      ScanGrows(t, i + 1);
    }
  }

  // 3 * emitted <= 2 * (n + 1)
  lemma IntervalTestsSize(t: Table)
    requires Small(t)
    ensures 3 * |IntervalTests(t)| <= 2 * (|t.traced| + 1)
    ensures SelfContained(IntervalTests(t), false)
  {
    var n := |t.traced|;
    ScanShape(t, n);
    var s := IntervalScan(t, n);
    if s.lower != UINT_MAX {
      FlagOr(t, s.lower);
      FlagOr(t, n);
      SelfContainedConcat(s.code, IntervalTest(Or32(s.lower, t.flag), Or32(n, t.flag)), false);
    }
  }

  // ---- meaning ----

  lemma TestMeaning(lower: u32, upper: u32, tail: seq<Insn>, a: u32, x: u32, d: SeccompData)
    requires lower < upper
    ensures RunLabelled(IntervalTest(lower, upper) + tail, a, x, d) ==
            if lower <= a < upper then Verdict(SECCOMP_RET_TRACE) else RunLabelled(tail, a, x, d)
  {
    var code := IntervalTest(lower, upper) + tail;
    if lower + 1 == upper {
      assert code[1..] == tail;
    } else {
      assert code[1..][0] == code[1] && code[1..][1..] == tail && code[2..] == tail;
    }
  }

  // a is the number, with the flag, of a traced syscall below bound.
  predicate Hit(t: Table, bound: nat, a: u32)
    requires bound <= |t.traced|
  {
    t.flag <= a < t.flag + bound && t.traced[a - t.flag]
  }

  lemma {:induction false} ScanMeaning(t: Table, i: nat, tail: seq<Insn>, a: u32, x: u32, d: SeccompData)
    requires Small(t) && i <= |t.traced|
    ensures var s := IntervalScan(t, i);
            && Settled(s, i) <= i
            && RunLabelled(s.code + tail, a, x, d) ==
               if Hit(t, Settled(s, i), a) then Verdict(SECCOMP_RET_TRACE) else RunLabelled(tail, a, x, d)
  {
    hide Execute, RunLabelled, IntervalTest, IntervalScan, SelfContained, Or32, FlagIsBit;
    ScanShape(t, i);
    if i == 0 {
      ScanStart(t);
      assert [] + tail == tail;
    } else {
      var s := IntervalScan(t, i - 1);
      ScanShape(t, i - 1);
      ScanStep(t, i - 1);
      if !t.traced[i - 1] && s.lower != UINT_MAX {
        FlagOr(t, s.lower);
        FlagOr(t, i - 1);
        var test := IntervalTest(t.flag + s.lower, t.flag + i - 1);
        ScanMeaning(t, i - 1, test + tail, a, x, d);
        assert (s.code + test) + tail == s.code + (test + tail);
        TestMeaning(t.flag + s.lower, t.flag + i - 1, tail, a, x, d);
      } else {
        ScanMeaning(t, i - 1, tail, a, x, d);
      }
    }
  }

  lemma TestsMeaning(t: Table, tail: seq<Insn>, a: u32, x: u32, d: SeccompData)
    requires Small(t)
    ensures RunLabelled(IntervalTests(t) + tail, a, x, d) ==
            if Hit(t, |t.traced|, a) then Verdict(SECCOMP_RET_TRACE) else RunLabelled(tail, a, x, d)
  {
    hide Execute, RunLabelled, IntervalTest, SelfContained;
    var n := |t.traced|;
    var s := IntervalScan(t, n);
    ScanShape(t, n);
    if s.lower == UINT_MAX {
      ScanMeaning(t, n, tail, a, x, d);
    } else {
      FlagOr(t, s.lower);
      FlagOr(t, n);
      var test := IntervalTest(t.flag + s.lower, t.flag + n);
      ScanMeaning(t, n, test + tail, a, x, d);
      assert (s.code + test) + tail == s.code + (test + tail);
      TestMeaning(t.flag + s.lower, t.flag + n, tail, a, x, d);
    }
  }

  // The verdict of the tests and the tail on a number: trace what is out of range or traced.
  lemma LinearMeaning(t: Table, nr: u32, x: u32, d: SeccompData)
    requires Small(t)
    ensures RunLabelled(IntervalTests(t) + Tail(t), nr, x, d) ==
            Verdict(if nr >= t.flag + |t.traced| || Hit(t, |t.traced|, nr)
                    then SECCOMP_RET_TRACE else SECCOMP_RET_ALLOW)
  {
    TestsMeaning(t, Tail(t), nr, x, d);
    FlagOr(t, |t.traced|);
    assert Tail(t)[1..][0] == Stmt(RetK, SECCOMP_RET_ALLOW);
    assert Tail(t)[2..][0] == Stmt(RetK, SECCOMP_RET_TRACE);
  }
}
