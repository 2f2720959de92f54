/** Choosing and enabling the seccomp filter, and restarting tracees under it
    (src/filter_seccomp.c:255-265, 571-603, 698-705).
 */
module SeccompSetup {
  import opened Bits
  import opened Bpf
  import opened Tables
  import opened FilterProgram
  import opened NumberSets
  import Generators
  import SeccompOrder

  const USHRT_MAX: nat := 0xffff

  // ---- which syscalls are traced ----

  // The sysent flags that matter here.
  datatype SysFlag = TraceIndirectSubcall | TraceSeccompDefault | MemoryMappingChange | CommChange | OtherFlag

  datatype Personality = Personality(arch: u32, flag: u32, sysent: seq<set<SysFlag>>)

  datatype Config = Config(
    personalities: seq<Personality>,
    traceSet: seq<SetView>,
    stackTraceMode: bool,
    decodePidComm: bool)

  function AlwaysTraceFlags(c: Config): set<SysFlag> {
    {TraceIndirectSubcall, TraceSeccompDefault}
    + (if c.stackTraceMode then {MemoryMappingChange} else {})
    + (if c.decodePidComm then {CommChange} else {})
  }

  ghost predicate ValidConfig(c: Config) {
    && |c.personalities| >= 1
    && |c.traceSet| == |c.personalities|
    && ValidTables(CompileTables(c))
  }

  // traced_by_seccomp
  predicate TracedBySeccomp(c: Config, scno: nat, p: nat)
    requires p < |c.personalities| == |c.traceSet| && scno < |c.personalities[p].sysent|
  {
    c.personalities[p].sysent[scno] * AlwaysTraceFlags(c) != {} || c.traceSet[p].Contains(scno)
  }

  // What is traced: the trace set, two kinds of syscalls always, and one kind for each mode.
  lemma TracedExactly(c: Config, scno: nat, p: nat)
    requires p < |c.personalities| == |c.traceSet| && scno < |c.personalities[p].sysent|
    ensures var flags := c.personalities[p].sysent[scno];
            TracedBySeccomp(c, scno, p) <==>
            || c.traceSet[p].Contains(scno)
            || TraceIndirectSubcall in flags
            || TraceSeccompDefault in flags
            || (c.stackTraceMode && MemoryMappingChange in flags)
            || (c.decodePidComm && CommChange in flags)
  {
    var flags, always := c.personalities[p].sysent[scno], AlwaysTraceFlags(c);
    if flags * always != {} {
      var f :| f in flags * always;
    }
    assert forall f :: f in flags && f in always ==> f in flags * always;
  }

  function TableOf(c: Config, p: nat): Table
    requires p < |c.personalities| == |c.traceSet|
  {
    var pers := c.personalities[p];
    Table(pers.arch, pers.flag,
          seq(|pers.sysent|, i requires 0 <= i < |pers.sysent| => TracedBySeccomp(c, i, p)))
  }

  function CompileTables(c: Config): seq<Table>
    requires |c.personalities| == |c.traceSet|
  {
    seq(|c.personalities|, p requires 0 <= p < |c.personalities| => TableOf(c, p))
  }

  // ---- choosing a program ----

  // A program that does not overflow and is not too long for the kernel.
  ghost predicate Installable(kind: Kind, ts: seq<Table>)
    requires ValidTables(ts)
  {
    Fits(kind, ts) && |Program(kind, ts)| <= BPF_MAXINSNS
  }

  // The shortest of the programs that do not overflow.
  ghost predicate Shortest(kind: Kind, ts: seq<Table>)
    requires ValidTables(ts)
  {
    forall other :: Fits(other, ts) ==> |Program(kind, ts)| <= |Program(other, ts)|
  }

  class SeccompFilter {
    const probe: SeccompOrder.Probe
    const linear: array<Insn>
    const binary: array<Insn>
    var len: nat
    var prog: array<Insn>

    ghost predicate Fresh()
      reads this
    {
      linear.Length == binary.Length == Generators.BUFFER_SIZE && linear != binary && len == USHRT_MAX
    }

    constructor (probe: SeccompOrder.Probe)
      ensures Fresh() && fresh(linear) && fresh(binary) && this.probe == probe
    {
      this.probe := probe;
      linear := new Insn[Generators.BUFFER_SIZE](_ => Stmt(RetK, 0));
      binary := new Insn[Generators.BUFFER_SIZE](_ => Stmt(RetK, 0));
      len := USHRT_MAX;
      prog := linear;
    }

    // The loop over the generators: keep the shortest program that does not overflow.
    method ChooseProgram(ts: seq<Table>)
      requires ValidTables(ts) && Generators.LinearExtent(ts) <= Generators.BUFFER_SIZE
      requires Fresh()
      modifies this, linear, binary
      ensures len <= BPF_MAXINSNS ==>
                len <= prog.Length
                && exists kind :: Installable(kind, ts) && Shortest(kind, ts) && prog[..len] == Program(kind, ts)
      ensures len <= BPF_MAXINSNS <==> exists kind :: Installable(kind, ts)
      ensures prog == linear || prog == binary
      ensures len <= BPF_MAXINSNS ==>
                (prog == linear <==> Fits(Linear, ts) && (Fits(Binary, ts) ==>
                                                            |Program(Linear, ts)| <= |Program(Binary, ts)|))
    {
      hide Program, Fits, ValidTables, Generators.LinearExtent;
      prog := linear;
      var n, overflow := Generators.LinearFilterGenerator(linear, ts);
      if n < len && !overflow {
        len, prog := n, linear;
        assert |linear[..n]| == n;
      }
      ghost var kind := Linear;
      assert Fits(Linear, ts) ==> len == |Program(Linear, ts)|;
      n, overflow := Generators.BinaryMatchFilterGenerator(binary, ts);
      if n < len && !overflow {
        len, prog := n, binary;
        kind := Binary;
      }
      assert Fits(Linear, ts) ==> len <= |Program(Linear, ts)|;
      assert Fits(Binary, ts) ==> len <= |Program(Binary, ts)| || len == USHRT_MAX;
      forall other | Fits(other, ts)
        ensures len <= |Program(other, ts)| || len == USHRT_MAX
        ensures Installable(other, ts) ==> len <= BPF_MAXINSNS
      {
        match other
        case Linear =>
        case Binary =>
      }
      if len <= BPF_MAXINSNS {
        assert prog[..len] == Program(kind, ts);
        assert |prog[..len]| == len;
        assert Installable(kind, ts) && Shortest(kind, ts);
      }
    }

    // check_seccomp_filter_properties; the kernel's answers are inputs.
    method CheckSeccompFilterProperties(
      c: Config, modeAvailable: bool, forkOk: bool, ws: seq<SeccompOrder.WaitResult>)
      requires ValidConfig(c) && Generators.LinearExtent(CompileTables(c)) <= Generators.BUFFER_SIZE
      requires Fresh()
      modifies this, linear, binary, probe
      ensures probe.seccompFiltering <==>
                && modeAvailable
                && (exists kind :: Installable(kind, CompileTables(c)))
                && forkOk
                && (SeccompOrder.Accepted(SeccompOrder.Reports(ws), true)
                    || SeccompOrder.Accepted(SeccompOrder.Reports(ws), false))
      ensures probe.seccompFiltering ==>
                && SeccompOrder.Accepted(SeccompOrder.Reports(ws), probe.seccompBeforeSysentry)
                && len <= prog.Length && len <= BPF_MAXINSNS
                && (exists kind :: Fits(kind, CompileTables(c)) && Shortest(kind, CompileTables(c))
                                   && prog[..len] == Program(kind, CompileTables(c)))
                && FiltersAsTraced(c, prog[..len])
    {
      hide Program, Fits, Shortest, FiltersAsTraced, SeccompOrder.Accepted, SeccompOrder.Reports, CompileTables,
           Generators.LinearExtent;
      probe.seccompFiltering := modeAvailable;
      if !probe.seccompFiltering {
        return;
      }
      ChooseProgram(CompileTables(c));
      ghost var code := if len <= prog.Length then prog[..len] else [];
      if len == USHRT_MAX || len > BPF_MAXINSNS {
        probe.seccompFiltering := false;
      }
      if probe.seccompFiltering {
        ghost var kind :| Fits(kind, CompileTables(c)) && Shortest(kind, CompileTables(c))
                          && prog[..len] == Program(kind, CompileTables(c));
        InstalledFilters(c, kind);
        probe.seccompFiltering := false;
        if forkOk {
          var _, _ := probe.Tracer(ws);
        }
      }
      assert len <= prog.Length ==> prog[..len] == code;
    }
  }

  // ---- the program and the tracer agree ----

  // seccomp_filter_restart_operator
  datatype RestartOp = PtraceSyscall | PtraceCont

  function RestartOperator(c: Config, exiting: bool, scno: u32, current: nat): RestartOp
    requires current < |c.personalities| == |c.traceSet|
  {
    if exiting && scno < |c.personalities[current].sysent| && TracedBySeccomp(c, scno, current)
    then PtraceSyscall
    else PtraceCont
  }

  // No other personality can claim the calls of personality p: a higher one with the same arch
  // has a flag above all of its numbers.
  predicate Distinguishable(ts: seq<Table>, p: nat)
    requires p < |ts|
  {
    forall q :: p < q < |ts| && ts[q].arch == ts[p].arch ==> ts[p].flag + |ts[p].traced| <= ts[q].flag
  }

  // The call with the given number, made by a tracee of personality p.
  function CallOf(ts: seq<Table>, p: nat, scno: nat): SeccompData
    requires ValidTables(ts) && p < |ts| && scno < |ts[p].traced|
  {
    assert ts[p] in ts;
    SeccompData(ts[p].flag + scno, ts[p].arch)
  }

  // That is so exactly if every call in range enters the section of its own personality.
  lemma DistinguishableExactly(ts: seq<Table>, p: nat)
    requires ValidTables(ts) && p < |ts| && |ts[p].traced| > 0
    ensures Distinguishable(ts, p) <==>
            forall scno: nat :: scno < |ts[p].traced| ==> Entered(ts, CallOf(ts, p, scno)) == p
  {
    if Distinguishable(ts, p) {
      forall scno: nat | scno < |ts[p].traced|
        ensures Entered(ts, CallOf(ts, p, scno)) == p
      {
        assert ts[p] in ts;
        EntersOwnSection(ts, p, scno, CallOf(ts, p, scno));
      }
    } else {
      var q :| p < q < |ts| && ts[q].arch == ts[p].arch && ts[p].flag + |ts[p].traced| > ts[q].flag;
      var d := CallOf(ts, p, |ts[p].traced| - 1);
      assert Matches(ts[q], d);
    }
  }

  lemma EntersOwnSection(ts: seq<Table>, p: nat, scno: u32, d: SeccompData)
    requires ValidTables(ts) && p < |ts| && Distinguishable(ts, p)
    requires scno < |ts[p].traced| && d.arch == ts[p].arch && d.nr == ts[p].flag + scno
    ensures Entered(ts, d) == p
  {
    if |ts| > 1 {
      assert Matches(ts[p], d);
      assert forall q :: p < q < |ts| ==> !Matches(ts[q], d);
    }
  }

  // A program that is installed never lets an in-range traced syscall pass, and lets pass every
  // in-range syscall that is not traced.
  lemma InstalledProgram(c: Config, kind: Kind, p: nat, scno: u32, d: SeccompData)
    requires ValidConfig(c) && Fits(kind, CompileTables(c))
    requires p < |c.personalities| && Distinguishable(CompileTables(c), p)
    requires scno < |c.personalities[p].sysent|
    requires d.arch == c.personalities[p].arch && d.nr == c.personalities[p].flag + scno
    ensures Filter(Program(kind, CompileTables(c)), d) == Ret(VerdictValue(TracedBySeccomp(c, scno, p)))
  {
    hide Program, Fits, Small, SectionTraces, Select, AlwaysTraceFlags;
    var ts := CompileTables(c);
    assert ts[p] == TableOf(c, p);
    EntersOwnSection(ts, p, scno, d);
    ProgramCorrect(kind, ts, d);
    InRangeVerdict(kind, ts, d);
  }

  // A syscall in range, made by a tracee of personality p.
  ghost predicate InRangeCall(c: Config, p: nat, scno: u32, d: SeccompData)
    requires |c.personalities| == |c.traceSet|
  {
    && p < |c.personalities| && scno < |c.personalities[p].sysent|
    && Distinguishable(CompileTables(c), p)
    && d.arch == c.personalities[p].arch && d.nr == c.personalities[p].flag + scno
  }

  // End to end: the program in force stops exactly the syscalls in range that are to be traced, and
  // those are the ones after which a tracee is stopped again.
  ghost predicate FiltersAsTraced(c: Config, code: seq<Insn>)
    requires |c.personalities| == |c.traceSet|
  {
    forall p: nat, scno: u32, d: SeccompData :: InRangeCall(c, p, scno, d) ==>
      && Filter(code, d) == Ret(VerdictValue(TracedBySeccomp(c, scno, p)))
      && forall exiting: bool ::
           RestartOperator(c, exiting, scno, p) == PtraceSyscall <==> exiting && Filter(code, d) == Ret(SECCOMP_RET_TRACE)
  }

  lemma InstalledFilters(c: Config, kind: Kind)
    requires ValidConfig(c) && Fits(kind, CompileTables(c))
    ensures FiltersAsTraced(c, Program(kind, CompileTables(c)))
  {
    hide ValidTables, Fits, Program, Filter, TracedBySeccomp, CompileTables, RestartOperator;
    forall p: nat, scno: u32, d: SeccompData | InRangeCall(c, p, scno, d)
      ensures Filter(Program(kind, CompileTables(c)), d) == Ret(VerdictValue(TracedBySeccomp(c, scno, p)))
      ensures forall exiting: bool ::
                RestartOperator(c, exiting, scno, p) == PtraceSyscall <==>
                exiting && Filter(Program(kind, CompileTables(c)), d) == Ret(SECCOMP_RET_TRACE)
    {
      InstalledProgram(c, kind, p, scno, d);
      RestartMatchesProgram(c, kind, p, scno, d, false);
      RestartMatchesProgram(c, kind, p, scno, d, true);
    }
  }

  // A tracee leaving a syscall in range is restarted with PTRACE_SYSCALL exactly when the
  // installed program stops that syscall.
  lemma RestartMatchesProgram(c: Config, kind: Kind, p: nat, scno: u32, d: SeccompData, exiting: bool)
    requires ValidConfig(c) && Fits(kind, CompileTables(c))
    requires p < |c.personalities| && Distinguishable(CompileTables(c), p)
    requires scno < |c.personalities[p].sysent|
    requires d.arch == c.personalities[p].arch && d.nr == c.personalities[p].flag + scno
    ensures RestartOperator(c, exiting, scno, p) == PtraceSyscall <==>
            exiting && Filter(Program(kind, CompileTables(c)), d) == Ret(SECCOMP_RET_TRACE)
  {
    hide Program, Fits, CompileTables, Filter, TracedBySeccomp;
    InstalledProgram(c, kind, p, scno, d);
  }

  // A tracee that is not leaving a syscall, or leaves one out of range, is not stopped again.
  lemma RestartElsewhere(c: Config, exiting: bool, scno: u32, p: nat)
    requires p < |c.personalities| == |c.traceSet|
    requires !exiting || scno >= |c.personalities[p].sysent|
    ensures RestartOperator(c, exiting, scno, p) == PtraceCont
  {
  }
}
