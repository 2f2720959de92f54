/** Whole seccomp programs: the sections of all personalities, back-patched and concatenated, and
    the verdicts they give (src/filter_seccomp.c:304-569).
 */
module FilterProgram {
  import opened Bits
  import opened Bpf
  import opened Section
  import opened Tables
  import LinearCode
  import BinaryCode

  // The two generators.
  datatype Kind = Linear | Binary

  // ---- one section ----

  // Leave the section unless arch and flag match; otherwise load the number.  Builds with one
  // personality test neither.
  function Head(t: Table, multi: bool): (code: seq<Insn>)
    ensures |code| <= 5
  {
    (if multi then [Branch(JeqK, t.arch, 0, JMP_PLACEHOLDER_NEXT)] else []) +
    [Stmt(LdAbs, OFFSET_NR)] +
    (if multi && t.flag != 0 then
       [Branch(JgeK, t.flag, 2, 0), Stmt(LdAbs, OFFSET_ARCH), Stmt(Ja, JMP_PLACEHOLDER_NEXT)]
     else [])
  }

  function Body(kind: Kind, t: Table, multi: bool): seq<Insn>
    requires Small(t)
  {
    match kind
    case Linear => LinearCode.IntervalTests(t)
    case Binary => BinaryCode.Body(t, multi)
  }

  function Tail(kind: Kind, t: Table): seq<Insn>
    requires Small(t)
  {
    match kind
    case Linear => LinearCode.Tail(t)
    case Binary => BinaryCode.Tail
  }

  // A section before back-patching; the tail is never patched.
  function SectionCode(kind: Kind, t: Table, multi: bool): seq<Insn>
    requires Small(t)
  {
    Head(t, multi) + Body(kind, t, multi) + Tail(kind, t)
  }

  function SectionEnd(kind: Kind, t: Table, multi: bool): nat
    requires Small(t)
  {
    |Head(t, multi)| + |Body(kind, t, multi)|
  }

  // The section is the one for this call.
  predicate Matches(t: Table, d: SeccompData) {
    d.arch == t.arch && d.nr >= t.flag
  }

  // Whether a section, once entered, asks for the call to be traced.
  predicate SectionTraces(kind: Kind, t: Table, nr: u32) {
    match kind
    case Linear =>
      nr >= t.flag && (nr - t.flag >= |t.traced| || t.traced[nr - t.flag])
    case Binary =>
      var n := BinaryCode.Masked(t, nr);
      n < |t.traced| && t.traced[n]
  }

  function VerdictValue(trace: bool): u32 {
    if trace then SECCOMP_RET_TRACE else SECCOMP_RET_ALLOW
  }

  lemma HeadMeaning(t: Table, multi: bool, rest: seq<Insn>, a: u32, x: u32, d: SeccompData)
    requires multi ==> a == d.arch
    ensures RunLabelled(Head(t, multi) + rest, a, x, d) ==
            if multi && !Matches(t, d) then NextSection(d.arch, x) else RunLabelled(rest, d.nr, x, d)
  {
    hide RunLabelled;
    var code := Head(t, multi) + rest;
    var h := |Head(t, multi)|;
    assert code[0..] == code && code[h..] == rest;
    var first := if multi then 1 else 0;
    if multi {
      LabelledStep(code, 0, a, x, d);
    }
    if !multi || d.arch == t.arch {
      LabelledStep(code, first, a, x, d);
      if multi && t.flag != 0 {
        LabelledStep(code, 2, d.nr, x, d);
        LabelledStep(code, 3, d.nr, x, d);
        LabelledStep(code, 4, d.arch, x, d);
      }
    }
  }

  lemma BodyMeaning(kind: Kind, t: Table, multi: bool, x: u32, d: SeccompData)
    requires Small(t)
    ensures RunLabelled(Body(kind, t, multi) + Tail(kind, t), d.nr, x, d) ==
            Verdict(VerdictValue(SectionTraces(kind, t, d.nr)))
  {
    hide RunLabelled;
    match kind
    case Linear => LinearCode.LinearMeaning(t, d.nr, x, d);
    case Binary => BinaryCode.BinaryMeaning(t, multi, x, d);
  }

  // A section entered with A == arch either leaves for the next one, again with A == arch, or
  // gives its verdict.
  lemma SectionMeaning(kind: Kind, t: Table, multi: bool, a: u32, x: u32, d: SeccompData)
    requires Small(t)
    requires multi ==> a == d.arch
    ensures RunLabelled(SectionCode(kind, t, multi), a, x, d) ==
            if multi && !Matches(t, d) then NextSection(d.arch, x)
            else Verdict(VerdictValue(SectionTraces(kind, t, d.nr)))
  {
    hide RunLabelled, Head, Body, Tail;
    var rest := Body(kind, t, multi) + Tail(kind, t);
    assert SectionCode(kind, t, multi) == Head(t, multi) + rest;
    HeadMeaning(t, multi, rest, a, x, d);
    BodyMeaning(kind, t, multi, x, d);
  }

  // ---- the shape of a section ----

  lemma BodySelfContained(kind: Kind, t: Table, multi: bool)
    requires Small(t)
    ensures SelfContained(Body(kind, t, multi), false)
  {
    match kind
    case Linear => LinearCode.IntervalTestsSize(t);
    case Binary =>
      var tests := BinaryCode.WordTests(t, |t.traced|);
      BinaryCode.WordTestsSize(t, |t.traced|);
      var head := (if multi then BinaryCode.Mask(t) else []) + BinaryCode.Split(t);
      assert SelfContained(head, false);
      SelfContainedConcat(head, tests, false);
      assert Body(kind, t, multi) == head + tests;
  }

  lemma TailShape(kind: Kind, t: Table)
    requires Small(t)
    ensures var tail := Tail(kind, t);
            && 2 <= |tail| <= 3
            && tail[|tail| - 2] == Stmt(RetK, SECCOMP_RET_ALLOW)
            && tail[|tail| - 1] == Stmt(RetK, SECCOMP_RET_TRACE)
            && forall i :: 0 <= i < |tail| ==>
                 !tail[i].code.Ja? && tail[i].jt <= 1 && tail[i].jf <= 1 && JumpsInside(tail[i], i, |tail|)
  {
  }

  lemma SectionShape(kind: Kind, t: Table, multi: bool)
    requires Small(t)
    ensures var code, end := SectionCode(kind, t, multi), SectionEnd(kind, t, multi);
            && end + 2 <= |code| <= end + 3
            && (|code| <= UCHAR_MAX ==> WellLabelled(code, end))
            && (forall i :: 0 <= i < end ==> GoodJump(code[i], i, end, multi))
            && (forall i :: end <= i < |code| ==> JumpsInside(code[i], i, |code|))
  {
    var code, end := SectionCode(kind, t, multi), SectionEnd(kind, t, multi);
    var h, b, tail := Head(t, multi), Body(kind, t, multi), Tail(kind, t);
    assert SelfContained(h, multi);
    hide Head, Body, Tail;
    BodySelfContained(kind, t, multi);
    TailShape(kind, t);
    SelfContainedConcat(h, b, multi);
    assert code == (h + b) + tail && |h + b| == end;
    assert forall i {:trigger code[i]} :: 0 <= i < end ==> code[i] == (h + b)[i];
    assert forall i {:trigger code[i]} :: end <= i < |code| ==> code[i] == tail[i - end];
  }

  // ---- the program ----

  ghost predicate ValidTables(ts: seq<Table>) {
    |ts| >= 1 && forall t :: t in ts ==> Small(t)
  }

  // No section is too long for 8-bit jump offsets.
  predicate Fits(kind: Kind, ts: seq<Table>)
    requires ValidTables(ts)
  {
    forall t :: t in ts ==> |SectionCode(kind, t, |ts| > 1)| <= UCHAR_MAX
  }

  function PatchedSection(kind: Kind, t: Table, multi: bool): seq<Insn>
    requires Small(t)
  {
    Patch(SectionCode(kind, t, multi), SectionEnd(kind, t, multi))
  }

  // The code from the section of personality c - 1, the personalities being in reverse order.
  function Sections(kind: Kind, ts: seq<Table>, c: nat): seq<Insn>
    requires ValidTables(ts) && c <= |ts|
  {
    if c == 0 then (if |ts| > 1 then [Stmt(RetK, SECCOMP_RET_TRACE)] else [])
    else PatchedSection(kind, ts[c - 1], |ts| > 1) + Sections(kind, ts, c - 1)
  }

  function Program(kind: Kind, ts: seq<Table>): seq<Insn>
    requires ValidTables(ts)
  {
    (if |ts| > 1 then [Stmt(LdAbs, OFFSET_ARCH)] else []) + Sections(kind, ts, |ts|)
  }

  // The personality whose section handles the call: the highest one that matches.
  function Select(ts: seq<Table>, c: nat, d: SeccompData): (p: int)
    requires c <= |ts|
    ensures -1 <= p < c
    ensures p >= 0 ==> Matches(ts[p], d)
    ensures forall q :: p < q < c ==> !Matches(ts[q], d)
  {
    if c == 0 then -1
    else if Matches(ts[c - 1], d) then c - 1
    else Select(ts, c - 1, d)
  }

  // The section that is entered; a build with one personality has no choice.
  function Entered(ts: seq<Table>, d: SeccompData): (p: int)
    requires |ts| >= 1
    ensures -1 <= p < |ts|
  {
    if |ts| == 1 then 0 else Select(ts, |ts|, d)
  }

  // A call no personality claims is traced, every other one is judged by its section.
  predicate Traces(kind: Kind, ts: seq<Table>, d: SeccompData)
    requires |ts| >= 1
  {
    var p := Entered(ts, d);
    p < 0 || SectionTraces(kind, ts[p], d.nr)
  }

  // Running one patched section inside a program.
  lemma RunSection(kind: Kind, t: Table, multi: bool, prog: seq<Insn>, start: nat, a: u32, x: u32, d: SeccompData)
    requires Small(t) && |SectionCode(kind, t, multi)| <= UCHAR_MAX
    requires start <= |prog| && PatchedSection(kind, t, multi) <= prog[start..]
    requires multi ==> a == d.arch
    ensures Run(prog, start, a, x, d) ==
            if multi && !Matches(t, d)
            then Run(prog, start + |PatchedSection(kind, t, multi)|, d.arch, x, d)
            else Ret(VerdictValue(SectionTraces(kind, t, d.nr)))
  {
    hide Run, RunLabelled, SectionCode, SectionEnd, SectionTraces, WellLabelled, Patch;
    var code, end := SectionCode(kind, t, multi), SectionEnd(kind, t, multi);
    SectionShape(kind, t, multi);
    SectionMeaning(kind, t, multi, a, x, d);
    assert prog[start..start + |code|] == prog[start..][..|code|];
    BackPatching(prog, start, code, end, 0, a, x, d);
    assert code[0..] == code;
  }

  lemma {:induction false} SectionsCorrect(
    kind: Kind, ts: seq<Table>, c: nat, prog: seq<Insn>, start: nat, x: u32, d: SeccompData)
    requires ValidTables(ts) && Fits(kind, ts) && c <= |ts| && |ts| > 1
    requires start <= |prog| && prog[start..] == Sections(kind, ts, c)
    ensures var p := Select(ts, c, d);
            Run(prog, start, d.arch, x, d) ==
            Ret(VerdictValue(p < 0 || SectionTraces(kind, ts[p], d.nr)))
  {
    hide Run, PatchedSection, SectionCode, SectionTraces;
    if c == 0 {
      assert prog[start] == prog[start..][0];
      RunStep(prog, start, d.arch, x, d);
    } else {
      var t := ts[c - 1];
      var section := PatchedSection(kind, t, true);
      RunSection(kind, t, true, prog, start, d.arch, x, d);
      assert prog[start + |section|..] == prog[start..][|section|..];
      SectionsCorrect(kind, ts, c - 1, prog, start + |section|, x, d);
    }
  }

  // Compiler correctness: if no jump overflowed, running the program gives exactly the verdict
  // of the specification, for every architecture and every number.
  lemma ProgramCorrect(kind: Kind, ts: seq<Table>, d: SeccompData)
    requires ValidTables(ts) && Fits(kind, ts)
    ensures Filter(Program(kind, ts), d) == Ret(VerdictValue(Traces(kind, ts, d)))
  {
    hide Run, PatchedSection, SectionCode, SectionTraces;
    var prog := Program(kind, ts);
    if |ts| == 1 {
      assert prog[0..] == prog == PatchedSection(kind, ts[0], false) + Sections(kind, ts, 0);
      assert ts[0] in ts;
      assert |SectionCode(kind, ts[0], |ts| > 1)| <= UCHAR_MAX;
      RunSection(kind, ts[0], false, prog, 0, 0, 0, d);
    } else {
      RunStep(prog, 0, 0, 0, d);
      assert prog[1..] == Sections(kind, ts, |ts|);
      SectionsCorrect(kind, ts, |ts|, prog, 1, 0, d);
    }
  }

  // ---- what the kernel's checker asks: jumps stay inside, the last instruction returns ----

  ghost predicate Checked(prog: seq<Insn>) {
    && |prog| > 0
    && prog[|prog| - 1].code.RetK?
    && forall i :: 0 <= i < |prog| ==> JumpsInside(prog[i], i, |prog|)
  }

  // What the checks are for: a checked program that loads nothing but the number and the
  // architecture returns a verdict on every call, from wherever it is entered.
  lemma {:induction false} CheckedReturns(prog: seq<Insn>, pc: nat, a: u32, x: u32, d: SeccompData)
    requires Checked(prog) && pc < |prog|
    requires forall i :: 0 <= i < |prog| && prog[i].code.LdAbs? ==> prog[i].k == OFFSET_NR || prog[i].k == OFFSET_ARCH
    ensures Run(prog, pc, a, x, d).Ret?
    decreases |prog| - pc
  {
    hide Run, BitAnd, Shl32, Shr32;
    RunStep(prog, pc, a, x, d);
    assert JumpsInside(prog[pc], pc, |prog|);
    match Execute(prog[pc], a, x, d)
    case Continue(a', x') => CheckedReturns(prog, pc + 1, a', x', d);
    case Jump(offset) => CheckedReturns(prog, pc + 1 + offset, a, x, d);
    case _ =>
  }

  lemma SectionInside(kind: Kind, t: Table, multi: bool)
    requires Small(t) && |SectionCode(kind, t, multi)| <= UCHAR_MAX
    ensures var code := PatchedSection(kind, t, multi);
            && |code| > 0
            && code[|code| - 1].code.RetK?
            && forall i :: 0 <= i < |code| ==>
                 JumpsInside(code[i], i, if multi then |code| + 1 else |code|)
  {
    hide SectionCode, SectionEnd;
    var code, end := SectionCode(kind, t, multi), SectionEnd(kind, t, multi);
    SectionShape(kind, t, multi);
    forall i | 0 <= i < |code|
      ensures JumpsInside(Patch(code, end)[i], i, if multi then |code| + 1 else |code|)
    {
      PatchedInside(code, end, i, multi);
    }
  }

  lemma {:induction false} SectionsChecked(kind: Kind, ts: seq<Table>, c: nat)
    requires ValidTables(ts) && Fits(kind, ts) && c <= |ts| && (|ts| == 1 ==> c == 1)
    ensures Checked(Sections(kind, ts, c))
  {
    hide PatchedSection, SectionCode;
    if c > 0 {
      hide JumpsInside;
      var multi := |ts| > 1;
      var t := ts[c - 1];
      var first, rest := PatchedSection(kind, t, multi), Sections(kind, ts, c - 1);
      var prog := first + rest;
      assert t in ts;
      SectionInside(kind, t, multi);
      if multi {
        SectionsChecked(kind, ts, c - 1);
      } else {
        assert rest == [];
      }
      forall i | 0 <= i < |prog|
        ensures JumpsInside(prog[i], i, |prog|)
      {
        if i < |first| {
          assert prog[i] == first[i];
          InsideLonger(prog[i], i, if multi then |first| + 1 else |first|, 0, |prog|);
        } else {
          assert prog[i] == rest[i - |first|];
          InsideLonger(prog[i], i - |first|, |rest|, |first|, |prog|);
        }
      }
    }
  }

  lemma InsideLonger(insn: Insn, i: nat, len: nat, shift: nat, len': nat)
    requires JumpsInside(insn, i, len) && shift + len <= len'
    ensures JumpsInside(insn, shift + i, len')
  {
  }

  lemma LoadsInside(insn: Insn, len: nat)
    ensures insn.code.LdAbs? ==> JumpsInside(insn, 0, len)
  {
  }

  // Every jump of a generated program leads forward to an instruction of the program and its
  // last instruction is a return.
  lemma ProgramChecked(kind: Kind, ts: seq<Table>)
    requires ValidTables(ts) && Fits(kind, ts)
    ensures Checked(Program(kind, ts))
  {
    hide Sections, JumpsInside, Fits;
    var prog, rest := Program(kind, ts), Sections(kind, ts, |ts|);
    SectionsChecked(kind, ts, |ts|);
    if |ts| > 1 {
      forall i | 0 <= i < |prog|
        ensures JumpsInside(prog[i], i, |prog|)
      {
        if i > 0 {
          assert prog[i] == rest[i - 1];
          InsideLonger(prog[i], i - 1, |rest|, 1, |prog|);
        } else {
          LoadsInside(prog[0], |prog|);
        }
      }
    } else {
      assert prog == rest;
    }
  }

  // ---- the two generators compared ----

  // A number in the range of its table, the flag taken off.
  predicate InRange(t: Table, nr: u32) {
    t.flag <= nr < t.flag + |t.traced|
  }

  // The generators agree unless the call enters a section and its number is out of range there:
  // then the linear program traces it and the bitmap program lets it pass.  (Only a build with
  // one flagged personality can enter a section with a number below the flag; there the linear
  // program lets the call pass, and the bitmap program judges it as if the flag were set.)
  lemma GeneratorsAgree(ts: seq<Table>, d: SeccompData)
    requires ValidTables(ts)
    ensures Traces(Linear, ts, d) == Traces(Binary, ts, d) <==>
            var p := Entered(ts, d);
            || p < 0
            || InRange(ts[p], d.nr)
            || (d.nr < ts[p].flag && !(d.nr < |ts[p].traced| && ts[p].traced[d.nr]))
  {
    var p := Entered(ts, d);
    if p >= 0 {
      assert ts[p] in ts;
      BinaryCode.MaskedValue(ts[p], d.nr);
    }
  }

  // One untraced syscall and a number behind it: the linear program stops the call, the bitmap
  // program lets it pass.
  lemma GeneratorsDiffer(arch: u32)
    ensures var ts, d := [Table(arch, 0, [false])], SeccompData(1, arch);
            && ValidTables(ts)
            && Filter(Program(Linear, ts), d) == Ret(SECCOMP_RET_TRACE)
            && Filter(Program(Binary, ts), d) == Ret(SECCOMP_RET_ALLOW)
  {
    hide Program, LinearCode.IntervalTests, BinaryCode.WordTests;
    var t := Table(arch, 0, [false]);
    var ts, d := [t], SeccompData(1, arch);
    assert t in ts;
    LinearCode.IntervalTestsSize(t);
    BinaryCode.WordTestsSize(t, 1);
    ProgramCorrect(Linear, ts, d);
    ProgramCorrect(Binary, ts, d);
  }

  // On numbers in range both programs trace exactly the syscalls that are to be traced.
  lemma InRangeVerdict(kind: Kind, ts: seq<Table>, d: SeccompData)
    requires ValidTables(ts)
    requires Entered(ts, d) >= 0 && InRange(ts[Entered(ts, d)], d.nr)
    ensures var t := ts[Entered(ts, d)];
            Traces(kind, ts, d) <==> t.traced[d.nr - t.flag]
  {
    var p := Entered(ts, d);
    assert ts[p] in ts;
    BinaryCode.MaskedValue(ts[p], d.nr);
  }
}
