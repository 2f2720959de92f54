/** The two filter generators as they run: they write into a fixed buffer, patch jump offsets in
    place and report jump offset overflow (src/filter_seccomp.c:286-569).
 */
module Generators {
  import opened Bits
  import opened Bpf
  import opened Section
  import opened Tables
  import opened FilterProgram
  import LinearCode
  import BinaryCode

  const BUFFER_SIZE: nat := 2 * BPF_MAXINSNS

  // A run of SET_BPF statements: filter[pos++] = ...
  method Emit(filter: array<Insn>, pos: nat, code: seq<Insn>) returns (pos': nat)
    requires pos + |code| <= filter.Length
    modifies filter
    ensures pos' == pos + |code|
    ensures filter[..pos'] == old(filter[..pos]) + code
  {
    for i := 0 to |code|
      invariant filter[..pos + i] == old(filter[..pos]) + code[..i]
    {
      filter[pos + i] := code[i];
    }
    pos' := pos + |code|;
  }

  // Replace the placeholders of one instruction, `distance` places before the end of its section.
  method PatchOne(filter: array<Insn>, i: nat, distance: nat)
    requires i < filter.Length
    modifies filter
    ensures filter[..] == old(filter[..])[i := PatchInsn(old(filter[i]), distance)]
  {
    if !filter[i].code.IsJump() {
      return;
    }
    var next := (distance - 1) % 256;
    var trace := (distance - 2) % 256;
    var allow := (distance - 3) % 256;
    filter[i] := filter[i].(jt := ReplacePlaceholder(filter[i].jt, next, trace, allow));
    filter[i] := filter[i].(jf := ReplacePlaceholder(filter[i].jf, next, trace, allow));
    if filter[i].code.Ja? {
      filter[i] := filter[i].(k := next);
    }
  }

  // Replace the placeholders of the section that starts at `start` and is followed by `pos`.
  method PatchSection(filter: array<Insn>, start: nat, end: nat, pos: nat)
    requires start <= end <= pos <= filter.Length
    modifies filter
    ensures filter[..pos] == old(filter[..start]) + Patch(old(filter[start..pos]), end - start)
  {
    hide PatchInsn;
    for i := start to end
      invariant forall j :: start <= j < i ==> filter[j] == PatchInsn(old(filter[j]), pos - j)
      invariant forall j :: 0 <= j < start || i <= j < filter.Length ==> filter[j] == old(filter[j])
    {
      ghost var before := filter[..];
      PatchOne(filter, i, pos - i);
      assert forall j :: 0 <= j < filter.Length && j != i ==> filter[..][j] == before[j];
      assert filter[..][i] == PatchInsn(before[i], pos - i);
    }
    ghost var head, code := old(filter[..start]), old(filter[start..pos]);
    forall j | 0 <= j < pos
      ensures filter[..pos][j] == (head + Patch(code, end - start))[j]
    {
      assert j >= start ==> code[j - start] == old(filter[j]);
    }
  }

  // ---- interval tests ----

  method EmitIntervalTest(filter: array<Insn>, pos: nat, lower: u32, upper: u32) returns (n: nat)
    requires pos + |LinearCode.IntervalTest(lower, upper)| <= filter.Length
    modifies filter
    ensures n == |LinearCode.IntervalTest(lower, upper)|
    ensures filter[..pos + n] == old(filter[..pos]) + LinearCode.IntervalTest(lower, upper)
  {
    if lower + 1 == upper {
      var _ := Emit(filter, pos, [Branch(JeqK, lower, JMP_PLACEHOLDER_TRACE, 0)]);
      n := 1;
    } else {
      var _ := Emit(filter, pos, [Branch(JgeK, lower, 0, 1), Branch(JgeK, upper, 0, JMP_PLACEHOLDER_TRACE)]);
      n := 2;
    }
  }

  // The instructions before the tests.
  method EmitHead(filter: array<Insn>, start: nat, t: Table, multi: bool) returns (pos: nat)
    requires start + |Head(t, multi)| <= filter.Length
    modifies filter
    ensures pos == start + |Head(t, multi)|
    ensures filter[..pos] == old(filter[..start]) + Head(t, multi)
  {
    pos := start;
    if multi {
      pos := Emit(filter, pos, [Branch(JeqK, t.arch, 0, JMP_PLACEHOLDER_NEXT)]);
    }
    pos := Emit(filter, pos, [Stmt(LdAbs, OFFSET_NR)]);
    if multi && t.flag != 0 {
      pos := Emit(filter, pos, [Branch(JgeK, t.flag, 2, 0), Stmt(LdAbs, OFFSET_ARCH), Stmt(Ja, JMP_PLACEHOLDER_NEXT)]);
    }
  }

  method EmitIntervalTests(filter: array<Insn>, start: nat, t: Table) returns (pos: nat)
    requires Small(t)
    requires start + |LinearCode.IntervalTests(t)| <= filter.Length
    modifies filter
    ensures pos == start + |LinearCode.IntervalTests(t)|
    ensures filter[..pos] == old(filter[..start]) + LinearCode.IntervalTests(t)
  {
    hide LinearCode.IntervalTest, LinearCode.IntervalScan, FlagIsBit, Or32, BitOr, Pow2;
    LinearCode.ScanStart(t);
    ghost var before := filter[..start];
    pos := start;
    var lower: u32 := UINT_MAX;
    assert filter[..pos] == before + [];
    for i := 0 to |t.traced|
      invariant lower == LinearCode.IntervalScan(t, i).lower
      invariant pos == start + |LinearCode.IntervalScan(t, i).code|
      invariant pos <= filter.Length
      invariant filter[..pos] == before + LinearCode.IntervalScan(t, i).code
    {
      LinearCode.ScanStep(t, i);
      if t.traced[i] {
        if lower == UINT_MAX {
          lower := i;
        }
        continue;
      }
      if lower == UINT_MAX {
        continue;
      }
      LinearCode.ScanGrows(t, i + 1);
      var n := EmitIntervalTest(filter, pos, Or32(lower, t.flag), Or32(i, t.flag));
      pos := pos + n;
      lower := UINT_MAX;
    }
    if lower != UINT_MAX {
      var n := EmitIntervalTest(filter, pos, Or32(lower, t.flag), Or32(|t.traced|, t.flag));
      pos := pos + n;
    }
  }

  method EmitLinearSection(filter: array<Insn>, start: nat, t: Table, multi: bool)
    returns (pos: nat, end: nat)
    requires Small(t)
    requires start + |SectionCode(Linear, t, multi)| <= filter.Length
    modifies filter
    ensures pos == start + |SectionCode(Linear, t, multi)|
    ensures end == start + SectionEnd(Linear, t, multi)
    ensures filter[..pos] == old(filter[..start]) + SectionCode(Linear, t, multi)
  {
    hide Head, LinearCode.IntervalTests, Small;
    pos := EmitHead(filter, start, t, multi);
    pos := EmitIntervalTests(filter, pos, t);
    end := pos;
    pos := Emit(filter, pos, [Branch(JgeK, Or32(|t.traced|, t.flag), 1, 0),
                              Stmt(RetK, SECCOMP_RET_ALLOW),
                              Stmt(RetK, SECCOMP_RET_TRACE)]);
  }

  // What the generator writes from the section of personality c - 1 on: it stops after a section
  // that is too long.
  ghost function Written(ts: seq<Table>, c: nat): nat
    requires ValidTables(ts) && c <= |ts|
  {
    if c == 0 then (if |ts| > 1 then 1 else 0)
    else
      var n := |SectionCode(Linear, ts[c - 1], |ts| > 1)|;
      if n > UCHAR_MAX then n else n + Written(ts, c - 1)
  }

  // The number of instructions the linear generator writes.
  ghost function LinearExtent(ts: seq<Table>): nat
    requires ValidTables(ts)
  {
    (if |ts| > 1 then 1 else 0) + Written(ts, |ts|)
  }

  // A bound on the syscall tables.
  ghost predicate LinearRoom(ts: seq<Table>) {
    forall t :: t in ts ==> UCHAR_MAX * |ts| + 10 + 2 * (|t.traced| + 1) / 3 <= BUFFER_SIZE
  }

  // All sections but the last one written are at most 255 instructions long, and two instructions
  // out of three numbers bound the last one: within the bound every write stays inside the buffer.
  lemma LinearRoomSuffices(ts: seq<Table>)
    requires ValidTables(ts) && LinearRoom(ts)
    ensures LinearExtent(ts) <= BUFFER_SIZE
  {
    hide Written, ValidTables;
    assert |ts| >= 1 by { assert ValidTables(ts); TablesExist(ts); }
    var t := WrittenBound(ts, |ts|);
  }

  lemma TablesExist(ts: seq<Table>)
    requires ValidTables(ts)
    ensures |ts| >= 1
  {
  }

  lemma {:induction false} WrittenBound(ts: seq<Table>, c: nat) returns (t: Table)
    requires ValidTables(ts) && c <= |ts|
    ensures t in ts && Written(ts, c) <= UCHAR_MAX * c + 9 + 2 * (|t.traced| + 1) / 3
  {
    hide SectionCode;
    t := ts[0];
    if c > 0 {
      assert ts[c - 1] in ts;
      SectionSize(ts[c - 1], |ts| > 1);
      if |SectionCode(Linear, ts[c - 1], |ts| > 1)| > UCHAR_MAX {
        t := ts[c - 1];
      } else {
        t := WrittenBound(ts, c - 1);
      }
    }
  }

  lemma SectionSize(t: Table, multi: bool)
    requires Small(t)
    ensures |SectionCode(Linear, t, multi)| <= 8 + 2 * (|t.traced| + 1) / 3
  {
    hide LinearCode.IntervalTests;
    LinearCode.IntervalTestsSize(t);
  }

  // One round of the generator's loop: emit a section and, unless it is too long, patch it.
  method LinearSection(filter: array<Insn>, start: nat, t: Table, multi: bool)
    returns (pos: nat, overflow: bool)
    requires Small(t)
    requires start + |SectionCode(Linear, t, multi)| <= filter.Length
    modifies filter
    ensures pos == start + |SectionCode(Linear, t, multi)|
    ensures overflow <==> |SectionCode(Linear, t, multi)| > UCHAR_MAX
    ensures !overflow ==> filter[..pos] == old(filter[..start]) + PatchedSection(Linear, t, multi)
  {
    hide SectionCode, SectionEnd, Patch, Small;
    var end: nat;
    pos, end := EmitLinearSection(filter, start, t, multi);
    if pos - start > UCHAR_MAX {
      return pos, true;
    }
    assert filter[start..pos] == SectionCode(Linear, t, multi);
    SectionShape(Linear, t, multi);
    PatchSection(filter, start, end, pos);
    overflow := false;
  }

  lemma FitsOrNot(kind: Kind, ts: seq<Table>, p: nat)
    requires ValidTables(ts) && p <= |ts|
    requires forall q :: p <= q < |ts| ==> |SectionCode(kind, ts[q], |ts| > 1)| <= UCHAR_MAX
    ensures p == 0 ==> Fits(kind, ts)
    ensures p > 0 && |SectionCode(kind, ts[p - 1], |ts| > 1)| > UCHAR_MAX ==> !Fits(kind, ts)
  {
    hide SectionCode;
    assert p > 0 ==> ts[p - 1] in ts;
  }

  // The rest of a program after one more section.
  lemma SectionsNext(kind: Kind, ts: seq<Table>, p: nat, done: seq<Insn>)
    requires ValidTables(ts) && 0 < p <= |ts|
    requires done + Sections(kind, ts, p) == Program(kind, ts)
    ensures done + PatchedSection(kind, ts[p - 1], |ts| > 1) + Sections(kind, ts, p - 1) == Program(kind, ts)
    ensures |Sections(kind, ts, p)| == |PatchedSection(kind, ts[p - 1], |ts| > 1)| + |Sections(kind, ts, p - 1)|
  {
    hide PatchedSection, Program;
  }

  // linear_filter_generator.  It does not look at the length while it writes, so that the tables
  // must leave room for what it writes.
  method LinearFilterGenerator(filter: array<Insn>, ts: seq<Table>) returns (len: nat, overflow: bool)
    requires ValidTables(ts) && LinearExtent(ts) <= filter.Length
    modifies filter
    ensures len == LinearExtent(ts)
    ensures overflow <==> !Fits(Linear, ts)
    ensures !overflow ==> filter[..len] == Program(Linear, ts)
  {
    hide SectionCode, PatchedSection, Fits, Sections;
    var multi := |ts| > 1;
    var pos: nat := 0;
    if multi {
      pos := Emit(filter, pos, [Stmt(LdAbs, OFFSET_ARCH)]);
    }
    var p := |ts|;
    while p > 0
      invariant 0 <= p <= |ts|
      invariant pos + Written(ts, p) == LinearExtent(ts)
      invariant filter[..pos] + Sections(Linear, ts, p) == Program(Linear, ts)
      invariant forall q :: p <= q < |ts| ==> |SectionCode(Linear, ts[q], multi)| <= UCHAR_MAX
    {
      hide Program;
      FitsOrNot(Linear, ts, p);
      SectionsNext(Linear, ts, p, filter[..pos]);
      p := p - 1;
      assert ts[p] in ts;
      pos, overflow := LinearSection(filter, pos, ts[p], multi);
      if overflow {
        return pos, true;
      }
    }
    FitsOrNot(Linear, ts, 0);
    SectionsEnd(Linear, ts);
    if multi {
      pos := Emit(filter, pos, [Stmt(RetK, SECCOMP_RET_TRACE)]);
    }
    len, overflow := pos, false;
  }

  lemma SectionsEnd(kind: Kind, ts: seq<Table>)
    requires ValidTables(ts)
    ensures Sections(kind, ts, 0) == if |ts| > 1 then [Stmt(RetK, SECCOMP_RET_TRACE)] else []
  {
  }

  // ---- bitmap tests ----

  method EmitWordTest(filter: array<Insn>, pos: nat, bits: u32, idx: u32) returns (n: nat)
    requires pos + 3 <= filter.Length
    modifies filter
    ensures n == |BinaryCode.WordTest(bits, idx)|
    ensures filter[..pos + n] == old(filter[..pos]) + BinaryCode.WordTest(bits, idx)
  {
    if bits == 0 {
      var _ := Emit(filter, pos, [Branch(JeqK, idx, JMP_PLACEHOLDER_ALLOW, 0)]);
      return 1;
    }
    if bits == UINT_MAX {
      var _ := Emit(filter, pos, [Branch(JeqK, idx, JMP_PLACEHOLDER_TRACE, 0)]);
      return 1;
    }
    var _ := Emit(filter, pos, [Branch(JeqK, idx, 0, 2),
                                Stmt(Txa, 0),
                                Branch(JsetK, bits, JMP_PLACEHOLDER_TRACE, JMP_PLACEHOLDER_ALLOW)]);
    n := 3;
  }

  // The tests of the words completed by the first `done` numbers; all numbers unless the program
  // has grown oversized.
  method EmitWords(filter: array<Insn>, start: nat, t: Table) returns (pos: nat, done: nat, bits: u32)
    requires Small(t)
    requires start + 3 <= filter.Length && BPF_MAXINSNS + 3 <= filter.Length
    modifies filter
    ensures done <= |t.traced| && (done < |t.traced| ==> pos > BPF_MAXINSNS && done % 32 == 0)
    ensures pos == start + |BinaryCode.WordScan(t, done).code| && bits == BinaryCode.WordScan(t, done).bits
    ensures pos <= start + 3 || pos <= BPF_MAXINSNS + 3
    ensures filter[..pos] == old(filter[..start]) + BinaryCode.WordScan(t, done).code
  {
    hide BinaryCode.WordTest, BinaryCode.WordScan, FlagIsBit, Or32, Bit32, BitOr, Pow2, SelfContained;
    BinaryCode.ScanStart(t);
    ghost var before := filter[..start];
    pos, done, bits := start, 0, 0;
    assert filter[..pos] == before + [];
    while done < |t.traced| && pos <= BPF_MAXINSNS
      invariant 0 <= done <= |t.traced|
      invariant bits == BinaryCode.WordScan(t, done).bits
      invariant pos == start + |BinaryCode.WordScan(t, done).code|
      invariant pos <= BPF_MAXINSNS || (done % 32 == 0 && (pos <= start || pos <= BPF_MAXINSNS + 3))
      invariant filter[..pos] == before + BinaryCode.WordScan(t, done).code
    {
      BinaryCode.ScanStep(t, done);
      if t.traced[done] {
        bits := Or32(bits, Bit32(done % 32));
      }
      if done % 32 == 31 {
        var n := EmitWordTest(filter, pos, bits, done / 32);
        pos := pos + n;
        bits := 0;
      }
      done := done + 1;
    }
  }

  // The tests for the first `done` numbers.
  method EmitWordTests(filter: array<Insn>, start: nat, t: Table) returns (pos: nat, done: nat)
    requires Small(t)
    requires start + 6 <= filter.Length && BPF_MAXINSNS + 6 <= filter.Length
    modifies filter
    ensures done <= |t.traced| && (done < |t.traced| ==> pos > BPF_MAXINSNS)
    ensures pos == start + |BinaryCode.WordTests(t, done)|
    ensures pos - start <= |BinaryCode.WordTests(t, |t.traced|)|
    ensures pos <= start + 6 || pos <= BPF_MAXINSNS + 6
    ensures filter[..pos] == old(filter[..start]) + BinaryCode.WordTests(t, done)
  {
    hide BinaryCode.WordTest, BinaryCode.WordScan, FlagIsBit, SelfContained;
    var bits: u32;
    pos, done, bits := EmitWords(filter, start, t);
    BinaryCode.ScanGrows(t, done, |t.traced|);
    if done % 32 != 0 {
      var n := EmitWordTest(filter, pos, bits, done / 32);
      pos := pos + n;
    }
  }

  // The instructions that put 1 << nr % 32 into X and nr / 32 into A.
  method EmitSplit(filter: array<Insn>, start: nat, t: Table, multi: bool) returns (pos: nat)
    requires start + 9 <= filter.Length
    modifies filter
    ensures pos == start + |BinaryCode.MaskIf(t, multi) + BinaryCode.Split(t)| <= start + 9
    ensures filter[..pos] == old(filter[..start]) + (BinaryCode.MaskIf(t, multi) + BinaryCode.Split(t))
  {
    hide Not32;
    ghost var before := filter[..start];
    pos := start;
    if multi && t.flag != 0 {
      pos := Emit(filter, pos, [Stmt(AndK, Not32(t.flag))]);
    }
    assert filter[..pos] == before + BinaryCode.MaskIf(t, multi);
    pos := Emit(filter, pos, [Stmt(AndK, 0x1F), Stmt(Tax, 0), Stmt(LdImm, 1), Stmt(LshX, 0), Stmt(Tax, 0),
                              Stmt(LdAbs, OFFSET_NR)]);
    if t.flag != 0 {
      pos := Emit(filter, pos, [Stmt(AndK, Not32(t.flag))]);
    }
    pos := Emit(filter, pos, [Stmt(RshK, 5)]);
  }

  method EmitBinarySection(filter: array<Insn>, start: nat, t: Table, multi: bool)
    returns (pos: nat, end: nat)
    requires Small(t)
    requires start <= BPF_MAXINSNS && filter.Length == BUFFER_SIZE
    modifies filter
    ensures start <= end < pos < filter.Length
    ensures pos - start <= |SectionCode(Binary, t, multi)|
    ensures filter[..start] == old(filter[..start])
    ensures pos <= BPF_MAXINSNS ==>
              && pos == start + |SectionCode(Binary, t, multi)|
              && end == start + SectionEnd(Binary, t, multi)
              && filter[..pos] == old(filter[..start]) + SectionCode(Binary, t, multi)
  {
    hide BinaryCode.Split, BinaryCode.MaskIf, BinaryCode.WordTests, Head, Small;
    ghost var before := filter[..start];
    pos := EmitHead(filter, start, t, multi);
    pos := EmitSplit(filter, pos, t, multi);
    var done: nat;
    pos, done := EmitWordTests(filter, pos, t);
    end := pos;
    pos := Emit(filter, pos, [Stmt(RetK, SECCOMP_RET_ALLOW), Stmt(RetK, SECCOMP_RET_TRACE)]);
    assert filter[..pos] == before + (Head(t, multi) + (BinaryCode.MaskIf(t, multi) + BinaryCode.Split(t)
                                                        + BinaryCode.WordTests(t, done)) + BinaryCode.Tail);
    assert filter[..start] == filter[..pos][..start] == before;
  }

  // One round of the generator's loop.  A section that makes the program oversized may be cut
  // short; the caller rejects such a program by its length.
  method BinarySection(filter: array<Insn>, start: nat, t: Table, multi: bool)
    returns (pos: nat, overflow: bool)
    requires Small(t)
    requires start <= BPF_MAXINSNS && filter.Length == BUFFER_SIZE
    modifies filter
    ensures start <= pos < filter.Length
    ensures pos - start <= |SectionCode(Binary, t, multi)|
    ensures overflow ==> |SectionCode(Binary, t, multi)| > UCHAR_MAX
    ensures pos <= BPF_MAXINSNS ==>
              && pos == start + |SectionCode(Binary, t, multi)|
              && (overflow <==> |SectionCode(Binary, t, multi)| > UCHAR_MAX)
              && (!overflow ==> filter[..pos] == old(filter[..start]) + PatchedSection(Binary, t, multi))
  {
    hide SectionCode, SectionEnd, Patch, Small;
    var end: nat;
    pos, end := EmitBinarySection(filter, start, t, multi);
    if pos <= BPF_MAXINSNS {
      assert filter[start..pos] == SectionCode(Binary, t, multi);
    }
    if pos - start > UCHAR_MAX {
      return pos, true;
    }
    PatchSection(filter, start, end, pos);
    overflow := false;
  }

  method BinaryMatchFilterGenerator(filter: array<Insn>, ts: seq<Table>) returns (len: nat, overflow: bool)
    requires ValidTables(ts)
    requires filter.Length == BUFFER_SIZE
    modifies filter
    ensures len <= filter.Length
    ensures overflow ==> !Fits(Binary, ts)
    ensures !overflow ==> len <= |Program(Binary, ts)|
    ensures !overflow && len <= BPF_MAXINSNS ==> Fits(Binary, ts) && filter[..len] == Program(Binary, ts)
  {
    hide SectionCode, PatchedSection, Fits, Sections;
    var multi := |ts| > 1;
    var pos: nat := 0;
    if multi {
      pos := Emit(filter, pos, [Stmt(LdAbs, OFFSET_ARCH)]);
    }
    var p := |ts|;
    while p > 0 && pos <= BPF_MAXINSNS
      invariant 0 <= p <= |ts|
      invariant pos < filter.Length
      invariant pos + |Sections(Binary, ts, p)| <= |Program(Binary, ts)|
      invariant pos <= BPF_MAXINSNS ==> filter[..pos] + Sections(Binary, ts, p) == Program(Binary, ts)
      invariant pos <= BPF_MAXINSNS ==>
                  forall q :: p <= q < |ts| ==> |SectionCode(Binary, ts[q], multi)| <= UCHAR_MAX
    {
      hide Program;
      FitsOrNot(Binary, ts, p);
      SectionsNext(Binary, ts, p, filter[..pos]);
      p := p - 1;
      assert ts[p] in ts;
      PatchedLength(Binary, ts[p], multi);
      pos, overflow := BinarySection(filter, pos, ts[p], multi);
      if overflow {
        return pos, true;
      }
    }
    SectionsEnd(Binary, ts);
    if pos <= BPF_MAXINSNS {
      FitsOrNot(Binary, ts, 0);
    }
    if multi {
      SectionsLast(Binary, ts, p);
      pos := Emit(filter, pos, [Stmt(RetK, SECCOMP_RET_TRACE)]);
    }
    len, overflow := pos, false;
  }

  lemma PatchedLength(kind: Kind, t: Table, multi: bool)
    requires Small(t)
    ensures |PatchedSection(kind, t, multi)| == |SectionCode(kind, t, multi)|
  {
  }

  lemma {:induction false} SectionsLast(kind: Kind, ts: seq<Table>, p: nat)
    requires ValidTables(ts) && p <= |ts| && |ts| > 1
    ensures |Sections(kind, ts, p)| >= 1
  {
    hide PatchedSection;
    if p > 0 {
      SectionsLast(kind, ts, p - 1);
    }
  }
}
