/** Personality sections with jump placeholders, and their back-patching
    (src/filter_seccomp.c:31-42, 267-284, 394-424, 544-562).
 */
module Section {
  import opened Bits
  import opened Bpf

  const JMP_PLACEHOLDER_NEXT: u8 := 255
  const JMP_PLACEHOLDER_TRACE: u8 := 254
  const JMP_PLACEHOLDER_ALLOW: u8 := 253

  const UCHAR_MAX: nat := 255

  // ---- the meaning of code that still holds placeholders ----

  datatype Outcome =
    | Verdict(k: u32)
    | NextSection(a: u32, x: u32)
    | Stuck

  // A placeholder jumps to where its name says, wherever it stands.
  function RunLabelled(code: seq<Insn>, a: u32, x: u32, d: SeccompData): Outcome
    decreases |code|
  {
    if code == [] then Stuck
    else
      match Execute(code[0], a, x, d)
      case Halt(k) => Verdict(k)
      case Illegal => Stuck
      case Continue(a', x') => RunLabelled(code[1..], a', x', d)
      case Jump(offset) =>
        if offset == JMP_PLACEHOLDER_NEXT then NextSection(a, x)
        else if offset == JMP_PLACEHOLDER_TRACE then Verdict(SECCOMP_RET_TRACE)
        else if offset == JMP_PLACEHOLDER_ALLOW then Verdict(SECCOMP_RET_ALLOW)
        else if offset < |code| then RunLabelled(code[1 + offset..], a, x, d)
        else Stuck
  }

  // The unfolding of RunLabelled at a position of the code, for proofs that hide its definition.
  lemma LabelledStep(code: seq<Insn>, i: nat, a: u32, x: u32, d: SeccompData)
    requires i < |code|
    ensures RunLabelled(code[i..], a, x, d) ==
            match Execute(code[i], a, x, d)
            case Halt(k) => Verdict(k)
            case Illegal => Stuck
            case Continue(a', x') => RunLabelled(code[i + 1..], a', x', d)
            case Jump(offset) =>
              if offset == JMP_PLACEHOLDER_NEXT then NextSection(a, x)
              else if offset == JMP_PLACEHOLDER_TRACE then Verdict(SECCOMP_RET_TRACE)
              else if offset == JMP_PLACEHOLDER_ALLOW then Verdict(SECCOMP_RET_ALLOW)
              else if i + offset < |code| then RunLabelled(code[i + 1 + offset..], a, x, d)
              else Stuck
  {
    hide Execute;
    assert code[i..][0] == code[i] && code[i..][1..] == code[i + 1..];
    match Execute(code[i], a, x, d)
    case Jump(offset) =>
      if i + offset < |code| {
        assert code[i..][1 + offset..] == code[i + 1 + offset..];
      }
    case _ =>
  }

  lemma LabelledEnd(code: seq<Insn>, a: u32, x: u32, d: SeccompData)
    requires |code| == 0
    ensures RunLabelled(code, a, x, d) == Stuck
  {
  }

  // One step of straight-line code.
  lemma LabelledNext(code: seq<Insn>, i: nat, a: u32, x: u32, d: SeccompData, a': u32, x': u32)
    requires i < |code| && Execute(code[i], a, x, d) == Continue(a', x')
    ensures RunLabelled(code[i..], a, x, d) == RunLabelled(code[i + 1..], a', x', d)
  {
    hide Execute, RunLabelled;
    LabelledStep(code, i, a, x, d);
  }

  // ---- back-patching ----

  function ReplacePlaceholder(offset: u8, next: u8, trace: u8, allow: u8): u8 {
    if offset == JMP_PLACEHOLDER_NEXT then next
    else if offset == JMP_PLACEHOLDER_TRACE then trace
    else if offset == JMP_PLACEHOLDER_ALLOW then allow
    else offset
  }

  // The instruction `distance` places before the end of its section, patched.  The offsets are
  // truncated to an unsigned char, as in the source.
  function PatchInsn(i: Insn, distance: nat): Insn {
    if !i.code.IsJump() then i
    else
      var next := (distance - 1) % 256;
      var trace := (distance - 2) % 256;
      var allow := (distance - 3) % 256;
      Insn(i.code,
           ReplacePlaceholder(i.jt, next, trace, allow),
           ReplacePlaceholder(i.jf, next, trace, allow),
           if i.code.Ja? then next else i.k)
  }

  // The first `end` instructions of a section are patched, the trailing ones are not.
  function Patch(code: seq<Insn>, end: nat): (patched: seq<Insn>)
    requires end <= |code|
    ensures |patched| == |code|
  {
    seq(|code|, i requires 0 <= i < |code| => if i < end then PatchInsn(code[i], |code| - i) else code[i])
  }

  // What the generators make sure of before they patch.
  ghost predicate WellLabelled(code: seq<Insn>, end: nat) {
    && end + 2 <= |code| <= UCHAR_MAX
    && code[|code| - 2] == Stmt(RetK, SECCOMP_RET_ALLOW)
    && code[|code| - 1] == Stmt(RetK, SECCOMP_RET_TRACE)
    && (forall i :: 0 <= i < end && code[i].code.Ja? ==> code[i].k == JMP_PLACEHOLDER_NEXT)
    && (forall i :: end <= i < |code| ==> !code[i].code.Ja? && code[i].jt < JMP_PLACEHOLDER_ALLOW
                                          && code[i].jf < JMP_PLACEHOLDER_ALLOW)
  }

  // The patched section stands in prog at start.
  ghost predicate Placed(prog: seq<Insn>, start: nat, code: seq<Insn>, end: nat) {
    && end <= |code|
    && start + |code| <= |prog|
    && prog[start..start + |code|] == Patch(code, end)
  }

  // Resolving the placeholder offsets at the given distance from the end of the section.
  function Resolve(e: Effect, distance: nat): Effect
    requires distance >= 3
  {
    if e == Jump(JMP_PLACEHOLDER_NEXT) then Jump(distance - 1)
    else if e == Jump(JMP_PLACEHOLDER_TRACE) then Jump(distance - 2)
    else if e == Jump(JMP_PLACEHOLDER_ALLOW) then Jump(distance - 3)
    else e
  }

  // The offsets of a patched jump: within 255 instructions none is truncated.
  lemma PatchedOffset(offset: u8, distance: nat)
    requires 3 <= distance <= UCHAR_MAX
    ensures Jump(ReplacePlaceholder(offset, (distance - 1) % 256, (distance - 2) % 256, (distance - 3) % 256)) ==
            Resolve(Jump(offset), distance)
  {
    SmallMod(distance - 1, 256);
    SmallMod(distance - 2, 256);
    SmallMod(distance - 3, 256);
  }

  // Patching one instruction resolves the placeholders in its effect and changes nothing else.
  lemma PatchedEffect(i: Insn, distance: nat, a: u32, x: u32, d: SeccompData)
    requires 3 <= distance <= UCHAR_MAX
    requires i.code.Ja? ==> i.k == JMP_PLACEHOLDER_NEXT
    ensures Execute(PatchInsn(i, distance), a, x, d) == Resolve(Execute(i, a, x, d), distance)
  {
    hide BitAnd, Shl32, Shr32, ReplacePlaceholder;
    if i.code.IsJump() {
      PatchedOffset(i.jt, distance);
      PatchedOffset(i.jf, distance);
      SmallMod(distance - 1, 256);
    }
  }

  // The effect of the instruction that ends up at start + i.
  lemma PlacedEffect(
    prog: seq<Insn>, start: nat, code: seq<Insn>, end: nat, i: nat, a: u32, x: u32, d: SeccompData)
    requires WellLabelled(code, end) && Placed(prog, start, code, end)
    requires i < |code|
    ensures i < end ==> Execute(prog[start + i], a, x, d) == Resolve(Execute(code[i], a, x, d), |code| - i)
    ensures i >= end ==> Execute(prog[start + i], a, x, d) == Execute(code[i], a, x, d)
    ensures i >= end && Execute(code[i], a, x, d).Jump? ==>
              Execute(code[i], a, x, d).offset < JMP_PLACEHOLDER_ALLOW
  {
    assert prog[start + i] == prog[start..start + |code|][i];
    if i < end {
      PatchedEffect(code[i], |code| - i, a, x, d);
    }
  }

  // The run of prog from pc does what the labelled outcome says, `exit` being the instruction
  // after the section.
  ghost predicate Realises(prog: seq<Insn>, pc: nat, a: u32, x: u32, d: SeccompData, exit: nat, o: Outcome) {
    match o
    case Verdict(k) => Run(prog, pc, a, x, d) == Ret(k)
    case NextSection(a', x') => Run(prog, pc, a, x, d) == Run(prog, exit, a', x', d)
    case Stuck => true
  }

  // Back-patching preserves the meaning of a section, wherever the section is placed: a verdict
  // stays that verdict, and leaving for the next section lands on the first instruction after the
  // section with the same registers.
  lemma {:induction false} BackPatching(
    prog: seq<Insn>, start: nat, code: seq<Insn>, end: nat, i: nat, a: u32, x: u32, d: SeccompData)
    requires WellLabelled(code, end) && Placed(prog, start, code, end)
    requires i <= |code|
    ensures Realises(prog, start + i, a, x, d, start + |code|, RunLabelled(code[i..], a, x, d))
    decreases |code| - i
  {
    hide Execute, Run, RunLabelled, Patch, PatchInsn, WellLabelled, Placed;
    if i == |code| {
      LabelledEnd(code[i..], a, x, d);
      return;
    }
    LabelledStep(code, i, a, x, d);
    var e := Execute(code[i], a, x, d);
    if e.Jump? {
      PlacedJump(prog, start, code, end, i, a, x, d, e.offset);
      if i + e.offset < |code| {
        BackPatching(prog, start, code, end, i + 1 + e.offset, a, x, d);
      }
      return;
    }
    PlacedStep(prog, start, code, end, i, a, x, d);
    if e.Continue? {
      BackPatching(prog, start, code, end, i + 1, e.a, e.x, d);
    }
  }

  // An instruction that does not jump does the same in its place.
  lemma PlacedStep(
    prog: seq<Insn>, start: nat, code: seq<Insn>, end: nat, i: nat, a: u32, x: u32, d: SeccompData)
    requires WellLabelled(code, end) && Placed(prog, start, code, end)
    requires i < |code| && !Execute(code[i], a, x, d).Jump?
    ensures Run(prog, start + i, a, x, d) ==
            match Execute(code[i], a, x, d)
            case Halt(k) => Ret(k)
            case Illegal => Fault
            case Continue(a', x') => Run(prog, start + i + 1, a', x', d)
  {
    hide Execute, Run, Patch, PatchInsn;
    PlacedEffect(prog, start, code, end, i, a, x, d);
    RunStep(prog, start + i, a, x, d);
  }

  // A section ends with the two verdicts.
  lemma VerdictsAtEnd(prog: seq<Insn>, start: nat, code: seq<Insn>, end: nat, a: u32, x: u32, d: SeccompData)
    requires WellLabelled(code, end) && Placed(prog, start, code, end)
    ensures Run(prog, start + |code| - 2, a, x, d) == Ret(SECCOMP_RET_ALLOW)
    ensures Run(prog, start + |code| - 1, a, x, d) == Ret(SECCOMP_RET_TRACE)
  {
    hide Run, Patch, PatchInsn;
    var n := |code|;
    PlacedEffect(prog, start, code, end, n - 1, a, x, d);
    PlacedEffect(prog, start, code, end, n - 2, a, x, d);
    RunStep(prog, start + n - 1, a, x, d);
    RunStep(prog, start + n - 2, a, x, d);
  }

  // Where the jumps of a placed section land.
  lemma PlacedJump(prog: seq<Insn>, start: nat, code: seq<Insn>, end: nat, i: nat,
                     a: u32, x: u32, d: SeccompData, offset: nat)
    requires WellLabelled(code, end) && Placed(prog, start, code, end)
    requires i < |code| && Execute(code[i], a, x, d) == Jump(offset)
    ensures Run(prog, start + i, a, x, d) ==
            if offset == JMP_PLACEHOLDER_NEXT then Run(prog, start + |code|, a, x, d)
            else if offset == JMP_PLACEHOLDER_TRACE then Ret(SECCOMP_RET_TRACE)
            else if offset == JMP_PLACEHOLDER_ALLOW then Ret(SECCOMP_RET_ALLOW)
            else Run(prog, start + i + 1 + offset, a, x, d)
  {
    hide Execute, Run, Patch, PatchInsn;
    var n := |code|;
    PlacedEffect(prog, start, code, end, i, a, x, d);
    RunStep(prog, start + i, a, x, d);
    VerdictsAtEnd(prog, start, code, end, a, x, d);
  }

  // ---- structural facts: what the kernel's checker asks of a program ----

  // Where an offset at position i of code of length n may lead: a label, or a later instruction
  // up to the limit.  Only with `next` may it leave for the next section.
  predicate GoodOffset(offset: nat, i: nat, limit: nat, next: bool) {
    if offset == JMP_PLACEHOLDER_NEXT then next
    else offset == JMP_PLACEHOLDER_TRACE || offset == JMP_PLACEHOLDER_ALLOW || i + 1 + offset <= limit
  }

  predicate GoodJump(insn: Insn, i: nat, limit: nat, next: bool) {
    if insn.code.Ja? then next && insn.k == JMP_PLACEHOLDER_NEXT
    else insn.code.IsJump() ==> GoodOffset(insn.jt, i, limit, next) && GoodOffset(insn.jf, i, limit, next)
  }

  // Every jump is a placeholder or lands inside the code or right after it.
  ghost predicate SelfContained(code: seq<Insn>, next: bool) {
    forall i :: 0 <= i < |code| ==> GoodJump(code[i], i, |code|, next)
  }

  lemma SelfContainedConcat(c1: seq<Insn>, c2: seq<Insn>, next: bool)
    requires SelfContained(c1, next) && SelfContained(c2, false)
    ensures SelfContained(c1 + c2, next)
  {
    var c := c1 + c2;
    forall i | 0 <= i < |c|
      ensures GoodJump(c[i], i, |c|, next)
    {
      if i < |c1| {
        assert c[i] == c1[i] && GoodJump(c1[i], i, |c1|, next);
      } else {
        assert c[i] == c2[i - |c1|] && GoodJump(c2[i - |c1|], i - |c1|, |c2|, false);
      }
    }
  }

  // The target of a jump, taken or not, is an instruction of the program.
  predicate JumpsInside(insn: Insn, i: nat, len: nat) {
    if insn.code.Ja? then i + 1 + insn.k < len
    else insn.code.IsJump() ==> i + 1 + insn.jt < len && i + 1 + insn.jf < len
  }

  // After patching, an instruction that only had good jumps jumps inside the section, or to the
  // instruction right after it when it may leave for the next section.
  lemma PatchedInside(code: seq<Insn>, end: nat, i: nat, next: bool)
    requires WellLabelled(code, end) && i < |code|
    requires i < end ==> GoodJump(code[i], i, end, next)
    requires i >= end ==> JumpsInside(code[i], i, |code|)
    ensures JumpsInside(Patch(code, end)[i], i, if next then |code| + 1 else |code|)
  {
    if i < end {
      SmallMod(|code| - i - 1, 256);
      SmallMod(|code| - i - 2, 256);
      SmallMod(|code| - i - 3, 256);
    }
  }
}
