/** A classic-BPF machine, as far as seccomp filters of strace use it: the opcodes are those
    listed by dump_seccomp_bpf (src/filter_seccomp.c:605-677).
 */
module Bpf {
  import opened Bits

  const BPF_MAXINSNS: nat := 4096
  const SECCOMP_RET_ALLOW: u32 := 0x7fff_0000
  const SECCOMP_RET_TRACE: u32 := 0x7ff0_0000

  // Offsets of the fields of struct seccomp_data.
  const OFFSET_NR: u32 := 0
  const OFFSET_ARCH: u32 := 4

  datatype Opcode =
    | LdAbs | LdImm | RetK
    | JeqK | JgeK | JsetK | Ja
    | RshK | LshX | AndK | Tax | Txa
  {
    // BPF_CLASS(code) == BPF_JMP
    predicate IsJump() {
      JeqK? || JgeK? || JsetK? || Ja?
    }
  }

  // struct sock_filter
  datatype Insn = Insn(code: Opcode, jt: u8, jf: u8, k: u32)

  datatype SeccompData = SeccompData(nr: u32, arch: u32)

  function Stmt(code: Opcode, k: u32): Insn {
    Insn(code, 0, 0, k)
  }

  function Branch(code: Opcode, k: u32, jt: u8, jf: u8): Insn {
    Insn(code, jt, jf, k)
  }

  // What one instruction does, relative to its own position.
  datatype Effect =
    | Halt(k: u32)
    | Illegal
    | Continue(a: u32, x: u32)
    | Jump(offset: nat)

  function Execute(i: Insn, a: u32, x: u32, d: SeccompData): Effect {
    match i.code
    case LdAbs =>
      if i.k == OFFSET_NR then Continue(d.nr, x)
      else if i.k == OFFSET_ARCH then Continue(d.arch, x)
      else Illegal
    case LdImm => Continue(i.k, x)
    case RetK => Halt(i.k)
    case JeqK => Jump(if a == i.k then i.jt else i.jf)
    case JgeK => Jump(if a >= i.k then i.jt else i.jf)
    case JsetK => Jump(if BitAnd(a, i.k) != 0 then i.jt else i.jf)
    case Ja => Jump(i.k)
    case RshK => Continue(Shr32(a, i.k % 32), x)
    case LshX => Continue(Shl32(a, x % 32), x)
    case AndK => Continue(BitAnd(a, i.k), x)
    case Tax => Continue(a, a)
    case Txa => Continue(x, x)
  }

  datatype Result = Ret(k: u32) | Fault

  // Run a program from instruction pc.  Offsets are unsigned, so a run only moves forward and
  // takes at most |prog| steps; leaving the program is a fault.
  function Run(prog: seq<Insn>, pc: nat, a: u32, x: u32, d: SeccompData): Result
    decreases |prog| - pc
  {
    if pc >= |prog| then Fault
    else
      match Execute(prog[pc], a, x, d)
      case Halt(k) => Ret(k)
      case Illegal => Fault
      case Continue(a', x') => Run(prog, pc + 1, a', x', d)
      case Jump(offset) => Run(prog, pc + 1 + offset, a, x, d)
  }

  // The unfolding of Run, for proofs that hide its definition.
  lemma RunStep(prog: seq<Insn>, pc: nat, a: u32, x: u32, d: SeccompData)
    requires pc < |prog|
    ensures Run(prog, pc, a, x, d) ==
            match Execute(prog[pc], a, x, d)
            case Halt(k) => Ret(k)
            case Illegal => Fault
            case Continue(a', x') => Run(prog, pc + 1, a', x', d)
            case Jump(offset) => Run(prog, pc + 1 + offset, a, x, d)
  {
    hide Execute;
  }

  // The kernel enters a filter with both registers cleared.
  function Filter(prog: seq<Insn>, d: SeccompData): Result {
    Run(prog, 0, 0, 0, d)
  }
}
