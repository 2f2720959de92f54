/** The code of one personality section as written by binary_match_filter_generator: one test for
    each 32-bit word of the bitmap of traced syscall numbers (src/filter_seccomp.c:434-460, 485-542).
 */
module BinaryCode {
  import opened Bits
  import opened Bpf
  import opened Section
  import opened Tables

  // bpf_syscalls_match
  function WordTest(bits: u32, idx: u32): (code: seq<Insn>)
    ensures 1 <= |code| <= 3
    ensures SelfContained(code, false)
  {
    if bits == 0 then
      [Branch(JeqK, idx, JMP_PLACEHOLDER_ALLOW, 0)]
    else if bits == UINT_MAX then
      [Branch(JeqK, idx, JMP_PLACEHOLDER_TRACE, 0)]
    else
      [Branch(JeqK, idx, 0, 2),
       Stmt(Txa, 0),
       Branch(JsetK, bits, JMP_PLACEHOLDER_TRACE, JMP_PLACEHOLDER_ALLOW)]
  }

  // The state of the scan over syscall numbers: the tests emitted so far and the current word.
  datatype Scan = Scan(code: seq<Insn>, bits: u32)

  function WordScan(t: Table, i: nat): Scan
    requires Small(t) && i <= |t.traced|
  {
    if i == 0 then Scan([], 0)
    else
      var s := WordScan(t, i - 1);
      var bits := if t.traced[i - 1] then Or32(s.bits, Bit32((i - 1) % 32)) else s.bits;
      if (i - 1) % 32 == 31 then Scan(s.code + WordTest(bits, (i - 1) / 32), 0)
      else Scan(s.code, bits)
  }

  // The unfolding of WordScan, for proofs that hide its definition.

  lemma ScanStart(t: Table)
    requires Small(t)
    ensures WordScan(t, 0) == Scan([], 0)
  {
  }

  lemma ScanStep(t: Table, i: nat)
    requires Small(t) && i < |t.traced|
    ensures var s, bits := WordScan(t, i), FullWord(t, i + 1);
            WordScan(t, i + 1) == if i % 32 == 31 then Scan(s.code + WordTest(bits, i / 32), 0) else Scan(s.code, bits)
  {
    hide WordTest, Bit32, Or32, FlagIsBit;
  }

  // The tests after a scan of the first i numbers, the last word possibly partial.
  function WordTests(t: Table, i: nat): seq<Insn>
    requires Small(t) && i <= |t.traced|
  {
    var s := WordScan(t, i);
    if i % 32 != 0 then s.code + WordTest(s.bits, i / 32) else s.code
  }

  // A = nr & ~flag
  function Mask(t: Table): seq<Insn> {
    if t.flag != 0 then [Stmt(AndK, Not32(t.flag))] else []
  }

  // X = 1 << nr % 32; A = nr / 32
  function Split(t: Table): seq<Insn> {
    [Stmt(AndK, 0x1F), Stmt(Tax, 0), Stmt(LdImm, 1), Stmt(LshX, 0), Stmt(Tax, 0),
     Stmt(LdAbs, OFFSET_NR)] + Mask(t) + [Stmt(RshK, 5)]
  }

  const Tail: seq<Insn> := [Stmt(RetK, SECCOMP_RET_ALLOW), Stmt(RetK, SECCOMP_RET_TRACE)]

  // ---- the scan ----

  // The current word holds the traced bits since the last word boundary.
  lemma {:induction false} ScanBits(t: Table, i: nat, j: nat)
    requires Small(t) && i <= |t.traced| && j < 32
    ensures Bit(WordScan(t, i).bits, j) <==> j < i % 32 && t.traced[i / 32 * 32 + j]
  {
    hide Bit, BitOr, Pow2, WordTest;
    if i == 0 {
      ZeroBit(j);
    } else {
      var s := WordScan(t, i - 1);
      ScanBits(t, i - 1, j);
      if (i - 1) % 32 == 31 {
        ZeroBit(j);
      } else {
        assert i / 32 == (i - 1) / 32 && i % 32 == (i - 1) % 32 + 1;
        OrBit(s.bits, Bit32((i - 1) % 32), j);
        Pow2Bit((i - 1) % 32, j);
      }
    }
  }

  // The word completed by number i - 1.
  function FullWord(t: Table, i: nat): u32
    requires Small(t) && 0 < i <= |t.traced|
  {
    var bits := WordScan(t, i - 1).bits;
    if t.traced[i - 1] then Or32(bits, Bit32((i - 1) % 32)) else bits
  }

  lemma FullWordBits(t: Table, i: nat, j: nat)
    requires Small(t) && 0 < i <= |t.traced| && (i - 1) % 32 == 31 && j < 32
    ensures Bit(FullWord(t, i), j) <==> t.traced[(i - 1) / 32 * 32 + j]
  {
    hide Bit, BitOr, Pow2, WordScan;
    ScanBits(t, i - 1, j);
    OrBit(WordScan(t, i - 1).bits, Bit32(31), j);
    Pow2Bit(31, j);
    assert j == 31 ==> i - 1 == (i - 1) / 32 * 32 + j;
  }

  // At most three instructions for each completed word.
  lemma {:induction false} ScanSize(t: Table, i: nat)
    requires Small(t) && i <= |t.traced|
    ensures |WordScan(t, i).code| <= 3 * (i / 32)
  {
    if i > 0 {
      hide WordTest, Bit32, BitOr;
      ScanSize(t, i - 1);
      assert i / 32 == if (i - 1) % 32 == 31 then (i - 1) / 32 + 1 else (i - 1) / 32;
    }
  }

  lemma {:induction false} ScanSelfContained(t: Table, i: nat)
    requires Small(t) && i <= |t.traced|
    ensures SelfContained(WordScan(t, i).code, false)
  {
    if i > 0 {
      hide WordTest, Bit32, BitOr, SelfContained;
      ScanSelfContained(t, i - 1);
      if (i - 1) % 32 == 31 {
        SelfContainedConcat(WordScan(t, i - 1).code, WordTest(FullWord(t, i), (i - 1) / 32), false);
      }
    }
  }

  // Tests are only ever added.
  lemma {:induction false} ScanGrows(t: Table, i: nat, j: nat)
    requires Small(t) && i <= j <= |t.traced|
    ensures |WordScan(t, i).code| <= |WordScan(t, j).code|
  {
    hide WordTest, Bit32, BitOr, Small;
    if i < j {
      ScanGrows(t, i, j - 1);
    }
  }

  // The bitmap tests for n numbers take at most 3 * ceil(n / 32) instructions.
  lemma WordTestsSize(t: Table, i: nat)
    requires Small(t) && i <= |t.traced|
    ensures |WordTests(t, i)| <= 3 * ((i + 31) / 32)
    ensures SelfContained(WordTests(t, i), false)
  {
    ScanSize(t, i);
    ScanSelfContained(t, i);
    if i % 32 != 0 {
      var s := WordScan(t, i);
      SelfContainedConcat(s.code, WordTest(s.bits, i / 32), false);
    }
  }

  // ---- meaning ----

  function Answer(trace: bool): Outcome {
    Verdict(if trace then SECCOMP_RET_TRACE else SECCOMP_RET_ALLOW)
  }

  lemma WordMeaning(bits: u32, idx: u32, tail: seq<Insn>, a: u32, j: nat, d: SeccompData)
    requires j < 32
    ensures RunLabelled(WordTest(bits, idx) + tail, a, Bit32(j), d) ==
            if a == idx then Answer(Bit(bits, j)) else RunLabelled(tail, a, Bit32(j), d)
  {
    hide RunLabelled, BitAnd, Pow2;
    var x := Bit32(j);
    var code := WordTest(bits, idx) + tail;
    assert code[0..] == code && code[|WordTest(bits, idx)|..] == tail;
    LabelledStep(code, 0, a, x, d);
    Pow2Values();
    if bits == 0 {
      ZeroBit(j);
    } else if bits == UINT_MAX {
      OnesBit(32, j);
    } else {
      LabelledNext(code, 1, a, x, d, x, x);
      LabelledStep(code, 2, x, x, d);
      AndPow2(j, bits);
    }
  }

  // Where a scan stands that has just completed a word, or has not.
  lemma WordCount(i: nat)
    requires i > 0
    ensures (i - 1) % 32 == 31 ==> i / 32 == (i - 1) / 32 + 1
    ensures (i - 1) % 32 != 31 ==> i / 32 == (i - 1) / 32
  {
  }

  // The tests emitted so far answer for the words completed so far.
  lemma {:induction false} ScanMeaning(t: Table, i: nat, tail: seq<Insn>, a: u32, j: nat, d: SeccompData)
    requires Small(t) && i <= |t.traced| && j < 32
    ensures RunLabelled(WordScan(t, i).code + tail, a, Bit32(j), d) ==
            if a < i / 32 then Answer(t.traced[a * 32 + j]) else RunLabelled(tail, a, Bit32(j), d)
  {
    hide Execute, RunLabelled, WordTest, Bit32, BitOr, Bit, FullWord, FlagIsBit, Pow2, Or32, Answer, WordScan;
    if i == 0 {
      ScanStart(t);
      assert [] + tail == tail;
      return;
    }
    WordCount(i);
    ScanStep(t, i - 1);
    if (i - 1) % 32 == 31 {
      var code := WordScan(t, i - 1).code;
      var test := WordTest(FullWord(t, i), (i - 1) / 32);
      ScanMeaning(t, i - 1, test + tail, a, j, d);
      assert (code + test) + tail == code + (test + tail);
      WordMeaning(FullWord(t, i), (i - 1) / 32, tail, a, j, d);
      FullWordBits(t, i, j);
    } else {
      ScanMeaning(t, i - 1, tail, a, j, d);
    }
  }

  lemma TestsMeaning(t: Table, a: u32, j: nat, d: SeccompData)
    requires Small(t) && j < 32
    ensures var n := a * 32 + j;
            RunLabelled(WordTests(t, |t.traced|) + Tail, a, Bit32(j), d) ==
            Answer(n < |t.traced| && t.traced[n])
  {
    hide WordTest, Bit32, BitOr, Bit;
    var i := |t.traced|;
    var s := WordScan(t, i);
    assert RunLabelled(Tail, a, Bit32(j), d) == Answer(false);
    if i % 32 == 0 {
      ScanMeaning(t, i, Tail, a, j, d);
    } else {
      var test := WordTest(s.bits, i / 32);
      ScanMeaning(t, i, test + Tail, a, j, d);
      assert (s.code + test) + Tail == s.code + (test + Tail);
      WordMeaning(s.bits, i / 32, Tail, a, j, d);
      ScanBits(t, i, j);
    }
  }

  // nr & ~flag
  function Masked(t: Table, nr: u32): u32 {
    if t.flag == 0 then nr else BitAnd(nr, Not32(t.flag))
  }

  // What masking does to a number: only the flag bit goes.  A number in range keeps its place.
  lemma MaskedValue(t: Table, nr: u32)
    requires Small(t)
    ensures Masked(t, nr) % 32 == nr % 32
    ensures nr < t.flag ==> Masked(t, nr) == nr
    ensures nr >= t.flag && Masked(t, nr) < |t.traced| ==> nr == t.flag + Masked(t, nr)
    ensures t.flag <= nr < t.flag + |t.traced| ==> Masked(t, nr) == nr - t.flag
  {
    hide BitAnd, Pow2, Bit;
    if t.flag != 0 {
      var k: nat :| 5 <= k < 32 && t.flag == Pow2(k);
      AndClear(nr, k);
      assert (nr - t.flag) % 32 == nr % 32 by { Pow2Multiple(k); }
      BitBounds(nr, k);
    }
  }

  lemma Pow2Multiple(k: nat)
    requires k >= 5
    ensures Pow2(k) % 32 == 0
  {
    hide Pow2;
    Pow2Sum(k - 5, 5);
    Pow2Values();
  }

  // A number below 2^(k+1) has bit k set exactly when it is at least 2^k.
  lemma {:induction false} BitBounds(w: nat, k: nat)
    ensures w < 2 * Pow2(k) ==> (Bit(w, k) <==> w >= Pow2(k))
    ensures Bit(w, k) ==> w >= Pow2(k)
  {
    hide Half, Odd;
    if k > 0 {
      BitBounds(Half(w), k - 1);
    }
  }

  // The registers after the number has been split.
  lemma SplitMeaning(t: Table, code: seq<Insn>, a: u32, x: u32, d: SeccompData)
    requires Small(t) && a % 32 == d.nr % 32
    ensures var n := Masked(t, d.nr);
            RunLabelled(Split(t) + code, a, x, d) == RunLabelled(code, n / 32, Bit32(n % 32), d)
  {
    hide RunLabelled, BitAnd, Pow2, FlagIsBit;
    var n := Masked(t, d.nr);
    MaskedValue(t, d.nr);
    Pow2Values();
    var r := d.nr % 32;
    var all := Split(t) + code;
    assert all[0..] == all;
    assert BitAnd(a, 0x1F) == r by { AndLowMask(a); }
    LabelledNext(all, 0, a, x, d, r, x);
    LabelledNext(all, 1, r, x, d, r, r);
    LabelledNext(all, 2, r, r, d, 1, r);
    LabelledNext(all, 3, 1, r, d, Bit32(r), r);
    LabelledNext(all, 4, Bit32(r), r, d, Bit32(r), Bit32(r));
    LabelledNext(all, 5, Bit32(r), Bit32(r), d, d.nr, Bit32(r));
    if t.flag != 0 {
      LabelledNext(all, 6, d.nr, Bit32(r), d, n, Bit32(r));
    }
    LabelledNext(all, |Split(t)| - 1, n, Bit32(r), d, n / 32, Bit32(r));
    assert all[|Split(t)|..] == code;
  }

  // Only builds with several personalities mask the number before X is computed.
  function MaskIf(t: Table, multi: bool): seq<Insn> {
    if multi then Mask(t) else []
  }

  // Everything between the loading of the number and the verdicts.
  function Body(t: Table, multi: bool): seq<Insn>
    requires Small(t)
  {
    MaskIf(t, multi) + Split(t) + WordTests(t, |t.traced|)
  }

  // The verdict of the body and the tail on a number: trace what is in range and traced.
  lemma BinaryMeaning(t: Table, multi: bool, x: u32, d: SeccompData)
    requires Small(t)
    ensures var n := Masked(t, d.nr);
            RunLabelled(Body(t, multi) + Tail, d.nr, x, d) == Answer(n < |t.traced| && t.traced[n])
  {
    hide RunLabelled, WordTests, Split, BitAnd, FlagIsBit;
    var n := Masked(t, d.nr);
    MaskedValue(t, d.nr);
    var tests := WordTests(t, |t.traced|) + Tail;
    var code := Split(t) + tests;
    TestsMeaning(t, n / 32, n % 32, d);
    if multi && t.flag != 0 {
      var all := Mask(t) + code;
      assert Body(t, multi) + Tail == all && all[0..] == all && all[1..] == code;
      LabelledNext(all, 0, d.nr, x, d, n, x);
      SplitMeaning(t, tests, n, x, d);
    } else {
      assert Body(t, multi) + Tail == code;
      SplitMeaning(t, tests, d.nr, x, d);
    }
  }
}
