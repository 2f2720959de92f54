/** What the seccomp filter is compiled from: for every personality its audit architecture, its
    syscall number flag and which of its syscalls are to be traced.
 */
module Tables {
  import opened Bits

  // audit_arch_vec[p] and, for every number below nsyscall_vec[p], traced_by_seccomp(number, p).
  datatype Table = Table(arch: u32, flag: u32, traced: seq<bool>)

  // A flag is a single bit above every syscall number (0x40000000 for x32, 1024 for ia64).
  ghost predicate FlagIsBit(flag: u32) {
    exists k: nat :: 5 <= k < 32 && flag == Pow2(k)
  }

  ghost predicate Small(t: Table) {
    && t.flag + |t.traced| < UINT_MAX
    && (t.flag != 0 ==> FlagIsBit(t.flag) && |t.traced| < t.flag)
  }

  // Marking a number with the flag adds the flag.
  lemma FlagOr(t: Table, n: u32)
    requires Small(t) && n <= |t.traced|
    ensures Or32(n, t.flag) == t.flag + n
  {
    if t.flag != 0 {
      var k: nat :| 5 <= k < 32 && t.flag == Pow2(k);
      OrPow2(n, k);
    }
  }
}
