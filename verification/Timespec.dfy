/** Arithmetic on struct timespec (src/util.c:84-149) is arithmetic on whole nanoseconds. */
module Timespec {
  import Bits

  const NS_IN_S: int := 1_000_000_000

  datatype Timespec = Timespec(sec: int, nsec: int) {
    ghost predicate Normal() {
      0 <= nsec < NS_IN_S
    }

    ghost function Ns(): int {
      sec * NS_IN_S + nsec
    }
  }

  function TsAdd(a: Timespec, b: Timespec): (r: Timespec)
    requires a.Normal() && b.Normal()
    ensures r.Normal() && r.Ns() == a.Ns() + b.Ns()
  {
    var sec, nsec := a.sec + b.sec, a.nsec + b.nsec;
    if nsec >= NS_IN_S then Timespec(sec + 1, nsec - NS_IN_S) else Timespec(sec, nsec)
  }

  function TsSub(a: Timespec, b: Timespec): (r: Timespec)
    requires a.Normal() && b.Normal()
    ensures r.Normal() && r.Ns() == a.Ns() - b.Ns()
  {
    var sec, nsec := a.sec - b.sec, a.nsec - b.nsec;
    if nsec < 0 then Timespec(sec - 1, nsec + NS_IN_S) else Timespec(sec, nsec)
  }

  function TsCmp(a: Timespec, b: Timespec): (r: int)
    requires a.Normal() && b.Normal()
    ensures r < 0 <==> a.Ns() < b.Ns()
    ensures r > 0 <==> a.Ns() > b.Ns()
  {
    if a.sec < b.sec || (a.sec == b.sec && a.nsec < b.nsec) then -1
    else if a.sec > b.sec || (a.sec == b.sec && a.nsec > b.nsec) then 1
    else 0
  }

  // The dividend of the remainder of the seconds, which the source computes in 64 bits.
  function Low(a: Timespec, n: nat): int
    requires n > 0
  {
    a.sec % n * NS_IN_S + a.nsec + n / 2
  }

  // Division rounds to the nearest nanosecond, although seconds and their remainder are divided
  // separately, if and only if 64 bits are enough.
  function TsDiv(a: Timespec, n: Bits.u64): (r: Timespec)
    requires a.Normal() && a.sec >= 0 && n > 0
    ensures r.Normal()
    ensures r.Ns() == (a.Ns() + n / 2) / n <==> Low(a, n) < Bits.W64
  {
    var nsec := Low(a, n) % Bits.W64 / n;
    DivideTotal(a, n);
    Wrapped(Low(a, n), n);
    Timespec(a.sec / n + nsec / NS_IN_S, nsec % NS_IN_S)
  }

  // With 2^63 calls the dividend does not fit, and the average is wrong.
  lemma TsDivExample()
    ensures var a, n := Timespec(0x7fff_ffff_ffff_ffff, 0), 0x8000_0000_0000_0000;
            TsDiv(a, n).Ns() != (a.Ns() + n / 2) / n
  {
    var a, n := Timespec(0x7fff_ffff_ffff_ffff, 0), 0x8000_0000_0000_0000;
    Bits.DivModUnique(a.sec, n, 0, a.sec);
    assert Low(a, n) >= Bits.W64;
  }

  lemma Wrapped(x: nat, n: Bits.u64)
    requires n > 0
    ensures x % Bits.W64 / n == x / n <==> x < Bits.W64
  {
    var y := x % Bits.W64;
    if x >= Bits.W64 {
      MultipleOut(1, y, n);
      Bits.QuotientMono(n + y, x, n);
    }
  }

  lemma DivideTotal(a: Timespec, n: nat)
    requires a.Normal() && a.sec >= 0 && n > 0
    ensures (a.Ns() + n / 2) / n == a.sec / n * NS_IN_S + Low(a, n) / n
  {
    var q, r := a.sec / n, a.sec % n;
    var low := r * NS_IN_S + a.nsec + n / 2;
    assert a.sec == q * n + r;
    assert a.Ns() + n / 2 == (q * NS_IN_S) * n + low;
    MultipleOut(q * NS_IN_S, low, n);
  }

  lemma MultipleOut(m: int, low: int, n: nat)
    requires n > 0
    ensures (m * n + low) / n == m + low / n
  {
    var k, r := low / n, low % n;
    assert m * n + low == (m + k) * n + r;
    Bits.DivModUnique(m * n + low, n, m + k, r);
  }
}
