/** Integer base-2 logarithms by halving the number of candidate bits (src/defs.h:2102-2152). */
module IntLog {
  import opened Bits

  // val holds what is left of v after ret low bits have been shifted out.
  ghost predicate Sandwich(v: nat, val: nat, ret: nat) {
    val * Pow2(ret) <= v < (val + 1) * Pow2(ret)
  }

  ghost predicate LowBitsClear(ret: nat, n: nat) {
    forall j: nat :: j < n ==> !Bit(ret, j)
  }

  // ILOG2_ITER_: if val needs more than 2^bit bits, shift it right by 2^bit and note the shift.
  method Iter(val: nat, ret: nat, bit: nat, ghost v: nat) returns (val': nat, ret': nat)
    requires Sandwich(v, val, ret) && LowBitsClear(ret, bit + 1)
    requires val < Pow2(Pow2(bit + 1))
    ensures Sandwich(v, val', ret') && LowBitsClear(ret', bit)
    ensures val' < Pow2(Pow2(bit))
    ensures val' == 0 <==> val == 0
    ensures val == 0 ==> ret' == ret
  {
    hide Bit, Sandwich;
    var shift := if val > Pow2(Pow2(bit)) - 1 then Pow2(bit) else 0;
    val' := val / Pow2(shift);
    ret' := BitOr(ret, shift);
    if shift == 0 {
      assert BitOr(ret, 0) == ret;
    } else {
      OrClearBit(ret, bit);
      forall j: nat | j < bit
        ensures !Bit(ret', j)
      {
        OrBit(ret, shift, j);
        Pow2Bit(bit, j);
      }
      ShiftSandwich(v, val, ret, shift);
      Pow2Sum(shift, shift);
      QuotientBounds(val, Pow2(shift), Pow2(shift));
    }
  }

  lemma {:induction false} OrClearBit(x: nat, k: nat)
    requires !Bit(x, k)
    ensures BitOr(x, Pow2(k)) == x + Pow2(k)
  {
    hide Half, Odd;
    if x != 0 {
      if k == 0 {
        assert Half(1) == 0 && Odd(1);
        assert BitOr(Half(x), 0) == Half(x);
      } else {
        assert Half(Pow2(k)) == Pow2(k - 1);
        OrClearBit(Half(x), k - 1);
      }
    }
  }

  lemma ShiftSandwich(v: nat, val: nat, ret: nat, shift: nat)
    requires Sandwich(v, val, ret)
    ensures Sandwich(v, val / Pow2(shift), ret + shift)
  {
    hide Pow2;
    Pow2Sum(ret, shift);
    ShiftBounds(v, val, Pow2(ret), Pow2(shift));
  }

  lemma ShiftBounds(v: nat, val: nat, p: nat, s: nat)
    requires s > 0 && val * p <= v < (val + 1) * p
    ensures val / s * (p * s) <= v < (val / s + 1) * (p * s)
  {
    var q := val / s;
    assert q * s <= val && val + 1 <= (q + 1) * s;
    ProductMono(q * s, val, p);
    ProductMono(val + 1, (q + 1) * s, p);
    Regroup(q, s, p);
    Regroup(q + 1, s, p);
  }

  lemma Regroup(q: nat, s: nat, p: nat)
    ensures q * s * p == q * (p * s)
  {
  }

  lemma ProductMono(a: nat, b: nat, p: nat)
    requires a <= b
    ensures a * p <= b * p
  {
  }

  // A value from m up to below m * n has a quotient from 1 up to below n.
  lemma QuotientBounds(val: nat, m: nat, n: nat)
    requires m > 0 && m <= val < m * n
    ensures 1 <= val / m < n
  {
    var q := val / m;
    assert val == q * m + val % m;
    if q >= n {
      ProductMono(n, q, m);
    }
  }

  lemma Result(v: nat, val: nat, ret: nat)
    requires Sandwich(v, val, ret) && val < Pow2(Pow2(0))
    requires val == 0 <==> v == 0
    ensures v > 0 ==> Pow2(ret) <= v < Pow2(ret + 1)
  {
    assert Pow2(1) == 2;
  }

  method Ilog2_64(v: u64) returns (ret: nat)
    ensures v > 0 ==> Pow2(ret) <= v < Pow2(ret + 1)
    ensures v == 0 ==> ret == 0
  {
    hide Bit, Sandwich, LowBitsClear, Pow2;
    Start(v);
    Powers();
    var val: nat;
    val, ret := v, 0;
    val, ret := Iter(val, ret, 5, v);
    val, ret := Iter(val, ret, 4, v);
    val, ret := Iter(val, ret, 3, v);
    val, ret := Iter(val, ret, 2, v);
    val, ret := Iter(val, ret, 1, v);
    val, ret := Iter(val, ret, 0, v);
    Result(v, val, ret);
  }

  method Ilog2_32(v: u32) returns (ret: nat)
    ensures v > 0 ==> Pow2(ret) <= v < Pow2(ret + 1)
    ensures v == 0 ==> ret == 0
  {
    hide Bit, Sandwich, LowBitsClear, Pow2;
    Start(v);
    Powers();
    var val: nat;
    val, ret := v, 0;
    val, ret := Iter(val, ret, 4, v);
    val, ret := Iter(val, ret, 3, v);
    val, ret := Iter(val, ret, 2, v);
    val, ret := Iter(val, ret, 1, v);
    val, ret := Iter(val, ret, 0, v);
    Result(v, val, ret);
  }

  lemma Start(v: nat)
    ensures Sandwich(v, v, 0) && forall n :: LowBitsClear(0, n)
  {
    forall j: nat
      ensures !Bit(0, j)
    {
      ZeroBit(j);
    }
  }

  lemma Powers()
    ensures Pow2(Pow2(5)) == W32 && Pow2(Pow2(6)) == W64
  {
    Pow2Values();
    assert Pow2(6) == 64;
    Pow2Sum(32, 32);
  }

  // The result is determined by its contract.
  lemma {:induction false} LogUnique(v: nat, r: nat, s: nat)
    requires Pow2(r) <= v < Pow2(r + 1) && Pow2(s) <= v < Pow2(s + 1)
    ensures r == s
  {
    if r + 1 < s {
      Pow2Mono(r + 1, s);
    } else if s + 1 < r {
      Pow2Mono(s + 1, r);
    }
  }
}
