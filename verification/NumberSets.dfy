/** Sets of numbers as bitmaps with an inversion flag (src/number_set.c), and the population count
    they rely on (src/defs.h:1975-1995).
 */
module NumberSets {
  import opened Bits

  // ---- population count ----

  function Ones(w: nat): nat {
    if w == 0 then 0 else (if Odd(w) then 1 else 0) + Ones(Half(w))
  }

  function TotalOnes(vec: seq<u32>): nat {
    if vec == [] then 0 else TotalOnes(vec[..|vec| - 1]) + Ones(vec[|vec| - 1])
  }

  // x & (x - 1) drops exactly one set bit.
  lemma {:induction false} DropLowestOne(x: nat)
    requires x > 0
    ensures Ones(x) == Ones(BitAnd(x, x - 1)) + 1
  {
    hide Half, Odd, BitAnd;
    var h := Half(x);
    AndHalves(x, x - 1);
    if Odd(x) {
      assert Half(x - 1) == h;
      AndSame(h);
      OnesDouble(BitAnd(h, h));
    } else {
      assert Half(x - 1) == h - 1 && Odd(x - 1);
      DropLowestOne(h);
      OnesDouble(BitAnd(h, h - 1));
    }
  }

  lemma {:induction false} AndSame(x: nat)
    ensures BitAnd(x, x) == x
  {
    hide Half, Odd;
    if x > 0 {
      AndSame(Half(x));
    }
  }

  lemma OnesDouble(x: nat)
    ensures Ones(2 * x) == Ones(x)
  {
    hide Half, Odd;
    assert Half(2 * x) == x && !Odd(2 * x);
  }

  // popcount32, the loop for compilers without a builtin.
  method Popcount32(vec: seq<u32>) returns (count: nat)
    ensures count == TotalOnes(vec)
  {
    count := 0;
    for i := 0 to |vec|
      invariant count == TotalOnes(vec[..i])
    {
      ghost var before := count;
      var x: nat := vec[i];
      while x != 0
        invariant count + Ones(x) == before + Ones(vec[i])
      {
        DropLowestOne(x);
        x := BitAnd(x, x - 1);
        count := count + 1;
      }
      assert vec[..i + 1][..i] == vec[..i];
    }
    assert vec[..|vec|] == vec;
  }

  // ---- the set ----

  // What a number set means: the listed numbers, or all others.
  datatype SetView = SetView(members: set<nat>, inverted: bool) {
    predicate Contains(n: nat) {
      (n in members) != inverted
    }
  }

  predicate IsSet(vec: seq<u32>, n: nat) {
    n / 32 < |vec| && Bit(vec[n / 32], n % 32)
  }

  ghost function Members(vec: seq<u32>): set<nat> {
    set n: nat | n < 32 * |vec| && IsSet(vec, n)
  }

  class NumberSet {
    var vec: seq<u32>
    var inverted: bool

    // alloc_number_set_array
    constructor ()
      ensures View() == SetView({}, false) && vec == []
    {
      vec, inverted := [], false;
    }

    ghost function View(): SetView
      reads this
    {
      SetView(Members(vec), inverted)
    }

    // is_number_in_set
    method IsNumberInSet(n: nat) returns (r: bool)
      ensures r <==> View().Contains(n)
    {
      r := (n / 32 < |vec| && BitAnd(vec[n / 32], Bit32(n % 32)) != 0) != inverted;
      if n / 32 < |vec| {
        AndCommutes(vec[n / 32], Bit32(n % 32));
        AndPow2(n % 32, vec[n / 32]);
      }
    }

    // add_number_to_set
    method AddNumberToSet(n: nat)
      modifies this
      ensures View() == SetView(old(View()).members + {n}, old(inverted))
      ensures vec != []
    {
      var slots := n / 32 + 1;
      if slots > |vec| {
        vec := vec + seq(slots - |vec|, _ => 0);
        ZeroSlots(old(vec), slots - |old(vec)|);
      }
      ghost var grown := vec;
      vec := vec[n / 32 := Or32(vec[n / 32], Bit32(n % 32))];
      SetSlotBit(grown, n);
    }

    // clear_number_set_array: the slots stay allocated.
    method Clear()
      modifies this
      ensures View() == SetView({}, false) && |vec| == old(|vec|)
    {
      vec := seq(|vec|, _ => 0);
      inverted := false;
      ZeroSlots([], |vec|);
      assert [] + vec == vec;
    }

    // invert_number_set_array
    method Invert()
      modifies this
      ensures View() == SetView(old(View()).members, !old(inverted)) && vec == old(vec)
    {
      inverted := !inverted;
    }

    // number_set_array_is_empty
    method IsEmpty() returns (r: bool)
      ensures r ==> View() == SetView({}, false)
      ensures r <==> vec == [] && !inverted
    {
      r := !(|vec| != 0 || inverted);
    }

    // is_complete_set
    method IsCompleteSet(maxNumbers: nat) returns (r: bool)
      ensures r <==> ReportsComplete(View(), vec == [], maxNumbers)
    {
      var count := Popcount32(vec);
      TotalOnesIsSize(vec);
      r := (inverted && |vec| == 0) || count == maxNumbers;
    }
  }

  lemma ZeroSlots(vec: seq<u32>, k: nat)
    ensures Members(vec + seq(k, _ => 0)) == Members(vec)
  {
    hide Bit;
    var grown := vec + seq(k, _ => 0);
    forall n: nat
      ensures IsSet(grown, n) <==> IsSet(vec, n)
    {
      ZeroBit(n % 32);
    }
  }

  lemma SetSlotBit(vec: seq<u32>, n: nat)
    requires n / 32 < |vec|
    ensures Members(vec[n / 32 := Or32(vec[n / 32], Bit32(n % 32))]) == Members(vec) + {n}
  {
    hide Bit, BitOr, Pow2;
    var slot := n / 32;
    var vec' := vec[slot := Or32(vec[slot], Bit32(n % 32))];
    forall m: nat | m / 32 < |vec|
      ensures IsSet(vec', m) <==> IsSet(vec, m) || m == n
    {
      if m / 32 == slot {
        OrBit(vec[slot], Bit32(n % 32), m % 32);
        Pow2Bit(n % 32, m % 32);
      }
    }
  }

  // ---- the population count is the number of members ----

  lemma {:induction false} TotalOnesIsSize(vec: seq<u32>)
    ensures TotalOnes(vec) == |Members(vec)|
  {
    hide Bit, IsSet;
    if vec != [] {
      var k := |vec| - 1;
      var init := vec[..k];
      TotalOnesIsSize(init);
      Pow2Values();
      var top := SlotMembers(vec[k], 32, 32 * k);
      SlotSize(vec[k], 32, 32 * k);
      LastSlot(vec, top);
      assert Members(init) * top == {};
    }
  }

  lemma LastSlot(vec: seq<u32>, top: set<nat>)
    requires vec != [] && top == SlotMembers(vec[|vec| - 1], 32, 32 * (|vec| - 1))
    ensures Members(vec) == Members(vec[..|vec| - 1]) + top
  {
    hide Bit;
    var k := |vec| - 1;
    forall n: nat | n < 32 * |vec|
      ensures IsSet(vec, n) <==> if n < 32 * k then IsSet(vec[..k], n) else InSlot(vec[k], 32 * k, n)
    {
    }
  }

  // The numbers of the bits set among the low b bits of a slot that starts at base.
  ghost function SlotMembers(w: nat, b: nat, base: nat): set<nat> {
    set n: nat | n < base + b && InSlot(w, base, n)
  }

  predicate InSlot(w: nat, base: nat, n: nat) {
    base <= n && Bit(w, n - base)
  }

  lemma {:induction false} SlotSize(w: nat, b: nat, base: nat)
    requires w < Pow2(b)
    ensures |SlotMembers(w, b, base)| == Ones(w)
  {
    hide Half, Odd;
    if b == 0 {
      assert SlotMembers(w, b, base) == {};
    } else {
      var rest := SlotMembers(Half(w), b - 1, base + 1);
      SlotSize(Half(w), b - 1, base + 1);
      var low: set<nat> := if Odd(w) then {base} else {};
      forall n: nat
        ensures n in SlotMembers(w, b, base) <==> n in low || n in rest
      {
        assert base < n ==> Bit(w, n - base) == Bit(Half(w), n - base - 1);
      }
      assert SlotMembers(w, b, base) == low + rest;
    }
  }

  // ---- completeness ----

  predicate ReportsComplete(v: SetView, noSlots: bool, maxNumbers: nat) {
    (v.inverted && noSlots) || |v.members| == maxNumbers
  }

  ghost predicate Complete(v: SetView, maxNumbers: nat) {
    forall n: nat :: n < maxNumbers ==> v.Contains(n)
  }

  predicate IsBelow(n: nat, max: nat) {
    n < max
  }

  ghost function Below(max: nat): set<nat> {
    set n: nat | n < max && IsBelow(n, max)
  }

  lemma {:induction false} BelowSize(max: nat)
    ensures |Below(max)| == max
  {
    if max > 0 {
      BelowSize(max - 1);
      assert IsBelow(max - 1, max);
      assert forall n: nat :: IsBelow(n, max) <==> IsBelow(n, max - 1) || n == max - 1;
      assert Below(max) == Below(max - 1) + {max - 1};
    }
  }

  lemma SubsetSize(a: set<nat>, b: set<nat>)
    requires a <= b && |a| == |b|
    ensures a == b
  {
    assert b == a + (b - a);
    assert |b - a| == 0;
  }

  lemma CompleteMembers(v: SetView, maxNumbers: nat)
    ensures Complete(v, maxNumbers) <==>
            if v.inverted then v.members !! Below(maxNumbers) else Below(maxNumbers) <= v.members
  {
    assert forall n: nat :: n < maxNumbers ==> IsBelow(n, maxNumbers) && n in Below(maxNumbers);
    if Complete(v, maxNumbers) {
      forall n | n in Below(maxNumbers)
        ensures (n in v.members) != v.inverted
      {
        assert v.Contains(n);
      }
    }
  }

  // is_complete_set compares numbers of elements.  Its answer is right for a set that lists exactly
  // the numbers below the limit, or neither all of them nor as many; for an inverted set without
  // slots; and for an inverted set that lists as many numbers, but none below the limit, or some
  // below the limit, but not as many.
  lemma CompletenessTest(vec: seq<u32>, inverted: bool, maxNumbers: nat)
    ensures var m, low := Members(vec), Below(maxNumbers);
            var v := SetView(m, inverted);
            (ReportsComplete(v, vec == [], maxNumbers) <==> Complete(v, maxNumbers)) <==>
            if inverted then vec == [] || (m !! low && |m| == maxNumbers) || (!(m !! low) && |m| != maxNumbers)
            else m == low || (!(low <= m) && |m| != maxNumbers)
  {
    hide Members;
    var m, low := Members(vec), Below(maxNumbers);
    BelowSize(maxNumbers);
    CompleteMembers(SetView(m, inverted), maxNumbers);
    NoMembers(vec);
    if |m| == maxNumbers && low <= m {
      SubsetSize(low, m);
    }
  }

  lemma NoMembers(vec: seq<u32>)
    ensures vec == [] ==> Members(vec) == {}
  {
  }

  // For sets of numbers below the limit only two kinds of sets go wrong: the inverted full set is
  // called complete, and an inverted set that is empty but has kept its slots is not.
  lemma CompletenessInRange(vec: seq<u32>, inverted: bool, maxNumbers: nat)
    requires Members(vec) <= Below(maxNumbers)
    ensures var m := Members(vec);
            var v := SetView(m, inverted);
            (ReportsComplete(v, vec == [], maxNumbers) <==> Complete(v, maxNumbers)) <==>
            maxNumbers == 0 || !inverted || vec == [] || (m != Below(maxNumbers) && m != {})
  {
    hide Members;
    var m := Members(vec);
    CompletenessTest(vec, inverted, maxNumbers);
    BelowSize(maxNumbers);
    if |m| == maxNumbers {
      SubsetSize(m, Below(maxNumbers));
    }
  }

  // A complete set that is not called complete: a number was listed before the set was cleared.
  method MissedComplete(n: nat, maxNumbers: nat) returns (s: NumberSet, r: bool)
    requires maxNumbers > 0
    ensures !r && Complete(s.View(), maxNumbers)
  {
    hide Members;
    s := new NumberSet();
    s.AddNumberToSet(n);
    s.Clear();
    s.Invert();
    r := s.IsCompleteSet(maxNumbers);
  }

  // An incomplete set that is called complete: of the one number below the limit it lacks it.
  method FalselyComplete() returns (s: NumberSet, r: bool)
    ensures r && !Complete(s.View(), 1)
  {
    hide Members;
    s := new NumberSet();
    s.AddNumberToSet(0);
    s.Invert();
    r := s.IsCompleteSet(1);
    assert s.View().members == {0} && !s.View().Contains(0);
  }
}
