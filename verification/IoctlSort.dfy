/** The build-time tool that sorts the ioctl table (src/ioctlsort.c). */
module IoctlSort {
  import opened Common
  import opened Bits

  const IOC_SIZESHIFT: nat := 16
  const IOC_DIRSHIFT: nat := 30
  const MARKED_CODE: u32 := 0xffff_ffff

  // struct ioctlent; an entry whose info is gone is marked for deletion.
  datatype Entry = Entry(info: Option<string>, name: string, dir: u32, typeNr: u32, size: u32) {
    predicate Marked() {
      info.None?
    }

    // code()
    function Code(): u32 {
      Or32(Or32(typeNr, Shl32(size, IOC_SIZESHIFT)), Shl32(dir, IOC_DIRSHIFT))
    }
  }

  // For fields of the sizes the kernel gives them, the code is made of all three of them.
  lemma CodeIsSum(e: Entry)
    requires e.typeNr < Pow2(IOC_SIZESHIFT) && e.size < Pow2(14) && e.dir < 4
    ensures e.Code() == e.typeNr + e.size * Pow2(IOC_SIZESHIFT) + e.dir * Pow2(IOC_DIRSHIFT)
  {
    hide BitOr, Pow2;
    FieldPowers();
    var size, dir := e.size * 0x1_0000, e.dir * 0x4000_0000;
    assert e.size * Pow2(16) == size && e.dir * Pow2(30) == dir;
    assert Shl32(e.size, 16) == size && Shl32(e.dir, 30) == dir;
    OrDisjoint(e.typeNr, e.size, 16);
    OrDisjoint(e.typeNr + size, e.dir, 30);
  }

  lemma FieldPowers()
    ensures Pow2(14) == 0x4000 && Pow2(16) == 0x1_0000 && Pow2(30) == 0x4000_0000
  {
    Pow2Values();
    assert Pow2(12) == 4096;
    Pow2Sum(14, 16);
  }

  // ---- strcmp and prefixes ----

  // strcmp(a, b) < 0
  predicate Before(a: string, b: string) {
    b != [] && (a == [] || a[0] < b[0] || (a[0] == b[0] && Before(a[1..], b[1..])))
  }

  // a and b differ first at i, where a ends or has the smaller character.
  predicate FirstDiffer(a: string, b: string, i: nat) {
    i <= |a| && i < |b| && a[..i] == b[..i] && (i == |a| || a[i] < b[i])
  }

  // The order is the lexicographic one.
  lemma {:induction false} BeforeExactly(a: string, b: string)
    ensures Before(a, b) <==> exists i: nat :: FirstDiffer(a, b, i)
  {
    if a != [] && b != [] && a[0] == b[0] {
      BeforeExactly(a[1..], b[1..]);
      if i: nat :| FirstDiffer(a[1..], b[1..], i) {
        assert a[..i + 1] == [a[0]] + a[1..][..i] && b[..i + 1] == [b[0]] + b[1..][..i];
        assert FirstDiffer(a, b, i + 1);
      }
      if i: nat :| FirstDiffer(a, b, i) {
        assert i > 0;
        assert a[1..][..i - 1] == a[..i][1..] && b[1..][..i - 1] == b[..i][1..];
        assert FirstDiffer(a[1..], b[1..], i - 1);
      }
    } else {
      assert FirstDiffer(a, b, 0) <==> Before(a, b);
      assert forall i: nat | i > 0 && FirstDiffer(a, b, i) :: a[..i][0] == b[..i][0];
    }
  }

  lemma PrefixAtMost(a: string, b: string)
    requires a <= b
    ensures AtMost(a, b)
  {
    if a != b {
      BeforeExactly(a, b);
      assert FirstDiffer(a, b, |a|);
    }
  }

  // What lies between a string and one that it begins, begins with it as well.
  lemma PrefixBetween(a: string, m: string, b: string)
    requires a <= b && AtMost(a, m) && AtMost(m, b)
    ensures a <= m
  {
    hide Before;
    if a != m && m != b {
      BeforeExactly(a, m);
      BeforeExactly(m, b);
      var i: nat :| FirstDiffer(a, m, i);
      var j: nat :| FirstDiffer(m, b, j);
      assert forall x :: 0 <= x < i ==> a[..i][x] == m[..i][x];
      assert forall x :: 0 <= x < j ==> m[..j][x] == b[..j][x];
      assert i == |a|;
      assert a == a[..i];
    }
  }

  lemma {:induction false} BeforeTotal(a: string, b: string)
    ensures Before(a, b) || Before(b, a) || a == b
    ensures !(Before(a, b) && Before(b, a))
    ensures !Before(a, a)
  {
    if a != [] && b != [] {
      BeforeTotal(a[1..], b[1..]);
      assert a[0] == b[0] && a[1..] == b[1..] ==> a == [a[0]] + a[1..] == b;
    }
    if a != [] {
      BeforeTotal(a[1..], a[1..]);
    }
  }

  lemma {:induction false} BeforeTransitive(a: string, b: string, c: string)
    requires Before(a, b) && Before(b, c)
    ensures Before(a, c)
  {
    if a != [] && a[0] == b[0] == c[0] {
      BeforeTransitive(a[1..], b[1..], c[1..]);
    }
  }

  // strcmp(a, b) <= 0
  predicate AtMost(a: string, b: string) {
    a == b || Before(a, b)
  }

  lemma AtMostTransitive(a: string, b: string, c: string)
    requires AtMost(a, b) && AtMost(b, c)
    ensures AtMost(a, c)
    ensures Before(a, b) || Before(b, c) ==> Before(a, c)
  {
    if a != b && b != c {
      BeforeTransitive(a, b, c);
    }
  }

  // ---- the comparators ----

  const ASM: string := "asm/"
  const ASM_GENERIC: string := "asm-generic/"

  // compare_name_info(a, b) <= 0.  It is only applied before any entry is marked.
  predicate NameInfoLeq(a: Entry, b: Entry) {
    if a.name != b.name then Before(a.name, b.name)
    else
      a.info.Some? && b.info.Some? &&
      (if ASM <= a.info.value && ASM_GENERIC <= b.info.value then true
       else if ASM <= b.info.value && ASM_GENERIC <= a.info.value then false
       else AtMost(a.info.value, b.info.value))
  }

  // compare_code_name(a, b) <= 0
  predicate CodeNameLeq(a: Entry, b: Entry) {
    a.Code() < b.Code() || (a.Code() == b.Code() && AtMost(a.name, b.name))
  }

  ghost predicate Total(leq: (Entry, Entry) -> bool, s: seq<Entry>) {
    forall x, y :: x in s && y in s ==> leq(x, y) || leq(y, x)
  }

  ghost predicate Transitive(leq: (Entry, Entry) -> bool, s: seq<Entry>) {
    forall x, y, z :: x in s && y in s && z in s && leq(x, y) && leq(y, z) ==> leq(x, z)
  }

  ghost predicate Unmarked(s: seq<Entry>) {
    forall e :: e in s ==> !e.Marked()
  }

  // For some name, a third info lies strictly between an asm-generic/ one and an asm/ one.
  ghost predicate ThirdBetween(s: seq<Entry>) {
    exists g, o, a :: g in s && o in s && a in s && Between(g, o, a)
  }

  predicate Between(g: Entry, o: Entry, a: Entry) {
    && g.name == o.name == a.name
    && g.info.Some? && o.info.Some? && a.info.Some?
    && ASM_GENERIC <= g.info.value && ASM <= a.info.value
    && !(ASM_GENERIC <= o.info.value) && !(ASM <= o.info.value)
    && Before(g.info.value, o.info.value) && Before(o.info.value, a.info.value)
  }

  // No string starts with both prefixes.
  lemma PrefixesDisjoint(s: string)
    ensures !(ASM <= s && ASM_GENERIC <= s)
  {
    assert ASM[3] != ASM_GENERIC[3];
  }

  lemma NameInfoTransitive(x: Entry, y: Entry, z: Entry)
    requires !x.Marked() && !y.Marked() && !z.Marked()
    requires NameInfoLeq(x, y) && NameInfoLeq(y, z)
    requires !Between(x, y, z) && !Between(y, z, x) && !Between(z, x, y)
    ensures NameInfoLeq(x, z)
  {
    hide Before;
    BeforeTotal(x.name, y.name);
    BeforeTotal(y.name, z.name);
    if x.name == y.name == z.name {
      var a, b, c := x.info.value, y.info.value, z.info.value;
      PrefixesDisjoint(a);
      PrefixesDisjoint(b);
      PrefixesDisjoint(c);
      BeforeTotal(a, b);
      BeforeTotal(b, c);
      BeforeTotal(a, c);
      if AtMost(a, b) && AtMost(b, c) {
        AtMostTransitive(a, b, c);
      }
    } else if x.name != y.name && y.name != z.name {
      BeforeTransitive(x.name, y.name, z.name);
    }
  }

  // compare_name_info orders the entries consistently exactly when no third info lies between.
  lemma ComparatorConsistent(s: seq<Entry>)
    requires Unmarked(s)
    ensures Total(NameInfoLeq, s)
    ensures Transitive(NameInfoLeq, s) <==> !ThirdBetween(s)
  {
    forall x, y | x in s && y in s
      ensures NameInfoLeq(x, y) || NameInfoLeq(y, x)
    {
      BeforeTotal(x.name, y.name);
      BeforeTotal(x.info.value, y.info.value);
      PrefixesDisjoint(x.info.value);
      PrefixesDisjoint(y.info.value);
    }
    if ThirdBetween(s) {
      var g, o, a :| g in s && o in s && a in s && Between(g, o, a);
      assert NameInfoLeq(a, g) && NameInfoLeq(g, o);
      BeforeTotal(o.info.value, a.info.value);
      assert !NameInfoLeq(a, o);
    } else {
      forall x, y, z | x in s && y in s && z in s && NameInfoLeq(x, y) && NameInfoLeq(y, z)
        ensures NameInfoLeq(x, z)
      {
        NameInfoTransitive(x, y, z);
      }
    }
  }

  lemma CodeNameConsistent(s: seq<Entry>)
    ensures Total(CodeNameLeq, s) && Transitive(CodeNameLeq, s)
  {
    forall x, y | x in s && y in s
      ensures CodeNameLeq(x, y) || CodeNameLeq(y, x)
    {
      BeforeTotal(x.name, y.name);
    }
    forall x, y, z | x in s && y in s && z in s && CodeNameLeq(x, y) && CodeNameLeq(y, z)
      ensures CodeNameLeq(x, z)
    {
      if x.Code() == y.Code() == z.Code() {
        AtMostTransitive(x.name, y.name, z.name);
      }
    }
  }

  lemma {:induction false} BeforeAfterPrefix(p: string, a: string, b: string)
    requires Before(a, b)
    ensures Before(p + a, p + b)
  {
    if p == [] {
      assert p + a == a && p + b == b;
    } else {
      BeforeAfterPrefix(p[1..], a, b);
      assert (p + a)[1..] == p[1..] + a && (p + b)[1..] == p[1..] + b;
    }
  }

  // An input on which the comparator goes round in a circle: "asm-generic/i.h", "asm-x/i.h" and
  // "asm/i.h" for one name.
  lemma CyclicExample(name: string)
    ensures var s := [Entry(Some(ASM_GENERIC + "i.h"), name, 0, 0, 0), Entry(Some("asm-" + "x/i.h"), name, 0, 0, 0),
                      Entry(Some(ASM + "i.h"), name, 0, 0, 0)];
            ThirdBetween(s) && !Transitive(NameInfoLeq, s)
  {
    var g, o, a := ASM_GENERIC + "i.h", "asm-" + "x/i.h", ASM + "i.h";
    var s := [Entry(Some(g), name, 0, 0, 0), Entry(Some(o), name, 0, 0, 0), Entry(Some(a), name, 0, 0, 0)];
    BeforeAfterPrefix("asm-", "generic/i.h", "x/i.h");
    assert g == "asm-" + "generic/i.h";
    BeforeAfterPrefix("asm", "-x/i.h", "/i.h");
    assert o == "asm" + "-x/i.h" && a == "asm" + "/i.h";
    assert o[3] != ASM[3] && o[4] != ASM_GENERIC[4];
    assert Between(s[0], s[1], s[2]);
    assert s[0] in s && s[1] in s && s[2] in s;
    ComparatorConsistent(s);
  }

  // ---- qsort ----

  // All that qsort promises: a rearrangement, in which no neighbours are out of order if the
  // comparator orders the elements consistently.
  ghost predicate QsortResult(leq: (Entry, Entry) -> bool, before: seq<Entry>, after: seq<Entry>) {
    && multiset(after) == multiset(before)
    && (Transitive(leq, before) ==> InOrder(leq, after))
  }

  ghost predicate InOrder(leq: (Entry, Entry) -> bool, s: seq<Entry>) {
    forall i :: 0 < i < |s| ==> leq(s[i - 1], s[i])
  }

  // One way to sort; callers rely on the contract alone.
  method Qsort(a: array<Entry>, leq: (Entry, Entry) -> bool)
    requires Total(leq, a[..])
    modifies a
    ensures QsortResult(leq, old(a[..]), a[..])
  {
    hide Total, Transitive, InOrder;
    var sorted := InsertionSort(a[..], leq);
    assert |sorted| == |multiset(sorted)| == |multiset(a[..])|;
    forall i | 0 <= i < a.Length {
      a[i] := sorted[i];
    }
    assert a[..] == sorted;
  }

  function InsertionSort(s: seq<Entry>, leq: (Entry, Entry) -> bool): (sorted: seq<Entry>)
    requires Total(leq, s)
    ensures multiset(sorted) == multiset(s) && InOrder(leq, sorted)
  {
    if s == [] then []
    else
      var init, last := s[..|s| - 1], s[|s| - 1];
      assert s == init + [last];
      MultisetMembers(InsertionSort(init, leq), init);
      InsertEntry(InsertionSort(init, leq), last, leq, s)
  }

  lemma MultisetMembers(s: seq<Entry>, t: seq<Entry>)
    requires multiset(s) == multiset(t)
    ensures forall e :: e in s <==> e in t
  {
    forall e
      ensures e in s <==> e in t
    {
      assert e in s <==> e in multiset(s);
      assert e in t <==> e in multiset(t);
    }
  }

  function InsertEntry(s: seq<Entry>, e: Entry, leq: (Entry, Entry) -> bool, ghost all: seq<Entry>): (r: seq<Entry>)
    requires Total(leq, all) && e in all && forall x :: x in s ==> x in all
    requires InOrder(leq, s)
    ensures multiset(r) == multiset(s) + multiset{e}
    ensures InOrder(leq, r)
    ensures |r| == |s| + 1 && (r[0] == e || (s != [] && r[0] == s[0]))
  {
    if s == [] || leq(e, s[0]) then [e] + s
    else
      assert s == [s[0]] + s[1..] && leq(s[0], e);
      [s[0]] + InsertEntry(s[1..], e, leq, all)
  }

  // A sequence without neighbours out of order is sorted, if the comparator is transitive.
  lemma {:induction false} Sorted(leq: (Entry, Entry) -> bool, s: seq<Entry>, i: nat, j: nat)
    requires Transitive(leq, s) && InOrder(leq, s) && i < j < |s|
    ensures leq(s[i], s[j])
  {
    if i + 1 < j {
      Sorted(leq, s, i, j - 1);
    }
    assert leq(s[j - 1], s[j]);
  }

  // ---- duplicates ----

  function MarkedEntry(name: string): Entry {
    Entry(None, name, UINT_MAX, UINT_MAX, UINT_MAX)
  }

  lemma MarkedCode(name: string)
    ensures MarkedEntry(name).Code() == MARKED_CODE
  {
  }

  predicate Duplicate(s: seq<Entry>, i: nat)
    requires i < |s|
  {
    i > 0 && s[i - 1].name == s[i].name
  }

  function MarkDuplicates(s: seq<Entry>): (r: seq<Entry>)
    ensures |r| == |s|
  {
    seq(|s|, i requires 0 <= i < |s| => if Duplicate(s, i) then MarkedEntry(s[i].name) else s[i])
  }

  // The definition to keep for its name: the first one, asm/ before asm-generic/.
  ghost predicate IsKept(k: Entry, input: seq<Entry>) {
    k in input && forall e :: e in input && e.name == k.name ==> NameInfoLeq(k, e)
  }

  // An asm-generic/ definition is kept only for lack of an asm/ one; apart from these two, the
  // definition whose info comes first is kept.
  lemma KeptInfo(k: Entry, e: Entry, input: seq<Entry>)
    requires IsKept(k, input) && e in input && e.name == k.name && !e.Marked() && !k.Marked()
    ensures ASM_GENERIC <= k.info.value ==> !(ASM <= e.info.value)
    ensures AtMost(k.info.value, e.info.value) || (ASM <= k.info.value && ASM_GENERIC <= e.info.value)
  {
    PrefixesDisjoint(k.info.value);
    PrefixesDisjoint(e.info.value);
  }

  ghost predicate SortedByName(s: seq<Entry>) {
    && Unmarked(s)
    && Transitive(NameInfoLeq, s)
    && InOrder(NameInfoLeq, s)
  }

  // Every entry has an unmarked one of its name at or before it.
  lemma {:induction false} FirstOfName(s: seq<Entry>, i: nat) returns (j: nat)
    requires i < |s|
    ensures j <= i && !Duplicate(s, j) && s[j].name == s[i].name
  {
    if Duplicate(s, i) {
      j := FirstOfName(s, i - 1);
    } else {
      j := i;
    }
  }

  // The entries that survive the marking are the ones to keep, one for every name.
  lemma UnmarkedAreKept(s: seq<Entry>, j: nat)
    requires SortedByName(s) && j < |s| && !Duplicate(s, j)
    ensures IsKept(s[j], s)
  {
    hide NameInfoLeq;
    NamesInOrder(s);
    forall e | e in s && e.name == s[j].name
      ensures NameInfoLeq(s[j], e)
    {
      var i :| 0 <= i < |s| && s[i] == e;
      if i < j {
        NamesBetween(s, i, j - 1, j);
      } else if j < i {
        Sorted(NameInfoLeq, s, j, i);
      } else {
        NameInfoSame(e);
      }
    }
  }

  lemma NameInfoSame(e: Entry)
    requires !e.Marked()
    ensures NameInfoLeq(e, e)
  {
    PrefixesDisjoint(e.info.value);
  }

  predicate NameLeq(a: Entry, b: Entry) {
    AtMost(a.name, b.name)
  }

  lemma NameLeqTransitive(s: seq<Entry>)
    ensures Transitive(NameLeq, s)
  {
    hide Before;
    forall x, y, z | x in s && y in s && z in s && NameLeq(x, y) && NameLeq(y, z)
      ensures NameLeq(x, z)
    {
      AtMostTransitive(x.name, y.name, z.name);
    }
  }

  // Equal names stand together once the names are in order.
  lemma NamesBetween(s: seq<Entry>, i: nat, k: nat, j: nat)
    requires InOrder(NameLeq, s) && i <= k < j < |s| && s[i].name == s[j].name
    ensures s[k].name == s[j].name
  {
    hide Before;
    if i < k {
      NameLeqTransitive(s);
      Sorted(NameLeq, s, i, k);
      Sorted(NameLeq, s, k, j);
      BeforeTotal(s[i].name, s[k].name);
    }
  }

  lemma NamesInOrder(s: seq<Entry>)
    requires InOrder(NameInfoLeq, s)
    ensures InOrder(NameLeq, s)
  {
  }

  // ---- the emitted table ----

  datatype TableEntry = TableEntry(symbol: string, code: u32)

  // The entries printed for the first n entries of the sorted array.
  function Printed(s: seq<Entry>, n: nat): seq<TableEntry>
    requires n <= |s|
  {
    if n == 0 then []
    else Printed(s, n - 1) + (if Suppressed(s, n - 1) then [] else [TableEntry(s[n - 1].name, s[n - 1].Code())])
  }

  // is_prefix(ioctls[i-1].name, ioctls[i].name) and equal codes
  predicate Suppressed(s: seq<Entry>, i: nat)
    requires i < |s|
  {
    i > 0 && s[i - 1].Code() == s[i].Code() && s[i - 1].name <= s[i].name
  }

  // The loop stops at the first marked entry.
  ghost predicate CutOff(s: seq<Entry>, n: nat) {
    && n <= |s|
    && (forall i :: 0 <= i < n ==> !s[i].Marked())
    && (n < |s| ==> s[n].Marked())
  }

  ghost predicate SortedTable(t: seq<TableEntry>) {
    forall i, j :: 0 <= i < j < |t| ==> t[i].code <= t[j].code
  }

  // Some entry of the table has the code, under the name or a prefix of it.
  ghost predicate Represented(t: seq<TableEntry>, k: Entry) {
    exists i :: 0 <= i < |t| && t[i].code == k.Code() && t[i].symbol <= k.name
  }

  // The places of the printed entries.
  ghost function PrintedAt(s: seq<Entry>, n: nat): seq<nat>
    requires n <= |s|
  {
    if n == 0 then [] else PrintedAt(s, n - 1) + (if Suppressed(s, n - 1) then [] else [n - 1])
  }

  ghost predicate Increasing(at: seq<nat>, n: nat) {
    (forall j :: 0 <= j < |at| ==> at[j] < n) && forall j, k :: 0 <= j < k < |at| ==> at[j] < at[k]
  }

  // The table holds, in order, the entries at the given places.
  ghost predicate Selects(s: seq<Entry>, at: seq<nat>, t: seq<TableEntry>) {
    && |at| == |t|
    && forall j :: 0 <= j < |at| ==> at[j] < |s| && t[j] == TableEntry(s[at[j]].name, s[at[j]].Code())
  }

  // Printed are, in order and once each, the entries that do not continue the name of their
  // immediate predecessor with the same code.
  lemma {:induction false} PrintedExactly(s: seq<Entry>, n: nat)
    requires n <= |s|
    ensures Increasing(PrintedAt(s, n), n) && Selects(s, PrintedAt(s, n), Printed(s, n))
  {
    hide Entry.Code, Suppressed, Increasing, Selects;
    NoneSelected(s);
    if n > 0 {
      PrintedExactly(s, n - 1);
      OneMoreSelected(s, PrintedAt(s, n - 1), Printed(s, n - 1), n - 1);
      assert Suppressed(s, n - 1) ==> PrintedAt(s, n) == PrintedAt(s, n - 1) && Printed(s, n) == Printed(s, n - 1);
    }
  }

  lemma NoneSelected(s: seq<Entry>)
    ensures Increasing([], 0) && Selects(s, [], [])
  {
  }

  lemma OneMoreSelected(s: seq<Entry>, at: seq<nat>, t: seq<TableEntry>, i: nat)
    requires i < |s| && Increasing(at, i) && Selects(s, at, t)
    ensures Increasing(at, i + 1) && Increasing(at + [i], i + 1)
    ensures Selects(s, at + [i], t + [TableEntry(s[i].name, s[i].Code())])
  {
    hide Entry.Code;
  }

  lemma {:induction false} PrintedPlaces(s: seq<Entry>, n: nat, i: nat)
    requires i < n <= |s|
    ensures i in PrintedAt(s, n) <==> i == 0 || s[i - 1].Code() != s[i].Code() || !(s[i - 1].name <= s[i].name)
  {
    hide Entry.Code, Printed;
    if i < n - 1 {
      PrintedPlaces(s, n - 1, i);
    } else {
      PrintedExactly(s, n - 1);
      var at := PrintedAt(s, n - 1);
      assert forall j :: 0 <= j < |at| ==> at[j] < i;
    }
  }

  lemma {:induction false} PrintedRepresents(s: seq<Entry>, n: nat, i: nat)
    requires i < n <= |s|
    ensures Represented(Printed(s, n), s[i])
  {
    hide Entry.Code;
    var t := Printed(s, n - 1);
    if i < n - 1 {
      PrintedRepresents(s, n - 1, i);
      var j :| 0 <= j < |t| && t[j].code == s[i].Code() && t[j].symbol <= s[i].name;
      assert Printed(s, n)[j] == t[j];
    } else if Suppressed(s, i) {
      PrintedRepresents(s, n - 1, i - 1);
      var j :| 0 <= j < |t| && t[j].code == s[i - 1].Code() && t[j].symbol <= s[i - 1].name;
      assert Printed(s, n) == t;
      assert t[j].symbol <= s[i].name;
    } else {
      assert Printed(s, n)[|t|] == TableEntry(s[i].name, s[i].Code());
    }
  }

  lemma {:induction false} PrintedSound(s: seq<Entry>, n: nat, j: nat) returns (i: nat)
    requires n <= |s| && j < |Printed(s, n)|
    ensures i < n && Printed(s, n)[j] == TableEntry(s[i].name, s[i].Code())
    ensures i == 0 || s[i - 1].Code() != s[i].Code() || !(s[i - 1].name <= s[i].name)
  {
    hide Entry.Code;
    if j < |Printed(s, n - 1)| {
      i := PrintedSound(s, n - 1, j);
    } else {
      i := n - 1;
    }
  }

  ghost predicate SortedByCode(s: seq<Entry>) {
    InOrder(CodeNameLeq, s)
  }

  lemma CodesSorted(s: seq<Entry>, i: nat, j: nat)
    requires SortedByCode(s) && i < j < |s|
    ensures s[i].Code() <= s[j].Code()
  {
    hide Entry.Code;
    CodeNameConsistent(s);
    Sorted(CodeNameLeq, s, i, j);
  }

  lemma {:induction false} PrintedSorted(s: seq<Entry>, n: nat)
    requires SortedByCode(s) && n <= |s|
    ensures SortedTable(Printed(s, n))
  {
    hide Entry.Code, SortedByCode;
    if n > 0 {
      PrintedSorted(s, n - 1);
      var t := Printed(s, n - 1);
      forall j | 0 <= j < |t|
        ensures t[j].code <= s[n - 1].Code()
      {
        var i := PrintedSound(s, n - 1, j);
        CodesSorted(s, i, n - 1);
      }
    }
  }

  // ---- what suppression leaves ----

  // An entry of the table continues the name of an earlier one with the same code.
  ghost predicate Redundant(t: seq<TableEntry>) {
    exists j, k :: 0 <= j < k < |t| && t[j].code == t[k].code && t[j].symbol <= t[k].symbol
  }

  // Two names continue a third one with the same code, but not each other.
  predicate Fork(a: Entry, b: Entry, c: Entry) {
    && a.Code() == b.Code() == c.Code()
    && a.name <= b.name && a.name <= c.name
    && !(b.name <= c.name) && !(c.name <= b.name)
  }

  ghost predicate Forked(s: seq<Entry>, n: nat)
    requires n <= |s|
  {
    exists a, b, c :: 0 <= a < n && 0 <= b < n && 0 <= c < n && Fork(s[a], s[b], s[c])
  }

  // Suppression looks at the immediate predecessor only: it leaves no redundant entry exactly if
  // no name forks.
  lemma RedundantExactly(s: seq<Entry>, n: nat)
    requires SortedByCode(s) && n <= |s|
    ensures Redundant(Printed(s, n)) <==> Forked(s, n)
  {
    hide Entry.Code, Printed, PrintedAt, SortedByCode;
    if Redundant(Printed(s, n)) {
      RedundantForks(s, n);
    }
    if Forked(s, n) {
      var a, b, c :| 0 <= a < n && 0 <= b < n && 0 <= c < n && Fork(s[a], s[b], s[c]);
      ForkIsRedundant(s, n, a, b, c);
    }
  }

  lemma RedundantForks(s: seq<Entry>, n: nat)
    requires SortedByCode(s) && n <= |s| && Redundant(Printed(s, n))
    ensures Forked(s, n)
  {
    hide Entry.Code, Printed, PrintedAt, SortedByCode, Before;
    PrintedExactly(s, n);
    var t, at := Printed(s, n), PrintedAt(s, n);
    var j, k :| 0 <= j < k < |t| && t[j].code == t[k].code && t[j].symbol <= t[k].symbol;
    var a, c := at[j], at[k];
    var b := c - 1;
    PrintedPlaces(s, n, c);
    SameCodeBetween(s, a, b, c);
    PrefixBetween(s[a].name, s[b].name, s[c].name);
    if s[c].name <= s[b].name {
      PrefixAtMost(s[c].name, s[b].name);
      BeforeTotal(s[b].name, s[c].name);
    }
    assert Fork(s[a], s[b], s[c]);
  }

  // Between two entries with the same code the names are in order.
  lemma SameCodeBetween(s: seq<Entry>, a: nat, b: nat, c: nat)
    requires SortedByCode(s) && a <= b <= c < |s| && s[a].Code() == s[c].Code()
    ensures s[a].Code() == s[b].Code() && AtMost(s[a].name, s[b].name) && AtMost(s[b].name, s[c].name)
  {
    hide Entry.Code, Before;
    CodeNameConsistent(s);
    if a < b {
      Sorted(CodeNameLeq, s, a, b);
    }
    if b < c {
      Sorted(CodeNameLeq, s, b, c);
    }
  }

  lemma ForkIsRedundant(s: seq<Entry>, n: nat, a: nat, b: nat, c: nat)
    requires SortedByCode(s) && n <= |s| && a < n && b < n && c < n && Fork(s[a], s[b], s[c])
    ensures Redundant(Printed(s, n))
  {
    hide Entry.Code, Printed, PrintedAt, SortedByCode, Before;
    var lo, hi := if b < c then b else c, if b < c then c else b;
    var i := Unchained(s, lo, hi);
    NotAfter(s, a, lo);
    SameCodeBetween(s, lo, i, hi);
    SameCodeBetween(s, lo, i - 1, hi);
    SameCodeBetween(s, a, i, hi);
    PrefixBetween(s[a].name, s[i].name, s[hi].name);
    EarlierPrefix(s, n, a, i);
  }

  // If a name does not begin a later one, some name in between does not begin its successor.
  lemma {:induction false} Unchained(s: seq<Entry>, lo: nat, hi: nat) returns (i: nat)
    requires lo < hi < |s| && !(s[lo].name <= s[hi].name)
    ensures lo < i <= hi && !(s[i - 1].name <= s[i].name)
  {
    if s[hi - 1].name <= s[hi].name {
      i := Unchained(s, lo, hi - 1);
    } else {
      i := hi;
    }
  }

  // A proper prefix with the same code comes earlier.
  lemma NotAfter(s: seq<Entry>, a: nat, b: nat)
    requires SortedByCode(s) && a < |s| && b < |s|
    requires s[a].Code() == s[b].Code() && s[a].name <= s[b].name && s[a].name != s[b].name
    ensures a < b
  {
    hide Entry.Code, Before;
    if b < a {
      SameCodeBetween(s, b, b, a);
      PrefixAtMost(s[a].name, s[b].name);
      BeforeTotal(s[a].name, s[b].name);
    }
  }

  // A printed entry that continues an earlier name with the same code is redundant.
  lemma EarlierPrefix(s: seq<Entry>, n: nat, a: nat, i: nat)
    requires SortedByCode(s) && a < i < n <= |s|
    requires s[a].Code() == s[i].Code() && s[a].name <= s[i].name && !(s[i - 1].name <= s[i].name)
    ensures Redundant(Printed(s, n))
  {
    hide Entry.Code, Printed, PrintedAt, SortedByCode;
    PrintedExactly(s, n);
    var t, at := Printed(s, n), PrintedAt(s, n);
    PrintedPlaces(s, n, i);
    var k :| 0 <= k < |at| && at[k] == i;
    var p := PrintedPrefix(s, n, a);
    var j :| 0 <= j < |at| && at[j] == p;
    assert j < k;
  }

  // Every entry has a printed one at or before it, with its code and a prefix of its name.
  lemma {:induction false} PrintedPrefix(s: seq<Entry>, n: nat, a: nat) returns (p: nat)
    requires a < n <= |s|
    ensures p <= a && p in PrintedAt(s, n) && s[p].Code() == s[a].Code() && s[p].name <= s[a].name
  {
    hide Entry.Code, Printed, PrintedAt;
    PrintedPlaces(s, n, a);
    if a in PrintedAt(s, n) {
      p := a;
    } else {
      p := PrintedPrefix(s, n, a - 1);
    }
  }

  // "AC" is printed although "A" is: its immediate predecessor is "AB".
  lemma SuppressionExample()
    ensures var s := [Entry(Some("i.h"), "A", 0, 0, 0), Entry(Some("i.h"), "AB", 0, 0, 0),
                      Entry(Some("i.h"), "AC", 0, 0, 0)];
            && SortedByCode(s) && Redundant(Printed(s, 3))
            && Printed(s, 3) == [TableEntry("A", s[0].Code()), TableEntry("AC", s[0].Code())]
  {
    hide Before;
    var s := [Entry(Some("i.h"), "A", 0, 0, 0), Entry(Some("i.h"), "AB", 0, 0, 0), Entry(Some("i.h"), "AC", 0, 0, 0)];
    BeforeExactly("A", "AB");
    assert FirstDiffer("A", "AB", 1);
    BeforeExactly("AB", "AC");
    assert FirstDiffer("AB", "AC", 1);
    assert s[1].Code() == s[0].Code() && s[2].Code() == s[0].Code();
    assert !Suppressed(s, 0) && Suppressed(s, 1) && !Suppressed(s, 2);
    var t := Printed(s, 3);
    assert Printed(s, 1) == [TableEntry("A", s[0].Code())] && Printed(s, 2) == Printed(s, 1);
    assert t[0].symbol == "A" && t[1].symbol == "AC";
  }

  // ---- where printing stops ----

  ghost predicate MarksAreMax(s: seq<Entry>) {
    forall m :: m in s && m.Marked() ==> m.Code() == MARKED_CODE
  }

  // A marked entry stops the loop only behind every entry that sorts before it.
  lemma NotCutOff(s: seq<Entry>, n: nat, i: nat)
    requires SortedByCode(s) && MarksAreMax(s) && CutOff(s, n) && i < |s| && !s[i].Marked()
    requires s[i].Code() == MARKED_CODE ==> forall m :: m in s && m.Marked() ==> Before(s[i].name, m.name)
    ensures i < n
  {
    hide Entry.Code;
    if n < i {
      CodeNameConsistent(s);
      Sorted(CodeNameLeq, s, n, i);
      BeforeTotal(s[n].name, s[i].name);
    }
  }

  // ---- the loops ----

  // The loop that prints the table.
  method PrintTable(ioctls: array<Entry>) returns (table: seq<TableEntry>, n: nat)
    ensures CutOff(ioctls[..], n) && table == Printed(ioctls[..], n)
  {
    hide Entry.Code;
    table := [];
    var i := 0;
    while i < ioctls.Length && !ioctls[i].Marked()
      invariant 0 <= i <= ioctls.Length
      invariant forall j :: 0 <= j < i ==> !ioctls[j].Marked()
      invariant table == Printed(ioctls[..], i)
    {
      if i == 0 || ioctls[i - 1].Code() != ioctls[i].Code() || !(ioctls[i - 1].name <= ioctls[i].name) {
        table := table + [TableEntry(ioctls[i].name, ioctls[i].Code())];
      }
      i := i + 1;
    }
    n := i;
  }

  // An entry after the first loop that marks duplicates, and after the second.

  function Dropped(s: seq<Entry>, i: nat): Entry
    requires i < |s|
  {
    if Duplicate(s, i) then s[i].(info := None) else s[i]
  }

  lemma MarkedAt(s: seq<Entry>, i: nat)
    requires i < |s| && Unmarked(s)
    ensures Dropped(s, i).Marked() <==> Duplicate(s, i)
    ensures MarkDuplicates(s)[i] ==
            if Duplicate(s, i) then Dropped(s, i).(dir := UINT_MAX, typeNr := UINT_MAX, size := UINT_MAX) else Dropped(s, i)
    ensures !Duplicate(s, 0)
  {
    hide Entry.Code;
    assert s[i] in s;
  }

  // The two loops that mark duplicates and give them the highest code.
  method MarkAll(ioctls: array<Entry>)
    requires Unmarked(ioctls[..])
    modifies ioctls
    ensures ioctls[..] == MarkDuplicates(old(ioctls[..]))
  {
    hide Entry.Code, Duplicate, MarkDuplicates, Dropped, Unmarked;
    ghost var named := ioctls[..];
    ghost var marked := MarkDuplicates(named);
    DropInfo(ioctls);
    if ioctls.Length > 0 {
      MarkedAt(named, 0);
    }
    var i := 1;
    while i < ioctls.Length
      invariant 1 <= i
      invariant forall j :: 0 <= j < ioctls.Length ==> ioctls[j] == if j < i then marked[j] else Dropped(named, j)
    {
      MarkedAt(named, i);
      if ioctls[i].Marked() {
        ioctls[i] := ioctls[i].(dir := UINT_MAX, typeNr := UINT_MAX, size := UINT_MAX);
      }
      i := i + 1;
    }
  }

  method DropInfo(ioctls: array<Entry>)
    modifies ioctls
    ensures forall j :: 0 <= j < ioctls.Length ==> ioctls[j] == Dropped(old(ioctls[..]), j)
  {
    hide Entry.Code;
    ghost var named := ioctls[..];
    var i := 1;
    while i < ioctls.Length
      invariant 1 <= i
      invariant forall j :: 0 <= j < ioctls.Length ==> ioctls[j] == if j < i then Dropped(named, j) else named[j]
    {
      if ioctls[i - 1].name == ioctls[i].name {
        ioctls[i] := ioctls[i].(info := None);
      }
      i := i + 1;
    }
  }
}
