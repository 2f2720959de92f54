/** The table that ioctlsort() makes of its input (src/ioctlsort.c:86-129), whatever choices qsort
    leaves open.
 */
module IoctlTable {
  import opened Common
  import opened Bits
  import opened IoctlSort

  // The stages between the input and the table: sorted by name, then marked and sorted by code.
  ghost predicate Stages(input: seq<Entry>, named: seq<Entry>, coded: seq<Entry>) {
    && Unmarked(input)
    && QsortResult(NameInfoLeq, input, named)
    && QsortResult(CodeNameLeq, MarkDuplicates(named), coded)
  }

  // A table that the input may be turned into, `named` being the result of the first sort.
  ghost predicate Outcome(input: seq<Entry>, named: seq<Entry>, table: seq<TableEntry>) {
    exists coded, n :: Stages(input, named, coded) && CutOff(coded, n) && table == Printed(coded, n)
  }

  // An entry that is not marked for deletion.
  ghost predicate Survives(named: seq<Entry>, k: Entry) {
    exists i :: 0 <= i < |named| && !Duplicate(named, i) && named[i] == k
  }

  // Every definition that is not marked for deletion is represented in the table.
  ghost predicate AllRepresented(named: seq<Entry>, table: seq<TableEntry>) {
    forall k :: Survives(named, k) ==> Represented(table, k)
  }

  // The definitions that may survive for their name: the ones to keep or, if the comparator goes
  // round in a circle, any.
  ghost predicate MayBeKept(k: Entry, input: seq<Entry>) {
    if ThirdBetween(input) then k in input else IsKept(k, input)
  }

  lemma StagesMembers(input: seq<Entry>, named: seq<Entry>, coded: seq<Entry>)
    requires Stages(input, named, coded)
    ensures SortedByCode(coded) && Unmarked(named)
    ensures forall e :: e in named <==> e in input
    ensures forall e :: e in coded <==> e in MarkDuplicates(named)
    ensures !ThirdBetween(input) ==> SortedByName(named)
  {
    hide NameInfoLeq, CodeNameLeq, InOrder, ThirdBetween, MarkDuplicates;
    MultisetMembers(named, input);
    MultisetMembers(coded, MarkDuplicates(named));
    ComparatorConsistent(input);
    CodeNameConsistent(MarkDuplicates(named));
  }

  // ---- what is in the table ----

  lemma SurvivorMayBeKept(input: seq<Entry>, named: seq<Entry>, coded: seq<Entry>, k: Entry)
    requires Stages(input, named, coded) && Survives(named, k)
    ensures MayBeKept(k, input) && !k.Marked() && k in coded
  {
    hide Entry.Code, NameInfoLeq, CodeNameLeq, Stages, ThirdBetween;
    StagesMembers(input, named, coded);
    var i :| 0 <= i < |named| && !Duplicate(named, i) && named[i] == k;
    assert k in named && MarkDuplicates(named)[i] == k && k in MarkDuplicates(named);
    if !ThirdBetween(input) {
      UnmarkedAreKept(named, i);
    }
  }

  lemma CodedSurvives(input: seq<Entry>, named: seq<Entry>, coded: seq<Entry>, i: nat)
    requires Stages(input, named, coded) && i < |coded| && !coded[i].Marked()
    ensures Survives(named, coded[i])
  {
    hide Entry.Code, NameInfoLeq, CodeNameLeq, Stages, ThirdBetween;
    StagesMembers(input, named, coded);
    var marked := MarkDuplicates(named);
    assert coded[i] in coded;
    var m :| 0 <= m < |marked| && marked[m] == coded[i];
    assert !Duplicate(named, m);
  }

  // Every name of the input has a definition that survives.
  lemma NameSurvives(input: seq<Entry>, named: seq<Entry>, table: seq<TableEntry>, e: Entry) returns (k: Entry)
    requires Outcome(input, named, table) && e in input
    ensures Survives(named, k) && k.name == e.name && MayBeKept(k, input)
  {
    hide Entry.Code, Stages, MayBeKept, Printed;
    var coded: seq<Entry>, n: nat :| Stages(input, named, coded) && CutOff(coded, n) && table == Printed(coded, n);
    StagesMembers(input, named, coded);
    var i :| 0 <= i < |named| && named[i] == e;
    var f := FirstOfName(named, i);
    k := named[f];
    SurvivorMayBeKept(input, named, coded, k);
  }

  ghost predicate FromSurvivor(named: seq<Entry>, te: TableEntry) {
    exists k :: Survives(named, k) && te == TableEntry(k.name, k.Code())
  }

  // A surviving definition with the same code has a proper prefix of the name, and none with the
  // code has a name in between: it is what the entry would come right after.
  ghost predicate Shadowed(named: seq<Entry>, te: TableEntry) {
    exists l :: Survives(named, l) && l.Code() == te.code && Shadows(named, l, te)
  }

  ghost predicate Shadows(named: seq<Entry>, l: Entry, te: TableEntry) {
    && l.name <= te.symbol && l.name != te.symbol
    && forall m :: Survives(named, m) && m.Code() == te.code ==>
         !(Before(l.name, m.name) && Before(m.name, te.symbol))
  }

  // What is printed is not shadowed.
  lemma PrintedStandsAlone(input: seq<Entry>, named: seq<Entry>, coded: seq<Entry>, n: nat, i: nat)
    requires Stages(input, named, coded) && CutOff(coded, n) && i < n
    requires i == 0 || coded[i - 1].Code() != coded[i].Code() || !(coded[i - 1].name <= coded[i].name)
    ensures !Shadowed(named, TableEntry(coded[i].name, coded[i].Code()))
  {
    hide Entry.Code, NameInfoLeq, Stages, ThirdBetween, Survives, Before, SortedByCode, MayBeKept;
    StagesMembers(input, named, coded);
    var te := TableEntry(coded[i].name, coded[i].Code());
    forall l | Survives(named, l) && l.Code() == te.code
      ensures !Shadows(named, l, te)
    {
      SurvivorMayBeKept(input, named, coded, l);
      var c :| 0 <= c < |coded| && coded[c] == l;
      if l.name <= te.symbol && l.name != te.symbol {
        NotAfter(coded, c, i);
        SameCodeBetween(coded, c, i - 1, i);
        CodedSurvives(input, named, coded, i - 1);
        assert coded[i - 1].name != l.name && coded[i - 1].name != te.symbol;
        assert Before(l.name, coded[i - 1].name) && Before(coded[i - 1].name, te.symbol);
      }
    }
  }

  // What is not shadowed is printed, unless it is cut off.
  lemma {:induction false} AloneIsPrinted(input: seq<Entry>, named: seq<Entry>, coded: seq<Entry>, n: nat, i: nat)
    requires Stages(input, named, coded) && CutOff(coded, n) && i < n
    requires !Shadowed(named, TableEntry(coded[i].name, coded[i].Code()))
    ensures TableEntry(coded[i].name, coded[i].Code()) in Printed(coded, n)
  {
    hide Entry.Code, NameInfoLeq, Stages, ThirdBetween, Survives, Before, SortedByCode, MayBeKept, Printed, PrintedAt,
         Shadowed;
    StagesMembers(input, named, coded);
    PrintedExactly(coded, n);
    PrintedPlaces(coded, n, i);
    var at := PrintedAt(coded, n);
    if i in at {
      var j :| 0 <= j < |at| && at[j] == i;
      assert Printed(coded, n)[j] == TableEntry(coded[i].name, coded[i].Code());
    } else {
      PredecessorShadows(input, named, coded, n, i);
      AloneIsPrinted(input, named, coded, n, i - 1);
    }
  }

  // An entry that continues the name of its predecessor is shadowed by it, or has its name.
  lemma PredecessorShadows(input: seq<Entry>, named: seq<Entry>, coded: seq<Entry>, n: nat, i: nat)
    requires Stages(input, named, coded) && CutOff(coded, n) && 0 < i < n
    requires coded[i - 1].Code() == coded[i].Code() && coded[i - 1].name <= coded[i].name
    ensures coded[i - 1].name == coded[i].name || Shadowed(named, TableEntry(coded[i].name, coded[i].Code()))
  {
    hide Entry.Code, NameInfoLeq, Stages, ThirdBetween, Survives, Before, SortedByCode, MayBeKept;
    StagesMembers(input, named, coded);
    var l, te := coded[i - 1], TableEntry(coded[i].name, coded[i].Code());
    CodedSurvives(input, named, coded, i - 1);
    forall m | Survives(named, m) && m.Code() == te.code
      ensures !(Before(l.name, m.name) && Before(m.name, te.symbol))
    {
      SurvivorMayBeKept(input, named, coded, m);
      var c :| 0 <= c < |coded| && coded[c] == m;
      BeforeTotal(l.name, m.name);
      BeforeTotal(m.name, te.symbol);
      if c < i {
        SameCodeBetween(coded, c, i - 1, i);
      } else {
        SameCodeBetween(coded, i - 1, i, c);
      }
    }
  }

  // Exactly which surviving definitions are in the table: those that are not shadowed.
  lemma TableExactly(input: seq<Entry>, named: seq<Entry>, table: seq<TableEntry>, k: Entry)
    requires Outcome(input, named, table) && Survives(named, k) && k.Code() != MARKED_CODE
    ensures TableEntry(k.name, k.Code()) in table <==> !Shadowed(named, TableEntry(k.name, k.Code()))
  {
    hide Entry.Code, NameInfoLeq, Stages, ThirdBetween, Survives, SortedByCode, MayBeKept, Printed, Shadowed;
    var coded: seq<Entry>, n: nat :| Stages(input, named, coded) && CutOff(coded, n) && table == Printed(coded, n);
    var te := TableEntry(k.name, k.Code());
    if te in table {
      var j :| 0 <= j < |table| && table[j] == te;
      var i := PrintedSound(coded, n, j);
      PrintedStandsAlone(input, named, coded, n, i);
    }
    if !Shadowed(named, te) {
      var c := NeverCut(input, named, coded, n, k);
      AloneIsPrinted(input, named, coded, n, c);
    }
  }

  // The place of a survivor with another code than the marked entries.
  lemma NeverCut(input: seq<Entry>, named: seq<Entry>, coded: seq<Entry>, n: nat, k: Entry) returns (c: nat)
    requires Stages(input, named, coded) && CutOff(coded, n) && Survives(named, k) && k.Code() != MARKED_CODE
    ensures c < n && coded[c] == k
  {
    hide Entry.Code, NameInfoLeq, Stages, ThirdBetween, Survives, SortedByCode, MayBeKept;
    StagesMembers(input, named, coded);
    MarksHaveMaxCode(named, coded);
    SurvivorMayBeKept(input, named, coded, k);
    c :| 0 <= c < |coded| && coded[c] == k;
    NotCutOff(coded, n, c);
  }

  // Two surviving names continue a third one with the same code, but not each other.
  ghost predicate SurvivorsFork(named: seq<Entry>) {
    exists a, b, c :: Survives(named, a) && Survives(named, b) && Survives(named, c) && Fork(a, b, c)
  }

  // Without the code of the marked entries, the table has a redundant entry exactly if the
  // surviving names fork.
  lemma TableRedundancy(input: seq<Entry>, named: seq<Entry>, table: seq<TableEntry>)
    requires Outcome(input, named, table) && NoMaxCode(input)
    ensures Redundant(table) <==> SurvivorsFork(named)
  {
    hide Entry.Code, NameInfoLeq, Stages, ThirdBetween, Survives, SortedByCode, MayBeKept, Printed, Redundant, Fork;
    var coded: seq<Entry>, n: nat :| Stages(input, named, coded) && CutOff(coded, n) && table == Printed(coded, n);
    StagesMembers(input, named, coded);
    RedundantExactly(coded, n);
    if Forked(coded, n) {
      var a, b, c :| 0 <= a < n && 0 <= b < n && 0 <= c < n && Fork(coded[a], coded[b], coded[c]);
      CodedSurvives(input, named, coded, a);
      CodedSurvives(input, named, coded, b);
      CodedSurvives(input, named, coded, c);
    }
    if SurvivorsFork(named) {
      var x, y, z :| Survives(named, x) && Survives(named, y) && Survives(named, z) && Fork(x, y, z);
      var a := PlaceOf(input, named, coded, n, x);
      var b := PlaceOf(input, named, coded, n, y);
      var c := PlaceOf(input, named, coded, n, z);
      assert Fork(coded[a], coded[b], coded[c]);
    }
  }

  lemma PlaceOf(input: seq<Entry>, named: seq<Entry>, coded: seq<Entry>, n: nat, k: Entry) returns (c: nat)
    requires Stages(input, named, coded) && CutOff(coded, n) && Survives(named, k) && NoMaxCode(input)
    ensures c < n && coded[c] == k
  {
    hide Entry.Code, Stages, Survives, MayBeKept;
    SurvivorMayBeKept(input, named, coded, k);
    InInput(input, k);
    c := NeverCut(input, named, coded, n, k);
  }

  // Whatever the input, the table is sorted and made of surviving definitions that are not
  // shadowed, and survivors are the ones to keep if the comparator is consistent.
  lemma TableSound(input: seq<Entry>, named: seq<Entry>, table: seq<TableEntry>)
    requires Outcome(input, named, table)
    ensures SortedTable(table)
    ensures forall j :: 0 <= j < |table| ==> FromSurvivor(named, table[j]) && !Shadowed(named, table[j])
    ensures forall k :: Survives(named, k) ==> MayBeKept(k, input)
  {
    hide Entry.Code, Stages, MayBeKept, Survives, SortedTable, Shadowed;
    var coded: seq<Entry>, n: nat :| Stages(input, named, coded) && CutOff(coded, n) && table == Printed(coded, n);
    StagesMembers(input, named, coded);
    PrintedSorted(coded, n);
    forall j | 0 <= j < |table|
      ensures FromSurvivor(named, table[j]) && !Shadowed(named, table[j])
    {
      var i := PrintedSound(coded, n, j);
      CodedSurvives(input, named, coded, i);
      PrintedStandsAlone(input, named, coded, n, i);
    }
    forall k | Survives(named, k)
      ensures MayBeKept(k, input)
    {
      SurvivorMayBeKept(input, named, coded, k);
    }
  }

  lemma MarksHaveMaxCode(named: seq<Entry>, coded: seq<Entry>)
    requires Unmarked(named) && forall e :: e in coded <==> e in MarkDuplicates(named)
    ensures MarksAreMax(coded)
  {
    hide Entry.Code;
    var marked := MarkDuplicates(named);
    forall m | m in coded && m.Marked()
      ensures m.Code() == MARKED_CODE
    {
      var i :| 0 <= i < |marked| && marked[i] == m;
      assert named[i] in named;
      MarkedCode(m.name);
    }
  }

  // ---- repeated names ----

  ghost predicate Repeated(s: seq<Entry>, name: string) {
    exists i, j :: 0 <= i < j < |s| && s[i].name == name && s[j].name == name
  }

  lemma CountTwo(s: seq<Entry>, i: nat, j: nat)
    requires i < j < |s| && s[i] == s[j]
    ensures multiset(s)[s[i]] >= 2
  {
    assert s == s[..i] + [s[i]] + (s[i + 1..j] + [s[j]] + s[j + 1..]);
  }

  lemma {:induction false} TwoIndices(s: seq<Entry>, x: Entry) returns (a: nat, b: nat)
    requires multiset(s)[x] >= 2
    ensures a < b < |s| && s[a] == s[b] == x
  {
    var init, last := s[..|s| - 1], s[|s| - 1];
    assert s == init + [last];
    assert multiset(s) == multiset(init) + multiset{last};
    if last == x {
      assert x in init;
      a :| 0 <= a < |init| && init[a] == x;
      b := |init|;
    } else {
      a, b := TwoIndices(init, x);
    }
  }

  lemma RepeatedPermuted(s: seq<Entry>, t: seq<Entry>, name: string)
    requires multiset(s) == multiset(t) && Repeated(s, name)
    ensures Repeated(t, name)
  {
    var i, j :| 0 <= i < j < |s| && s[i].name == name && s[j].name == name;
    var a, b: nat;
    if s[i] == s[j] {
      CountTwo(s, i, j);
      a, b := TwoIndices(t, s[i]);
    } else {
      MultisetMembers(s, t);
      assert s[i] in s && s[j] in s;
      a :| 0 <= a < |t| && t[a] == s[i];
      b :| 0 <= b < |t| && t[b] == s[j];
    }
    var lo, hi := if a < b then a else b, if a < b then b else a;
    assert 0 <= lo < hi < |t| && t[lo].name == name && t[hi].name == name;
  }

  ghost predicate HasMark(s: seq<Entry>, name: string) {
    exists j :: 0 <= j < |s| && s[j].Marked() && s[j].name == name
  }

  lemma HasMarkPermuted(s: seq<Entry>, t: seq<Entry>, name: string)
    requires forall e :: e in s <==> e in t
    ensures HasMark(s, name) ==> HasMark(t, name)
  {
    if HasMark(s, name) {
      var i :| 0 <= i < |s| && s[i].Marked() && s[i].name == name;
      assert s[i] in s;
      var j :| 0 <= j < |t| && t[j] == s[i];
    }
  }

  // Only repeated names are marked, and all of them if the names are in order.
  lemma DuplicatesRepeat(s: seq<Entry>, name: string)
    requires Unmarked(s)
    ensures HasMark(MarkDuplicates(s), name) ==> Repeated(s, name)
    ensures InOrder(NameLeq, s) && Repeated(s, name) ==> HasMark(MarkDuplicates(s), name)
  {
    hide InOrder;
    var marked := MarkDuplicates(s);
    if HasMark(marked, name) {
      var i :| 0 <= i < |marked| && marked[i].Marked() && marked[i].name == name;
      assert s[i] in s;
      assert 0 <= i - 1 < i < |s| && s[i - 1].name == name && s[i].name == name;
    }
    if InOrder(NameLeq, s) && Repeated(s, name) {
      var i, j :| 0 <= i < j < |s| && s[i].name == name && s[j].name == name;
      NamesBetween(s, i, j - 1, j);
      assert marked[j] == MarkedEntry(name);
    }
  }

  lemma MarkedNames(input: seq<Entry>, named: seq<Entry>, coded: seq<Entry>, name: string)
    requires Stages(input, named, coded)
    ensures HasMark(coded, name) ==> Repeated(input, name)
    ensures InOrder(NameLeq, named) && Repeated(input, name) ==> HasMark(coded, name)
  {
    hide Entry.Code, NameInfoLeq, CodeNameLeq, MarkDuplicates, HasMark, Repeated, SortedByName, SortedByCode, InOrder;
    StagesMembers(input, named, coded);
    DuplicatesRepeat(named, name);
    HasMarkPermuted(coded, MarkDuplicates(named), name);
    HasMarkPermuted(MarkDuplicates(named), coded, name);
    if Repeated(named, name) {
      RepeatedPermuted(named, input, name);
    }
    if Repeated(input, name) {
      RepeatedPermuted(input, named, name);
    }
  }

  // ---- definitions with the code of the marked entries ----

  ghost predicate AheadOfRepeats(input: seq<Entry>, name: string) {
    forall m :: Repeated(input, m) ==> Before(name, m)
  }

  ghost predicate SparedBy(input: seq<Entry>, name: string, k: Entry) {
    MayBeKept(k, input) && k.Code() == MARKED_CODE && k.name <= name && AheadOfRepeats(input, k.name)
  }

  // Definitions with the code of the marked entries get away with it: one that is named by a
  // prefix comes before all repeated names.
  ghost predicate Spared(input: seq<Entry>) {
    forall k :: MayBeKept(k, input) && k.Code() == MARKED_CODE ==> exists l :: SparedBy(input, k.name, l)
  }

  // No definition has the code of the marked entries.
  ghost predicate NoMaxCode(input: seq<Entry>) {
    forall e :: e in input ==> e.Code() != MARKED_CODE
  }

  lemma NoMaxCodeIsSpared(input: seq<Entry>)
    requires NoMaxCode(input)
    ensures Spared(input)
  {
    hide Entry.Code, ThirdBetween, NameInfoLeq;
  }

  // A definition that comes before all repeated names is the only one of its name: it survives,
  // and is not cut off.
  lemma AheadIsPrinted(input: seq<Entry>, named: seq<Entry>, coded: seq<Entry>, n: nat, k: Entry)
    requires Stages(input, named, coded) && CutOff(coded, n)
    requires k in input && (k.Code() == MARKED_CODE ==> AheadOfRepeats(input, k.name))
    requires k.Code() == MARKED_CODE || Survives(named, k)
    ensures Represented(Printed(coded, n), k)
  {
    hide Entry.Code, NameInfoLeq, CodeNameLeq, Stages, SortedByCode, Printed, Repeated, Before, ThirdBetween,
         Represented, Survives;
    StagesMembers(input, named, coded);
    MarksHaveMaxCode(named, coded);
    if k.Code() == MARKED_CODE {
      AloneSurvives(input, named, coded, k);
    }
    SurvivorMayBeKept(input, named, coded, k);
    var c :| 0 <= c < |coded| && coded[c] == k;
    forall m | m in coded && m.Marked() && k.Code() == MARKED_CODE
      ensures Before(k.name, m.name)
    {
      var j :| 0 <= j < |coded| && coded[j] == m;
      assert HasMark(coded, m.name);
      MarkedNames(input, named, coded, m.name);
    }
    NotCutOff(coded, n, c);
    PrintedRepresents(coded, n, c);
  }

  lemma AloneSurvives(input: seq<Entry>, named: seq<Entry>, coded: seq<Entry>, k: Entry)
    requires Stages(input, named, coded) && k in input && AheadOfRepeats(input, k.name)
    ensures Survives(named, k)
  {
    hide Entry.Code, NameInfoLeq, CodeNameLeq, SortedByCode, Before, ThirdBetween, InOrder, Transitive;
    StagesMembers(input, named, coded);
    BeforeTotal(k.name, k.name);
    var i :| 0 <= i < |named| && named[i] == k;
    if Duplicate(named, i) {
      assert Repeated(named, k.name);
      RepeatedPermuted(named, input, k.name);
    }
  }

  // With the code of the marked entries or not: what is spared is represented, for every outcome.
  lemma SparedIsComplete(input: seq<Entry>, named: seq<Entry>, table: seq<TableEntry>)
    requires Outcome(input, named, table) && Spared(input)
    ensures AllRepresented(named, table)
  {
    hide Entry.Code, Stages, Printed, Survives, MayBeKept, AheadOfRepeats;
    var coded: seq<Entry>, n: nat :| Stages(input, named, coded) && CutOff(coded, n) && table == Printed(coded, n);
    forall k | Survives(named, k)
      ensures Represented(table, k)
    {
      SurvivorMayBeKept(input, named, coded, k);
      InInput(input, k);
      if k.Code() == MARKED_CODE {
        var l :| SparedBy(input, k.name, l);
        InInput(input, l);
        AheadIsPrinted(input, named, coded, n, l);
        PrefixRepresents(table, k, l);
      } else {
        AheadIsPrinted(input, named, coded, n, k);
      }
    }
  }

  lemma InInput(input: seq<Entry>, k: Entry)
    requires MayBeKept(k, input)
    ensures k in input
  {
    hide ThirdBetween;
  }

  lemma PrefixRepresents(table: seq<TableEntry>, k: Entry, l: Entry)
    requires Represented(table, l) && l.Code() == k.Code() && l.name <= k.name
    ensures Represented(table, k)
  {
    hide Entry.Code;
  }

  // Without the code of the marked entries, no definition is ever lost.
  lemma TableComplete(input: seq<Entry>, named: seq<Entry>, table: seq<TableEntry>)
    requires Outcome(input, named, table) && NoMaxCode(input)
    ensures AllRepresented(named, table)
  {
    hide Spared, NoMaxCode, Outcome, AllRepresented;
    NoMaxCodeIsSpared(input);
    SparedIsComplete(input, named, table);
  }

  // What represents a definition with the code of the marked entries is named by a prefix and
  // comes at or before every marked name.
  lemma Representative(input: seq<Entry>, named: seq<Entry>, coded: seq<Entry>, n: nat, k: Entry) returns (i: nat)
    requires Stages(input, named, coded) && CutOff(coded, n)
    requires Represented(Printed(coded, n), k) && k.Code() == MARKED_CODE
    ensures i < n && Survives(named, coded[i]) && coded[i].Code() == MARKED_CODE && coded[i].name <= k.name
    ensures forall c :: 0 <= c < |coded| && coded[c].Marked() ==> i < c && AtMost(coded[i].name, coded[c].name)
  {
    hide Entry.Code, NameInfoLeq, Stages, Printed, Before, ThirdBetween, Survives;
    StagesMembers(input, named, coded);
    MarksHaveMaxCode(named, coded);
    var t := Printed(coded, n);
    var j :| 0 <= j < |t| && t[j].code == MARKED_CODE && t[j].symbol <= k.name;
    i := PrintedSound(coded, n, j);
    CodedSurvives(input, named, coded, i);
    CodeNameConsistent(coded);
    forall c | 0 <= c < |coded| && coded[c].Marked()
      ensures i < c && AtMost(coded[i].name, coded[c].name)
    {
      assert coded[c] in coded;
      Sorted(CodeNameLeq, coded, i, c);
    }
  }

  // ---- the choices of qsort ----

  // The order by name, with one entry first among those it is tied with.
  ghost predicate FirstLeq(circle: bool, k: Entry, x: Entry, y: Entry) {
    if x.name != y.name then Before(x.name, y.name)
    else if circle then y == k ==> x == k
    else NameInfoLeq(x, y) && (NameInfoLeq(y, x) && y == k ==> x == k)
  }

  // The order by code and name, with marked entries first among those they are tied with.
  ghost predicate MarksFirstLeq(x: Entry, y: Entry) {
    CodeNameLeq(x, y) && (CodeNameLeq(y, x) && y.Marked() ==> x.Marked())
  }

  // The first sort can let any definition survive that may be kept.
  lemma CanSurvive(input: seq<Entry>, k: Entry) returns (named: seq<Entry>)
    requires Unmarked(input) && MayBeKept(k, input)
    ensures QsortResult(NameInfoLeq, input, named) && InOrder(NameLeq, named) && Survives(named, k)
  {
    hide Before, NameInfoLeq, Total, Transitive, InOrder, ThirdBetween;
    var circle := ThirdBetween(input);
    var leq := (x, y) => FirstLeq(circle, k, x, y);
    ComparatorConsistent(input);
    FirstLeqTotal(input, circle, k, leq);
    named := InsertionSort(input, leq);
    FirstLeqInOrder(named, circle, k, leq);
    MultisetMembers(named, input);
    InInput(input, k);
    var i := FirstAt(named, k);
    if Duplicate(named, i) {
      assert named[i - 1] in named;
      NotTied(named, circle, k, leq, i);
      assert false;
    }
  }

  lemma FirstLeqTotal(input: seq<Entry>, circle: bool, k: Entry, leq: (Entry, Entry) -> bool)
    requires Total(NameInfoLeq, input) && leq == ((x, y) => FirstLeq(circle, k, x, y))
    ensures Total(leq, input)
  {
    hide Before, NameInfoLeq;
    forall x, y | x in input && y in input
      ensures leq(x, y) || leq(y, x)
    {
      BeforeTotal(x.name, y.name);
    }
  }

  lemma FirstLeqInOrder(s: seq<Entry>, circle: bool, k: Entry, leq: (Entry, Entry) -> bool)
    requires InOrder(leq, s) && leq == ((x, y) => FirstLeq(circle, k, x, y))
    ensures InOrder(NameLeq, s) && (!circle ==> InOrder(NameInfoLeq, s))
  {
    hide Before;
  }

  lemma {:induction false} FirstAt(s: seq<Entry>, k: Entry) returns (i: nat)
    requires k in s
    ensures i < |s| && s[i] == k && k !in s[..i]
  {
    if k in s[..|s| - 1] {
      i := FirstAt(s[..|s| - 1], k);
      assert s[..|s| - 1][..i] == s[..i];
    } else {
      i := |s| - 1;
    }
  }

  lemma NotTied(s: seq<Entry>, circle: bool, k: Entry, leq: (Entry, Entry) -> bool, i: nat)
    requires InOrder(leq, s) && leq == ((x, y) => FirstLeq(circle, k, x, y))
    requires 0 < i < |s| && s[i] == k && s[i - 1].name == k.name && (!circle ==> NameInfoLeq(k, s[i - 1]))
    ensures s[i - 1] == k
  {
    hide Before, NameInfoLeq;
    assert leq(s[i - 1], s[i]);
  }

  // The second sort can put marked entries before others of the same code and name.
  lemma CanMarkFirst(marked: seq<Entry>) returns (coded: seq<Entry>)
    ensures QsortResult(CodeNameLeq, marked, coded)
    ensures forall i, c :: 0 <= i < c < |coded| && !coded[i].Marked() && coded[c].Marked() ==>
              !CodeNameLeq(coded[c], coded[i])
  {
    hide CodeNameLeq, Total, Transitive, InOrder;
    MarksFirstConsistent(marked);
    coded := InsertionSort(marked, MarksFirstLeq);
    MarksFirstInOrder(coded);
    MarksFirstConsistent(coded);
    forall i, c | 0 <= i < c < |coded| && !coded[i].Marked() && coded[c].Marked()
      ensures !CodeNameLeq(coded[c], coded[i])
    {
      Sorted(MarksFirstLeq, coded, i, c);
    }
  }

  lemma MarksFirstConsistent(s: seq<Entry>)
    ensures Total(MarksFirstLeq, s) && Transitive(MarksFirstLeq, s)
  {
    hide CodeNameLeq;
    CodeNameConsistent(s);
  }

  lemma MarksFirstInOrder(s: seq<Entry>)
    requires InOrder(MarksFirstLeq, s)
    ensures InOrder(CodeNameLeq, s)
  {
    hide CodeNameLeq;
  }

  lemma {:induction false} SomeCutOff(s: seq<Entry>, i: nat) returns (n: nat)
    requires i <= |s| && forall j :: 0 <= j < i ==> !s[j].Marked()
    ensures CutOff(s, n)
    decreases |s| - i
  {
    if i == |s| || s[i].Marked() {
      n := i;
    } else {
      n := SomeCutOff(s, i + 1);
    }
  }

  // If every outcome represents every survivor, definitions with the code of the marked entries
  // are spared.
  lemma CompleteIsSpared(input: seq<Entry>, k: Entry) returns (l: Entry)
    requires Unmarked(input) && MayBeKept(k, input) && k.Code() == MARKED_CODE
    requires forall named, table :: Outcome(input, named, table) ==> AllRepresented(named, table)
    ensures SparedBy(input, k.name, l)
  {
    hide Entry.Code, NameInfoLeq, InOrder, Transitive, Printed, MarkDuplicates, Represented, Survives, MayBeKept, Repeated,
         Before;
    var named := CanSurvive(input, k);
    var coded := CanMarkFirst(MarkDuplicates(named));
    var n := SomeCutOff(coded, 0);
    var table := Printed(coded, n);
    assert Stages(input, named, coded);
    assert Outcome(input, named, table);
    var i := Representative(input, named, coded, n, k);
    l := coded[i];
    SurvivorMayBeKept(input, named, coded, l);
    StagesMembers(input, named, coded);
    MarksHaveMaxCode(named, coded);
    forall m | Repeated(input, m)
      ensures Before(l.name, m)
    {
      MarkedNames(input, named, coded, m);
      var c :| 0 <= c < |coded| && coded[c].Marked() && coded[c].name == m;
      assert coded[c] in coded;
      BeforeTotal(l.name, m);
    }
  }

  // Exactly when no outcome loses a definition.
  lemma CutOffExactly(input: seq<Entry>)
    requires Unmarked(input)
    ensures Spared(input) <==> forall named, table :: Outcome(input, named, table) ==> AllRepresented(named, table)
  {
    hide Entry.Code, Outcome, AllRepresented, MayBeKept, SparedBy;
    if Spared(input) {
      forall named, table | Outcome(input, named, table)
        ensures AllRepresented(named, table)
      {
        SparedIsComplete(input, named, table);
      }
    }
    if forall named, table :: Outcome(input, named, table) ==> AllRepresented(named, table) {
      forall k | MayBeKept(k, input) && k.Code() == MARKED_CODE
        ensures exists l :: SparedBy(input, k.name, l)
      {
        var l := CompleteIsSpared(input, k);
      }
    }
  }

  // ---- inputs that lose a definition ----

  const OrdinaryEntry: Entry := Entry(Some("a.h"), "A", 0, 0, 0)

  // Every field has the highest value the kernel's layout allows.
  const HighestEntry: Entry := Entry(Some("b.h"), "B", 3, 0xffff, 0x3fff)

  lemma ExampleCodes()
    ensures OrdinaryEntry.Code() == 0 && HighestEntry.Code() == MARKED_CODE
  {
    Pow2Values();
    assert Pow2(12) == 4096 && Pow2(14) == 16384;
    Pow2Sum(14, 16);
    CodeIsSum(OrdinaryEntry);
    CodeIsSum(HighestEntry);
  }

  // "A" is defined twice, "B" has the code of the marked entries: every outcome loses "B".
  lemma CutOffExample(named: seq<Entry>, table: seq<TableEntry>)
    requires Outcome([OrdinaryEntry, OrdinaryEntry, HighestEntry], named, table)
    ensures Survives(named, HighestEntry) && !Represented(table, HighestEntry)
  {
    hide Entry.Code, NameInfoLeq, Stages, Printed, ThirdBetween, Survives, MayBeKept;
    var a, b := OrdinaryEntry, HighestEntry;
    var input := [a, a, b];
    assert forall e :: e in input <==> e == a || e == b;
    var coded: seq<Entry>, n: nat :| Stages(input, named, coded) && CutOff(coded, n) && table == Printed(coded, n);
    ExampleCodes();
    var k := NameSurvives(input, named, table, b);
    InInput(input, k);
    ExampleMarks(named, coded);
    var c :| 0 <= c < |coded| && coded[c].Marked() && coded[c].name == "A";
    if Represented(table, b) {
      var i := Representative(input, named, coded, n, b);
      SurvivorMayBeKept(input, named, coded, coded[i]);
      InInput(input, coded[i]);
    }
  }

  lemma ExampleMarks(named: seq<Entry>, coded: seq<Entry>)
    requires Stages([OrdinaryEntry, OrdinaryEntry, HighestEntry], named, coded)
    ensures HasMark(coded, "A")
  {
    hide Entry.Code, NameInfoLeq, CodeNameLeq, SortedByCode, HasMark;
    var input := [OrdinaryEntry, OrdinaryEntry, HighestEntry];
    StagesMembers(input, named, coded);
    assert forall e :: e in input <==> e == OrdinaryEntry || e == HighestEntry;
    assert !ThirdBetween(input);
    NamesInOrder(named);
    assert input[0].name == input[1].name == "A" && Repeated(input, "A");
    MarkedNames(input, named, coded, "A");
  }

  // "B" is defined twice, with the code of the marked entries: some outcome loses it.
  lemma TiedExample()
    ensures !Spared([HighestEntry, HighestEntry])
  {
    hide Entry.Code, NameInfoLeq;
    var b := HighestEntry;
    var input := [b, b];
    ExampleCodes();
    NameInfoSame(b);
    assert forall e :: e in input <==> e == b;
    assert MayBeKept(b, input);
    assert input[0].name == input[1].name == "B" && Repeated(input, "B");
    BeforeTotal("B", "B");
  }

  // ---- the tool ----

  // ioctlsort(); `named` is the array after the first sort.
  method SortIoctls(ioctls: array<Entry>) returns (table: seq<TableEntry>, ghost named: seq<Entry>)
    requires Unmarked(ioctls[..])
    modifies ioctls
    ensures Outcome(old(ioctls[..]), named, table)
    ensures SortedTable(table)
    ensures forall j :: 0 <= j < |table| ==> FromSurvivor(named, table[j]) && !Shadowed(named, table[j])
    ensures forall k :: Survives(named, k) ==> MayBeKept(k, old(ioctls[..]))
    ensures Spared(old(ioctls[..])) ==> AllRepresented(named, table)
  {
    hide Entry.Code, NameInfoLeq, CodeNameLeq, AllRepresented, SortedTable, Spared, MayBeKept, FromSurvivor, Survives,
         ThirdBetween, Shadowed;
    ghost var input := ioctls[..];
    ComparatorConsistent(input);
    Qsort(ioctls, NameInfoLeq);
    named := ioctls[..];
    MultisetMembers(named, input);
    MarkAll(ioctls);
    CodeNameConsistent(ioctls[..]);
    Qsort(ioctls, CodeNameLeq);
    ghost var n: nat;
    table, n := PrintTable(ioctls);
    assert Stages(input, named, ioctls[..]);
    TableSound(input, named, table);
    if Spared(input) {
      SparedIsComplete(input, named, table);
    }
  }
}
