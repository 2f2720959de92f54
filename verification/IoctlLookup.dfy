/** Looking up the names of an ioctl code at run time (src/ioctl.c:39-72, 548-556). */
module IoctlLookup {
  import opened Bits
  import opened Common
  import opened IoctlSort
  import opened IoctlTable

  // The symbols of a code, in table order.
  function Symbols(t: seq<TableEntry>, code: u32): seq<string> {
    if t == [] then []
    else
      var last := t[|t| - 1];
      Symbols(t[..|t| - 1], code) + (if last.code == code then [last.symbol] else [])
  }

  // The table restricted to the code: its entries are those symbols, in order and as often.

  lemma SymbolsOfOne(e: TableEntry, code: u32)
    ensures Symbols([e], code) == if e.code == code then [e.symbol] else []
  {
    assert [e][..0] == [];
  }

  lemma {:induction false} SymbolsConcat(a: seq<TableEntry>, b: seq<TableEntry>, code: u32)
    ensures Symbols(a + b, code) == Symbols(a, code) + Symbols(b, code)
  {
    if b == [] {
      assert a + b == a;
    } else {
      var init, last := b[..|b| - 1], b[|b| - 1];
      SymbolsConcat(a, init, code);
      var all := a + b;
      assert all[..|all| - 1] == a + init && all[|all| - 1] == last;
      assert Symbols(all, code) == Symbols(a + init, code) + (if last.code == code then [last.symbol] else []);
    }
  }

  // bsearch: some entry with the code, if there is one.
  method Bsearch(t: seq<TableEntry>, code: u32) returns (found: Option<nat>)
    requires SortedTable(t)
    ensures found.Some? ==> found.value < |t| && t[found.value].code == code
    ensures found.None? ==> forall i :: 0 <= i < |t| ==> t[i].code != code
  {
    var base, nmemb := 0, |t|;
    while nmemb != 0
      invariant 0 <= base <= base + nmemb <= |t|
      invariant forall i :: 0 <= i < base ==> t[i].code < code
      invariant forall i :: base + nmemb <= i < |t| ==> t[i].code > code
      decreases nmemb
    {
      var half := nmemb / 2;
      if t[base + half].code == code {
        return Some(base + half);
      }
      if t[base + half].code < code {
        base, nmemb := base + half + 1, nmemb - half - 1;
      } else {
        nmemb := half;
      }
    }
    found := None;
  }

  // ioctl_lookup: the first entry with the code, whichever one the search hit.
  method Lookup(t: seq<TableEntry>, code: u32) returns (first: Option<nat>)
    requires SortedTable(t)
    ensures first.Some? ==> first.value < |t| && t[first.value].code == code
                            && forall i :: 0 <= i < first.value ==> t[i].code < code
    ensures first.None? ==> forall i :: 0 <= i < |t| ==> t[i].code != code
  {
    first := Bsearch(t, code);
    if first.Some? {
      var i := first.value;
      while i > 0
        invariant 0 <= i < |t| && t[i].code == code
      {
        i := i - 1;
        if t[i].code != code {
          i := i + 1;
          break;
        }
      }
      first := Some(i);
    }
  }

  // ioctl_next_match
  method NextMatch(t: seq<TableEntry>, i: nat) returns (next: Option<nat>)
    requires i < |t| && SortedTable(t)
    ensures next.Some? ==> next.value == i + 1 < |t| && t[i + 1].code == t[i].code
    ensures next.None? ==> forall j :: i < j < |t| ==> t[j].code != t[i].code
  {
    next := if i + 1 < |t| && t[i + 1].code == t[i].code then Some(i + 1) else None;
  }

  lemma {:induction false} NoSymbols(t: seq<TableEntry>, lo: nat, hi: nat, code: u32)
    requires lo <= hi <= |t| && forall i :: lo <= i < hi ==> t[i].code != code
    ensures Symbols(t[..hi], code) == Symbols(t[..lo], code)
  {
    if lo < hi {
      NoSymbols(t, lo, hi - 1, code);
      assert t[..hi][..hi - 1] == t[..hi - 1];
    }
  }

  // The printing loop of SYS_FUNC(ioctl): on a sorted table it prints exactly the symbols of the
  // code, each once and in table order.
  method PrintSymbols(t: seq<TableEntry>, code: u32) returns (printed: seq<string>)
    requires SortedTable(t)
    ensures printed == Symbols(t, code)
  {
    printed := [];
    var iop := Lookup(t, code);
    assert t[..|t|] == t;
    if iop.None? {
      NoSymbols(t, 0, |t|, code);
      return;
    }
    NoSymbols(t, 0, iop.value, code);
    printed := [t[iop.value].symbol];
    var i := iop.value;
    assert t[..i + 1][..i] == t[..i];
    while true
      invariant i < |t| && t[i].code == code
      invariant printed == Symbols(t[..i + 1], code)
      decreases |t| - i
    {
      var next := NextMatch(t, i);
      if next.None? {
        NoSymbols(t, i + 1, |t|, code);
        break;
      }
      i := next.value;
      assert t[..i + 1][..i] == t[..i];
      printed := printed + [t[i].symbol];
    }
  }

  lemma {:induction false} SymbolsContain(t: seq<TableEntry>, i: nat)
    requires i < |t|
    ensures t[i].symbol in Symbols(t, t[i].code)
  {
    if i < |t| - 1 {
      SymbolsContain(t[..|t| - 1], i);
    }
  }

  // From source to screen: an ioctl defined in the input under some name is printed, if the input
  // is spared, as a list of symbols that has a prefix of the name, the definition being one that
  // may be kept for it.
  lemma DefinedIoctlIsPrinted(input: seq<Entry>, named: seq<Entry>, t: seq<TableEntry>, e: Entry)
    returns (k: Entry, symbol: string)
    requires Outcome(input, named, t) && Spared(input) && e in input
    ensures k.name == e.name && MayBeKept(k, input)
    ensures symbol in Symbols(t, k.Code()) && symbol <= e.name
  {
    hide MayBeKept, Entry.Code, Outcome, Spared;
    SparedIsComplete(input, named, t);
    k := NameSurvives(input, named, t, e);
    var i :| 0 <= i < |t| && t[i].code == k.Code() && t[i].symbol <= k.name;
    symbol := t[i].symbol;
    SymbolsContain(t, i);
  }
}
