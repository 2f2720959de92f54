/** Syscall set specifications such as "!open,%file,?foo@32,/^get,7" (src/basic_filters.c:34-274). */
module Qualify {
  import opened Common
  import opened NumberSets
  import opened StringToUint

  const INT_MAX: nat := 0x7fff_ffff

  // A row of a syscall table.  `decoded` stands for a decoder that is not only for subcalls.
  datatype Syscall = Syscall(name: Option<string>, flags: set<nat>, decoded: bool)

  // What specifications refer to: the tables and designators of the personalities, the flags
  // behind class names, and the regular expression library.
  datatype World = World(
    tables: seq<seq<Syscall>>,
    designators: seq<string>,
    classes: string -> Option<set<nat>>,
    regexValid: string -> bool,
    regexMatches: (string, string) -> bool)

  ghost predicate ValidWorld(w: World) {
    |w.tables| == |w.designators| >= 1
  }

  // ---- what a token matches in one personality ----

  predicate Named(table: seq<Syscall>, x: nat, name: string)
  {
    x < |table| && table[x].name == Some(name)
  }

  predicate NumberMatches(table: seq<Syscall>, token: string, x: nat) {
    var p := StringToUintEx(token, INT_MAX, "");
    p.Number? && p.value == x && x < |table| && table[x].decoded
  }

  predicate RegexMatches(w: World, table: seq<Syscall>, pattern: string, x: nat) {
    x < |table| && table[x].name.Some? && w.regexMatches(pattern, table[x].name.value)
  }

  predicate ClassMatches(flags: set<nat>, table: seq<Syscall>, x: nat) {
    x < |table| && table[x].name.Some? && flags <= table[x].flags
  }

  predicate MatchesIn(w: World, token: string, p: nat, x: nat)
    requires p < |w.tables|
  {
    var table := w.tables[p];
    if token != [] && IsDigit(token[0]) then NumberMatches(table, token, x)
    else if token != [] && token[0] == '/' then RegexMatches(w, table, token[1..], x)
    else if w.classes(token).Some? then ClassMatches(w.classes(token).value, table, x)
    else Named(table, x, token)
  }

  // What the kinds of tokens stand for: a decimal number for itself, if there is such a syscall, ...
  lemma NumberToken(w: World, n: nat, p: nat, x: nat)
    requires p < |w.tables| && n <= INT_MAX
    ensures MatchesIn(w, Decimal(n), p, x) <==> x == n < |w.tables[p]| && w.tables[p][n].decoded
  {
    hide Decimal, StringToUintEx;
    DecimalParses(n, [], INT_MAX, "");
    assert Decimal(n) + [] == Decimal(n);
  }

  // ... and anything else for what its first character and the class names make it.
  lemma OtherToken(w: World, token: string, p: nat, x: nat)
    requires p < |w.tables| && (token == [] || !IsDigit(token[0]))
    ensures MatchesIn(w, "/" + token, p, x) <==>
            x < |w.tables[p]| && w.tables[p][x].name.Some? && w.regexMatches(token, w.tables[p][x].name.value)
    ensures (token == [] || token[0] != '/') && w.classes(token).Some? ==>
              (MatchesIn(w, token, p, x) <==>
               x < |w.tables[p]| && w.tables[p][x].name.Some? && w.classes(token).value <= w.tables[p][x].flags)
    ensures (token == [] || token[0] != '/') && w.classes(token).None? ==>
              (MatchesIn(w, token, p, x) <==> x < |w.tables[p]| && w.tables[p][x].name == Some(token))
  {
    assert ("/" + token)[1..] == token;
  }

  // The numbers a token stands for in one personality.
  ghost function MatchesOf(w: World, token: string, p: nat): set<nat>
    requires p < |w.tables|
  {
    set x: nat | x < |w.tables[p]| && MatchesIn(w, token, p, x)
  }

  // ---- the loops that add numbers ----

  // scno_by_name
  method ScnoByName(table: seq<Syscall>, s: string, start: nat) returns (scno: int)
    ensures scno == -1 || start <= scno < |table|
    ensures scno >= 0 ==> Named(table, scno, s) && forall i :: start <= i < scno ==> !Named(table, i, s)
    ensures scno == -1 ==> forall i :: start <= i ==> !Named(table, i, s)
  {
    var i := start;
    while i < |table|
      invariant start <= i
      invariant forall j :: start <= j < i ==> !Named(table, j, s)
    {
      if table[i].name.Some? && table[i].name.value == s {
        return i;
      }
      i := i + 1;
    }
    scno := -1;
  }

  // qualify_syscall_name: every index that carries the name.
  method QualifyName(table: seq<Syscall>, s: string, target: NumberSet) returns (found: bool)
    modifies target
    ensures target.View() ==
            SetView(old(target.View()).members + (set x: nat | x < |table| && Named(table, x, s)), old(target.inverted))
    ensures found <==> exists x: nat :: Named(table, x, s)
  {
    found := false;
    ghost var before := target.View().members;
    var next := 0;
    var scno := ScnoByName(table, s, next);
    while scno >= 0
      invariant 0 <= next && target.inverted == old(target.inverted)
      invariant scno == -1 || next <= scno < |table|
      invariant scno >= 0 ==> Named(table, scno, s) && forall i :: next <= i < scno ==> !Named(table, i, s)
      invariant scno == -1 ==> forall i :: next <= i ==> !Named(table, i, s)
      invariant target.View().members == before + set x: nat | x < next && x < |table| && Named(table, x, s)
      invariant found <==> exists x: nat :: x < next && Named(table, x, s)
      decreases |table| - next
    {
      target.AddNumberToSet(scno);
      found := true;
      next := scno + 1;
      scno := ScnoByName(table, s, next);
    }
  }

  // qualify_syscall_class, once the class is known
  method QualifyClass(table: seq<Syscall>, flags: set<nat>, target: NumberSet)
    modifies target
    ensures target.View() ==
            SetView(old(target.View()).members + (set x: nat | x < |table| && ClassMatches(flags, table, x)),
                    old(target.inverted))
  {
    ghost var before := target.View().members;
    for i := 0 to |table|
      invariant target.inverted == old(target.inverted)
      invariant target.View().members == before + set x: nat | x < i && ClassMatches(flags, table, x)
    {
      if table[i].name.Some? && flags <= table[i].flags {
        target.AddNumberToSet(i);
      }
    }
  }

  // qualify_syscall_regex, once the expression has been compiled
  method QualifyRegex(w: World, table: seq<Syscall>, pattern: string, target: NumberSet) returns (found: bool)
    modifies target
    ensures target.View() ==
            SetView(old(target.View()).members + (set x: nat | x < |table| && RegexMatches(w, table, pattern, x)),
                    old(target.inverted))
    ensures found <==> exists x: nat :: RegexMatches(w, table, pattern, x)
  {
    found := false;
    ghost var before := target.View().members;
    for i := 0 to |table|
      invariant target.inverted == old(target.inverted)
      invariant target.View().members == before + set x: nat | x < i && RegexMatches(w, table, pattern, x)
      invariant found <==> exists x: nat :: x < i && RegexMatches(w, table, pattern, x)
    {
      if table[i].name.Some? && w.regexMatches(pattern, table[i].name.value) {
        target.AddNumberToSet(i);
        found := true;
      }
    }
  }

  // A token in one personality is taken if it names a class or matches something.
  ghost predicate FoundIn(w: World, token: string, p: nat)
    requires p < |w.tables|
  {
    || (w.classes(token).Some? && !(token != [] && (IsDigit(token[0]) || token[0] == '/')))
    || exists x: nat :: MatchesIn(w, token, p, x)
  }

  // An invalid regular expression is a fatal error.
  predicate Fatal(w: World, token: string) {
    token != [] && token[0] == '/' && !w.regexValid(token[1..])
  }

  // qualify_syscall_pers
  method QualifyPers(w: World, token: string, p: nat, target: NumberSet) returns (found: bool)
    requires p < |w.tables| && !Fatal(w, token)
    modifies target
    ensures target.View() == SetView(old(target.View()).members + MatchesOf(w, token, p), old(target.inverted))
    ensures found <==> FoundIn(w, token, p)
  {
    var table := w.tables[p];
    if token != [] && IsDigit(token[0]) {
      var nr := StringToUintEx(token, INT_MAX, "");
      if nr.NoNumber? || nr.value >= |table| || !table[nr.value].decoded {
        assert MatchesOf(w, token, p) == {};
        return false;
      }
      target.AddNumberToSet(nr.value);
      assert MatchesIn(w, token, p, nr.value);
      assert MatchesOf(w, token, p) == {nr.value};
      return true;
    }
    if token != [] && token[0] == '/' {
      found := QualifyRegex(w, table, token[1..], target);
      assert forall x: nat :: MatchesIn(w, token, p, x) <==> RegexMatches(w, table, token[1..], x);
      return;
    }
    if w.classes(token).Some? {
      QualifyClass(table, w.classes(token).value, target);
      assert forall x: nat :: MatchesIn(w, token, p, x) <==> ClassMatches(w.classes(token).value, table, x);
      return true;
    }
    found := QualifyName(table, token, target);
    assert forall x: nat :: MatchesIn(w, token, p, x) <==> Named(table, x, token);
  }

  // ---- tokens ----

  function Strip(token: string): (t: string)
    ensures |t| <= |token| && t == token[|token| - |t|..]
    ensures (forall i :: 0 <= i < |token| - |t| ==> token[i] == '?') && (t != [] ==> t[0] != '?')
  {
    if token != [] && token[0] == '?' then Strip(token[1..]) else token
  }

  // strrchr(s, '@')
  function LastAt(s: string): (i: int)
    ensures -1 <= i < |s|
    ensures i >= 0 ==> s[i] == '@'
    ensures forall j :: i < j < |s| ==> s[j] != '@'
  {
    if s == [] then -1
    else if s[|s| - 1] == '@' then |s| - 1
    else LastAt(s[..|s| - 1])
  }

  function Designated(w: World, s: string, i: nat): (p: int)
    requires i <= |w.designators|
    ensures p == -1 || i <= p < |w.designators|
    ensures p >= 0 ==> w.designators[p] == s
    ensures p == -1 <==> forall j :: i <= j < |w.designators| ==> w.designators[j] != s
    ensures forall j :: i <= j < p ==> w.designators[j] != s
    decreases |w.designators| - i
  {
    if i == |w.designators| then -1
    else if w.designators[i] == s then i
    else Designated(w, s, i + 1)
  }

  // The part of a token that is matched, and the personality it is for (-1: all of them).
  datatype Scope = Scope(body: string, only: int) | BadDesignator

  function ScopeOf(w: World, token: string): Scope {
    var t := Strip(token);
    var a := LastAt(t);
    if a < 0 then Scope(t, -1)
    else
      var p := Designated(w, t[a + 1..], 0);
      if p < 0 then BadDesignator else Scope(t[..a], p)
  }

  // How a token is taken apart: leading question marks do not matter to what is matched, ...
  lemma ScopeOptional(w: World, token: string)
    ensures ScopeOf(w, "?" + token) == ScopeOf(w, token)
  {
    hide LastAt, Designated, Strip;
    StripOne(token);
  }

  lemma StripOne(token: string)
    ensures Strip("?" + token) == Strip(token)
  {
    assert ("?" + token)[1..] == token;
  }

  // ... without an at sign all personalities are meant, ...
  lemma ScopePlain(w: World, t: string)
    requires '@' !in t && (t == [] || t[0] != '?')
    ensures ScopeOf(w, t) == Scope(t, -1)
  {
    hide LastAt, Designated, Strip;
    HasAt(t);
    NothingToStrip(t);
  }

  lemma HasAt(s: string)
    ensures LastAt(s) >= 0 <==> '@' in s
  {
    if LastAt(s) >= 0 {
      assert s[LastAt(s)] in s;
    }
  }

  // ... and what follows the last one designates the personality that is meant.
  lemma ScopeDesignated(w: World, t: string, designator: string)
    requires '@' !in designator && (t == [] || t[0] != '?')
    ensures ScopeOf(w, t + "@" + designator) ==
            var p := Designated(w, designator, 0); if p < 0 then BadDesignator else Scope(t, p)
  {
    hide LastAt, Designated, Strip;
    LastAtBefore(t, designator);
    AtParts(t, designator);
    NothingToStrip(t + "@" + designator);
  }

  lemma AtParts(t: string, designator: string)
    ensures var s := t + "@" + designator;
            && s[..|t|] == t && s[|t| + 1..] == designator && s[0] == if t == [] then '@' else t[0]
  {
  }

  lemma {:induction false} LastAtBefore(t: string, designator: string)
    requires '@' !in designator
    ensures LastAt(t + "@" + designator) == |t|
  {
    var s := t + "@" + designator;
    if designator != [] {
      var init, last := designator[..|designator| - 1], designator[|designator| - 1];
      LastAtBefore(t, init);
      assert s[..|s| - 1] == t + "@" + init && s[|s| - 1] == last && last in designator;
    }
  }

  lemma NothingToStrip(s: string)
    requires s == [] || s[0] != '?'
    ensures Strip(s) == s
  {
  }

  predicate Applies(s: Scope, p: nat) {
    s.Scope? && (s.only == -1 || s.only == p)
  }

  // The numbers a token adds to the set of personality p.
  ghost function Adds(w: World, token: string, p: nat): set<nat>
    requires p < |w.tables|
  {
    var s := ScopeOf(w, token);
    if Applies(s, p) then MatchesOf(w, s.body, p) else {}
  }

  // A token is accepted if it is well-formed and optional or found in some personality.
  ghost predicate Accepted(w: World, token: string) {
    var s := ScopeOf(w, token);
    && s.Scope?
    && !Fatal(w, s.body)
    && ((token != [] && token[0] == '?') || FoundBelow(w, s, |w.tables|))
  }

  ghost predicate FoundBelow(w: World, s: Scope, n: nat)
    requires s.Scope? && n <= |w.tables|
  {
    exists p: nat :: p < n && Applies(s, p) && FoundIn(w, s.body, p)
  }

  // When tokens are accepted: an optional one if it is well-formed, ...
  lemma OptionalAccepted(w: World, t: string)
    ensures Accepted(w, "?" + t) <==> ScopeOf(w, t).Scope? && !Fatal(w, ScopeOf(w, t).body)
  {
    hide ScopeOf, Fatal, FoundBelow;
    ScopeOptional(w, t);
  }

  // ... a regular expression if it is valid and matches some name, ...
  lemma RegexAccepted(w: World, pattern: string)
    requires '@' !in pattern
    ensures Accepted(w, "/" + pattern) <==>
            && w.regexValid(pattern)
            && exists p: nat, x: nat :: p < |w.tables| && x < |w.tables[p]| && w.tables[p][x].name.Some?
                                       && w.regexMatches(pattern, w.tables[p][x].name.value)
  {
    hide ScopeOf;
    var t := "/" + pattern;
    assert t[1..] == pattern && '@' !in t;
    ScopePlain(w, t);
    if p: nat, x: nat :| p < |w.tables| && x < |w.tables[p]| && w.tables[p][x].name.Some?
                         && w.regexMatches(pattern, w.tables[p][x].name.value) {
      assert MatchesIn(w, t, p, x) && Applies(Scope(t, -1), p) && FoundIn(w, t, p);
    }
  }

  // ... and a name if it is that of a class or of some syscall.
  lemma NameAccepted(w: World, t: string)
    requires |w.tables| >= 1 && '@' !in t && t != [] && t[0] != '?' && t[0] != '/' && !IsDigit(t[0])
    ensures Accepted(w, t) <==>
            || w.classes(t).Some?
            || exists p: nat, x: nat :: p < |w.tables| && x < |w.tables[p]| && w.tables[p][x].name == Some(t)
  {
    hide ScopeOf;
    ScopePlain(w, t);
    assert Applies(Scope(t, -1), 0);
    if w.classes(t).Some? {
      assert FoundIn(w, t, 0);
    } else if p: nat, x: nat :| p < |w.tables| && x < |w.tables[p]| && w.tables[p][x].name == Some(t) {
      assert MatchesIn(w, t, p, x) && Applies(Scope(t, -1), p) && FoundIn(w, t, p);
    }
  }

  lemma NoneBelow(w: World, s: Scope)
    requires s.Scope?
    ensures !FoundBelow(w, s, 0)
  {
  }

  lemma FoundNext(w: World, s: Scope, n: nat)
    requires s.Scope? && n < |w.tables|
    ensures FoundBelow(w, s, n + 1) <==> FoundBelow(w, s, n) || (Applies(s, n) && FoundIn(w, s.body, n))
  {
    hide FoundIn;
    if Applies(s, n) && FoundIn(w, s.body, n) {
    }
  }

  ghost predicate Apart(sets: seq<NumberSet>) {
    forall i, j :: 0 <= i < j < |sets| ==> sets[i] != sets[j]
  }

  ghost function Views(sets: seq<NumberSet>): (r: seq<SetView>)
    reads sets
    ensures |r| == |sets| && forall p :: 0 <= p < |r| ==> r[p] == sets[p].View()
  {
    if sets == [] then [] else Views(sets[..|sets| - 1]) + [sets[|sets| - 1].View()]
  }

  // The sets with the numbers of a token added for the first n personalities.
  ghost predicate AddedFor(w: World, token: string, n: nat, before: seq<SetView>, after: seq<SetView>)
    requires n <= |w.tables|
  {
    && |after| == |before|
    && (forall p :: 0 <= p < n && p < |before| ==>
          after[p] == SetView(before[p].members + Adds(w, token, p), before[p].inverted))
    && (forall p :: n <= p < |before| ==> after[p] == before[p])
  }

  // qualify_syscall
  method QualifyToken(w: World, token: string, sets: seq<NumberSet>) returns (ok: bool)
    requires ValidWorld(w) && |sets| == |w.tables| && Apart(sets)
    modifies sets
    ensures ok <==> Accepted(w, token)
    ensures ok ==> AddedFor(w, token, |w.tables|, old(Views(sets)), Views(sets))
  {
    hide MatchesOf, FoundIn, FoundBelow, Designated, LastAt, Strip, Members, AddedFor, Views, Adds;
    var optional := token != [] && token[0] == '?';
    var s := ScopeOf(w, token);
    if s.BadDesignator? || Fatal(w, s.body) {
      return false;
    }
    ScopeInRange(w, token);
    ok := optional;
    NoneBelow(w, s);
    NoneAdded(w, token, Views(sets));
    for p := 0 to |sets|
      invariant ok <==> optional || FoundBelow(w, s, p)
      invariant AddedFor(w, token, p, old(Views(sets)), Views(sets))
    {
      FoundNext(w, s, p);
      ghost var before := Views(sets);
      if s.only == -1 || s.only == p {
        var found := QualifyPers(w, s.body, p, sets[p]);
        ok := ok || found;
        assert forall q :: 0 <= q < |sets| && q != p ==> sets[q].View() == before[q];
      }
      AddedNext(w, token, p, old(Views(sets)), before, Views(sets));
    }
  }

  lemma NoneAdded(w: World, token: string, views: seq<SetView>)
    ensures AddedFor(w, token, 0, views, views)
  {
  }

  lemma AddedNext(w: World, token: string, n: nat, start: seq<SetView>, before: seq<SetView>, after: seq<SetView>)
    requires n < |w.tables| == |start| && AddedFor(w, token, n, start, before) && |after| == |before|
    requires forall p :: 0 <= p < |before| && p != n ==> after[p] == before[p]
    requires var s := ScopeOf(w, token);
             after[n] == if Applies(s, n) then SetView(before[n].members + MatchesOf(w, s.body, n), before[n].inverted)
                         else before[n]
    ensures AddedFor(w, token, n + 1, start, after)
  {
    hide ScopeOf, MatchesOf, Applies;
    assert before[n].members + {} == before[n].members;
  }

  lemma ScopeInRange(w: World, token: string)
    ensures var s := ScopeOf(w, token); s.Scope? ==> -1 <= s.only < |w.designators|
  {
  }

  // ---- specifications ----

  // The tokens strtok_r finds: the longest non-empty pieces without the separator.
  function Tokens(s: string, c: char): (ts: seq<string>)
    ensures forall t :: t in ts ==> t != [] && c !in t
    decreases |s|
  {
    if s == [] then []
    else if s[0] == c then Tokens(s[1..], c)
    else
      var n := FirstOf(s, c);
      [s[..n]] + Tokens(s[n..], c)
  }

  function Join(ts: seq<string>, c: char): string {
    if ts == [] then [] else if |ts| == 1 then ts[0] else ts[0] + [c] + Join(ts[1..], c)
  }

  lemma TokensFirst(t: string, rest: string, c: char)
    requires t != [] && c !in t && (rest == [] || rest[0] == c)
    ensures Tokens(t + rest, c) == [t] + Tokens(rest, c)
  {
    hide FirstOf;
    FirstAfter(t, rest, c);
    var s := t + rest;
    assert t[0] in t && s[0] == t[0] && s[..|t|] == t && s[|t|..] == rest;
  }

  // Splitting undoes joining.
  lemma {:induction false} TokensOfJoin(ts: seq<string>, c: char)
    requires forall i :: 0 <= i < |ts| ==> ts[i] != [] && c !in ts[i]
    ensures Tokens(Join(ts, c), c) == ts
  {
    hide FirstOf;
    if |ts| == 1 {
      TokensFirst(ts[0], [], c);
      assert ts[0] + [] == ts[0] && ts == [ts[0]];
    } else if ts != [] {
      var rest := [c] + Join(ts[1..], c);
      TokensOfJoin(ts[1..], c);
      TokensFirst(ts[0], rest, c);
      assert rest[1..] == Join(ts[1..], c);
      assert Join(ts, c) == ts[0] + rest && ts == [ts[0]] + ts[1..];
    }
  }

  function Bangs(s: string): (n: nat)
    ensures n <= |s| && (forall i :: 0 <= i < n ==> s[i] == '!') && (n < |s| ==> s[n] != '!')
  {
    if s != [] && s[0] == '!' then 1 + Bangs(s[1..]) else 0
  }

  // The numbers the tokens stand for in personality p.
  ghost function Listed(w: World, ts: seq<string>, p: nat): set<nat>
    requires p < |w.tables|
  {
    if ts == [] then {} else Listed(w, ts[..|ts| - 1], p) + Adds(w, ts[|ts| - 1], p)
  }

  // A number matches a specification if it is listed, or not, by the number of leading
  // exclamation marks; all is the same as !none.
  ghost predicate Specified(w: World, spec: string, p: nat, x: nat)
    requires p < |w.tables|
  {
    var body := spec[Bangs(spec)..];
    var listed := body == "all" || (body != "none" && exists t :: t in Tokens(body, ',') && x in Adds(w, t, p));
    listed != (Bangs(spec) % 2 == 1)
  }

  ghost predicate AcceptedSpec(w: World, spec: string) {
    var body := spec[Bangs(spec)..];
    || body == "none"
    || body == "all"
    || (Tokens(body, ',') != [] && forall t :: t in Tokens(body, ',') ==> Accepted(w, t))
  }

  // The laws of specifications: an exclamation mark complements, all is !none, and a list joined
  // by commas stands for what some of its tokens stand for.
  lemma SpecifiedLaws(w: World, spec: string, p: nat, x: nat)
    requires p < |w.tables|
    ensures Specified(w, "!" + spec, p, x) <==> !Specified(w, spec, p, x)
    ensures AcceptedSpec(w, "!" + spec) <==> AcceptedSpec(w, spec)
    ensures Specified(w, "all", p, x) && !Specified(w, "none", p, x)
    ensures AcceptedSpec(w, "all") && AcceptedSpec(w, "none") && !AcceptedSpec(w, "")
  {
    hide Tokens, Adds, Accepted;
    var s := "!" + spec;
    assert s[1..] == spec && Bangs(s) == Bangs(spec) + 1;
    assert s[Bangs(s)..] == spec[Bangs(spec)..];
    assert Bangs("all") == 0 && "all"[0..] == "all" && Bangs("none") == 0 && "none"[0..] == "none";
    NoTokens();
  }

  lemma NoTokens()
    ensures Tokens("", ',') == [] && Bangs("") == 0
  {
  }

  lemma SpecifiedList(w: World, ts: seq<string>, p: nat, x: nat)
    requires p < |w.tables| && ts != []
    requires forall i :: 0 <= i < |ts| ==> ts[i] != [] && ',' !in ts[i]
    requires ts[0][0] != '!' && ts != ["all"] && ts != ["none"]
    ensures Specified(w, Join(ts, ','), p, x) <==> exists t :: t in ts && x in Adds(w, t, p)
    ensures AcceptedSpec(w, Join(ts, ',')) <==> forall t :: t in ts ==> Accepted(w, t)
  {
    hide Adds, Accepted, Tokens;
    var s := Join(ts, ',');
    TokensOfJoin(ts, ',');
    assert s[0] == ts[0][0];
    assert Bangs(s) == 0 && s[0..] == s;
    if |ts| > 1 {
      JoinHasComma(ts);
    } else {
      assert ts == [s];
    }
  }

  lemma JoinHasComma(ts: seq<string>)
    requires |ts| > 1
    ensures ',' in Join(ts, ',')
  {
    assert Join(ts, ',')[|ts[0]|] == ',';
  }

  lemma {:induction false} ListedMembers(w: World, ts: seq<string>, p: nat, x: nat)
    requires p < |w.tables|
    ensures x in Listed(w, ts, p) <==> exists t :: t in ts && x in Adds(w, t, p)
  {
    hide Adds;
    if ts != [] {
      var init, last := ts[..|ts| - 1], ts[|ts| - 1];
      ListedMembers(w, init, p, x);
      assert ts == init + [last];
    }
  }

  ghost predicate AllViews(sets: seq<NumberSet>, inverted: bool)
    reads sets
  {
    forall p :: 0 <= p < |sets| ==> sets[p].View() == SetView({}, inverted)
  }

  method ClearAll(sets: seq<NumberSet>)
    requires Apart(sets)
    modifies sets
    ensures AllViews(sets, false)
  {
    for p := 0 to |sets|
      invariant forall q :: 0 <= q < p ==> sets[q].View() == SetView({}, false)
    {
      sets[p].Clear();
    }
  }

  method InvertAll(sets: seq<NumberSet>, ghost inverted: bool)
    requires Apart(sets) && AllViews(sets, inverted)
    modifies sets
    ensures AllViews(sets, !inverted)
  {
    for p := 0 to |sets|
      invariant forall q :: 0 <= q < p ==> sets[q].View() == SetView({}, !inverted)
      invariant forall q :: p <= q < |sets| ==> sets[q].View() == SetView({}, inverted)
    {
      sets[p].Invert();
    }
  }

  // The token loop of qualify_syscall_tokens.
  method QualifyAll(w: World, ts: seq<string>, sets: seq<NumberSet>, ghost inverted: bool) returns (ok: bool)
    requires ValidWorld(w) && |sets| == |w.tables| && Apart(sets) && AllViews(sets, inverted)
    modifies sets
    ensures ok <==> ts != [] && forall t :: t in ts ==> Accepted(w, t)
    ensures ok ==> forall p :: 0 <= p < |sets| ==> sets[p].View() == SetView(Listed(w, ts, p), inverted)
  {
    hide Accepted, Adds, Members, Views;
    ok := false;
    for i := 0 to |ts|
      invariant ok <==> i > 0
      invariant forall j :: 0 <= j < i ==> Accepted(w, ts[j])
      invariant forall p :: 0 <= p < |sets| ==> sets[p].View() == SetView(Listed(w, ts[..i], p), inverted)
    {
      ok := QualifyToken(w, ts[i], sets);
      if !ok {
        return;
      }
      assert ts[..i + 1][..i] == ts[..i];
    }
    assert ts[..|ts|] == ts;
  }

  // Clear the sets and invert them for each leading exclamation mark; what is left of the
  // specification is returned.
  method LeadingBangs(spec: string, sets: seq<NumberSet>) returns (s: string)
    requires Apart(sets)
    modifies sets
    ensures s == spec[Bangs(spec)..] && AllViews(sets, Bangs(spec) % 2 == 1)
  {
    hide Members;
    ClearAll(sets);
    s := spec;
    ghost var n := 0;
    while s != [] && s[0] == '!'
      invariant 0 <= n <= |spec| && s == spec[n..] && Bangs(spec) == n + Bangs(s)
      invariant AllViews(sets, n % 2 == 1)
      decreases |s|
    {
      InvertAll(sets, n % 2 == 1);
      s := s[1..];
      n := n + 1;
    }
  }

  // qualify_syscall_tokens; a false result stands for dying with a message.
  method QualifySyscallTokens(w: World, spec: string, sets: seq<NumberSet>) returns (ok: bool)
    requires ValidWorld(w) && |sets| == |w.tables| && Apart(sets)
    modifies sets
    ensures ok <==> AcceptedSpec(w, spec)
    ensures ok ==> forall p, x: nat :: 0 <= p < |sets| ==>
              (sets[p].View().Contains(x) <==> Specified(w, spec, p, x))
  {
    hide Accepted, Adds, Members, Tokens, Bangs;
    var s := LeadingBangs(spec, sets);
    ghost var inverted := Bangs(spec) % 2 == 1;
    if s == "none" {
      return true;
    }
    if s == "all" {
      InvertAll(sets, inverted);
      return true;
    }
    ok := QualifyAll(w, Tokens(s, ','), sets, inverted);
    if ok {
      forall p, x: nat | 0 <= p < |sets|
        ensures sets[p].View().Contains(x) <==> Specified(w, spec, p, x)
      {
        ListedMembers(w, Tokens(s, ','), p, x);
      }
    }
  }

  // ---- sets of other numbers ----

  // qualify_tokens, for a set of numbers read by `number` (-1: no number); a false result stands
  // for dying with a message.
  method QualifyTokens(spec: string, number: string -> int, target: NumberSet) returns (ok: bool)
    modifies target
    ensures var body := spec[Bangs(spec)..];
            var ts := Tokens(body, ',');
            && (ok <==> body in {"none", "all"} || (ts != [] && forall t :: t in ts ==> number(t) >= 0))
            && (ok ==> forall x: nat ::
                  target.View().Contains(x) <==>
                  (body == "all" || (body != "none" && exists t :: t in ts && number(t) == x)) != (Bangs(spec) % 2 == 1))
  {
    hide Members, Tokens, Bangs;
    var s := LeadingBangs(spec, [target]);
    ghost var inverted := Bangs(spec) % 2 == 1;
    assert [target][0].View() == SetView({}, inverted);
    if s == "none" {
      return true;
    }
    if s == "all" {
      target.Invert();
      return true;
    }
    var ts := Tokens(s, ',');
    ok := false;
    for i := 0 to |ts|
      invariant ok <==> i > 0
      invariant forall t :: t in ts[..i] ==> number(t) >= 0
      invariant target.inverted == inverted
      invariant forall x: nat :: x in target.View().members <==> exists t :: t in ts[..i] && number(t) == x
    {
      assert ts[..i + 1] == ts[..i] + [ts[i]];
      ok := number(ts[i]) >= 0;
      if !ok {
        return;
      }
      target.AddNumberToSet(number(ts[i]));
    }
    assert ts[..|ts|] == ts;
  }
}
