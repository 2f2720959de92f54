/** When to inject: the when= expression (src/filter_qualify.c:267-330) and the counting that
    decides, call by call, whether it applies (src/syscall.c:478-500).
 */
module InjectWhen {
  import opened Common
  import Bits
  import opened StringToUint

  const UINT16_MAX: nat := 0xffff
  const INJECT_LAST_INF: nat := UINT16_MAX

  // The fields first, last and step of struct inject_opts.
  datatype When = When(first: nat, last: nat, step: nat)

  const Always: When := When(1, INJECT_LAST_INF, 1)

  predicate Valid(w: When) {
    && 1 <= w.first <= w.last <= INJECT_LAST_INF
    && w.step <= UINT16_MAX
    && (w.last != INJECT_LAST_INF ==> w.step >= 1)
  }

  // ---- the grammar ----

  // The part from the character after the last number on.
  function ParseStep(first: nat, last: nat, rest: string): Option<When> {
    if rest == [] then
      Some(When(first, last, if last == INJECT_LAST_INF then 0 else 1))
    else if rest[1..] == [] then
      Some(When(first, last, 1))
    else
      var p := StringToUintEx(rest[1..], UINT16_MAX, "");
      if p.NoNumber? || p.value < 1 then None else Some(When(first, last, p.value))
  }

  // F, F+, F+S, F..L, F..L+ or F..L+S
  function ParseWhen(val: string): Option<When> {
    var p := StringToUintEx(val, UINT16_MAX, "+.");
    if p.NoNumber? || p.value < 1 then None
    else if p.rest != [] && p.rest[0] == '.' then
      if |p.rest| < 2 || p.rest[1] != '.' then None
      else
        var q := StringToUintEx(p.rest[2..], UINT16_MAX, "+");
        if q.NoNumber? || q.value < p.value || q.value == INJECT_LAST_INF then None
        else ParseStep(p.value, q.value, q.rest)
    else ParseStep(p.value, INJECT_LAST_INF, p.rest)
  }

  function PrintWhen(w: When): string {
    Decimal(w.first)
    + (if w.last == INJECT_LAST_INF then [] else ".." + Decimal(w.last))
    + (if w.last == INJECT_LAST_INF && w.step == 0 then []
       else if w.step == 1 then (if w.last == INJECT_LAST_INF then "+" else [])
       else "+" + Decimal(w.step))
  }

  // The grammar again, as a relation.

  ghost predicate IsNumber(s: string, n: nat) {
    n >= 1 && StringToUintEx(s, UINT16_MAX, "") == Number(n, "")
  }

  // Nothing, + or +S
  ghost predicate IsStep(s: string, last: nat, step: nat) {
    || (s == "" && step == if last == INJECT_LAST_INF then 0 else 1)
    || (s == "+" && step == 1)
    || (s != "" && s[0] == '+' && s[1..] != "" && IsNumber(s[1..], step))
  }

  // F, followed by ..L unless the range is open, followed by the step
  ghost predicate Denotes(val: string, w: When) {
    exists i :: 0 <= i <= |val| && IsNumber(val[..i], w.first) && IsRange(val[i..], w)
  }

  ghost predicate IsRange(s: string, w: When) {
    if w.last == INJECT_LAST_INF then IsStep(s, w.last, w.step)
    else exists j :: 2 <= j <= |s| && s[..2] == ".." && IsNumber(s[2..j], w.last) && w.first <= w.last
                     && IsStep(s[j..], w.last, w.step)
  }

  lemma StepExactly(first: nat, last: nat, rest: string, w: When)
    requires rest == [] || rest[0] == '+'
    ensures ParseStep(first, last, rest) == Some(w) <==>
            w.first == first && w.last == last && IsStep(rest, last, w.step)
  {
    hide StrToLL;
    if rest != [] {
      var p := StringToUintEx(rest[1..], UINT16_MAX, "");
      assert p.Number? ==> p.rest == [];
    }
  }

  lemma ParsedIsDenoted(val: string, w: When)
    requires ParseWhen(val) == Some(w)
    ensures Denotes(val, w)
  {
    hide StringToUintEx, ParseStep, IsStep;
    var p := StringToUintEx(val, UINT16_MAX, "+.");
    var i := ReadsPrefix(val, UINT16_MAX, "+.");
    if p.rest != [] && p.rest[0] == '.' {
      var s := p.rest[2..];
      var q := StringToUintEx(s, UINT16_MAX, "+");
      var j := ReadsPrefix(s, UINT16_MAX, "+");
      StepExactly(p.value, q.value, q.rest, w);
      assert p.rest[2..2 + j] == s[..j] && p.rest[2 + j..] == q.rest && p.rest[..2] == "..";
      assert IsRange(val[i..], w);
    } else {
      StepExactly(p.value, INJECT_LAST_INF, p.rest, w);
    }
  }

  lemma StepStart(s: string, last: nat, step: nat)
    requires IsStep(s, last, step)
    ensures s == [] || s[0] == '+'
  {
    hide StringToUintEx;
  }

  // F..L with a step
  lemma ClosedRangeParses(f: string, l: string, s: string, w: When)
    requires IsNumber(f, w.first) && IsNumber(l, w.last) && IsStep(s, w.last, w.step)
    requires w.first <= w.last != INJECT_LAST_INF
    ensures ParseWhen(f + (".." + (l + s))) == Some(w)
  {
    hide StringToUintEx, ParseStep, IsStep;
    var tail := ".." + (l + s);
    StepStart(s, w.last, w.step);
    ReadsExtend(f, tail, UINT16_MAX, "+.");
    assert tail[2..] == l + s;
    ReadsExtend(l, s, UINT16_MAX, "+");
    StepExactly(w.first, w.last, s, w);
  }

  lemma DenotedIsParsed(val: string, w: When)
    requires Denotes(val, w)
    ensures ParseWhen(val) == Some(w)
  {
    hide StringToUintEx, ParseStep, IsStep, ParseWhen, IsNumber;
    var i :| 0 <= i <= |val| && IsNumber(val[..i], w.first) && IsRange(val[i..], w);
    var f, s := val[..i], val[i..];
    assert val == f + s;
    if w.last == INJECT_LAST_INF {
      OpenRangeParses(f, s, w);
    } else {
      var j :| 2 <= j <= |s| && s[..2] == ".." && IsNumber(s[2..j], w.last) && w.first <= w.last
               && IsStep(s[j..], w.last, w.step);
      assert s == s[..2] + (s[2..j] + s[j..]);
      ClosedRangeParses(f, s[2..j], s[j..], w);
    }
  }

  lemma OpenRangeParses(f: string, s: string, w: When)
    requires IsNumber(f, w.first) && w.last == INJECT_LAST_INF && IsStep(s, w.last, w.step)
    ensures ParseWhen(f + s) == Some(w)
  {
    hide StringToUintEx, ParseStep, IsStep;
    StepStart(s, w.last, w.step);
    ReadsExtend(f, s, UINT16_MAX, "+.");
    StepExactly(w.first, w.last, s, w);
  }

  // The parser accepts exactly the strings of the grammar, with their meaning.
  lemma ParsesTheGrammar(val: string, w: When)
    ensures ParseWhen(val) == Some(w) <==> Denotes(val, w)
  {
    if ParseWhen(val) == Some(w) {
      ParsedIsDenoted(val, w);
    }
    if Denotes(val, w) {
      DenotedIsParsed(val, w);
    }
  }

  // Every accepted expression denotes a valid triple.
  lemma AcceptedIsValid(val: string)
    ensures ParseWhen(val).Some? ==> Valid(ParseWhen(val).value)
  {
  }

  lemma StepParses(first: nat, last: nat, step: nat)
    requires 1 <= step <= UINT16_MAX
    ensures ParseStep(first, last, "+" + Decimal(step)) == Some(When(first, last, step))
  {
    var rest := "+" + Decimal(step);
    assert rest[1..] == Decimal(step) + [];
    DecimalParses(step, [], UINT16_MAX, "");
  }

  // Printing a valid triple and parsing the result gives the triple back.
  lemma RoundTrip(w: When)
    requires Valid(w)
    ensures ParseWhen(PrintWhen(w)) == Some(w)
  {
    hide StringToUintEx;
    var step := if w.last == INJECT_LAST_INF && w.step == 0 then []
                else if w.step == 1 then (if w.last == INJECT_LAST_INF then "+" else [])
                else "+" + Decimal(w.step);
    if w.last == INJECT_LAST_INF {
      assert PrintWhen(w) == Decimal(w.first) + step;
      DecimalParses(w.first, step, UINT16_MAX, "+.");
    } else {
      var tail := ".." + (Decimal(w.last) + step);
      assert PrintWhen(w) == Decimal(w.first) + tail;
      DecimalParses(w.first, tail, UINT16_MAX, "+.");
      assert tail[2..] == Decimal(w.last) + step;
      DecimalParses(w.last, step, UINT16_MAX, "+");
    }
    if w.step > 1 {
      StepParses(w.first, w.last, w.step);
    }
  }

  // ---- the counting ----

  // One more call: whether it is tampered with, and the counters afterwards.
  function Tamper(w: When): (r: (bool, When))
    requires w.first <= UINT16_MAX && w.last <= UINT16_MAX && w.step <= UINT16_MAX
    ensures r.1.first <= UINT16_MAX && r.1.last <= UINT16_MAX && r.1.step == w.step
  {
    if w.first == 0 || w.last == 0 then (false, w)
    else
      var last := if w.last != INJECT_LAST_INF then w.last - 1 else w.last;
      var first := w.first - 1;
      if first != 0 then (false, When(first, last, w.step))
      else (true, When(w.step, last, w.step))
  }

  // The counters after k calls, and whether the k-th call (from 1) was tampered with.

  function Counters(w: When, k: nat): (r: When)
    requires Valid(w)
    ensures r.first <= UINT16_MAX && r.last <= UINT16_MAX && r.step == w.step
  {
    if k == 0 then w else Tamper(Counters(w, k - 1)).1
  }

  predicate Tampered(w: When, k: nat)
    requires Valid(w) && k >= 1
  {
    Tamper(Counters(w, k - 1)).0
  }

  // What the expression says: from call F, up to call L if there is one, every S-th call, or
  // just call F if there is no step.
  predicate Selected(w: When, k: nat) {
    && w.first <= k
    && (w.last != INJECT_LAST_INF ==> k <= w.last)
    && (if w.step == 0 then k == w.first else (k - w.first) % w.step == 0)
  }

  // The counters after k calls, while the range lasts.
  ghost predicate CountersAre(w: When, k: nat, c: When)
    requires Valid(w)
  {
    && (w.last == INJECT_LAST_INF ==> c.last == INJECT_LAST_INF)
    && (w.last != INJECT_LAST_INF ==> c.last == if k < w.last then w.last - k else 0)
    && (w.last == INJECT_LAST_INF || k <= w.last ==>
          c.first == if k < w.first then w.first - k
                     else if w.step == 0 then 0
                     else w.step - (k - w.first) % w.step)
  }

  lemma {:induction false} CountersAfter(w: When, k: nat)
    requires Valid(w)
    ensures CountersAre(w, k, Counters(w, k))
  {
    if k > 0 {
      CountersAfter(w, k - 1);
      if w.step > 0 && k > w.first {
        NextRemainder(k - 1 - w.first, w.step);
      } else if w.step > 0 && k == w.first {
        Zero(w.step);
      }
    }
  }

  lemma NextRemainder(n: nat, s: nat)
    requires s > 0
    ensures (n + 1) % s == if n % s + 1 == s then 0 else n % s + 1
  {
    var q, r := n / s, n % s;
    assert n == q * s + r;
    if r + 1 == s {
      assert n + 1 == (q + 1) * s + 0;
      Remainder(n + 1, s, q + 1, 0);
    } else {
      Remainder(n + 1, s, q, r + 1);
    }
  }

  lemma Remainder(x: nat, s: nat, q: int, r: nat)
    requires s > 0 && r < s && x == q * s + r
    ensures x % s == r
  {
    Bits.DivModUnique(x, s, q, r);
  }

  lemma Zero(s: nat)
    requires s > 0
    ensures 0 % s == 0
  {
  }

  // Counting down tampers with exactly the calls the expression selects.
  lemma CountingIsSelection(w: When, k: nat)
    requires Valid(w) && k >= 1
    ensures Tampered(w, k) <==> Selected(w, k)
  {
    CountersAfter(w, k - 1);
    if w.step > 0 && k > w.first {
      NextRemainder(k - 1 - w.first, w.step);
    } else if w.step > 0 && k == w.first {
      Zero(w.step);
    }
  }
}
