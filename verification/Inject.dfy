/** Fault injection specifications (src/filter_qualify.c:138-157, 259-429, 534-615) and the tables
    they fill.
 */
module Inject {
  import opened Common
  import opened NumberSets
  import opened StringToUint
  import opened InjectWhen
  import Qualify
  import Delay

  const NO_INDEX: nat := 0xffff
  const ENOSYS: nat := 38
  const MAX_ERRNO_VALUE: nat := 4095
  const MAX_SIGNAL: nat := 64

  type Errno = n: int | 1 <= n <= MAX_ERRNO_VALUE witness 1

  datatype Flag =
    | FSignal | FError | FRetval | FDelayEnter | FDelayExit | FSyscall | FPokeEnter | FPokeExit

  // INJECT_ACTION_FLAGS: everything but the replacement syscall.
  const ActionFlags: set<Flag> :=
    {FSignal, FError, FRetval, FDelayEnter, FDelayExit, FPokeEnter, FPokeExit}

  // struct inject_opts; the value to return is kept itself instead of its index.
  datatype Opts = Opts(when: When, flags: set<Flag>, signo: nat, retval: nat, delayIdx: nat, scno: nat)

  const DefaultOpts: Opts := Opts(Always, {}, 0, 0, NO_INDEX, 0)

  // What the values of tokens are read by: errno names, strtoull, signal names, the poke list,
  // parse_ts, and the search for a syscall without side effects in the table of a personality.
  datatype Readers = Readers(
    errnoOf: string -> Option<Errno>,
    retvalOf: string -> Option<nat>,
    signalOf: string -> Option<nat>,
    pokesValid: string -> bool,
    delayOf: string -> Option<nat>,
    pureScno: (string, nat) -> Option<nat>)

  // What a specification may come to hold.
  ghost predicate WellFormed(o: Opts, arenaSize: nat) {
    && Valid(o.when)
    && !(FError in o.flags && FRetval in o.flags)
    && (FDelayEnter in o.flags || FDelayExit in o.flags ==> o.delayIdx < arenaSize)
    && (o.delayIdx == NO_INDEX || o.delayIdx < arenaSize)
    && (FSignal in o.flags ==> 1 <= o.signo <= MAX_SIGNAL)
    && (FError in o.flags ==> 1 <= o.retval <= MAX_ERRNO_VALUE)
  }

  // ---- tokens ----

  datatype Kind =
    | KWhen | KSyscall | KError | KRetval | KSignal | KPoke(enter: bool) | KDelay(enter: bool) | KUnknown

  function Keyword(kind: Kind): string {
    match kind
    case KWhen => "when="
    case KSyscall => "syscall="
    case KError => "error="
    case KRetval => "retval="
    case KSignal => "signal="
    case KPoke(enter) => if enter then "poke_enter=" else "poke_exit="
    case KDelay(enter) => if enter then "delay_enter=" else "delay_exit="
    case KUnknown => ""
  }

  predicate Is(token: string, kind: Kind) {
    Keyword(kind) <= token
  }

  // STR_STRIP_PREFIX, one prefix after the other.
  function Classify(token: string): (Kind, string) {
    var kind :=
      if Is(token, KWhen) then KWhen
      else if Is(token, KSyscall) then KSyscall
      else if Is(token, KError) then KError
      else if Is(token, KRetval) then KRetval
      else if Is(token, KSignal) then KSignal
      else if Is(token, KPoke(true)) then KPoke(true)
      else if Is(token, KPoke(false)) then KPoke(false)
      else if Is(token, KDelay(true)) then KDelay(true)
      else if Is(token, KDelay(false)) then KDelay(false)
      else KUnknown;
    (kind, if Is(token, kind) then token[|Keyword(kind)|..] else token)
  }

  lemma KeywordsApart(a: Kind, b: Kind, token: string)
    requires a != b && a != KUnknown && b != KUnknown
    ensures !(Is(token, a) && Is(token, b))
  {
    var at := if a.KPoke? && b.KPoke? then 6
              else if a.KDelay? && b.KDelay? then 7
              else if a in {KSyscall, KSignal} && b in {KSyscall, KSignal} then 1
              else 0;
    assert Keyword(a)[at] != Keyword(b)[at];
    if Is(token, a) {
      assert token[at] == Keyword(a)[at];
    }
  }

  // A token is a keyword and its value, and no keyword hides another.
  lemma ClassifyExactly(token: string, kind: Kind, val: string)
    requires kind != KUnknown
    ensures Classify(token) == (kind, val) <==> token == Keyword(kind) + val
  {
    hide Keyword, Is;
    KeywordIs(token, kind, val);
    forall k: Kind | k != kind && k != KUnknown
      ensures !(Is(token, k) && Is(token, kind))
    {
      KeywordsApart(k, kind, token);
    }
    match kind
    case KPoke(enter) => assert kind == KPoke(true) || kind == KPoke(false);
    case KDelay(enter) => assert kind == KDelay(true) || kind == KDelay(false);
    case _ =>
  }

  // The tokens of the language, as they are written.
  lemma TokenKinds(val: string)
    ensures Classify("when=" + val) == (KWhen, val) && Classify("syscall=" + val) == (KSyscall, val)
    ensures Classify("error=" + val) == (KError, val) && Classify("retval=" + val) == (KRetval, val)
    ensures Classify("signal=" + val) == (KSignal, val)
    ensures Classify("poke_enter=" + val) == (KPoke(true), val) && Classify("poke_exit=" + val) == (KPoke(false), val)
    ensures Classify("delay_enter=" + val) == (KDelay(true), val) && Classify("delay_exit=" + val) == (KDelay(false), val)
  {
    hide Classify;
    ClassifyExactly("when=" + val, KWhen, val);
    ClassifyExactly("syscall=" + val, KSyscall, val);
    ClassifyExactly("error=" + val, KError, val);
    ClassifyExactly("retval=" + val, KRetval, val);
    ClassifyExactly("signal=" + val, KSignal, val);
    ClassifyExactly("poke_enter=" + val, KPoke(true), val);
    ClassifyExactly("poke_exit=" + val, KPoke(false), val);
    ClassifyExactly("delay_enter=" + val, KDelay(true), val);
    ClassifyExactly("delay_exit=" + val, KDelay(false), val);
  }

  lemma KeywordIs(token: string, kind: Kind, val: string)
    ensures Is(token, kind) ==> |Keyword(kind)| <= |token|
    ensures Is(token, kind) && token[|Keyword(kind)|..] == val <==> token == Keyword(kind) + val
  {
    hide Keyword;
    var w := Keyword(kind);
    if w <= token {
      assert token == w + token[|w|..];
    }
  }

  function KindOf(token: string): Kind {
    Classify(token).0
  }

  function ValueOf(token: string): string {
    Classify(token).1
  }

  // The flag a kind of token stands for.
  function FlagsOf(kind: Kind): set<Flag> {
    match kind
    case KSyscall => {FSyscall}
    case KError => {FError}
    case KRetval => {FRetval}
    case KSignal => {FSignal}
    case KPoke(enter) => {if enter then FPokeEnter else FPokeExit}
    case KDelay(enter) => {if enter then FDelayEnter else FDelayExit}
    case _ => {}
  }

  // What a token changes besides the delay arena: its flag, which must be new, and its value.
  ghost predicate Effect(rd: Readers, token: string, o: Opts, r: Opts) {
    var kind, val := KindOf(token), ValueOf(token);
    && kind != KUnknown
    && o.flags !! FlagsOf(kind)
    && r.flags == o.flags + FlagsOf(kind)
    && (if kind == KWhen then ParseWhen(val) == Some(r.when) else r.when == o.when)
    && (if kind == KSignal then rd.signalOf(val) == Some(r.signo) else r.signo == o.signo)
    && (if kind == KError then r.retval == ErrnoValue(rd, val) >= 1
        else if kind == KRetval then rd.retvalOf(val) == Some(r.retval)
        else r.retval == o.retval)
    && (kind.KDelay? || r.delayIdx == o.delayIdx)
    && r.scno == o.scno
  }

  // A number up to the highest errno, or the name of one; 0 if it is neither.
  function ErrnoValue(rd: Readers, val: string): nat {
    var n := StringToUintEx(val, MAX_ERRNO_VALUE, "");
    if n.Number? then n.value
    else if rd.errnoOf(val).Some? then rd.errnoOf(val).value
    else 0
  }

  // A decimal number stands for itself up to the highest errno, and a name for its errno; nothing
  // else is an error.
  lemma ErrnoValues(rd: Readers, n: nat, name: string)
    ensures n <= MAX_ERRNO_VALUE ==> ErrnoValue(rd, Decimal(n)) == n
    ensures n > MAX_ERRNO_VALUE && rd.errnoOf(Decimal(n)).None? ==> ErrnoValue(rd, Decimal(n)) == 0
    ensures StrToLL(name).NoNumber? && rd.errnoOf(name).Some? ==> ErrnoValue(rd, name) == rd.errnoOf(name).value
    ensures StrToLL(name).NoNumber? && rd.errnoOf(name).None? ==> ErrnoValue(rd, name) == 0
    ensures ErrnoValue(rd, name) <= MAX_ERRNO_VALUE
  {
    hide Decimal, StrToLL;
    assert Decimal(n) + [] == Decimal(n);
    if n <= MAX_ERRNO_VALUE {
      DecimalParses(n, [], MAX_ERRNO_VALUE, "");
    } else {
      DecimalRefused(n, [], MAX_ERRNO_VALUE, "");
    }
  }

  // When a token is taken: its flag is new, an error and a return value exclude each other, and
  // its value can be read.
  predicate Acceptable(rd: Readers, token: string, flags: set<Flag>, pers: nat) {
    var kind, val := KindOf(token), ValueOf(token);
    && flags !! FlagsOf(kind)
    && match kind
       case KWhen => ParseWhen(val).Some?
       case KSyscall => forall p :: 0 <= p < pers ==> rd.pureScno(val, p).Some?
       case KError => FRetval !in flags && ErrnoValue(rd, val) >= 1
       case KRetval => FError !in flags && rd.retvalOf(val).Some?
       case KSignal => rd.signalOf(val).Some? && 1 <= rd.signalOf(val).value <= MAX_SIGNAL
       case KPoke(_) => rd.pokesValid(val)
       case KDelay(_) => rd.delayOf(val).Some?
       case KUnknown => false
  }

  // The delays an option refers to are the given ones.
  ghost predicate DelaysAre(o: Opts, used: seq<Delay.DelayData>, enter: nat, exit: nat) {
    && (FDelayEnter in o.flags ==> o.delayIdx < |used| && used[o.delayIdx].enter == enter)
    && (FDelayExit in o.flags ==> o.delayIdx < |used| && used[o.delayIdx].exit == exit)
  }

  // At most the slot of the option changes, and a slot is added only for an option without one.
  ghost predicate Grown(o: Opts, r: Opts, before: seq<Delay.DelayData>, after: seq<Delay.DelayData>) {
    && |after| >= |before|
    && (forall i :: 0 <= i < |before| && i != r.delayIdx ==> after[i] == before[i])
    && (if o.delayIdx == NO_INDEX then r.delayIdx == |before| && |after| == |before| + 1
        else r.delayIdx == o.delayIdx && |after| == |before|)
  }

  class Parser {
    const readers: Readers
    const arena: Delay.Arena

    constructor (readers: Readers, arena: Delay.Arena)
      ensures this.readers == readers && this.arena == arena
    {
      this.readers, this.arena := readers, arena;
    }

    // parse_delay_token
    method ParseDelay(token: string, o: Opts, isEnter: bool, ghost enter: nat, ghost exit: nat)
      returns (ok: bool, r: Opts)
      requires KindOf(token) == KDelay(isEnter)
      requires arena.Valid() && WellFormed(o, arena.size) && DelaysAre(o, arena.Used(), enter, exit)
      modifies arena
      ensures arena.Valid() && arena.size >= old(arena.size)
      ensures ok <==> Acceptable(readers, token, o.flags, 0)
                      && (o.delayIdx == NO_INDEX ==> old(arena.size) < Delay.UINT16_LIMIT)
      ensures ok ==> WellFormed(r, arena.size) && Effect(readers, token, o, r)
      ensures ok ==> Grown(o, r, old(arena.Used()), arena.Used())
      ensures ok ==> readers.delayOf(ValueOf(token)).Some?
                     && var d := readers.delayOf(ValueOf(token)).value;
                        DelaysAre(r, arena.Used(), if isEnter then d else enter, if isEnter then exit else d)
    {
      hide Classify;
      var input := ValueOf(token);
      var flag := if isEnter then FDelayEnter else FDelayExit;
      if flag in o.flags || readers.delayOf(input).None? {
        return false, o;
      }
      r := o;
      if r.delayIdx == NO_INDEX {
        var idx: nat;
        ok, idx := arena.Alloc();
        if !ok {
          return;
        }
        r := r.(delayIdx := idx);
      }
      ok := arena.Fill(r.delayIdx, readers.delayOf(input).value, isEnter);
      if !ok {
        return;
      }
      r := r.(flags := r.flags + {flag});
    }

    // The branch of parse_inject_token for syscall=.
    method ParseSyscall(token: string, o: Opts, pdata: seq<nat>) returns (ok: bool, r: Opts, pdata': seq<nat>)
      requires KindOf(token) == KSyscall && WellFormed(o, arena.size)
      ensures ok <==> Acceptable(readers, token, o.flags, |pdata|)
      ensures ok ==> WellFormed(r, arena.size) && Effect(readers, token, o, r)
      ensures ok ==> |pdata'| == |pdata|
                     && forall p :: 0 <= p < |pdata| ==> readers.pureScno(ValueOf(token), p) == Some(pdata'[p])
    {
      hide Classify;
      r, pdata' := o, pdata;
      if FSyscall in o.flags {
        return false, o, pdata;
      }
      for p := 0 to |pdata|
        invariant |pdata'| == |pdata|
        invariant forall q :: 0 <= q < p ==> readers.pureScno(ValueOf(token), q) == Some(pdata'[q])
      {
        var scno := readers.pureScno(ValueOf(token), p);
        if scno.None? {
          return false, o, pdata;
        }
        pdata' := pdata'[p := scno.value];
      }
      ok, r := true, o.(flags := o.flags + {FSyscall});
    }

    // The branches for error= and retval=.
    method ParseReturn(token: string, o: Opts) returns (ok: bool, r: Opts)
      requires KindOf(token) == KError || KindOf(token) == KRetval
      requires WellFormed(o, arena.size)
      ensures ok <==> Acceptable(readers, token, o.flags, 0)
      ensures ok ==> WellFormed(r, arena.size) && Effect(readers, token, o, r)
    {
      hide Classify, ParseWhen;
      var val := ValueOf(token);
      if FError in o.flags || FRetval in o.flags {
        return false, o;
      }
      if KindOf(token) == KError {
        var e := ErrnoValue(readers, val);
        if e < 1 {
          return false, o;
        }
        return true, o.(retval := e, flags := o.flags + {FError});
      }
      var v := readers.retvalOf(val);
      if v.None? {
        return false, o;
      }
      ok, r := true, o.(retval := v.value, flags := o.flags + {FRetval});
    }

    // The branches that need neither the arena nor the syscall tables.
    method ParseValue(token: string, o: Opts) returns (ok: bool, r: Opts)
      requires !KindOf(token).KDelay? && KindOf(token) != KSyscall
      requires WellFormed(o, arena.size)
      ensures ok <==> Acceptable(readers, token, o.flags, 0)
      ensures ok ==> WellFormed(r, arena.size) && Effect(readers, token, o, r)
    {
      hide Classify, ErrnoValue;
      var val := ValueOf(token);
      match KindOf(token)
      case KWhen =>
        var w := ParseWhen(val);
        if w.None? {
          return false, o;
        }
        AcceptedIsValid(val);
        return true, o.(when := w.value);
      case KError =>
        ok, r := ParseReturn(token, o);
      case KRetval =>
        ok, r := ParseReturn(token, o);
      case KSignal =>
        var s := readers.signalOf(val);
        if FSignal in o.flags || s.None? || s.value < 1 || s.value > MAX_SIGNAL {
          return false, o;
        }
        return true, o.(signo := s.value, flags := o.flags + {FSignal});
      case KPoke(enter) =>
        var flag := if enter then FPokeEnter else FPokeExit;
        if flag in o.flags || !readers.pokesValid(val) {
          return false, o;
        }
        return true, o.(flags := o.flags + {flag});
      case _ =>
        return false, o;
    }

    // parse_inject_token
    method ParseToken(token: string, o: Opts, pdata: seq<nat>, faultOnly: bool, ghost enter: nat, ghost exit: nat)
      returns (ok: bool, r: Opts, pdata': seq<nat>)
      requires arena.Valid() && WellFormed(o, arena.size) && DelaysAre(o, arena.Used(), enter, exit)
      modifies arena
      ensures arena.Valid() && arena.size >= old(arena.size)
      ensures ok ==> WellFormed(r, arena.size) && Effect(readers, token, o, r) && |pdata'| == |pdata|
      ensures ok ==> DelaysAre(r, arena.Used(), DelayNext(readers, token, true, enter),
                               DelayNext(readers, token, false, exit))
      ensures ok <==>
                && Acceptable(readers, token, o.flags, |pdata|)
                && (faultOnly ==> KindOf(token) in {KWhen, KSyscall, KError})
                && (KindOf(token).KDelay? && o.delayIdx == NO_INDEX ==> old(arena.size) < Delay.UINT16_LIMIT)
      ensures ok ==> ScnosNext(readers, token, pdata, pdata')
      ensures ok ==> if KindOf(token).KDelay? then Grown(o, r, old(arena.Used()), arena.Used())
                     else arena.Used() == old(arena.Used())
    {
      hide Classify, WellFormed, ErrnoValue, StringToUintEx, ParseWhen;
      var kind := KindOf(token);
      r, pdata' := o, pdata;
      if faultOnly && kind !in {KWhen, KSyscall, KError} {
        return false, o, pdata;
      }
      if kind == KSyscall {
        ok, r, pdata' := ParseSyscall(token, o, pdata);
      } else if kind.KDelay? {
        ok, r := ParseDelay(token, o, kind.enter, enter, exit);
      } else {
        ok, r := ParseValue(token, o);
      }
    }
  }

  // The delay after a token: its own if it is one for this side of the call.
  ghost function DelayNext(rd: Readers, token: string, isEnter: bool, d: nat): nat {
    if KindOf(token) == KDelay(isEnter) && rd.delayOf(ValueOf(token)).Some? then rd.delayOf(ValueOf(token)).value else d
  }

  // The replacement syscalls after a token.
  ghost predicate ScnosNext(rd: Readers, token: string, before: seq<nat>, after: seq<nat>) {
    if KindOf(token) == KSyscall
    then forall p :: 0 <= p < |after| ==> rd.pureScno(ValueOf(token), p) == Some(after[p])
    else after == before
  }

  // ---- expressions ----

  // The options that tokens add up to, the delay index aside: the union of their flags and, for
  // every value, that of the last token that gives one.
  ghost predicate Denoted(rd: Readers, ts: seq<string>, o: Opts) {
    && o.flags == AllFlags(ts)
    && o.when == WhenOf(ts)
    && o.signo == SignoOf(rd, ts)
    && o.retval == RetvalOf(rd, ts)
    && o.scno == 0
  }

  ghost function AllFlags(ts: seq<string>): set<Flag> {
    if ts == [] then {} else AllFlags(ts[..|ts| - 1]) + FlagsOf(KindOf(ts[|ts| - 1]))
  }

  ghost function WhenOf(ts: seq<string>): When {
    if ts == [] then Always
    else
      var last := ts[|ts| - 1];
      if KindOf(last) == KWhen && ParseWhen(ValueOf(last)).Some? then ParseWhen(ValueOf(last)).value
      else WhenOf(ts[..|ts| - 1])
  }

  ghost function SignoOf(rd: Readers, ts: seq<string>): nat {
    if ts == [] then 0
    else
      var last := ts[|ts| - 1];
      if KindOf(last) == KSignal && rd.signalOf(ValueOf(last)).Some? then rd.signalOf(ValueOf(last)).value
      else SignoOf(rd, ts[..|ts| - 1])
  }

  ghost function RetvalOf(rd: Readers, ts: seq<string>): nat {
    if ts == [] then 0
    else
      var last := ts[|ts| - 1];
      if KindOf(last) == KError then ErrnoValue(rd, ValueOf(last))
      else if KindOf(last) == KRetval && rd.retvalOf(ValueOf(last)).Some? then rd.retvalOf(ValueOf(last)).value
      else RetvalOf(rd, ts[..|ts| - 1])
  }

  ghost predicate ScnosAre(rd: Readers, ts: seq<string>, scnos: seq<nat>) {
    if ts == [] then forall p :: 0 <= p < |scnos| ==> scnos[p] == 0
    else
      var last := ts[|ts| - 1];
      if KindOf(last) == KSyscall
      then forall p :: 0 <= p < |scnos| ==> rd.pureScno(ValueOf(last), p) == Some(scnos[p])
      else ScnosAre(rd, ts[..|ts| - 1], scnos)
  }

  ghost function DelayOf(rd: Readers, ts: seq<string>, isEnter: bool): nat {
    if ts == [] then 0 else DelayNext(rd, ts[|ts| - 1], isEnter, DelayOf(rd, ts[..|ts| - 1], isEnter))
  }

  lemma DenotedNext(rd: Readers, ts: seq<string>, i: nat, o: Opts, r: Opts)
    requires i < |ts| && Denoted(rd, ts[..i], o) && Effect(rd, ts[i], o, r)
    ensures Denoted(rd, ts[..i + 1], r)
  {
    hide Classify, ErrnoValue, ParseWhen;
    assert ts[..i + 1][..i] == ts[..i];
  }

  // The part of a specification before the first colon.
  function NameOf(spec: string): string {
    if spec == [] || spec[0] == ':' then "" else spec[..FirstOf(spec, ':')]
  }

  // The tokens behind it.
  function TokensOf(spec: string): seq<string> {
    if spec == [] || spec[0] == ':' then [] else Qualify.Tokens(spec[FirstOf(spec, ':')..], ':')
  }

  // How a specification is taken apart: its name, and the tokens joined by colons behind it.
  lemma SpecParts(name: string, ts: seq<string>)
    requires name != [] && ':' !in name
    requires forall i :: 0 <= i < |ts| ==> ts[i] != [] && ':' !in ts[i]
    ensures NameOf(name) == name && TokensOf(name) == []
    ensures NameOf(name + (":" + Qualify.Join(ts, ':'))) == name
    ensures TokensOf(name + (":" + Qualify.Join(ts, ':'))) == ts
  {
    hide FirstOf, Qualify.Tokens, Qualify.Join;
    var rest := ":" + Qualify.Join(ts, ':');
    var spec := name + rest;
    assert name[0] in name && spec[0] == name[0];
    FirstAfter(name, rest, ':');
    FirstAfter(name, [], ':');
    assert name + [] == name && name[|name|..] == [] && name[..|name|] == name;
    assert spec[..|name|] == name && spec[|name|..] == rest;
    TokensBehind(Qualify.Join(ts, ':'));
    Qualify.TokensOfJoin(ts, ':');
  }

  lemma TokensBehind(rest: string)
    ensures Qualify.Tokens([], ':') == [] && Qualify.Tokens(":" + rest, ':') == Qualify.Tokens(rest, ':')
  {
    assert (":" + rest)[1..] == rest;
  }

  // A specification without a name has none, and no tokens.
  lemma NamelessSpec(rest: string)
    ensures NameOf("") == NameOf(":" + rest) == "" && TokensOf("") == TokensOf(":" + rest) == []
  {
  }

  // What the tokens of a specification, and the default of fault=, come to.
  ghost predicate Meant(rd: Readers, ts: seq<string>, faultOnly: bool, o: Opts) {
    if AllFlags(ts) * ActionFlags != {} then Denoted(rd, ts, o)
    else faultOnly && o.flags == AllFlags(ts) + {FError} && o.retval == ENOSYS && o.when == WhenOf(ts)
  }

  // When the tokens are taken, one after the other.
  ghost predicate Taken(rd: Readers, ts: seq<string>, pers: nat, faultOnly: bool) {
    forall i :: 0 <= i < |ts| ==> TakenAt(rd, ts, i, pers, faultOnly)
  }

  ghost predicate TakenAt(rd: Readers, ts: seq<string>, i: nat, pers: nat, faultOnly: bool)
    requires i < |ts|
  {
    && Acceptable(rd, ts[i], AllFlags(ts[..i]), pers)
    && (faultOnly ==> KindOf(ts[i]) in {KWhen, KSyscall, KError})
  }

  // The arena takes one more delay; the index of its last slot reads as none, so that a second
  // delay would want another slot.
  predicate Room(flags: set<Flag>, size: nat) {
    && (FDelayEnter in flags || FDelayExit in flags ==> size < Delay.UINT16_LIMIT)
    && (FDelayEnter in flags && FDelayExit in flags ==> size != NO_INDEX)
  }

  // Where the delays of a specification are: in a slot of their own.
  ghost predicate Placed(o: Opts, before: seq<Delay.DelayData>, after: seq<Delay.DelayData>) {
    && before <= after
    && Room(o.flags, |before|)
    && (if FDelayEnter in o.flags || FDelayExit in o.flags then o.delayIdx == |before| == |after| - 1
        else o.delayIdx == NO_INDEX && after == before)
  }

  lemma PlacedNext(rd: Readers, token: string, o: Opts, r: Opts, start: seq<Delay.DelayData>,
                   before: seq<Delay.DelayData>, after: seq<Delay.DelayData>)
    requires Placed(o, start, before) && Effect(rd, token, o, r)
    requires KindOf(token).KDelay? && o.delayIdx == NO_INDEX ==> |before| < Delay.UINT16_LIMIT
    requires if KindOf(token).KDelay? then Grown(o, r, before, after) else after == before
    ensures Placed(r, start, after)
  {
    hide Classify, ErrnoValue, ParseWhen;
  }

  lemma {:induction false} FlagsMono(ts: seq<string>, i: nat)
    requires i < |ts|
    ensures AllFlags(ts[..i]) + FlagsOf(KindOf(ts[i])) <= AllFlags(ts)
  {
    hide Classify;
    var init := ts[..|ts| - 1];
    if i < |ts| - 1 {
      FlagsMono(init, i);
      assert init[..i] == ts[..i];
    }
  }

  // The options, syscalls and delays are those of the tokens.
  ghost predicate Reads(rd: Readers, ts: seq<string>, o: Opts, scnos: seq<nat>,
                        start: seq<Delay.DelayData>, used: seq<Delay.DelayData>) {
    && WellFormed(o, |used|)
    && Denoted(rd, ts, o)
    && ScnosAre(rd, ts, scnos)
    && DelaysAre(o, used, DelayOf(rd, ts, true), DelayOf(rd, ts, false))
    && Placed(o, start, used)
  }

  lemma ReadsNext(rd: Readers, ts: seq<string>, i: nat, o: Opts, scnos: seq<nat>, used: seq<Delay.DelayData>,
                  r: Opts, scnos': seq<nat>, used': seq<Delay.DelayData>, start: seq<Delay.DelayData>)
    requires i < |ts| && Reads(rd, ts[..i], o, scnos, start, used)
    requires WellFormed(r, |used'|) && Effect(rd, ts[i], o, r) && ScnosNext(rd, ts[i], scnos, scnos')
    requires DelaysAre(r, used', DelayNext(rd, ts[i], true, DelayOf(rd, ts[..i], true)),
                       DelayNext(rd, ts[i], false, DelayOf(rd, ts[..i], false)))
    requires KindOf(ts[i]).KDelay? && o.delayIdx == NO_INDEX ==> |used| < Delay.UINT16_LIMIT
    requires if KindOf(ts[i]).KDelay? then Grown(o, r, used, used') else used' == used
    ensures Reads(rd, ts[..i + 1], r, scnos', start, used')
  {
    hide WellFormed, Effect, Denoted, Classify, Placed, Grown, DelaysAre, DelayNext;
    assert ts[..i + 1][..i] == ts[..i];
    DenotedNext(rd, ts, i, o, r);
    PlacedNext(rd, ts[i], o, r, start, used, used');
  }

  lemma ReadsFlags(rd: Readers, ts: seq<string>, o: Opts, scnos: seq<nat>,
                   start: seq<Delay.DelayData>, used: seq<Delay.DelayData>)
    requires Reads(rd, ts, o, scnos, start, used)
    ensures WellFormed(o, |used|) && DelaysAre(o, used, DelayOf(rd, ts, true), DelayOf(rd, ts, false))
    ensures o.flags == AllFlags(ts) && Room(o.flags, |start|)
  {
    hide WellFormed, Classify, DelaysAre, DelayOf, ScnosAre;
  }

  // No room for a token, no room for all of them.
  lemma NoRoom(rd: Readers, ts: seq<string>, i: nat, pers: nat, o: Opts, scnos: seq<nat>,
               start: seq<Delay.DelayData>, used: seq<Delay.DelayData>)
    requires i < |ts| && Reads(rd, ts[..i], o, scnos, start, used)
    requires KindOf(ts[i]).KDelay? && Acceptable(rd, ts[i], AllFlags(ts[..i]), pers)
    requires o.delayIdx == NO_INDEX && |used| >= Delay.UINT16_LIMIT
    ensures !Room(AllFlags(ts), |start|)
  {
    hide Classify, WellFormed, ScnosAre, DelaysAre, DelayOf, ErrnoValue, ParseWhen;
    FlagsMono(ts, i);
  }

  // The token loop of parse_inject_expression.
  method ParseTokens(parser: Parser, ts: seq<string>, pers: nat, faultOnly: bool)
    returns (ok: bool, o: Opts, scnos: seq<nat>)
    requires parser.arena.Valid()
    modifies parser.arena
    ensures parser.arena.Valid() && parser.arena.size >= old(parser.arena.size)
    ensures ok <==> Taken(parser.readers, ts, pers, faultOnly) && Room(AllFlags(ts), old(parser.arena.size))
    ensures ok ==> |scnos| == pers
    ensures ok ==> Reads(parser.readers, ts, o, scnos, old(parser.arena.Used()), parser.arena.Used())
  {
    hide WellFormed, Effect, Classify, Acceptable, DelaysAre, Grown, Room, Reads, DelayOf, AllFlags;
    var rd := parser.readers;
    ghost var start := parser.arena.Used();
    o, scnos := DefaultOpts, seq(pers, _ => 0);
    Defaults(rd, scnos, start);
    for i := 0 to |ts|
      invariant parser.arena.Valid() && parser.arena.size >= |start| && |scnos| == pers
      invariant forall j :: 0 <= j < i ==> TakenAt(rd, ts, j, pers, faultOnly)
      invariant Reads(rd, ts[..i], o, scnos, start, parser.arena.Used())
    {
      ghost var before, scnos0, used := o, scnos, parser.arena.Used();
      ReadsFlags(rd, ts[..i], o, scnos, start, used);
      ok, o, scnos := parser.ParseToken(ts[i], o, scnos, faultOnly,
                                        DelayOf(rd, ts[..i], true), DelayOf(rd, ts[..i], false));
      if !ok {
        if TakenAt(rd, ts, i, pers, faultOnly) {
          NoRoom(rd, ts, i, pers, before, scnos0, start, used);
        }
        return;
      }
      ReadsNext(rd, ts, i, before, scnos0, used, o, scnos, parser.arena.Used(), start);
    }
    assert ts[..|ts|] == ts;
    ReadsFlags(rd, ts, o, scnos, start, parser.arena.Used());
    ok := true;
  }

  // parse_inject_expression, and the default of fault= specifications.
  method ParseExpression(parser: Parser, spec: string, pers: nat, faultOnly: bool)
    returns (ok: bool, o: Opts, scnos: seq<nat>)
    requires parser.arena.Valid()
    modifies parser.arena
    ensures parser.arena.Valid() && parser.arena.size >= old(parser.arena.size)
    ensures ok <==> AcceptedExpression(parser.readers, TokensOf(spec), pers, faultOnly, old(parser.arena.size))
    ensures ok ==> GoodOpts(o, parser.arena.size) && |scnos| == pers
    ensures ok ==> Meant(parser.readers, TokensOf(spec), faultOnly, o)
                   && ScnosAre(parser.readers, TokensOf(spec), scnos)
    ensures ok ==> DelaysAre(o, parser.arena.Used(), DelayOf(parser.readers, TokensOf(spec), true),
                             DelayOf(parser.readers, TokensOf(spec), false))
    ensures ok ==> old(parser.arena.Used()) <= parser.arena.Used()
  {
    hide WellFormed, Denoted, Classify, TokensOf, Taken, Room, ScnosAre, DelayOf, AllFlags;
    var ts := TokensOf(spec);
    ok, o, scnos := ParseTokens(parser, ts, pers, faultOnly);
    if !ok {
      return;
    }
    DenotedFlags(parser.readers, ts, o);
    if o.flags * ActionFlags == {} {
      if !faultOnly {
        return false, o, scnos;
      }
      DefaultError(o, parser.arena.size);
      o := o.(retval := ENOSYS, flags := o.flags + {FError});
      assert FError in o.flags * ActionFlags;
    }
  }

  // When the tokens of a specification are accepted: inject= wants an action.
  ghost predicate AcceptedExpression(rd: Readers, ts: seq<string>, pers: nat, faultOnly: bool, arenaSize: nat) {
    && Taken(rd, ts, pers, faultOnly)
    && Room(AllFlags(ts), arenaSize)
    && (faultOnly || AllFlags(ts) * ActionFlags != {})
  }

  // Readers that read every delay as a microsecond.
  const SampleReaders: Readers :=
    Readers(_ => None, _ => None, _ => None, _ => false, _ => Some(1000), (_, _) => None)

  // Either of two delays has room in the last slot of the arena, but not both; one slot earlier
  // they have.
  lemma LastSlotExample(pers: nat)
    ensures var rd, t1, t2 := SampleReaders, "delay_enter=1", "delay_exit=1";
            && AcceptedExpression(rd, [t1], pers, false, 0xffff)
            && AcceptedExpression(rd, [t2], pers, false, 0xffff)
            && AcceptedExpression(rd, [t1, t2], pers, false, 0xfffe)
            && !AcceptedExpression(rd, [t1, t2], pers, false, 0xffff)
  {
    var t1, t2 := "delay_enter=1", "delay_exit=1";
    assert t1 == Keyword(KDelay(true)) + "1" && t2 == Keyword(KDelay(false)) + "1";
    LastSlot(SampleReaders, "1", "1", pers);
  }

  lemma LastSlot(rd: Readers, enter: string, exit: string, pers: nat)
    requires rd.delayOf(enter).Some? && rd.delayOf(exit).Some?
    ensures var t1, t2 := Keyword(KDelay(true)) + enter, Keyword(KDelay(false)) + exit;
            && AcceptedExpression(rd, [t1], pers, false, NO_INDEX)
            && AcceptedExpression(rd, [t2], pers, false, NO_INDEX)
            && AcceptedExpression(rd, [t1, t2], pers, false, NO_INDEX - 1)
            && !AcceptedExpression(rd, [t1, t2], pers, false, NO_INDEX)
  {
    hide Classify, Keyword, ParseWhen, ErrnoValue;
    var t1, t2 := Keyword(KDelay(true)) + enter, Keyword(KDelay(false)) + exit;
    ClassifyExactly(t1, KDelay(true), enter);
    ClassifyExactly(t2, KDelay(false), exit);
    OneFlag(t1);
    OneFlag(t2);
    assert [t1, t2][..0] == [] && [t1, t2][..1] == [t1];
    assert AllFlags([t1, t2]) == {FDelayEnter, FDelayExit};
    assert FDelayEnter in ActionFlags && FDelayExit in ActionFlags;
    assert TakenAt(rd, [t1], 0, pers, false) && TakenAt(rd, [t2], 0, pers, false);
    assert TakenAt(rd, [t1, t2], 0, pers, false) && TakenAt(rd, [t1, t2], 1, pers, false);
  }

  lemma OneFlag(token: string)
    ensures [token][..0] == [] && AllFlags([token]) == FlagsOf(KindOf(token))
  {
    hide Classify;
    assert [token][..0] == [];
  }

  // The value a token gives is in force, the delay index aside.
  ghost predicate InForce(rd: Readers, ts: seq<string>, token: string, scnos: seq<nat>) {
    var kind, val := KindOf(token), ValueOf(token);
    && FlagsOf(kind) <= AllFlags(ts)
    && (kind == KSignal ==> rd.signalOf(val) == Some(SignoOf(rd, ts)))
    && (kind == KError ==> RetvalOf(rd, ts) == ErrnoValue(rd, val))
    && (kind == KRetval ==> rd.retvalOf(val) == Some(RetvalOf(rd, ts)))
    && (kind.KDelay? ==> rd.delayOf(val) == Some(DelayOf(rd, ts, kind.enter)))
    && (kind == KSyscall && ScnosAre(rd, ts, scnos) ==>
          forall p :: 0 <= p < |scnos| ==> rd.pureScno(val, p) == Some(scnos[p]))
  }

  // No token of an accepted specification overrides another, apart from when=: each one counts,
  // wherever it stands.
  lemma {:induction false} EachTokenCounts(rd: Readers, ts: seq<string>, pers: nat, faultOnly: bool, i: nat,
                                           scnos: seq<nat>)
    requires Taken(rd, ts, pers, faultOnly) && i < |ts|
    ensures InForce(rd, ts, ts[i], scnos)
  {
    hide Classify, ErrnoValue, ParseWhen;
    var init, last := ts[..|ts| - 1], ts[|ts| - 1];
    assert TakenAt(rd, ts, |ts| - 1, pers, faultOnly);
    if i < |ts| - 1 {
      TakenInit(rd, ts, pers, faultOnly);
      EachTokenCounts(rd, init, pers, faultOnly, i, scnos);
      assert init[i] == ts[i];
    }
  }

  lemma TakenInit(rd: Readers, ts: seq<string>, pers: nat, faultOnly: bool)
    requires ts != [] && Taken(rd, ts, pers, faultOnly)
    ensures Taken(rd, ts[..|ts| - 1], pers, faultOnly)
  {
    hide Classify, Acceptable;
    var init := ts[..|ts| - 1];
    forall i | 0 <= i < |init|
      ensures TakenAt(rd, init, i, pers, faultOnly)
    {
      assert TakenAt(rd, ts, i, pers, faultOnly) && init[..i] == ts[..i];
    }
  }

  // What fault= accepts injects an error at most, into a syscall that may be replaced.
  lemma {:induction false} FaultTokens(rd: Readers, ts: seq<string>, pers: nat)
    requires Taken(rd, ts, pers, true)
    ensures AllFlags(ts) <= {FError, FSyscall}
  {
    hide Classify, Acceptable;
    if ts != [] {
      assert TakenAt(rd, ts, |ts| - 1, pers, true);
      TakenInit(rd, ts, pers, true);
      FaultTokens(rd, ts[..|ts| - 1], pers);
    }
  }

  lemma DenotedFlags(rd: Readers, ts: seq<string>, o: Opts)
    requires Denoted(rd, ts, o)
    ensures o.flags == AllFlags(ts) && o.when == WhenOf(ts)
  {
  }

  lemma Defaults(rd: Readers, scnos: seq<nat>, used: seq<Delay.DelayData>)
    requires forall p :: 0 <= p < |scnos| ==> scnos[p] == 0
    ensures Reads(rd, [], DefaultOpts, scnos, used, used)
  {
  }

  lemma DefaultError(o: Opts, arenaSize: nat)
    requires WellFormed(o, arenaSize) && o.flags * ActionFlags == {}
    ensures WellFormed(o.(retval := ENOSYS, flags := o.flags + {FError}), arenaSize)
  {
    assert FRetval in ActionFlags;
  }

  // ---- the tables ----

  // One accepted specification: the calls it is for, what to do with them, and its delays.
  datatype Write = Write(targets: seq<SetView>, opts: Opts, scnos: seq<nat>, enter: nat, exit: nat)

  // What the specifications say about a syscall: the last one that is for it wins.
  ghost function Effective(ws: seq<Write>, p: nat, i: nat): Option<Opts> {
    if ws == [] then None
    else
      var last := ws[|ws| - 1];
      if p < |last.targets| == |last.scnos| && last.targets[p].Contains(i) then Some(last.opts.(scno := last.scnos[p]))
      else Effective(ws[..|ws| - 1], p, i)
  }

  ghost predicate GoodOpts(o: Opts, arenaSize: nat) {
    WellFormed(o, arenaSize) && o.flags * ActionFlags != {}
  }

  ghost predicate GoodWrites(ws: seq<Write>, used: seq<Delay.DelayData>) {
    forall k :: 0 <= k < |ws| ==>
      GoodOpts(ws[k].opts, |used|) && DelaysAre(ws[k].opts, used, ws[k].enter, ws[k].exit)
  }

  // Every entry in force has an action, no two conflicting ones, a valid range of calls and, if it
  // delays, a delay in the arena.
  lemma {:induction false} EffectiveIsGood(ws: seq<Write>, used: seq<Delay.DelayData>, p: nat, i: nat)
    requires GoodWrites(ws, used)
    ensures Effective(ws, p, i).Some? ==> GoodOpts(Effective(ws, p, i).value, |used|)
  {
    if ws != [] {
      EffectiveIsGood(ws[..|ws| - 1], used, p, i);
    }
  }

  // One personality's part of inject_set and inject_vec is what the specifications say.
  ghost predicate RowRight(members: SetView, vec: seq<Opts>, ws: seq<Write>, p: nat) {
    && !members.inverted
    && (forall i :: i in members.members ==> i < |vec|)
    && (forall i :: 0 <= i < |vec| ==> (i in members.members <==> Effective(ws, p, i).Some?))
    && (forall i :: 0 <= i < |vec| && i in members.members ==> vec[i] == Effective(ws, p, i).value)
  }

  // The row halfway through the merging of one more specification.
  ghost predicate RowMerged(members: SetView, vec: seq<Opts>, ws: seq<Write>, w: Write, p: nat, n: nat) {
    && !members.inverted
    && (forall i :: i in members.members ==> i < |vec|)
    && (forall i :: 0 <= i < |vec| ==>
          var e := Effective(if i < n then ws + [w] else ws, p, i);
          (i in members.members <==> e.Some?) && (e.Some? ==> vec[i] == e.value))
  }

  lemma EffectiveNext(ws: seq<Write>, w: Write, p: nat, i: nat)
    requires p < |w.targets| == |w.scnos|
    ensures Effective(ws + [w], p, i) ==
            if w.targets[p].Contains(i) then Some(w.opts.(scno := w.scnos[p])) else Effective(ws, p, i)
  {
    assert (ws + [w])[..|ws|] == ws;
  }

  // The inner loop of qualify_inject_common.
  method Merge(ghost p: nat, tmp: NumberSet, target: NumberSet, vec: seq<Opts>, entry: Opts,
               ghost w: Write, ghost ws: seq<Write>)
    returns (vec': seq<Opts>)
    requires tmp != target && p < |w.targets| == |w.scnos| && tmp.View() == w.targets[p]
    requires entry == w.opts.(scno := w.scnos[p])
    requires RowRight(target.View(), vec, ws, p)
    modifies target
    ensures |vec'| == |vec| && RowRight(target.View(), vec', ws + [w], p)
  {
    hide Effective, Members;
    vec' := vec;
    for i := 0 to |vec|
      invariant |vec'| == |vec| && tmp.View() == w.targets[p]
      invariant RowMerged(target.View(), vec', ws, w, p, i)
    {
      EffectiveNext(ws, w, p, i);
      var isIn := tmp.IsNumberInSet(i);
      if isIn {
        target.AddNumberToSet(i);
        vec' := vec'[i := entry];
      }
    }
  }

  class Injector {
    const world: Qualify.World
    const parser: Parser
    var sets: seq<NumberSet>   // inject_set
    var vec: seq<seq<Opts>>    // inject_vec
    ghost var writes: seq<Write>

    ghost predicate Valid()
      reads this, parser.arena, sets
    {
      && Qualify.ValidWorld(world)
      && parser.arena.Valid()
      && GoodWrites(writes, parser.arena.Used())
      && |sets| == |vec| == |world.tables|
      && Qualify.Apart(sets)
      && (forall p :: 0 <= p < |vec| ==> |vec[p]| == |world.tables[p]|)
      && (forall p :: 0 <= p < |vec| ==> RowRight(sets[p].View(), vec[p], writes, p))
    }

    constructor (world: Qualify.World, parser: Parser)
      requires Qualify.ValidWorld(world) && parser.arena.Valid()
      ensures Valid() && writes == [] && this.world == world && this.parser == parser
      ensures forall p :: 0 <= p < |sets| ==> fresh(sets[p])
    {
      this.world, this.parser := world, parser;
      vec := seq(|world.tables|, p requires 0 <= p < |world.tables| => seq(|world.tables[p]|, _ => DefaultOpts));
      sets, writes := [], [];
      new;
      sets := AllocSets(|world.tables|);
    }

    // The outer loop of qualify_inject_common.
    method MergeAll(tmp: seq<NumberSet>, o: Opts, scnos: seq<nat>, ghost w: Write)
      requires Valid() && |tmp| == |world.tables| == |w.targets| == |w.scnos|
      requires forall p, q :: 0 <= p < |tmp| && 0 <= q < |sets| ==> tmp[p] != sets[q]
      requires forall p :: 0 <= p < |tmp| ==> tmp[p].View() == w.targets[p]
      requires w.opts == o && w.scnos == scnos && GoodOpts(o, parser.arena.size)
      requires DelaysAre(o, parser.arena.Used(), w.enter, w.exit)
      modifies this`vec, this`writes, sets
      ensures Valid() && writes == old(writes) + [w]
    {
      hide RowRight, Members, GoodOpts;
      for p := 0 to |vec|
        invariant |vec| == |sets|
        invariant forall q :: 0 <= q < |vec| ==> |vec[q]| == |world.tables[q]|
        invariant forall q :: 0 <= q < |tmp| ==> tmp[q].View() == w.targets[q]
        invariant writes == old(writes)
        invariant forall q :: 0 <= q < |vec| ==>
                    RowRight(sets[q].View(), vec[q], if q < p then writes + [w] else writes, q)
      {
        var empty := tmp[p].IsEmpty();
        if empty {
          NothingToMerge(sets[p].View(), vec[p], writes, w, p);
          continue;
        }
        var row := Merge(p, tmp[p], sets[p], vec[p], o.(scno := scnos[p]), w, writes);
        vec := vec[p := row];
      }
      writes := writes + [w];
    }

    // qualify_inject_common; a false result stands for dying with a message.
    method QualifyInjectCommon(spec: string, faultOnly: bool) returns (ok: bool)
      requires Valid()
      modifies this`vec, this`writes, sets, parser.arena
      ensures ok <==> && Qualify.AcceptedSpec(world, NameOf(spec))
                      && AcceptedExpression(parser.readers, TokensOf(spec), |world.tables|, faultOnly,
                                            old(parser.arena.size))
      ensures ok ==> Valid() && |writes| == |old(writes)| + 1 && old(writes) == writes[..|old(writes)|]
      ensures ok ==> WriteMeans(world, parser.readers, spec, faultOnly, writes[|writes| - 1])
    {
      hide RowRight, Members, GoodOpts, WellFormed, Qualify.AcceptedSpec, Qualify.Specified, Meant, ScnosAre,
           AcceptedExpression, DelaysAre, DelayOf;
      var n := |world.tables|;
      var o: Opts, scnos: seq<nat>;
      ok, o, scnos := ParseExpression(parser, spec, n, faultOnly);
      if !ok {
        return;
      }
      StillGood(writes, old(parser.arena.Used()), parser.arena.Used());
      var tmp := AllocSets(n);
      ok := Qualify.QualifySyscallTokens(world, NameOf(spec), tmp);
      if !ok {
        return;
      }
      ghost var ts := TokensOf(spec);
      ghost var w := Write(Qualify.Views(tmp), o, scnos,
                           DelayOf(parser.readers, ts, true), DelayOf(parser.readers, ts, false));
      MergeAll(tmp, o, scnos, w);
    }
  }

  // What is recorded of a specification is what it says.
  ghost predicate WriteMeans(world: Qualify.World, rd: Readers, spec: string, faultOnly: bool, w: Write) {
    && |w.targets| == |w.scnos| == |world.tables|
    && Meant(rd, TokensOf(spec), faultOnly, w.opts)
    && ScnosAre(rd, TokensOf(spec), w.scnos)
    && w.enter == DelayOf(rd, TokensOf(spec), true) && w.exit == DelayOf(rd, TokensOf(spec), false)
    && forall p, x: nat :: 0 <= p < |world.tables| ==>
         (w.targets[p].Contains(x) <==> Qualify.Specified(world, NameOf(spec), p, x))
  }

  // Later delays do not disturb earlier ones.
  lemma StillGood(ws: seq<Write>, used: seq<Delay.DelayData>, used': seq<Delay.DelayData>)
    requires GoodWrites(ws, used) && used <= used'
    ensures GoodWrites(ws, used')
  {
  }

  lemma NothingToMerge(members: SetView, vec: seq<Opts>, ws: seq<Write>, w: Write, p: nat)
    requires RowRight(members, vec, ws, p)
    requires p < |w.targets| == |w.scnos| && w.targets[p] == SetView({}, false)
    ensures RowRight(members, vec, ws + [w], p)
  {
    forall i | 0 <= i < |vec|
      ensures Effective(ws + [w], p, i) == Effective(ws, p, i)
    {
      EffectiveNext(ws, w, p, i);
    }
  }

  // alloc_number_set_array
  method AllocSets(n: nat) returns (sets: seq<NumberSet>)
    ensures |sets| == n && Qualify.Apart(sets)
    ensures forall p :: 0 <= p < n ==> fresh(sets[p]) && sets[p].View() == SetView({}, false)
  {
    sets := [];
    for i := 0 to n
      invariant |sets| == i && Qualify.Apart(sets)
      invariant forall p :: 0 <= p < i ==> fresh(sets[p]) && sets[p].View() == SetView({}, false)
    {
      var s := new NumberSet();
      sets := sets + [s];
    }
  }
}
