/** Per-syscall statistics with a growable bucket for unknown syscalls (src/count.c:20-326,
    575-677).  Times are whole nanoseconds.
 */
module Statistics {
  import opened Common
  import Bits
  import Timespec

  const MAX_TS: int := 0x7fff_ffff_ffff_ffff * 1_000_000_000 + 999_999_999
  const UNKNOWN_COUNTS_ENTRIES: nat := 16

  // count_wallclock, the overhead to subtract, and summary_needs_wall.
  datatype Config = Config(countWallclock: bool, overhead: int, needsWall: bool)

  // A finished call: whether it failed, and the time spent in it on the CPU and on the wall clock.
  datatype Event = Event(scno: nat, error: bool, cpu: int, wall: int)

  // ---- one clock ----

  datatype Clock = Clock(total: int, min: int, max: int)

  const FreshClock: Clock := Clock(0, MAX_TS, 0)

  function Tick(c: Clock, t: int): Clock {
    Clock(c.total + t, if c.min < t then c.min else t, if c.max > t then c.max else t)
  }

  // The clock after calls that take the given times.
  function Run(c: Clock, es: seq<Event>, w: Event -> int): Clock {
    if es == [] then c else Tick(Run(c, es[..|es| - 1], w), w(es[|es| - 1]))
  }

  function Weigh(es: seq<Event>, w: Event -> int): int {
    if es == [] then 0 else Weigh(es[..|es| - 1], w) + w(es[|es| - 1])
  }

  lemma WeighNext(es: seq<Event>, ev: Event, w: Event -> int)
    ensures Weigh(es + [ev], w) == Weigh(es, w) + w(ev)
  {
    assert (es + [ev])[..|es|] == es;
  }

  // Sum, minimum and maximum of the times of some calls.
  ghost predicate Summarises(c: Clock, es: seq<Event>, w: Event -> int) {
    && c.total == Weigh(es, w)
    && (forall i :: 0 <= i < |es| ==> c.min <= w(es[i]) <= c.max)
    && (es != [] ==> Attained(es, w, c.min) && Attained(es, w, c.max))
  }

  ghost predicate Attained(es: seq<Event>, w: Event -> int, t: int) {
    exists i :: 0 <= i < |es| && w(es[i]) == t
  }

  lemma StillAttained(es: seq<Event>, ev: Event, w: Event -> int, t: int)
    ensures Attained(es, w, t) ==> Attained(es + [ev], w, t)
    ensures Attained(es + [ev], w, w(ev))
  {
    assert (es + [ev])[|es|] == ev;
    if Attained(es, w, t) {
      var i :| 0 <= i < |es| && w(es[i]) == t;
      assert (es + [ev])[i] == es[i];
    }
  }

  ghost predicate InRange(es: seq<Event>, w: Event -> int) {
    forall i :: 0 <= i < |es| ==> 0 <= w(es[i]) <= MAX_TS
  }

  lemma SummarisesNext(c: Clock, es: seq<Event>, ev: Event, w: Event -> int)
    requires Summarises(c, es, w) && 0 <= w(ev) <= MAX_TS && (es == [] ==> c == FreshClock)
    ensures Summarises(Tick(c, w(ev)), es + [ev], w)
  {
    hide Attained, Weigh;
    WeighNext(es, ev, w);
    StillAttained(es, ev, w, c.min);
    StillAttained(es, ev, w, c.max);
  }

  lemma {:induction false} RunSummarises(es: seq<Event>, w: Event -> int)
    requires InRange(es, w)
    ensures Summarises(Run(FreshClock, es, w), es, w)
    ensures es == [] ==> Run(FreshClock, es, w) == FreshClock
  {
    hide Tick, Attained;
    if es != [] {
      var init, last := es[..|es| - 1], es[|es| - 1];
      assert InRange(init, w);
      RunSummarises(init, w);
      SummarisesNext(Run(FreshClock, init, w), init, last, w);
      assert init + [last] == es;
    }
  }

  // calls * min <= total <= calls * max
  lemma {:induction false} Bounds(es: seq<Event>, w: Event -> int, lo: int, hi: int)
    requires forall i :: 0 <= i < |es| ==> lo <= w(es[i]) <= hi
    ensures |es| * lo <= Weigh(es, w) <= |es| * hi
  {
    if es != [] {
      var init := es[..|es| - 1];
      assert forall i :: 0 <= i < |init| ==> init[i] == es[i];
      Bounds(init, w, lo, hi);
      OneMore(|init|, lo);
      OneMore(|init|, hi);
    }
  }

  lemma OneMore(n: nat, x: int)
    ensures (n + 1) * x == n * x + x
  {
  }

  // ts_div rounds to the nearest nanosecond.
  function Average(total: int, calls: nat): int
    requires calls > 0
  {
    (total + calls / 2) / calls
  }

  // That is what ts_div computes, as long as 64 bits are enough.
  lemma AverageIsTsDiv(t: Timespec.Timespec, calls: Bits.u64)
    requires t.Normal() && t.sec >= 0 && calls > 0
    ensures Timespec.TsDiv(t, calls).Ns() == Average(t.Ns(), calls) <==> Timespec.Low(t, calls) < Bits.W64
  {
  }

  lemma AverageBetween(total: int, calls: nat, lo: int, hi: int)
    requires calls > 0 && calls * lo <= total <= calls * hi
    ensures lo <= Average(total, calls) <= hi
  {
    var x := total + calls / 2;
    var q := x / calls;
    assert x == q * calls + x % calls;
    MulMono(q + 1, lo, calls);
    MulMono(hi + 1, q, calls);
  }

  lemma MulMono(a: int, b: int, c: nat)
    ensures a <= b ==> a * c <= b * c
  {
  }

  // The columns printed for a clock are consistent with each other.
  lemma ClockConsistent(c: Clock, es: seq<Event>, w: Event -> int)
    requires Summarises(c, es, w) && es != []
    ensures |es| * c.min <= c.total <= |es| * c.max
    ensures c.min <= Average(c.total, |es|) <= c.max
  {
    Bounds(es, w, c.min, c.max);
    AverageBetween(c.total, |es|, c.min, c.max);
  }

  // What a clock showed before its first call is carried along for ever.
  lemma {:induction false} RunCarries(c: Clock, es: seq<Event>, w: Event -> int)
    requires c.min == MAX_TS && InRange(es, w)
    ensures var r, clean := Run(c, es, w), Run(FreshClock, es, w);
            && r.total == c.total + clean.total && r.min == clean.min && clean.max >= 0
            && (es == [] ==> r.max == c.max)
            && (es != [] ==> r.max == if c.max > clean.max then c.max else clean.max)
  {
    if es != [] {
      var init := es[..|es| - 1];
      assert forall i :: 0 <= i < |init| ==> init[i] == es[i];
      RunCarries(c, init, w);
    }
  }

  // ---- one record ----

  datatype CallCounts = CallCounts(time: Clock, wall: Clock, calls: nat, errors: nat)

  function Clamp(t: int): int {
    if t > 0 then t else 0
  }

  // The times of a call on either clock.

  function TimeOf(cfg: Config): Event -> int {
    (ev: Event) => Clamp((if cfg.countWallclock then ev.wall else ev.cpu) - cfg.overhead)
  }

  function WallOf(cfg: Config): Event -> int {
    (ev: Event) => Clamp(ev.wall - cfg.overhead)
  }

  // The time counted is the one on the wall clock if asked for, and on the CPU otherwise; the
  // overhead comes off first, and never makes a time negative.
  lemma SamplesOf(cfg: Config, ev: Event)
    ensures cfg.countWallclock ==> TimeOf(cfg)(ev) == WallOf(cfg)(ev)
    ensures !cfg.countWallclock ==> TimeOf(cfg)(ev) == WallOf(cfg)(ev.(wall := ev.cpu))
    ensures ev.wall >= cfg.overhead ==> WallOf(cfg)(ev) + cfg.overhead == ev.wall
    ensures ev.wall <= cfg.overhead ==> WallOf(cfg)(ev) == 0
  {
  }

  function Count(cc: CallCounts, ev: Event, cfg: Config): CallCounts {
    CallCounts(Tick(cc.time, TimeOf(cfg)(ev)),
               if cfg.needsWall then Tick(cc.wall, WallOf(cfg)(ev)) else cc.wall,
               cc.calls + 1,
               cc.errors + (if ev.error then 1 else 0))
  }

  // A zeroed record with its minima set.
  function FreshRecord(cfg: Config): CallCounts {
    CallCounts(FreshClock, Clock(0, if cfg.needsWall then MAX_TS else 0, 0), 0, 0)
  }

  // unknown_init_slot sets the minima and leaves the rest of the record as it is.
  function InitSlot(cc: CallCounts, cfg: Config): CallCounts {
    cc.(time := cc.time.(min := MAX_TS),
        wall := if cfg.needsWall then cc.wall.(min := MAX_TS) else cc.wall)
  }

  // The record after a sequence of calls.
  function After(base: CallCounts, es: seq<Event>, cfg: Config): CallCounts {
    if es == [] then base
    else Count(After(base, es[..|es| - 1], cfg), es[|es| - 1], cfg)
  }

  function Failures(es: seq<Event>): (n: nat)
    ensures n <= |es|
  {
    if es == [] then 0 else Failures(es[..|es| - 1]) + (if es[|es| - 1].error then 1 else 0)
  }

  // Every time is a timespec.
  ghost predicate Representable(es: seq<Event>, cfg: Config) {
    InRange(es, TimeOf(cfg)) && InRange(es, WallOf(cfg))
  }

  // What a record says of the calls it counts.
  ghost predicate Describes(cc: CallCounts, es: seq<Event>, cfg: Config) {
    && cc.calls == |es|
    && cc.errors == Failures(es)
    && Summarises(cc.time, es, TimeOf(cfg))
    && (cfg.needsWall ==> Summarises(cc.wall, es, WallOf(cfg)))
  }

  lemma {:induction false} AfterRuns(base: CallCounts, es: seq<Event>, cfg: Config)
    ensures After(base, es, cfg) ==
            CallCounts(Run(base.time, es, TimeOf(cfg)),
                       if cfg.needsWall then Run(base.wall, es, WallOf(cfg)) else base.wall,
                       base.calls + |es|, base.errors + Failures(es))
  {
    hide TimeOf, WallOf;
    if es != [] {
      AfterRuns(base, es[..|es| - 1], cfg);
    }
  }

  lemma FreshDescribes(es: seq<Event>, cfg: Config)
    requires Representable(es, cfg)
    ensures Describes(After(FreshRecord(cfg), es, cfg), es, cfg)
  {
    hide TimeOf, WallOf, Run, Summarises, InRange;
    AfterRuns(FreshRecord(cfg), es, cfg);
    RunSummarises(es, TimeOf(cfg));
    RunSummarises(es, WallOf(cfg));
  }

  // The columns printed for a record of calls are consistent with each other.
  lemma RecordConsistent(cc: CallCounts, es: seq<Event>, cfg: Config)
    requires Describes(cc, es, cfg) && es != []
    ensures cc.errors <= cc.calls
    ensures cc.calls * cc.time.min <= cc.time.total <= cc.calls * cc.time.max
    ensures cc.time.min <= Average(cc.time.total, cc.calls) <= cc.time.max
    ensures cfg.needsWall ==>
              && cc.calls * cc.wall.min <= cc.wall.total <= cc.calls * cc.wall.max
              && cc.wall.min <= Average(cc.wall.total, cc.calls) <= cc.wall.max
  {
    ClockConsistent(cc.time, es, TimeOf(cfg));
    if cfg.needsWall {
      ClockConsistent(cc.wall, es, WallOf(cfg));
    }
  }

  // ---- records that start from uninitialised memory ----

  predicate CleanClock(c: Clock) {
    c.total == 0 && c.max <= 0
  }

  // What matters of a record is zero (or, for the maxima, not positive).
  predicate Clean(junk: CallCounts, cfg: Config) {
    junk.calls == 0 && junk.errors == 0 && CleanClock(junk.time) && (cfg.needsWall ==> CleanClock(junk.wall))
  }

  lemma CleanRuns(c: Clock, es: seq<Event>, w: Event -> int)
    requires c.min == MAX_TS && CleanClock(c) && InRange(es, w) && es != []
    ensures Summarises(Run(c, es, w), es, w)
  {
    RunCarries(c, es, w);
    RunSummarises(es, w);
  }

  // A slot of memory is usable exactly when it is clean: then and only then its record is right
  // after every sequence of calls.
  lemma SlotUsable(junk: CallCounts, cfg: Config)
    ensures (forall es :: es != [] && Representable(es, cfg) ==>
               Describes(After(InitSlot(junk, cfg), es, cfg), es, cfg)) <==>
            Clean(junk, cfg)
  {
    hide Run, Summarises;
    var slot := InitSlot(junk, cfg);
    if Clean(junk, cfg) {
      forall es | es != [] && Representable(es, cfg)
        ensures Describes(After(slot, es, cfg), es, cfg)
      {
        AfterRuns(slot, es, cfg);
        CleanRuns(slot.time, es, TimeOf(cfg));
        if cfg.needsWall {
          CleanRuns(slot.wall, es, WallOf(cfg));
        }
      }
    } else {
      var es := [Event(0, false, cfg.overhead, cfg.overhead)];
      AfterRuns(slot, es, cfg);
      Instant(slot.time, es, TimeOf(cfg));
      Instant(slot.wall, es, WallOf(cfg));
      assert Representable(es, cfg) && !Describes(After(slot, es, cfg), es, cfg);
    }
  }

  // A call that takes no time.
  lemma Instant(c: Clock, es: seq<Event>, w: Event -> int)
    requires |es| == 1 && w(es[0]) == 0
    ensures Summarises(Run(c, es, w), es, w) ==> CleanClock(c)
    ensures Failures(es) == if es[0].error then 1 else 0
  {
    assert es[..0] == [];
    assert Run(c, es[..0], w) == c && Weigh(es[..0], w) == 0;
    assert Run(c, es, w) == Tick(c, 0);
    assert Weigh(es, w) == 0;
  }

  // ---- the table of all syscalls ----

  datatype Unknown = Unknown(scno: nat, cc: CallCounts)

  // Slots from `cap` on, as many again, after unknown_init_slot.
  function NewSlots(junk: nat -> Unknown, cap: nat, cfg: Config): (slots: seq<Unknown>)
    ensures |slots| == cap
    ensures forall i :: 0 <= i < cap ==>
              && slots[i].cc == InitSlot(junk(cap + i).cc, cfg)
              && slots[i].cc == InitSlot(slots[i].cc, cfg)
  {
    seq(cap, i requires 0 <= i < cap => Unknown(junk(cap + i).scno, InitSlot(junk(cap + i).cc, cfg)))
  }

  function Records(slots: seq<Unknown>): (r: seq<CallCounts>)
    ensures |r| == |slots| && forall i :: 0 <= i < |r| ==> r[i] == slots[i].cc
  {
    seq(|slots|, i requires 0 <= i < |slots| => slots[i].cc)
  }

  // The calls of one syscall, in order.
  function Of(history: seq<Event>, scno: nat): seq<Event> {
    if history == [] then []
    else
      var last := history[|history| - 1];
      Of(history[..|history| - 1], scno) + (if last.scno == scno then [last] else [])
  }

  lemma OfNext(history: seq<Event>, ev: Event, scno: nat)
    ensures Of(history + [ev], scno) == Of(history, scno) + (if ev.scno == scno then [ev] else [])
  {
    assert (history + [ev])[..|history|] == history;
  }

  lemma AfterNext(base: CallCounts, history: seq<Event>, ev: Event, scno: nat, cfg: Config)
    ensures After(base, Of(history + [ev], scno), cfg) ==
            if ev.scno == scno then Count(After(base, Of(history, scno), cfg), ev, cfg)
            else After(base, Of(history, scno), cfg)
  {
    OfNext(history, ev, scno);
    var es := Of(history, scno);
    assert (es + [ev])[..|es|] == es && es + [] == es;
  }

  lemma {:induction false} NoCalls(history: seq<Event>, scno: nat)
    requires forall i :: 0 <= i < |history| ==> history[i].scno != scno
    ensures Of(history, scno) == []
  {
    if history != [] {
      NoCalls(history[..|history| - 1], scno);
    }
  }

  // The keys in use are pairwise distinct and never numbers of known syscalls.
  ghost predicate KeysDistinct(keys: seq<Unknown>, nsyscalls: nat) {
    && (forall k :: 0 <= k < |keys| ==> keys[k].scno >= nsyscalls)
    && (forall j, k :: 0 <= j < k < |keys| ==> keys[j].scno != keys[k].scno)
  }

  ghost predicate HasKey(keys: seq<Unknown>, scno: nat) {
    exists k :: 0 <= k < |keys| && keys[k].scno == scno
  }

  // Every unknown syscall that has been counted has an entry.
  ghost predicate KeysCover(keys: seq<Unknown>, nsyscalls: nat, history: seq<Event>) {
    forall i :: 0 <= i < |history| && history[i].scno >= nsyscalls ==> HasKey(keys, history[i].scno)
  }

  // Every entry holds what its slot started from and the calls of its syscall.
  ghost predicate RecordsRight(keys: seq<Unknown>, base: seq<CallCounts>, history: seq<Event>, cfg: Config) {
    && |keys| <= |base|
    && forall k :: 0 <= k < |keys| ==> keys[k].cc == After(base[k], Of(history, keys[k].scno), cfg)
  }

  // The slots of the first allocation start from zero; later ones hold leftovers.
  ghost predicate SlotsInitialised(base: seq<CallCounts>, cfg: Config) {
    forall k :: 0 <= k < |base| ==>
      && base[k] == InitSlot(base[k], cfg)
      && (k < UNKNOWN_COUNTS_ENTRIES ==> base[k] == FreshRecord(cfg))
  }

  ghost predicate KnownRight(counts: seq<CallCounts>, history: seq<Event>, cfg: Config) {
    forall i :: 0 <= i < |counts| ==> counts[i] == After(FreshRecord(cfg), Of(history, i), cfg)
  }

  lemma CountKnown(counts: seq<CallCounts>, history: seq<Event>, cfg: Config, ev: Event)
    requires KnownRight(counts, history, cfg)
    ensures KnownRight(if ev.scno < |counts| then counts[ev.scno := Count(counts[ev.scno], ev, cfg)] else counts,
                       history + [ev], cfg)
  {
    forall i | 0 <= i < |counts| {
      AfterNext(FreshRecord(cfg), history, ev, i, cfg);
    }
  }

  lemma CountUnknown(keys: seq<Unknown>, base: seq<CallCounts>, nsyscalls: nat, history: seq<Event>,
                     cfg: Config, ev: Event, k: nat)
    requires KeysDistinct(keys, nsyscalls) && RecordsRight(keys, base, history, cfg)
    requires if ev.scno < nsyscalls then k == |keys| else k < |keys| && keys[k].scno == ev.scno
    ensures RecordsRight(if k < |keys| then keys[k := keys[k].(cc := Count(keys[k].cc, ev, cfg))] else keys,
                         base, history + [ev], cfg)
  {
    forall j | 0 <= j < |keys| {
      AfterNext(base[j], history, ev, keys[j].scno, cfg);
    }
  }

  // The bucket keeps its slots, and the ones added later hold what their memory held before.
  ghost predicate Grown(before: seq<CallCounts>, after: seq<CallCounts>, junk: nat -> Unknown, cfg: Config) {
    && before <= after
    && forall k :: |before| <= k < |after| && k >= UNKNOWN_COUNTS_ENTRIES ==> after[k] == InitSlot(junk(k).cc, cfg)
  }

  class Counters {
    const nsyscalls: nat
    const cfg: Config
    var ready: bool
    var counts: seq<CallCounts>
    var entries: seq<Unknown>  // as many as the bucket's capacity
    var len: nat

    // The calls counted so far, and what each slot of the bucket started from.
    ghost var history: seq<Event>
    ghost var base: seq<CallCounts>

    ghost predicate Valid()
      reads this
    {
      && len <= |entries| == |base|
      && (entries == [] || UNKNOWN_COUNTS_ENTRIES <= |entries|)
      && SlotsInitialised(base, cfg)
      && (forall k :: len <= k < |base| ==> entries[k].cc == base[k])
      && KeysDistinct(entries[..len], nsyscalls)
      && KeysCover(entries[..len], nsyscalls, history)
      && RecordsRight(entries[..len], base, history, cfg)
      && (if ready then |counts| == nsyscalls else history == [] && counts == [])
      && KnownRight(counts, history, cfg)
    }

    constructor (nsyscalls: nat, cfg: Config)
      ensures Valid() && history == [] && len == 0 && base == [] && this.nsyscalls == nsyscalls && this.cfg == cfg
    {
      this.nsyscalls, this.cfg := nsyscalls, cfg;
      ready, counts, entries, len := false, [], [], 0;
      history, base := [], [];
    }

    // get_unknown_by_scno
    method GetUnknown(scno: nat) returns (k: nat)
      requires len <= |entries|
      ensures k <= len
      ensures k < len ==> entries[k].scno == scno
      ensures k == len <==> !HasKey(entries[..len], scno)
    {
      k := 0;
      while k < len
        invariant k <= len
        invariant forall j :: 0 <= j < k ==> entries[j].scno != scno
      {
        if entries[k].scno == scno {
          assert entries[..len][k].scno == scno;
          return;
        }
        k := k + 1;
      }
    }

    // Room for one more entry.  The memory xreallocarray adds is not cleared: `junk` is what the
    // new slots happen to hold.
    method Reserve(junk: nat -> Unknown)
      requires Valid()
      modifies this`entries, this`base
      ensures Valid() && len < |entries|
      ensures entries[..len] == old(entries[..len])
      ensures |entries| == if old(entries) == [] then UNKNOWN_COUNTS_ENTRIES
                           else if len == |old(entries)| then 2 * |old(entries)|
                           else |old(entries)|
      ensures Grown(old(base), base, junk, cfg)
    {
      hide KeysDistinct, KeysCover, KnownRight, After, Of, InitSlot, NewSlots, Records;
      ghost var keys := entries[..len];
      if entries == [] {
        entries := seq(UNKNOWN_COUNTS_ENTRIES, _ => Unknown(0, FreshRecord(cfg)));
        base := seq(UNKNOWN_COUNTS_ENTRIES, _ => FreshRecord(cfg));
        FreshIsInitialised(cfg);
      } else if len == |entries| {
        var more := NewSlots(junk, |entries|, cfg);
        SlotsGrow(base, Records(more), cfg);
        entries := entries + more;
        base := base + Records(more);
      }
      assert entries[..len] == keys;
      assert SlotsInitialised(base, cfg);
      assert RecordsRight(entries[..len], base, history, cfg);
      assert forall k :: len <= k < |base| ==> entries[k].cc == base[k];
    }

    // unknown_insert
    method UnknownInsert(scno: nat, junk: nat -> Unknown)
      requires Valid() && scno >= nsyscalls
      modifies this`entries, this`base, this`len
      ensures Valid() && Grown(old(base), base, junk, cfg)
      ensures len == old(len) + if old(HasKey(entries[..len], scno)) then 0 else 1
      ensures entries[..old(len)] == old(entries[..len]) && HasKey(entries[..len], scno)
      ensures len > old(len) ==> entries[old(len)].scno == scno
    {
      hide KnownRight, After, Of, SlotsInitialised;
      var k := GetUnknown(scno);
      if k < len {
        return;
      }
      Reserve(junk);
      ghost var keys := entries[..len];
      InsertKey(keys, base, nsyscalls, history, cfg, scno);
      entries := entries[len := entries[len].(scno := scno)];
      len := len + 1;
      assert entries[..len] == keys + [Unknown(scno, base[|keys|])];
      assert entries[..old(len)] == keys;
    }

    // count_syscall
    method CountSyscall(ev: Event, junk: nat -> Unknown)
      requires Valid()
      modifies this
      ensures Valid() && ready && Grown(old(base), base, junk, cfg)
      ensures history == old(history) + [ev]
      ensures len == old(len) + if ev.scno < nsyscalls || old(HasKey(entries[..len], ev.scno)) then 0 else 1
      ensures forall k :: 0 <= k < old(len) ==> entries[k].scno == old(entries[k].scno)
      ensures len > old(len) ==> entries[old(len)].scno == ev.scno
    {
      hide KnownRight, After, Of, SlotsInitialised, RecordsRight, KeysDistinct, KeysCover, HasKey, Count;
      if ev.scno >= nsyscalls {
        UnknownInsert(ev.scno, junk);
        assert forall k :: 0 <= k < old(len) ==> entries[..old(len)][k].scno == old(entries[k].scno);
      }
      if !ready {
        counts := seq(nsyscalls, _ => FreshRecord(cfg));
        ready := true;
        FreshKnown(counts, cfg);
      }
      Record(ev);
    }

    // The update of the record of the call's syscall.
    method Record(ev: Event)
      requires Valid() && ready && (ev.scno >= nsyscalls ==> HasKey(entries[..len], ev.scno))
      modifies this`counts, this`entries, this`history
      ensures Valid() && history == old(history) + [ev]
      ensures ready && |entries| == old(|entries|) && forall k :: 0 <= k < len ==> entries[k].scno == old(entries[k].scno)
    {
      hide KnownRight, After, Of, SlotsInitialised, RecordsRight, KeysDistinct, KeysCover, HasKey, Count;
      CountKnown(counts, history, cfg, ev);
      ghost var keys := entries[..len];
      if ev.scno < nsyscalls {
        CountUnknown(keys, base, nsyscalls, history, cfg, ev, len);
        counts := counts[ev.scno := Count(counts[ev.scno], ev, cfg)];
      } else {
        var k := GetUnknown(ev.scno);
        CountUnknown(keys, base, nsyscalls, history, cfg, ev, k);
        entries := entries[k := entries[k].(cc := Count(entries[k].cc, ev, cfg))];
        assert entries[..len] == keys[k := keys[k].(cc := Count(keys[k].cc, ev, cfg))];
      }
      history := history + [ev];
      CoverNext(keys, entries[..len], nsyscalls, old(history), ev);
    }

    // The index of the summary and its totals, known syscalls first (call_summary_pers).  The
    // totals are those of the run plus what the slots of the bucket held at first.
    method Summary() returns (indices: seq<nat>, totals: Cumulative)
      requires Valid() && ready
      ensures indices == Keys(nsyscalls, entries[..len])
      ensures totals == Plus(WholeOf(history, cfg), Leftovers(base[..len], cfg))
      ensures totals == WholeOf(history, cfg) <==> Leftovers(base[..len], cfg) == Nothing
      ensures len <= UNKNOWN_COUNTS_ENTRIES ==> totals == WholeOf(history, cfg)
    {
      hide KnownRight, RecordsRight, SlotsInitialised, Keys, Totals, After, Of, WholeOf, AddOf;
      indices, totals := SummaryOfKnown();
      ghost var all := Keys(nsyscalls, entries[..len]);
      ghost var whole := totals;
      for k := 0 to len
        invariant indices == all[..nsyscalls + k]
        invariant Totals(history, all[..nsyscalls + k], whole, cfg)
        invariant totals == Plus(whole, Leftovers(base[..k], cfg))
      {
        var u := entries[k];
        indices := indices + [u.scno];
        KeyOf(nsyscalls, entries[..len], nsyscalls + k);
        assert all[..nsyscalls + k + 1] == all[..nsyscalls + k] + [all[nsyscalls + k]];
        assert base[..k + 1][..k] == base[..k];
        UnknownAdds(entries[..len], base, history, cfg, k, totals);
        TotalsNext(history, all[..nsyscalls + k], u.scno, whole, cfg);
        AddAnyway(whole, Leftovers(base[..k], cfg), base[k], WholeOf(Of(history, u.scno), cfg), cfg);
        totals := AddOf(totals, u.cc, cfg);
        whole := Plus(whole, WholeOf(Of(history, u.scno), cfg));
      }
      assert all[..nsyscalls + len] == all;
      KeysArePartition(nsyscalls, entries[..len], history);
      Conservation(history, all, whole, cfg);
      if len <= UNKNOWN_COUNTS_ENTRIES {
        NothingLeft(base[..len], base, cfg);
      }
    }

    method SummaryOfKnown() returns (indices: seq<nat>, totals: Cumulative)
      requires Valid() && ready
      ensures indices == Keys(nsyscalls, entries[..len])[..nsyscalls]
      ensures Totals(history, indices, totals, cfg)
    {
      hide KnownRight, RecordsRight, SlotsInitialised, Keys, After, Of, WholeOf, AddOf;
      indices, totals := [], Nothing;
      ghost var all := Keys(nsyscalls, entries[..len]);
      for i := 0 to nsyscalls
        invariant indices == all[..i]
        invariant Totals(history, all[..i], totals, cfg)
      {
        indices := indices + [i];
        KeyOf(nsyscalls, entries[..len], i);
        assert all[..i + 1] == all[..i] + [all[i]];
        KnownAdds(counts, history, cfg, i, totals);
        TotalsNext(history, all[..i], i, totals, cfg);
        if counts[i].calls == 0 {
          continue;
        }
        totals := AddOf(totals, counts[i], cfg);
      }
    }
  }

  // A run that counts one call more than was made: seventeen unknown syscalls, the memory of the
  // slot of the last one holding a one where the number of calls goes.
  method LeftoverRun(cfg: Config) returns (c: Counters, totals: Cumulative)
    ensures fresh(c) && |c.history| == 17 && totals.calls == 18
  {
    hide KnownRight, RecordsRight, SlotsInitialised, KeysDistinct, KeysCover, After, Of;
    c := new Counters(0, cfg);
    var junk := (_: nat) => Unknown(0, CallCounts(FreshClock, FreshClock, 1, 0));
    for i := 0 to UNKNOWN_COUNTS_ENTRIES + 1
      invariant fresh(c) && c.Valid() && c.nsyscalls == 0 && c.cfg == cfg && |c.history| == i == c.len
      invariant i > 0 ==> c.ready
      invariant forall k :: 0 <= k < c.len ==> c.entries[k].scno < i
      invariant forall k :: UNKNOWN_COUNTS_ENTRIES <= k < |c.base| ==> c.base[k].calls == 1
    {
      assert !HasKey(c.entries[..c.len], i);
      c.CountSyscall(Event(i, false, 0, 0), junk);
    }
    var _, t := c.Summary();
    totals := t;
    SeventeenSlots(c.base, cfg);
  }

  lemma SeventeenSlots(base: seq<CallCounts>, cfg: Config)
    requires |base| > UNKNOWN_COUNTS_ENTRIES && SlotsInitialised(base, cfg) && base[UNKNOWN_COUNTS_ENTRIES].calls == 1
    ensures Leftovers(base[..UNKNOWN_COUNTS_ENTRIES + 1], cfg).calls == 1
  {
    var slots := base[..UNKNOWN_COUNTS_ENTRIES + 1];
    assert slots[..UNKNOWN_COUNTS_ENTRIES] == base[..UNKNOWN_COUNTS_ENTRIES];
    NothingLeft(base[..UNKNOWN_COUNTS_ENTRIES], base, cfg);
  }

  // What the records add to the totals.

  lemma KnownAdds(counts: seq<CallCounts>, history: seq<Event>, cfg: Config, i: nat, c: Cumulative)
    requires KnownRight(counts, history, cfg) && i < |counts|
    ensures AddOf(c, counts[i], cfg) == Plus(c, WholeOf(Of(history, i), cfg))
    ensures counts[i].calls == 0 ==> AddOf(c, counts[i], cfg) == c
  {
    hide Of, After, TimeOf, WallOf;
    AddedRecord(c, FreshRecord(cfg), Of(history, i), cfg);
    AfterRuns(FreshRecord(cfg), Of(history, i), cfg);
  }

  lemma UnknownAdds(keys: seq<Unknown>, base: seq<CallCounts>, history: seq<Event>, cfg: Config, k: nat, c: Cumulative)
    requires RecordsRight(keys, base, history, cfg) && k < |keys|
    ensures AddOf(c, keys[k].cc, cfg) == Plus(AddOf(c, base[k], cfg), WholeOf(Of(history, keys[k].scno), cfg))
  {
    hide Of, After, TimeOf, WallOf;
    AddedRecord(c, base[k], Of(history, keys[k].scno), cfg);
  }

  lemma {:induction false} RunTotal(c: Clock, es: seq<Event>, w: Event -> int)
    ensures Run(c, es, w).total == c.total + Weigh(es, w)
  {
    if es != [] {
      RunTotal(c, es[..|es| - 1], w);
    }
  }

  // A record adds what its slot held at first, and its calls.
  lemma AddedRecord(c: Cumulative, slot: CallCounts, es: seq<Event>, cfg: Config)
    ensures AddOf(c, After(slot, es, cfg), cfg) == Plus(AddOf(c, slot, cfg), WholeOf(es, cfg))
  {
    hide After, Run, Weigh, TimeOf, WallOf;
    AfterRuns(slot, es, cfg);
    RunTotal(slot.time, es, TimeOf(cfg));
    RunTotal(slot.wall, es, WallOf(cfg));
  }

  lemma AddAnyway(a: Cumulative, b: Cumulative, slot: CallCounts, c: Cumulative, cfg: Config)
    ensures Plus(AddOf(Plus(a, b), slot, cfg), c) == Plus(Plus(a, c), AddOf(b, slot, cfg))
  {
  }

  // The slots of the first allocation leave nothing over.
  lemma {:induction false} NothingLeft(slots: seq<CallCounts>, base: seq<CallCounts>, cfg: Config)
    requires SlotsInitialised(base, cfg) && slots <= base && |slots| <= UNKNOWN_COUNTS_ENTRIES
    ensures Leftovers(slots, cfg) == Nothing
  {
    if slots != [] {
      NothingLeft(slots[..|slots| - 1], base, cfg);
      assert slots[|slots| - 1] == base[|slots| - 1];
    }
  }

  lemma KnownTotals(counts: seq<CallCounts>, history: seq<Event>, cfg: Config, i: nat)
    requires KnownRight(counts, history, cfg) && Representable(history, cfg) && i < |counts|
    ensures Describes(counts[i], Of(history, i), cfg)
  {
    OfRepresentable(history, i, cfg);
    FreshDescribes(Of(history, i), cfg);
  }

  lemma UnknownTotals(keys: seq<Unknown>, base: seq<CallCounts>, history: seq<Event>, cfg: Config, k: nat)
    requires RecordsRight(keys, base, history, cfg) && SlotsInitialised(base, cfg)
    requires Representable(history, cfg) && k < |keys| && k < UNKNOWN_COUNTS_ENTRIES
    ensures Describes(keys[k].cc, Of(history, keys[k].scno), cfg)
  {
    OfRepresentable(history, keys[k].scno, cfg);
    FreshDescribes(Of(history, keys[k].scno), cfg);
  }

  // Totals over several records: call_cum, error_cum, tv_cum and tv_wall_cum.
  datatype Cumulative = Cumulative(calls: int, errors: int, time: int, wall: int)

  const Nothing: Cumulative := Cumulative(0, 0, 0, 0)

  function AddOf(c: Cumulative, cc: CallCounts, cfg: Config): Cumulative {
    Cumulative(c.calls + cc.calls, c.errors + cc.errors, c.time + cc.time.total,
               if cfg.needsWall then c.wall + cc.wall.total else c.wall)
  }

  function Plus(a: Cumulative, b: Cumulative): Cumulative {
    Cumulative(a.calls + b.calls, a.errors + b.errors, a.time + b.time, a.wall + b.wall)
  }

  // What slots held at first.
  function Leftovers(slots: seq<CallCounts>, cfg: Config): Cumulative {
    if slots == [] then Nothing else AddOf(Leftovers(slots[..|slots| - 1], cfg), slots[|slots| - 1], cfg)
  }

  // The totals of calls.
  function WholeOf(es: seq<Event>, cfg: Config): Cumulative {
    Cumulative(|es|, Failures(es), Weigh(es, TimeOf(cfg)), if cfg.needsWall then Weigh(es, WallOf(cfg)) else 0)
  }

  // ---- the summary ----

  // The numbers under which records are reported.
  function Keys(nsyscalls: nat, keys: seq<Unknown>): (r: seq<nat>)
    ensures |r| == nsyscalls + |keys|
  {
    seq(nsyscalls, i requires i >= 0 => i) + seq(|keys|, i requires 0 <= i < |keys| => keys[i].scno)
  }

  lemma KeyOf(nsyscalls: nat, keys: seq<Unknown>, i: nat)
    requires i < nsyscalls + |keys|
    ensures Keys(nsyscalls, keys)[i] == if i < nsyscalls then i else keys[i - nsyscalls].scno
  {
  }

  // Every call belongs to exactly one of the reported numbers.
  lemma KeysArePartition(nsyscalls: nat, keys: seq<Unknown>, history: seq<Event>)
    requires KeysDistinct(keys, nsyscalls) && KeysCover(keys, nsyscalls, history)
    ensures Distinct(Keys(nsyscalls, keys))
    ensures forall i :: 0 <= i < |history| ==> history[i].scno in Keys(nsyscalls, keys)
  {
    hide Keys;
    var all := Keys(nsyscalls, keys);
    forall i | 0 <= i < |all| {
      KeyOf(nsyscalls, keys, i);
    }
    forall i | 0 <= i < |history|
      ensures history[i].scno in all
    {
      var s := history[i].scno;
      if s < nsyscalls {
        assert all[s] == s;
      } else {
        var k :| 0 <= k < |keys| && keys[k].scno == s;
        assert all[nsyscalls + k] == s;
      }
    }
  }

  // The sums of calls, failures and times over some numbers.
  ghost predicate Totals(history: seq<Event>, keys: seq<nat>, c: Cumulative, cfg: Config) {
    && c.calls == Sum(history, keys, _ => 1)
    && c.errors == Sum(history, keys, (e: Event) => if e.error then 1 else 0)
    && c.time == Sum(history, keys, TimeOf(cfg))
    && c.wall == if cfg.needsWall then Sum(history, keys, WallOf(cfg)) else 0
  }

  function Sum(history: seq<Event>, keys: seq<nat>, w: Event -> int): int {
    if keys == [] then 0
    else Sum(history, keys[..|keys| - 1], w) + Weigh(Of(history, keys[|keys| - 1]), w)
  }

  lemma {:induction false} Weights(es: seq<Event>)
    ensures Weigh(es, _ => 1) == |es|
    ensures Weigh(es, (e: Event) => if e.error then 1 else 0) == Failures(es)
  {
    if es != [] {
      Weights(es[..|es| - 1]);
    }
  }

  lemma TotalsNext(history: seq<Event>, keys: seq<nat>, scno: nat, c: Cumulative, cfg: Config)
    requires Totals(history, keys, c, cfg)
    ensures Totals(history, keys + [scno], Plus(c, WholeOf(Of(history, scno), cfg)), cfg)
  {
    hide TimeOf, WallOf, Of, Weigh;
    Weights(Of(history, scno));
    assert (keys + [scno])[..|keys|] == keys;
  }

  lemma {:induction false} OfRepresentable(history: seq<Event>, scno: nat, cfg: Config)
    requires Representable(history, cfg)
    ensures Representable(Of(history, scno), cfg)
  {
    if history != [] {
      OfRepresentable(history[..|history| - 1], scno, cfg);
    }
  }

  // A call adds its weight to the sum once, if its number is among the distinct keys.
  lemma {:induction false} SumNext(history: seq<Event>, ev: Event, keys: seq<nat>, w: Event -> int)
    requires Distinct(keys)
    ensures Sum(history + [ev], keys, w) == Sum(history, keys, w) + (if ev.scno in keys then w(ev) else 0)
  {
    hide Of, Weigh;
    if keys != [] {
      var init, last := keys[..|keys| - 1], keys[|keys| - 1];
      SumNext(history, ev, init, w);
      OfNext(history, ev, last);
      WeighNext(Of(history, last), ev, w);
      assert keys == init + [last] && Of(history, last) + [] == Of(history, last);
    }
  }

  // Summing over the reported numbers loses no call and counts none twice.
  lemma {:induction false} SumIsWhole(history: seq<Event>, keys: seq<nat>, w: Event -> int)
    requires Distinct(keys) && forall i :: 0 <= i < |history| ==> history[i].scno in keys
    ensures Sum(history, keys, w) == Weigh(history, w)
  {
    hide Sum, Of;
    if history == [] {
      SumEmpty(keys, w);
    } else {
      var init, last := history[..|history| - 1], history[|history| - 1];
      SumIsWhole(init, keys, w);
      SumNext(init, last, keys, w);
      assert history == init + [last];
    }
  }

  lemma {:induction false} SumEmpty(keys: seq<nat>, w: Event -> int)
    ensures Sum([], keys, w) == 0
  {
    if keys != [] {
      SumEmpty(keys[..|keys| - 1], w);
    }
  }

  lemma Conservation(history: seq<Event>, keys: seq<nat>, c: Cumulative, cfg: Config)
    requires Distinct(keys) && forall i :: 0 <= i < |history| ==> history[i].scno in keys
    ensures Totals(history, keys, c, cfg) <==> c == WholeOf(history, cfg)
  {
    hide TimeOf, WallOf, Sum, Weigh;
    SumIsWhole(history, keys, _ => 1);
    SumIsWhole(history, keys, (e: Event) => if e.error then 1 else 0);
    SumIsWhole(history, keys, TimeOf(cfg));
    SumIsWhole(history, keys, WallOf(cfg));
    Weights(history);
  }

  // However the index is sorted, every counted syscall is reported exactly once.
  lemma ReportedOnce(indices: seq<nat>, sorted: seq<nat>, history: seq<Event>, i: nat)
    requires Distinct(indices) && multiset(sorted) == multiset(indices)
    requires i < |history| && history[i].scno in indices
    ensures multiset(sorted)[history[i].scno] == 1
  {
    CountOnce(indices, history[i].scno);
  }

  lemma {:induction false} CountOnce(s: seq<nat>, x: nat)
    requires Distinct(s)
    ensures multiset(s)[x] == if x in s then 1 else 0
  {
    if s != [] {
      var init, last := s[..|s| - 1], s[|s| - 1];
      CountOnce(init, x);
      assert s == init + [last];
    }
  }

  lemma FreshIsInitialised(cfg: Config)
    ensures FreshRecord(cfg) == InitSlot(FreshRecord(cfg), cfg)
  {
  }

  lemma SlotsGrow(base: seq<CallCounts>, more: seq<CallCounts>, cfg: Config)
    requires SlotsInitialised(base, cfg) && |base| >= UNKNOWN_COUNTS_ENTRIES
    requires forall i :: 0 <= i < |more| ==> more[i] == InitSlot(more[i], cfg)
    ensures SlotsInitialised(base + more, cfg)
  {
  }

  lemma FreshKnown(counts: seq<CallCounts>, cfg: Config)
    requires forall i :: 0 <= i < |counts| ==> counts[i] == FreshRecord(cfg)
    ensures KnownRight(counts, [], cfg)
  {
  }

  lemma InsertKey(keys: seq<Unknown>, base: seq<CallCounts>, nsyscalls: nat, history: seq<Event>,
                  cfg: Config, scno: nat)
    requires KeysDistinct(keys, nsyscalls) && KeysCover(keys, nsyscalls, history)
    requires RecordsRight(keys, base, history, cfg) && |keys| < |base|
    requires scno >= nsyscalls && !HasKey(keys, scno)
    ensures var keys' := keys + [Unknown(scno, base[|keys|])];
            && KeysDistinct(keys', nsyscalls) && KeysCover(keys', nsyscalls, history)
            && RecordsRight(keys', base, history, cfg) && HasKey(keys', scno)
  {
    var keys' := keys + [Unknown(scno, base[|keys|])];
    assert keys'[|keys|].scno == scno;
    forall i | 0 <= i < |history| && history[i].scno >= nsyscalls
      ensures HasKey(keys', history[i].scno) && history[i].scno != scno
    {
      var k :| 0 <= k < |keys| && keys[k].scno == history[i].scno;
      assert keys'[k] == keys[k];
    }
    NoCalls(history, scno);
  }

  lemma CoverNext(keys: seq<Unknown>, keys': seq<Unknown>, nsyscalls: nat, history: seq<Event>, ev: Event)
    requires KeysDistinct(keys, nsyscalls) && KeysCover(keys, nsyscalls, history)
    requires ev.scno >= nsyscalls ==> HasKey(keys, ev.scno)
    requires |keys'| == |keys| && forall k :: 0 <= k < |keys| ==> keys'[k].scno == keys[k].scno
    ensures KeysDistinct(keys', nsyscalls) && KeysCover(keys', nsyscalls, history + [ev])
  {
    forall i | 0 <= i < |history| + 1 && (history + [ev])[i].scno >= nsyscalls
      ensures HasKey(keys', (history + [ev])[i].scno)
    {
      var s := (history + [ev])[i].scno;
      assert HasKey(keys, s);
      var k :| 0 <= k < |keys| && keys[k].scno == s;
      assert keys'[k].scno == s;
    }
  }
}
