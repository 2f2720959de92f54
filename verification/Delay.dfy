/** Delay injection: the arena of delays (src/delay.c:11-62) and the timer that ends them
    (src/delay.c:64-135, src/strace.c:4330-4381).  Times are whole nanoseconds of the monotonic
    clock.
 */
module Delay {
  import opened Common

  // ---- the arena ----

  const UINT16_LIMIT: nat := 0x1_0000

  datatype DelayData = DelayData(enter: nat, exit: nat)

  // xgrowarray's first allocation, for 32-byte records on 64-bit hosts.
  const FIRST_CAPACITY: nat := 4

  class Arena {
    var vec: seq<DelayData>  // as many as the capacity
    var size: nat

    ghost predicate Valid()
      reads this
    {
      && size <= |vec| && size <= UINT16_LIMIT
      && forall i :: size <= i < |vec| ==> vec[i] == DelayData(0, 0)
    }

    constructor ()
      ensures Valid() && size == 0
    {
      vec, size := [], 0;
    }

    ghost function Used(): seq<DelayData>
      requires Valid()
      reads this
    {
      vec[..size]
    }

    // alloc_delay_data; `ok` is false where the source dies of index overflow.
    method Alloc() returns (ok: bool, idx: nat)
      requires Valid()
      modifies this
      ensures Valid()
      ensures ok <==> old(size) < UINT16_LIMIT
      ensures ok ==> idx == old(size) && Used() == old(Used()) + [DelayData(0, 0)]
      ensures ok ==> |vec| == |old(vec)| + if size <= |old(vec)| then 0
                                           else if old(vec) == [] then FIRST_CAPACITY
                                           else |old(vec)| / 2 + 1
      ensures !ok ==> Used() == old(Used())
    {
      idx := size % UINT16_LIMIT;
      if idx < size {
        return false, idx;
      }
      if size == |vec| {
        var more := if vec == [] then FIRST_CAPACITY else |vec| / 2 + 1;
        vec := vec + seq(more, _ => DelayData(0, 0));
      }
      size := size + 1;
      ok := true;
    }

    // fill_delay_data; out-of-range indices make the source die.
    method Fill(idx: nat, val: nat, isEnter: bool) returns (ok: bool)
      requires Valid()
      modifies this
      ensures Valid() && size == old(size)
      ensures ok <==> idx < size
      ensures ok ==> Used() == old(Used())[idx := if isEnter then DelayData(val, old(Used())[idx].exit)
                                                  else DelayData(old(Used())[idx].enter, val)]
      ensures !ok ==> Used() == old(Used())
    {
      if idx >= size {
        return false;
      }
      vec := vec[idx := if isEnter then vec[idx].(enter := val) else vec[idx].(exit := val)];
      ok := true;
    }
  }

  // ---- the timer ----

  datatype Tcb = Tcb(pid: nat, delayed: bool, expiration: int) {
    predicate Waiting() {
      pid != 0 && delayed
    }
  }

  // The kernel's timer: the time it is set to, if it is running, and whether a signal of it is
  // still to be handled.
  datatype Timer = Timer(deadline: Option<int>, pending: bool)

  class Delays {
    var now: int
    var timer: Timer
    var created: bool
    var armed: bool  // delay_timer_is_armed
    var failed: bool  // restart_failed
    var tcbs: seq<Tcb>

    // Whoever waits is waited for: the loop that waits for tracees lets the timer's signal in
    // (`armed`), and unless one is on its way, the timer goes off no later than the delay ends.
    ghost predicate Covered()
      reads this
    {
      forall i :: 0 <= i < |tcbs| && tcbs[i].Waiting() ==>
        armed && (timer.pending || (timer.deadline.Some? && timer.deadline.value <= tcbs[i].expiration))
    }

    ghost predicate Consistent()
      reads this
    {
      && (timer.deadline.Some? ==> created && timer.deadline.value > now)
      && (timer.pending ==> created)
    }

    // What keeps everyone covered: a timer that runs or has gone off is watched.
    ghost predicate Valid()
      reads this
    {
      Consistent() && Covered() && (timer.deadline.Some? || timer.pending ==> armed)
    }

    constructor (tcbs: seq<Tcb>, now: int)
      requires forall i :: 0 <= i < |tcbs| ==> !tcbs[i].delayed
      ensures Valid() && !failed && this.tcbs == tcbs && this.now == now
    {
      this.tcbs, this.now := tcbs, now;
      timer, created, armed, failed := Timer(None, false), false, false, false;
    }

    // Time goes by; a timer whose time has come goes off.
    method Pass(elapsed: nat)
      requires Consistent()
      modifies this`now, this`timer
      ensures Consistent() && (old(Valid()) ==> Valid()) && (old(Covered()) ==> Covered())
      ensures now == old(now) + elapsed
      ensures timer.pending <==>
                old(timer.pending) || (old(timer.deadline).Some? && old(timer.deadline).value <= now)
    {
      now := now + elapsed;
      if timer.deadline.Some? && timer.deadline.value <= now {
        timer := Timer(None, true);
      }
    }

    // arm_delay_timer; a time that has come makes the timer go off at once.
    method Arm(expiration: int)
      requires created
      modifies this`timer, this`armed
      ensures armed && timer.deadline == (if expiration <= now then None else Some(expiration))
      ensures timer.pending <==> old(timer.pending) || expiration <= now
    {
      timer := if expiration > now then Timer(Some(expiration), timer.pending) else Timer(None, true);
      armed := true;
    }

    // delay_tcb.  The new delay is covered unless it relies on a timer that runs and goes off first
    // but is not watched.
    method DelayTcb(i: nat, diff: nat)
      requires Consistent() && i < |tcbs| && tcbs[i].pid != 0
      modifies this`tcbs, this`timer, this`created, this`armed
      ensures Consistent() && (old(Valid()) ==> Valid())
      ensures old(Covered()) ==>
                (Covered() <==> old(armed) || old(timer.deadline).None? || now + diff <= old(timer.deadline).value)
      ensures now == old(now) && tcbs == old(tcbs)[i := Tcb(old(tcbs)[i].pid, true, now + diff)]
      ensures if old(timer.deadline).Some? && now + diff > old(timer.deadline).value
              then timer == old(timer) && armed == old(armed)
              else armed && timer == if diff > 0 then Timer(Some(now + diff), old(timer.pending)) else Timer(None, true)
    {
      tcbs := tcbs[i := tcbs[i].(delayed := true, expiration := now + diff)];
      if created {
        var remaining := if timer.deadline.Some? then timer.deadline.value - now else 0;
        if remaining != 0 && diff > remaining {
          assert tcbs[i].Waiting();
          return;
        }
      } else {
        created := true;
      }
      Arm(tcbs[i].expiration);
    }

    // droptcb, which clears the record of the tracee.
    method Drop(i: nat)
      requires Consistent() && i < |tcbs|
      modifies this`tcbs
      ensures Consistent() && (old(Valid()) ==> Valid()) && (old(Covered()) ==> Covered())
      ensures tcbs == old(tcbs)[i := Tcb(0, false, 0)]
    {
      tcbs := tcbs[i := Tcb(0, false, 0)];
    }

    // restart_delayed_tcbs: end the delays that are over and find the next one to end.
    // `restarts` tells which tracees can be restarted; the loop stops at one that cannot.
    method RestartDelayed(restarts: nat -> bool) returns (ok: bool, next: Option<nat>)
      modifies this`tcbs
      ensures |tcbs| == |old(tcbs)|
      ensures ok <==> !RestartFails(old(tcbs), now, restarts)
      ensures ok ==> tcbs == Awakened(old(tcbs), now) && IsNext(tcbs, next)
      ensures !ok ==> forall i :: 0 <= i < |tcbs| ==>
                tcbs[i] == old(tcbs)[i] || tcbs[i] == Awaken(old(tcbs)[i], now)
    {
      next := None;
      for i := 0 to |tcbs|
        modifies this`tcbs
        invariant |tcbs| == |old(tcbs)|
        invariant forall j :: 0 <= j < |tcbs| ==>
                    tcbs[j] == if j < i then Awaken(old(tcbs)[j], now) else old(tcbs)[j]
        invariant forall j :: 0 <= j < i && Over(old(tcbs)[j], now) ==> restarts(j)
        invariant next.Some? ==> next.value < i && tcbs[next.value].Waiting()
        invariant forall j :: 0 <= j < i && tcbs[j].Waiting() ==>
                    next.Some? && tcbs[next.value].expiration <= tcbs[j].expiration
      {
        if tcbs[i].Waiting() {
          if now > tcbs[i].expiration {
            assert Over(old(tcbs)[i], now);
            tcbs := tcbs[i := tcbs[i].(delayed := false)];
            if !restarts(i) {
              return false, next;
            }
          } else if next.None? || tcbs[next.value].expiration > tcbs[i].expiration {
            next := Some(i);
          }
        }
      }
      ok := true;
    }

    // timer_sighandler.  The timer stays watched unless it was set again before its signal was
    // handled and nobody is left waiting.  strace ends once a tracee could not be restarted.
    method Handle(restarts: nat -> bool)
      requires Consistent() && timer.pending
      modifies this
      ensures Consistent() && now == old(now) && created == old(created) && |tcbs| == |old(tcbs)|
      ensures failed <==> old(failed) || RestartFails(old(tcbs), now, restarts)
      ensures !failed ==> Covered() && tcbs == Awakened(old(tcbs), now)
      ensures !failed ==>
                (Valid() <==> old(timer.deadline).None?
                              || exists i :: 0 <= i < |tcbs| && Outlasts(old(tcbs)[i], now))
      ensures failed || !Valid() ==> !armed && timer == Timer(old(timer.deadline), false)
      ensures failed ==> forall i :: 0 <= i < |tcbs| ==>
                tcbs[i] == old(tcbs)[i] || tcbs[i] == Awaken(old(tcbs)[i], now)
    {
      hide RestartFails;
      armed := false;
      timer := Timer(timer.deadline, false);
      if failed {
        return;
      }
      var ok, next := RestartDelayed(restarts);
      if !ok {
        failed := true;
        return;
      }
      if next.Some? {
        assert Outlasts(old(tcbs)[next.value], now);
        Arm(tcbs[next.value].expiration);
      }
    }
  }

  ghost predicate RestartFails(tcbs: seq<Tcb>, now: int, restarts: nat -> bool) {
    exists i :: 0 <= i < |tcbs| && Over(tcbs[i], now) && !restarts(i)
  }

  // Of those who wait, one whose delay ends first.
  ghost predicate IsNext(tcbs: seq<Tcb>, next: Option<nat>) {
    && (next.Some? ==> next.value < |tcbs| && tcbs[next.value].Waiting())
    && forall j :: 0 <= j < |tcbs| && tcbs[j].Waiting() ==>
         next.Some? && tcbs[next.value].expiration <= tcbs[j].expiration
  }

  // A delay that is over, and one that is not.

  predicate Over(t: Tcb, now: int) {
    t.Waiting() && now > t.expiration
  }

  predicate Outlasts(t: Tcb, now: int) {
    t.Waiting() && now <= t.expiration
  }

  // A delay that is over ends; it never ends early.
  function Awaken(t: Tcb, now: int): Tcb {
    if Over(t, now) then t.(delayed := false) else t
  }

  function Awakened(tcbs: seq<Tcb>, now: int): (r: seq<Tcb>)
    ensures |r| == |tcbs| && forall i :: 0 <= i < |r| ==> r[i] == Awaken(tcbs[i], now)
  {
    seq(|tcbs|, i requires 0 <= i < |tcbs| => Awaken(tcbs[i], now))
  }

  // The exception matters: a tracee that is delayed again after the timer has gone off, and dies
  // before the signal is handled, leaves a timer nobody watches; the next tracee to be delayed
  // for longer than that timer runs relies on it and is not covered.
  method LostDelay() returns (d: Delays)
    ensures fresh(d) && |d.tcbs| == 3 && d.tcbs[2].Waiting() && !d.Covered()
  {
    d := new Delays([Tcb(1, false, 0), Tcb(2, false, 0), Tcb(3, false, 0)], 0);
    d.DelayTcb(0, 10);
    d.Pass(20);
    d.DelayTcb(1, 100);
    d.Drop(1);
    d.Handle(_ => true);
    assert d.tcbs[0] == Tcb(1, false, 10) && d.tcbs[1].pid == 0 && d.tcbs[2] == Tcb(3, false, 0);
    d.DelayTcb(2, 200);
  }
}
