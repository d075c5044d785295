/** The round-robin scheduler and the sleep accounting of the timer tick. */
module Scheduler {
  datatype Status = Unused | Ready | Running | Waiting

  /** Processes 0 (the swapper) to N - 1, their sleep counters, alarm counters and alarm periods, and the current one. */
  datatype Processes = Processes(status: seq<Status>, sleep: seq<nat>, alarm: seq<nat>, period: seq<nat>, current: nat)

  ghost predicate Sound(w: Processes) {
    |w.status| == |w.sleep| == |w.alarm| == |w.period| >= 2 && w.current < |w.status|
  }

  // ---------------------------------------------------------------- the choice

  /** How many steps after `cur` process `p` comes in cyclic order 1, …, n - 1; `cur` itself comes last. */
  function Turn(cur: nat, p: nat, n: nat): int {
    if p > cur then p - cur else p - cur + n - 1
  }

  predicate IsReady(status: seq<Status>, p: nat) {
    0 < p < |status| && status[p] == Ready
  }

  /** The first ready process in cyclic order after `cur`, or the swapper. */
  ghost predicate Picked(status: seq<Status>, cur: nat, r: nat) {
    if r == 0 then forall p :: !IsReady(status, p)
    else IsReady(status, r) && forall p :: IsReady(status, p) ==> Turn(cur, r, |status|) <= Turn(cur, p, |status|)
  }

  lemma PickedUnique(status: seq<Status>, cur: nat, r: nat, s: nat)
    requires Picked(status, cur, r) && Picked(status, cur, s) && cur < |status|
    ensures r == s
  {
    assert r != 0 ==> IsReady(status, r);
    assert s != 0 ==> IsReady(status, s);
  }

  class Scheduler {
    const status: array<Status>
    const sleep: array<nat>
    const alarm: array<nat>
    const period: array<nat>
    var current: nat

    constructor (n: nat)
      requires n >= 2
      ensures Sound(Now()) && Separate() && fresh(status) && fresh(sleep) && fresh(alarm) && fresh(period)
    {
      status := new Status[n](i => Unused);
      sleep := new nat[n](i => 0);
      alarm := new nat[n](i => 0);
      period := new nat[n](i => 0);
      current := 0;
    }

    ghost function Now(): Processes
      reads this, status, sleep, alarm, period
    {
      Processes(status[..], sleep[..], alarm[..], period[..], current)
    }

    ghost predicate Separate() {
      sleep != alarm && sleep != period && alarm != period
    }

    /** pick_next_context: the loop wraps from N - 1 to 1 and ends after the caller. */
    method PickNext(cur: nat) returns (r: nat)
      requires 2 <= status.Length && cur < status.Length
      ensures r < status.Length && Picked(status[..], cur, r)
    {
      var n := status.Length;
      var pid := if cur + 1 == n then 1 else cur + 1;
      while pid != 0
        invariant 0 <= pid < n
        invariant pid == 0 ==> forall p :: !IsReady(status[..], p)
        invariant pid != 0 ==> forall p :: IsReady(status[..], p) ==> Turn(cur, pid, n) <= Turn(cur, p, n)
        decreases if pid == 0 then 0 else n - Turn(cur, pid, n) + 1
      {
        if status[pid] == Ready {
          return pid;
        }
        var next := pid + 1;
        if next == cur + 1 {
          next := 0;
        }
        if next == n {
          next := 1;
          if cur == 0 {
            break;
          }
        }
        pid := next;
      }
      r := 0;
    }

    /** The accounting loop of the tick. */
    method AccountSleep()
      requires status.Length == sleep.Length
      modifies status, sleep
      ensures status[..] == Woken(old(status[..]), old(sleep[..]))
      ensures sleep[..] == Counted(old(status[..]), old(sleep[..]))
    {
      var i := 0;
      while i < status.Length
        invariant i <= status.Length
        invariant forall k :: 0 <= k < i ==> status[k] == WokenOne(old(status[k]), old(sleep[k]))
        invariant forall k :: 0 <= k < i ==> sleep[k] == CountedOne(old(status[k]), old(sleep[k]))
        invariant forall k :: i <= k < status.Length ==> status[k] == old(status[k]) && sleep[k] == old(sleep[k])
      {
        if status[i] == Waiting && sleep[i] > 0 {
          sleep[i] := sleep[i] - 1;
          if sleep[i] == 0 {
            status[i] := Ready;
          }
        }
        i := i + 1;
      }
    }

    /** The alarm of the current process: only its own ticks count. */
    method AccountAlarm() returns (signal: bool)
      requires Sound(Now()) && Separate()
      modifies alarm
      ensures signal <==> old(alarm[current]) == 1
      ensures alarm[..] == old(alarm[..])[current := Rearmed(old(alarm[current]), period[current])]
    {
      signal := false;
      if alarm[current] > 0 {
        alarm[current] := alarm[current] - 1;
        if alarm[current] == 0 {
          signal := true;
          alarm[current] := period[current];
        }
      }
      assert alarm[..] == old(alarm[..])[current := alarm[current]];
    }

    /** handle_timer_tick: account, make the current process ready, pick, switch. */
    method Tick() returns (signal: bool)
      requires Sound(Now()) && Separate()
      modifies this, status, sleep, alarm
      ensures Sound(Now()) && Ticked(old(Now()), Now())
      ensures signal <==> old(alarm[current]) == 1
    {
      AccountSleep();
      signal := AccountAlarm();
      status[current] := Ready;
      var next := PickNext(current);
      if next != current {
        current := next;
        status[next] := Running;
      }
    }
  }

  /** The alarm counter of the current process after a tick. */
  function Rearmed(left: nat, period: nat): nat {
    if left == 0 then 0 else if left == 1 then period else left - 1
  }

  function WokenOne(s: Status, left: nat): Status {
    if s == Waiting && left == 1 then Ready else s
  }

  function CountedOne(s: Status, left: nat): nat {
    if s == Waiting && left > 0 then left - 1 else left
  }

  function Woken(status: seq<Status>, sleep: seq<nat>): seq<Status>
    requires |status| == |sleep|
  {
    seq(|status|, i requires 0 <= i < |status| => WokenOne(status[i], sleep[i]))
  }

  function Counted(status: seq<Status>, sleep: seq<nat>): seq<nat>
    requires |status| == |sleep|
  {
    seq(|status|, i requires 0 <= i < |status| => CountedOne(status[i], sleep[i]))
  }

  /** One timer tick. */
  ghost predicate Ticked(w: Processes, v: Processes)
    requires Sound(w)
  {
    var ready := Woken(w.status, w.sleep)[w.current := Ready];
    && v.sleep == Counted(w.status, w.sleep)
    && v.alarm == w.alarm[w.current := Rearmed(w.alarm[w.current], w.period[w.current])] && v.period == w.period
    && v.current < |w.status|
    && Picked(ready, w.current, v.current)
    && v.status == if v.current == w.current then ready else ready[v.current := Running]
  }

  // ---------------------------------------------------------------- fairness

  /** Successive picks, with anything happening to the other processes in between. */
  ghost predicate Picks(statuses: seq<seq<Status>>, picks: seq<nat>, n: nat) {
    && |picks| == |statuses| + 1
    && (forall i :: 0 <= i < |picks| ==> picks[i] < n)
    && (forall i :: 0 <= i < |statuses| ==> |statuses[i]| == n && Picked(statuses[i], picks[i], picks[i + 1]))
  }

  /** While a ready process is passed over, its turn comes nearer with every pick. */
  lemma {:induction false} TurnComesNearer(statuses: seq<seq<Status>>, picks: seq<nat>, n: nat, p: nat, k: nat)
    requires Picks(statuses, picks, n) && k < |picks| && 0 < p < n
    requires forall i :: 0 <= i < |statuses| ==> IsReady(statuses[i], p)
    requires forall i :: 0 < i <= k ==> picks[i] != p
    ensures Turn(picks[k], p, n) <= Turn(picks[0], p, n) - k
    ensures k > 0 ==> picks[k] != 0
  {
    if k > 0 {
      TurnComesNearer(statuses, picks, n, p, k - 1);
      assert Picked(statuses[k - 1], picks[k - 1], picks[k]);
      assert IsReady(statuses[k - 1], p);
    }
  }

  /** A process that stays ready is picked within N - 1 picks. */
  lemma Fair(statuses: seq<seq<Status>>, picks: seq<nat>, n: nat, p: nat)
    requires Picks(statuses, picks, n) && |statuses| == n - 1 && 0 < p < n
    requires forall i :: 0 <= i < |statuses| ==> IsReady(statuses[i], p)
    ensures exists i :: 0 < i < |picks| && picks[i] == p
  {
    if forall i :: 0 < i < |picks| ==> picks[i] != p {
      TurnComesNearer(statuses, picks, n, p, n - 1);
    }
  }

  /** The process whose turn comes `k` picks after `p`. */
  function NthAfter(p: nat, k: nat, n: nat): int {
    if p + k < n then p + k else p + k - n + 1
  }

  /** The bound is reached: when all processes stay ready, `p` is passed over N - 2 times. */
  lemma FairBoundIsReached(n: nat, p: nat) returns (statuses: seq<seq<Status>>, picks: seq<nat>)
    requires 0 < p < n
    ensures Picks(statuses, picks, n) && |statuses| == n - 1
    ensures forall i :: 0 <= i < |statuses| ==> IsReady(statuses[i], p)
    ensures forall i :: 0 < i < n - 1 ==> picks[i] != p
  {
    var all := seq(n, _ => Ready);
    statuses := seq(n - 1, _ => all);
    picks := seq(n, k requires 0 <= k < n => NthAfter(p, k, n) as nat);
    forall i | 0 <= i < n - 1 ensures Picked(statuses[i], picks[i], picks[i + 1]) {
      assert Turn(picks[i], picks[i + 1], n) == 1;
    }
  }

  // ---------------------------------------------------------------- runs of ticks

  /** Worlds that follow each other by ticks alone. */
  ghost predicate TickRun(worlds: seq<Processes>) {
    && worlds != [] && Sound(worlds[0])
    && forall i :: 0 <= i < |worlds| - 1 ==> Sound(worlds[i]) && Ticked(worlds[i], worlds[i + 1])
  }

  /** The process can be picked now, or will be able to at the tick that takes it off the processor. */
  ghost predicate Runnable(w: Processes, p: nat) {
    Sound(w) && 0 < p < |w.status| && (w.status[p] == Ready || (w.current == p && w.status[p] == Running))
  }

  /** A tick makes the process on the processor ready: no runnable process is lost, and those passed over come
      nearer. */
  lemma RunnableStays(w: Processes, v: Processes, p: nat)
    requires Runnable(w, p) && Ticked(w, v)
    ensures Runnable(v, p) && |v.status| == |w.status|
    ensures v.current != p ==> v.current != 0 && Turn(v.current, p, |v.status|) < Turn(w.current, p, |w.status|)
  {
    var ready := Woken(w.status, w.sleep)[w.current := Ready];
    assert IsReady(ready, p);
  }

  lemma {:induction false} RunnableComesNearer(worlds: seq<Processes>, p: nat, k: nat)
    requires TickRun(worlds) && Runnable(worlds[0], p) && k < |worlds|
    requires forall i :: 0 < i <= k ==> worlds[i].current != p
    ensures Runnable(worlds[k], p) && |worlds[k].status| == |worlds[0].status|
    ensures Turn(worlds[k].current, p, |worlds[0].status|) <= Turn(worlds[0].current, p, |worlds[0].status|) - k
  {
    if k > 0 {
      hide Ticked, Runnable;
      RunnableComesNearer(worlds, p, k - 1);
      RunnableStays(worlds[k - 1], worlds[k], p);
    }
  }

  /** Round robin: a process that is ready, or that is being taken off the processor, runs again after at most
      N - 1 ticks. */
  lemma TicksAreFair(worlds: seq<Processes>, p: nat)
    requires TickRun(worlds) && Runnable(worlds[0], p) && |worlds| == |worlds[0].status|
    ensures exists i :: 0 < i < |worlds| && worlds[i].current == p
  {
    var n := |worlds|;
    if forall i :: 0 < i < n ==> worlds[i].current != p {
      RunnableComesNearer(worlds, p, n - 1);
    }
  }

  ghost predicate OneRunning(w: Processes) {
    forall p, q :: 0 <= p < |w.status| && 0 <= q < |w.status| && w.status[p] == Running && w.status[q] == Running ==> p == q
  }

  /** Only the process on the processor is marked as running. */
  ghost predicate OnlyCurrentRuns(w: Processes) {
    forall p :: 0 <= p < |w.status| && w.status[p] == Running ==> p == w.current
  }

  /** After a tick at most one process runs, and it is the one on the processor, if that was so before. If at
      most one ran but it was another, that is lost exactly when the tick switches. */
  lemma TickKeepsOneRunning(w: Processes, v: Processes)
    requires Sound(w) && Ticked(w, v)
    ensures OnlyCurrentRuns(w) ==> OnlyCurrentRuns(v) && OneRunning(v)
    ensures OneRunning(w) ==> (OneRunning(v) <==> OnlyCurrentRuns(w) || v.current == w.current)
  {
    var ready := Woken(w.status, w.sleep)[w.current := Ready];
    assert v.current != 0 ==> IsReady(ready, v.current);
    forall p | 0 <= p < |w.status| && p != w.current ensures ready[p] == Running <==> w.status[p] == Running {
    }
    if !OnlyCurrentRuns(w) && v.current != w.current {
      assert w.current != 0 ==> IsReady(ready, w.current);
      var p :| 0 <= p < |w.status| && w.status[p] == Running && p != w.current;
      assert ready[p] == Running && ready[v.current] == Ready;
      assert v.status[p] == Running && v.status[v.current] == Running;
    }
  }

  // ---------------------------------------------------------------- sleeping

  datatype Event = TickEvent | OtherEvent

  /** A tick, or anything else that leaves process `p` alone and does not run it. */
  ghost predicate Happens(w: Processes, e: Event, v: Processes, p: nat) {
    && Sound(w) && Sound(v) && |v.status| == |w.status| && p < |w.status|
    && match e
       case TickEvent => Ticked(w, v)
       case OtherEvent =>
         v.status[p] == w.status[p] && v.sleep[p] == w.sleep[p] && (w.current != p ==> v.current != p)
  }

  function Ticks(events: seq<Event>): nat {
    if events == [] then 0 else Ticks(events[..|events| - 1]) + if events[|events| - 1].TickEvent? then 1 else 0
  }

  /** What a tick does to a process that sleeps. */
  lemma TickOnSleeper(w: Processes, v: Processes, p: nat)
    requires Sound(w) && Ticked(w, v) && 0 < p < |w.status| && w.current != p && w.status[p] == Waiting
    ensures |v.status| == |w.status| == |v.sleep|
    ensures if w.sleep[p] == 1 then v.status[p] == Ready || v.status[p] == Running
            else v.status[p] == Waiting && v.current != p && v.sleep[p] == if w.sleep[p] == 0 then 0 else w.sleep[p] - 1
  {
    var ready := Woken(w.status, w.sleep)[w.current := Ready];
    assert w.sleep[p] != 1 ==> !IsReady(ready, p);
  }

  /** sleep(t): before the t-th tick the process waits, and the t-th tick wakes it; sleep(0) is never woken. */
  lemma {:induction false} SleepIsExact(worlds: seq<Processes>, events: seq<Event>, p: nat, t: nat)
    requires |worlds| == |events| + 1
    requires forall i :: 0 <= i < |events| ==> Happens(worlds[i], events[i], worlds[i + 1], p)
    requires Sound(worlds[0]) && 0 < p < |worlds[0].status|
    requires worlds[0].status[p] == Waiting && worlds[0].sleep[p] == t && worlds[0].current != p
    requires t > 0 ==> Ticks(events) <= t && (Ticks(events) == t ==> events[|events| - 1].TickEvent?)
    ensures var w := worlds[|events|];
      && Sound(w) && p < |w.status|
      && (w.status[p] == Waiting <==> t == 0 || Ticks(events) < t)
      && (w.status[p] == Waiting ==> w.current != p && w.sleep[p] == if t == 0 then 0 else t - Ticks(events))
    decreases |events|
  {
    if events != [] {
      var k := |events| - 1;
      SleepIsExact(worlds[..k + 1], events[..k], p, t);
      assert Happens(worlds[k], events[k], worlds[k + 1], p);
      if events[k].TickEvent? {
        TickOnSleeper(worlds[k], worlds[k + 1], p);
      }
    }
  }

  // ---------------------------------------------------------------- alarms

  /** A tick, or anything else that leaves the alarm of process `p` alone; it may run `p` or another process. */
  ghost predicate KeepsAlarm(w: Processes, e: Event, v: Processes, p: nat) {
    && Sound(w) && Sound(v) && |v.status| == |w.status| && p < |w.status|
    && match e
       case TickEvent => Ticked(w, v)
       case OtherEvent => v.alarm[p] == w.alarm[p] && v.period[p] == w.period[p]
  }

  /** Event `i` is a tick that finds `p` running. */
  ghost predicate OwnTick(worlds: seq<Processes>, events: seq<Event>, p: nat, i: nat)
    requires i < |events| && i < |worlds|
  {
    events[i].TickEvent? && worlds[i].current == p
  }

  /** The ticks of `p` among the first `i` events. */
  ghost function OwnTicks(worlds: seq<Processes>, events: seq<Event>, p: nat, i: nat): nat
    requires i <= |events| && i <= |worlds|
  {
    if i == 0 then 0 else OwnTicks(worlds, events, p, i - 1) + if OwnTick(worlds, events, p, i - 1) then 1 else 0
  }

  /** handle_timer_tick signals `p`, as `Tick` reports. */
  ghost predicate Signalled(worlds: seq<Processes>, events: seq<Event>, p: nat, i: nat)
    requires i < |events| && i < |worlds| && p < |worlds[i].alarm|
  {
    OwnTick(worlds, events, p, i) && worlds[i].alarm[p] == 1
  }

  ghost predicate AlarmRun(worlds: seq<Processes>, events: seq<Event>, p: nat, period: nat) {
    && |worlds| == |events| + 1
    && Sound(worlds[0]) && p < |worlds[0].status|
    && worlds[0].alarm[p] == worlds[0].period[p] == period
    && forall i :: 0 <= i < |events| ==> KeepsAlarm(worlds[i], events[i], worlds[i + 1], p)
  }

  function Rem(n: nat, d: nat): (r: nat)
    requires d > 0
    ensures r < d
  {
    n % d
  }

  lemma RemNext(n: nat, d: nat)
    requires d > 0
    ensures Rem(n + 1, d) == if Rem(n, d) == d - 1 then 0 else Rem(n, d) + 1
  {
    NextRemainder(n, d);
  }

  /** The counter is the period less the ticks of the process since the last signal. */
  lemma {:induction false} AlarmCounts(worlds: seq<Processes>, events: seq<Event>, p: nat, period: nat, i: nat)
    requires AlarmRun(worlds, events, p, period) && i <= |events|
    ensures Sound(worlds[i]) && p < |worlds[i].status| && worlds[i].period[p] == period
    ensures worlds[i].alarm[p] == if period == 0 then 0 else period - Rem(OwnTicks(worlds, events, p, i), period)
  {
    hide Rem, Picked, Woken, Counted;
    if i > 0 {
      AlarmCounts(worlds, events, p, period, i - 1);
      assert KeepsAlarm(worlds[i - 1], events[i - 1], worlds[i], p);
      if period > 0 {
        RemNext(OwnTicks(worlds, events, p, i - 1), period);
      }
    } else if period > 0 {
      RemZero(period);
    }
  }

  lemma RemZero(d: nat)
    requires d > 0
    ensures Rem(0, d) == 0
  {
  }

  /** alarm(period): whoever runs in between, the process is signalled at exactly every period-th of its own
      ticks; alarm(0) never signals. */
  lemma AlarmIsPeriodic(worlds: seq<Processes>, events: seq<Event>, p: nat, period: nat, i: nat)
    requires AlarmRun(worlds, events, p, period) && i < |events|
    ensures Sound(worlds[i]) && p < |worlds[i].status|
    ensures Signalled(worlds, events, p, i) <==>
      OwnTick(worlds, events, p, i) && period > 0 && (OwnTicks(worlds, events, p, i) + 1) % period == 0
  {
    var own := OwnTicks(worlds, events, p, i);
    AlarmCounts(worlds, events, p, period, i);
    if period > 0 {
      RemNext(own, period);
      assert (own + 1) % period == Rem(own + 1, period);
      hide Rem;
    }
  }

  lemma NextRemainder(n: nat, d: nat)
    requires d > 0
    ensures (n + 1) % d == if n % d == d - 1 then 0 else n % d + 1
  {
    var q, r := n / d, n % d;
    assert n == d * q + r;
    if r == d - 1 {
      Distribute(d, q + 1);
      Remainder(n + 1, d, q + 1, 0);
    } else {
      Remainder(n + 1, d, q, r + 1);
    }
  }

  lemma Remainder(n: nat, d: nat, q: nat, r: nat)
    requires n == d * q + r && r < d
    ensures n % d == r
  {
    Times(d, n / d, q);
    Times(d, q, n / d);
  }

  lemma {:induction false} Times(d: nat, a: int, b: int)
    ensures a < b ==> d * a + d <= d * b
    decreases b - a
  {
    if a < b {
      Times(d, a, b - 1);
      Distribute(d, b);
    }
  }

  lemma Distribute(d: nat, b: int)
    ensures d * b == d * (b - 1) + d
  {
  }
}
