/** Whole runs of the parallel program: every interleaving gives the results of the serial run,
    always ends, and does so exactly when the scan covers every worker. */
module ParallelRuns {
  import opened Options
  import opened HashSlots
  import opened HashTable
  import opened ParallelHash

  // ---------------------------------------------------------------- runs

  /** The state after the workers of `schedule` take one step each, in that order; None when one cannot. */
  ghost function Run(ops: seq<Op>, s: State, schedule: seq<nat>): Option<State>
    decreases |schedule|
  {
    if schedule == [] then Some(s)
    else if Sane(ops, s) && CanStep(ops, s, schedule[0]) then Run(ops, After(ops, s, schedule[0]), schedule[1..])
    else None
  }

  /** A run in which no assertion behind a probe loop fails. */
  ghost predicate SafeRun(ops: seq<Op>, s: State, schedule: seq<nat>)
    decreases |schedule|
  {
    schedule != [] ==>
      && Sane(ops, s) && CanStep(ops, s, schedule[0]) && Safe(ops, s, schedule[0])
      && SafeRun(ops, After(ops, s, schedule[0]), schedule[1..])
  }

  lemma {:induction false} RunConcat(ops: seq<Op>, s: State, a: seq<nat>, b: seq<nat>)
    requires Run(ops, s, a).Some?
    ensures Run(ops, s, a + b) == Run(ops, Run(ops, s, a).value, b)
    decreases |a|
  {
    hide Sane, CanStep, After;
    if a == [] {
      assert a + b == b;
    } else {
      RunConcat(ops, After(ops, s, a[0]), a[1..], b);
      assert (a + b)[1..] == a[1..] + b;
    }
  }

  lemma InitInv(ops: seq<Op>, size: nat, count: nat)
    requires size > 0
    ensures Inv(ops, Init(ops, size, count)) && Init(ops, size, count).table == seq(size, _ => NEVER_USED)
  {
    var s := Init(ops, size, count);
    AllNeverUsed(s.table);
    UsedBelowSize(s.table);
    assert LiveSlots(s.table) == {};
    forall i | 0 <= i < size ensures Reached(s.table, i) {
      assert s.table[i] == NEVER_USED;
    }
    NoneApplied(ops, s.replies, |ops|);
    forall k: nat, n: nat | k != 0 && Frontier(ops, s.replies, k, n)
      ensures ValueOf(s.table, k) == SerialEntry(ops, n, k)
    {
      NothingApplied(ops, s.replies, k, n);
      SerialGap(ops, 0, n, k);
    }
  }

  lemma {:induction false} NoneApplied(ops: seq<Op>, replies: seq<Option<Reply>>, n: nat)
    requires n <= |ops| == |replies| && forall i :: 0 <= i < n ==> replies[i].None?
    ensures AppliedInsertions(ops, replies, n) == 0
  {
    if n > 0 {
      NoneApplied(ops, replies, n - 1);
    }
  }

  lemma NothingApplied(ops: seq<Op>, replies: seq<Option<Reply>>, k: nat, n: nat)
    requires |replies| == |ops| && Frontier(ops, replies, k, n)
    requires forall i :: 0 <= i < |ops| ==> replies[i].None?
    ensures forall j :: 0 <= j < n ==> ops[j].key != k
  {
    forall j | 0 <= j < n ensures ops[j].key != k {
      assert replies[j].None?;
    }
  }

  /** Every step of every worker that does not stop the program keeps the invariant. */
  lemma StepKeeps(ops: seq<Op>, s: State, w: nat)
    requires Inv(ops, s) && GoodInput(ops) && |s.workers| <= SCANNED && CanStep(ops, s, w) && Safe(ops, s, w)
    ensures Inv(ops, After(ops, s, w))
    ensures |After(ops, s, w).table| == |s.table| && |After(ops, s, w).workers| == |s.workers|
  {
    match s.workers[w]
    case Reading =>
      if s.next == |ops| {
        SetWorkerKeeps(ops, s, w, Exited);
      } else {
        ClaimKeeps(ops, s, w);
      }
    case Waiting(i) => WakeKeeps(ops, s, w);
    case Probing(i, c, moved) =>
      if GoesOn(s.table[c], ops[i].key, HashFunc(ops[i].key, |s.table|), c, moved) {
        MoveKeeps(ops, s, w);
      } else {
        ApplyKeeps(ops, s, w);
      }
    case Finishing(i) => SetWorkerKeeps(ops, s, w, Reading);
  }

  lemma {:induction false} RunKeeps(ops: seq<Op>, s: State, schedule: seq<nat>)
    requires Inv(ops, s) && GoodInput(ops) && |s.workers| <= SCANNED && SafeRun(ops, s, schedule)
    ensures Run(ops, s, schedule).Some?
    ensures var u := Run(ops, s, schedule).value;
      Inv(ops, u) && |u.table| == |s.table| && |u.workers| == |s.workers|
    decreases |schedule|
  {
    hide Inv, GoodInput, Sane, CanStep, Safe, After;
    if schedule != [] {
      StepKeeps(ops, s, schedule[0]);
      RunKeeps(ops, After(ops, s, schedule[0]), schedule[1..]);
    }
  }

  lemma {:induction false} RoomMakesRunsSafe(ops: seq<Op>, s: State, schedule: seq<nat>)
    requires Inv(ops, s) && GoodInput(ops) && |s.workers| <= SCANNED && Insertions(ops, |ops|) <= |s.table|
    requires Run(ops, s, schedule).Some?
    ensures SafeRun(ops, s, schedule)
    decreases |schedule|
  {
    hide Inv, GoodInput, Sane, CanStep, Safe, After, Insertions;
    if schedule != [] {
      AssertionsHold(ops, s, schedule[0]);
      StepKeeps(ops, s, schedule[0]);
      RoomMakesRunsSafe(ops, After(ops, s, schedule[0]), schedule[1..]);
    }
  }

  // ---------------------------------------------------------------- the result of a run

  ghost predicate AllExited(s: State) {
    forall w :: 0 <= w < |s.workers| ==> s.workers[w] == Exited
  }

  /** Each operation has the serial result, and each key the serial entry. */
  ghost predicate SerialResult(ops: seq<Op>, s: State) {
    && |s.replies| == |ops|
    && (forall i :: 0 <= i < |ops| ==> s.replies[i] == Some(SerialReply(ops, i)))
    && (forall k: nat :: k != 0 ==> ValueOf(s.table, k) == SerialEntry(ops, |ops|, k))
  }

  /** Read off the operations alone: every reply and every final entry is that of the last write. */
  ghost predicate LastWriteResult(ops: seq<Op>, s: State) {
    && |s.replies| == |ops|
    && (forall i :: 0 <= i < |ops| ==> s.replies[i].Some? && LastReply(ops, i, s.replies[i].value))
    && (forall k: nat :: k != 0 ==> LastEntry(ops, |ops|, k, ValueOf(s.table, k)))
  }

  lemma SerialIsLastWrite(ops: seq<Op>, s: State)
    requires SerialResult(ops, s)
    ensures LastWriteResult(ops, s)
  {
    hide LastReply, LastEntry, SerialReply, SerialEntry, ValueOf;
    forall i | 0 <= i < |ops| ensures s.replies[i].Some? && LastReply(ops, i, s.replies[i].value) {
      RepliesLastWrite(ops, i);
    }
    forall k: nat | k != 0 ensures LastEntry(ops, |ops|, k, ValueOf(s.table, k)) {
      LastWriteWins(ops, |ops|, k);
    }
  }

  lemma ExitedIsSerial(ops: seq<Op>, s: State)
    requires Inv(ops, s) && AllExited(s) && |s.workers| > 0
    ensures SerialResult(ops, s)
  {
    assert s.workers[0] == Exited;
    forall i | 0 <= i < |ops| ensures s.replies[i] == Some(SerialReply(ops, i)) {
      assert s.replies[i].None? ==> Owned(s, i);
    }
    forall k: nat | k != 0 ensures ValueOf(s.table, k) == SerialEntry(ops, |ops|, k) {
      assert Frontier(ops, s.replies, k, |ops|);
    }
  }

  /** Operations that are probing at the same time have different keys. */
  ghost predicate KeysExclude(ops: seq<Op>, s: State)
    requires Sane(ops, s)
  {
    forall v, w | 0 <= v < w < |s.workers| :: s.workers[v].Probing? && s.workers[w].Probing? ==>
      ops[s.workers[v].op].key != ops[s.workers[w].op].key
  }

  /** In every state of every run that no failed assertion stops, the operations on one key exclude each
      other and are applied in order, and the counter is below the table size exactly while some slot holds
      no live key. Nothing is assumed of the number of insertions. */
  lemma EveryReachableState(ops: seq<Op>, size: nat, count: nat, schedule: seq<nat>, s: State)
    requires GoodInput(ops) && size > 0 && count <= SCANNED
    requires SafeRun(ops, Init(ops, size, count), schedule) && Run(ops, Init(ops, size, count), schedule) == Some(s)
    ensures Sane(ops, s) && InKeyOrder(ops, s) && KeysExclude(ops, s)
    ensures s.used <= |s.table| == size && (s.used < size <==> !AllLive(s.table))
  {
    InitInv(ops, size, count);
    RunKeeps(ops, Init(ops, size, count), schedule);
    UsedIsExact(ops, s);
    forall v, w | 0 <= v < w < |s.workers| && s.workers[v].Probing? && s.workers[w].Probing?
      ensures ops[s.workers[v].op].key != ops[s.workers[w].op].key
    {
      SameKeyExclusive(ops, s, v, w);
    }
  }

  /** The main theorem: however the workers interleave, a finished run has the results of running the
      operations one by one in order. */
  lemma EveryInterleavingIsSerial(ops: seq<Op>, size: nat, count: nat, schedule: seq<nat>, s: State)
    requires GoodInput(ops) && size > 0 && 0 < count <= SCANNED
    requires SafeRun(ops, Init(ops, size, count), schedule) && Run(ops, Init(ops, size, count), schedule) == Some(s)
    requires AllExited(s)
    ensures SerialResult(ops, s) && s.used == |LiveSlots(s.table)| && TableOk(s.table)
    ensures LastWriteResult(ops, s)
    ensures |NeverUsed(s.table)| + Insertions(ops, |ops|) == |s.table| == size
  {
    InitInv(ops, size, count);
    RunKeeps(ops, Init(ops, size, count), schedule);
    ExitedIsSerial(ops, s);
    SerialIsLastWrite(ops, s);
    AllApplied(ops, s.replies, |ops|);
  }

  lemma {:induction false} AllApplied(ops: seq<Op>, replies: seq<Option<Reply>>, n: nat)
    requires n <= |ops| == |replies| && forall i :: 0 <= i < n ==> replies[i].Some?
    ensures AppliedInsertions(ops, replies, n) == Insertions(ops, n)
  {
    if n > 0 {
      AllApplied(ops, replies, n - 1);
    }
  }

  /** No interleaving fails an assertion behind a probe loop. */
  ghost predicate AlwaysSafe(ops: seq<Op>, size: nat, count: nat) {
    forall schedule :: Run(ops, Init(ops, size, count), schedule).Some? ==> SafeRun(ops, Init(ops, size, count), schedule)
  }

  /** The inputs on which the probe of an insertion never comes back to its home slot are exactly those with
      no more fresh insertions than slots. */
  lemma RoomIsExact(ops: seq<Op>, size: nat, count: nat)
    requires GoodInput(ops) && size > 0 && 0 < count <= SCANNED
    ensures AlwaysSafe(ops, size, count) <==> Insertions(ops, |ops|) <= size
  {
    var s := Init(ops, size, count);
    InitInv(ops, size, count);
    if Insertions(ops, |ops|) <= size {
      forall schedule | Run(ops, s, schedule).Some? ensures SafeRun(ops, s, schedule) {
        RoomMakesRunsSafe(ops, s, schedule);
      }
    } else {
      var schedule := RunsFinish(ops, s);
      if AlwaysSafe(ops, size, count) {
        EveryInterleavingIsSerial(ops, size, count, schedule, Run(ops, s, schedule).value);
      }
    }
  }

  /** With no more fresh insertions than slots every finished run is serial. */
  lemma RoomySerial(ops: seq<Op>, size: nat, count: nat, schedule: seq<nat>, s: State)
    requires GoodInput(ops) && size > 0 && 0 < count <= SCANNED && Insertions(ops, |ops|) <= size
    requires Run(ops, Init(ops, size, count), schedule) == Some(s) && AllExited(s)
    ensures SerialResult(ops, s) && LastWriteResult(ops, s) && s.used == |LiveSlots(s.table)| && TableOk(s.table)
  {
    RoomIsExact(ops, size, count);
    EveryInterleavingIsSerial(ops, size, count, schedule, s);
  }

  // ---------------------------------------------------------------- the count of live keys

  ghost function LiveKeys(t: seq<Slot>): set<nat> {
    set i: nat | i < |t| && t[i].key != 0 :: t[i].key
  }

  lemma {:induction false} KeysCount(t: seq<Slot>)
    requires UniqueKeys(t)
    ensures |LiveKeys(t)| == |LiveSlots(t)|
  {
    if t == [] {
      assert LiveKeys(t) == {} && LiveSlots(t) == {};
    } else {
      var last := |t| - 1;
      var u := t[..last];
      KeysCount(u);
      assert LiveSlots(t) - {last} == LiveSlots(u);
      WithoutOne(LiveSlots(t), last);
      LastKey(t);
    }
  }

  lemma LastKey(t: seq<Slot>)
    requires UniqueKeys(t) && t != []
    ensures var u, last := t[..|t| - 1], t[|t| - 1];
      LiveKeys(t) == (if last.key != 0 then LiveKeys(u) + {last.key} else LiveKeys(u)) && last.key !in LiveKeys(u)
  {
    var u, last := t[..|t| - 1], t[|t| - 1];
    forall k ensures k in LiveKeys(t) <==> k in LiveKeys(u) || (k == last.key && k != 0) {
      if k in LiveKeys(u) {
        var i: nat :| i < |u| && u[i].key != 0 && u[i].key == k;
        assert t[i].key == k;
      }
      if k in LiveKeys(t) {
        var i: nat :| i < |t| && t[i].key != 0 && t[i].key == k;
        assert i < |u| ==> u[i].key == k;
      }
      if k == last.key && k != 0 {
        assert t[|t| - 1].key == k;
      }
    }
  }

  lemma KeyIsLive(t: seq<Slot>, k: nat)
    requires UniqueKeys(t)
    ensures k in LiveKeys(t) <==> k != 0 && ValueOf(t, k).Some?
  {
  }

  /** Tables of one meaning count the same number of used slots, wherever their entries lie. */
  lemma UsedAgrees(t: seq<Slot>, u: seq<Slot>)
    requires UniqueKeys(t) && UniqueKeys(u)
    requires forall k: nat :: k != 0 ==> ValueOf(t, k) == ValueOf(u, k)
    ensures |LiveSlots(t)| == |LiveSlots(u)|
  {
    KeysCount(t);
    KeysCount(u);
    forall k ensures k in LiveKeys(t) <==> k in LiveKeys(u) {
      if k in LiveKeys(t) || k in LiveKeys(u) {
        var n: nat := k;
        KeyIsLive(t, n);
        KeyIsLive(u, n);
      }
    }
    assert LiveKeys(t) == LiveKeys(u);
  }

  // ---------------------------------------------------------------- progress and termination

  /** The pending position of a worker, or a number beyond every position. */
  function PendingAt(ops: seq<Op>, w: Worker): nat {
    if w.Waiting? then w.op else |ops|
  }

  /** Of the waiting workers the one with the earliest operation. */
  lemma {:induction false} EarliestWaiting(ops: seq<Op>, s: State, n: nat) returns (w: nat)
    requires Sane(ops, s) && 0 < n <= |s.workers|
    ensures w < n && forall v :: 0 <= v < n ==> PendingAt(ops, s.workers[w]) <= PendingAt(ops, s.workers[v])
  {
    if n == 1 {
      w := 0;
    } else {
      w := EarliestWaiting(ops, s, n - 1);
      if PendingAt(ops, s.workers[n - 1]) < PendingAt(ops, s.workers[w]) {
        w := n - 1;
      }
    }
  }

  /** No deadlock: while a worker has not exited, some worker can take a step. The earliest waiting
      operation can be blocked only by a worker that is itself not waiting. */
  lemma Progress(ops: seq<Op>, s: State) returns (w: nat)
    requires Sane(ops, s) && IdsAscend(ops) && !AllExited(s)
    ensures CanStep(ops, s, w)
  {
    if v :| 0 <= v < |s.workers| && s.workers[v] != Exited && !s.workers[v].Waiting? {
      w := v;
    } else {
      w := EarliestWaiting(ops, s, |s.workers|);
      var x :| 0 <= x < |s.workers| && s.workers[x] != Exited;
      assert PendingAt(ops, s.workers[w]) <= PendingAt(ops, s.workers[x]) < |ops|;
      forall v | 0 <= v < |s.workers| ensures !BlockedBy(ops, s.workers[v], s.workers[w].op) {
        assert PendingAt(ops, s.workers[w]) <= PendingAt(ops, s.workers[v]);
        IdsFollow(ops, s.workers[w].op, s.workers[v]);
      }
    }
  }

  lemma IdsFollow(ops: seq<Op>, i: nat, w: Worker)
    requires IdsAscend(ops) && i < |ops| && (w.Waiting? ==> i <= w.op) && (w.Waiting? || w == Exited)
    ensures !BlockedBy(ops, w, i)
  {
  }

  /** Only the step of done_one takes an operation out of being_processed. */
  lemma StaysRegistered(ops: seq<Op>, s: State, w: nat, v: nat)
    requires Sane(ops, s) && CanStep(ops, s, w) && v < |s.workers| && Registered(s.workers[v]).Some?
    ensures (v == w && s.workers[w].Finishing?) || Registered(After(ops, s, w).workers[v]) == Registered(s.workers[v])
  {
  }

  /** A waiting worker becomes free to go only by a step of done_one, which broadcasts: no wake-up is lost. */
  lemma UnblockingBroadcasts(ops: seq<Op>, s: State, w: nat, v: nat)
    requires Sane(ops, s) && CanStep(ops, s, w) && v < |s.workers| && s.workers[v].Waiting?
    requires Blocked(ops, s.workers, s.workers[v].op) && !Blocked(ops, After(ops, s, w).workers, s.workers[v].op)
    ensures s.workers[w].Finishing?
  {
    var x :| 0 <= x < |s.workers| && x < SCANNED && BlockedBy(ops, s.workers[x], s.workers[v].op);
    StaysRegistered(ops, s, w, x);
  }

  /** The work a worker has left for its current operation. */
  function Left(ops: seq<Op>, n: nat, w: Worker): nat {
    match w
    case Reading => 1
    case Waiting(_) => n + 4
    case Probing(i, c, moved) =>
      if i < |ops| && c < n then 3 + Ahead(HashFunc(ops[i].key, n), c, moved, n) else 0
    case Finishing(_) => 2
    case Exited => 0
  }

  function LeftAll(ops: seq<Op>, n: nat, workers: seq<Worker>): nat {
    if workers == [] then 0 else Left(ops, n, workers[0]) + LeftAll(ops, n, workers[1..])
  }

  function Work(ops: seq<Op>, s: State): int {
    (|ops| - s.next) * (|s.table| + 4) + LeftAll(ops, |s.table|, s.workers)
  }

  lemma {:induction false} LeftChange(ops: seq<Op>, n: nat, workers: seq<Worker>, w: nat, x: Worker)
    requires w < |workers|
    ensures LeftAll(ops, n, workers[w := x]) == LeftAll(ops, n, workers) - Left(ops, n, workers[w]) + Left(ops, n, x)
  {
    if w > 0 {
      LeftChange(ops, n, workers[1..], w - 1, x);
      assert workers[w := x][1..] == workers[1..][w - 1 := x];
    }
  }

  lemma WorkChange(ops: seq<Op>, s: State, u: State)
    requires |u.table| == |s.table| && (u.next == s.next || u.next == s.next + 1)
    ensures Work(ops, u) - Work(ops, s)
      == LeftAll(ops, |s.table|, u.workers) - LeftAll(ops, |s.table|, s.workers)
         - if u.next == s.next then 0 else |s.table| + 4
  {
    OneLess(|ops| - s.next, |s.table| + 4);
  }

  /** Every step uses up work, so no run is longer than the work of its first state. */
  lemma StepUsesWork(ops: seq<Op>, s: State, w: nat)
    requires Sane(ops, s) && CanStep(ops, s, w)
    ensures Work(ops, After(ops, s, w)) < Work(ops, s)
  {
    hide Blocked, HashFunc, SlotAfter, UsedChange, ReplyAt, Work;
    var n := |s.table|;
    var u := After(ops, s, w);
    var x := u.workers[w];
    LeftChange(ops, n, s.workers, w, x);
    WorkChange(ops, s, u);
    match s.workers[w]
    case Reading =>
      if s.next < |ops| {
        assert u.workers == s.workers[w := x] && Left(ops, n, x) <= n + 4;
      }
    case Waiting(i) =>
    case Probing(i, c, moved) =>
      if x.Probing? {
        AheadNext(HashFunc(ops[i].key, n), c, moved, n);
      }
    case Finishing(i) =>
  }

  lemma OneLess(a: int, b: int)
    ensures (a - 1) * b == a * b - b
  {
  }

  lemma WorkIsNatural(ops: seq<Op>, s: State)
    requires Sane(ops, s)
    ensures Work(ops, s) >= 0
  {
    ProductIsNatural(|ops| - s.next, |s.table| + 4);
  }

  lemma ProductIsNatural(a: nat, b: nat)
    ensures a * b >= 0
  {
  }

  lemma SaneStays(ops: seq<Op>, s: State, w: nat)
    requires Sane(ops, s) && CanStep(ops, s, w)
    ensures Sane(ops, After(ops, s, w))
  {
  }

  /** No run is longer than the work of its first state. */
  lemma {:induction false} RunsEnd(ops: seq<Op>, s: State, schedule: seq<nat>)
    requires Sane(ops, s) && Run(ops, s, schedule).Some?
    ensures |schedule| <= Work(ops, s)
    decreases |schedule|
  {
    hide Work, After, CanStep, Sane;
    if schedule == [] {
      WorkIsNatural(ops, s);
    } else {
      StepUsesWork(ops, s, schedule[0]);
      SaneStays(ops, s, schedule[0]);
      RunsEnd(ops, After(ops, s, schedule[0]), schedule[1..]);
    }
  }

  /** Every run can be continued to a finished one. */
  lemma {:induction false} RunsFinish(ops: seq<Op>, s: State) returns (schedule: seq<nat>)
    requires Sane(ops, s) && IdsAscend(ops)
    ensures Run(ops, s, schedule).Some? && AllExited(Run(ops, s, schedule).value)
    decreases Work(ops, s)
  {
    hide Work, After, CanStep, Sane, AllExited;
    WorkIsNatural(ops, s);
    if AllExited(s) {
      schedule := [];
    } else {
      var w := Progress(ops, s);
      StepUsesWork(ops, s, w);
      SaneStays(ops, s, w);
      var rest := RunsFinish(ops, After(ops, s, w));
      schedule := [w] + rest;
      assert schedule[1..] == rest;
    }
  }
}
