/** Where the promises of the parallel program end: one worker too many and one insertion too many. */
module ParallelLimits {
  import opened Options
  import opened HashSlots
  import opened HashTable
  import opened ParallelHash
  import opened ParallelRuns

  /** No run of `count` workers that no failed assertion stops ever gives a reply that differs from the serial one. */
  ghost predicate NeverWrong(count: nat) {
    forall ops, size: nat, schedule, s ::
      && GoodInput(ops) && size > 0
      && SafeRun(ops, Init(ops, size, count), schedule) && Run(ops, Init(ops, size, count), schedule) == Some(s) ==>
      |s.replies| == |ops| && RepliesOk(ops, s)
  }

  lemma RunStep(ops: seq<Op>, s: State, w: nat, rest: seq<nat>)
    requires Sane(ops, s) && CanStep(ops, s, w)
    ensures Run(ops, s, [w] + rest) == Run(ops, After(ops, s, w), rest)
    ensures SafeRun(ops, s, [w] + rest) <==> Safe(ops, s, w) && SafeRun(ops, After(ops, s, w), rest)
  {
    assert ([w] + rest)[1..] == rest;
  }

  /** A PUT and a GET of one key. */
  const PUT_GET: seq<Op> := [Op(1, 7, Put, 5, 9), Op(2, 7, Get, 0, 0)]

  lemma PutGetGood()
    ensures GoodInput(PUT_GET) && SerialReply(PUT_GET, 1) == Reply(0, 5, 9)
  {
    assert SerialEntry(PUT_GET, 1, 7) == Some(Entry(1, 5, 9));
  }

  /** The last of 33 workers registers where the scan does not look: the GET overtakes the PUT. */
  lemma UnseenWorker() returns (s: State)
    ensures Run(PUT_GET, Init(PUT_GET, 2, MAX_THREADS), [32, 0, 0]) == Some(s)
    ensures SafeRun(PUT_GET, Init(PUT_GET, 2, MAX_THREADS), [32, 0, 0])
    ensures |s.replies| == 2 && s.replies[1] == Some(Reply(-1, 0, 0))
  {
    var ops := PUT_GET;
    var s0 := Init(ops, 2, MAX_THREADS);
    assert !Blocked(ops, s0.workers[32 := Waiting(0)], 0);
    var s1 := After(ops, s0, 32);
    assert s1.workers == s0.workers[32 := StartProbe(ops, s0, 0)];
    var s2 := UnseenGet(s0, s1);
    s := After(ops, s2, 0);
    RunStep(ops, s0, 32, [0, 0]);
    RunStep(ops, s1, 0, [0]);
    RunStep(ops, s2, 0, []);
    assert [32] + [0, 0] == [32, 0, 0] && [0] + [0] == [0, 0] && [0] + [] == [0];
  }

  lemma UnseenGet(s0: State, s1: State) returns (s2: State)
    requires s0 == Init(PUT_GET, 2, MAX_THREADS) && Sane(PUT_GET, s1)
    requires s1 == s0.(next := 1, workers := s0.workers[32 := StartProbe(PUT_GET, s0, 0)])
    ensures CanStep(PUT_GET, s1, 0) && s2 == After(PUT_GET, s1, 0)
    ensures Sane(PUT_GET, s2) && s2.table == s0.table && s2.replies == s0.replies
    ensures s2.workers[0] == StartProbe(PUT_GET, s0, 1)
  {
    assert !Blocked(PUT_GET, s1.workers[0 := Waiting(1)], 1);
    s2 := After(PUT_GET, s1, 0);
  }

  /** Of the worker counts main accepts, exactly those up to 32 are safe on every input. */
  lemma SafeUpToScan(count: nat)
    requires count <= MAX_THREADS
    ensures NeverWrong(count) <==> count <= SCANNED
  {
    if count <= SCANNED {
      forall ops, size: nat, schedule, s
        | GoodInput(ops) && size > 0
          && SafeRun(ops, Init(ops, size, count), schedule) && Run(ops, Init(ops, size, count), schedule) == Some(s)
        ensures |s.replies| == |ops| && RepliesOk(ops, s)
      {
        InitInv(ops, size, count);
        RunKeeps(ops, Init(ops, size, count), schedule);
      }
    } else {
      PutGetGood();
      var s := UnseenWorker();
    }
  }

  // ---------------------------------------------------------------- the bound on insertions

  /** The first assertion of insert_update finds the counter below the table size. */
  ghost predicate FindsRoom(ops: seq<Op>, s: State)
    requires Sane(ops, s)
  {
    forall w :: 0 <= w < |s.workers| && s.workers[w].Probing? && !s.workers[w].moved && ops[s.workers[w].op].kind == Put ==>
      s.used < |s.table|
  }

  /** It does so in every run on every input with at most `b` fresh insertions. */
  ghost predicate NeverFull(b: nat, n: nat, count: nat) {
    forall ops, schedule, s ::
      && GoodInput(ops) && Insertions(ops, |ops|) <= b
      && Run(ops, Init(ops, n, count), schedule) == Some(s) ==>
      Sane(ops, s) && FindsRoom(ops, s)
  }

  /** PUTs of the keys 1 to `n`, and then one more of key 1. */
  function FillAndRepeat(n: nat): seq<Op> {
    seq(n + 1, i requires 0 <= i <= n => Op(i + 1, if i < n then i + 1 else 1, Put, 0, 0))
  }

  lemma {:induction false} FillInserts(n: nat, i: nat)
    requires i <= n
    ensures Insertions(FillAndRepeat(n), i) == i
    ensures forall k: nat :: k > i ==> SerialEntry(FillAndRepeat(n), i, k) == None
  {
    if i > 0 {
      FillInserts(n, i - 1);
    }
  }

  lemma FillInsertsAll(n: nat)
    requires n > 0
    ensures GoodInput(FillAndRepeat(n)) && Insertions(FillAndRepeat(n), n + 1) == n
  {
    var ops := FillAndRepeat(n);
    FillInserts(n, n);
    FillInserts(n, 1);
    StaysStored(n, n);
  }

  lemma {:induction false} StaysStored(n: nat, i: nat)
    requires 1 <= i <= n
    ensures SerialEntry(FillAndRepeat(n), i, 1).Some?
  {
    if i > 1 {
      StaysStored(n, i - 1);
    } else {
      FillInserts(n, 0);
    }
  }

  /** No worker is at work, the first `j` keys are stored, and the home slots of the others were never used. */
  ghost predicate FilledTo(s: State, n: nat, j: nat) {
    && Sane(FillAndRepeat(n), s) && |s.table| == n && s.workers != []
    && (forall w :: 0 <= w < |s.workers| ==> s.workers[w] == Reading)
    && s.next == s.used == j
    && forall k: nat :: j < k <= n ==> s.table[HashFunc(k, n)] == NEVER_USED
  }

  lemma SmallRemainder(k: nat, n: nat)
    requires k < n
    ensures k / n == 0 && k % n == k
  {
  }

  lemma HomeOf(n: nat, k: nat)
    requires 0 < k <= n < U32
    ensures HashFunc(k, n) == if k == n then 0 else k
  {
    SmallRemainder(k, U32);
    if k < n {
      SmallRemainder(k, n);
    }
  }

  lemma HomesDiffer(n: nat, j: nat, k: nat)
    requires 0 < j <= n < U32 && 0 < k <= n && j != k
    ensures HashFunc(j, n) != HashFunc(k, n)
  {
    HomeOf(n, j);
    HomeOf(n, k);
  }

  /** Worker 0 alone takes in the next operation. */
  lemma EntersNext(s: State, n: nat, j: nat) returns (u: State)
    requires FilledTo(s, n, j) && j <= n && n > 0
    ensures CanStep(FillAndRepeat(n), s, 0) && u == After(FillAndRepeat(n), s, 0) && Sane(FillAndRepeat(n), u)
    ensures u == s.(next := j + 1, workers := s.workers[0 := StartProbe(FillAndRepeat(n), s, j)])
  {
    var ops := FillAndRepeat(n);
    assert !Blocked(ops, s.workers[0 := Waiting(j)], j);
    u := After(ops, s, 0);
  }

  lemma FillOne(s: State, n: nat, j: nat) returns (u: State)
    requires FilledTo(s, n, j) && j < n < U32
    ensures FilledTo(u, n, j + 1) && |u.workers| == |s.workers|
    ensures Run(FillAndRepeat(n), s, [0] + ([0] + ([0] + []))) == Some(u)
  {
    var ops := FillAndRepeat(n);
    var s1 := EntersNext(s, n, j);
    var s2 := After(ops, s1, 0);
    assert s2.workers == s.workers[0 := Finishing(j)];
    u := After(ops, s2, 0);
    forall k: nat | j + 1 < k <= n ensures u.table[HashFunc(k, n)] == NEVER_USED {
      HomesDiffer(n, j + 1, k);
    }
    RunStep(ops, s2, 0, []);
    RunStep(ops, s1, 0, [0] + []);
    RunStep(ops, s, 0, [0] + ([0] + []));
  }

  lemma {:induction false} FillUp(s: State, n: nat, j: nat) returns (schedule: seq<nat>, u: State)
    requires FilledTo(s, n, j) && j <= n < U32
    ensures Run(FillAndRepeat(n), s, schedule) == Some(u) && FilledTo(u, n, n) && |u.workers| == |s.workers|
    decreases n - j
  {
    hide FilledTo;
    if j == n {
      schedule, u := [], s;
    } else {
      var s1 := FillOne(s, n, j);
      var rest;
      rest, u := FillUp(s1, n, j + 1);
      schedule := [0] + ([0] + ([0] + [])) + rest;
      RunConcat(FillAndRepeat(n), s, [0] + ([0] + ([0] + [])), rest);
    }
  }

  /** The table is full when the overwrite of key 1 starts. */
  lemma OverwriteFindsNone(n: nat, count: nat) returns (schedule: seq<nat>, u: State)
    requires 0 < n < U32 && count > 0
    ensures Run(FillAndRepeat(n), Init(FillAndRepeat(n), n, count), schedule) == Some(u)
    ensures Sane(FillAndRepeat(n), u) && !FindsRoom(FillAndRepeat(n), u)
  {
    var ops := FillAndRepeat(n);
    var s := Init(ops, n, count);
    assert FilledTo(s, n, 0);
    var a, full := FillUp(s, n, 0);
    u := EntersNext(full, n, n);
    RunStep(ops, full, 0, []);
    RunConcat(ops, s, a, [0] + []);
    schedule := a + ([0] + []);
    assert u.workers[0] == Probing(n, HashFunc(1, n), false);
  }

  /** Among the bounds on the number of fresh insertions exactly those below the table size keep the first
      assertion from failing: with as many insertions as slots an overwrite can find the table full. */
  lemma BoundIsExact(b: nat, n: nat, count: nat)
    requires 0 < n < U32 && 0 < count <= SCANNED
    ensures NeverFull(b, n, count) <==> b < n
  {
    if b < n {
      forall ops, schedule, s
        | GoodInput(ops) && Insertions(ops, |ops|) <= b && Run(ops, Init(ops, n, count), schedule) == Some(s)
        ensures Sane(ops, s) && FindsRoom(ops, s)
      {
        InitInv(ops, n, count);
        RoomMakesRunsSafe(ops, Init(ops, n, count), schedule);
        RunKeeps(ops, Init(ops, n, count), schedule);
        UsedIsExact(ops, s);
      }
    } else {
      FillInsertsAll(n);
      var schedule, s := OverwriteFindsNone(n, count);
    }
  }
}
