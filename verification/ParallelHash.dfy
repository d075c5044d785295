/** The parallel program: workers claim operations from one input in order, hold back an operation
    while an earlier one on its key is registered, and probe one locked slot at a time. A step is
    one critical section: of the input lock, or of one slot lock. */
module ParallelHash {
  import opened Options
  import opened HashSlots
  import opened HashTable

  /** Where a worker is in its loop; the number is the position of its operation in the input. */
  datatype Worker =
    | Reading
    | Waiting(op: nat)
    | Probing(op: nat, ctr: nat, moved: bool)
    | Finishing(op: nat)
    | Exited

  /** `replies` is the history of results; `next` stands for the read position of the input. */
  datatype State = State(table: seq<Slot>, used: int, next: nat, workers: seq<Worker>, replies: seq<Option<Reply>>)

  /** read_op looks at this many entries of being_processed; main accepts one more worker. */
  const SCANNED: nat := 32
  const MAX_THREADS: nat := 33

  /** The entry of being_processed that belongs to the worker. */
  function Registered(w: Worker): Option<nat> {
    match w
    case Waiting(i) => Some(i)
    case Probing(i, _, _) => Some(i)
    case Finishing(i) => Some(i)
    case _ => None
  }

  /** The worker has claimed operation `i` and not yet applied it. */
  predicate Holds(w: Worker, i: nat) {
    w == Waiting(i) || (w.Probing? && w.op == i)
  }

  ghost predicate IdsAscend(ops: seq<Op>) {
    forall i, j :: 0 <= i < j < |ops| ==> ops[i].id < ops[j].id
  }

  /** Ids ascend as the generator writes them and no key is 0. */
  ghost predicate GoodInput(ops: seq<Op>) {
    KeysNonZero(ops) && IdsAscend(ops)
  }

  function Init(ops: seq<Op>, size: nat, count: nat): State {
    State(seq(size, _ => NEVER_USED), 0, 0, seq(count, _ => Reading), seq(|ops|, _ => None))
  }

  // ---------------------------------------------------------------- steps

  /** A scanned entry of being_processed has the key of `ops[i]` and a smaller id. */
  predicate Blocked(ops: seq<Op>, workers: seq<Worker>, i: nat)
    requires i < |ops|
  {
    exists v :: 0 <= v < |workers| && v < SCANNED && BlockedBy(ops, workers[v], i)
  }

  predicate BlockedBy(ops: seq<Op>, w: Worker, i: nat)
    requires i < |ops|
  {
    && Registered(w).Some?
    && Registered(w).value < |ops|
    && ops[Registered(w).value].key == ops[i].key
    && ops[Registered(w).value].id < ops[i].id
  }

  predicate Sane(ops: seq<Op>, s: State) {
    && |s.table| > 0 && s.next <= |ops| && |s.replies| == |ops|
    && forall w :: 0 <= w < |s.workers| ==> WorkerSane(ops, s.table, s.workers[w])
  }

  predicate WorkerSane(ops: seq<Op>, table: seq<Slot>, w: Worker) {
    && (Registered(w).Some? ==> Registered(w).value < |ops|)
    && (w.Probing? ==> w.ctr < |table|)
  }

  /** Worker `w` can take a step: only a waiting one may have to stand still. */
  predicate CanStep(ops: seq<Op>, s: State, w: nat)
    requires Sane(ops, s)
  {
    && w < |s.workers|
    && s.workers[w] != Exited
    && (s.workers[w].Waiting? ==> !Blocked(ops, s.workers, s.workers[w].op))
  }

  function After(ops: seq<Op>, s: State, w: nat): State
    requires Sane(ops, s) && CanStep(ops, s, w)
  {
    match s.workers[w]
    case Reading => if s.next == |ops| then SetWorker(s, w, Exited) else Claim(ops, s, w)
    case Waiting(i) => SetWorker(s, w, StartProbe(ops, s, i))
    case Probing(i, c, moved) =>
      if GoesOn(s.table[c], ops[i].key, HashFunc(ops[i].key, |s.table|), c, moved)
      then SetWorker(s, w, Probing(i, Next(c, |s.table|), true))
      else Apply(ops, s, w, i, c)
    case Finishing(i) => SetWorker(s, w, Reading)
  }

  function SetWorker(s: State, w: nat, x: Worker): State
    requires w < |s.workers|
  {
    s.(workers := s.workers[w := x])
  }

  function StartProbe(ops: seq<Op>, s: State, i: nat): Worker
    requires i < |ops| && |s.table| > 0
  {
    Probing(i, HashFunc(ops[i].key, |s.table|), false)
  }

  /** read_op: register the next operation, then go on or wait. */
  function Claim(ops: seq<Op>, s: State, w: nat): State
    requires w < |s.workers| && s.next < |ops| && |s.table| > 0
  {
    var i := s.next;
    var registered := s.workers[w := Waiting(i)];
    s.(next := i + 1,
       workers := if Blocked(ops, registered, i) then registered else s.workers[w := StartProbe(ops, s, i)])
  }

  /** The end of a probe: read or change the locked slot, and count it. */
  function Apply(ops: seq<Op>, s: State, w: nat, i: nat, c: nat): State
    requires w < |s.workers| && i < |ops| && i < |s.replies| && c < |s.table|
  {
    State(s.table[c := SlotAfter(ops[i], s.table[c])],
          s.used + UsedChange(ops[i], s.table[c]),
          s.next,
          s.workers[w := Finishing(i)],
          s.replies[i := Some(ReplyAt(ops[i], s.table[c]))])
  }

  // ---------------------------------------------------------------- the invariant

  ghost predicate Claimed(ops: seq<Op>, s: State)
    requires Sane(ops, s)
  {
    && (forall w, i: nat {:trigger Holds(s.workers[w], i)} ::
          0 <= w < |s.workers| && Holds(s.workers[w], i) ==> i < s.next && s.replies[i].None?)
    && (forall i :: s.next <= i < |ops| ==> s.replies[i].None?)
  }

  ghost predicate Owned(s: State, i: nat) {
    exists w :: 0 <= w < |s.workers| && Holds(s.workers[w], i)
  }

  ghost predicate Unapplied(ops: seq<Op>, s: State)
    requires Sane(ops, s)
  {
    forall i :: 0 <= i < s.next && s.replies[i].None? ==> Owned(s, i)
  }

  ghost predicate Distinct(s: State) {
    forall v, w, i: nat {:trigger Holds(s.workers[v], i), Holds(s.workers[w], i)} :: 0 <= v < |s.workers| && 0 <= w < |s.workers| ==>
      (Holds(s.workers[v], i) && Holds(s.workers[w], i) ==> v == w)
  }

  /** All operations on the key of `ops[j]` before it have been applied. */
  ghost predicate EarlierDone(ops: seq<Op>, replies: seq<Option<Reply>>, j: nat)
    requires j < |ops| == |replies|
  {
    forall i :: 0 <= i < j && ops[i].key == ops[j].key ==> replies[i].Some?
  }

  ghost predicate InKeyOrder(ops: seq<Op>, s: State)
    requires Sane(ops, s)
  {
    && (forall j :: 0 <= j < |ops| && s.replies[j].Some? ==> EarlierDone(ops, s.replies, j))
    && (forall w :: 0 <= w < |s.workers| && s.workers[w].Probing? ==> EarlierDone(ops, s.replies, s.workers[w].op))
  }

  ghost predicate ProbesOk(ops: seq<Op>, s: State)
    requires Sane(ops, s)
  {
    forall w :: 0 <= w < |s.workers| && s.workers[w].Probing? ==>
      ProbeOk(s.table, ops[s.workers[w].op].key, s.workers[w].ctr, s.workers[w].moved)
  }

  /** Of the operations on key `k` exactly those before position `n` have been applied. */
  ghost predicate Frontier(ops: seq<Op>, replies: seq<Option<Reply>>, k: nat, n: nat)
    requires |replies| == |ops|
  {
    n <= |ops| && forall i :: 0 <= i < |ops| && ops[i].key == k ==> (replies[i].Some? <==> i < n)
  }

  ghost predicate ValuesOk(ops: seq<Op>, s: State)
    requires |s.replies| == |ops|
  {
    forall k: nat, n: nat :: k != 0 && Frontier(ops, s.replies, k, n) ==> ValueOf(s.table, k) == SerialEntry(ops, n, k)
  }

  ghost predicate RepliesOk(ops: seq<Op>, s: State)
    requires |s.replies| == |ops|
  {
    forall i :: 0 <= i < |ops| && s.replies[i].Some? ==> s.replies[i].value == SerialReply(ops, i)
  }

  ghost function AppliedInsertions(ops: seq<Op>, replies: seq<Option<Reply>>, n: nat): nat
    requires n <= |ops| == |replies|
  {
    if n == 0 then 0
    else AppliedInsertions(ops, replies, n - 1) + if replies[n - 1].Some? && Inserts(ops, n - 1) then 1 else 0
  }

  /** Each applied insertion has taken one never-used slot, and nothing gives one back. */
  ghost predicate RoomOk(ops: seq<Op>, s: State)
    requires |s.replies| == |ops|
  {
    |NeverUsed(s.table)| + AppliedInsertions(ops, s.replies, |ops|) == |s.table|
  }

  ghost predicate ExitsOk(ops: seq<Op>, s: State) {
    forall w :: 0 <= w < |s.workers| && s.workers[w] == Exited ==> s.next == |ops|
  }

  ghost predicate ClaimsOk(ops: seq<Op>, s: State) {
    Sane(ops, s) && Claimed(ops, s) && Unapplied(ops, s) && Distinct(s) && ExitsOk(ops, s)
  }

  ghost predicate TableInv(ops: seq<Op>, s: State) {
    && Sane(ops, s)
    && TableOk(s.table) && s.used == |LiveSlots(s.table)|
    && ValuesOk(ops, s) && RepliesOk(ops, s) && RoomOk(ops, s)
  }

  ghost predicate Inv(ops: seq<Op>, s: State) {
    ClaimsOk(ops, s) && InKeyOrder(ops, s) && ProbesOk(ops, s) && TableInv(ops, s)
  }

  // ---------------------------------------------------------------- steps that touch one worker only

  lemma OwnedStays(s: State, w: nat, x: Worker, i: nat)
    requires w < |s.workers| && Owned(s, i)
    requires Holds(s.workers[w], i) ==> Holds(x, i)
    ensures Owned(SetWorker(s, w, x), i)
  {
    var v :| 0 <= v < |s.workers| && Holds(s.workers[v], i);
    assert Holds(SetWorker(s, w, x).workers[v], i);
  }

  /** Moving one worker on without a claim or an application keeps the invariant. */
  lemma SetWorkerKeeps(ops: seq<Op>, s: State, w: nat, x: Worker)
    requires Inv(ops, s) && w < |s.workers| && WorkerSane(ops, s.table, x)
    requires forall i: nat :: Holds(x, i) <==> Holds(s.workers[w], i)
    requires x.Probing? ==> EarlierDone(ops, s.replies, x.op) && ProbeOk(s.table, ops[x.op].key, x.ctr, x.moved)
    requires x == Exited ==> s.next == |ops|
    ensures Inv(ops, SetWorker(s, w, x))
  {
    var u := SetWorker(s, w, x);
    assert Sane(ops, u);
    forall i | 0 <= i < u.next && u.replies[i].None? ensures Owned(u, i) {
      OwnedStays(s, w, x, i);
    }
    assert InKeyOrder(ops, u);
    assert ProbesOk(ops, u);
  }

  /** A worker that is not blocked finds every earlier operation on its key applied. */
  lemma UnblockedMeansDone(ops: seq<Op>, s: State, workers: seq<Worker>, i: nat)
    requires Sane(ops, s) && Unapplied(ops, s) && IdsAscend(ops) && i < |ops|
    requires |s.workers| == |workers| <= SCANNED && i <= s.next
    requires forall v, j: nat {:trigger Holds(s.workers[v], j)} ::
      0 <= v < |workers| && j != i && Holds(s.workers[v], j) ==> Holds(workers[v], j)
    requires !Blocked(ops, workers, i)
    ensures EarlierDone(ops, s.replies, i)
  {
    forall j | 0 <= j < i && ops[j].key == ops[i].key ensures s.replies[j].Some? {
      if s.replies[j].None? {
        var v := OwnerBlocks(ops, s, workers, i, j);
      }
    }
  }

  lemma OwnerBlocks(ops: seq<Op>, s: State, workers: seq<Worker>, i: nat, j: nat) returns (v: nat)
    requires Sane(ops, s) && IdsAscend(ops) && j < i < |ops|
    requires |s.workers| == |workers| && Owned(s, j) && ops[j].key == ops[i].key
    requires forall v, j: nat {:trigger Holds(s.workers[v], j)} ::
      0 <= v < |workers| && j != i && Holds(s.workers[v], j) ==> Holds(workers[v], j)
    ensures v < |workers| && BlockedBy(ops, workers[v], i)
  {
    v :| 0 <= v < |s.workers| && Holds(s.workers[v], j);
    assert Holds(workers[v], j);
  }

  lemma WakeKeeps(ops: seq<Op>, s: State, w: nat)
    requires Inv(ops, s) && IdsAscend(ops) && |s.workers| <= SCANNED
    requires CanStep(ops, s, w) && s.workers[w].Waiting?
    ensures Inv(ops, After(ops, s, w))
  {
    var i := s.workers[w].op;
    assert Holds(s.workers[w], i);
    UnblockedMeansDone(ops, s, s.workers, i);
    SetWorkerKeeps(ops, s, w, StartProbe(ops, s, i));
  }

  lemma MoveKeeps(ops: seq<Op>, s: State, w: nat)
    requires Inv(ops, s) && CanStep(ops, s, w) && s.workers[w].Probing?
    requires var x := s.workers[w];
      GoesOn(s.table[x.ctr], ops[x.op].key, HashFunc(ops[x.op].key, |s.table|), x.ctr, x.moved)
    ensures Inv(ops, After(ops, s, w))
  {
    var x := s.workers[w];
    ProbeStep(s.table, ops[x.op].key, x.ctr, x.moved);
    SetWorkerKeeps(ops, s, w, Probing(x.op, Next(x.ctr, |s.table|), true));
  }

  // ---------------------------------------------------------------- claiming an operation

  lemma ClaimKeeps(ops: seq<Op>, s: State, w: nat)
    requires Inv(ops, s) && IdsAscend(ops) && |s.workers| <= SCANNED
    requires w < |s.workers| && s.workers[w] == Reading && s.next < |ops|
    ensures Inv(ops, Claim(ops, s, w))
  {
    var i := s.next;
    var u := Claim(ops, s, w);
    var x := u.workers[w];
    assert Holds(x, i) && u.workers == s.workers[w := x];
    assert Sane(ops, u);
    ClaimOwned(ops, s, w);
    if x.Probing? {
      UnblockedMeansDone(ops, s, s.workers[w := Waiting(i)], i);
    }
    assert InKeyOrder(ops, u);
    assert ProbesOk(ops, u);
  }

  lemma ClaimOwned(ops: seq<Op>, s: State, w: nat)
    requires ClaimsOk(ops, s) && w < |s.workers| && s.workers[w] == Reading && s.next < |ops|
    ensures ClaimsOk(ops, Claim(ops, s, w))
  {
    var i := s.next;
    var u := Claim(ops, s, w);
    var x := u.workers[w];
    assert Sane(ops, u);
    assert u.workers == s.workers[w := x];
    forall j | 0 <= j < u.next && u.replies[j].None? ensures Owned(u, j) {
      if j == i {
        assert Holds(u.workers[w], i);
      } else {
        OwnedStays(s, w, x, j);
      }
    }
    forall v, j: nat | 0 <= v < |u.workers| && Holds(u.workers[v], j) ensures j < u.next && u.replies[j].None? {
      assert v != w ==> Holds(s.workers[v], j);
    }
    forall v, z, j: nat | 0 <= v < |u.workers| && 0 <= z < |u.workers|
      ensures Holds(u.workers[v], j) && Holds(u.workers[z], j) ==> v == z
    {
      assert v != w && Holds(u.workers[v], j) ==> j < i;
      assert z != w && Holds(u.workers[z], j) ==> j < i;
    }
  }

  // ---------------------------------------------------------------- applying an operation

  lemma {:induction false} AppliedAtMost(ops: seq<Op>, replies: seq<Option<Reply>>, n: nat)
    requires n <= |ops| == |replies|
    ensures AppliedInsertions(ops, replies, n) <= Insertions(ops, n)
  {
    if n > 0 {
      AppliedAtMost(ops, replies, n - 1);
    }
  }

  lemma {:induction false} AppliedOneMore(ops: seq<Op>, replies: seq<Option<Reply>>, i: nat, r: Reply, n: nat)
    requires n <= |ops| == |replies| && i < |ops| && replies[i].None?
    ensures AppliedInsertions(ops, replies[i := Some(r)], n)
      == AppliedInsertions(ops, replies, n) + if i < n && Inserts(ops, i) then 1 else 0
  {
    if n > 0 {
      AppliedOneMore(ops, replies, i, r, n - 1);
    }
  }

  /** The counter is below the table size exactly while a slot is without a live key, and it is so as
      long as a slot was never used: in every state of inputs with fewer fresh insertions than slots. */
  lemma UsedIsExact(ops: seq<Op>, s: State)
    requires TableInv(ops, s)
    ensures s.used <= |s.table| && (s.used < |s.table| <==> !AllLive(s.table))
    ensures Insertions(ops, |ops|) < |s.table| ==> s.used < |s.table|
  {
    FullMeansAllLive(s.table);
    AppliedAtMost(ops, s.replies, |ops|);
    UsedBelowSize(s.table);
  }

  ghost predicate Ends(ops: seq<Op>, s: State, w: nat)
    requires Sane(ops, s)
  {
    && w < |s.workers| && s.workers[w].Probing?
    && var x := s.workers[w];
       !GoesOn(s.table[x.ctr], ops[x.op].key, HashFunc(ops[x.op].key, |s.table|), x.ctr, x.moved)
  }

  /** The step of worker `w` does not fail the assertion behind the probe loop of the insertion: the probe
      has not come back to its home slot. */
  ghost predicate Safe(ops: seq<Op>, s: State, w: nat)
    requires Sane(ops, s)
  {
    Ends(ops, s, w) && ops[s.workers[w].op].kind == Put ==>
      var x := s.workers[w];
      !(x.moved && x.ctr == HashFunc(ops[x.op].key, |s.table|))
  }

  /** Then the last assertion holds as well: a slot of another key is never overwritten. */
  lemma SafeEndsWell(ops: seq<Op>, s: State, w: nat)
    requires Sane(ops, s) && ProbesOk(ops, s) && KeysNonZero(ops) && Ends(ops, s, w) && Safe(ops, s, w)
    ensures var x := s.workers[w]; var op := ops[x.op];
      && EndsAt(s.table, op, x.ctr, x.moved)
      && (op.kind == Put ==> s.table[x.ctr].key == op.key || !Occupied(s.table[x.ctr]))
  {
  }

  /** An operation that has not been applied is missing from the applied insertions. */
  lemma StillToInsert(ops: seq<Op>, replies: seq<Option<Reply>>, i: nat)
    requires |replies| == |ops| && i < |ops| && replies[i].None? && Inserts(ops, i)
    ensures AppliedInsertions(ops, replies, |ops|) < Insertions(ops, |ops|)
  {
    var r := Reply(0, 0, 0);
    AppliedOneMore(ops, replies, i, r, |ops|);
    AppliedAtMost(ops, replies[i := Some(r)], |ops|);
  }

  /** With no more fresh insertions than slots a probe of an insertion never comes back to its home slot,
      not even when the table is full: then the key is stored. */
  lemma AssertionsHold(ops: seq<Op>, s: State, w: nat)
    requires Inv(ops, s) && GoodInput(ops) && Insertions(ops, |ops|) <= |s.table|
    ensures Safe(ops, s, w)
    ensures Ends(ops, s, w) ==>
      var x := s.workers[w];
      ops[x.op].kind == Put ==> s.table[x.ctr].key == ops[x.op].key || s.table[x.ctr].key == 0
  {
    if Ends(ops, s, w) && ops[s.workers[w].op].kind == Put {
      var x := s.workers[w];
      var key := ops[x.op].key;
      WrapsExactly(s.table, key, x.ctr, x.moved);
      FrontierHere(ops, s, w);
      assert Holds(x, x.op);
      if ValueOf(s.table, key).None? {
        StillToInsert(ops, s.replies, x.op);
        RoomLeft(s.table);
      }
    }
  }

  /** Two operations on one key are never probing at the same time. */
  lemma SameKeyExclusive(ops: seq<Op>, s: State, v: nat, w: nat)
    requires ClaimsOk(ops, s) && InKeyOrder(ops, s)
    requires v < |s.workers| && w < |s.workers| && v != w && s.workers[v].Probing? && s.workers[w].Probing?
    ensures ops[s.workers[v].op].key != ops[s.workers[w].op].key
  {
    assert Holds(s.workers[v], s.workers[v].op) && Holds(s.workers[w], s.workers[w].op);
  }

  lemma ApplyClaims(ops: seq<Op>, s: State, w: nat)
    requires ClaimsOk(ops, s) && Ends(ops, s, w)
    ensures ClaimsOk(ops, After(ops, s, w))
  {
    var x := s.workers[w];
    var u := After(ops, s, w);
    assert Holds(x, x.op);
    assert Sane(ops, u);
    forall j | 0 <= j < u.next && u.replies[j].None? ensures Owned(u, j) {
      assert j != x.op && s.replies[j].None?;
      OwnedStays(s, w, Finishing(x.op), j);
      var v :| 0 <= v < |s.workers| && Holds(SetWorker(s, w, Finishing(x.op)).workers[v], j);
      assert Holds(u.workers[v], j);
    }
    forall v, j: nat | 0 <= v < |u.workers| && Holds(u.workers[v], j)
      ensures j < u.next && u.replies[j].None? && Holds(s.workers[v], j)
    {
      assert v != w && Holds(s.workers[v], j);
      assert j != x.op;
    }
  }

  lemma ApplyOrder(ops: seq<Op>, s: State, w: nat)
    requires Inv(ops, s) && Ends(ops, s, w) && Sane(ops, After(ops, s, w))
    ensures InKeyOrder(ops, After(ops, s, w))
  {
    var x := s.workers[w];
    var u := After(ops, s, w);
    forall j | 0 <= j < |ops| && u.replies[j].Some? ensures EarlierDone(ops, u.replies, j) {
      assert EarlierDone(ops, s.replies, j);
    }
    forall v | 0 <= v < |u.workers| && u.workers[v].Probing? ensures EarlierDone(ops, u.replies, u.workers[v].op) {
      assert u.workers[v] == s.workers[v];
      assert EarlierDone(ops, s.replies, s.workers[v].op);
    }
  }

  lemma ApplyProbes(ops: seq<Op>, s: State, w: nat)
    requires Inv(ops, s) && GoodInput(ops) && Ends(ops, s, w) && Safe(ops, s, w) && Sane(ops, After(ops, s, w))
    ensures ProbesOk(ops, After(ops, s, w))
  {
    var x := s.workers[w];
    var u := After(ops, s, w);
    SafeEndsWell(ops, s, w);
    SlotAfterOccupied(s.table, ops[x.op], x.ctr, x.moved);
    forall v | 0 <= v < |u.workers| && u.workers[v].Probing?
      ensures ProbeOk(u.table, ops[u.workers[v].op].key, u.workers[v].ctr, u.workers[v].moved)
    {
      var y := s.workers[v];
      assert u.workers[v] == y;
      SameKeyExclusive(ops, s, v, w);
      ProbeOkStays(s.table, x.ctr, SlotAfter(ops[x.op], s.table[x.ctr]), ops[y.op].key, y.ctr, y.moved);
    }
  }

  lemma ProbeOkStays(t: seq<Slot>, c: nat, e: Slot, key: nat, ctr: nat, moved: bool)
    requires ProbeOk(t, key, ctr, moved) && c < |t| && key != 0
    requires Occupied(t[c]) ==> Occupied(e)
    requires e.key != key || e == t[c]
    ensures ProbeOk(t[c := e], key, ctr, moved)
  {
    var u := t[c := e];
    forall j | 0 <= j < |u| && Passed(HashFunc(key, |u|), ctr, moved, j) ensures Occupied(u[j]) && u[j].key != key {
      assert Occupied(t[j]) && t[j].key != key;
    }
  }

  // ---------------------------------------------------------------- the map after an application

  /** Operations on other keys do not change the entry. */
  lemma {:induction false} SerialGap(ops: seq<Op>, m: nat, n: nat, k: nat)
    requires m <= n <= |ops| && forall j :: m <= j < n ==> ops[j].key != k
    ensures SerialEntry(ops, n, k) == SerialEntry(ops, m, k)
  {
    if m < n {
      SerialGap(ops, m, n - 1, k);
    }
  }

  /** When a probe ends, exactly the earlier operations on its key have been applied. */
  lemma FrontierHere(ops: seq<Op>, s: State, w: nat)
    requires ClaimsOk(ops, s) && InKeyOrder(ops, s) && w < |s.workers| && s.workers[w].Probing?
    ensures Frontier(ops, s.replies, ops[s.workers[w].op].key, s.workers[w].op)
  {
    var i := s.workers[w].op;
    assert Holds(s.workers[w], i);
    forall j | 0 <= j < |ops| && ops[j].key == ops[i].key ensures s.replies[j].Some? <==> j < i {
      assert s.replies[j].Some? ==> EarlierDone(ops, s.replies, j);
    }
  }

  lemma ApplyValues(ops: seq<Op>, s: State, w: nat)
    requires Inv(ops, s) && GoodInput(ops) && Ends(ops, s, w) && Safe(ops, s, w)
    ensures ValuesOk(ops, After(ops, s, w)) && RepliesOk(ops, After(ops, s, w))
  {
    var x := s.workers[w];
    var op := ops[x.op];
    var u := After(ops, s, w);
    SafeEndsWell(ops, s, w);
    EndEffect(s.table, op, x.ctr, x.moved);
    FrontierHere(ops, s, w);
    assert op.key != 0;
    assert ValueOf(s.table, op.key) == SerialEntry(ops, x.op, op.key);
    forall k: nat, n: nat | k != 0 && Frontier(ops, u.replies, k, n)
      ensures ValueOf(u.table, k) == SerialEntry(ops, n, k)
    {
      if k == op.key {
        FrontierMoves(ops, s.replies, u.replies, x.op, n);
        SerialGap(ops, x.op + 1, n, k);
      } else {
        assert Frontier(ops, s.replies, k, n);
      }
    }
  }

  lemma FrontierMoves(ops: seq<Op>, r: seq<Option<Reply>>, u: seq<Option<Reply>>, i: nat, n: nat)
    requires i < |ops| == |r| && |u| == |ops| && u[i].Some?
    requires forall j :: 0 <= j < |ops| && j != i ==> u[j] == r[j]
    requires Frontier(ops, r, ops[i].key, i) && Frontier(ops, u, ops[i].key, n)
    ensures i < n && forall j :: i + 1 <= j < n ==> ops[j].key != ops[i].key
  {
    forall j | i + 1 <= j < n ensures ops[j].key != ops[i].key {
      assert u[j] == r[j];
    }
  }

  /** The applied operation takes a never-used slot exactly when it inserts in the serial run. */
  lemma ApplyRoom(ops: seq<Op>, s: State, w: nat)
    requires Inv(ops, s) && GoodInput(ops) && Ends(ops, s, w) && Safe(ops, s, w)
    ensures RoomOk(ops, After(ops, s, w))
  {
    var x := s.workers[w];
    var op := ops[x.op];
    assert Holds(x, x.op);
    SafeEndsWell(ops, s, w);
    FrontierHere(ops, s, w);
    AppliedOneMore(ops, s.replies, x.op, ReplyAt(op, s.table[x.ctr]), |ops|);
    EndTakesUnused(s.table, op, x.ctr, x.moved);
  }

  lemma ApplyTable(ops: seq<Op>, s: State, w: nat)
    requires Inv(ops, s) && GoodInput(ops) && Ends(ops, s, w) && Safe(ops, s, w) && Sane(ops, After(ops, s, w))
    ensures TableInv(ops, After(ops, s, w))
  {
    var x := s.workers[w];
    assert Holds(x, x.op);
    SafeEndsWell(ops, s, w);
    EndEffect(s.table, ops[x.op], x.ctr, x.moved);
    ApplyValues(ops, s, w);
    ApplyRoom(ops, s, w);
  }

  lemma ApplyKeeps(ops: seq<Op>, s: State, w: nat)
    requires Inv(ops, s) && GoodInput(ops) && Ends(ops, s, w) && Safe(ops, s, w)
    ensures Inv(ops, After(ops, s, w))
  {
    ApplyClaims(ops, s, w);
    ApplyOrder(ops, s, w);
    ApplyProbes(ops, s, w);
    ApplyTable(ops, s, w);
  }
}
