/** The table that the program prints at its end: its lines up to order, its order, and the table of
    the serial program. */
module ParallelDumps {
  import opened Options
  import opened HashSlots
  import opened HashTable
  import opened ParallelHash
  import opened ParallelRuns
  import opened ParallelLimits

  // ---------------------------------------------------------------- the dumped table

  /** What dump_hash_table prints of a slot, less the data pointer. */
  datatype Row = Row(id: nat, key: nat, datalen: nat)

  /** The lines of dump_hash_table: the live slots in slot order. */
  function Dump(t: seq<Slot>): seq<Row> {
    if t == [] then []
    else
      var e := t[|t| - 1];
      Dump(t[..|t| - 1]) + if e.key != 0 then [RowOf(e)] else []
  }

  function RowOf(e: Slot): Row {
    Row(e.id, e.key, e.datalen)
  }

  ghost predicate Shows(t: seq<Slot>, r: Row) {
    exists i :: 0 <= i < |t| && t[i].key != 0 && r == RowOf(t[i])
  }

  lemma ShowsLast(t: seq<Slot>, r: Row)
    requires t != []
    ensures Shows(t, r) <==> Shows(t[..|t| - 1], r) || (t[|t| - 1].key != 0 && r == RowOf(t[|t| - 1]))
  {
    var u := t[..|t| - 1];
    if i :| 0 <= i < |t| && t[i].key != 0 && r == RowOf(t[i]) {
      assert i < |u| ==> u[i] == t[i];
    }
    if i :| 0 <= i < |u| && u[i].key != 0 && r == RowOf(u[i]) {
      assert t[i] == u[i];
    }
  }

  lemma {:induction false} DumpedRows(t: seq<Slot>, r: Row)
    ensures r in Dump(t) <==> Shows(t, r)
  {
    hide RowOf;
    if t == [] {
      assert !Shows(t, r);
    } else {
      ShowsLast(t, r);
      DumpedRows(t[..|t| - 1], r);
      hide Shows;
    }
  }

  lemma {:induction false} DumpLength(t: seq<Slot>)
    ensures |Dump(t)| == |LiveSlots(t)|
  {
    if t == [] {
      assert LiveSlots(t) == {};
    } else {
      var last := |t| - 1;
      DumpLength(t[..last]);
      assert LiveSlots(t) - {last} == LiveSlots(t[..last]);
      WithoutOne(LiveSlots(t), last);
    }
  }

  /** No line is printed twice. */
  lemma {:induction false} RowsOnce(t: seq<Slot>, r: Row)
    requires UniqueKeys(t)
    ensures multiset(Dump(t))[r] == if r in Dump(t) then 1 else 0
  {
    if t != [] {
      var last := |t| - 1;
      var u := t[..last];
      RowsOnce(u, r);
      DumpedRows(u, r);
      if r in Dump(u) {
        var i :| 0 <= i < |u| && u[i].key != 0 && r == RowOf(u[i]);
        assert t[i].key != t[last].key;
      }
    }
  }

  /** A run that has ended without a failed assertion: the program prints its table. */
  ghost predicate Finishes(ops: seq<Op>, size: nat, count: nat, schedule: seq<nat>, s: State) {
    && SafeRun(ops, Init(ops, size, count), schedule)
    && Run(ops, Init(ops, size, count), schedule) == Some(s) && AllExited(s)
  }

  /** Tables of one meaning print the same lines, in whatever order. */
  lemma SameLines(t: seq<Slot>, u: seq<Slot>)
    requires UniqueKeys(t) && UniqueKeys(u)
    requires forall k: nat :: k != 0 ==> ValueOf(t, k) == ValueOf(u, k)
    ensures multiset(Dump(t)) == multiset(Dump(u))
  {
    forall r ensures multiset(Dump(t))[r] == multiset(Dump(u))[r] {
      RowsFromValues(t, u, r);
      RowsFromValues(u, t, r);
      RowsOnce(t, r);
      RowsOnce(u, r);
    }
  }

  lemma RowsFromValues(t: seq<Slot>, u: seq<Slot>, r: Row)
    requires UniqueKeys(t) && UniqueKeys(u)
    requires forall k: nat :: k != 0 ==> ValueOf(t, k) == ValueOf(u, k)
    ensures r in Dump(t) ==> r in Dump(u)
  {
    DumpedRows(t, r);
    DumpedRows(u, r);
    if r in Dump(t) {
      var i :| 0 <= i < |t| && t[i].key != 0 && r == RowOf(t[i]);
      ValueAt(t, i, r.key);
      assert ValueOf(u, r.key).Some?;
      var j :| 0 <= j < |u| && u[j].key == r.key;
      ValueAt(u, j, r.key);
    }
  }

  // ---------------------------------------------------------------- the table of the serial program

  /** One worker keeps the slots of the serial program: between two operations, at a probe, and at the end. */
  ghost predicate KeepsSlots(ops: seq<Op>, size: nat, s: State) {
    && size > 0 && Sane(ops, s) && |s.workers| == 1 && |s.table| == size
    && match s.workers[0]
       case Reading => s.table == SlotsAfter(ops, s.next, size)
       case Waiting(_) => false
       case Probing(i, c, moved) =>
         i + 1 == s.next && s.table == SlotsAfter(ops, i, size)
         && StopFrom(s.table, ops[i].key, c, moved) == Stop(s.table, ops[i].key)
       case Finishing(i) => s.table == SlotsAfter(ops, s.next, size)
       case Exited => s.next == |ops| && s.table == SlotsAfter(ops, |ops|, size)
  }

  lemma KeepsSlotsStep(ops: seq<Op>, size: nat, s: State)
    requires KeepsSlots(ops, size, s) && CanStep(ops, s, 0)
    ensures KeepsSlots(ops, size, After(ops, s, 0))
  {
    if s.workers[0] == Reading && s.next < |ops| {
      var waiting := s.workers[0 := Waiting(s.next)];
      assert waiting == [Waiting(s.next)] && !Blocked(ops, waiting, s.next);
    }
  }

  lemma {:induction false} KeepsSlotsRun(ops: seq<Op>, size: nat, s: State, schedule: seq<nat>)
    requires KeepsSlots(ops, size, s) && Run(ops, s, schedule).Some?
    ensures KeepsSlots(ops, size, Run(ops, s, schedule).value)
    decreases |schedule|
  {
    if schedule != [] {
      KeepsSlotsStep(ops, size, s);
      KeepsSlotsRun(ops, size, After(ops, s, 0), schedule[1..]);
    }
  }

  /** One worker leaves the slots of the serial program, each entry in the same place. */
  lemma OneWorkerIsSerial(ops: seq<Op>, size: nat, schedule: seq<nat>, s: State)
    requires size > 0 && Run(ops, Init(ops, size, 1), schedule) == Some(s) && AllExited(s)
    ensures s.table == SlotsAfter(ops, |ops|, size)
  {
    KeepsSlotsRun(ops, size, Init(ops, size, 1), schedule);
  }

  /** However many workers there are, the printed lines are up to their order those of the serial program,
      and so is the printed count. */
  lemma PrintsSerialLines(ops: seq<Op>, size: nat, count: nat, schedule: seq<nat>, s: State)
    requires GoodInput(ops) && size > 0 && 0 < count <= SCANNED && Finishes(ops, size, count, schedule, s)
    ensures multiset(Dump(s.table)) == multiset(Dump(SlotsAfter(ops, |ops|, size)))
    ensures s.used == |Dump(s.table)|
  {
    hide GoodInput, SafeRun, AllExited, TableOk;
    EveryInterleavingIsSerial(ops, size, count, schedule, s);
    DumpLength(s.table);
    var alone := SerialTable(ops, size);
    SameLines(s.table, alone);
  }

  /** The serial slots stand for the serial map, as one worker shows. */
  lemma SerialTable(ops: seq<Op>, size: nat) returns (t: seq<Slot>)
    requires GoodInput(ops) && size > 0 && Insertions(ops, |ops|) <= size
    ensures t == SlotsAfter(ops, |ops|, size) && UniqueKeys(t)
    ensures forall k: nat :: k != 0 ==> ValueOf(t, k) == SerialEntry(ops, |ops|, k)
  {
    InitInv(ops, size, 1);
    var alone := RunsFinish(ops, Init(ops, size, 1));
    var u := Run(ops, Init(ops, size, 1), alone).value;
    t := u.table;
    OneWorkerIsSerial(ops, size, alone, u);
    RoomySerial(ops, size, 1, alone, u);
  }

  /** Finished runs print the same lines and the same count up to the order of the lines, with equally many
      workers or not. */
  lemma DumpsAgreeUnordered(ops: seq<Op>, size: nat, count: nat, a: seq<nat>, s: State, other: nat, b: seq<nat>, u: State)
    requires GoodInput(ops) && size > 0 && 0 < count <= SCANNED && 0 < other <= SCANNED
    requires Finishes(ops, size, count, a, s) && Finishes(ops, size, other, b, u)
    ensures multiset(Dump(s.table)) == multiset(Dump(u.table)) && s.used == u.used
  {
    PrintsSerialLines(ops, size, count, a, s);
    PrintsSerialLines(ops, size, other, b, u);
    assert |multiset(Dump(s.table))| == |multiset(Dump(u.table))|;
  }

  // ---------------------------------------------------------------- the order of the lines

  /** All finished runs of `count` workers on any one input print the same lines in the same order. */
  ghost predicate DumpsAgree(count: nat) {
    forall ops, size: nat, a, s, b, u ::
      GoodInput(ops) && size > 0 && Finishes(ops, size, count, a, s) && Finishes(ops, size, count, b, u) ==>
      Dump(s.table) == Dump(u.table)
  }

  /** One worker leaves the scheduler no choice. */
  lemma {:induction false} OneWorkerOneRun(ops: seq<Op>, s: State, a: seq<nat>, b: seq<nat>)
    requires |s.workers| == 1 && Run(ops, s, a).Some? && Run(ops, s, b).Some?
    requires AllExited(Run(ops, s, a).value) && AllExited(Run(ops, s, b).value)
    ensures Run(ops, s, a) == Run(ops, s, b)
    decreases |a|
  {
    if a != [] && b != [] {
      OneWorkerOneRun(ops, After(ops, s, 0), a[1..], b[1..]);
    }
  }

  /** Once every operation has its reply, the table stays as it is. */
  lemma {:induction false} TableSettled(ops: seq<Op>, s: State, schedule: seq<nat>)
    requires Inv(ops, s) && GoodInput(ops) && |s.workers| <= SCANNED
    requires forall i :: 0 <= i < |ops| ==> s.replies[i].Some?
    requires SafeRun(ops, s, schedule)
    ensures Run(ops, s, schedule).Some? && Run(ops, s, schedule).value.table == s.table
    decreases |schedule|
  {
    if schedule != [] {
      var w := schedule[0];
      StepKeeps(ops, s, w);
      AllReplied(ops, s, w);
      TableSettled(ops, After(ops, s, w), schedule[1..]);
    }
  }

  lemma AllReplied(ops: seq<Op>, s: State, w: nat)
    requires ClaimsOk(ops, s) && CanStep(ops, s, w) && forall i :: 0 <= i < |ops| ==> s.replies[i].Some?
    ensures After(ops, s, w).table == s.table && After(ops, s, w).replies == s.replies
  {
    var x := s.workers[w];
    assert x.Waiting? || x.Probing? ==> Holds(x, x.op);
  }

  /** A run in which every operation has its reply can be finished without touching the table. */
  lemma FinishFrom(ops: seq<Op>, size: nat, count: nat, a: seq<nat>, s: State) returns (all: seq<nat>, end: State)
    requires GoodInput(ops) && size > 0 && 0 < count <= SCANNED && Insertions(ops, |ops|) <= size
    requires Run(ops, Init(ops, size, count), a) == Some(s)
    requires forall i :: 0 <= i < |s.replies| ==> s.replies[i].Some?
    ensures Finishes(ops, size, count, all, end) && end.table == s.table
  {
    InitInv(ops, size, count);
    RoomMakesRunsSafe(ops, Init(ops, size, count), a);
    RunKeeps(ops, Init(ops, size, count), a);
    var rest := RunsFinish(ops, s);
    RoomMakesRunsSafe(ops, s, rest);
    TableSettled(ops, s, rest);
    RunConcat(ops, Init(ops, size, count), a, rest);
    all, end := a + rest, Run(ops, s, rest).value;
    RoomMakesRunsSafe(ops, Init(ops, size, count), all);
  }

  /** Two PUTs whose keys share a home slot. */
  const TWO_PUTS: seq<Op> := [Op(1, 3, Put, 5, 9), Op(2, 6, Put, 4, 8)]

  lemma TwoPutsGood()
    ensures GoodInput(TWO_PUTS) && Insertions(TWO_PUTS, |TWO_PUTS|) == 2
    ensures forall workers, i :: 0 <= i < 2 ==> !Blocked(TWO_PUTS, workers, i)
  {
    assert Insertions(TWO_PUTS, 2) == Insertions(TWO_PUTS, 1) + 1 && Insertions(TWO_PUTS, 1) == 1;
  }

  /** The state after some steps of workers 0 and 1, while all others still wait to read. */
  function TwoAtWork(count: nat, table: seq<Slot>, used: int, next: nat, x: Worker, y: Worker, replies: seq<Option<Reply>>): State
    requires count >= 2
  {
    State(table, used, next, [x, y] + seq(count - 2, _ => Reading), replies)
  }

  lemma PutStep(s: State, w: nat, after: State, rest: seq<nat>, end: State)
    requires Sane(TWO_PUTS, s) && CanStep(TWO_PUTS, s, w) && After(TWO_PUTS, s, w) == after
    requires Run(TWO_PUTS, after, rest) == Some(end)
    ensures Run(TWO_PUTS, s, [w] + rest) == Some(end)
  {
    RunStep(TWO_PUTS, s, w, rest);
  }

  /** Worker 0 takes in the first operation. */
  lemma FirstClaims(count: nat, rest: seq<nat>, end: State)
    requires count >= 2
    requires var n := NEVER_USED;
      Run(TWO_PUTS, TwoAtWork(count, [n, n, n], 0, 1, Probing(0, 0, false), Reading, [None, None]), rest) == Some(end)
    ensures Run(TWO_PUTS, Init(TWO_PUTS, 3, count), [0] + rest) == Some(end)
  {
    hide Blocked;
    TwoPutsGood();
    var n := NEVER_USED;
    var s0 := Init(TWO_PUTS, 3, count);
    var s1 := TwoAtWork(count, [n, n, n], 0, 1, Probing(0, 0, false), Reading, [None, None]);
    assert s0 == TwoAtWork(count, [n, n, n], 0, 0, Reading, Reading, [None, None]);
    PutStep(s0, 0, s1, rest, end);
  }

  const STORED: Option<Reply> := Some(Reply(0, 0, 0))

  /** Worker 0 stores its key before worker 1 reads: the keys stand in input order. */
  lemma FirstThenSecond(count: nat) returns (a: seq<nat>, s: State)
    requires count >= 2
    ensures Run(TWO_PUTS, Init(TWO_PUTS, 3, count), a) == Some(s)
    ensures s.replies == [STORED, STORED]
    ensures s.table == [StoredBy(TWO_PUTS[0]), StoredBy(TWO_PUTS[1]), NEVER_USED]
  {
    hide Blocked;
    TwoPutsGood();
    var n, p := NEVER_USED, StoredBy(TWO_PUTS[0]);
    var s1 := TwoAtWork(count, [n, n, n], 0, 1, Probing(0, 0, false), Reading, [None, None]);
    var s2 := TwoAtWork(count, [p, n, n], 1, 1, Finishing(0), Reading, [STORED, None]);
    var rest;
    rest, s := SecondMovesOn(count);
    PutStep(s1, 0, s2, rest, s);
    FirstClaims(count, [0] + rest, s);
    a := [0] + ([0] + rest);
  }

  lemma SecondMovesOn(count: nat) returns (a: seq<nat>, s: State)
    requires count >= 2
    ensures var p, n := StoredBy(TWO_PUTS[0]), NEVER_USED;
      Run(TWO_PUTS, TwoAtWork(count, [p, n, n], 1, 1, Finishing(0), Reading, [STORED, None]), a) == Some(s)
    ensures s.replies == [STORED, STORED]
    ensures s.table == [StoredBy(TWO_PUTS[0]), StoredBy(TWO_PUTS[1]), NEVER_USED]
  {
    hide Blocked;
    TwoPutsGood();
    var n, p, q := NEVER_USED, StoredBy(TWO_PUTS[0]), StoredBy(TWO_PUTS[1]);
    var s2 := TwoAtWork(count, [p, n, n], 1, 1, Finishing(0), Reading, [STORED, None]);
    var s3 := TwoAtWork(count, [p, n, n], 1, 2, Finishing(0), Probing(1, 0, false), [STORED, None]);
    var s4 := TwoAtWork(count, [p, n, n], 1, 2, Finishing(0), Probing(1, 1, true), [STORED, None]);
    s := TwoAtWork(count, [p, q, n], 2, 2, Finishing(0), Finishing(1), [STORED, STORED]);
    PutStep(s4, 1, s, [], s);
    PutStep(s3, 1, s4, [1], s);
    PutStep(s2, 1, s3, [1] + [1], s);
    a := [1] + ([1] + [1]);
  }

  /** Worker 1 overtakes worker 0 and takes the home slot. */
  lemma SecondOvertakes(count: nat) returns (a: seq<nat>, s: State)
    requires count >= 2
    ensures Run(TWO_PUTS, Init(TWO_PUTS, 3, count), a) == Some(s)
    ensures s.replies == [STORED, STORED]
    ensures s.table == [StoredBy(TWO_PUTS[1]), StoredBy(TWO_PUTS[0]), NEVER_USED]
  {
    hide Blocked;
    TwoPutsGood();
    var n := NEVER_USED;
    var s1 := TwoAtWork(count, [n, n, n], 0, 1, Probing(0, 0, false), Reading, [None, None]);
    var s2 := TwoAtWork(count, [n, n, n], 0, 2, Probing(0, 0, false), Probing(1, 0, false), [None, None]);
    var rest;
    rest, s := FirstMovesOn(count);
    PutStep(s1, 1, s2, rest, s);
    FirstClaims(count, [1] + rest, s);
    a := [0] + ([1] + rest);
  }

  lemma FirstMovesOn(count: nat) returns (a: seq<nat>, s: State)
    requires count >= 2
    ensures var n := NEVER_USED;
      Run(TWO_PUTS, TwoAtWork(count, [n, n, n], 0, 2, Probing(0, 0, false), Probing(1, 0, false), [None, None]), a) == Some(s)
    ensures s.replies == [STORED, STORED]
    ensures s.table == [StoredBy(TWO_PUTS[1]), StoredBy(TWO_PUTS[0]), NEVER_USED]
  {
    hide Blocked;
    TwoPutsGood();
    var n, p, q := NEVER_USED, StoredBy(TWO_PUTS[0]), StoredBy(TWO_PUTS[1]);
    var s2 := TwoAtWork(count, [n, n, n], 0, 2, Probing(0, 0, false), Probing(1, 0, false), [None, None]);
    var s3 := TwoAtWork(count, [q, n, n], 1, 2, Probing(0, 0, false), Finishing(1), [None, STORED]);
    var s4 := TwoAtWork(count, [q, n, n], 1, 2, Probing(0, 1, true), Finishing(1), [None, STORED]);
    s := TwoAtWork(count, [q, p, n], 2, 2, Finishing(0), Finishing(1), [STORED, STORED]);
    PutStep(s4, 0, s, [], s);
    PutStep(s3, 0, s4, [0], s);
    PutStep(s2, 1, s3, [0] + [0], s);
    a := [1] + ([0] + [0]);
  }

  lemma DumpTwo(p: Slot, q: Slot)
    requires p.key != 0 && q.key != 0
    ensures Dump([p, q, NEVER_USED]) == [Row(p.id, p.key, p.datalen), Row(q.id, q.key, q.datalen)]
  {
    assert [p, q, NEVER_USED][..2] == [p, q] && [p, q][..1] == [p] && [p][..0] == [];
    assert Dump([p]) == [Row(p.id, p.key, p.datalen)];
    assert Dump([p, q]) == Dump([p]) + [Row(q.id, q.key, q.datalen)];
  }

  lemma OneWorkerAgrees()
    ensures DumpsAgree(1)
  {
    forall ops, size: nat, a, s, b, u
      | GoodInput(ops) && size > 0 && Finishes(ops, size, 1, a, s) && Finishes(ops, size, 1, b, u)
      ensures Dump(s.table) == Dump(u.table)
    {
      OneWorkerOneRun(ops, Init(ops, size, 1), a, b);
    }
  }

  lemma TwoWorkersDisagree(count: nat)
    requires 2 <= count <= SCANNED
    ensures !DumpsAgree(count)
  {
    hide GoodInput, Finishes;
    TwoPutsGood();
    var a, s := FirstThenSecond(count);
    var b, u := SecondOvertakes(count);
    var c, v := FinishFrom(TWO_PUTS, 3, count, a, s);
    var d, w := FinishFrom(TWO_PUTS, 3, count, b, u);
    DumpTwo(StoredBy(TWO_PUTS[0]), StoredBy(TWO_PUTS[1]));
    DumpTwo(StoredBy(TWO_PUTS[1]), StoredBy(TWO_PUTS[0]));
    assert Dump(v.table)[0].key == 3 && Dump(w.table)[0].key == 6;
  }

  /** Of the worker counts that give serial replies, exactly one worker also fixes the printed table: with two
      or more the order of the lines depends on the interleaving. */
  lemma DumpIsDetermined(count: nat)
    requires 1 <= count <= SCANNED
    ensures DumpsAgree(count) <==> count == 1
  {
    if count == 1 {
      OneWorkerAgrees();
    } else {
      TwoWorkersDisagree(count);
    }
  }
}
