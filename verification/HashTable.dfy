/** The hash table object and its three operations, run by one thread, and the serial program
    that applies a list of operations in order. */
module HashTable {
  import opened Options
  import opened HashSlots

  /** The key is stored, or a slot was never used. */
  ghost predicate CanStore(t: seq<Slot>, key: nat) {
    exists i :: 0 <= i < |t| && (!Occupied(t[i]) || t[i].key == key)
  }

  /** A probe comes back to its home slot exactly when the key is not stored and every slot was used. */
  lemma WrapsExactly(t: seq<Slot>, key: nat, c: nat, moved: bool)
    requires ProbeOk(t, key, c, moved) && !GoesOn(t[c], key, HashFunc(key, |t|), c, moved)
    ensures moved && c == HashFunc(key, |t|) <==> !CanStore(t, key)
  {
    if i :| 0 <= i < |t| && (!Occupied(t[i]) || t[i].key == key) {
      assert Passed(HashFunc(key, |t|), HashFunc(key, |t|), true, i);
    }
  }

  /** Every slot holds a live key. */
  predicate AllLive(t: seq<Slot>) {
    forall i :: 0 <= i < |t| ==> t[i].key != 0
  }

  /** The only slot at which a probe for the key can stop is the one before its home slot. */
  predicate OnlyBeforeHome(t: seq<Slot>, key: nat)
    requires |t| > 0
  {
    var h := HashFunc(key, |t|);
    && h > 0
    && (forall j :: 0 <= j < |t| && j != h - 1 ==> Occupied(t[j]) && t[j].key != key)
    && (!Occupied(t[h - 1]) || t[h - 1].key == key)
  }

  lemma StopsBeforeHome(t: seq<Slot>, key: nat, c: nat, moved: bool)
    requires ProbeOk(t, key, c, moved) && !GoesOn(t[c], key, HashFunc(key, |t|), c, moved)
    ensures c == HashFunc(key, |t|) - 1 <==> OnlyBeforeHome(t, key)
  {
    var h := HashFunc(key, |t|);
    if c + 1 == h {
      forall j | 0 <= j < |t| && j != c ensures Occupied(t[j]) && t[j].key != key {
        assert Passed(h, c, moved, j);
      }
    } else if OnlyBeforeHome(t, key) {
      assert c == h ==> moved;
      assert Passed(h, c, moved, h - 1);
    }
  }

  /** The three assertions of the serial insertion: used < table_size, ctr != hashval - 1, and the slot is
      free when it does not hold the key. They fail in exactly these cases. */
  predicate SerialAborts(t: seq<Slot>, key: nat)
    requires |t| > 0
  {
    || AllLive(t)
    || OnlyBeforeHome(t, key)
    || ((forall i :: 0 <= i < |t| ==> Occupied(t[i]) && t[i].key != key) && t[HashFunc(key, |t|)].key != 0)
  }

  /** The counter equals the table size exactly when every slot is live. */
  lemma FullMeansAllLive(t: seq<Slot>)
    ensures |LiveSlots(t)| <= |t|
    ensures |LiveSlots(t)| == |t| <==> AllLive(t)
  {
    IndexCount(|t|);
    SubsetCount(LiveSlots(t), Indices(|t|));
    assert AllLive(t) <==> LiveSlots(t) == Indices(|t|) by {
      assert forall i: nat :: i < |t| ==> (i in LiveSlots(t) <==> t[i].key != 0);
    }
  }

  ghost function Indices(n: nat): set<nat> {
    if n == 0 then {} else Indices(n - 1) + {n - 1}
  }

  lemma {:induction false} IndexCount(n: nat)
    ensures |Indices(n)| == n && forall i: nat :: i in Indices(n) <==> i < n
  {
    if n > 0 {
      IndexCount(n - 1);
    }
  }

  lemma SubsetCount(a: set<nat>, b: set<nat>)
    requires a <= b
    ensures |a| <= |b| && (|a| == |b| ==> a == b)
  {
    assert b == a + (b - a);
    assert |b| == |a| + |b - a|;
  }

  // ---------------------------------------------------------------- where the probes lead

  /** The slot at which a probe for the key stops. */
  function StopFrom(t: seq<Slot>, key: nat, c: nat, moved: bool): (r: nat)
    requires c < |t|
    ensures r < |t|
    decreases Ahead(HashFunc(key, |t|), c, moved, |t|)
  {
    var h := HashFunc(key, |t|);
    if GoesOn(t[c], key, h, c, moved) then
      AheadNext(h, c, moved, |t|);
      StopFrom(t, key, Next(c, |t|), true)
    else c
  }

  function Stop(t: seq<Slot>, key: nat): (r: nat)
    requires |t| > 0
    ensures r < |t|
  {
    StopFrom(t, key, HashFunc(key, |t|), false)
  }

  /** The slots, in their order, once the operation has been carried out. */
  function AfterOp(t: seq<Slot>, op: Op): (u: seq<Slot>)
    requires |t| > 0
    ensures |u| == |t|
  {
    t[Stop(t, op.key) := SlotAfter(op, t[Stop(t, op.key)])]
  }

  /** The slots after the first `n` operations, carried out in order on an empty table. */
  function SlotsAfter(ops: seq<Op>, n: nat, size: nat): (t: seq<Slot>)
    requires n <= |ops| && size > 0
    ensures |t| == size
  {
    if n == 0 then seq(size, _ => NEVER_USED) else AfterOp(SlotsAfter(ops, n - 1, size), ops[n - 1])
  }

  class Table {
    var slots: array<Slot>
    var used: int

    ghost predicate Valid()
      reads this, slots
    {
      TableOk(slots[..]) && used == |LiveSlots(slots[..])|
    }

    constructor (size: nat)
      requires size > 0
      ensures Valid() && fresh(slots) && slots.Length == size && used == 0
      ensures forall i :: 0 <= i < size ==> slots[i] == NEVER_USED
    {
      slots := new Slot[size](_ => NEVER_USED);
      used := 0;
      new;
      assert LiveSlots(slots[..]) == {};
      forall i | 0 <= i < |slots[..]| ensures Reached(slots[..], i) {
        assert slots[..][i] == NEVER_USED;
      }
    }

    /** The probe loop that the three operations share. */
    method Probe(key: nat) returns (c: nat, moved: bool)
      requires slots.Length > 0
      ensures c < slots.Length && ProbeOk(slots[..], key, c, moved)
      ensures !GoesOn(slots[c], key, HashFunc(key, slots.Length), c, moved)
      ensures c == Stop(slots[..], key)
    {
      var h := HashFunc(key, slots.Length);
      c, moved := h, false;
      while GoesOn(slots[c], key, h, c, moved)
        invariant c < slots.Length && ProbeOk(slots[..], key, c, moved)
        invariant StopFrom(slots[..], key, c, moved) == Stop(slots[..], key)
        decreases Ahead(h, c, moved, slots.Length)
      {
        ProbeStep(slots[..], key, c, moved);
        AheadNext(h, c, moved, slots.Length);
        c, moved := Next(c, slots.Length), true;
      }
    }

    /** The stored data of a key, or -1. */
    method Lookup(op: Op) returns (reply: Reply)
      requires Valid() && op.kind == Get && op.key != 0
      ensures reply == SpecReply(op, ValueOf(slots[..], op.key))
      ensures slots[..] == AfterOp(slots[..], op)
    {
      var c, moved := Probe(op.key);
      EndValue(slots[..], op, c, moved);
      if slots[c].key == op.key {
        return Reply(0, slots[c].datalen, slots[c].data);
      }
      reply := Reply(-1, 0, 0);
    }

    /** Store or overwrite a key; None is a failed assertion, and then nothing has changed. */
    method InsertUpdate(op: Op) returns (reply: Option<Reply>)
      requires Valid() && op.kind == Put && op.key != 0
      modifies this, slots
      ensures Valid() && slots == old(slots)
      ensures reply.None? <==> SerialAborts(old(slots[..]), op.key)
      ensures reply.None? ==> slots[..] == old(slots[..])
      ensures reply.Some? ==>
        && reply.value == SpecReply(op, old(ValueOf(slots[..], op.key)))
        && Effect(old(slots[..]), slots[..], op)
        && slots[..] == AfterOp(old(slots[..]), op)
        && ValueOf(slots[..], op.key) == Some(Entry(op.id % U32, op.datalen, op.data))
    {
      FullMeansAllLive(slots[..]);
      if used >= slots.Length {
        return None;
      }
      var c, moved := Probe(op.key);
      StopsBeforeHome(slots[..], op.key, c, moved);
      WrapsExactly(slots[..], op.key, c, moved);
      if c == HashFunc(op.key, slots.Length) - 1 {
        return None;
      }
      if slots[c].key != op.key && slots[c].key != 0 {
        return None;
      }
      EndEffect(slots[..], op, c, moved);
      ghost var after := slots[..][c := SlotAfter(op, slots[c])];
      if slots[c].key != op.key {
        used := used + 1;
      }
      slots[c] := Slot(op.id % U32, op.datalen, op.key, op.data);
      assert slots[..] == after;
      reply := Some(Reply(0, 0, 0));
    }

    /** Delete a key, leaving a tombstone. */
    method PurgeKey(op: Op) returns (reply: Reply)
      requires Valid() && op.kind == Del && op.key != 0
      modifies this, slots
      ensures Valid() && slots == old(slots)
      ensures reply == SpecReply(op, old(ValueOf(slots[..], op.key)))
      ensures Effect(old(slots[..]), slots[..], op) && slots[..] == AfterOp(old(slots[..]), op)
      ensures ValueOf(slots[..], op.key) == None
    {
      var c, moved := Probe(op.key);
      EndEffect(slots[..], op, c, moved);
      ghost var after := slots[..][c := SlotAfter(op, slots[c])];
      if slots[c].key == op.key {
        slots[c] := Slot(TOMB_ID, 0, 0, 0);
        used := used - 1;
        assert slots[..] == after;
        return Reply(0, 0, 0);
      }
      assert slots[..] == after;
      reply := Reply(-1, 0, 0);
    }

    /** One turn of the main loop: the operation of the record that was read. */
    method Process(op: Op) returns (reply: Option<Reply>)
      requires Valid() && op.key != 0
      modifies this, slots
      ensures Valid() && slots == old(slots)
      ensures reply.None? <==> op.kind == Put && SerialAborts(old(slots[..]), op.key)
      ensures reply.None? ==> slots[..] == old(slots[..])
      ensures reply.Some? ==>
        && reply.value == SpecReply(op, old(ValueOf(slots[..], op.key)))
        && Effect(old(slots[..]), slots[..], op)
        && slots[..] == AfterOp(old(slots[..]), op)
    {
      match op.kind
      case Get =>
        var found := Lookup(op);
        reply := Some(found);
      case Put =>
        reply := InsertUpdate(op);
      case Del =>
        var removed := PurgeKey(op);
        reply := Some(removed);
    }
  }

  /** The table changes as the finite map does: only the key of `op`. Slots stay used once used. */
  ghost predicate Effect(t: seq<Slot>, u: seq<Slot>, op: Op) {
    && |u| == |t|
    && (forall k: nat :: k != 0 ==> ValueOf(u, k) == if k == op.key then SpecEntry(op, ValueOf(t, k)) else ValueOf(t, k))
    && |NeverUsed(t)| - (if op.kind == Put && ValueOf(t, op.key).None? then 1 else 0) <= |NeverUsed(u)|
  }

  /** The slots that a fresh insertion can still take. */
  ghost function NeverUsed(t: seq<Slot>): set<nat> {
    set i: nat | i < |t| && !Occupied(t[i])
  }

  lemma EndEffect(t: seq<Slot>, op: Op, c: nat, moved: bool)
    requires TableOk(t) && EndsAt(t, op, c, moved)
    ensures var u := t[c := SlotAfter(op, t[c])];
      && TableOk(u) && Effect(t, u, op)
      && |LiveSlots(u)| == |LiveSlots(t)| + UsedChange(op, t[c])
      && ReplyAt(op, t[c]) == SpecReply(op, ValueOf(t, op.key))
  {
    var u := t[c := SlotAfter(op, t[c])];
    EndKeepsUnique(t, op, c, moved);
    EndKeepsReached(t, op, c, moved);
    EndValue(t, op, c, moved);
    EndCount(t, op, c, moved);
    EndNeverUsed(t, op, c, moved);
    if t[c].key == op.key {
      ValueAt(t, c, op.key);
    } else {
      StopsMissing(t, op.key, c, moved);
    }
    forall k: nat | k != 0
      ensures ValueOf(u, k) == if k == op.key then SpecEntry(op, ValueOf(t, k)) else ValueOf(t, k)
    {
      if k != op.key {
        EndOthers(t, op, c, moved, k);
      }
    }
  }

  lemma EndNeverUsed(t: seq<Slot>, op: Op, c: nat, moved: bool)
    requires EndsAt(t, op, c, moved)
    ensures |NeverUsed(t)| - (if op.kind == Put && t[c].key != op.key then 1 else 0)
      <= |NeverUsed(t[c := SlotAfter(op, t[c])])|
  {
    var x := SlotAfter(op, t[c]);
    UnusedElsewhere(t, c, x);
    WithoutOne(NeverUsed(t), c);
    WithoutOne(NeverUsed(t[c := x]), c);
  }

  /** An operation that does not come back to its home slot takes a never-used slot exactly when it stores
      a missing key. */
  lemma EndTakesUnused(t: seq<Slot>, op: Op, c: nat, moved: bool)
    requires TableOk(t) && EndsAt(t, op, c, moved)
    requires op.kind == Put ==> t[c].key == op.key || !Occupied(t[c])
    ensures |NeverUsed(t)|
      == |NeverUsed(t[c := SlotAfter(op, t[c])])| + if op.kind == Put && ValueOf(t, op.key).None? then 1 else 0
  {
    var x := SlotAfter(op, t[c]);
    UnusedElsewhere(t, c, x);
    WithoutOne(NeverUsed(t), c);
    WithoutOne(NeverUsed(t[c := x]), c);
    if t[c].key == op.key {
      ValueAt(t, c, op.key);
    } else {
      StopsMissing(t, op.key, c, moved);
    }
  }

  lemma UnusedElsewhere(t: seq<Slot>, c: nat, x: Slot)
    requires c < |t|
    ensures NeverUsed(t) - {c} == NeverUsed(t[c := x]) - {c}
  {
  }

  // ---------------------------------------------------------------- the serial program

  /** The entry of key `k` after the first `n` operations, run in order from an empty table. */
  ghost function SerialEntry(ops: seq<Op>, n: nat, k: nat): Option<Entry>
    requires n <= |ops|
  {
    if n == 0 then None
    else if ops[n - 1].key == k then SpecEntry(ops[n - 1], SerialEntry(ops, n - 1, k))
    else SerialEntry(ops, n - 1, k)
  }

  /** What operation `i` reports in the serial run. */
  ghost function SerialReply(ops: seq<Op>, i: nat): Reply
    requires i < |ops|
  {
    SpecReply(ops[i], SerialEntry(ops, i, ops[i].key))
  }

  /** Operation `i` stores a key that is not in the map at that point of the serial run. */
  ghost predicate Inserts(ops: seq<Op>, i: nat)
    requires i < |ops|
  {
    ops[i].kind == Put && SerialEntry(ops, i, ops[i].key).None?
  }

  /** The number of fresh insertions among the first `n` operations; overwrites take no slot. */
  ghost function Insertions(ops: seq<Op>, n: nat): nat
    requires n <= |ops|
  {
    if n == 0 then 0 else Insertions(ops, n - 1) + if Inserts(ops, n - 1) then 1 else 0
  }

  // ---------------------------------------------------------------- last write wins

  /** Operation `j` is the last PUT or DEL on key `k` among the first `n` operations. */
  ghost predicate LastWrite(ops: seq<Op>, n: nat, k: nat, j: nat)
    requires n <= |ops|
  {
    && j < n && ops[j].key == k && ops[j].kind != Get
    && forall x :: j < x < n && ops[x].key == k ==> ops[x].kind == Get
  }

  ghost predicate NeverWritten(ops: seq<Op>, n: nat, k: nat)
    requires n <= |ops|
  {
    forall x :: 0 <= x < n && ops[x].key == k ==> ops[x].kind == Get
  }

  /** The entry of key `k` after the first `n` operations: that of the last write, if it is a PUT. */
  ghost predicate LastEntry(ops: seq<Op>, n: nat, k: nat, e: Option<Entry>)
    requires n <= |ops|
  {
    && (NeverWritten(ops, n, k) ==> e == None)
    && forall j: nat :: LastWrite(ops, n, k, j) ==>
         e == if ops[j].kind == Put then Some(Entry(ops[j].id % U32, ops[j].datalen, ops[j].data)) else None
  }

  /** What operation `i` has to report: a GET the data of the last write, a DEL whether there was one. */
  ghost predicate LastReply(ops: seq<Op>, i: nat, r: Reply)
    requires i < |ops|
  {
    var op := ops[i];
    && (op.kind == Put ==> r.ret == 0)
    && (op.kind != Put && NeverWritten(ops, i, op.key) ==> r.ret == -1)
    && forall j: nat :: LastWrite(ops, i, op.key, j) ==>
         && (op.kind != Put ==> r.ret == if ops[j].kind == Put then 0 else -1)
         && (op.kind == Get && ops[j].kind == Put ==> r == Reply(0, ops[j].datalen, ops[j].data))
  }

  /** The map keeps the last write, also where that overwrites a stored key. */
  lemma {:induction false} LastWriteWins(ops: seq<Op>, n: nat, k: nat)
    requires n <= |ops|
    ensures LastEntry(ops, n, k, SerialEntry(ops, n, k))
  {
    if n > 0 {
      LastWriteWins(ops, n - 1, k);
      if ops[n - 1].key != k || ops[n - 1].kind == Get {
        forall j: nat | LastWrite(ops, n, k, j) ensures LastWrite(ops, n - 1, k, j) {
        }
      } else {
        assert LastWrite(ops, n, k, n - 1);
      }
    }
  }

  lemma RepliesLastWrite(ops: seq<Op>, i: nat)
    requires i < |ops|
    ensures LastReply(ops, i, SerialReply(ops, i))
  {
    LastWriteWins(ops, i, ops[i].key);
  }

  ghost predicate KeysNonZero(ops: seq<Op>) {
    forall i :: 0 <= i < |ops| ==> ops[i].key != 0
  }

  lemma {:induction false} InsertionsGrow(ops: seq<Op>, m: nat, n: nat)
    requires m <= n <= |ops|
    ensures Insertions(ops, m) <= Insertions(ops, n)
  {
    if m < n {
      InsertionsGrow(ops, m, n - 1);
    }
  }

  /** The serial program: one thread takes the operations in order. It stops early only at an insertion
      whose assertions fail, and not at all when there are fewer fresh insertions than slots. */
  method RunSerial(table: Table, ops: seq<Op>) returns (replies: seq<Reply>)
    requires table.Valid() && KeysNonZero(ops)
    requires forall i :: 0 <= i < table.slots.Length ==> table.slots[i] == NEVER_USED
    modifies table, table.slots
    ensures table.Valid() && |replies| <= |ops|
    ensures forall i :: 0 <= i < |replies| ==> replies[i] == SerialReply(ops, i)
    ensures forall k: nat :: k != 0 ==> ValueOf(table.slots[..], k) == SerialEntry(ops, |replies|, k)
    ensures forall i :: 0 <= i < |replies| ==> LastReply(ops, i, replies[i])
    ensures forall k: nat :: k != 0 ==> LastEntry(ops, |replies|, k, ValueOf(table.slots[..], k))
    ensures table.slots == old(table.slots) && table.slots[..] == SlotsAfter(ops, |replies|, table.slots.Length)
    ensures |replies| < |ops| ==>
      ops[|replies|].kind == Put && SerialAborts(table.slots[..], ops[|replies|].key)
    ensures Insertions(ops, |ops|) < table.slots.Length ==> |replies| == |ops|
  {
    hide AfterOp, SerialAborts, LastReply, LastEntry, ValueOf, SpecEntry, SpecReply, NeverUsed, LiveSlots, UniqueKeys, AllReached;
    replies := [];
    var i := 0;
    ghost var slots := table.slots;
    AllNeverUsed(table.slots[..]);
    while i < |ops|
      invariant table.Valid() && table.slots == slots && 0 <= i <= |ops| && |replies| == i
      invariant forall j :: 0 <= j < i ==> replies[j] == SerialReply(ops, j)
      invariant forall k: nat :: k != 0 ==> ValueOf(table.slots[..], k) == SerialEntry(ops, i, k)
      invariant table.slots[..] == SlotsAfter(ops, i, slots.Length)
      invariant |NeverUsed(table.slots[..])| >= table.slots.Length - Insertions(ops, i)
    {
      InsertionsGrow(ops, i + 1, |ops|);
      EnoughRoom(table.slots[..], ops[i].key);
      var reply := table.Process(ops[i]);
      if reply.None? {
        AllLast(ops, replies, table.slots[..]);
        return;
      }
      replies := replies + [reply.value];
      i := i + 1;
    }
    AllLast(ops, replies, table.slots[..]);
  }

  lemma AllLast(ops: seq<Op>, replies: seq<Reply>, t: seq<Slot>)
    requires |replies| <= |ops|
    requires forall i :: 0 <= i < |replies| ==> replies[i] == SerialReply(ops, i)
    requires forall k: nat :: k != 0 ==> ValueOf(t, k) == SerialEntry(ops, |replies|, k)
    ensures forall i :: 0 <= i < |replies| ==> LastReply(ops, i, replies[i])
    ensures forall k: nat :: k != 0 ==> LastEntry(ops, |replies|, k, ValueOf(t, k))
  {
    hide LastReply, LastEntry, SerialReply, SerialEntry, ValueOf;
    forall i | 0 <= i < |replies| ensures LastReply(ops, i, replies[i]) {
      RepliesLastWrite(ops, i);
    }
    forall k: nat | k != 0 ensures LastEntry(ops, |replies|, k, ValueOf(t, k)) {
      LastWriteWins(ops, |replies|, k);
    }
  }

  /** With a never-used slot an overwrite succeeds, and with two an insertion does. */
  lemma EnoughRoom(t: seq<Slot>, key: nat)
    requires TableOk(t) && key != 0
    ensures |NeverUsed(t)| > (if ValueOf(t, key).None? then 1 else 0) ==> !SerialAborts(t, key)
  {
    if SerialAborts(t, key) && NeverUsed(t) != {} {
      var i :| i in NeverUsed(t);
      assert !Occupied(t[i]) && OnlyBeforeHome(t, key);
      var h := HashFunc(key, |t|);
      var only: set<nat> := {h - 1};
      assert NeverUsed(t) == only && |only| == 1;
      assert forall j :: 0 <= j < |t| ==> t[j].key != key;
    }
  }

  /** The assertion `ctr != hashval - 1` can fail although a slot is free: the only free slot is the one
      before the home slot. The parallel program stores the key there. */
  lemma SerialCanAbort()
    ensures var t := [NEVER_USED, Slot(1, 0, 3, 0)];
      TableOk(t) && CanStore(t, 5) && SerialAborts(t, 5)
  {
    var t := [NEVER_USED, Slot(1, 0, 3, 0)];
    assert HashFunc(3, 2) == 1 && HashFunc(5, 2) == 1;
    assert Reached(t, 0) && Reached(t, 1);
    assert !Occupied(t[0]);
  }

  lemma AllNeverUsed(t: seq<Slot>)
    requires forall i :: 0 <= i < |t| ==> t[i] == NEVER_USED
    ensures |NeverUsed(t)| == |t|
    ensures forall k: nat :: k != 0 ==> ValueOf(t, k) == None
  {
    NeverUsedCount(t);
  }

  lemma {:induction false} NeverUsedCount(t: seq<Slot>)
    requires forall i :: 0 <= i < |t| ==> t[i] == NEVER_USED
    ensures |NeverUsed(t)| == |t|
  {
    if t == [] {
      assert NeverUsed(t) == {};
    } else {
      var u := t[..|t| - 1];
      NeverUsedCount(u);
      assert NeverUsed(t) == NeverUsed(u) + {|t| - 1};
    }
  }

  lemma RoomLeft(t: seq<Slot>)
    requires |NeverUsed(t)| > 0
    ensures forall key :: CanStore(t, key)
  {
    var i :| i in NeverUsed(t);
  }

  /** Live and never-used slots are different slots of the table. */
  lemma {:induction false} UsedBelowSize(t: seq<Slot>)
    ensures |LiveSlots(t)| + |NeverUsed(t)| <= |t|
  {
    if t == [] {
      assert LiveSlots(t) == {} && NeverUsed(t) == {};
    } else {
      var last := |t| - 1;
      UsedBelowSize(t[..last]);
      assert LiveSlots(t) - {last} == LiveSlots(t[..last]);
      assert NeverUsed(t) - {last} == NeverUsed(t[..last]);
      WithoutOne(LiveSlots(t), last);
      WithoutOne(NeverUsed(t), last);
    }
  }
}
