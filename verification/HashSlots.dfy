/** Open addressing with linear probing and tombstones: slots, probe order and the table
    invariant, shared by the serial and the parallel program. */
module HashSlots {
  import opened Options

  const U32: nat := 0x1_0000_0000

  /** The id that marks a deleted slot: (unsigned) -1. */
  const TOMB_ID: nat := U32 - 1

  /** One slot; `key` 0 means no live entry. `data` stands for the data pointer. */
  datatype Slot = Slot(id: nat, datalen: nat, key: nat, data: nat)

  const NEVER_USED: Slot := Slot(0, 0, 0, 0)
  const TOMBSTONE: Slot := Slot(TOMB_ID, 0, 0, 0)

  datatype Kind = Put | Get | Del

  datatype Op = Op(id: nat, key: nat, kind: Kind, datalen: nat, data: nat)

  /** What the table stores for a key. */
  datatype Entry = Entry(id: nat, datalen: nat, data: nat)

  /** What one operation reports: its return code, and for a successful look-up the stored data. */
  datatype Reply = Reply(ret: int, datalen: nat, data: nat)

  function HashFunc(key: nat, size: nat): (h: nat)
    requires size > 0
    ensures h < size
  {
    (key / U32 + key % U32) % size
  }

  /** The probe loops walk on over live slots and tombstones. */
  predicate Occupied(e: Slot) {
    e.key != 0 || e.id == TOMB_ID
  }

  function StoredBy(op: Op): Slot {
    Slot(op.id % U32, op.datalen, op.key, op.data)
  }

  function EntryOf(e: Slot): Entry {
    Entry(e.id, e.datalen, e.data)
  }

  // ---------------------------------------------------------------- probe order

  /** The next counter. */
  function Next(c: nat, n: nat): (r: nat)
    requires c < n
    ensures r < n
  {
    if c + 1 == n then 0 else c + 1
  }

  /** It is (ctr + 1) % table_size. */
  lemma NextIsModulo(c: nat, n: nat)
    requires c < n
    ensures Next(c, n) == (c + 1) % n
  {
    if c + 1 < n {
      assert (c + 1) / n == 0;
    }
  }

  /** Slot `j` comes strictly before `c` on the cyclic walk that starts at `h`. */
  predicate Before(h: nat, j: nat, c: nat) {
    if h <= c then h <= j < c else h <= j || j < c
  }

  /** The slots a probe at `c` has left behind; `moved` is the flag cnt of the loops. */
  predicate Passed(h: nat, c: nat, moved: bool, j: nat) {
    (moved && c == h) || Before(h, j, c)
  }

  lemma PassedNext(h: nat, c: nat, moved: bool, n: nat, j: nat)
    requires h < n && c < n && j < n && (c != h || !moved)
    ensures Passed(h, Next(c, n), true, j) <==> Passed(h, c, moved, j) || j == c
  {
  }

  /** The number of slots still ahead of a probe. */
  function Ahead(h: nat, c: nat, moved: bool, n: nat): nat
    requires h < n && c < n
  {
    if moved && c == h then 0 else if c >= h then n - (c - h) else h - c
  }

  lemma AheadNext(h: nat, c: nat, moved: bool, n: nat)
    requires h < n && c < n && (c != h || !moved)
    ensures Ahead(h, Next(c, n), true, n) < Ahead(h, c, moved, n) <= n
  {
  }

  // ---------------------------------------------------------------- the table invariant

  /** No two slots hold one live key. */
  ghost predicate UniqueKeys(t: seq<Slot>) {
    forall i, j :: 0 <= i < j < |t| && t[i].key != 0 ==> t[i].key != t[j].key
  }

  /** Every live key is reached from its home slot through occupied slots only. */
  ghost predicate Reached(t: seq<Slot>, i: nat)
    requires i < |t|
  {
    t[i].key != 0 ==> forall j :: 0 <= j < |t| && Before(HashFunc(t[i].key, |t|), j, i) ==> Occupied(t[j])
  }

  ghost predicate AllReached(t: seq<Slot>) {
    forall i :: 0 <= i < |t| ==> Reached(t, i)
  }

  ghost predicate TableOk(t: seq<Slot>) {
    |t| > 0 && UniqueKeys(t) && AllReached(t)
  }

  /** The meaning of the table: the entry of key `k`, if it is live. */
  ghost function ValueOf(t: seq<Slot>, k: nat): Option<Entry> {
    if i :| 0 <= i < |t| && t[i].key == k then Some(EntryOf(t[i])) else None
  }

  lemma ValueAt(t: seq<Slot>, i: nat, k: nat)
    requires UniqueKeys(t) && i < |t| && t[i].key == k && k != 0
    ensures ValueOf(t, k) == Some(EntryOf(t[i]))
  {
  }

  /** The live slots; the program counts them in `used`. */
  ghost function LiveSlots(t: seq<Slot>): set<nat> {
    set i: nat | i < |t| && t[i].key != 0
  }

  // ---------------------------------------------------------------- probing

  /** The guard of the probe loops. */
  predicate GoesOn(e: Slot, key: nat, h: nat, c: nat, moved: bool) {
    Occupied(e) && e.key != key && (c != h || !moved)
  }

  /** All slots passed so far are occupied by other keys or tombstones. */
  ghost predicate ProbeOk(t: seq<Slot>, key: nat, c: nat, moved: bool) {
    && 0 <= c < |t|
    && (!moved ==> c == HashFunc(key, |t|))
    && forall j :: 0 <= j < |t| && Passed(HashFunc(key, |t|), c, moved, j) ==> Occupied(t[j]) && t[j].key != key
  }

  /** A probe that stops without meeting its key proves that the key is not stored. */
  lemma StopsMissing(t: seq<Slot>, key: nat, c: nat, moved: bool)
    requires TableOk(t) && key != 0 && ProbeOk(t, key, c, moved)
    requires !GoesOn(t[c], key, HashFunc(key, |t|), c, moved) && t[c].key != key
    ensures forall i :: 0 <= i < |t| ==> t[i].key != key
  {
    var h := HashFunc(key, |t|);
    forall i | 0 <= i < |t| ensures t[i].key != key {
      assert Reached(t, i);
      assert Passed(h, c, moved, i) || i == c || Before(h, c, i);
    }
  }

  lemma ProbeStep(t: seq<Slot>, key: nat, c: nat, moved: bool)
    requires ProbeOk(t, key, c, moved) && GoesOn(t[c], key, HashFunc(key, |t|), c, moved)
    ensures ProbeOk(t, key, Next(c, |t|), true)
  {
    var h := HashFunc(key, |t|);
    forall j | 0 <= j < |t| && Passed(h, Next(c, |t|), true, j) ensures Occupied(t[j]) && t[j].key != key {
      PassedNext(h, c, moved, |t|, j);
    }
  }

  // ---------------------------------------------------------------- the end of a probe

  /** The content of the slot after the operation ends there. */
  function SlotAfter(op: Op, e: Slot): Slot {
    match op.kind
    case Get => e
    case Put => StoredBy(op)
    case Del => if e.key == op.key then TOMBSTONE else e
  }

  function ReplyAt(op: Op, e: Slot): Reply {
    match op.kind
    case Get => if e.key == op.key then Reply(0, e.datalen, e.data) else Reply(-1, 0, 0)
    case Put => Reply(0, 0, 0)
    case Del => Reply(if e.key == op.key then 0 else -1, 0, 0)
  }

  function UsedChange(op: Op, e: Slot): int {
    match op.kind
    case Get => 0
    case Put => if e.key == op.key then 0 else 1
    case Del => if e.key == op.key then -1 else 0
  }

  /** The specification: put, get and remove on a finite map from keys to entries. */
  function SpecEntry(op: Op, v: Option<Entry>): Option<Entry> {
    match op.kind
    case Get => v
    case Put => Some(Entry(op.id % U32, op.datalen, op.data))
    case Del => None
  }

  function SpecReply(op: Op, v: Option<Entry>): Reply {
    match op.kind
    case Get => if v.Some? then Reply(0, v.value.datalen, v.value.data) else Reply(-1, 0, 0)
    case Put => Reply(0, 0, 0)
    case Del => Reply(if v.Some? then 0 else -1, 0, 0)
  }

  /** The probe of `op` ends at slot `c`; an insertion must have found its key or a slot without a live key. */
  ghost predicate EndsAt(t: seq<Slot>, op: Op, c: nat, moved: bool) {
    && op.key != 0
    && ProbeOk(t, op.key, c, moved)
    && !GoesOn(t[c], op.key, HashFunc(op.key, |t|), c, moved)
    && (op.kind == Put && t[c].key != op.key ==> t[c].key == 0)
  }

  /** Slots only ever become more occupied: never used, then live, then tombstone or live again. */
  lemma SlotAfterOccupied(t: seq<Slot>, op: Op, c: nat, moved: bool)
    requires EndsAt(t, op, c, moved)
    ensures Occupied(t[c]) ==> Occupied(SlotAfter(op, t[c]))
    ensures SlotAfter(op, t[c]).key == 0 || SlotAfter(op, t[c]).key == op.key
            || SlotAfter(op, t[c]) == t[c]
  {
  }

  lemma EndKeepsUnique(t: seq<Slot>, op: Op, c: nat, moved: bool)
    requires TableOk(t) && EndsAt(t, op, c, moved)
    ensures UniqueKeys(t[c := SlotAfter(op, t[c])])
  {
    if t[c].key != op.key {
      StopsMissing(t, op.key, c, moved);
    }
  }

  lemma EndKeepsReached(t: seq<Slot>, op: Op, c: nat, moved: bool)
    requires TableOk(t) && EndsAt(t, op, c, moved)
    ensures AllReached(t[c := SlotAfter(op, t[c])])
  {
    var u := t[c := SlotAfter(op, t[c])];
    SlotAfterOccupied(t, op, c, moved);
    forall i | 0 <= i < |t| ensures Reached(u, i) {
      assert Reached(t, i);
      if i == c && u[c].key != 0 && u[c] != t[c] {
        forall j | 0 <= j < |t| && Before(HashFunc(op.key, |t|), j, c) ensures Occupied(u[j]) {
          assert Passed(HashFunc(op.key, |t|), c, moved, j);
        }
      }
    }
  }

  lemma EndValue(t: seq<Slot>, op: Op, c: nat, moved: bool)
    requires TableOk(t) && EndsAt(t, op, c, moved)
    ensures ReplyAt(op, t[c]) == SpecReply(op, ValueOf(t, op.key))
    ensures ValueOf(t[c := SlotAfter(op, t[c])], op.key) == SpecEntry(op, ValueOf(t, op.key))
    ensures op.kind == Put ==> ValueOf(t[c := SlotAfter(op, t[c])], op.key) == Some(Entry(op.id % U32, op.datalen, op.data))
    ensures op.kind == Del ==> ValueOf(t[c := SlotAfter(op, t[c])], op.key) == None
  {
    var u := t[c := SlotAfter(op, t[c])];
    EndKeepsUnique(t, op, c, moved);
    if t[c].key == op.key {
      ValueAt(t, c, op.key);
      OnlyThere(t, c);
    } else {
      StopsMissing(t, op.key, c, moved);
    }
    if u[c].key == op.key {
      ValueAt(u, c, op.key);
    }
  }

  lemma OnlyThere(t: seq<Slot>, c: nat)
    requires UniqueKeys(t) && c < |t| && t[c].key != 0
    ensures forall i :: 0 <= i < |t| && i != c ==> t[i].key != t[c].key
  {
  }

  lemma EndOthers(t: seq<Slot>, op: Op, c: nat, moved: bool, k: nat)
    requires TableOk(t) && EndsAt(t, op, c, moved) && k != 0 && k != op.key
    ensures ValueOf(t[c := SlotAfter(op, t[c])], k) == ValueOf(t, k)
  {
    var u := t[c := SlotAfter(op, t[c])];
    EndKeepsUnique(t, op, c, moved);
    if i :| 0 <= i < |t| && t[i].key == k {
      ValueAt(t, i, k);
      ValueAt(u, i, k);
    } else {
      assert forall i :: 0 <= i < |u| ==> u[i].key != k;
    }
  }

  lemma EndCount(t: seq<Slot>, op: Op, c: nat, moved: bool)
    requires EndsAt(t, op, c, moved)
    ensures |LiveSlots(t[c := SlotAfter(op, t[c])])| == |LiveSlots(t)| + UsedChange(op, t[c])
  {
    var x := SlotAfter(op, t[c]);
    LiveElsewhere(t, c, x);
    WithoutOne(LiveSlots(t[c := x]), c);
    WithoutOne(LiveSlots(t), c);
  }

  lemma LiveElsewhere(t: seq<Slot>, c: nat, x: Slot)
    requires c < |t|
    ensures LiveSlots(t) - {c} == LiveSlots(t[c := x]) - {c}
  {
  }

  lemma WithoutOne(s: set<nat>, c: nat)
    ensures |s| == |s - {c}| + if c in s then 1 else 0
  {
    if c !in s {
      assert s - {c} == s;
    }
  }
}
