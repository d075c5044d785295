/** The descriptor system calls, proved against what they mean for the slots alone. */
module DescriptorTable {
  import opened Options
  import opened FileObjects

  // ---------------------------------------------------------------- what the calls mean

  /** What opening a file needs to know of its inode. */
  datatype Inode = Inode(mode: nat, size: nat)

  /** The arguments of open, and what the file system answers: the inode of that name, if there is one, and the
      one it creates, if it can. */
  datatype Request = Request(nameLength: nat, flags: nat, found: Option<Inode>, created: Option<Inode>)

  const FILE_SIZE: nat := 4096

  predicate Bit(flags: nat, b: nat)
    requires b > 0
  {
    flags / b % 2 == 1
  }

  /** The inode that an open refers to: O_CREAT asks for a new name, and otherwise the name must exist. */
  function Target(q: Request): Option<Inode> {
    if Bit(q.flags, 8) then if q.found.None? then q.created else None else q.found
  }

  /** The checks before a descriptor is taken: the name, the inode, its size, and both permission bits. */
  predicate Accepted(q: Request) {
    && q.nameLength < 256
    && Target(q).Some?
    && Target(q).value.size <= FILE_SIZE
    && (Bit(q.flags, 1) ==> Bit(Target(q).value.mode, 1))
    && (Bit(q.flags, 2) ==> Bit(Target(q).value.mode, 2))
  }

  datatype Command =
    | Start(p: nat)
    | Open(p: nat, request: Request)
    | MakePipe(p: nat)
    | Dup(p: nat, oldFd: int)
    | Dup2(p: nat, oldFd: int, newFd: int)
    | Close(p: nat, fd: nat)
    | Fork(p: nat, child: nat)
    | Exit(p: nat)

  /** NoValue: do_close ends without a return statement, so what the caller gets is undefined. */
  datatype Answer = Fd(fd: nat) | Ends(r: nat, w: nat) | Ok | NoValue | Error

  /** The least unused descriptor at or above `from`, or 32. */
  ghost predicate FirstFree(slots: Slots, p: nat, from: nat, fd: nat) {
    && from <= fd <= MAX_OPEN
    && (forall x :: from <= x < fd ==> Slot(p, x) in slots)
    && (fd < MAX_OPEN ==> Slot(p, fd) !in slots)
  }

  ghost predicate NewObject(slots: Slots, f: nat) {
    forall s :: s in slots ==> slots[s] != f
  }

  /** The slots of `p` below `limit`, as slots of `c`. */
  function CopyBelow(slots: Slots, p: nat, c: nat, limit: nat): Slots {
    map x: nat | x < limit && Slot(p, x) in slots :: Slot(c, x) := slots[Slot(p, x)]
  }

  function WithoutBelow(slots: Slots, p: nat, limit: nat): Slots {
    map s | s in slots && !(s.proc == p && s.fd < limit) :: slots[s]
  }

  predicate NoSlots(slots: Slots, p: nat) {
    forall s :: s in slots ==> s.proc != p
  }

  ghost predicate Started(a: Slots, p: nat, x: nat, y: nat, z: nat, b: Slots) {
    && NewObject(a, x) && NewObject(a, y) && NewObject(a, z) && x != y && x != z && y != z
    && b == a[Slot(p, 0) := x][Slot(p, 1) := y][Slot(p, 2) := z]
  }

  ghost predicate Opened(a: Slots, p: nat, fd: nat, f: nat, b: Slots) {
    FirstFree(a, p, 3, fd) && fd < MAX_OPEN && NewObject(a, f) && b == a[Slot(p, fd) := f]
  }

  ghost predicate Piped(a: Slots, p: nat, r: nat, w: nat, f: nat, g: nat, b: Slots) {
    && FirstFree(a, p, 3, r) && FirstFree(a, p, r + 1, w) && w < MAX_OPEN
    && NewObject(a, f) && NewObject(a, g) && f != g
    && b == a[Slot(p, r) := f][Slot(p, w) := g]
  }

  /** Fewer than two unused descriptors from 3 on. */
  ghost predicate NoTwoFree(a: Slots, p: nat, r: nat) {
    FirstFree(a, p, 3, r) && (r == MAX_OPEN || FirstFree(a, p, r + 1, MAX_OPEN))
  }

  predicate IsOpen(a: Slots, p: nat, fd: int) {
    0 <= fd < MAX_OPEN && Slot(p, fd) in a
  }

  /** One system call on the slots: nothing is said about counts, they follow. */
  ghost predicate SlotStep(a: Slots, c: Command, ans: Answer, b: Slots) {
    match c
    case Start(p) => ans == Ok && exists x: nat, y: nat, z: nat :: Started(a, p, x, y, z, b)
    case Open(p, request) =>
      if Accepted(request) && !FirstFree(a, p, 3, MAX_OPEN)
      then exists fd: nat, f: nat :: Opened(a, p, fd, f, b) && ans == Fd(fd)
      else ans == Error && b == a
    case MakePipe(p) =>
      if exists r: nat :: NoTwoFree(a, p, r) then ans == Error && b == a
      else exists r: nat, w: nat, f: nat, g: nat :: Piped(a, p, r, w, f, g, b) && ans == Ends(r, w)
    case Dup(p, oldFd) =>
      if IsOpen(a, p, oldFd) && !FirstFree(a, p, 0, MAX_OPEN)
      then exists fd: nat :: FirstFree(a, p, 0, fd) && ans == Fd(fd) && b == a[Slot(p, fd) := a[Slot(p, oldFd)]]
      else ans == Error && b == a
    case Dup2(p, oldFd, newFd) =>
      if IsOpen(a, p, oldFd) && 0 <= newFd < MAX_OPEN
      then ans == Fd(newFd) && b == a[Slot(p, newFd) := a[Slot(p, oldFd)]]
      else ans == Error && b == a
    case Close(p, fd) =>
      if Slot(p, fd) in a then ans == NoValue && b == a - {Slot(p, fd)} else ans == Error && b == a
    case Fork(p, child) => ans == Ok && b == a + CopyBelow(a, p, child, MAX_OPEN)
    case Exit(p) => ans == Ok && b == WithoutBelow(a, p, MAX_OPEN)
  }

  /** What a descriptor refers to: an object of this kind, and for an end of a pipe, that pipe. */
  ghost predicate RefersTo(st: Files, s: Slot, k: Kind, q: nat) {
    && s in st.slots && st.slots[s] in st.files && st.files[st.slots[s]].kind == k
    && (k == ReadEnd || k == WriteEnd ==> st.files[st.slots[s]].pipe == q)
  }

  /** What new descriptors refer to. */
  ghost predicate NewKinds(st: Files, c: Command, ans: Answer, u: Files) {
    match c
    case Start(p) => forall fd :: 0 <= fd < 3 ==> RefersTo(u, Slot(p, fd), Standard, 0)
    case Open(p, _) => ans.Fd? ==> RefersTo(u, Slot(p, ans.fd), Regular, 0)
    case MakePipe(p) => ans.Ends? ==> exists q: nat ::
      q !in st.pipes && RefersTo(u, Slot(p, ans.r), ReadEnd, q) && RefersTo(u, Slot(p, ans.w), WriteEnd, q)
    case _ => u.pipes.Keys <= st.pipes.Keys
  }

  /** Objects never change their kind or their pipe. */
  ghost predicate Kept(a: map<nat, File>, b: map<nat, File>) {
    forall f :: f in a && f in b ==> a[f].kind == b[f].kind && a[f].pipe == b[f].pipe
  }

  /** One system call on the whole table. */
  ghost predicate CallStep(st: Files, c: Command, ans: Answer, u: Files) {
    SlotStep(st.slots, c, ans, u.slots) && Kept(st.files, u.files) && NewKinds(st, c, ans, u)
  }

  /** A new process has no slots yet, and descriptors passed to close lie in the array. */
  ghost predicate WellFormed(a: Slots, c: Command) {
    match c
    case Start(p) => NoSlots(a, p)
    case Fork(p, child) => NoSlots(a, child) && p != child
    case Close(_, fd) => fd < MAX_OPEN
    case _ => true
  }

  // ---------------------------------------------------------------- small facts

  lemma NewIsNew(st: Files, f: nat)
    requires Inv(st) && f !in st.files
    ensures NewObject(st.slots, f)
  {
    forall s | s in st.slots ensures st.slots[s] != f {
      Live(st, s);
    }
  }

  lemma CopyNext(a: Slots, p: nat, c: nat, i: nat)
    ensures a + CopyBelow(a, p, c, i + 1) ==
      if Slot(p, i) in a then (a + CopyBelow(a, p, c, i))[Slot(c, i) := a[Slot(p, i)]] else a + CopyBelow(a, p, c, i)
  {
  }

  lemma CopyLacks(a: Slots, p: nat, c: nat, i: nat)
    requires NoSlots(a, c)
    ensures Slot(c, i) !in a + CopyBelow(a, p, c, i)
  {
  }

  lemma WithoutNext(a: Slots, p: nat, i: nat)
    ensures WithoutBelow(a, p, i + 1) == WithoutBelow(a, p, i) - {Slot(p, i)}
    ensures Slot(p, i) in a <==> Slot(p, i) in WithoutBelow(a, p, i)
    ensures Slot(p, i) in a ==> WithoutBelow(a, p, i)[Slot(p, i)] == a[Slot(p, i)]
  {
  }

  lemma NothingDone(a: Slots, p: nat, c: nat)
    ensures a + CopyBelow(a, p, c, 0) == a && WithoutBelow(a, p, 0) == a
  {
  }

  lemma KeptSame(a: map<nat, File>)
    ensures Kept(a, a)
  {
  }

  lemma KeptThrough(a: map<nat, File>, b: map<nat, File>, c: map<nat, File>)
    requires Kept(a, b) && Kept(b, c) && c.Keys <= b.Keys
    ensures Kept(a, c)
  {
    forall f | f in a && f in c ensures a[f].kind == c[f].kind && a[f].pipe == c[f].pipe {
      assert f in b;
    }
  }

  lemma ReleaseKept(st: Files, f: nat)
    requires f in st.files
    ensures Kept(st.files, Release(st, f).files) && Release(st, f).files.Keys <= st.files.Keys
    ensures Release(st, f).pipes.Keys <= st.pipes.Keys
  {
  }

  lemma FreeIsFree(a: Slots, p: nat, from: nat, fd: nat)
    requires FirstFree(a, p, from, fd)
    ensures from <= fd <= MAX_OPEN && (fd < MAX_OPEN ==> Slot(p, fd) !in a)
  {
  }

  lemma TwoFree(a: Slots, p: nat, r: nat, w: nat)
    requires FirstFree(a, p, 3, r) && r < MAX_OPEN && FirstFree(a, p, r + 1, w) && w < MAX_OPEN
    ensures forall x: nat :: !NoTwoFree(a, p, x)
  {
  }

  lemma Shrinks(all: set<nat>, seen: set<nat>, id: nat)
    requires id in all && id !in seen
    ensures |all - (seen + {id})| < |all - seen|
  {
    assert all - seen == (all - (seen + {id})) + {id};
  }

  lemma NewBefore(a: Slots, s: Slot, x: nat, y: nat)
    requires s !in a && NewObject(a[s := x], y)
    ensures NewObject(a, y) && y != x
  {
    var b := a[s := x];
    assert b[s] == x;
    forall t | t in a ensures a[t] != y {
      assert t in b && b[t] == a[t];
    }
  }

  /** One turn of the fork loop: the child's slot `i` becomes a counted one. */
  lemma ForkOne(a: Slots, p: nat, c: nat, i: nat, files: map<nat, File>, pipes: map<nat, Pipe>, objects: int)
    requires NoSlots(a, c) && Inv(Files(a + CopyBelow(a, p, c, i), files, pipes, objects))
    ensures Slot(p, i) in a ==> a[Slot(p, i)] in files
    ensures
      var more :=
        if Slot(p, i) in a then
          var f := a[Slot(p, i)]; files[f := files[f].(refs := files[f].refs + 1)]
        else files;
      Inv(Files(a + CopyBelow(a, p, c, i + 1), more, pipes, objects))
  {
    hide CopyBelow, PipesOk;
    var st := Files(a + CopyBelow(a, p, c, i), files, pipes, objects);
    CopyNext(a, p, c, i);
    if Slot(p, i) in a {
      CopyLacks(a, p, c, i);
      CopyOthers(a, p, c, i);
      Live(st, Slot(p, i));
      AddRefKeeps(st, Slot(c, i), a[Slot(p, i)]);
    }
  }

  lemma CopyOthers(a: Slots, p: nat, c: nat, i: nat)
    requires NoSlots(a, c)
    ensures forall s :: s in a ==> (a + CopyBelow(a, p, c, i))[s] == a[s]
  {
  }

  lemma CopyAll(a: Slots, p: nat, c: nat, i: nat)
    requires NoSlots(a, c) && i < MAX_OPEN
    ensures var b := a + CopyBelow(a, p, c, MAX_OPEN);
      (Slot(c, i) in b <==> Slot(p, i) in a) && (Slot(p, i) in a ==> b[Slot(c, i)] == a[Slot(p, i)])
  {
  }

  lemma PipeCall(st: Files, p: nat, r: nat, w: nat, f: nat, g: nat, q: nat)
    requires FirstFree(st.slots, p, 3, r) && r < MAX_OPEN && FirstFree(st.slots, p, r + 1, w) && w < MAX_OPEN
    requires f !in st.files && g !in st.files && f != g && q !in st.pipes
    requires NewObject(st.slots, f) && NewObject(st.slots, g)
    ensures CallStep(st, MakePipe(p), Ends(r, w), NewPipe(st, Slot(p, r), Slot(p, w), f, g, q))
  {
    hide FirstFree, NewObject;
    var u := NewPipe(st, Slot(p, r), Slot(p, w), f, g, q);
    TwoFree(st.slots, p, r, w);
    FreeIsFree(st.slots, p, r + 1, w);
    assert Piped(st.slots, p, r, w, f, g, u.slots);
    assert RefersTo(u, Slot(p, r), ReadEnd, q) && RefersTo(u, Slot(p, w), WriteEnd, q);
  }

  lemma PipeState(st: Files, r: Slot, w: Slot, f: nat, g: nat, q: nat)
    ensures NewPipe(st, r, w, f, g, q) ==
      Files(st.slots[r := f][w := g], st.files[f := File(ReadEnd, 1, q)][g := File(WriteEnd, 1, q)],
            st.pipes[q := Pipe(true, true)], st.objects + 2)
  {
  }

  lemma NoPipe(st: Files, p: nat, r: nat)
    requires NoTwoFree(st.slots, p, r)
    ensures CallStep(st, MakePipe(p), Error, st)
  {
  }

  lemma StartCall(st: Files, p: nat, x: nat, y: nat, z: nat, u: Files)
    requires x !in st.files && y !in st.files && z !in st.files && Started(st.slots, p, x, y, z, u.slots)
    requires u.files == st.files[x := File(Standard, 1, 0)][y := File(Standard, 1, 0)][z := File(Standard, 1, 0)]
    ensures CallStep(st, Start(p), Ok, u)
  {
    hide NewObject;
  }

  // ---------------------------------------------------------------- the calls

  class Descriptors {
    var slots: Slots
    var files: map<nat, File>
    var pipes: map<nat, Pipe>
    var objects: int

    ghost function Now(): Files
      reads this
    {
      Files(slots, files, pipes, objects)
    }

    ghost predicate Valid()
      reads this
    {
      Inv(Now())
    }

    constructor ()
      ensures Valid() && slots == map[]
    {
      slots, files, pipes, objects := map[], map[], map[], 0;
    }

    /** alloc_file and alloc_pipe_info return memory that is not in use. */
    method AllocId<V>(used: map<nat, V>, other: nat) returns (id: nat)
      ensures id !in used && id != other
    {
      id := 0;
      ghost var seen := {};
      while id in used || id == other
        invariant seen <= used.Keys + {other} && forall g :: g in seen ==> g < id
        decreases |(used.Keys + {other}) - seen|
      {
        Shrinks(used.Keys + {other}, seen, id);
        seen := seen + {id};
        id := id + 1;
      }
    }

    /** The scan of files[] for an unused descriptor. */
    method FindFree(p: nat, from: nat) returns (fd: nat)
      requires from <= MAX_OPEN
      ensures FirstFree(slots, p, from, fd)
    {
      fd := from;
      while fd < MAX_OPEN && Slot(p, fd) in slots
        invariant from <= fd <= MAX_OPEN && forall x :: from <= x < fd ==> Slot(p, x) in slots
      {
        fd := fd + 1;
      }
    }

    /** generic_close: drop one reference, and free what nobody refers to any more. */
    method GenericClose(f: nat)
      requires f in files && files[f].refs > 0 && (files[f].kind.ReadEnd? || files[f].kind.WriteEnd? ==> files[f].pipe in pipes)
      modifies this`files, this`pipes, this`objects
      ensures Now() == Release(old(Now()), f)
    {
      if files[f].refs == 1 {
        if files[f].kind.ReadEnd? || files[f].kind.WriteEnd? {
          var p := files[f].pipe;
          if files[f].kind.ReadEnd? {
            pipes := pipes[p := pipes[p].(ropen := false)];
          }
          if files[f].kind.WriteEnd? {
            pipes := pipes[p := pipes[p].(wopen := false)];
          }
          if !pipes[p].wopen && !pipes[p].ropen {
            pipes := pipes - {p};
          }
        }
        files := files - {f};
        objects := objects - 1;
      } else {
        files := files[f := files[f].(refs := files[f].refs - 1)];
      }
    }

    /** do_close. */
    method CloseFd(p: nat, fd: nat) returns (ans: Answer)
      requires Valid() && fd < MAX_OPEN
      modifies this
      ensures Valid() && CallStep(old(Now()), Close(p, fd), ans, Now())
    {
      var s := Slot(p, fd);
      if s !in slots {
        return Error;
      }
      EndHasPipe(Now(), s);
      CloseKeeps(Now(), s);
      var f := slots[s];
      slots := slots - {s};
      GenericClose(f);
      ans := NoValue;
    }

    /** fd_dup. */
    method DupFd(p: nat, oldFd: int) returns (ans: Answer)
      requires Valid()
      modifies this
      ensures Valid() && CallStep(old(Now()), Dup(p, oldFd), ans, Now())
    {
      if !(0 <= oldFd < MAX_OPEN) || Slot(p, oldFd) !in slots {
        return Error;
      }
      var fd := FindFree(p, 0);
      if fd == MAX_OPEN {
        return Error;
      }
      var f := slots[Slot(p, oldFd)];
      Live(Now(), Slot(p, oldFd));
      AddRefKeeps(Now(), Slot(p, fd), f);
      slots := slots[Slot(p, fd) := f];
      files := files[f := files[f].(refs := files[f].refs + 1)];
      ans := Fd(fd);
    }

    /** fd_dup2: an open target is closed first, unless it is the same descriptor. */
    method Dup2Fd(p: nat, oldFd: int, newFd: int) returns (ans: Answer)
      requires Valid()
      modifies this
      ensures Valid() && CallStep(old(Now()), Dup2(p, oldFd, newFd), ans, Now())
    {
      hide Inv, Release;
      if !(0 <= oldFd < MAX_OPEN) || !(0 <= newFd < MAX_OPEN) || Slot(p, oldFd) !in slots {
        return Error;
      }
      var s, t := Slot(p, oldFd), Slot(p, newFd);
      if oldFd == newFd {
        assert slots[t := slots[s]] == slots;
        return Fd(newFd);
      }
      ghost var st := Now();
      if t in slots {
        EndHasPipe(Now(), t);
        CloseKeeps(Now(), t);
        ReleaseKept(st, slots[t]);
        GenericClose(slots[t]);
        st := CloseSlot(st, t);
        assert slots[t := slots[s]] == st.slots[t := slots[s]];
      }
      Live(st, s);
      AddRefKeeps(st, t, slots[s]);
      slots := slots[t := slots[s]];
      var f := slots[s];
      files := files[f := files[f].(refs := files[f].refs + 1)];
      ans := Fd(newFd);
    }

    /** The checks of do_regular_file_open. */
    method CheckOpen(q: Request) returns (accepted: bool)
      ensures accepted <==> Accepted(q)
    {
      if q.nameLength >= 256 {
        return false;
      }
      var inode := q.found;
      if Bit(q.flags, 8) {
        if inode.None? {
          inode := q.created;
          if inode.None? {
            return false;
          }
        } else {
          return false;
        }
      } else if inode.None? {
        return false;
      }
      if inode.value.size > FILE_SIZE {
        return false;
      }
      accepted := !((Bit(q.flags, 1) && !Bit(inode.value.mode, 1)) || (Bit(q.flags, 2) && !Bit(inode.value.mode, 2)));
    }

    /** do_regular_file_open. */
    method OpenRegular(p: nat, request: Request) returns (ans: Answer)
      requires Valid()
      modifies this
      ensures Valid() && CallStep(old(Now()), Open(p, request), ans, Now())
    {
      var accepted := CheckOpen(request);
      if !accepted {
        return Error;
      }
      var fd := FindFree(p, 3);
      if fd == MAX_OPEN {
        return Error;
      }
      var f := AllocId(files, 0);
      NewIsNew(Now(), f);
      NewFileKeeps(Now(), Slot(p, fd), f, Regular);
      slots := slots[Slot(p, fd) := f];
      files := files[f := File(Regular, 1, 0)];
      objects := objects + 1;
      assert Opened(old(slots), p, fd, f, slots);
      ans := Fd(fd);
    }

    /** create_pipe: two descriptors, two objects, one pipe. */
    method CreatePipe(p: nat) returns (ans: Answer)
      requires Valid()
      modifies this
      ensures Valid() && CallStep(old(Now()), MakePipe(p), ans, Now())
    {
      hide Inv, FirstFree, NewObject, NewPipe, CallStep;
      var r := FindFree(p, 3);
      FreeIsFree(slots, p, 3, r);
      if r == MAX_OPEN {
        NoPipe(Now(), p, r);
        return Error;
      }
      var w := FindFree(p, r + 1);
      FreeIsFree(slots, p, r + 1, w);
      if w == MAX_OPEN {
        NoPipe(Now(), p, r);
        return Error;
      }
      var f := AllocId(files, 0);
      var g := AllocId(files, f);
      var q := AllocId(pipes, 0);
      NewIsNew(Now(), f);
      NewIsNew(Now(), g);
      NewPipeKeeps(Now(), Slot(p, r), Slot(p, w), f, g, q);
      PipeCall(Now(), p, r, w, f, g, q);
      PipeState(Now(), Slot(p, r), Slot(p, w), f, g, q);
      slots := slots[Slot(p, r) := f][Slot(p, w) := g];
      files := files[f := File(ReadEnd, 1, q)][g := File(WriteEnd, 1, q)];
      pipes := pipes[q := Pipe(true, true)];
      objects := objects + 2;
      ans := Ends(r, w);
    }

    /** The standard descriptors of the first process. */
    method StartProcess(p: nat) returns (ans: Answer)
      requires Valid() && NoSlots(slots, p)
      modifies this
      ensures Valid() && CallStep(old(Now()), Start(p), ans, Now())
    {
      hide Inv, NewObject, CallStep;
      ghost var st := Now();
      var x := CreateStandard(p, 0);
      ghost var b := slots;
      var y := CreateStandard(p, 1);
      NewBefore(st.slots, Slot(p, 0), x, y);
      var z := CreateStandard(p, 2);
      NewBefore(b, Slot(p, 1), y, z);
      NewBefore(st.slots, Slot(p, 0), x, z);
      StartCall(st, p, x, y, z, Now());
      ans := Ok;
    }

    method CreateStandard(p: nat, fd: nat) returns (f: nat)
      requires Valid() && Slot(p, fd) !in slots
      modifies this
      ensures Valid() && slots == old(slots)[Slot(p, fd) := f] && NewObject(old(slots), f)
      ensures f !in old(files) && files == old(files)[f := File(Standard, 1, 0)]
    {
      f := AllocId(files, 0);
      NewIsNew(Now(), f);
      NewFileKeeps(Now(), Slot(p, fd), f, Standard);
      files := files[f := File(Standard, 1, 0)];
      objects := objects + 1;
      slots := slots[Slot(p, fd) := f];
    }

    /** do_file_fork, after the child has got a copy of the array. */
    method ForkFiles(p: nat, c: nat) returns (ans: Answer)
      requires Valid() && NoSlots(slots, c) && p != c
      modifies this
      ensures Valid() && CallStep(old(Now()), Fork(p, c), ans, Now())
    {
      hide Inv, CopyBelow;
      ghost var a := slots;
      NothingDone(a, p, c);
      slots := slots + CopyBelow(slots, p, c, MAX_OPEN);
      var i := 0;
      while i < MAX_OPEN
        invariant i <= MAX_OPEN && slots == a + CopyBelow(a, p, c, MAX_OPEN)
        invariant Inv(Files(a + CopyBelow(a, p, c, i), files, pipes, objects))
        invariant Kept(old(files), files) && pipes == old(pipes)
      {
        ForkOne(a, p, c, i, files, pipes, objects);
        CopyAll(a, p, c, i);
        if Slot(c, i) in slots {
          var f := slots[Slot(c, i)];
          files := files[f := files[f].(refs := files[f].refs + 1)];
        }
        i := i + 1;
      }
      ans := Ok;
    }

    /** do_file_exit. */
    method ExitFiles(p: nat) returns (ans: Answer)
      requires Valid()
      modifies this
      ensures Valid() && CallStep(old(Now()), Exit(p), ans, Now())
    {
      hide Inv, WithoutBelow, Release, Kept;
      KeptSame(files);
      ghost var a := slots;
      NothingDone(a, p, p);
      var i := 0;
      while i < MAX_OPEN
        invariant i <= MAX_OPEN && Valid() && slots == WithoutBelow(a, p, i)
        invariant Kept(old(files), files) && pipes.Keys <= old(pipes).Keys
      {
        ghost var st := Now();
        WithoutNext(a, p, i);
        var s := Slot(p, i);
        if s in slots {
          EndHasPipe(Now(), s);
          CloseKeeps(Now(), s);
          ReleaseKept(st, slots[s]);
          GenericClose(slots[s]);
          KeptThrough(old(files), st.files, files);
          slots := slots - {s};
        }
        i := i + 1;
      }
      ans := Ok;
    }

    method Perform(c: Command) returns (ans: Answer)
      requires Valid() && WellFormed(slots, c)
      modifies this
      ensures Valid() && CallStep(old(Now()), c, ans, Now())
    {
      match c
      case Start(p) => ans := StartProcess(p);
      case Open(p, request) => ans := OpenRegular(p, request);
      case MakePipe(p) => ans := CreatePipe(p);
      case Dup(p, oldFd) => ans := DupFd(p, oldFd);
      case Dup2(p, oldFd, newFd) => ans := Dup2Fd(p, oldFd, newFd);
      case Close(p, fd) => ans := CloseFd(p, fd);
      case Fork(p, child) => ans := ForkFiles(p, child);
      case Exit(p) => ans := ExitFiles(p);
    }

    /** A run: commands that are not well-formed when their turn comes are not issued. */
    method Execute(commands: seq<Command>) returns (ghost trace: seq<Files>)
      requires Valid()
      modifies this
      ensures Valid() && |trace| == |commands| + 1
      ensures trace[0] == old(Now()) && trace[|commands|] == Now()
      ensures forall i :: 0 <= i < |commands| ==> RunStep(trace[i], commands[i], trace[i + 1])
    {
      hide CallStep, Inv, WellFormed;
      trace := [Now()];
      for i := 0 to |commands|
        invariant Valid() && |trace| == i + 1 && trace[0] == old(Now()) && trace[i] == Now()
        invariant forall j :: 0 <= j < i ==> RunStep(trace[j], commands[j], trace[j + 1])
      {
        var issue := Issuable(commands[i]);
        if issue {
          var ans := Perform(commands[i]);
        }
        trace := trace + [Now()];
      }
    }

    method Issuable(c: Command) returns (yes: bool)
      ensures yes <==> WellFormed(slots, c)
    {
      match c
      case Start(p) => yes := forall s :: s in slots ==> s.proc != p;
      case Fork(p, child) => yes := p != child && forall s :: s in slots ==> s.proc != child;
      case Close(_, fd) => yes := fd < MAX_OPEN;
      case _ => yes := true;
    }
  }

  /** Every state of a run is sound, and every call does to the table what it means for the slots. */
  ghost predicate RunStep(st: Files, c: Command, u: Files) {
    && Inv(st) && Inv(u)
    && if WellFormed(st.slots, c) then exists ans :: CallStep(st, c, ans, u) else u == st
  }

  lemma EndHasPipe(st: Files, s: Slot)
    requires Inv(st) && s in st.slots
    ensures var f := st.slots[s];
      && f in st.files && st.files[f].refs > 0
      && (st.files[f].kind.ReadEnd? || st.files[f].kind.WriteEnd? ==> st.files[f].pipe in st.pipes)
  {
    Live(st, s);
    var f := st.slots[s];
    assert PipeOk(st, st.files[f].pipe);
    if st.files[f].kind.ReadEnd? || st.files[f].kind.WriteEnd? {
      assert IsEnd(st.files, f, st.files[f].pipe, st.files[f].kind);
    }
  }
}
