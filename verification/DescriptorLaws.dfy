/** What the descriptor calls mean for a process: which object each descriptor refers to afterwards, and which
    objects live, slot by slot. */
module DescriptorLaws {
  import opened Options
  import opened FileObjects
  import opened DescriptorTable

  // ---------------------------------------------------------------- reference counts

  /** The count of an object, 0 when it is not allocated. */
  function Refs(st: Files, f: nat): nat {
    if f in st.files then st.files[f].refs else 0
  }

  lemma RefsAreHolders(st: Files, f: nat)
    requires Inv(st)
    ensures Refs(st, f) == |Holders(st.slots, f)| && (f in st.files <==> Refs(st, f) > 0)
  {
    hide PipesOk;
    assert Counted(st.slots, st.files, f);
  }

  lemma Referred(st: Files, s: Slot)
    requires Inv(st) && s in st.slots
    ensures st.slots[s] in st.files && Refs(st, st.slots[s]) > 0
  {
    hide PipesOk;
    Live(st, s);
  }

  lemma RefsFollow(st: Files, u: Files, f: nat)
    requires Inv(st) && Inv(u) && Holders(u.slots, f) == Holders(st.slots, f)
    ensures Refs(u, f) == Refs(st, f)
  {
    hide Inv, Holders;
    RefsAreHolders(st, f);
    RefsAreHolders(u, f);
  }

  /** All slots but `s` are as before. */
  ghost predicate Elsewhere(a: Slots, b: Slots, s: Slot) {
    forall t :: t != s ==> (t in b <==> t in a) && (t in a ==> b[t] == a[t])
  }

  /** Slot `s` stopped referring to what it referred to, if anything, and now refers to `target`, if given. */
  lemma OneSlotChanged(st: Files, u: Files, s: Slot, target: Option<nat>, g: nat)
    requires Inv(st) && Inv(u) && Elsewhere(st.slots, u.slots, s)
    requires if target.Some? then s in u.slots && u.slots[s] == target.value else s !in u.slots
    ensures Refs(u, g) + (if s in st.slots && st.slots[s] == g then 1 else 0)
      == Refs(st, g) + if target == Some(g) then 1 else 0
  {
    hide Inv, Refs, Elsewhere, Holders;
    RefsAreHolders(st, g);
    RefsAreHolders(u, g);
    HoldersElsewhere(st.slots, u.slots, s, g);
    WithAndWithout(Holders(st.slots, g), s);
    WithAndWithout(Holders(u.slots, g), s);
  }

  lemma HoldersElsewhere(a: Slots, b: Slots, s: Slot, g: nat)
    requires Elsewhere(a, b, s)
    ensures Holders(a, g) - {s} == Holders(b, g) - {s}
    ensures s in Holders(a, g) <==> s in a && a[s] == g
    ensures s in Holders(b, g) <==> s in b && b[s] == g
  {
  }

  lemma WithAndWithout(h: set<Slot>, s: Slot)
    ensures |h| == |h - {s}| + if s in h then 1 else 0
  {
    if s !in h {
      assert h - {s} == h;
    }
  }

  // ---------------------------------------------------------------- close and dup

  /** close takes one reference from one object and touches no other descriptor. */
  lemma CloseForgets(st: Files, p: nat, fd: nat, ans: Answer, u: Files)
    requires Inv(st) && Inv(u) && CallStep(st, Close(p, fd), ans, u)
    ensures Slot(p, fd) !in u.slots && Elsewhere(st.slots, u.slots, Slot(p, fd))
    ensures ans == if Slot(p, fd) in st.slots then NoValue else Error
    ensures forall g :: Refs(st, g) == Refs(u, g) + if Slot(p, fd) in st.slots && st.slots[Slot(p, fd)] == g then 1 else 0
  {
    hide Inv, Refs;
    forall g ensures Refs(st, g) == Refs(u, g) + if Slot(p, fd) in st.slots && st.slots[Slot(p, fd)] == g then 1 else 0 {
      OneSlotChanged(st, u, Slot(p, fd), None, g);
    }
  }

  /** dup gives the least free descriptor a second reference to the object, and fails exactly when the old
      descriptor is not open or none is free. */
  lemma DupShares(st: Files, p: nat, oldFd: int, ans: Answer, u: Files)
    requires Inv(st) && Inv(u) && CallStep(st, Dup(p, oldFd), ans, u)
    ensures ans.Fd? <==> 0 <= oldFd < MAX_OPEN && Slot(p, oldFd) in st.slots && exists x: nat :: x < MAX_OPEN && Slot(p, x) !in st.slots
    ensures !ans.Fd? ==> ans == Error && u.slots == st.slots
    ensures ans.Fd? ==>
      && ans.fd < MAX_OPEN && Slot(p, ans.fd) !in st.slots && (forall x: nat :: x < ans.fd ==> Slot(p, x) in st.slots)
      && Slot(p, ans.fd) in u.slots && u.slots[Slot(p, ans.fd)] == st.slots[Slot(p, oldFd)]
      && Elsewhere(st.slots, u.slots, Slot(p, ans.fd))
      && forall g :: Refs(u, g) == Refs(st, g) + if g == st.slots[Slot(p, oldFd)] then 1 else 0
  {
    hide Inv, Refs;
    if ans.Fd? {
      var f := st.slots[Slot(p, oldFd)];
      forall g ensures Refs(u, g) == Refs(st, g) + if g == f then 1 else 0 {
        OneSlotChanged(st, u, Slot(p, ans.fd), Some(f), g);
      }
    } else if x: nat :| x < MAX_OPEN && Slot(p, x) !in st.slots {
      assert !FirstFree(st.slots, p, 0, MAX_OPEN);
    }
  }

  /** dup2 moves the target from its old object, if it had one, to that of the old descriptor. */
  lemma Dup2Moves(st: Files, p: nat, oldFd: int, newFd: int, ans: Answer, u: Files)
    requires Inv(st) && Inv(u) && CallStep(st, Dup2(p, oldFd, newFd), ans, u)
    ensures ans.Fd? <==> 0 <= oldFd < MAX_OPEN && Slot(p, oldFd) in st.slots && 0 <= newFd < MAX_OPEN
    ensures !ans.Fd? ==> ans == Error && u.slots == st.slots
    ensures ans.Fd? ==>
      var s, t := Slot(p, oldFd), Slot(p, newFd);
      && ans.fd == newFd && t in u.slots && u.slots[t] == st.slots[s] && Elsewhere(st.slots, u.slots, t)
      && forall g :: Refs(u, g) + (if t in st.slots && st.slots[t] == g then 1 else 0)
                     == Refs(st, g) + if g == st.slots[s] then 1 else 0
  {
    hide Inv, Refs;
    if ans.Fd? {
      var s, t := Slot(p, oldFd), Slot(p, newFd);
      forall g ensures Refs(u, g) + (if t in st.slots && st.slots[t] == g then 1 else 0)
                       == Refs(st, g) + if g == st.slots[s] then 1 else 0
      {
        OneSlotChanged(st, u, t, Some(st.slots[s]), g);
      }
    }
  }

  // ---------------------------------------------------------------- new objects

  lemma NewMeansUnallocated(st: Files, f: nat)
    requires Inv(st) && NewObject(st.slots, f)
    ensures f !in st.files
  {
    RefsAreHolders(st, f);
    assert Holders(st.slots, f) == {};
  }

  /** open gives the least free descriptor from 3 on the only reference to a new regular object. */
  lemma OpenIsNew(st: Files, p: nat, request: Request, ans: Answer, u: Files)
    requires Inv(st) && Inv(u) && CallStep(st, Open(p, request), ans, u)
    ensures ans.Fd? <==> Accepted(request) && exists x: nat :: 3 <= x < MAX_OPEN && Slot(p, x) !in st.slots
    ensures !ans.Fd? ==> ans == Error && u.slots == st.slots
    ensures ans.Fd? ==>
      var t := Slot(p, ans.fd);
      && 3 <= ans.fd < MAX_OPEN && t !in st.slots && (forall x: nat :: 3 <= x < ans.fd ==> Slot(p, x) in st.slots)
      && t in u.slots && u.slots[t] !in st.files && Elsewhere(st.slots, u.slots, t)
      && u.slots[t] in u.files && u.files[u.slots[t]].kind == Regular && u.files[u.slots[t]].refs == 1
  {
    hide Inv, Accepted;
    if ans.Fd? {
      var fd: nat, f: nat :| Opened(st.slots, p, fd, f, u.slots) && ans == Fd(fd);
      NewMeansUnallocated(st, f);
      OneSlotChanged(st, u, Slot(p, fd), Some(f), f);
    } else if x: nat :| 3 <= x < MAX_OPEN && Slot(p, x) !in st.slots {
      assert !FirstFree(st.slots, p, 3, MAX_OPEN);
    }
  }

  /** pipe gives the two least free descriptors from 3 on the two ends of one new pipe; it fails exactly when
      fewer than two are free. */
  lemma PipeConnects(st: Files, p: nat, ans: Answer, u: Files)
    requires Inv(st) && Inv(u) && CallStep(st, MakePipe(p), ans, u)
    ensures ans.Ends? || (ans == Error && u.slots == st.slots)
    ensures ans.Ends? <==> exists x: nat, y: nat :: 3 <= x < y < MAX_OPEN && Slot(p, x) !in st.slots && Slot(p, y) !in st.slots
    ensures ans.Ends? ==>
      var s, t := Slot(p, ans.r), Slot(p, ans.w);
      && 3 <= ans.r < ans.w < MAX_OPEN && s !in st.slots && t !in st.slots
      && (forall x: nat :: 3 <= x < ans.w && x != ans.r ==> Slot(p, x) in st.slots)
      && (forall x :: x != s && x != t ==> (x in u.slots <==> x in st.slots) && (x in st.slots ==> u.slots[x] == st.slots[x]))
      && s in u.slots && t in u.slots && u.slots[s] != u.slots[t] && u.slots[s] !in st.files && u.slots[t] !in st.files
      && exists q: nat :: q !in st.pipes && RefersTo(u, s, ReadEnd, q) && RefersTo(u, t, WriteEnd, q)
  {
    hide Inv, RefersTo;
    if ans.Ends? {
      var r: nat, w: nat, f: nat, g: nat :| Piped(st.slots, p, r, w, f, g, u.slots) && ans == Ends(r, w);
      NewMeansUnallocated(st, f);
      NewMeansUnallocated(st, g);
      assert 3 <= r < w && Slot(p, r) !in st.slots && Slot(p, w) !in st.slots;
    } else if x: nat, y: nat :| 3 <= x < y < MAX_OPEN && Slot(p, x) !in st.slots && Slot(p, y) !in st.slots {
      TwoUnused(st.slots, p, x, y);
    }
  }

  lemma TwoUnused(a: Slots, p: nat, x: nat, y: nat)
    requires 3 <= x < y < MAX_OPEN && Slot(p, x) !in a && Slot(p, y) !in a
    ensures forall r: nat :: !NoTwoFree(a, p, r)
  {
  }

  /** A new process has exactly the descriptors 0 to 2, on three new standard objects. */
  lemma StartHasThree(st: Files, p: nat, ans: Answer, u: Files)
    requires Inv(st) && Inv(u) && CallStep(st, Start(p), ans, u) && WellFormed(st.slots, Start(p))
    ensures forall s: Slot :: s.proc == p ==> (s in u.slots <==> s.fd < 3)
    ensures forall s: Slot :: s.proc != p ==> (s in u.slots <==> s in st.slots) && (s in st.slots ==> u.slots[s] == st.slots[s])
    ensures forall i: nat, j: nat :: i < j < 3 ==> u.slots[Slot(p, i)] != u.slots[Slot(p, j)]
    ensures forall i: nat :: i < 3 ==> RefersTo(u, Slot(p, i), Standard, 0) && u.slots[Slot(p, i)] !in st.files
  {
    hide Inv, RefersTo;
    var x: nat, y: nat, z: nat :| Started(st.slots, p, x, y, z, u.slots);
    NewMeansUnallocated(st, x);
    NewMeansUnallocated(st, y);
    NewMeansUnallocated(st, z);
  }

  // ---------------------------------------------------------------- fork

  /** After fork every descriptor of the child refers to what the parent's refers to, and nothing else changes. */
  lemma ForkShares(st: Files, p: nat, c: nat, ans: Answer, u: Files)
    requires Inv(st) && Inv(u) && CallStep(st, Fork(p, c), ans, u) && WellFormed(st.slots, Fork(p, c))
    ensures ans == Ok
    ensures forall fd: nat :: fd < MAX_OPEN ==>
      && (Slot(c, fd) in u.slots <==> Slot(p, fd) in st.slots)
      && (Slot(p, fd) in st.slots ==> u.slots[Slot(c, fd)] == st.slots[Slot(p, fd)])
    ensures forall s: Slot :: s.proc != c ==> (s in u.slots <==> s in st.slots) && (s in st.slots ==> u.slots[s] == st.slots[s])
    ensures forall s: Slot :: s.proc == c && s.fd >= MAX_OPEN ==> s !in u.slots
    ensures forall f :: Refs(u, f) == Refs(st, f) + |Own(st.slots, p, f)|
  {
    hide Inv, Refs;
    forall f ensures Refs(u, f) == Refs(st, f) + |Own(st.slots, p, f)| {
      ForkCounts(st, p, c, ans, u, f);
    }
  }

  /** The descriptors of `p` that refer to object `f`. */
  function Own(a: Slots, p: nat, f: nat): set<nat> {
    set fd: nat | fd < MAX_OPEN && Slot(p, fd) in a && a[Slot(p, fd)] == f
  }

  lemma ForkCounts(st: Files, p: nat, c: nat, ans: Answer, u: Files, f: nat)
    requires Inv(st) && Inv(u) && CallStep(st, Fork(p, c), ans, u) && WellFormed(st.slots, Fork(p, c))
    ensures Refs(u, f) == Refs(st, f) + |Own(st.slots, p, f)|
  {
    hide Inv, Refs, Holders, Own, CopyBelow, SlotsOf, NewKinds, Kept;
    RefsAreHolders(st, f);
    RefsAreHolders(u, f);
    ForkHolders(st.slots, p, c, f);
    SlotsOfCount(c, Own(st.slots, p, f));
    DisjointCount(Holders(st.slots, f), SlotsOf(c, Own(st.slots, p, f)));
  }

  lemma ForkHolders(a: Slots, p: nat, c: nat, f: nat)
    requires NoSlots(a, c) && p != c
    ensures Holders(a + CopyBelow(a, p, c, MAX_OPEN), f) == Holders(a, f) + SlotsOf(c, Own(a, p, f))
    ensures Holders(a, f) !! SlotsOf(c, Own(a, p, f))
  {
    var b, copies := a + CopyBelow(a, p, c, MAX_OPEN), SlotsOf(c, Own(a, p, f));
    forall s ensures s in copies <==> s.proc == c && s.fd < MAX_OPEN && Slot(p, s.fd) in a && a[Slot(p, s.fd)] == f {
      if s.proc == c && s.fd < MAX_OPEN && Slot(p, s.fd) in a && a[Slot(p, s.fd)] == f {
        assert s.fd in Own(a, p, f) && s == Slot(c, s.fd);
      }
    }
    forall s ensures s in Holders(b, f) <==> s in Holders(a, f) || s in copies {
      assert s in a ==> s.proc != c;
    }
  }

  lemma DisjointCount(x: set<Slot>, y: set<Slot>)
    requires x !! y
    ensures |x + y| == |x| + |y|
  {
  }

  function SlotsOf(c: nat, fds: set<nat>): set<Slot> {
    set fd | fd in fds :: Slot(c, fd)
  }

  lemma {:induction false} SlotsOfCount(c: nat, fds: set<nat>)
    ensures |SlotsOf(c, fds)| == |fds|
  {
    if fds == {} {
      assert SlotsOf(c, fds) == {};
    } else {
      var fd :| fd in fds;
      SlotsOfCount(c, fds - {fd});
      assert SlotsOf(c, fds) == SlotsOf(c, fds - {fd}) + {Slot(c, fd)};
    }
  }

  // ---------------------------------------------------------------- what it means for everyone else

  /** A call by one process moves no descriptor of another, except that fork fills the child's. */
  lemma OthersKeepTheirs(a: Slots, c: Command, ans: Answer, b: Slots, s: Slot)
    requires SlotStep(a, c, ans, b) && s.proc != c.p && !(c.Fork? && s.proc == c.child)
    ensures s in a <==> s in b
    ensures s in a ==> a[s] == b[s]
  {
  }

  /** Slots are entries of the array. */
  ghost predicate InArray(a: Slots) {
    forall s :: s in a ==> s.fd < MAX_OPEN
  }

  lemma StaysInArray(a: Slots, c: Command, ans: Answer, b: Slots)
    requires InArray(a) && SlotStep(a, c, ans, b)
    ensures InArray(b)
  {
  }

  /** exit takes all descriptors of the process, and an object survives exactly if another process still
      refers to it. */
  lemma SurvivesExit(st: Files, p: nat, ans: Answer, u: Files, f: nat)
    requires Inv(st) && Inv(u) && InArray(st.slots) && CallStep(st, Exit(p), ans, u)
    ensures forall s :: s in u.slots <==> s in st.slots && s.proc != p
    ensures forall s :: s in u.slots ==> u.slots[s] == st.slots[s]
    ensures f in u.files <==> exists s :: s in st.slots && s.proc != p && st.slots[s] == f
  {
    hide Inv;
    RefsAreHolders(u, f);
    if s :| s in st.slots && s.proc != p && st.slots[s] == f {
      assert s in Holders(u.slots, f);
    }
    if f in u.files {
      var s :| s in Holders(u.slots, f);
    }
  }

  // ---------------------------------------------------------------- runs

  ghost predicate IsRun(commands: seq<Command>, trace: seq<Files>) {
    && |trace| == |commands| + 1
    && forall i :: 0 <= i < |commands| ==> RunStep(trace[i], commands[i], trace[i + 1])
  }

  /** While process `c` issues no command, its descriptors keep referring to the same live objects, whatever the
      other processes close, however they exit. */
  lemma {:induction false} KeepsDescriptor(commands: seq<Command>, trace: seq<Files>, s: Slot, i: nat, n: nat)
    requires IsRun(commands, trace) && i <= n <= |commands| && Inv(trace[i]) && s in trace[i].slots
    requires forall k :: i <= k < n ==> commands[k].p != s.proc
    ensures Inv(trace[n]) && s in trace[n].slots && trace[n].slots[s] == trace[i].slots[s]
    ensures var f := trace[i].slots[s];
      && f in trace[i].files && f in trace[n].files
      && trace[n].files[f].kind == trace[i].files[f].kind && trace[n].files[f].pipe == trace[i].files[f].pipe
  {
    hide Inv, CallStep, WellFormed;
    Referred(trace[i], s);
    if i < n {
      KeepsDescriptor(commands, trace, s, i, n - 1);
      assert RunStep(trace[n - 1], commands[n - 1], trace[n]);
      KeptByStep(trace[n - 1], commands[n - 1], trace[n], s);
    }
  }

  lemma KeptByStep(st: Files, c: Command, u: Files, s: Slot)
    requires RunStep(st, c, u) && s in st.slots && c.p != s.proc
    ensures s in u.slots && u.slots[s] == st.slots[s]
    ensures var f := st.slots[s];
      f in st.files && f in u.files && u.files[f].kind == st.files[f].kind && u.files[f].pipe == st.files[f].pipe
  {
    hide Inv, SlotStep, NewKinds;
    Referred(st, s);
    if WellFormed(st.slots, c) {
      var ans :| CallStep(st, c, ans, u);
      assert c.Fork? ==> s.proc != c.child;
      OthersKeepTheirs(st.slots, c, ans, u.slots, s);
      Referred(u, s);
    }
  }

  /** What a child inherits at a fork stays live, and its own, until the child itself gives it up: the parent may
      close its descriptor, move it or exit. */
  lemma Inherited(commands: seq<Command>, trace: seq<Files>, i: nat, n: nat, fd: nat)
    requires IsRun(commands, trace) && i < n <= |commands| && commands[i].Fork? && fd < MAX_OPEN
    requires WellFormed(trace[i].slots, commands[i]) && Slot(commands[i].p, fd) in trace[i].slots
    requires forall k :: i < k < n ==> commands[k].p != commands[i].child
    ensures var s, t := Slot(commands[i].p, fd), Slot(commands[i].child, fd);
      && t in trace[n].slots && trace[n].slots[t] == trace[i].slots[s]
      && trace[i].slots[s] in trace[i].files && trace[i].slots[s] in trace[n].files
      && trace[n].files[trace[i].slots[s]].kind == trace[i].files[trace[i].slots[s]].kind
      && trace[n].files[trace[i].slots[s]].pipe == trace[i].files[trace[i].slots[s]].pipe
  {
    hide Inv, NewKinds;
    var p, c := commands[i].p, commands[i].child;
    assert RunStep(trace[i], commands[i], trace[i + 1]);
    var ans :| CallStep(trace[i], commands[i], ans, trace[i + 1]);
    ForkShares(trace[i], p, c, ans, trace[i + 1]);
    Referred(trace[i], Slot(p, fd));
    KeepsDescriptor(commands, trace, Slot(c, fd), i + 1, n);
  }

  lemma {:induction false} RunStaysInArray(commands: seq<Command>, trace: seq<Files>, n: nat)
    requires IsRun(commands, trace) && n <= |commands| && InArray(trace[0].slots)
    ensures InArray(trace[n].slots)
  {
    hide Inv, InArray, SlotStep;
    if n > 0 {
      RunStaysInArray(commands, trace, n - 1);
      assert RunStep(trace[n - 1], commands[n - 1], trace[n]);
      if WellFormed(trace[n - 1].slots, commands[n - 1]) {
        var ans :| CallStep(trace[n - 1], commands[n - 1], ans, trace[n]);
        StaysInArray(trace[n - 1].slots, commands[n - 1], ans, trace[n].slots);
      }
    }
  }
}
