/** Open-file objects shared by descriptor slots, with reference counts, and the pipes they are the ends of. */
module FileObjects {
  const MAX_OPEN: nat := 32

  /** Entry `fd` of the files[] array of process `proc`. */
  datatype Slot = Slot(proc: nat, fd: nat)

  datatype Kind = Standard | Regular | ReadEnd | WriteEnd

  /** A file object; `pipe` is meaningful for pipe ends only. */
  datatype File = File(kind: Kind, refs: nat, pipe: nat)

  datatype Pipe = Pipe(ropen: bool, wopen: bool)

  type Slots = map<Slot, nat>

  /** The kernel's descriptors: used slots, allocated objects, allocated pipes and the file_objects counter. */
  datatype Files = Files(slots: Slots, files: map<nat, File>, pipes: map<nat, Pipe>, objects: int)

  // ---------------------------------------------------------------- the invariant

  /** The slots that point at object `f`. */
  ghost function Holders(slots: Slots, f: nat): set<Slot> {
    set s | s in slots && slots[s] == f
  }

  /** An object is allocated exactly while some slot points at it, and counts those slots. */
  ghost predicate Counted(slots: Slots, files: map<nat, File>, f: nat) {
    if f in files then Holders(slots, f) != {} && files[f].refs == |Holders(slots, f)| else Holders(slots, f) == {}
  }

  ghost predicate CountsOk(st: Files) {
    (forall f :: Counted(st.slots, st.files, f)) && st.objects == |st.files|
  }

  ghost predicate IsEnd(files: map<nat, File>, f: nat, p: nat, k: Kind) {
    f in files && files[f].kind == k && files[f].pipe == p && (k == ReadEnd || k == WriteEnd)
  }

  ghost predicate EndLives(files: map<nat, File>, p: nat, k: Kind) {
    exists f :: IsEnd(files, f, p, k)
  }

  /** A pipe is allocated exactly while one of its ends is, and its flags say which. */
  ghost predicate PipeOk(st: Files, p: nat) {
    if p in st.pipes then
      && (st.pipes[p].ropen <==> EndLives(st.files, p, ReadEnd))
      && (st.pipes[p].wopen <==> EndLives(st.files, p, WriteEnd))
      && (st.pipes[p].ropen || st.pipes[p].wopen)
    else !EndLives(st.files, p, ReadEnd) && !EndLives(st.files, p, WriteEnd)
  }

  ghost predicate OneEnd(files: map<nat, File>) {
    forall f, g, p, k :: IsEnd(files, f, p, k) && IsEnd(files, g, p, k) ==> f == g
  }

  ghost predicate PipesOk(st: Files) {
    (forall p :: PipeOk(st, p)) && OneEnd(st.files)
  }

  ghost predicate Inv(st: Files) {
    CountsOk(st) && PipesOk(st)
  }

  // ---------------------------------------------------------------- elementary steps

  /** One more slot for an object. */
  function AddRef(st: Files, s: Slot, f: nat): Files
    requires f in st.files
  {
    st.(slots := st.slots[s := f], files := st.files[f := st.files[f].(refs := st.files[f].refs + 1)])
  }

  /** A new object of a kind other than a pipe end. */
  function NewFile(st: Files, s: Slot, f: nat, kind: Kind): Files {
    Files(st.slots[s := f], st.files[f := File(kind, 1, 0)], st.pipes, st.objects + 1)
  }

  /** A new pipe `p` with its two ends. */
  function NewPipe(st: Files, r: Slot, w: Slot, f: nat, g: nat, p: nat): Files {
    Files(st.slots[r := f][w := g],
          st.files[f := File(ReadEnd, 1, p)][g := File(WriteEnd, 1, p)],
          st.pipes[p := Pipe(true, true)],
          st.objects + 2)
  }

  /** generic_close on the pipe of the last slot of an end. */
  function ClosePipe(pipes: map<nat, Pipe>, file: File): map<nat, Pipe> {
    if file.pipe !in pipes || !(file.kind.ReadEnd? || file.kind.WriteEnd?) then pipes
    else
      var q := if file.kind.ReadEnd? then pipes[file.pipe].(ropen := false) else pipes[file.pipe].(wopen := false);
      if q.ropen || q.wopen then pipes[file.pipe := q] else pipes - {file.pipe}
  }

  /** generic_close: one slot fewer, and with the last slot the object goes. */
  function Release(st: Files, f: nat): Files
    requires f in st.files
  {
    if st.files[f].refs == 1 then
      Files(st.slots, st.files - {f}, ClosePipe(st.pipes, st.files[f]), st.objects - 1)
    else st.(files := st.files[f := st.files[f].(refs := if st.files[f].refs == 0 then 0 else st.files[f].refs - 1)])
  }

  function CloseSlot(st: Files, s: Slot): Files
    requires s in st.slots && st.slots[s] in st.files
  {
    Release(st, st.slots[s]).(slots := st.slots - {s})
  }

  // ---------------------------------------------------------------- holders

  lemma HoldersPut(slots: Slots, s: Slot, f: nat, g: nat)
    requires s !in slots
    ensures Holders(slots[s := f], g) == Holders(slots, g) + (if g == f then {s} else {})
    ensures s !in Holders(slots, g)
  {
  }

  lemma HoldersDrop(slots: Slots, s: Slot, g: nat)
    requires s in slots
    ensures Holders(slots - {s}, g) == if g == slots[s] then Holders(slots, g) - {s} else Holders(slots, g)
    ensures s in Holders(slots, slots[s])
  {
  }

  lemma Live(st: Files, s: Slot)
    requires Inv(st) && s in st.slots
    ensures st.slots[s] in st.files && st.files[st.slots[s]].refs > 0
  {
    assert Counted(st.slots, st.files, st.slots[s]);
    assert s in Holders(st.slots, st.slots[s]);
  }

  // ---------------------------------------------------------------- every step keeps the invariant

  lemma AddRefKeeps(st: Files, s: Slot, f: nat)
    requires Inv(st) && s !in st.slots && f in st.files
    ensures Inv(AddRef(st, s, f))
  {
    hide PipesOk, Holders;
    var u := AddRef(st, s, f);
    forall g ensures Counted(u.slots, u.files, g) {
      assert Counted(st.slots, st.files, g);
      HoldersPut(st.slots, s, f, g);
    }
    SameEnds(st, u);
  }

  /** Objects keep their kind and pipe, so the pipes are as good as before. */
  lemma SameEnds(st: Files, u: Files)
    requires PipesOk(st) && u.pipes == st.pipes
    requires forall f, p, k :: IsEnd(u.files, f, p, k) <==> IsEnd(st.files, f, p, k)
    ensures PipesOk(u)
  {
    forall p ensures PipeOk(u, p) {
      assert PipeOk(st, p);
    }
  }

  lemma NewFileKeeps(st: Files, s: Slot, f: nat, kind: Kind)
    requires Inv(st) && s !in st.slots && f !in st.files && (kind == Standard || kind == Regular)
    ensures Inv(NewFile(st, s, f, kind))
  {
    hide PipesOk, Holders;
    var u := NewFile(st, s, f, kind);
    forall g ensures Counted(u.slots, u.files, g) {
      assert Counted(st.slots, st.files, g);
      HoldersPut(st.slots, s, f, g);
    }
    SameEnds(st, u);
  }

  lemma NewPipeCounts(st: Files, r: Slot, w: Slot, f: nat, g: nat, p: nat, h: nat)
    requires CountsOk(st) && r !in st.slots && w !in st.slots && r != w && f !in st.files && g !in st.files && f != g
    ensures var u := NewPipe(st, r, w, f, g, p); Counted(u.slots, u.files, h)
  {
    hide Holders;
    assert Counted(st.slots, st.files, h);
    HoldersPut(st.slots, r, f, h);
    HoldersPut(st.slots[r := f], w, g, h);
  }

  lemma NewPipeEnds(st: Files, r: Slot, w: Slot, f: nat, g: nat, p: nat, q: nat)
    requires PipesOk(st) && f !in st.files && g !in st.files && f != g && p !in st.pipes
    ensures PipeOk(NewPipe(st, r, w, f, g, p), q)
  {
    var u := NewPipe(st, r, w, f, g, p);
    assert PipeOk(st, q);
    if q == p {
      assert IsEnd(u.files, f, p, ReadEnd) && IsEnd(u.files, g, p, WriteEnd);
    } else {
      forall h, k ensures IsEnd(u.files, h, q, k) <==> IsEnd(st.files, h, q, k) {
      }
    }
  }

  lemma NewPipeOneEnd(st: Files, r: Slot, w: Slot, f: nat, g: nat, p: nat)
    requires PipesOk(st) && f !in st.files && g !in st.files && f != g && p !in st.pipes
    ensures OneEnd(NewPipe(st, r, w, f, g, p).files)
  {
    var u := NewPipe(st, r, w, f, g, p);
    assert PipeOk(st, p);
    forall h, q, k | IsEnd(u.files, h, q, k) && h != f && h != g ensures IsEnd(st.files, h, q, k) && q != p {
      assert IsEnd(st.files, h, q, k);
    }
  }

  lemma NewPipeKeeps(st: Files, r: Slot, w: Slot, f: nat, g: nat, p: nat)
    requires Inv(st) && r !in st.slots && w !in st.slots && r != w
    requires f !in st.files && g !in st.files && f != g && p !in st.pipes
    ensures Inv(NewPipe(st, r, w, f, g, p))
  {
    hide PipeOk, Counted, OneEnd;
    forall h ensures Counted(NewPipe(st, r, w, f, g, p).slots, NewPipe(st, r, w, f, g, p).files, h) {
      NewPipeCounts(st, r, w, f, g, p, h);
    }
    forall q ensures PipeOk(NewPipe(st, r, w, f, g, p), q) {
      NewPipeEnds(st, r, w, f, g, p, q);
    }
    NewPipeOneEnd(st, r, w, f, g, p);
  }

  lemma CloseCounts(st: Files, s: Slot, g: nat)
    requires CountsOk(st) && s in st.slots && st.slots[s] in st.files
    ensures var u := CloseSlot(st, s); Counted(u.slots, u.files, g)
  {
    hide Holders;
    assert Counted(st.slots, st.files, g);
    HoldersDrop(st.slots, s, g);
    if g == st.slots[s] {
      assert |Holders(st.slots, g) - {s}| == |Holders(st.slots, g)| - 1;
    }
  }

  lemma LastEndGone(st: Files, f: nat, p: nat)
    requires PipesOk(st) && f in st.files
    ensures PipeOk(Files(st.slots, st.files - {f}, ClosePipe(st.pipes, st.files[f]), st.objects - 1), p)
  {
    var rest := st.files - {f};
    assert PipeOk(st, p);
    forall h, k ensures IsEnd(rest, h, p, k) <==> IsEnd(st.files, h, p, k) && h != f {
    }
    if IsEnd(st.files, f, p, st.files[f].kind) {
      assert !EndLives(rest, p, st.files[f].kind);
    }
    forall k | EndLives(st.files, p, k) && !IsEnd(st.files, f, p, k) ensures EndLives(rest, p, k) {
      var h :| IsEnd(st.files, h, p, k);
      assert IsEnd(rest, h, p, k);
    }
    assert forall k :: EndLives(rest, p, k) ==> EndLives(st.files, p, k) by {
      forall k | EndLives(rest, p, k) ensures EndLives(st.files, p, k) {
        var h :| IsEnd(rest, h, p, k);
        assert IsEnd(st.files, h, p, k);
      }
    }
  }

  /** Closing frees the object with its last slot, and the pipe with its last end. */
  lemma CloseKeeps(st: Files, s: Slot)
    requires Inv(st) && s in st.slots
    ensures st.slots[s] in st.files && Inv(CloseSlot(st, s))
  {
    hide PipeOk, Counted, OneEnd;
    Live(st, s);
    var f, u := st.slots[s], CloseSlot(st, s);
    forall g ensures Counted(u.slots, u.files, g) {
      CloseCounts(st, s, g);
    }
    if st.files[f].refs == 1 {
      forall p ensures PipeOk(u, p) {
        LastEndGone(st, f, p);
        PipeOnFiles(Files(st.slots, st.files - {f}, ClosePipe(st.pipes, st.files[f]), st.objects - 1), u, p);
      }
      FewerEnds(st.files, f);
    } else {
      SameEnds(st, u);
    }
  }

  lemma PipeOnFiles(st: Files, u: Files, p: nat)
    requires st.files == u.files && st.pipes == u.pipes && PipeOk(st, p)
    ensures PipeOk(u, p)
  {
  }

  lemma FewerEnds(files: map<nat, File>, f: nat)
    requires OneEnd(files)
    ensures OneEnd(files - {f})
  {
    forall h, p, k | IsEnd(files - {f}, h, p, k) ensures IsEnd(files, h, p, k) {
    }
  }

  // ---------------------------------------------------------------- the counts are redundant

  /** Everything that is counted or flagged follows from which slot points at which object. */
  lemma StateFromSlots(st: Files, u: Files)
    requires Inv(st) && Inv(u) && st.slots == u.slots
    requires forall f :: f in st.files && f in u.files ==> st.files[f].kind == u.files[f].kind && st.files[f].pipe == u.files[f].pipe
    ensures st == u
  {
    hide PipeOk, OneEnd;
    forall f ensures f in st.files <==> f in u.files {
      assert Counted(st.slots, st.files, f) && Counted(u.slots, u.files, f);
    }
    forall f | f in st.files ensures st.files[f] == u.files[f] {
      assert Counted(st.slots, st.files, f) && Counted(u.slots, u.files, f);
    }
    assert st.files == u.files;
    forall p ensures p in st.pipes <==> p in u.pipes
      ensures p in st.pipes && p in u.pipes ==> st.pipes[p] == u.pipes[p]
    {
      PipeFromFiles(st, u, p);
    }
    assert st.pipes == u.pipes;
  }

  lemma PipeFromFiles(st: Files, u: Files, p: nat)
    requires PipesOk(st) && PipesOk(u) && st.files == u.files
    ensures p in st.pipes <==> p in u.pipes
    ensures p in st.pipes && p in u.pipes ==> st.pipes[p] == u.pipes[p]
  {
    assert PipeOk(st, p) && PipeOk(u, p);
  }
}
