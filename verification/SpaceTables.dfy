/** The page tables of all spaces together implement the flat map from pages to entries that the
    copy-on-write memory works on. */
module SpaceTables {
  import opened Options
  import opened CowMemory
  import opened PageTable

  const PAGES: nat := VA_LIMIT / 4096

  /** The leaf entry that stands for an entry of the flat map. */
  function Leaf(e: Pte): nat {
    Entry(e.frame, if e.writable then 7 else 5)
  }

  function Found(t: Table, l: Loc): Option<nat> {
    if l in t then Some(Leaf(t[l])) else None
  }

  /** Entries that the hardware format can hold. */
  ghost predicate Fits(t: Table, spaces: nat) {
    forall l :: l in t ==> l.space < spaces && l.page < PAGES && t[l].frame < PFN_LIMIT
  }

  ghost predicate RootsOk(level: map<nat, nat>, roots: seq<nat>) {
    && (forall s :: 0 <= s < |roots| ==> roots[s] in level && level[roots[s]] == 4)
    && (forall r, s :: 0 <= r < s < |roots| ==> roots[r] != roots[s])
  }

  /** Walking the tables of a space finds exactly what the flat map holds. */
  ghost predicate Represents(frames: Frames, roots: seq<nat>, t: Table) {
    forall l: Loc :: l.space < |roots| && l.page < PAGES ==>
      Lookup(frames, roots[l.space], PathOf(l.page * 4096)) == Found(t, l)
  }

  lemma PutRepresents(f: Frames, level: map<nat, nat>, g: Frames, roots: seq<nat>, t: Table, u: Table, l: Loc)
    requires Represents(f, roots, t) && RootsOk(level, roots) && l.space < |roots| && l.page < PAGES
    requires OnlyPage(f, level, g, roots[l.space], l.page * 4096)
    requires Lookup(g, roots[l.space], PathOf(l.page * 4096)) == Found(u, l)
    requires forall k :: k != l ==> Found(u, k) == Found(t, k)
    ensures Represents(g, roots, u)
  {
    hide Lookup, PathOf, Leaf;
    forall k: Loc | k.space < |roots| && k.page < PAGES
      ensures Lookup(g, roots[k.space], PathOf(k.page * 4096)) == Found(u, k)
    {
      if k != l {
        SamePageOnly(k.page, l.page);
        assert k.space != l.space ==> roots[k.space] != roots[l.space];
        assert Lookup(f, roots[k.space], PathOf(k.page * 4096)) == Found(t, k);
      }
    }
  }

  lemma SamePageOnly(a: nat, b: nat)
    requires a < PAGES && b < PAGES
    ensures a * 4096 < VA_LIMIT && b * 4096 < VA_LIMIT
    ensures a * 4096 / 4096 == a && b * 4096 / 4096 == b
  {
  }

  lemma SpaceRepresents(f: Frames, level: map<nat, nat>, g: Frames, newLevel: map<nat, nat>, roots: seq<nat>, t: Table, nf: nat)
    requires Represents(f, roots, t) && RootsOk(level, roots) && Fits(t, |roots|)
    requires SameLookups(f, level, g, newLevel) && forall p :: |p| == 4 && IsPath(p) ==> Lookup(g, nf, p) == None
    ensures Represents(g, roots + [nf], t)
  {
    hide Lookup, PathOf, Leaf;
    forall k: Loc | k.space < |roots + [nf]| && k.page < PAGES
      ensures Lookup(g, (roots + [nf])[k.space], PathOf(k.page * 4096)) == Found(t, k)
    {
      if k.space < |roots| {
        assert Lookup(f, roots[k.space], PathOf(k.page * 4096)) == Found(t, k);
      }
    }
  }

  /** The processor, which asks every table on the walk, lets a write through exactly where the flat map has
      the write bit: what the copy-on-write steps rely on. */
  lemma ProcessorAgrees(frames: Frames, level: map<nat, nat>, roots: seq<nat>, t: Table, l: Loc)
    requires TreesOk(frames, level) && TablesWritable(frames, level)
    requires RootsOk(level, roots) && Represents(frames, roots, t) && l.space < |roots| && l.page < PAGES
    ensures MayWrite(frames, roots[l.space], PathOf(l.page * 4096)) <==> l in t && t[l].writable
  {
    hide TreesOk, TablesWritable, PathOf, Lookup, MayWrite, Entry, WriteBit;
    LeafDecides(frames, level, roots[l.space], PathOf(l.page * 4096));
    if l in t {
      EntryWrite(t[l].frame, if t[l].writable then 7 else 5);
    }
  }

  // ---------------------------------------------------------------- writes to the tables

  datatype Write = NewSpace | Put(l: Loc, e: Pte) | Drop(l: Loc)

  predicate WriteOk(w: Write, spaces: nat) {
    match w
    case NewSpace => true
    case Put(l, e) => l.space < spaces && l.page < PAGES && e.frame < PFN_LIMIT
    case Drop(l) => l.space < spaces && l.page < PAGES
  }

  function Written(t: Table, w: Write): Table {
    match w
    case NewSpace => t
    case Put(l, e) => t[l := e]
    case Drop(l) => t - {l}
  }

  predicate WritesOk(ws: seq<Write>, spaces: nat) {
    ws == [] || (WriteOk(ws[0], spaces) && WritesOk(ws[1..], if ws[0].NewSpace? then spaces + 1 else spaces))
  }

  /** The flat map after a list of writes. */
  function WrittenAll(t: Table, ws: seq<Write>): Table
    decreases |ws|
  {
    if ws == [] then t else Written(WrittenAll(t, ws[..|ws| - 1]), ws[|ws| - 1])
  }

  class Tables {
    const heap: PageTables
    var roots: seq<nat>

    ghost predicate Holds(t: Table)
      reads this, heap
    {
      && heap.Valid() && Clean(heap.frames, heap.level) && TablesWritable(heap.frames, heap.level)
      && RootsOk(heap.level, roots)
      && Fits(t, |roots|) && Represents(heap.frames, roots, t)
    }

    constructor ()
      ensures Holds(map[]) && roots == [] && fresh(heap)
    {
      heap := new PageTables();
      roots := [];
    }

    /** A frame that is not a table; None when the allocator is out of frames. */
    method FindUnused(a: nat, b: nat) returns (f: Option<nat>)
      ensures f.Some? ==> f.value !in heap.frames && f.value != a && f.value != b && f.value < PFN_LIMIT
      ensures f.None? ==> forall x: nat :: x < PFN_LIMIT ==> x in heap.frames || x == a || x == b
    {
      var x := 0;
      while x < PFN_LIMIT
        invariant x <= PFN_LIMIT && forall y: nat :: y < x ==> y in heap.frames || y == a || y == b
      {
        if x !in heap.frames && x != a && x != b {
          return Some(x);
        }
        x := x + 1;
      }
      f := None;
    }

    /** One write; false when no frames are left for tables, and then nothing has changed. */
    method Do(w: Write, ghost t: Table) returns (done: bool)
      requires Holds(t) && WriteOk(w, |roots|)
      modifies this, heap
      ensures Holds(if done then Written(t, w) else t)
      ensures |roots| == |old(roots)| + (if done && w.NewSpace? then 1 else 0)
      ensures w.Drop? ==> done
    {
      hide PathOf, TreesOk, Lookup, OnlyPage, Clean, SameLookups, Represents, TablesWritable, MayWrite, WriteBit, Reach, IsPath;
      if w.Drop? {
        SamePageOnly(w.l.page, w.l.page);
        heap.ClearPage(roots[w.l.space], w.l.page * 4096);
        PutRepresents(old(heap.frames), heap.level, heap.frames, roots, t, t - {w.l}, w.l);
        return true;
      }
      var a := FindUnused(PFN_LIMIT, PFN_LIMIT);
      if a.None? {
        return false;
      }
      if w.NewSpace? {
        heap.NewRoot(a.value);
        SpaceRepresents(old(heap.frames), old(heap.level), heap.frames, heap.level, roots, t, a.value);
        roots := roots + [a.value];
        return true;
      }
      var b := FindUnused(a.value, PFN_LIMIT);
      if b.None? {
        return false;
      }
      var c := FindUnused(a.value, b.value);
      if c.None? {
        return false;
      }
      SamePageOnly(w.l.page, w.l.page);
      CleanIsClear(heap.frames, heap.level, roots[w.l.space], PathOf(w.l.page * 4096));
      heap.MapPhysicalPage(roots[w.l.space], w.l.page * 4096, w.e.writable, w.e.frame, a.value, b.value, c.value);
      PutRepresents(old(heap.frames), old(heap.level), heap.frames, roots, t, t[w.l := w.e], w.l);
      done := true;
    }

    /** Every list of writes leaves tables that hold exactly the flat map after those writes; it stops early
        only when no frames are left. */
    method DoAll(ws: seq<Write>, ghost t: Table) returns (count: nat)
      requires Holds(t) && WritesOk(ws, |roots|)
      modifies this, heap
      ensures count <= |ws| && Holds(WrittenAll(t, ws[..count]))
      ensures (forall w :: w in ws ==> w.Drop?) ==> count == |ws|
    {
      hide WriteOk, Written, Represents, RootsOk, Fits;
      count := 0;
      while count < |ws|
        invariant count <= |ws| && Holds(WrittenAll(t, ws[..count])) && WritesOk(ws[count..], |roots|)
      {
        assert ws[count..][0] == ws[count] && ws[count..][1..] == ws[count + 1..];
        assert ws[..count + 1][..count] == ws[..count];
        var done := Do(ws[count], WrittenAll(t, ws[..count]));
        if !done {
          return;
        }
        count := count + 1;
      }
    }
  }

  // ---------------------------------------------------------------- the kernel's steps are such writes

  lemma OneWrite(t: Table, w: Write)
    ensures WrittenAll(t, [w]) == Written(t, w)
  {
    assert [w][..0] == [];
  }

  lemma InstallAndDropAreWrites(m: Mem, l: Loc, nf: nat, content: Page, writable: bool)
    requires MemOk(m)
    ensures WrittenAll(m.ptes, [Put(l, Pte(nf, writable))]) == Install(m, l, nf, content, writable).ptes
    ensures WrittenAll(m.ptes, [Drop(l)]) == DropOne(m, l).ptes
  {
    OneWrite(m.ptes, Put(l, Pte(nf, writable)));
    OneWrite(m.ptes, Drop(l));
    DropTable(m, l);
  }

  lemma ShareIsTwoWrites(m: Mem, p: nat, c: nat, v: nat)
    requires MemOk(m) && Loc(p, v) in m.ptes
    ensures var e := Pte(m.ptes[Loc(p, v)].frame, false);
      WrittenAll(m.ptes, [Put(Loc(p, v), e), Put(Loc(c, v), e)]) == ShareOne(m, p, c, v).ptes
  {
    assert EntryOk(m, Loc(p, v));
    var e := Pte(m.ptes[Loc(p, v)].frame, false);
    OneWrite(m.ptes, Put(Loc(p, v), e));
    assert [Put(Loc(p, v), e), Put(Loc(c, v), e)][..1] == [Put(Loc(p, v), e)];
  }

  lemma CowAndProtectAreWrites(m: Mem, l: Loc, nf: nat, writable: bool)
    requires MemOk(m) && l in m.ptes
    ensures EntryOk(m, l) && FrameOk(m.ptes, m.counts, m.ptes[l].frame)
    ensures WrittenAll(m.ptes, [Put(l, CowFault(m, l, nf).ptes[l])]) == CowFault(m, l, nf).ptes
    ensures WrittenAll(m.ptes, [Put(l, SetWritable(m, l, writable).ptes[l])]) == SetWritable(m, l, writable).ptes
  {
    assert EntryOk(m, l) && FrameOk(m.ptes, m.counts, m.ptes[l].frame);
    OneWrite(m.ptes, Put(l, CowFault(m, l, nf).ptes[l]));
    OneWrite(m.ptes, Put(l, SetWritable(m, l, writable).ptes[l]));
    assert m.ptes == m.ptes[l := m.ptes[l]];
  }
}
