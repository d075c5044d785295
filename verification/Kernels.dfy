/** The kernel's memory: one object per address space for its areas, and the page tables, frames and
    reference counts that all spaces share. Every call is proved against eager copying. */
module Kernels {
  import opened AreaLists
  import opened AreaRemoval
  import opened AreaProtection
  import opened AddressSpaces
  import MProtect
  import opened VmLaws
  import opened CowMemory
  import opened EagerCopies
  import opened TableAgreement
  import opened PageFaults
  import opened MemorySteps

  ghost function AreasOf(procs: seq<AddressSpace>): (r: seq<seq<Area>>)
    reads procs
    ensures |r| == |procs| && forall i :: 0 <= i < |r| ==> r[i] == procs[i].areas
  {
    if procs == [] then [] else AreasOf(procs[..|procs| - 1]) + [procs[|procs| - 1].areas]
  }

  class Kernel {
    var procs: seq<AddressSpace>
    var brks: seq<int>
    var ptes: Table
    var pages: map<nat, Page>
    var counts: map<nat, nat>

    ghost function Memory(): Mem
      reads this
    {
      Mem(|procs|, ptes, pages, counts)
    }

    ghost function Areas(): seq<seq<Area>>
      reads this`procs, procs
    {
      AreasOf(procs)
    }

    ghost function State(): (w: World)
      reads this, procs
      ensures |w.areas| == |procs|
    {
      World(Areas(), brks, View(Memory()), StaleBits(ptes, Areas(), brks))
    }

    ghost predicate Distinct()
      reads this`procs
    {
      forall i, j :: 0 <= i < j < |procs| ==> procs[i] != procs[j]
    }

    /** Counts are right, write bits are exclusive, and tables agree with areas. */
    ghost predicate Valid()
      reads this, procs
    {
      Distinct() && |brks| == |procs| && Consistent(Memory(), Areas(), brks)
    }

    /** The first process: one writable page of data. */
    constructor (content: Page)
      requires |content| == PAGE
      ensures Valid() && State() == World([[]], [DATA_START + PAGE], map[Loc(0, PageOf(DATA_START)) := content], {})
    {
      hide Consistent, View, StaleBits;
      var first := new AddressSpace();
      procs := [first];
      brks := [DATA_START + PAGE];
      ptes := map[Loc(0, PageOf(DATA_START)) := Pte(0, true)];
      pages := map[0 := content];
      counts := map[0 := 1];
      new;
      FirstFrame(content);
      assert Areas() == [[]];
    }

    /** A frame that is not in use, searched upwards from the allocator's cursor. */
    method AllocFrame(cursor: nat) returns (f: nat)
      ensures f !in pages && (cursor !in pages ==> f == cursor)
    {
      f := cursor;
      ghost var seen := {};
      while f in pages
        invariant cursor !in pages ==> f == cursor
        invariant seen <= pages.Keys && forall g :: g in seen ==> g < f
        decreases |pages.Keys - seen|
      {
        assert pages.Keys - (seen + {f}) < pages.Keys - seen;
        seen := seen + {f};
        f := f + 1;
      }
    }

    /** handle_cow_fault: a write to a present page without the write bit. */
    method HandleCowFault(p: nat, addr: nat, nf: nat) returns (ok: bool)
      requires p < |procs| == |brks| && procs[p].Valid() && BreakOk(brks[p])
      requires LocOf(p, addr) in ptes && ptes[LocOf(p, addr)].frame in pages && ptes[LocOf(p, addr)].frame in counts
      modifies this`ptes, this`pages, this`counts
      ensures ok <==> Allowed(procs[p].areas, brks[p], addr, true)
      ensures Memory() == if ok then CowFault(old(Memory()), LocOf(p, addr), nf) else old(Memory())
    {
      var l := LocOf(p, addr);
      BelowWindow(procs[p].areas, addr);
      ok := InSomeArea(procs[p].areas, addr);
      if !ok {
        ok := InData(brks[p], addr);
      }
      if !ok {
        return;
      }
      var denied := WriteDenied(procs[p].areas, addr);
      if denied {
        return false;
      }
      var f := ptes[l].frame;
      if counts[f] == 1 {
        ptes := ptes[l := Pte(f, true)];
        return;
      }
      counts := counts[f := (counts[f] + U8 - 1) % U8];
      pages := pages[nf := pages[f]];
      counts := counts[nf := 1];
      ptes := ptes[l := Pte(nf, true)];
    }

    /** A fault on an absent page: data pages and permitted mapped pages get a frame whose write bit is
        the kind of the access. */
    method HandleMissing(p: nat, addr: nat, write: bool, nf: nat, junk: Page) returns (ok: bool)
      requires p < |procs| == |brks| && procs[p].Valid() && BreakOk(brks[p])
      requires DATA_START <= addr <= WINDOW_END
      modifies this`ptes, this`pages, this`counts
      ensures ok <==> Allowed(procs[p].areas, brks[p], addr, write)
      ensures Memory() == if ok then Install(old(Memory()), LocOf(p, addr), nf, junk, write) else old(Memory())
    {
      BelowWindow(procs[p].areas, addr);
      if addr < WINDOW_START {
        ok := addr < brks[p];
      } else {
        ok := MayServe(procs[p].areas, addr, false, write);
      }
      if ok {
        pages := pages[nf := junk];
        counts := counts[nf := 1];
        ptes := ptes[LocOf(p, addr) := Pte(nf, write)];
      }
    }

    /** One access: the hardware checks the entry, and do_page_fault repairs it or reports a violation. */
    method Access(p: nat, addr: nat, write: bool, nf: nat, junk: Page) returns (ok: bool)
      requires Valid() && p < |procs| && DATA_START <= addr <= WINDOW_END && nf !in pages && |junk| == PAGE
      modifies this`ptes, this`pages, this`counts
      ensures Valid() && Areas() == old(Areas())
      ensures ok <==>
        || Allowed(procs[p].areas, brks[p], addr, write)
        || (write && LocOf(p, addr) in old(StaleBits(ptes, Areas(), brks)))
      ensures StaleBits(ptes, Areas(), brks) == old(StaleBits(ptes, Areas(), brks))
      ensures View(Memory()) ==
        if ok then Touch(View(old(Memory())), LocOf(p, addr), junk) else View(old(Memory()))
      ensures ok ==> LocOf(p, addr) in ptes && (write ==> ptes[LocOf(p, addr)].writable)
    {
      hide Consistent, Canonical, View, Allowed, EntryOk, StaleBits;
      var l := LocOf(p, addr);
      ghost var m := Memory();
      OneSpace(m, Areas(), brks, p);
      if l !in ptes {
        ok := HandleMissing(p, addr, write, nf, junk);
        MissStep(m, Areas(), brks, p, addr, write, nf, junk);
      } else if write && !ptes[l].writable {
        EntryStep(m, Areas(), brks, p, addr);
        ok := HandleCowFault(p, addr, nf);
        CowStep(m, Areas(), brks, p, addr, nf);
      } else {
        ok := true;
        EntryStep(m, Areas(), brks, p, addr);
      }
    }

    method LoadByte(p: nat, addr: nat, nf: nat, junk: Page) returns (ans: Answer)
      requires Valid() && WellFormed(Load(p, addr, junk), |procs|) && nf !in pages
      modifies this`ptes, this`pages, this`counts
      ensures Valid() && WorldOk(old(State())) && Eager(old(State()), Load(p, addr, junk), ans, State())
    {
      hide Consistent, View, Allowed, EntryOk, EntriesOk, StaleBits;
      WorldStep(Memory(), Areas(), brks);
      var ok := Access(p, addr, false, nf, junk);
      if !ok {
        return Fault;
      }
      EntryStep(Memory(), Areas(), brks, p, addr);
      ans := Value(pages[ptes[LocOf(p, addr)].frame][addr % PAGE]);
    }

    method StoreByte(p: nat, addr: nat, byte: int, nf: nat, junk: Page) returns (ans: Answer)
      requires Valid() && WellFormed(Store(p, addr, byte, junk), |procs|) && nf !in pages
      modifies this`ptes, this`pages, this`counts
      ensures Valid() && WorldOk(old(State())) && Eager(old(State()), Store(p, addr, byte, junk), ans, State())
    {
      hide Consistent, View, Allowed, EntryOk, EntriesOk, StaleBits;
      WorldStep(Memory(), Areas(), brks);
      var ok := Access(p, addr, true, nf, junk);
      if !ok {
        return Fault;
      }
      EntryStep(Memory(), Areas(), brks, p, addr);
      PokeStep(Memory(), Areas(), brks, p, addr, byte);
      var f := ptes[LocOf(p, addr)].frame;
      pages := pages[f := pages[f][addr % PAGE := byte]];
      ans := Done;
    }

    // ---------------------------------------------------------------- area calls

    /** Calls on the area list of one space leave the others alone. */
    twostate lemma OneSpaceChanged(p: nat)
      requires p < |procs| && Distinct() && procs == old(procs)
      requires forall i :: 0 <= i < |procs| && i != p ==> procs[i].areas == old(procs[i].areas)
      ensures Areas() == old(Areas())[p := procs[p].areas]
      ensures procs[p].areas == old(procs[p].areas) ==> Areas() == old(Areas())
    {
    }

    method MapPages(p: nat, addr: nat, length: int, prot: nat, fixed: bool) returns (ans: Answer)
      requires Valid() && WellFormed(Map(p, addr, length, prot, fixed), |procs|)
      modifies this, procs
      ensures Valid() && WorldOk(old(State())) && procs == old(procs)
      ensures Eager(old(State()), Map(p, addr, length, prot, fixed), ans, State())
    {
      hide Canonical, View, EntriesOk, FramesOk, OneHome, Agrees, MapResult, At, AreasOf;
      WorldStep(Memory(), Areas(), brks);
      OneSpace(Memory(), Areas(), brks, p);
      ghost var areas := Areas();
      var ret := procs[p].Map(addr, length, prot, fixed);
      OneSpaceChanged(p);
      if AcceptsHint(addr, length, fixed) {
        MapOnlyAdds(areas[p], procs[p].areas, addr, RoundUp(length), prot, fixed, ret);
      }
      MapStep(Memory(), areas, brks, p, procs[p].areas);
      ans := Code(ret);
    }

    /** do_expand on the data segment. */
    method ExpandData(p: nat, count: nat) returns (ans: Answer)
      requires Valid() && p < |procs|
      modifies this`brks
      ensures Valid() && WorldOk(old(State())) && procs == old(procs)
      ensures Eager(old(State()), Expand(p, count), ans, State())
    {
      hide EntriesOk, FramesOk, OneHome, Agrees, View, Canonical;
      WorldStep(Memory(), Areas(), brks);
      OneSpace(Memory(), Areas(), brks, p);
      if count > MAX_EXPAND {
        return Code(0);
      }
      var brk := brks[p] + count * PAGE;
      if brk > WINDOW_START - 1 {
        return Code(0);
      }
      ans := Code(brks[p]);
      ExpandStep(Memory(), Areas(), brks, p, brk);
      brks := brks[p := brk];
    }

    /** pfn_unmap: clear one entry, freeing the frame or taking one off its count. */
    method DropPage(p: nat, addr: nat)
      requires MemOk(Memory())
      modifies this`ptes, this`pages, this`counts
      ensures Memory() == DropOne(old(Memory()), LocOf(p, addr))
    {
      var l := LocOf(p, addr);
      hide EntriesOk, FramesOk, OneHome;
      if l !in ptes {
        return;
      }
      EntryCounted(Memory(), l);
      var f := ptes[l].frame;
      if counts[f] == 1 {
        pages := pages - {f};
        counts := counts - {f};
      } else {
        counts := counts[f := (counts[f] + U8 - 1) % U8];
      }
      ptes := ptes - {l};
    }

    /** The loop of munmap over the pages of the range. */
    method DropPages(p: nat, lo: nat, hi: nat)
      requires MemOk(Memory()) && FullPages(pages) && |procs| <= U8
      requires lo % PAGE == 0 && hi % PAGE == 0 && lo <= hi
      modifies this`ptes, this`pages, this`counts
      ensures Dropped(old(Memory()), Memory(), p, PageOf(lo), PageOf(hi))
    {
      hide MemOk, FullPages, DropOne, View;
      ghost var m := Memory();
      var i := lo;
      DropNone(m, p, PageOf(lo));
      while i < hi
        invariant lo <= i <= hi && i % PAGE == 0
        invariant Memory().spaces == m.spaces && Dropped(m, Memory(), p, PageOf(lo), PageOf(i))
      {
        DropNext(m, Memory(), p, PageOf(lo), PageOf(i));
        DropPage(p, i);
        i := i + PAGE;
      }
    }

    method UnmapPages(p: nat, addr: nat, length: int) returns (ans: Answer)
      requires Valid() && WellFormed(Unmap(p, addr, length), |procs|)
      modifies this, procs
      ensures Valid() && WorldOk(old(State())) && procs == old(procs)
      ensures Eager(old(State()), Unmap(p, addr, length), ans, State())
    {
      hide Canonical, View, At, SplitsAny, Removed, Cut, UnmapsRange, StaleBits, InRange, Consistent, WorldOk, Eager, AreasOf;
      WorldStep(Memory(), Areas(), brks);
      OneSpace(Memory(), Areas(), brks, p);
      ghost var w, areas := State(), Areas();
      var wasEmpty := procs[p].areas == [];
      var ret := procs[p].Unmap(addr, length);
      OneSpaceChanged(p);
      ans := Code(ret);
      if ret == -1 {
        EagerUnmapRefused(w, p, addr, length);
        return;
      }
      UnmapMeaning(areas[p], addr, addr + RoundUp(length));
      UnmapEntries(p, addr, addr + RoundUp(length), wasEmpty, areas);
      EagerUnmap(w, State(), p, addr, length);
    }

    /** The rest of munmap: an empty list is left at once, otherwise the entries of the range go. */
    method UnmapEntries(p: nat, addr: nat, hi: nat, wasEmpty: bool, ghost areas: seq<seq<Area>>)
      requires Consistent(Memory(), areas, brks) && p < |areas| == |procs| && Canonical(procs[p].areas)
      requires addr % PAGE == 0 && hi % PAGE == 0 && addr <= hi && (hi <= DATA_START || WINDOW_START <= addr)
      requires procs[p].areas == Cut(areas[p], addr, hi) && UnmapsRange(areas[p], procs[p].areas, addr, hi)
      requires wasEmpty <==> areas[p] == []
      modifies this`ptes, this`pages, this`counts
      ensures Consistent(Memory(), areas[p := procs[p].areas], brks)
      ensures Removed(old(View(Memory())), View(Memory()), p, PageOf(addr), PageOf(hi))
      ensures forall l :: l in StaleBits(ptes, areas[p := procs[p].areas], brks) <==>
        l in StaleBits(old(ptes), areas, brks) && !InRange(l, p, addr, hi)
    {
      hide Canonical, View, EntriesOk, FramesOk, OneHome, Agrees, Removed, Cut, UnmapsRange, StaleBits, InRange;
      ghost var m := Memory();
      if wasEmpty {
        UnmapEmpty(m, areas, brks, p, addr, hi);
        assert areas[p := []] == areas;
        return;
      }
      DropPages(p, addr, hi);
      UnmapStep(m, Memory(), areas, brks, p, procs[p].areas, addr, hi);
    }

    /** change_permissions on the entry of one page. */
    method ChangePermissions(p: nat, addr: nat, prot: nat)
      requires MemOk(Memory())
      modifies this`ptes
      ensures Memory() == SetWritable(old(Memory()), LocOf(p, addr), CanWrite(prot))
    {
      var l := LocOf(p, addr);
      if l !in ptes {
        return;
      }
      EntryCounted(Memory(), l);
      if counts[ptes[l].frame] == 1 {
        ptes := ptes[l := Pte(ptes[l].frame, CanWrite(prot))];
      }
    }

    /** The loop of mprotect: it changes the entry of the first page, once for every page. */
    method ChangeFirstPage(p: nat, lo: nat, hi: nat, prot: nat)
      requires MemOk(Memory()) && |procs| <= U8 && lo < hi
      modifies this`ptes
      ensures Memory() == SetWritable(old(Memory()), LocOf(p, lo), CanWrite(prot))
    {
      hide MemOk, SetWritable, CanWrite;
      ghost var m := Memory();
      var i := lo;
      SetKeeps(m, LocOf(p, lo), CanWrite(prot));
      SetTwice(m, LocOf(p, lo), CanWrite(prot));
      while i < hi
        invariant lo <= i && |procs| == m.spaces
        invariant Memory() == if i == lo then m else SetWritable(m, LocOf(p, lo), CanWrite(prot))
      {
        ChangePermissions(p, lo, prot);
        i := i + PAGE;
      }
    }

    /** mprotect of any range. Nobody's memory changes and every invariant survives; a page that must not be
        written any more stays writable exactly if writing was taken away and a page after the first has a
        writable entry. */
    method ProtectPages(p: nat, addr: nat, length: nat, prot: nat) returns (ans: Answer)
      requires Valid() && WellFormed(Protect(p, addr, length, prot), |procs|)
      modifies this, procs
      ensures Valid() && WorldOk(old(State())) && procs == old(procs)
      ensures Eager(old(State()), Protect(p, addr, length, prot), ans, State())
      ensures old(State()).stale == {} ==> (State().stale == {} <==>
        ans == Code(-1) || length == 0 || NoStaleBit(old(ptes), p, addr + PAGE, addr + RoundUp(length), prot))
    {
      hide Consistent, Canonical, View, At, Protects, NoStaleBit, SetWritable, StaleBits, WorldOk, Eager;
      hide MProtect.ProtectOutcome, AreasOf;
      ghost var w, areas, m := State(), Areas(), Memory();
      WorldStep(m, areas, brks);
      OneSpace(m, areas, brks, p);
      var ret := MProtect.Protect(procs[p], addr, length, prot);
      OneSpaceChanged(p);
      ans := Code(ret);
      MProtect.OutcomeProtects(areas[p], procs[p].areas, addr, length, prot, ret);
      if ret == 0 && RoundUp(length) > 0 {
        ChangeEntries(p, addr, addr + RoundUp(length), prot, areas);
      }
      EagerProtect(w, State(), p, addr, length, prot, procs[p].areas, ret);
    }

    /** The rest of mprotect, once the list has changed. */
    method ChangeEntries(p: nat, addr: nat, hi: nat, prot: nat, ghost areas: seq<seq<Area>>)
      requires Consistent(Memory(), areas, brks) && p < |areas| == |procs| && Canonical(procs[p].areas)
      requires addr % PAGE == 0 && WINDOW_START <= addr < hi && Protects(areas[p], procs[p].areas, addr, hi, prot)
      modifies this`ptes
      ensures Consistent(Memory(), areas[p := procs[p].areas], brks) && View(Memory()) == old(View(Memory()))
      ensures var before, after := StaleBits(old(ptes), areas, brks), StaleBits(ptes, areas[p := procs[p].areas], brks);
        && StaleAfter(World(areas, brks, View(Memory()), before), World(areas, brks, View(Memory()), after), p, addr, hi, prot)
        && (before == {} ==> (after == {} <==> NoStaleBit(old(ptes), p, addr + PAGE, hi, prot)))
    {
      hide Canonical, View, EntriesOk, FramesOk, OneHome, Agrees, Protects, NoStaleBit, SetWritable, StaleBits;
      ghost var m := Memory();
      ChangeFirstPage(p, addr, hi, prot);
      ProtectStep(m, areas, brks, p, procs[p].areas, addr, hi, prot);
      ViewComplete(m);
      ProtectStale(StaleBits(m.ptes, areas, brks), StaleBits(ptes, areas[p := procs[p].areas], brks), m.ptes, p,
        addr, hi, prot);
    }

    // ---------------------------------------------------------------- cfork

    /** cfork on one page: take the write bit from the parent's entry, copy it, and count the sharer. */
    method SharePage(p: nat, c: nat, v: nat)
      requires MemOk(Memory())
      modifies this`ptes, this`counts
      ensures Memory() == ShareOne(old(Memory()), p, c, v)
    {
      hide EntriesOk, FramesOk, OneHome;
      if Loc(p, v) !in ptes {
        return;
      }
      EntryCounted(Memory(), Loc(p, v));
      var f := ptes[Loc(p, v)].frame;
      ptes := ptes[Loc(p, v) := Pte(f, false)];
      ptes := ptes[Loc(c, v) := ptes[Loc(p, v)]];
      counts := counts[f := (counts[f] + 1) % U8];
    }

    /** cfork on the pages of one segment or area. */
    method ShareRange(p: nat, c: nat, lo: nat, hi: nat, ghost m: Mem)
      requires lo % PAGE == 0 && hi % PAGE == 0 && lo <= hi && p != c && c < m.spaces
      requires Forking(m, Memory(), p, c, PageOf(lo))
      modifies this`ptes, this`counts
      ensures Forking(m, Memory(), p, c, PageOf(hi))
    {
      hide EntriesOk, FramesOk, OneHome, CopiedBelow, ShareOne;
      var v := lo;
      while v < hi
        invariant lo <= v <= hi && v % PAGE == 0
        invariant Forking(m, Memory(), p, c, PageOf(v))
      {
        ForkNext(m, Memory(), p, c, PageOf(v));
        SharePage(p, c, PageOf(v));
        v := v + PAGE;
      }
    }

    /** The child's list is built node by node from the parent's. */
    method CopyAreas(p: nat) returns (child: AddressSpace)
      requires p < |procs|
      ensures fresh(child) && child.areas == procs[p].areas
    {
      child := new AddressSpace();
      var parent := procs[p];
      var i := 0;
      while i < |parent.areas|
        invariant i <= |parent.areas| && fresh(child) && child.areas == parent.areas[..i]
        invariant unchanged(parent)
      {
        var node := Area(parent.areas[i].start, parent.areas[i].end, parent.areas[i].prot);
        child.areas := child.areas + [node];
        i := i + 1;
      }
    }

    /** The new process: the parent's data segment and a copy of its list. */
    method AddChild(p: nat)
      requires Distinct() && p < |procs| == |brks|
      modifies this`procs, this`brks
      ensures |procs| == |old(procs)| + 1 && procs[..|old(procs)|] == old(procs) && fresh(procs[|old(procs)|])
      ensures Distinct() && Areas() == old(Areas()) + [old(Areas())[p]] && brks == old(brks) + [old(brks)[p]]
    {
      var child := CopyAreas(p);
      procs := procs + [child];
      brks := brks + [brks[p]];
      assert procs[..|procs| - 1] == old(procs);
    }

    /** cfork: areas are copied, pages are shared read-only, and yet the child owns a copy of everything. */
    method ForkSpace(p: nat) returns (ans: Answer)
      requires Valid() && WellFormed(Fork(p), |procs|)
      modifies this
      ensures Valid() && WorldOk(old(State()))
      ensures |procs| == |old(procs)| + 1 && procs[..|old(procs)|] == old(procs) && fresh(procs[|old(procs)|])
      ensures Eager(old(State()), Fork(p), ans, State())
    {
      hide Consistent, Canonical, Forking, Copied, View, StaleBits, WorldOk, Eager;
      ghost var w, areas, m, spaces := State(), Areas(), Memory(), brks;
      WorldStep(m, areas, brks);
      AddChild(p);
      ForkFirst(m, areas, spaces, p);
      ShareAll(p, |procs| - 1, m, areas, spaces);
      ForkLast(m, areas, spaces, p);
      ForkDone(m, Memory(), areas, spaces, p, PageOf(DoneUpTo(areas[p], spaces[p], |areas[p]|)));
      EagerFork(w, State(), p);
      ans := Code(|procs| - 1);
    }

    /** The data segment first, then the areas in list order. */
    method ShareAll(p: nat, c: nat, ghost m: Mem, ghost areas: seq<seq<Area>>, ghost spaces: seq<int>)
      requires Consistent(m, areas, spaces) && p < |areas| == c == |spaces| == m.spaces && c < |procs| && c < |brks|
      requires procs[p].areas == areas[p] && brks[p] == spaces[p]
      requires Forking(AddSpace(m), Memory(), p, c, PageOf(DATA_START))
      modifies this`ptes, this`counts
      ensures DoneUpTo(areas[p], spaces[p], |areas[p]|) >= 0
      ensures Forking(AddSpace(m), Memory(), p, c, PageOf(DoneUpTo(areas[p], spaces[p], |areas[p]|)))
    {
      hide Consistent, Canonical, Forking;
      OneSpace(m, areas, spaces, p);
      ShareRange(p, c, DATA_START, brks[p], AddSpace(m));
      var list, i := procs[p].areas, 0;
      while i < |list|
        invariant i <= |list| && 0 <= DoneUpTo(list, spaces[p], i)
        invariant Forking(AddSpace(m), Memory(), p, c, PageOf(DoneUpTo(list, spaces[p], i)))
      {
        NextAreaAbove(list, spaces[p], i);
        ForkJump(m, Memory(), areas, spaces, p, i);
        ShareRange(p, c, list[i].start, list[i].end, AddSpace(m));
        i := i + 1;
      }
    }

    // ---------------------------------------------------------------- whole runs

    /** Any command is a step of eager copying, wherever the allocator finds its frames. */
    method Step(c: Command, cursor: nat) returns (ans: Answer)
      requires Valid() && WellFormed(c, |procs|)
      modifies this, procs
      ensures Valid() && WorldOk(old(State())) && Eager(old(State()), c, ans, State())
      ensures |procs| == |old(procs)| + (if c.Fork? then 1 else 0)
      ensures forall i :: 0 <= i < |procs| ==> procs[i] in old(procs) || fresh(procs[i])
    {
      hide Valid, Eager, WorldOk, Consistent, View;
      match c
      case Load(p, addr, junk) =>
        var nf := AllocFrame(cursor);
        ans := LoadByte(p, addr, nf, junk);
      case Store(p, addr, byte, junk) =>
        var nf := AllocFrame(cursor);
        ans := StoreByte(p, addr, byte, nf, junk);
      case Fork(p) =>
        ans := ForkSpace(p);
      case Map(p, addr, length, prot, fixed) =>
        ans := MapPages(p, addr, length, prot, fixed);
      case Unmap(p, addr, length) =>
        ans := UnmapPages(p, addr, length);
      case Protect(p, addr, length, prot) =>
        ans := ProtectPages(p, addr, length, prot);
      case Expand(p, pages) =>
        ans := ExpandData(p, pages);
    }

    /** Every run, from every state the kernel can be in, is a run of eager copying. */
    method Execute(commands: seq<Command>, cursors: seq<nat>) returns (answers: seq<Answer>, ghost trace: seq<World>)
      requires Valid() && WellFormedRun(commands, |procs|) && |cursors| == |commands|
      modifies this, procs
      ensures Valid() && EagerRun(commands, answers, trace)
      ensures trace[0] == old(State()) && trace[|commands|] == State()
    {
      hide Valid, Eager, WorldOk, Consistent, WellFormed, WellFormedRun, View, EagerRun, State;
      EmptyRun(State());
      answers, trace := [], [State()];
      var i := 0;
      while i < |commands|
        invariant i <= |commands| && |answers| == i && |trace| == i + 1
        invariant Valid() && WellFormedRun(commands[i..], |procs|)
        invariant forall j :: 0 <= j < |procs| ==> procs[j] in old(procs) || fresh(procs[j])
        invariant trace[0] == old(State()) && trace[i] == State()
        invariant EagerRun(commands[..i], answers, trace)
      {
        var c := commands[i];
        RestWellFormed(commands, i, |procs|);
        var ans := Step(c, cursors[i]);
        assert commands[..i + 1] == commands[..i] + [c];
        RunExtends(commands[..i], answers, trace, c, ans, State());
        answers, trace := answers + [ans], trace + [State()];
        i := i + 1;
      }
      assert commands[..i] == commands;
    }
  }
}
