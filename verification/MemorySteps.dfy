/** What each step of the kernel does to the invariant and to the memory that the spaces see. */
module MemorySteps {
  import opened Options
  import opened AreaLists
  import opened AreaInsertion
  import opened AreaRemoval
  import opened AreaProtection
  import opened AddressSpaces
  import opened CowMemory
  import opened EagerCopies
  import opened TableAgreement

  ghost predicate FullPages(pages: map<nat, Page>) {
    forall f :: f in pages ==> |pages[f]| == PAGE
  }

  ghost predicate SpacesOk(areas: seq<seq<Area>>, brks: seq<int>) {
    && |areas| == |brks|
    && forall i :: 0 <= i < |areas| ==> Canonical(areas[i]) && BreakOk(brks[i])
  }

  /** Counts are right, write bits are exclusive, areas are canonical, and tables agree with areas. */
  ghost predicate Consistent(m: Mem, areas: seq<seq<Area>>, brks: seq<int>) {
    && m.spaces == |areas| <= U8
    && SpacesOk(areas, brks)
    && MemOk(m)
    && FullPages(m.pages)
    && Agrees(m.ptes, areas, brks)
  }

  lemma ViewComplete(m: Mem)
    requires EntriesOk(m) && FullPages(m.pages)
    ensures Complete(View(m))
    ensures View(m).Keys == m.ptes.Keys
  {
    forall l | l in m.ptes ensures m.ptes[l].frame in m.pages {
      assert EntryOk(m, l);
    }
  }

  lemma WorldStep(m: Mem, areas: seq<seq<Area>>, brks: seq<int>)
    requires Consistent(m, areas, brks)
    ensures WorldOk(World(areas, brks, View(m), StaleBits(m.ptes, areas, brks)))
  {
    ViewComplete(m);
  }

  lemma OneSpace(m: Mem, areas: seq<seq<Area>>, brks: seq<int>, p: nat)
    requires Consistent(m, areas, brks) && p < |areas|
    ensures Canonical(areas[p]) && BreakOk(brks[p])
  {
  }

  /** A present entry: its frame is allocated and full, and what it allows is permitted. */
  lemma EntryStep(m: Mem, areas: seq<seq<Area>>, brks: seq<int>, p: nat, addr: nat)
    requires Consistent(m, areas, brks) && p < |areas| && LocOf(p, addr) in m.ptes
    ensures var e := m.ptes[LocOf(p, addr)];
      && e.frame in m.pages && e.frame in m.counts && |m.pages[e.frame]| == PAGE
      && EntryOk(m, LocOf(p, addr)) && LocOf(p, addr) in View(m) && View(m)[LocOf(p, addr)] == m.pages[e.frame]
      && Allowed(areas[p], brks[p], addr, false)
      && (LocOf(p, addr) in StaleBits(m.ptes, areas, brks) <==> e.writable && !Allowed(areas[p], brks[p], addr, true))
  {
    hide OneHome, Agrees, Canonical, Allowed;
    assert EntryOk(m, LocOf(p, addr));
    OneSpace(m, areas, brks, p);
    PresentIsReadable(m.ptes, LocOf(p, addr), areas, brks, addr);
  }

  lemma MissStep(m: Mem, areas: seq<seq<Area>>, brks: seq<int>, p: nat, addr: nat, write: bool, nf: nat, junk: Page)
    requires Consistent(m, areas, brks) && p < |areas| && LocOf(p, addr) !in m.ptes
    requires nf !in m.pages && |junk| == PAGE
    ensures LocOf(p, addr) !in View(m) && LocOf(p, addr) !in StaleBits(m.ptes, areas, brks)
    ensures Allowed(areas[p], brks[p], addr, write) ==>
      var u := Install(m, LocOf(p, addr), nf, junk, write);
      && Consistent(u, areas, brks) && View(u) == Touch(View(m), LocOf(p, addr), junk)
      && StaleBits(u.ptes, areas, brks) == StaleBits(m.ptes, areas, brks)
  {
    hide EntriesOk, FramesOk, OneHome, Agrees, Canonical;
    OneSpace(m, areas, brks, p);
    if Allowed(areas[p], brks[p], addr, write) {
      AllowedPage(areas[p], brks[p], addr, write);
      InstallKeeps(m, LocOf(p, addr), nf, junk, write);
      InstallView(m, LocOf(p, addr), nf, junk, write);
      PutAgrees(m.ptes, LocOf(p, addr), Pte(nf, write), areas, brks);
    }
  }

  lemma CowStep(m: Mem, areas: seq<seq<Area>>, brks: seq<int>, p: nat, addr: nat, nf: nat)
    requires Consistent(m, areas, brks) && p < |areas| && LocOf(p, addr) in m.ptes
    requires nf !in m.pages
    ensures EntryOk(m, LocOf(p, addr))
    ensures Allowed(areas[p], brks[p], addr, true) ==>
      var u := CowFault(m, LocOf(p, addr), nf);
      && Consistent(u, areas, brks) && View(u) == View(m)
      && LocOf(p, addr) in u.ptes && u.ptes[LocOf(p, addr)].writable
      && StaleBits(u.ptes, areas, brks) == StaleBits(m.ptes, areas, brks)
  {
    hide EntriesOk, FramesOk, OneHome, Agrees, Canonical;
    var l := LocOf(p, addr);
    EntryStep(m, areas, brks, p, addr);
    CowKeeps(m, l, nf);
    CowView(m, l, nf);
    OneSpace(m, areas, brks, p);
    if Allowed(areas[p], brks[p], addr, true) {
      AllowedPage(areas[p], brks[p], addr, true);
      var u := CowFault(m, l, nf);
      PutAgrees(m.ptes, l, u.ptes[l], areas, brks);
      assert u.ptes == m.ptes[l := u.ptes[l]];
    }
  }

  lemma PokeStep(m: Mem, areas: seq<seq<Area>>, brks: seq<int>, p: nat, addr: nat, b: int)
    requires Consistent(m, areas, brks) && p < |areas|
    requires LocOf(p, addr) in m.ptes && m.ptes[LocOf(p, addr)].writable
    ensures EntryOk(m, LocOf(p, addr)) && |m.pages[m.ptes[LocOf(p, addr)].frame]| == PAGE
    ensures LocOf(p, addr) in View(m) && |View(m)[LocOf(p, addr)]| == PAGE
    ensures
      var u, v := Poke(m, LocOf(p, addr), addr % PAGE, b), View(m);
      && Consistent(u, areas, brks) && View(u) == v[LocOf(p, addr) := v[LocOf(p, addr)][addr % PAGE := b]]
      && StaleBits(u.ptes, areas, brks) == StaleBits(m.ptes, areas, brks)
  {
    hide EntriesOk, FramesOk, OneHome, Agrees, Canonical;
    EntryStep(m, areas, brks, p, addr);
    PokeKeeps(m, LocOf(p, addr), addr % PAGE, b);
    PokeView(m, LocOf(p, addr), addr % PAGE, b);
  }

  lemma NothingMapped(spaces: nat)
    ensures var m := Mem(spaces, map[], map[], map[]); MemOk(m) && View(m) == map[]
  {
  }

  lemma FirstFrame(content: Page)
    requires |content| == PAGE
    ensures var l := Loc(0, PageOf(DATA_START));
      var m := Mem(1, map[l := Pte(0, true)], map[0 := content], map[0 := 1]);
      && Consistent(m, [[]], [DATA_START + PAGE]) && View(m) == map[l := content]
      && StaleBits(m.ptes, [[]], [DATA_START + PAGE]) == {}
  {
    hide MemOk, View;
    var m, l := Mem(1, map[], map[], map[]), Loc(0, PageOf(DATA_START));
    NothingMapped(1);
    InstallKeeps(m, l, 0, content, true);
    InstallView(m, l, 0, content, true);
    PutAgrees(m.ptes, l, Pte(0, true), [[]], [DATA_START + PAGE]);
  }

  // ---------------------------------------------------------------- areas of one space change

  lemma SpacesStep(areas: seq<seq<Area>>, brks: seq<int>, p: nat, t: seq<Area>)
    requires SpacesOk(areas, brks) && p < |areas| && Canonical(t)
    ensures SpacesOk(areas[p := t], brks)
  {
  }

  lemma MapStep(m: Mem, areas: seq<seq<Area>>, brks: seq<int>, p: nat, t: seq<Area>)
    requires Consistent(m, areas, brks) && p < |areas| && Canonical(t)
    requires forall a :: At(areas[p], a).Some? ==> At(t, a) == At(areas[p], a)
    ensures Consistent(m, areas[p := t], brks)
    ensures StaleBits(m.ptes, areas[p := t], brks) == StaleBits(m.ptes, areas, brks)
  {
    hide MemOk, Agrees, Canonical, At, FullPages;
    SpacesStep(areas, brks, p, t);
    MapAgrees(m.ptes, areas, brks, p, t);
  }

  lemma ExpandStep(m: Mem, areas: seq<seq<Area>>, brks: seq<int>, p: nat, brk: int)
    requires Consistent(m, areas, brks) && p < |areas| && brks[p] <= brk && BreakOk(brk)
    ensures Consistent(m, areas, brks[p := brk])
    ensures StaleBits(m.ptes, areas, brks[p := brk]) == StaleBits(m.ptes, areas, brks)
  {
    OneSpace(m, areas, brks, p);
    ExpandAgrees(m.ptes, areas, brks, p, brk);
  }

  /** Addresses outside the areas and the data segment have no entries. */
  lemma NothingPresent(m: Mem, areas: seq<seq<Area>>, brks: seq<int>, p: nat, page: nat)
    requires Consistent(m, areas, brks) && p < |areas|
    requires At(areas[p], page * PAGE) == None && !(DATA_START <= page * PAGE < brks[p])
    ensures Loc(p, page) !in m.ptes
  {
    assert Loc(p, page) in m.ptes ==> EntryAgrees(m.ptes, Loc(p, page), areas, brks);
  }

  // ---------------------------------------------------------------- munmap

  /** The entries of space `p` in [lo, hi) are gone from `m`, and nothing else is. */
  ghost predicate Dropped(m: Mem, u: Mem, p: nat, lo: nat, hi: nat) {
    && MemOk(u) && u.spaces == m.spaces && FullPages(u.pages)
    && (forall l :: l in u.ptes <==> l in m.ptes && !(l.space == p && lo <= l.page < hi))
    && (forall l :: l in u.ptes ==> u.ptes[l] == m.ptes[l])
    && Removed(View(m), View(u), p, lo, hi)
  }

  lemma DropFull(m: Mem, l: Loc)
    requires FullPages(m.pages)
    ensures FullPages(DropOne(m, l).pages) && DropOne(m, l).spaces == m.spaces
  {
  }

  lemma RemovedNext(a: map<Loc, Page>, b: map<Loc, Page>, p: nat, lo: nat, hi: nat)
    requires Removed(a, b, p, lo, hi) && lo <= hi
    ensures Removed(a, b - {Loc(p, hi)}, p, lo, hi + 1)
  {
    var c := b - {Loc(p, hi)};
    forall l ensures Look(c, l) == if l.space == p && lo <= l.page < hi + 1 then None else Look(a, l) {
      assert Look(b, l) == if l.space == p && lo <= l.page < hi then None else Look(a, l);
    }
  }

  lemma DropNext(m: Mem, u: Mem, p: nat, lo: nat, hi: nat)
    requires Dropped(m, u, p, lo, hi) && lo <= hi && m.spaces <= U8
    ensures Dropped(m, DropOne(u, Loc(p, hi)), p, lo, hi + 1)
  {
    hide EntriesOk, FramesOk, OneHome, FullPages, View, Removed, DropOne;
    DropKeeps(u, Loc(p, hi));
    DropTable(u, Loc(p, hi));
    DropView(u, Loc(p, hi));
    DropFull(u, Loc(p, hi));
    RemovedNext(View(m), View(u), p, lo, hi);
  }

  lemma DropNone(m: Mem, p: nat, lo: nat)
    requires MemOk(m) && FullPages(m.pages)
    ensures Dropped(m, m, p, lo, lo)
  {
  }

  lemma UnmapStep(m: Mem, u: Mem, areas: seq<seq<Area>>, brks: seq<int>, p: nat, t: seq<Area>, lo: nat, hi: nat)
    requires Consistent(m, areas, brks) && p < |areas| && Canonical(t)
    requires lo % PAGE == 0 && hi % PAGE == 0 && (hi <= DATA_START || WINDOW_START <= lo)
    requires UnmapsRange(areas[p], t, lo, hi) && Dropped(m, u, p, PageOf(lo), PageOf(hi))
    ensures Consistent(u, areas[p := t], brks) && Removed(View(m), View(u), p, PageOf(lo), PageOf(hi))
    ensures forall l :: l in StaleBits(u.ptes, areas[p := t], brks) <==>
      l in StaleBits(m.ptes, areas, brks) && !InRange(l, p, lo, hi)
  {
    hide MemOk, Agrees, Canonical, FullPages, UnmapsRange, Removed;
    SpacesStep(areas, brks, p, t);
    UnmapAgrees(m.ptes, u.ptes, areas, brks, p, t, lo, hi);
  }

  /** munmap on an empty list has nothing to do. */
  lemma UnmapEmpty(m: Mem, areas: seq<seq<Area>>, brks: seq<int>, p: nat, lo: nat, hi: nat)
    requires Consistent(m, areas, brks) && p < |areas| && areas[p] == []
    requires lo % PAGE == 0 && hi % PAGE == 0 && (hi <= DATA_START || WINDOW_START <= lo)
    ensures Cut([], lo, hi) == [] && Removed(View(m), View(m), p, PageOf(lo), PageOf(hi))
    ensures forall l :: l in StaleBits(m.ptes, areas, brks) ==> !InRange(l, p, lo, hi)
  {
    hide Consistent, Look;
    forall l | InRange(l, p, lo, hi) ensures l !in m.ptes {
      EmptyHasNone(m, areas, brks, l);
    }
    forall l: Loc ensures l.space == p && PageOf(lo) <= l.page < PageOf(hi) ==> Look(View(m), l) == None {
      OutsidePages(lo, hi, l.page);
      NotLooked(m, l);
    }
  }

  lemma NotLooked(m: Mem, l: Loc)
    ensures l !in m.ptes ==> Look(View(m), l) == None
  {
  }

  lemma EmptyHasNone(m: Mem, areas: seq<seq<Area>>, brks: seq<int>, l: Loc)
    requires Consistent(m, areas, brks) && l.space < |areas| && areas[l.space] == []
    requires l.page * PAGE < DATA_START || WINDOW_START <= l.page * PAGE
    ensures l !in m.ptes
  {
    OneSpace(m, areas, brks, l.space);
    NothingPresent(m, areas, brks, l.space, l.page);
  }

  // ---------------------------------------------------------------- mprotect

  lemma SetTwice(m: Mem, l: Loc, writable: bool)
    ensures SetWritable(SetWritable(m, l, writable), l, writable) == SetWritable(m, l, writable)
  {
    if l in m.ptes && m.ptes[l].frame in m.counts && m.counts[m.ptes[l].frame] == 1 {
      var e := Pte(m.ptes[l].frame, writable);
      assert m.ptes[l := e][l := e] == m.ptes[l := e];
    }
  }

  /** The first page is the one whose entry has been rewritten. */
  lemma FirstPage(l: Loc, p: nat, lo: nat, hi: int)
    requires lo % PAGE == 0
    ensures InRange(l, p, lo, hi) ==> (l == LocOf(p, lo) <==> l.page * PAGE == lo)
    ensures InRange(l, p, lo + PAGE, hi) <==> InRange(l, p, lo, hi) && l != LocOf(p, lo)
  {
    assert lo == PageOf(lo) * PAGE;
  }

  /** mprotect rewrites the first page's entry only: every invariant survives, and the stale pages of the range
      are the later ones with a writable entry, if writing was taken away. */
  lemma ProtectStep(m: Mem, areas: seq<seq<Area>>, brks: seq<int>, p: nat, t: seq<Area>, lo: nat, hi: int, prot: nat)
    requires Consistent(m, areas, brks) && p < |areas| && Canonical(t)
    requires lo % PAGE == 0 && WINDOW_START <= lo < hi && Protects(areas[p], t, lo, hi, prot)
    ensures var u := SetWritable(m, LocOf(p, lo), CanWrite(prot));
      && View(u) == View(m) && Consistent(u, areas[p := t], brks)
      && forall l :: l in StaleBits(u.ptes, areas[p := t], brks) <==>
           if InRange(l, p, lo, hi)
           then l != LocOf(p, lo) && l in m.ptes && m.ptes[l].writable && !CanWrite(prot)
           else l in StaleBits(m.ptes, areas, brks)
  {
    hide MemOk, Agrees, Canonical, FullPages, Protects, View, CanWrite, StaleBits;
    var l := LocOf(p, lo);
    var u := SetWritable(m, l, CanWrite(prot));
    SetKeeps(m, l, CanWrite(prot));
    SetView(m, l, CanWrite(prot));
    SpacesStep(areas, brks, p, t);
    OneSpace(m, areas, brks, p);
    assert lo == PageOf(lo) * PAGE;
    ProtectAgrees(m.ptes, u.ptes, areas, brks, p, t, lo, hi, prot);
  }

  /** The stale pages after mprotect, and exactly when there are none. */
  lemma ProtectStale(before: set<Loc>, after: set<Loc>, t: Table, p: nat, lo: nat, hi: int, prot: nat)
    requires lo % PAGE == 0
    requires forall l :: l in after <==>
      if InRange(l, p, lo, hi) then l != LocOf(p, lo) && l in t && t[l].writable && !CanWrite(prot) else l in before
    ensures forall l ::
      if InRange(l, p, lo, hi) then l in after ==> !CanWrite(prot) && l in t && l.page * PAGE != lo
      else l in after <==> l in before
    ensures before == {} ==> (after == {} <==> NoStaleBit(t, p, lo + PAGE, hi, prot))
  {
    forall l ensures InRange(l, p, lo, hi) ==> (l == LocOf(p, lo) <==> l.page * PAGE == lo)
      ensures InRange(l, p, lo + PAGE, hi) <==> InRange(l, p, lo, hi) && l != LocOf(p, lo)
    {
      FirstPage(l, p, lo, hi);
    }
    if before == {} && after == {} {
      forall l | l in t && InRange(l, p, lo + PAGE, hi) ensures !t[l].writable || CanWrite(prot) {
        assert l !in after;
      }
    }
  }

  /** The first two pages of the window. */
  const FIRST: Loc := Loc(0, PageOf(WINDOW_START))
  const SECOND: Loc := Loc(0, PageOf(WINDOW_START) + 1)

  /** Two resident writable pages of one area. */
  function TwoPages(a: Page, b: Page): Mem {
    Install(Install(Mem(1, map[], map[], map[]), FIRST, 0, a, true), SECOND, 1, b, true)
  }

  lemma TwoPagesOk(a: Page, b: Page, areas: seq<seq<Area>>, brks: seq<int>)
    requires |a| == PAGE && |b| == PAGE && SpacesOk(areas, brks) && |areas| == 1
    requires Allowed(areas[0], brks[0], WINDOW_START, true) && Allowed(areas[0], brks[0], WINDOW_START + PAGE, true)
    ensures Consistent(TwoPages(a, b), areas, brks) && StaleBits(TwoPages(a, b).ptes, areas, brks) == {}
  {
    hide MemOk, View, Canonical, Allowed;
    var m := Mem(1, map[], map[], map[]);
    NothingMapped(1);
    assert FIRST.page * PAGE == WINDOW_START && SECOND.page * PAGE == WINDOW_START + PAGE;
    InstallKeeps(m, FIRST, 0, a, true);
    PutAgrees(m.ptes, FIRST, Pte(0, true), areas, brks);
    var n := Install(m, FIRST, 0, a, true);
    InstallKeeps(n, SECOND, 1, b, true);
    PutAgrees(n.ptes, SECOND, Pte(1, true), areas, brks);
  }

  /** The area of the two pages before and after writing is taken away. */
  const WRITABLE: seq<Area> := [Area(WINDOW_START, WINDOW_START + 2 * PAGE, 3)]
  const READABLE: seq<Area> := [Area(WINDOW_START, WINDOW_START + 2 * PAGE, 1)]

  lemma TwoPageAreas()
    ensures Canonical(WRITABLE) && Canonical(READABLE)
    ensures Protects(WRITABLE, READABLE, WINDOW_START, WINDOW_START + 2 * PAGE, 1)
    ensures forall brk :: BreakOk(brk) ==>
      && Allowed(WRITABLE, brk, WINDOW_START, true) && Allowed(WRITABLE, brk, WINDOW_START + PAGE, true)
      && !Allowed(READABLE, brk, WINDOW_START + PAGE, true)
  {
    forall x
      ensures At(WRITABLE, x) == if WRITABLE[0].Has(x) then Some(3) else None
      ensures At(READABLE, x) == if READABLE[0].Has(x) then Some(1) else None
    {
      AtOne(WRITABLE[0], x);
      AtOne(READABLE[0], x);
    }
  }

  /** It happens: mprotect makes two resident pages read-only, and the second can still be written. */
  lemma StaleBitRemains(a: Page, b: Page)
    requires |a| == PAGE && |b| == PAGE
    ensures
      var brks := [DATA_START + PAGE];
      var m := TwoPages(a, b);
      var u := SetWritable(m, FIRST, CanWrite(1));
      && Consistent(m, [WRITABLE], brks) && StaleBits(m.ptes, [WRITABLE], brks) == {}
      && Protects(WRITABLE, READABLE, WINDOW_START, WINDOW_START + 2 * PAGE, 1)
      && Consistent(u, [READABLE], brks) && StaleBits(u.ptes, [READABLE], brks) == {SECOND}
      && !Allowed(READABLE, brks[0], WINDOW_START + PAGE, true) && u.ptes[SECOND].writable
  {
    hide Consistent, Canonical, Protects, StaleBits, Allowed, SetWritable;
    var brks := [DATA_START + PAGE];
    TwoPageAreas();
    TwoPagesOk(a, b, [WRITABLE], brks);
    StaleSecond(TwoPages(a, b), WRITABLE, READABLE, brks);
  }

  lemma StaleSecond(m: Mem, s: seq<Area>, t: seq<Area>, brks: seq<int>)
    requires Consistent(m, [s], brks) && StaleBits(m.ptes, [s], brks) == {} && Canonical(t)
    requires Protects(s, t, WINDOW_START, WINDOW_START + 2 * PAGE, 1)
    requires m.ptes.Keys == {FIRST, SECOND} && m.ptes[SECOND].writable
    ensures var u := SetWritable(m, FIRST, CanWrite(1));
      && Consistent(u, [t], brks) && StaleBits(u.ptes, [t], brks) == {SECOND} && u.ptes[SECOND].writable
  {
    hide Consistent, Canonical, Protects, StaleBits;
    assert [s][0 := t] == [t] && LocOf(0, WINDOW_START) == FIRST;
    ProtectStep(m, [s], brks, 0, t, WINDOW_START, WINDOW_START + 2 * PAGE, 1);
    SetView(m, FIRST, CanWrite(1));
    assert InRange(SECOND, 0, WINDOW_START, WINDOW_START + 2 * PAGE) && !CanWrite(1);
  }

  // ---------------------------------------------------------------- cfork

  /** The pages of `p` below `limit` have been shared with the new space `c`. */
  ghost predicate Forking(m: Mem, u: Mem, p: nat, c: nat, limit: nat) {
    && MemOk(u) && u.spaces == m.spaces && u.pages == m.pages
    && (forall l :: l in u.ptes && u.ptes[l].writable ==> l.space != c && !(l.space == p && l.page < limit))
    && (forall l :: l in m.ptes && l.space != p ==> l in u.ptes && u.ptes[l] == m.ptes[l])
    && (forall l :: l in u.ptes && l.space != c ==> l in m.ptes)
    && CopiedBelow(View(m), View(u), p, c, limit)
  }

  ghost predicate CopiedBelow(a: map<Loc, Page>, b: map<Loc, Page>, p: nat, c: nat, limit: nat) {
    forall l :: Look(b, l) ==
      if l.space != c then Look(a, l) else if l.page < limit then Look(a, Loc(p, l.page)) else None
  }

  lemma TableIsView(m: Mem, l: Loc)
    requires EntriesOk(m)
    ensures l in m.ptes <==> l in View(m)
  {
    if l in m.ptes {
      assert EntryOk(m, l);
    }
  }

  lemma CopiedNext(a: map<Loc, Page>, b: map<Loc, Page>, d: map<Loc, Page>, p: nat, c: nat, v: nat)
    requires CopiedBelow(a, b, p, c, v) && p != c
    requires d == if Loc(p, v) in b then b[Loc(c, v) := b[Loc(p, v)]] else b
    ensures CopiedBelow(a, d, p, c, v + 1)
  {
    assert Look(b, Loc(p, v)) == Look(a, Loc(p, v));
    forall l ensures Look(d, l) ==
      if l.space != c then Look(a, l) else if l.page < v + 1 then Look(a, Loc(p, l.page)) else None
    {
      assert Look(b, l) ==
        if l.space != c then Look(a, l) else if l.page < v then Look(a, Loc(p, l.page)) else None;
    }
  }

  lemma NotYetCopied(a: map<Loc, Page>, b: map<Loc, Page>, p: nat, c: nat, v: nat)
    requires CopiedBelow(a, b, p, c, v)
    ensures Loc(c, v) !in b
  {
    assert Look(b, Loc(c, v)) == None;
  }

  lemma MemEntries(m: Mem)
    requires MemOk(m)
    ensures EntriesOk(m)
  {
  }

  lemma EntryCounted(m: Mem, l: Loc)
    requires MemOk(m) && l in m.ptes
    ensures m.ptes[l].frame in m.pages && m.ptes[l].frame in m.counts
  {
    assert EntryOk(m, l) && FrameOk(m.ptes, m.counts, m.ptes[l].frame);
  }

  lemma ShareTable(m: Mem, p: nat, c: nat, v: nat)
    requires MemOk(m)
    ensures ShareOne(m, p, c, v).spaces == m.spaces && ShareOne(m, p, c, v).pages == m.pages
    ensures ShareOne(m, p, c, v).ptes ==
      if Loc(p, v) !in m.ptes then m.ptes
      else var e := Pte(m.ptes[Loc(p, v)].frame, false); m.ptes[Loc(p, v) := e][Loc(c, v) := e]
  {
    if Loc(p, v) in m.ptes {
      assert EntryOk(m, Loc(p, v));
    }
  }

  lemma ForkNext(m: Mem, u: Mem, p: nat, c: nat, v: nat)
    requires Forking(m, u, p, c, v) && p != c && c < m.spaces
    ensures Forking(m, ShareOne(u, p, c, v), p, c, v + 1)
  {
    hide MemOk, View, CopiedBelow, ShareOne;
    ShareTable(u, p, c, v);
    MemEntries(u);
    NotYetCopied(View(m), View(u), p, c, v);
    TableIsView(u, Loc(c, v));
    ShareKeeps(u, p, c, v);
    ShareView(u, p, c, v);
    CopiedNext(View(m), View(u), View(ShareOne(u, p, c, v)), p, c, v);
  }

  /** An empty new space shares nothing yet. */
  lemma ForkStart(m: Mem, areas: seq<seq<Area>>, brks: seq<int>, p: nat)
    requires Consistent(m, areas, brks)
    ensures Forking(AddSpace(m), AddSpace(m), p, m.spaces, 0) && View(AddSpace(m)) == View(m)
  {
    AddSpaceKeeps(m);
    forall l | l in m.ptes ensures l.space < m.spaces {
      assert EntryOk(m, l);
    }
  }

  /** Pages that the parent does not have need no sharing. */
  lemma ForkSkip(m: Mem, u: Mem, p: nat, c: nat, v: nat, w: nat)
    requires Forking(m, u, p, c, v) && v <= w
    requires forall x :: v <= x < w ==> Loc(p, x) !in m.ptes
    ensures Forking(m, u, p, c, w)
  {
    hide MemOk, CopiedBelow, View;
    forall x | v <= x < w ensures Loc(p, x) !in View(m) {
      NotLooked(m, Loc(p, x));
    }
    CopiedSkip(View(m), View(u), p, c, v, w);
  }

  lemma CopiedSkip(a: map<Loc, Page>, b: map<Loc, Page>, p: nat, c: nat, v: nat, w: nat)
    requires CopiedBelow(a, b, p, c, v) && v <= w && forall x :: v <= x < w ==> Loc(p, x) !in a
    ensures CopiedBelow(a, b, p, c, w)
  {
    forall l ensures Look(b, l) ==
      if l.space != c then Look(a, l) else if l.page < w then Look(a, Loc(p, l.page)) else None
    {
      assert Look(b, l) ==
        if l.space != c then Look(a, l) else if l.page < v then Look(a, Loc(p, l.page)) else None;
    }
  }

  lemma CopiedAll(a: map<Loc, Page>, b: map<Loc, Page>, p: nat, c: nat, limit: nat)
    requires CopiedBelow(a, b, p, c, limit) && forall x :: x >= limit ==> Loc(p, x) !in a
    ensures Copied(a, b, p, c)
  {
    forall l ensures Look(b, l) == Look(a, if l.space == c then Loc(p, l.page) else l) {
      assert Look(b, l) ==
        if l.space != c then Look(a, l) else if l.page < limit then Look(a, Loc(p, l.page)) else None;
    }
  }

  lemma SpacesGrow(areas: seq<seq<Area>>, brks: seq<int>, p: nat)
    requires SpacesOk(areas, brks) && p < |areas|
    ensures SpacesOk(areas + [areas[p]], brks + [brks[p]])
  {
  }

  /** Where every page of the parent is shared, the child has a copy of all of its memory. */
  lemma ForkDone(m: Mem, u: Mem, areas: seq<seq<Area>>, brks: seq<int>, p: nat, limit: nat)
    requires Consistent(m, areas, brks) && p < |areas| < U8
    requires Forking(AddSpace(m), u, p, |areas|, limit)
    requires forall x :: x >= limit ==> Loc(p, x) !in m.ptes
    ensures Consistent(u, areas + [areas[p]], brks + [brks[p]])
    ensures Copied(View(m), View(u), p, |areas|)
    ensures forall l :: l in StaleBits(u.ptes, areas + [areas[p]], brks + [brks[p]]) <==>
      l in StaleBits(m.ptes, areas, brks) && l.space != p
  {
    hide FramesOk, OneHome, Canonical, Agrees, FullPages, Copied, CopiedBelow;
    AddSpaceKeeps(m);
    SpacesGrow(areas, brks, p);
    CopiedAll(View(m), View(u), p, |areas|, limit);
    forall l | l in u.ptes
      ensures if l.space == |areas| then Loc(p, l.page) in m.ptes && !u.ptes[l].writable else l in m.ptes
      ensures l.space == p ==> !u.ptes[l].writable
    {
      TableIsView(u, l);
      CopiedFrom(View(m), View(u), p, |areas|, l);
      TableIsView(m, Loc(p, l.page));
      TableIsView(m, l);
    }
    ForkAgrees(m.ptes, u.ptes, areas, brks, p);
  }

  lemma CopiedFrom(a: map<Loc, Page>, b: map<Loc, Page>, p: nat, c: nat, l: Loc)
    requires Copied(a, b, p, c) && l in b
    ensures (if l.space == c then Loc(p, l.page) else l) in a
  {
    assert Look(b, l) == Look(a, if l.space == c then Loc(p, l.page) else l);
  }

  /** Between the data segment and the first area, between neighbouring areas, and behind the last one. */
  lemma GapHasNoPages(m: Mem, areas: seq<seq<Area>>, brks: seq<int>, p: nat, k: int, page: nat)
    requires Consistent(m, areas, brks) && p < |areas| && -1 <= k < |areas[p]|
    requires (if k == -1 then brks[p] else areas[p][k].end) <= page * PAGE
    requires k < |areas[p]| - 1 ==> page * PAGE < areas[p][k + 1].start
    ensures Loc(p, page) !in m.ptes
  {
    OneSpace(m, areas, brks, p);
    AtGap(areas[p], k, page * PAGE);
    NothingPresent(m, areas, brks, p, page);
  }

  lemma BelowDataNoPages(m: Mem, areas: seq<seq<Area>>, brks: seq<int>, p: nat, page: nat)
    requires Consistent(m, areas, brks) && p < |areas| && page < PageOf(DATA_START)
    ensures Loc(p, page) !in m.ptes
  {
    OneSpace(m, areas, brks, p);
    AtGap(areas[p], -1, page * PAGE);
    NothingPresent(m, areas, brks, p, page);
  }

  /** The pages shared once the data segment and the first `k` areas are done. */
  function DoneUpTo(s: seq<Area>, brk: int, k: nat): int
    requires k <= |s|
  {
    if k == 0 then brk else s[k - 1].end
  }

  /** From one shared range to the start of the next there is nothing to share. */
  lemma ForkJump(m: Mem, u: Mem, areas: seq<seq<Area>>, brks: seq<int>, p: nat, k: nat)
    requires Consistent(m, areas, brks) && p < |areas| == |brks| && k < |areas[p]|
    requires 0 <= DoneUpTo(areas[p], brks[p], k) <= areas[p][k].start
    requires DoneUpTo(areas[p], brks[p], k) % PAGE == 0 && areas[p][k].start % PAGE == 0
    requires Forking(AddSpace(m), u, p, |areas|, PageOf(DoneUpTo(areas[p], brks[p], k)))
    ensures Forking(AddSpace(m), u, p, |areas|, PageOf(areas[p][k].start))
  {
    hide Consistent, Forking;
    var lo, hi := DoneUpTo(areas[p], brks[p], k), areas[p][k].start;
    forall x: nat | PageOf(lo) <= x < PageOf(hi) ensures Loc(p, x) !in m.ptes {
      OutsidePages(lo, hi, x);
      GapHasNoPages(m, areas, brks, p, k - 1, x);
    }
    ForkSkip(AddSpace(m), u, p, |areas|, PageOf(lo), PageOf(hi));
  }

  lemma NextAreaAbove(s: seq<Area>, brk: int, k: nat)
    requires Canonical(s) && BreakOk(brk) && k < |s|
    ensures 0 <= DoneUpTo(s, brk, k) <= s[k].start < s[k].end
    ensures DoneUpTo(s, brk, k) % PAGE == 0 && s[k].start % PAGE == 0 && s[k].end % PAGE == 0
  {
  }

  lemma ForkFirst(m: Mem, areas: seq<seq<Area>>, brks: seq<int>, p: nat)
    requires Consistent(m, areas, brks) && p < |areas|
    ensures Forking(AddSpace(m), AddSpace(m), p, |areas|, PageOf(DATA_START))
  {
    hide Forking, EntriesOk, FramesOk, OneHome, Agrees, Canonical;
    ForkStart(m, areas, brks, p);
    forall x | 0 <= x < PageOf(DATA_START) ensures Loc(p, x) !in m.ptes {
      BelowDataNoPages(m, areas, brks, p, x);
    }
    ForkSkip(AddSpace(m), AddSpace(m), p, |areas|, 0, PageOf(DATA_START));
  }

  lemma ForkLast(m: Mem, areas: seq<seq<Area>>, brks: seq<int>, p: nat)
    requires Consistent(m, areas, brks) && p < |areas|
    ensures DoneUpTo(areas[p], brks[p], |areas[p]|) >= 0
    ensures forall x :: x >= PageOf(DoneUpTo(areas[p], brks[p], |areas[p]|)) ==> Loc(p, x) !in m.ptes
  {
    OneSpace(m, areas, brks, p);
    var lo := DoneUpTo(areas[p], brks[p], |areas[p]|);
    assert lo >= 0 && lo % PAGE == 0;
    forall x | x >= PageOf(lo) ensures Loc(p, x) !in m.ptes {
      assert lo == PageOf(lo) * PAGE <= x * PAGE;
      GapHasNoPages(m, areas, brks, p, |areas[p]| - 1, x);
    }
  }
}
