/** Page tables agree with areas: every present entry lies in an area or in the data segment of its own
    space. An entry that is writable where the areas forbid it is stale. */
module TableAgreement {
  import opened Options
  import opened AreaLists
  import opened AddressSearch
  import opened AreaRemoval
  import opened AreaProtection
  import opened AddressSpaces
  import opened CowMemory
  import opened EagerCopies

  ghost predicate EntryAgrees(t: Table, l: Loc, areas: seq<seq<Area>>, brks: seq<int>)
    requires l in t && |areas| == |brks|
  {
    l.space < |areas| && Allowed(areas[l.space], brks[l.space], l.page * PAGE, false)
  }

  /** The pages that can be written although areas and data segment forbid it. */
  ghost function StaleBits(t: Table, areas: seq<seq<Area>>, brks: seq<int>): set<Loc> {
    set l | l in t && t[l].writable && l.space < |areas| && l.space < |brks|
      && !Allowed(areas[l.space], brks[l.space], l.page * PAGE, true)
  }

  ghost predicate Agrees(t: Table, areas: seq<seq<Area>>, brks: seq<int>)
    requires |areas| == |brks|
  {
    forall l :: l in t ==> EntryAgrees(t, l, areas, brks)
  }

  lemma BlockStart(lo: int, a: int)
    requires lo % PAGE == 0
    ensures lo <= a <==> lo <= a / PAGE * PAGE
  {
    assert lo == lo / PAGE * PAGE;
  }

  /** Protections are constant on a page. */
  lemma AtPage(s: seq<Area>, a: int)
    requires Canonical(s)
    ensures At(s, a) == At(s, a / PAGE * PAGE)
  {
    var b := a / PAGE * PAGE;
    if At(s, a).Some? {
      var i := AtWitness(s, a);
      BlockStart(s[i].start, a);
      BlockStart(s[i].end, a);
      AtMember(s, i, b);
    } else if At(s, b).Some? {
      var i := AtWitness(s, b);
      BlockStart(s[i].start, a);
      BlockStart(s[i].end, a);
      AtMember(s, i, a);
    }
  }

  lemma AllowedPage(s: seq<Area>, brk: int, addr: nat, write: bool)
    requires Canonical(s) && BreakOk(brk)
    ensures Allowed(s, brk, addr, write) <==> Allowed(s, brk, PageOf(addr) * PAGE, write)
  {
    AtPage(s, addr);
    BlockStart(brk, addr);
    BlockStart(DATA_START, addr);
  }

  /** What an entry lets through: reading is permitted, and writing is permitted or stale. */
  lemma PresentIsReadable(t: Table, l: Loc, areas: seq<seq<Area>>, brks: seq<int>, addr: nat)
    requires |areas| == |brks| && Agrees(t, areas, brks)
    requires l in t && l.page == PageOf(addr)
    requires l.space < |areas| && Canonical(areas[l.space]) && BreakOk(brks[l.space])
    ensures Allowed(areas[l.space], brks[l.space], addr, false)
    ensures l in StaleBits(t, areas, brks) <==>
      t[l].writable && !Allowed(areas[l.space], brks[l.space], addr, true)
  {
    assert EntryAgrees(t, l, areas, brks);
    AllowedPage(areas[l.space], brks[l.space], addr, false);
    AllowedPage(areas[l.space], brks[l.space], addr, true);
  }

  /** Setting an entry where its access is permitted keeps the agreement and makes nothing stale. */
  lemma PutAgrees(t: Table, l: Loc, e: Pte, areas: seq<seq<Area>>, brks: seq<int>)
    requires |areas| == |brks| && Agrees(t, areas, brks) && l.space < |areas|
    requires Allowed(areas[l.space], brks[l.space], l.page * PAGE, e.writable)
    requires l !in StaleBits(t, areas, brks)
    ensures Agrees(t[l := e], areas, brks) && StaleBits(t[l := e], areas, brks) == StaleBits(t, areas, brks)
  {
    var u := t[l := e];
    forall k | k in u ensures EntryAgrees(u, k, areas, brks) {
      assert k != l ==> EntryAgrees(t, k, areas, brks);
    }
  }

  /** A successful mmap leaves every page that was mapped as it was. */
  lemma MapOnlyAdds(s: seq<Area>, t: seq<Area>, addr: int, len: int, prot: nat, fixed: bool, ret: int)
    requires MapResult(s, t, addr, len, prot, fixed, ret)
    ensures forall a :: At(s, a).Some? ==> At(t, a) == At(s, a)
  {
    var c := Chosen(s, addr, len, fixed);
    assert c.Some? ==> Fits(s, c.value, len);
  }

  lemma MapAgrees(t: Table, areas: seq<seq<Area>>, brks: seq<int>, p: nat, s: seq<Area>)
    requires |areas| == |brks| && Agrees(t, areas, brks) && p < |areas|
    requires forall a :: At(areas[p], a).Some? ==> At(s, a) == At(areas[p], a)
    ensures Agrees(t, areas[p := s], brks) && StaleBits(t, areas[p := s], brks) == StaleBits(t, areas, brks)
  {
    forall l | l in t
      ensures EntryAgrees(t, l, areas, brks) && EntryAgrees(t, l, areas[p := s], brks)
      ensures Allowed(areas[p := s][l.space], brks[l.space], l.page * PAGE, true)
        == Allowed(areas[l.space], brks[l.space], l.page * PAGE, true)
    {
      assert EntryAgrees(t, l, areas, brks);
    }
  }

  /** do_expand only adds pages below the window. */
  lemma ExpandAgrees(t: Table, areas: seq<seq<Area>>, brks: seq<int>, p: nat, brk: int)
    requires |areas| == |brks| && Agrees(t, areas, brks) && p < |areas| && Canonical(areas[p])
    requires brks[p] <= brk && BreakOk(brk)
    ensures Agrees(t, areas, brks[p := brk]) && StaleBits(t, areas, brks[p := brk]) == StaleBits(t, areas, brks)
  {
    forall l | l in t
      ensures EntryAgrees(t, l, areas, brks) && EntryAgrees(t, l, areas, brks[p := brk])
      ensures Allowed(areas[l.space], brks[p := brk][l.space], l.page * PAGE, true)
        == Allowed(areas[l.space], brks[l.space], l.page * PAGE, true)
    {
      assert EntryAgrees(t, l, areas, brks);
      BelowWindow(areas[p], l.page * PAGE);
    }
  }

  lemma BelowWindow(s: seq<Area>, addr: int)
    requires Sorted(s)
    ensures At(s, addr).Some? ==> WINDOW_START <= addr < WINDOW_END
  {
    if At(s, addr).Some? {
      var i := AtWitness(s, addr);
    }
  }

  /** munmap takes the entries of the range away with the areas, and their stale bits. */
  lemma UnmapAgrees(t: Table, u: Table, areas: seq<seq<Area>>, brks: seq<int>, p: nat, s: seq<Area>, lo: nat, hi: nat)
    requires |areas| == |brks| && Agrees(t, areas, brks) && p < |areas|
    requires lo % PAGE == 0 && hi % PAGE == 0
    requires UnmapsRange(areas[p], s, lo, hi)
    requires forall l :: l in u <==> l in t && !(l.space == p && PageOf(lo) <= l.page < PageOf(hi))
    requires forall l :: l in u ==> u[l] == t[l]
    ensures Agrees(u, areas[p := s], brks)
    ensures forall l :: l in StaleBits(u, areas[p := s], brks) <==>
      l in StaleBits(t, areas, brks) && !InRange(l, p, lo, hi)
  {
    forall l | l in t
      ensures EntryAgrees(t, l, areas, brks)
      ensures l in u <==> !InRange(l, p, lo, hi)
      ensures l in u ==> EntryAgrees(u, l, areas[p := s], brks)
      ensures l in u ==> (Allowed(areas[p := s][l.space], brks[l.space], l.page * PAGE, true)
        == Allowed(areas[l.space], brks[l.space], l.page * PAGE, true))
    {
      assert EntryAgrees(t, l, areas, brks);
      OutsidePages(lo, hi, l.page);
    }
  }

  lemma OutsidePages(lo: nat, hi: nat, page: nat)
    requires lo % PAGE == 0 && hi % PAGE == 0
    ensures PageOf(lo) <= page < PageOf(hi) <==> lo <= page * PAGE < hi
  {
    assert lo == PageOf(lo) * PAGE && hi == PageOf(hi) * PAGE;
  }

  /** Writing stays permitted, or no page of the range has a writable entry. */
  ghost predicate NoStaleBit(u: Table, p: nat, lo: int, hi: int, prot: nat) {
    CanWrite(prot) || forall l :: l in u && InRange(l, p, lo, hi) ==> !u[l].writable
  }

  /** After mprotect the stale pages of the range are exactly its writable entries, if writing was taken away. */
  lemma ProtectAgrees(t: Table, u: Table, areas: seq<seq<Area>>, brks: seq<int>, p: nat, s: seq<Area>,
                      lo: int, hi: int, prot: nat)
    requires |areas| == |brks| && Agrees(t, areas, brks) && p < |areas| && BreakOk(brks[p])
    requires WINDOW_START <= lo && Protects(areas[p], s, lo, hi, prot)
    requires u.Keys == t.Keys
    requires forall l :: l in t && !InRange(l, p, lo, hi) ==> u[l] == t[l]
    ensures Agrees(u, areas[p := s], brks)
    ensures forall l :: l in StaleBits(u, areas[p := s], brks) <==>
      if InRange(l, p, lo, hi) then l in u && u[l].writable && !CanWrite(prot) else l in StaleBits(t, areas, brks)
  {
    forall l | l in t
      ensures EntryAgrees(t, l, areas, brks) && EntryAgrees(u, l, areas[p := s], brks)
      ensures Allowed(areas[p := s][l.space], brks[l.space], l.page * PAGE, true)
        == if InRange(l, p, lo, hi) then CanWrite(prot) else Allowed(areas[l.space], brks[l.space], l.page * PAGE, true)
    {
      assert EntryAgrees(t, l, areas, brks);
    }
  }

  /** The child of a fork has the parent's areas and entries only where the parent has some; the parent's
      entries lose their write bits, and with them what was stale. */
  lemma ForkAgrees(t: Table, u: Table, areas: seq<seq<Area>>, brks: seq<int>, p: nat)
    requires |areas| == |brks| && Agrees(t, areas, brks) && p < |areas|
    requires forall l :: l in u && l.space != |areas| ==> l in t
    requires forall l :: l in t && l.space != |areas| && l.space != p ==> l in u && u[l] == t[l]
    requires forall l :: l in u && l.space == |areas| ==> Loc(p, l.page) in t && !u[l].writable
    requires forall l :: l in u && l.space == p ==> !u[l].writable
    ensures Agrees(u, areas + [areas[p]], brks + [brks[p]])
    ensures forall l :: l in StaleBits(u, areas + [areas[p]], brks + [brks[p]]) <==>
      l in StaleBits(t, areas, brks) && l.space != p
  {
    forall l | l in u ensures EntryAgrees(u, l, areas + [areas[p]], brks + [brks[p]]) {
      if l.space == |areas| {
        assert EntryAgrees(t, Loc(p, l.page), areas, brks);
      } else {
        assert EntryAgrees(t, l, areas, brks);
      }
    }
    forall l | l in t ensures l.space < |areas| {
      assert EntryAgrees(t, l, areas, brks);
    }
  }
}
