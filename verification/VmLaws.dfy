/** What mmap, munmap and mprotect promise together. */
module VmLaws {
  import opened Options
  import opened AreaLists
  import opened AreaInsertion
  import opened AddressSearch
  import opened AreaRemoval
  import opened AreaProtection
  import opened AreaCounting
  import opened AddressSpaces
  import opened MProtect

  // ---------------------------------------------------------------- munmap

  /** munmap removes exactly its range and keeps the list canonical. */
  lemma UnmapMeaning(s: seq<Area>, lo: int, hi: int)
    requires Canonical(s) && lo < hi && lo % PAGE == 0 && hi % PAGE == 0
    ensures Canonical(Cut(s, lo, hi)) && UnmapsRange(s, Cut(s, lo, hi), lo, hi)
  {
    CutCanonical(s, lo, hi);
    forall a ensures At(Cut(s, lo, hi), a) == if lo <= a < hi then None else At(s, a) {
      CutMeaning(s, lo, hi, a);
    }
  }

  /** Unmapping the range that an mmap has just added restores the list node for node,
      and the node limit cannot refuse it. */
  lemma UnmapUndoesMap(s: seq<Area>, t: seq<Area>, lo: int, len: int, prot: nat)
    requires Canonical(s) && Canonical(t) && |s| <= MAX_AREAS
    requires len > 0 && lo % PAGE == 0 && len % PAGE == 0 && Fits(s, lo, len)
    requires MapsRange(s, t, lo, lo + len, prot)
    ensures Cut(t, lo, lo + len) == s
    ensures !(|t| == MAX_AREAS && SplitsAny(t, lo, lo + len))
  {
    hide Sorted, Coalesced, Aligned, MapsRange, Fits, Cut;
    UnmapRestores(s, t, lo, lo + len, prot);
    if SplitsAny(t, lo, lo + len) {
      var i := InsertedList(s, t, lo, len, prot);
      SplitMeansJoined(s, t, i, lo, lo + len, prot);
      InsertCount(s, i, lo, lo + len, prot);
    }
  }

  lemma UnmapRestores(s: seq<Area>, t: seq<Area>, lo: int, hi: int, prot: nat)
    requires Canonical(s) && Canonical(t) && lo < hi && lo % PAGE == 0 && hi % PAGE == 0
    requires Fits(s, lo, hi - lo) && MapsRange(s, t, lo, hi, prot)
    ensures Cut(t, lo, hi) == s
  {
    UnmapMeaning(t, lo, hi);
    var u := Cut(t, lo, hi);
    forall a ensures At(u, a) == At(s, a) {
      assert At(t, a) == if lo <= a < hi then Some(prot) else At(s, a);
    }
    CanonicalUnique(u, s);
  }

  /** Whatever branch mmap took, the new list is the insertion into the gap of its range. */
  lemma InsertedList(s: seq<Area>, t: seq<Area>, lo: int, len: int, prot: nat) returns (i: nat)
    requires Canonical(s) && Canonical(t)
    requires len > 0 && lo % PAGE == 0 && len % PAGE == 0 && Fits(s, lo, len)
    requires MapsRange(s, t, lo, lo + len, prot)
    ensures GapFor(s, i, lo, lo + len) && t == Insert(s, i, lo, lo + len, prot)
  {
    var k := FitsInGap(s, lo, len);
    i := k + 1;
    InsertCanonical(s, i, lo, lo + len, prot);
    InsertMeaning(s, i, lo, lo + len, prot);
    var u := Insert(s, i, lo, lo + len, prot);
    forall a ensures At(t, a) == At(u, a) {
      assert At(u, a) == if lo <= a < lo + len then Some(prot) else At(s, a);
    }
    CanonicalUnique(t, u);
  }

  /** If one node surrounds the new range, the mmap joined both neighbours and freed a node. */
  lemma SplitMeansJoined(s: seq<Area>, t: seq<Area>, i: nat, lo: int, hi: int, prot: nat)
    requires Canonical(s) && Sorted(t) && GapFor(s, i, lo, hi)
    requires MapsRange(s, t, lo, hi, prot) && SplitsAny(t, lo, hi)
    ensures JoinsLeft(s, i, lo, prot) && JoinsRight(s, i, hi, prot)
  {
    Surrounded(t, lo, hi);
    assert At(t, lo - 1) == At(s, lo - 1) && At(t, hi) == At(s, hi) && At(t, lo) == Some(prot);
    JoinsMeaning(s, i, lo, hi, prot);
  }

  lemma Surrounded(t: seq<Area>, lo: int, hi: int)
    requires Sorted(t) && lo < hi && SplitsAny(t, lo, hi)
    ensures At(t, lo - 1) == At(t, lo) == At(t, hi)
  {
    var k :| 0 <= k < |t| && Splits(t[k], lo, hi);
    AtMember(t, k, lo - 1);
    AtMember(t, k, lo);
    AtMember(t, k, hi);
  }

  // ---------------------------------------------------------------- mmap

  /** The search is complete: below the node limit a call that is not fixed fails exactly when no
      place anywhere in the window fits. */
  lemma MapFailsOnlyWhenFull(s: seq<Area>, t: seq<Area>, addr: int, len: int, prot: nat, ret: int)
    requires MapResult(s, t, addr, len, prot, false, ret) && |s| < MAX_AREAS
    requires Sorted(s)
    ensures ret == -1 <==> forall u :: !Fits(s, u, len)
  {
    if u :| Fits(s, u, len) {
      TargetExists(s, addr, len, u);
      ReportedPositive(s, addr, prot);
      var lo := Chosen(s, addr, len, false).value;
      assert Fits(s, lo, len);
    }
  }

  lemma ReportedPositive(s: seq<Area>, addr: int, prot: nat)
    requires Sorted(s)
    ensures Reported(s, addr, prot) == addr || Reported(s, addr, prot) >= WINDOW_START
  {
  }

  /** mmap reports the start of the range it mapped, exactly unless it grew the last area upwards
      at the hint; then it reports the start of that area. */
  lemma ReportIsExact(s: seq<Area>, t: seq<Area>, addr: int, len: int, prot: nat, fixed: bool, ret: int)
    requires Sorted(s) && MapResult(s, t, addr, len, prot, fixed, ret) && t != s
    ensures Chosen(s, addr, len, fixed).Some?
    ensures ret == Chosen(s, addr, len, fixed).value <==>
      !(Chosen(s, addr, len, fixed).value == addr && s != [] && s[|s| - 1].end == addr && s[|s| - 1].prot == prot)
  {
  }

  /** The wrong report happens: with one mapped page, asking for the next page with the same
      protection returns the address of the old page. */
  lemma ReportCanBeWrong(t: seq<Area>, ret: int)
    requires MapResult([Area(WINDOW_START, WINDOW_START + PAGE, 3)], t, WINDOW_START + PAGE, PAGE, 3, false, ret)
    ensures MapsRange([Area(WINDOW_START, WINDOW_START + PAGE, 3)], t, WINDOW_START + PAGE, WINDOW_START + 2 * PAGE, 3)
    ensures ret == WINDOW_START
  {
    var s := [Area(WINDOW_START, WINDOW_START + PAGE, 3)];
    var addr := WINDOW_START + PAGE;
    forall a | addr <= a < addr + PAGE ensures At(s, a) == None {
      AtOne(s[0], a);
    }
    ChosenIs(s, addr, PAGE, false, addr);
  }

  // ---------------------------------------------------------------- mprotect

  /** A range over three or more areas never adds a node; one over two adds at most one. */
  lemma ProtectGrowth(s: seq<Area>, t: seq<Area>, f: nat, g: nat, lo: int, hi: int, prot: nat)
    requires Canonical(s) && Protected(s, t, lo, hi, prot) && Meets(s, f, g, lo, hi)
    ensures g - f >= 2 ==> |t| <= |s|
    ensures g - f == 1 ==> |t| <= |s| + 1
    ensures |t| <= |s| + 2
  {
    GrowthByNodes(s, f, g, lo, hi, prot);
  }

  /** The areas that an accepted range starts in and ends in. */
  lemma AreasMet(s: seq<Area>, lo: int, hi: int) returns (f: nat, g: nat)
    requires Sorted(s) && lo < hi && (Covered(s, lo, hi) || RunsOff(s, lo, hi))
    ensures Meets(s, f, g, lo, hi)
  {
    if RunsOff(s, lo, hi) {
      f, g := |s| - 1, |s| - 1;
    } else {
      assert At(s, lo).Some? && At(s, hi - 1).Some?;
      f := AtWitness(s, lo);
      g := AtWitness(s, hi - 1);
      InOrder(s, g, f);
    }
  }

  /** The call that misleads the refusal test: the list is full, and a neighbour of the new protection does
      not touch the range. */
  ghost predicate Overfills(s: seq<Area>, addr: int, length: nat, prot: nat) {
    && |s| == MAX_AREAS && Accepts(addr, length) && length > 0
    && Covered(s, addr, addr + RoundUp(length)) && CapSlip(s, addr, addr + RoundUp(length), prot)
  }

  /** mprotect keeps the node limit exactly when the refusal test is not misled at a full list. */
  lemma ProtectKeepsLimit(s: seq<Area>, t: seq<Area>, addr: int, length: nat, prot: nat, ret: int)
    requires Canonical(s) && |s| <= MAX_AREAS && ProtectOutcome(s, t, addr, length, prot, ret)
    ensures |t| <= MAX_AREAS <==> !Overfills(s, addr, length, prot)
    ensures |t| <= MAX_AREAS + 1
  {
    if ret == 0 && length > 0 {
      var lo, hi := addr, addr + RoundUp(length);
      var f, g := AreasMet(s, lo, hi);
      WhereItEnds(s, f, g, lo, hi);
      if Covered(s, lo, hi) {
        RefusesExactly(s, f, g - f + 1, lo, hi, prot);
      } else {
        GrowthByNodes(s, f, g, lo, hi, prot);
      }
    }
  }

  /** A range that runs off the last area is not mapped, yet mprotect accepts it. */
  lemma RunsOffIsNotCovered(s: seq<Area>, lo: int, hi: int)
    requires Sorted(s) && RunsOff(s, lo, hi)
    ensures !Covered(s, lo, hi)
  {
    var end := s[|s| - 1].end;
    AtGap(s, |s| - 1, end);
    NotCovered(s, lo, hi, end);
  }

  /** It happens: with one mapped page, mprotect of that page and the unmapped one behind it returns 0. */
  lemma UnmappedPageIsAccepted(t: seq<Area>, ret: int)
    requires ProtectOutcome([Area(WINDOW_START, WINDOW_START + PAGE, 3)], t, WINDOW_START, 2 * PAGE, 1, ret)
    ensures ret == 0 && At([Area(WINDOW_START, WINDOW_START + PAGE, 3)], WINDOW_START + PAGE) == None
  {
    var s := [Area(WINDOW_START, WINDOW_START + PAGE, 3)];
    assert RunsOff(s, WINDOW_START, WINDOW_START + RoundUp(2 * PAGE));
    AtOne(s[0], WINDOW_START + PAGE);
  }

  /** With nodes to spare, mprotect returns 0 for exactly the mapped ranges and those that run off. */
  lemma ProtectAccepts(s: seq<Area>, lo: int, hi: int, prot: nat, f: nat, g: nat)
    requires Canonical(s) && |s| < MAX_AREAS - 1 && lo < hi && Covered(s, lo, hi) && Meets(s, f, g, lo, hi)
    ensures HasRoom(s, lo, hi, prot)
  {
    GrowthByNodes(s, f, g, lo, hi, prot);
  }

  // ---------------------------------------------------------------- a full list that mprotect overfills

  /** Page number `n` of the window. */
  function PageAt(n: int): int {
    WINDOW_START + PAGE * n
  }

  lemma PageAtAligned(n: int)
    ensures PageAt(n) % PAGE == 0
  {
    assert PageAt(n) == PAGE * (n + WINDOW_START / PAGE);
  }

  /** 128 separated areas of two pages: the last has protection 1, all others 3. */
  function FullArea(i: nat): Area {
    Area(PageAt(4 * i), PageAt(4 * i + 2), if i == MAX_AREAS - 1 then 1 else 3)
  }

  function FullList(): seq<Area> {
    seq(MAX_AREAS, i requires 0 <= i < MAX_AREAS => FullArea(i))
  }

  lemma FullListCanonical()
    ensures Canonical(FullList()) && |FullList()| == MAX_AREAS
  {
    FullListOrdered();
    FullListAligned();
  }

  lemma FullListOrdered()
    ensures Sorted(FullList()) && Coalesced(FullList())
  {
    var s := FullList();
    forall i, j | 0 <= i < j < |s| ensures s[i].end < s[j].start {
      assert s[i] == FullArea(i) && s[j] == FullArea(j);
    }
  }

  lemma FullListAligned()
    ensures Aligned(FullList())
  {
    var s := FullList();
    forall i | 0 <= i < |s| ensures s[i].start % PAGE == 0 && s[i].end % PAGE == 0 {
      PageAtAligned(4 * i);
      PageAtAligned(4 * i + 2);
      assert s[i] == FullArea(i);
    }
  }

  /** The mprotect call that overfills the list: the first page of the last area gets protection 3. */
  const SLIP_LO: int := PageAt(4 * (MAX_AREAS - 1))

  lemma SlipOnFullList()
    ensures var s, f := FullList(), MAX_AREAS - 1;
      Meets(s, f, f, SLIP_LO, SLIP_LO + PAGE) && s[f].prot != 3 && SlipAt(s, f, SLIP_LO, SLIP_LO + PAGE, 3)
  {
  }

  /** The limit can be exceeded: the neighbour has the protection but does not touch the page, so the
      refusal test lets the call pass and 129 nodes remain. */
  lemma LimitCanBeExceeded(t: seq<Area>, ret: int)
    requires ProtectOutcome(FullList(), t, SLIP_LO, PAGE, 3, ret)
    ensures ret == 0 && |t| == MAX_AREAS + 1
  {
    hide FullList, Sorted, Coalesced, Aligned;
    var s := FullList();
    FullListCanonical();
    SlipOnFullList();
    RefusesExactly(s, MAX_AREAS - 1, 1, SLIP_LO, SLIP_LO + PAGE, 3);
    forall a | SLIP_LO <= a < SLIP_LO + PAGE ensures At(s, a).Some? {
      AtMember(s, MAX_AREAS - 1, a);
    }
  }
}
