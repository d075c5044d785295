/** mprotect: check the range, check the node limit, recolour node by node, then merge. */
module MProtect {
  import opened Options
  import opened AreaLists
  import opened AreaInsertion
  import opened AreaProtection
  import opened AreaCounting
  import opened AddressSpaces

  // ---------------------------------------------------------------- is the range mapped?

  /** The range check. It follows touching areas from the one holding `lo`; when that one is the last
      of the list, nothing tests whether the range ends inside it. */
  method RangeIsMapped(s: seq<Area>, lo: int, hi: int) returns (ok: bool)
    requires Sorted(s) && s != [] && s[0].start <= lo < hi
    ensures ok <==> Covered(s, lo, hi) || RunsOff(s, lo, hi)
  {
    var i := 0;
    while i < |s| && !s[i].Has(lo)
      invariant i < |s| && s[i].start <= lo
    {
      if i == |s| - 1 || lo < s[i + 1].start {
        AtGap(s, i, lo);
        NotCovered(s, lo, hi, lo);
        return false;
      }
      i := i + 1;
    }
    var first := i;
    CoveredBy(s, i, lo);
    while i < |s| && s[i].end < hi
      invariant first <= i < |s| && Covered(s, lo, s[i].end) && s[i].start < hi
      decreases |s| - i
    {
      if i + 1 == |s| {
        AtGap(s, i, s[i].end);
        NotCovered(s, lo, hi, s[i].end);
        return first == i;
      }
      if s[i + 1].start != s[i].end {
        InOrder(s, i, i + 1);
        AtGap(s, i, s[i].end);
        NotCovered(s, lo, hi, s[i].end);
        return false;
      }
      CoveredBy(s, i + 1, s[i].end);
      i := i + 1;
    }
    ok := true;
  }

  lemma NotCovered(s: seq<Area>, lo: int, hi: int, a: int)
    requires lo <= a < hi && At(s, a) == None
    ensures !Covered(s, lo, hi)
  {
  }

  lemma CoveredBy(s: seq<Area>, i: nat, lo: int)
    requires Sorted(s) && i < |s| && s[i].start <= lo
    ensures Covered(s, lo, s[i].end)
  {
    forall a | lo <= a < s[i].end ensures At(s, a).Some? {
      AtMember(s, i, a);
    }
  }

  // ---------------------------------------------------------------- the node limit

  /** The first area that holds `lo`. */
  method FindArea(s: seq<Area>, lo: int) returns (f: nat)
    requires Sorted(s) && At(s, lo).Some?
    ensures f < |s| && s[f].Has(lo)
  {
    ghost var w := AtWitness(s, lo);
    f := 0;
    while !s[f].Has(lo)
      invariant f <= w
      decreases w - f
    {
      f := f + 1;
    }
  }

  /** The number of areas that the range meets, counted from the one that holds `lo`. */
  method CountSpan(s: seq<Area>, f: nat, lo: int, hi: int) returns (span: nat)
    requires Sorted(s) && f < |s| && s[f].Has(lo) && lo < hi
    requires Covered(s, lo, hi) || RunsOff(s, lo, hi)
    ensures span >= 1 && Meets(s, f, f + span - 1, lo, hi)
  {
    span := 1;
    while f + span < |s| && s[f + span - 1].end < hi
      invariant 1 <= span && f + span <= |s| && s[f + span - 1].start < hi
    {
      NextTouches(s, f + span - 1, lo, hi);
      span := span + 1;
    }
  }

  lemma NextTouches(s: seq<Area>, i: nat, lo: int, hi: int)
    requires Sorted(s) && i + 1 < |s| && lo < s[i].end < hi
    requires Covered(s, lo, hi) || RunsOff(s, lo, hi)
    ensures s[i + 1].start == s[i].end
  {
    InOrder(s, i, i + 1);
    InOrder(s, i, |s| - 1);
    if s[i].end < s[i + 1].start {
      assert Covered(s, lo, hi) ==> At(s, s[i].end).Some?;
      AtGap(s, i, s[i].end);
    }
  }

  /** The refusal test of mprotect. A neighbour of protection `prot` is taken to merge with the
      changed range whether or not it touches it. */
  predicate Refuses(s: seq<Area>, f: nat, span: nat, lo: int, hi: int, prot: nat)
    requires span >= 1 && f + span <= |s|
  {
    var x := s[f];
    if span == 1 then
      if lo == x.start then
        hi != x.end && x.prot != prot && !(f > 0 && s[f - 1].prot == prot) && |s| >= MAX_AREAS
      else if hi == x.end then
        x.prot != prot && !(f + 1 < |s| && s[f + 1].prot == prot) && |s| >= MAX_AREAS
      else
        x.prot != prot && |s| >= MAX_AREAS - 1
    else if span == 2 then
      && lo != x.start && hi != s[f + 1].end
      && x.prot != prot && s[f + 1].prot != prot
      && |s| >= MAX_AREAS
    else
      false
  }

  /** The refusal test on a range that runs off the last area. */
  predicate RefusesRunOff(s: seq<Area>, lo: int, prot: nat)
    requires s != []
  {
    var last := s[|s| - 1];
    && last.prot != prot
    && (if lo == last.start then |s| >= MAX_AREAS && !(|s| > 1 && s[|s| - 2].prot == prot) else |s| >= MAX_AREAS - 1)
  }

  /** The case the refusal test misjudges: the range ends inside one area at one side, and the
      neighbour at its other side has protection `prot` but does not touch it. */
  predicate CapSlip(s: seq<Area>, lo: int, hi: int, prot: nat) {
    exists f :: 0 <= f < |s| && s[f].prot != prot && SlipAt(s, f, lo, hi, prot)
  }

  predicate SlipAt(s: seq<Area>, f: nat, lo: int, hi: int, prot: nat)
    requires f < |s|
  {
    || (lo == s[f].start && hi < s[f].end && f > 0 && s[f - 1].prot == prot && s[f - 1].end < lo)
    || (s[f].start < lo && hi == s[f].end && f + 1 < |s| && s[f + 1].prot == prot && hi < s[f + 1].start)
  }

  /** On a fully mapped range the test is exact except for the slip. */
  lemma RefusesExactly(s: seq<Area>, f: nat, span: nat, lo: int, hi: int, prot: nat)
    requires Canonical(s) && |s| <= MAX_AREAS && span >= 1 && Meets(s, f, f + span - 1, lo, hi)
    requires hi <= s[f + span - 1].end && lo < hi
    ensures !Refuses(s, f, span, lo, hi, prot) <==>
      |s| + Growth(s, lo, hi, prot) <= MAX_AREAS || CapSlip(s, lo, hi, prot)
    ensures CapSlip(s, lo, hi, prot) ==> Growth(s, lo, hi, prot) == 1
  {
    GrowthByNodes(s, f, f + span - 1, lo, hi, prot);
    SlipHere(s, f, lo, hi, prot);
    if span == 1 {
      RefusesOne(s, f, lo, hi, prot);
    } else {
      RefusesMany(s, f, span, lo, hi, prot);
    }
  }

  lemma SlipHere(s: seq<Area>, f: nat, lo: int, hi: int, prot: nat)
    requires Sorted(s) && f < |s| && s[f].Has(lo) && lo < hi
    ensures CapSlip(s, lo, hi, prot) <==> s[f].prot != prot && SlipAt(s, f, lo, hi, prot)
  {
    forall k | 0 <= k < |s| && k != f ensures !SlipAt(s, k, lo, hi, prot) {
      InOrder(s, k, f);
      InOrder(s, f, k);
    }
  }

  lemma RefusesOne(s: seq<Area>, f: nat, lo: int, hi: int, prot: nat)
    requires Canonical(s) && |s| <= MAX_AREAS && Meets(s, f, f, lo, hi) && hi <= s[f].end
    ensures var growth := LowerChange(s, f, lo, prot) + UpperChange(s, f, hi, prot);
      && (!Refuses(s, f, 1, lo, hi, prot) <==>
          |s| + growth <= MAX_AREAS || (s[f].prot != prot && SlipAt(s, f, lo, hi, prot)))
      && (s[f].prot != prot && SlipAt(s, f, lo, hi, prot) ==> growth == 1)
  {
    if f > 0 { InOrder(s, f - 1, f); }
    if f + 1 < |s| { InOrder(s, f, f + 1); }
  }

  lemma RefusesMany(s: seq<Area>, f: nat, span: nat, lo: int, hi: int, prot: nat)
    requires Canonical(s) && |s| <= MAX_AREAS && span >= 2 && Meets(s, f, f + span - 1, lo, hi)
    requires hi <= s[f + span - 1].end
    ensures var growth := LowerChange(s, f, lo, prot) + UpperChange(s, f + span - 1, hi, prot) - (span - 1);
      && (!Refuses(s, f, span, lo, hi, prot) <==> |s| + growth <= MAX_AREAS)
    ensures !SlipAt(s, f, lo, hi, prot)
  {
    InOrder(s, f, f + span - 1);
  }

  // ---------------------------------------------------------------- recolouring

  /** Give node `i` protection `prot`. */
  method Recolour(space: AddressSpace, i: nat, prot: nat)
    requires i < |space.areas| && Ordered(space.areas)
    modifies space
    ensures space.areas == SetProt(old(space.areas), i, prot) && Ordered(space.areas)
    ensures Protects(old(space.areas), space.areas, old(space.areas)[i].start, old(space.areas)[i].end, prot)
  {
    SetProtMeaning(space.areas, i, prot);
    SetProtOrdered(space.areas, i, prot);
    if space.areas[i].prot != prot {
      space.areas := space.areas[i := space.areas[i].(prot := prot)];
    }
  }

  /** Give the part of node `i` below `hi` protection `prot`: a new node takes that part. */
  method RecolourBelow(space: AddressSpace, i: nat, hi: int, prot: nat)
    requires i < |space.areas| && Ordered(space.areas)
    requires space.areas[i].start < hi < space.areas[i].end && hi % PAGE == 0
    modifies space
    ensures Ordered(space.areas)
    ensures Protects(old(space.areas), space.areas, old(space.areas)[i].start, hi, prot)
  {
    var x := space.areas[i];
    if x.prot != prot {
      SplitThenSet(space.areas, i, hi, i, prot);
      space.areas := space.areas[..i] + [Area(x.start, hi, prot), x.(start := hi)] + space.areas[i + 1..];
    } else {
      NodeAlready(space.areas, i, x.start, hi);
    }
  }

  /** Give the part of node `i` from `lo` on protection `prot`: a new node takes that part. `next`
      is where the nodes behind `i` are now. */
  method RecolourAbove(space: AddressSpace, i: nat, lo: int, prot: nat) returns (next: nat)
    requires i < |space.areas| && Ordered(space.areas)
    requires space.areas[i].start < lo < space.areas[i].end && lo % PAGE == 0
    modifies space
    ensures Ordered(space.areas)
    ensures Protects(old(space.areas), space.areas, lo, old(space.areas)[i].end, prot)
    ensures next <= |space.areas| && space.areas[next..] == old(space.areas)[i + 1..]
  {
    var x := space.areas[i];
    if x.prot != prot {
      SplitThenSet(space.areas, i, lo, i + 1, prot);
      space.areas := space.areas[..i] + [x.(end := lo), Area(lo, x.end, prot)] + space.areas[i + 1..];
      next := i + 2;
    } else {
      NodeAlready(space.areas, i, lo, x.end);
      next := i + 1;
    }
  }

  lemma SplitThenSet(s: seq<Area>, i: nat, c: int, j: nat, prot: nat)
    requires Ordered(s) && i < |s| && s[i].start < c < s[i].end && c % PAGE == 0 && i <= j <= i + 1
    ensures var t := SetProt(SplitNode(s, i, c), j, prot);
      && Ordered(t)
      && t == (if j == i then s[..i] + [Area(s[i].start, c, prot), s[i].(start := c)] + s[i + 1..]
               else s[..i] + [s[i].(end := c), Area(c, s[i].end, prot)] + s[i + 1..])
      && (if j == i then Protects(s, t, s[i].start, c, prot) else Protects(s, t, c, s[i].end, prot))
  {
    var u := SplitNode(s, i, c);
    SplitMeaning(s, i, c);
    SplitOrdered(s, i, c);
    SetProtMeaning(u, j, prot);
    SetProtOrdered(u, j, prot);
    ProtectsAfterSame(s, u, SetProt(u, j, prot), u[j].start, u[j].end, prot);
  }

  /** The range lies strictly inside node `i`: the two new nodes take its middle and its upper part. */
  method RecolourMiddle(space: AddressSpace, i: nat, lo: int, hi: int, prot: nat)
    requires i < |space.areas| && Ordered(space.areas) && lo % PAGE == 0 && hi % PAGE == 0
    requires space.areas[i].start < lo < hi < space.areas[i].end
    modifies space
    ensures Ordered(space.areas)
    ensures Protects(old(space.areas), space.areas, lo, hi, prot)
  {
    ghost var s := space.areas;
    var x := space.areas[i];
    if x.prot != prot {
      SplitTwice(s, i, lo, hi, prot);
      space.areas := space.areas[..i] + [x.(end := lo), Area(lo, hi, prot), x.(start := hi)] + space.areas[i + 1..];
    } else {
      NodeAlready(s, i, lo, hi);
    }
  }

  lemma SplitTwice(s: seq<Area>, i: nat, lo: int, hi: int, prot: nat)
    requires i < |s| && Ordered(s) && lo % PAGE == 0 && hi % PAGE == 0
    requires s[i].start < lo < hi < s[i].end
    ensures var t := s[..i] + [s[i].(end := lo), Area(lo, hi, prot), s[i].(start := hi)] + s[i + 1..];
      Ordered(t) && Protects(s, t, lo, hi, prot)
  {
    var u := SplitNode(s, i, lo);
    SplitMeaning(s, i, lo);
    SplitOrdered(s, i, lo);
    SplitThenSet(u, i + 1, hi, i + 1, prot);
    var t := s[..i] + [s[i].(end := lo), Area(lo, hi, prot), s[i].(start := hi)] + s[i + 1..];
    assert u[..i + 1] == s[..i] + [s[i].(end := lo)] && u[i + 2..] == s[i + 1..];
    assert t == u[..i + 1] + [Area(lo, hi, prot), u[i + 1].(start := hi)] + u[i + 2..];
    ProtectsAfterSame(s, u, t, lo, hi, prot);
  }

  lemma CoveredNext(s: seq<Area>, i: nat, hi: int)
    requires Sorted(s) && i + 1 < |s| && s[i].end < hi && Covered(s, s[i].start, hi)
    ensures s[i + 1].start == s[i].end
  {
    InOrder(s, i, i + 1);
    if s[i].end < s[i + 1].start {
      assert At(s, s[i].end).Some?;
      AtGap(s, i, s[i].end);
    }
  }

  lemma CoveredStays(s: seq<Area>, t: seq<Area>, lo: int, mid: int, hi: int, prot: nat)
    requires Covered(s, lo, hi) && Protects(s, t, lo, mid, prot) && lo <= mid
    ensures Covered(t, mid, hi)
  {
    forall a | mid <= a < hi ensures At(t, a).Some? {
      assert At(t, a) == At(s, a);
    }
  }

  /** Recolour whole nodes from `i` on until the range ends. */
  method RecolourFrom(space: AddressSpace, start: nat, hi: int, prot: nat)
    requires start < |space.areas| && Ordered(space.areas) && hi % PAGE == 0
    requires space.areas[start].start < hi
    requires Covered(space.areas, space.areas[start].start, hi) || start == |space.areas| - 1
    modifies space
    ensures Ordered(space.areas)
    ensures Protects(old(space.areas), space.areas, old(space.areas)[start].start, hi, prot)
  {
    ghost var s := space.areas;
    ghost var lo := s[start].start;
    var i := start;
    ProtectsSame(s, lo, lo, prot);
    while true
      invariant i < |space.areas| && Ordered(space.areas) && lo <= space.areas[i].start < hi
      invariant Protects(s, space.areas, lo, space.areas[i].start, prot)
      invariant Covered(space.areas, space.areas[i].start, hi) || i == |space.areas| - 1
      decreases |space.areas| - i
    {
      ghost var t, mid := space.areas, space.areas[i].start;
      if hi < space.areas[i].end {
        RecolourBelow(space, i, hi, prot);
        ProtectsJoin(s, t, space.areas, lo, mid, hi, prot);
        return;
      }
      var end := space.areas[i].end;
      Recolour(space, i, prot);
      ProtectsJoin(s, t, space.areas, lo, mid, end, prot);
      if hi == end {
        return;
      }
      if i + 1 == |space.areas| {
        BeyondLast(space.areas, hi, prot);
        ProtectsJoin(s, space.areas, space.areas, lo, end, hi, prot);
        return;
      }
      CoveredNext(t, i, hi);
      CoveredStays(t, space.areas, mid, end, hi, prot);
      i := i + 1;
    }
  }

  /** The first pass of mprotect: recolour [lo, hi), splitting nodes but merging none. */
  method RecolourRange(space: AddressSpace, f: nat, lo: int, hi: int, prot: nat)
    requires Ordered(space.areas) && f < |space.areas| && space.areas[f].Has(lo) && lo < hi
    requires Covered(space.areas, lo, hi) || f == |space.areas| - 1
    requires lo % PAGE == 0 && hi % PAGE == 0
    modifies space
    ensures Ordered(space.areas) && Protects(old(space.areas), space.areas, lo, hi, prot)
  {
    ghost var s := space.areas;
    var x := space.areas[f];
    if lo == x.start {
      RecolourFrom(space, f, hi, prot);
    } else if hi < x.end {
      RecolourMiddle(space, f, lo, hi, prot);
    } else {
      var next := RecolourAbove(space, f, lo, prot);
      if x.end < hi {
        ghost var u := space.areas;
        if next < |space.areas| {
          assert u[next] == u[next..][0] == s[f + 1..][0] == s[f + 1];
          NextStarts(s, f, lo, hi);
          CoveredStays(s, u, lo, x.end, hi, prot);
          RecolourFrom(space, next, hi, prot);
        } else {
          assert |s[f + 1..]| == 0;
          EndOfList(s, u, x.end, hi, prot);
        }
        ProtectsJoin(s, u, space.areas, lo, x.end, hi, prot);
      }
    }
  }

  lemma NextStarts(s: seq<Area>, f: nat, lo: int, hi: int)
    requires Sorted(s) && f + 1 < |s| && s[f].Has(lo) && s[f].end < hi && Covered(s, lo, hi)
    ensures s[f + 1].start == s[f].end
  {
    InOrder(s, f, f + 1);
    if s[f].end < s[f + 1].start {
      assert At(s, s[f].end).Some?;
      AtGap(s, f, s[f].end);
    }
  }

  lemma EndOfList(s: seq<Area>, u: seq<Area>, end: int, hi: int, prot: nat)
    requires Sorted(s) && s != [] && s[|s| - 1].end == end
    requires exists lo :: Protects(s, u, lo, end, prot)
    ensures Protects(u, u, end, hi, prot)
  {
    BeyondLast(s, hi, prot);
    forall a | end <= a < hi ensures At(u, a) == None {
      AtGap(s, |s| - 1, a);
    }
  }

  // ---------------------------------------------------------------- merging

  /** The second pass: join touching nodes of one protection, over the whole list. */
  method MergeAll(space: AddressSpace)
    requires Ordered(space.areas)
    modifies space
    ensures Canonical(space.areas) && SameMeaning(space.areas, old(space.areas))
  {
    ghost var s := space.areas;
    var i := 0;
    while i + 1 < |space.areas|
      invariant Ordered(space.areas) && SameMeaning(space.areas, s)
      invariant if i < |space.areas| then 0 <= i && Coalesced(space.areas[..i + 1]) else space.areas == []
      decreases |space.areas| - i
    {
      var t := space.areas;
      if t[i].end == t[i + 1].start && t[i].prot == t[i + 1].prot {
        JoinMeaning(t, i);
        JoinOrdered(t, i);
        space.areas := space.areas[..i] + [space.areas[i].(end := space.areas[i + 1].end)] + space.areas[i + 2..];
        SameMeaningTrans(s, t, space.areas);
        JoinKeepsPrefix(t, i);
      } else {
        ExtendPrefix(t, i);
        i := i + 1;
      }
    }
    if space.areas != [] {
      assert space.areas[..i + 1] == space.areas;
    }
  }

  lemma ExtendPrefix(s: seq<Area>, i: nat)
    requires Sorted(s) && i + 1 < |s| && Coalesced(s[..i + 1])
    requires !(s[i].end == s[i + 1].start && s[i].prot == s[i + 1].prot)
    ensures Coalesced(s[..i + 2])
  {
    var t := s[..i + 2];
    forall j, k | 0 <= j < k < |t| && t[j].end == t[k].start ensures t[j].prot != t[k].prot {
      if k <= i {
        assert s[..i + 1][j] == t[j] && s[..i + 1][k] == t[k];
      } else {
        InOrder(s, j, i);
      }
    }
  }

  lemma JoinKeepsPrefix(s: seq<Area>, i: nat)
    requires Sorted(s) && i + 1 < |s| && Coalesced(s[..i + 1])
    ensures Coalesced(Replace(s, i, i + 2, s[i].(end := s[i + 1].end))[..i + 1])
  {
    var t := Replace(s, i, i + 2, s[i].(end := s[i + 1].end))[..i + 1];
    forall j, k | 0 <= j < k < |t| && t[j].end == t[k].start ensures t[j].prot != t[k].prot {
      assert s[..i + 1][j].end == t[j].end && s[..i + 1][j].prot == t[j].prot;
      assert s[..i + 1][k].start == t[k].start && s[..i + 1][k].prot == t[k].prot;
    }
  }

  // ---------------------------------------------------------------- the call

  ghost predicate Accepts(addr: int, length: int) {
    WINDOW_START <= addr && addr + length <= WINDOW_END
  }

  /** What a call that returned 0 on the range [lo, hi) has done. */
  ghost predicate Protected(s: seq<Area>, t: seq<Area>, lo: int, hi: int, prot: nat) {
    && Protects(s, t, lo, hi, prot)
    && |t| == |s| + Growth(s, lo, hi, prot)
    && (Covered(s, lo, hi) || RunsOff(s, lo, hi))
  }

  /** When a call on a fully mapped range returns 0. */
  ghost predicate HasRoom(s: seq<Area>, lo: int, hi: int, prot: nat) {
    |s| + Growth(s, lo, hi, prot) <= MAX_AREAS || CapSlip(s, lo, hi, prot)
  }

  /** The result of mprotect: `ret` and the new list `t` from the old list `s`. */
  ghost predicate ProtectOutcome(s: seq<Area>, t: seq<Area>, addr: int, length: nat, prot: nat, ret: int) {
    && (ret == 0 || (ret == -1 && t == s))
    && (!Accepts(addr, length) ==> ret == -1)
    && (Accepts(addr, length) && length == 0 ==> ret == 0 && t == s)
    && (Accepts(addr, length) && length > 0 ==>
          var lo, hi := addr, addr + RoundUp(length);
          && (ret == 0 ==> Protected(s, t, lo, hi, prot))
          && (Covered(s, lo, hi) && |s| <= MAX_AREAS ==> (ret == 0 <==> HasRoom(s, lo, hi, prot)))
          && (RunsOff(s, lo, hi) ==> (ret == -1 <==> RefusesRunOff(s, lo, prot))))
  }

  lemma OutcomeProtects(s: seq<Area>, t: seq<Area>, addr: int, length: nat, prot: nat, ret: int)
    requires ProtectOutcome(s, t, addr, length, prot, ret)
    ensures ret == 0 || (ret == -1 && t == s)
    ensures ret == 0 ==> Accepts(addr, length) && Protects(s, t, addr, addr + RoundUp(length), prot)
    ensures ret == 0 && length == 0 ==> t == s
  {
  }

  method Protect(space: AddressSpace, addr: int, length: int, prot: nat) returns (ret: int)
    requires space.Valid() && 0 <= addr && addr % PAGE == 0 && 0 <= length <= 0x7ffff000
    modifies space
    ensures space.Valid() && ProtectOutcome(old(space.areas), space.areas, addr, length, prot, ret)
  {
    hide Sorted, Coalesced, Aligned, CapSlip, Growth, Protects;
    if !(WINDOW_START <= addr && addr + length <= WINDOW_END) {
      return -1;
    }
    var len := RoundUp(length);
    if len == 0 {
      return 0;
    }
    ghost var s := space.areas;
    var lo, hi := addr, addr + len;
    InOrder(s, 0, |s| - 1);
    InWindow(s, 0);
    if space.areas == [] || lo < space.areas[0].start {
      AtGap(s, -1, lo);
      NotCovered(s, lo, hi, lo);
      return -1;
    }
    var ok := RangeIsMapped(space.areas, lo, hi);
    if !ok {
      return -1;
    }
    var f, refused := CheckLimit(space.areas, lo, hi, prot);
    if refused {
      return -1;
    }
    Apply(space, f, lo, hi, prot);
    ret := 0;
  }

  /** The node-limit check: count the areas the range meets and decide from their neighbours. */
  method CheckLimit(s: seq<Area>, lo: int, hi: int, prot: nat) returns (f: nat, refused: bool)
    requires Canonical(s) && lo < hi && (Covered(s, lo, hi) || RunsOff(s, lo, hi))
    ensures f < |s| && s[f].Has(lo) && (Covered(s, lo, hi) || f == |s| - 1)
    ensures NoHole(s, lo, hi) && (At(s, hi).Some? ==> At(s, hi - 1).Some?)
    ensures Covered(s, lo, hi) && |s| <= MAX_AREAS ==> (refused <==> !HasRoom(s, lo, hi, prot))
    ensures RunsOff(s, lo, hi) ==> (refused <==> RefusesRunOff(s, lo, prot))
  {
    StartIsMapped(s, lo, hi);
    f := FindArea(s, lo);
    var span := CountSpan(s, f, lo, hi);
    WhereItEnds(s, f, f + span - 1, lo, hi);
    if Covered(s, lo, hi) && |s| <= MAX_AREAS {
      RefusesExactly(s, f, span, lo, hi, prot);
    }
    refused := Refuses(s, f, span, lo, hi, prot);
  }

  /** Both passes on a range that passed the checks. */
  method Apply(space: AddressSpace, f: nat, lo: int, hi: int, prot: nat)
    requires space.Valid() && f < |space.areas| && space.areas[f].Has(lo) && lo < hi
    requires Covered(space.areas, lo, hi) || (RunsOff(space.areas, lo, hi) && f == |space.areas| - 1)
    requires lo % PAGE == 0 && hi % PAGE == 0
    requires NoHole(space.areas, lo, hi) && (At(space.areas, hi).Some? ==> At(space.areas, hi - 1).Some?)
    modifies space
    ensures space.Valid() && Protected(old(space.areas), space.areas, lo, hi, prot)
  {
    ghost var s := space.areas;
    RecolourRange(space, f, lo, hi, prot);
    ghost var t := space.areas;
    MergeAll(space);
    ProtectsBeforeSame(s, t, space.areas, lo, hi, prot);
    ProtectCount(s, space.areas, lo, hi, prot);
  }

  lemma ProtectsBeforeSame(s: seq<Area>, t: seq<Area>, u: seq<Area>, lo: int, hi: int, prot: nat)
    requires Protects(s, t, lo, hi, prot) && SameMeaning(u, t)
    ensures Protects(s, u, lo, hi, prot)
  {
    forall a ensures At(u, a) == if lo <= a < hi && At(s, a).Some? then Some(prot) else At(s, a) {
      assert At(u, a) == At(t, a);
    }
  }

  lemma StartIsMapped(s: seq<Area>, lo: int, hi: int)
    requires Sorted(s) && lo < hi && (Covered(s, lo, hi) || RunsOff(s, lo, hi))
    ensures At(s, lo).Some?
  {
    if RunsOff(s, lo, hi) {
      AtMember(s, |s| - 1, lo);
    }
  }

  /** A covered range ends inside the last area it meets; one that runs off meets only the last area. */
  lemma WhereItEnds(s: seq<Area>, f: nat, g: nat, lo: int, hi: int)
    requires Sorted(s) && lo < hi && Meets(s, f, g, lo, hi) && (Covered(s, lo, hi) || RunsOff(s, lo, hi))
    ensures if Covered(s, lo, hi) then hi <= s[g].end else f == g == |s| - 1
    ensures NoHole(s, lo, hi)
    ensures At(s, hi).Some? ==> At(s, hi - 1).Some?
  {
    InOrder(s, f, |s| - 1);
    AtMember(s, f, lo);
    if g + 1 == |s| && s[g].end < hi {
      AtGap(s, g, s[g].end);
      NotCovered(s, lo, hi, s[g].end);
    }
    forall a | lo < a <= hi && At(s, a).Some? ensures At(s, a - 1).Some? {
      if !Covered(s, lo, hi) {
        var i := AtWitness(s, a);
        InOrder(s, i, f);
        AtMember(s, f, a - 1);
      }
    }
  }
}
