/** The per-process list of areas and the three system calls that edit it. The list is a
    field that the methods reassign node by node; `i` plays the part of the `curr` pointer. */
module AddressSpaces {
  import opened Options
  import opened AreaLists
  import opened AreaInsertion
  import opened AddressSearch
  import opened AreaRemoval

  /** How one attempt to place a range ended: mapped (and the address reported to the caller),
      refused because the node limit is reached, or no room at this place. */
  datatype Outcome = Placed(at: int) | Full | NoRoom

  function RoundUp(length: int): (r: int)
    requires 0 <= length
    ensures length <= r < length + PAGE && r % PAGE == 0
  {
    if length % PAGE == 0 then length else (length / PAGE + 1) * PAGE
  }

  /** Arguments of the calls as the C types and the page granularity allow them. */
  ghost predicate PageRange(addr: int, length: int) {
    0 <= addr && addr % PAGE == 0 && 0 < length <= 0x7ffff000
  }

  /** Placing [lo, hi) behind the first `i` areas: done, or refused when a new node exceeds the limit. */
  ghost predicate Placement(s: seq<Area>, t: seq<Area>, i: nat, lo: int, hi: int, prot: nat, ret: int, o: Outcome)
    requires i <= |s|
  {
    if !JoinsLeft(s, i, lo, prot) && !JoinsRight(s, i, hi, prot) && |s| >= MAX_AREAS
    then o == Full && t == s
    else o == Placed(ret) && t == Insert(s, i, lo, hi, prot)
  }

  ghost predicate GapTooSmall(s: seq<Area>, k: int, len: int)
    requires -1 <= k < |s|
  {
    GapHi(s, k) - GapLo(s, k) < len
  }

  /** The range was placed (or refused) at the very start of gap `k`, which has room. */
  ghost predicate PlacedAtGap(s: seq<Area>, t: seq<Area>, k: int, len: int, prot: nat, o: Outcome)
    requires -1 <= k < |s|
  {
    && o != NoRoom
    && !GapTooSmall(s, k, len)
    && Placement(s, t, k + 1, GapLo(s, k), GapLo(s, k) + len, prot, GapLo(s, k), o)
  }

  /** The address a call with a hint reports: extending the last area upwards reports the start of
      that area instead of the start of the new range. */
  function Reported(s: seq<Area>, addr: int, prot: nat): int {
    if s != [] && addr == s[|s| - 1].end && s[|s| - 1].prot == prot then s[|s| - 1].start else addr
  }

  /** What the attempt at the hint did: the hint was unusable and the search resumes at `i`, or the
      range was placed behind the first `i` areas. */
  ghost predicate HintOutcome(s: seq<Area>, t: seq<Area>, addr: int, len: int, prot: nat, o: Outcome, i: nat) {
    if o == NoRoom then t == s && Blocked(s, addr, len, i)
    else GapFor(s, i, addr, addr + len)
         && Placement(s, t, i, addr, addr + len, prot, Reported(s, addr, prot), o)
  }

  /** A hint that fits below area `i` is a gap, joins nothing below it, and is reported as it is. */
  lemma HintIsFree(s: seq<Area>, i: nat, addr: int, len: int, prot: nat)
    requires Canonical(s) && i < |s| && len > 0 && len % PAGE == 0 && addr % PAGE == 0
    requires WINDOW_START <= addr < s[i].start && (i > 0 ==> s[i - 1].end < addr)
    ensures addr + len <= s[i].start ==> GapFor(s, i, addr, addr + len)
    ensures !JoinsLeft(s, i, addr, prot) && Reported(s, addr, prot) == addr
    ensures addr + len == s[i].start && s[i].prot == prot ==>
      Insert(s, i, addr, addr + len, prot) == Replace(s, i, i + 1, s[i].(start := addr))
  {
    InOrder(s, i, |s| - 1);
  }

  /** Above the last area there is a gap up to the end of the window, which may join that area. */
  lemma EndIsFree(s: seq<Area>, addr: int, len: int, prot: nat)
    requires Canonical(s) && s != [] && len > 0 && len % PAGE == 0 && addr % PAGE == 0
    requires s[|s| - 1].start <= addr
    ensures
      var i, hi := |s|, addr + len;
      && !JoinsRight(s, i, hi, prot)
      && (s[i - 1].end <= addr && hi <= WINDOW_END ==> GapFor(s, i, addr, hi))
      && (s[i - 1].end == addr && s[i - 1].prot == prot ==>
            JoinsLeft(s, i, addr, prot) && Insert(s, i, addr, hi, prot) == Replace(s, i - 1, i, s[i - 1].(end := hi)))
  {
  }

  /** Deleting or overwriting the first node behind a prefix leaves the prefix alone. */
  lemma EditBehind(p: seq<Area>, q: seq<Area>, x: Area)
    requires q != []
    ensures (p + q)[..|p|] + (p + q)[|p| + 1..] == p + q[1..]
    ensures (p + q)[|p| := x] == p + ([x] + q[1..])
  {
  }

  lemma GapBehind(s: seq<Area>, i: nat, len: int, prot: nat)
    requires Canonical(s) && i + 1 < |s| && 0 < len && len % PAGE == 0
    requires s[i].end + len <= s[i + 1].start
    ensures GapFor(s, i + 1, s[i].end, s[i].end + len)
    ensures Reported(s, s[i].end, prot) == s[i].end
  {
    InOrder(s, i, |s| - 1);
  }

  /** Everything a placement means: the list stays canonical and within the limit, exactly [lo, hi)
      is added, and it is refused only when a node is needed and none is left. */
  lemma PlacementMeaning(s: seq<Area>, t: seq<Area>, i: nat, lo: int, hi: int, prot: nat, ret: int, o: Outcome)
    requires Canonical(s) && GapFor(s, i, lo, hi) && Placement(s, t, i, lo, hi, prot, ret, o)
    ensures Canonical(t) && (|s| <= MAX_AREAS ==> |t| <= MAX_AREAS)
    ensures o == if Isolated(s, lo, hi, prot) && |s| >= MAX_AREAS then Full else Placed(ret)
    ensures if o == Full then t == s else MapsRange(s, t, lo, hi, prot)
  {
    hide Sorted, Coalesced, Aligned, Insert, MapsRange;
    InsertCount(s, i, lo, hi, prot);
    JoinsMeaning(s, i, lo, hi, prot);
    InsertCanonical(s, i, lo, hi, prot);
    InsertMeaning(s, i, lo, hi, prot);
  }

  /** The result of mmap on an aligned request: `ret` and the new list `t` from the old list `s`. */
  ghost predicate MapResult(s: seq<Area>, t: seq<Area>, addr: int, len: int, prot: nat, fixed: bool, ret: int) {
    match Chosen(s, addr, len, fixed)
    case None => ret == -1 && t == s
    case Some(lo) =>
      if Isolated(s, lo, lo + len, prot) && |s| >= MAX_AREAS then ret == -1 && t == s
      else MapsRange(s, t, lo, lo + len, prot) && ret == if lo == addr then Reported(s, addr, prot) else lo
  }

  // ---------------------------------------------------------------- mmap on addresses alone

  /** Every address of [lo, lo + len) lies in the window and is unmapped. */
  ghost predicate FreeRange(s: seq<Area>, lo: int, len: int) {
    forall a :: lo <= a < lo + len ==> WINDOW_START <= a < WINDOW_END && At(s, a) == None
  }

  /** From `s` to `t` exactly [lo, lo + len) is added, all of it unmapped before. */
  ghost predicate Adds(s: seq<Area>, t: seq<Area>, lo: int, len: int, prot: nat) {
    FreeRange(s, lo, len) && forall a :: At(t, a) == if lo <= a < lo + len then Some(prot) else At(s, a)
  }

  /** A list at the node limit takes a range only beside a mapped byte of its protection. */
  ghost predicate NeedsNode(s: seq<Area>, lo: int, hi: int, prot: nat) {
    |s| >= MAX_AREAS && At(s, lo - 1) != Some(prot) && At(s, hi) != Some(prot)
  }

  /** MAP_FIXED: the range at the address itself, or nothing. */
  ghost predicate FixedLaw(s: seq<Area>, t: seq<Area>, addr: int, len: int, prot: nat, ret: int) {
    && (ret == -1 <==> !FreeRange(s, addr, len) || NeedsNode(s, addr, addr + len, prot))
    && if ret == -1 then t == s else Adds(s, t, addr, len, prot)
  }

  /** Of the free places at or above the hint the lowest, and if there is none, the lowest of all. */
  ghost predicate NextPlace(s: seq<Area>, addr: int, len: int, lo: int) {
    && FreeRange(s, lo, len)
    && (forall u :: FreeRange(s, u, len) && addr <= u ==> addr <= lo <= u)
    && (forall u :: FreeRange(s, u, len) && lo < addr ==> lo <= u)
  }

  /** Without MAP_FIXED the range goes to the next place, unless there is none or it needs a node too many. The
      value reported is its address or, where the last area grew at the hint, the start of that area. */
  ghost predicate SearchLaw(s: seq<Area>, t: seq<Area>, addr: int, len: int, prot: nat, ret: int) {
    if forall u :: !FreeRange(s, u, len) then ret == -1 && t == s
    else exists lo ::
      && NextPlace(s, addr, len, lo)
      && if NeedsNode(s, lo, lo + len, prot) then ret == -1 && t == s
         else
           && Adds(s, t, lo, len, prot)
           && ret == if lo == addr && s != [] && s[|s| - 1].end == addr && s[|s| - 1].prot == prot
                     then s[|s| - 1].start else lo
  }

  lemma FitsIsFree(s: seq<Area>, u: int, len: int)
    requires len > 0
    ensures Fits(s, u, len) <==> FreeRange(s, u, len)
  {
    if FreeRange(s, u, len) {
      assert At(s, u) == None && At(s, u + len - 1) == None;
    }
  }

  lemma FixedMeaning(s: seq<Area>, t: seq<Area>, addr: int, len: int, prot: nat, ret: int)
    requires Canonical(s) && len > 0 && addr != 0 && MapResult(s, t, addr, len, prot, true, ret) && addr >= 0
    ensures FixedLaw(s, t, addr, len, prot, ret)
  {
    hide Canonical;
    FitsIsFree(s, addr, len);
    ReportedInWindow(s, addr, prot);
  }

  lemma OutsideWindow(s: seq<Area>, addr: int, len: int)
    requires len > 0 && (addr < WINDOW_START || addr + len > WINDOW_END)
    ensures !FreeRange(s, addr, len)
  {
    assert FreeRange(s, addr, len) ==> At(s, addr) == None && At(s, addr + len - 1) == None;
  }

  lemma ReportedInWindow(s: seq<Area>, addr: int, prot: nat)
    requires Canonical(s) && addr >= 0
    ensures Reported(s, addr, prot) >= 0
  {
  }

  lemma SearchMeaning(s: seq<Area>, t: seq<Area>, addr: int, len: int, prot: nat, fixed: bool, ret: int)
    requires Canonical(s) && len > 0 && (!fixed || addr == 0) && MapResult(s, t, addr, len, prot, fixed, ret)
    ensures SearchLaw(s, t, addr, len, prot, ret)
  {
    hide Canonical, FreeRange, Fits;
    forall u ensures Fits(s, u, len) <==> FreeRange(s, u, len) {
      FitsIsFree(s, u, len);
    }
    if u :| FreeRange(s, u, len) {
      TargetExists(s, addr, len, u);
      var lo := Chosen(s, addr, len, fixed).value;
      assert NextPlace(s, addr, len, lo);
    }
  }

  function Code(o: Outcome): int {
    if o.Placed? then o.at else -1
  }

  /** A placement at the start of a gap is the specified result when that gap holds the target. */
  lemma GapResult(s: seq<Area>, t: seq<Area>, addr: int, len: int, prot: nat, k: int, o: Outcome)
    requires Canonical(s) && -1 <= k < |s| && len > 0 && len % PAGE == 0
    requires PlacedAtGap(s, t, k, len, prot, o)
    requires IsTarget(s, addr, len, GapLo(s, k)) && !Fits(s, addr, len)
    ensures Canonical(t) && (|s| <= MAX_AREAS ==> |t| <= MAX_AREAS)
    ensures MapResult(s, t, addr, len, prot, false, Code(o))
  {
    var lo := GapLo(s, k);
    GapRoom(s, k, len);
    PlacementMeaning(s, t, k + 1, lo, lo + len, prot, lo, o);
    ChosenIs(s, addr, len, false, lo);
  }

  lemma GapRoom(s: seq<Area>, k: int, len: int)
    requires Canonical(s) && -1 <= k < |s| && 0 < len && len % PAGE == 0 && !GapTooSmall(s, k, len)
    ensures GapFor(s, k + 1, GapLo(s, k), GapLo(s, k) + len)
  {
    assert k < |s| - 1 ==> s[k + 1].start % PAGE == 0;
  }

  /** A placement at the hint itself is the specified result. */
  lemma HintResult(s: seq<Area>, t: seq<Area>, addr: int, len: int, prot: nat, fixed: bool, i: nat, o: Outcome)
    requires Canonical(s) && len > 0 && o != NoRoom && HintOutcome(s, t, addr, len, prot, o, i)
    ensures Canonical(t) && (|s| <= MAX_AREAS ==> |t| <= MAX_AREAS)
    ensures MapResult(s, t, addr, len, prot, fixed, Code(o))
  {
    PlacementMeaning(s, t, i, addr, addr + len, prot, Reported(s, addr, prot), o);
    GapForFits(s, i, addr, len);
    ChosenIs(s, addr, len, fixed, addr);
  }

  lemma NothingAtZero(s: seq<Area>, len: int)
    ensures !Fits(s, 0, len)
    ensures s == [] && 0 < len <= 0x7ffff000 ==> IsTarget(s, 0, len, WINDOW_START)
  {
    assert WINDOW_START > 0;
  }

  lemma NothingChosen(s: seq<Area>, addr: int, len: int, fixed: bool)
    requires forall u :: !Fits(s, u, len)
    ensures Chosen(s, addr, len, fixed) == None
  {
  }

  /** Neither the gaps below the hint, nor anything above it, has room. */
  lemma NothingLeft(s: seq<Area>, addr: int, len: int, i: int)
    requires Sorted(s) && len > 0 && NothingFrom(s, addr, len) && 0 <= i < |s|
    requires GapTooSmall(s, -1, len) && SmallGaps(s, 0, i, len)
    requires s[i].end >= addr || (i == |s| - 1 && GapTooSmall(s, i, len))
    ensures forall u :: !Fits(s, u, len)
  {
    if s[i].end >= addr {
      NoTargetBehind(s, addr, len, i);
    } else {
      NoTargetAnywhere(s, len);
    }
  }

  /** On the empty list the target is the hint, or the window start when the hint leaves too little room. */
  lemma EmptyTarget(addr: int, len: int)
    requires WINDOW_START <= addr <= WINDOW_END && 0 < len <= 0x7ffff000
    ensures IsTarget([], addr, len, if addr + len > WINDOW_END then WINDOW_START else addr)
  {
    assert forall u :: WINDOW_START <= u && u + len <= WINDOW_END ==> Fits([], u, len);
  }

  /** The window checks at the head of mmap. */
  predicate AcceptsHint(addr: int, length: int, fixed: bool) {
    addr == 0 || (WINDOW_START <= addr <= WINDOW_END && (fixed ==> addr + length <= WINDOW_END))
  }

  class AddressSpace {
    var areas: seq<Area>

    ghost predicate Valid()
      reads this
    {
      Canonical(areas)
    }

    constructor ()
      ensures Valid() && areas == []
    {
      areas := [];
    }

    /** A new node [lo, hi) behind the first `i` areas, unless the limit is reached. */
    method NewNode(i: nat, lo: int, hi: int, prot: nat, ret: int) returns (o: Outcome)
      requires i <= |areas| && !JoinsLeft(areas, i, lo, prot) && !JoinsRight(areas, i, hi, prot)
      modifies this
      ensures Placement(old(areas), areas, i, lo, hi, prot, ret, o)
    {
      if |areas| >= MAX_AREAS {
        return Full;
      }
      areas := areas[..i] + [Area(lo, hi, prot)] + areas[i..];
      o := Placed(ret);
    }

    /** Assign the end field of node `i`. */
    method SetEnd(i: nat, end: int)
      requires i < |areas|
      modifies this
      ensures areas == Replace(old(areas), i, i + 1, old(areas)[i].(end := end))
    {
      areas := areas[i := areas[i].(end := end)];
    }

    /** Assign the start field of node `i`. */
    method SetStart(i: nat, start: int)
      requires i < |areas|
      modifies this
      ensures areas == Replace(old(areas), i, i + 1, old(areas)[i].(start := start))
    {
      areas := areas[i := areas[i].(start := start)];
    }

    /** Map `len` bytes right behind area `i`, inside the gap before area i + 1. */
    method PlaceInGap(i: nat, len: int, prot: nat) returns (o: Outcome)
      requires Valid() && i + 1 < |areas| && len > 0
      requires areas[i].end + len <= areas[i + 1].start
      modifies this
      ensures PlacedAtGap(old(areas), areas, i, len, prot, o)
    {
      hide Sorted, Coalesced, Aligned;
      var lo := areas[i].end;
      if areas[i].end + len < areas[i + 1].start {
        if areas[i].prot == prot {
          SetEnd(i, lo + len);
          o := Placed(lo);
        } else {
          o := NewNode(i + 1, lo, lo + len, prot, lo);
        }
      } else {
        if prot == areas[i].prot && prot == areas[i + 1].prot {
          areas := areas[..i] + [Area(areas[i].start, areas[i + 1].end, prot)] + areas[i + 2..];
          o := Placed(lo);
        } else if prot == areas[i].prot {
          SetEnd(i, areas[i + 1].start);
          o := Placed(lo);
        } else if prot == areas[i + 1].prot {
          SetStart(i + 1, lo);
          o := Placed(lo);
        } else {
          o := NewNode(i + 1, lo, lo + len, prot, lo);
        }
      }
    }

    /** Map at the start of the window, before the first area. */
    method PlaceAtHead(len: int, prot: nat) returns (o: Outcome)
      requires Valid() && areas != [] && len > 0
      modifies this
      ensures o == NoRoom <==> GapTooSmall(old(areas), -1, len)
      ensures o == NoRoom ==> areas == old(areas)
      ensures o != NoRoom ==> PlacedAtGap(old(areas), areas, -1, len, prot, o)
    {
      if areas[0].start > len + WINDOW_START {
        o := NewNode(0, WINDOW_START, WINDOW_START + len, prot, WINDOW_START);
      } else if areas[0].start == len + WINDOW_START {
        if areas[0].prot == prot {
          SetStart(0, areas[0].start - len);
          o := Placed(WINDOW_START);
        } else {
          o := NewNode(0, WINDOW_START, WINDOW_START + len, prot, WINDOW_START);
        }
      } else {
        o := NoRoom;
      }
    }

    /** Map behind the last area. */
    method PlaceAtTail(len: int, prot: nat) returns (o: Outcome)
      requires Valid() && areas != [] && len > 0
      modifies this
      ensures o == NoRoom <==> GapTooSmall(old(areas), |old(areas)| - 1, len)
      ensures o == NoRoom ==> areas == old(areas)
      ensures o != NoRoom ==> PlacedAtGap(old(areas), areas, |old(areas)| - 1, len, prot, o)
    {
      var i := |areas| - 1;
      var lo := areas[i].end;
      if lo + len > WINDOW_END {
        return NoRoom;
      }
      if areas[i].prot == prot {
        SetEnd(i, lo + len);
        o := Placed(lo);
      } else {
        o := NewNode(i + 1, lo, lo + len, prot, lo);
      }
    }

    /** The first gap from area `from` on that has room, as long as areas end below `limit`. */
    method NextGap(from: nat, limit: int, len: int) returns (i: nat, found: bool)
      requires Valid() && from < |areas|
      ensures from <= i < |areas| && SmallGaps(areas, from, i, len)
      ensures if found then i + 1 < |areas| && areas[i].end + len <= areas[i + 1].start
              else i == |areas| - 1 || areas[i].end >= limit
    {
      i := from;
      while i + 1 < |areas| && areas[i].end < limit
        invariant from <= i < |areas| && SmallGaps(areas, from, i, len)
      {
        if areas[i].end + len <= areas[i + 1].start {
          return i, true;
        }
        i := i + 1;
      }
      found := false;
    }

    /** Place the range in the first gap with room at or behind area `from`. */
    method SearchGaps(from: nat, limit: int, len: int, prot: nat) returns (o: Outcome, i: nat)
      requires Valid() && from < |areas| && len > 0
      modifies this
      ensures from <= i < |old(areas)| && SmallGaps(old(areas), from, i, len)
      ensures o == NoRoom ==> areas == old(areas) && (i == |areas| - 1 || areas[i].end >= limit)
      ensures o != NoRoom ==> i + 1 < |old(areas)| && PlacedAtGap(old(areas), areas, i, len, prot, o)
    {
      var found;
      i, found := NextGap(from, limit, len);
      if found {
        o := PlaceInGap(i, len, prot);
      } else {
        o := NoRoom;
      }
    }

    /** The first attempt of a call with a hint: use exactly [addr, addr + len). On failure `i` is
        where the search for another place resumes (|areas| stands for the null pointer). */
    method PlaceAtHint(addr: int, len: int, prot: nat) returns (o: Outcome, i: nat)
      requires Valid() && areas != [] && len > 0 && len % PAGE == 0
      requires WINDOW_START <= addr <= WINDOW_END && addr % PAGE == 0
      modifies this
      ensures HintOutcome(old(areas), areas, addr, len, prot, o, i)
    {
      i := 0;
      if addr < areas[0].start {
        o, i := PlaceBelow(0, addr, len, prot);
        return;
      }
      i := FindHint(addr);
      if i + 1 == |areas| {
        o, i := PlaceAtEnd(addr, len, prot);
      } else if areas[i].Has(addr) {
        BlockedInside(areas, addr, len, i);
        o := NoRoom;
      } else if addr == areas[i].end {
        o, i := PlaceTouching(i, addr, len, prot);
      } else {
        o, i := PlaceBelow(i + 1, addr, len, prot);
      }
    }

    /** The hint is the end of area `i`, which is not the last. */
    method PlaceTouching(at: nat, addr: int, len: int, prot: nat) returns (o: Outcome, i: nat)
      requires Valid() && at + 1 < |areas| && len > 0 && len % PAGE == 0
      requires addr == areas[at].end && addr % PAGE == 0
      modifies this
      ensures HintOutcome(old(areas), areas, addr, len, prot, o, i)
    {
      hide Sorted, Coalesced, Aligned;
      i := at;
      if addr + len <= areas[i + 1].start {
        GapBehind(areas, i, len, prot);
        o := PlaceInGap(i, len, prot);
        i := i + 1;
      } else {
        BlockedBehind(areas, addr, len, i);
        o := NoRoom;
      }
    }

    /** The first area, short of the last, that holds the hint, ends at it, or has it in the gap behind. */
    method FindHint(addr: int) returns (i: nat)
      requires Valid() && areas != [] && areas[0].start <= addr
      ensures i < |areas| && areas[i].start <= addr
      ensures i + 1 < |areas| ==>
        areas[i].Has(addr) || addr == areas[i].end || areas[i].end < addr < areas[i + 1].start
    {
      i := 0;
      while i + 1 < |areas|
        invariant i < |areas| && areas[i].start <= addr
      {
        if areas[i].Has(addr) || addr == areas[i].end || areas[i].end < addr < areas[i + 1].start {
          return;
        }
        i := i + 1;
      }
    }

    /** The hint lies in the gap right below area `i`. */
    method PlaceBelow(i: nat, addr: int, len: int, prot: nat) returns (o: Outcome, resume: nat)
      requires Valid() && i < |areas| && len > 0 && len % PAGE == 0 && addr % PAGE == 0
      requires WINDOW_START <= addr < areas[i].start && (i > 0 ==> areas[i - 1].end < addr)
      modifies this
      ensures resume == i && HintOutcome(old(areas), areas, addr, len, prot, o, i)
    {
      hide Sorted, Coalesced, Aligned, Blocked, Replace, Insert;
      resume := i;
      InOrder(areas, i, |areas| - 1);
      InWindow(areas, i);
      HintIsFree(areas, i, addr, len, prot);
      if addr + len < areas[i].start {
        o := NewNode(i, addr, addr + len, prot, addr);
      } else if addr + len == areas[i].start {
        if areas[i].prot == prot {
          SetStart(i, areas[i].start - len);
          o := Placed(addr);
        } else {
          o := NewNode(i, addr, addr + len, prot, addr);
        }
      } else {
        BlockedBefore(areas, addr, len, i - 1);
        o := NoRoom;
      }
    }

    /** The hint lies in or above the last area. Extending that area reports the area's own start. */
    method PlaceAtEnd(addr: int, len: int, prot: nat) returns (o: Outcome, i: nat)
      requires Valid() && areas != [] && len > 0 && len % PAGE == 0
      requires areas[|areas| - 1].start <= addr <= WINDOW_END && addr % PAGE == 0
      modifies this
      ensures HintOutcome(old(areas), areas, addr, len, prot, o, i)
    {
      hide Sorted, Coalesced, Aligned, Insert;
      i := |areas| - 1;
      EndIsFree(areas, addr, len, prot);
      if addr + len > WINDOW_END {
        return NoRoom, |areas|;
      }
      if areas[i].Has(addr) {
        BlockedInside(areas, addr, len, i);
        return NoRoom, i;
      }
      if addr == areas[i].end && areas[i].prot == prot {
        SetEnd(i, addr + len);
        o := Placed(areas[i].start);
      } else {
        o := NewNode(i + 1, addr, addr + len, prot, addr);
      }
      i := i + 1;
    }

    /** mmap without a hint: the first gap with room, from the start of the window. */
    method MapAnywhere(len: int, prot: nat) returns (ret: int)
      requires Valid() && 0 < len <= 0x7ffff000 && len % PAGE == 0
      modifies this
      ensures Valid() && (|old(areas)| <= MAX_AREAS ==> |areas| <= MAX_AREAS)
      ensures MapResult(old(areas), areas, 0, len, prot, false, ret)
    {
      hide Sorted, Coalesced, Aligned, IsTarget, Placement, MapsRange, Isolated;
      ghost var s := areas;
      NothingAtZero(s, len);
      if areas == [] {
        ret := MapFirst(0, WINDOW_START, len, prot);
        return;
      }
      var o := PlaceAtHead(len, prot);
      if o != NoRoom {
        TargetFirst(s, len, -1);
        GapResult(s, areas, 0, len, prot, -1, o);
        return Code(o);
      }
      var i;
      o, i := SearchGaps(0, WINDOW_END + 1, len, prot);
      InWindow(s, i);
      if o != NoRoom {
        TargetFirst(s, len, i);
        GapResult(s, areas, 0, len, prot, i, o);
        return Code(o);
      }
      o := PlaceAtTail(len, prot);
      if o != NoRoom {
        TargetFirst(s, len, i);
        GapResult(s, areas, 0, len, prot, i, o);
      } else {
        NoTargetAnywhere(s, len);
        NothingChosen(s, 0, len, false);
      }
      ret := Code(o);
    }

    /** The list is empty: the first node goes to `lo`. */
    method MapFirst(ghost addr: int, lo: int, len: int, prot: nat) returns (ret: int)
      requires Valid() && areas == [] && len > 0 && len % PAGE == 0
      requires lo % PAGE == 0 && WINDOW_START <= lo && lo + len <= WINDOW_END
      requires IsTarget([], addr, len, lo)
      modifies this
      ensures Valid() && |areas| <= MAX_AREAS
      ensures MapResult(old(areas), areas, addr, len, prot, false, ret) && ret == lo
    {
      areas := [Area(lo, lo + len, prot)];
      ret := lo;
      assert areas == Insert([], 0, lo, lo + len, prot);
      PlacementMeaning([], areas, 0, lo, lo + len, prot, lo, Placed(lo));
      ChosenIs([], addr, len, false, lo);
    }

    /** mmap with a hint on a nonempty list: the hint, then the gaps above it, then all gaps. */
    method MapNear(addr: int, len: int, prot: nat, fixed: bool) returns (ret: int)
      requires Valid() && areas != [] && 0 < len <= 0x7ffff000 && len % PAGE == 0
      requires WINDOW_START <= addr <= WINDOW_END && addr % PAGE == 0
      modifies this
      ensures Valid() && (|old(areas)| <= MAX_AREAS ==> |areas| <= MAX_AREAS)
      ensures MapResult(old(areas), areas, addr, len, prot, fixed, ret)
    {
      hide Sorted, Coalesced, Aligned, IsTarget, Placement, MapsRange, Isolated, GapFor;
      ghost var s := areas;
      var o, i := PlaceAtHint(addr, len, prot);
      if o != NoRoom {
        HintResult(s, areas, addr, len, prot, fixed, i, o);
        return Code(o);
      }
      if fixed {
        return -1;
      }
      if i < |areas| {
        ghost var i0 := i;
        o, i := SearchGaps(i, WINDOW_END + 1, len, prot);
        InWindow(s, i);
        if o != NoRoom {
          TargetAhead(s, addr, len, i0, i);
          GapResult(s, areas, addr, len, prot, i, o);
          return Code(o);
        }
        o := PlaceAtTail(len, prot);
        if o != NoRoom {
          TargetAhead(s, addr, len, i0, i);
          GapResult(s, areas, addr, len, prot, i, o);
          return Code(o);
        }
        NothingAhead(s, addr, len, i0);
      }
      ret := MapBelow(addr, len, prot);
    }

    /** Nothing fits at or above the hint: start again from the beginning of the window. */
    method MapBelow(addr: int, len: int, prot: nat) returns (ret: int)
      requires Valid() && areas != [] && 0 < len && len % PAGE == 0
      requires NothingFrom(areas, addr, len)
      modifies this
      ensures Valid() && (|old(areas)| <= MAX_AREAS ==> |areas| <= MAX_AREAS)
      ensures MapResult(old(areas), areas, addr, len, prot, false, ret)
    {
      hide Sorted, Coalesced, Aligned, IsTarget, Placement, MapsRange, Isolated;
      ghost var s := areas;
      var o := PlaceAtHead(len, prot);
      if o != NoRoom {
        TargetBehind(s, addr, len, -1);
        GapResult(s, areas, addr, len, prot, -1, o);
        return Code(o);
      }
      var i;
      o, i := SearchGaps(0, addr, len, prot);
      if o == NoRoom && i == |areas| - 1 {
        o := PlaceAtTail(len, prot);
      }
      if o != NoRoom {
        TargetBehind(s, addr, len, i);
        GapResult(s, areas, addr, len, prot, i, o);
      } else {
        NothingLeft(s, addr, len, i);
        NothingChosen(s, addr, len, false);
      }
      ret := Code(o);
    }

    /** mmap: add `length` bytes, rounded up to whole pages, with protection `prot`. */
    method Map(addr: int, length: int, prot: nat, fixed: bool) returns (ret: int)
      requires Valid() && PageRange(addr, length)
      modifies this
      ensures Valid() && (|old(areas)| <= MAX_AREAS ==> |areas| <= MAX_AREAS)
      ensures !AcceptsHint(addr, length, fixed) ==> ret == -1 && areas == old(areas)
      ensures AcceptsHint(addr, length, fixed) ==>
        MapResult(old(areas), areas, addr, RoundUp(length), prot, fixed, ret)
      ensures fixed && addr != 0 ==> FixedLaw(old(areas), areas, addr, RoundUp(length), prot, ret)
      ensures addr == 0 || (!fixed && WINDOW_START <= addr <= WINDOW_END) ==>
        SearchLaw(old(areas), areas, addr, RoundUp(length), prot, ret)
    {
      hide Sorted, Coalesced, Aligned, FreeRange, NeedsNode, Adds, SearchLaw, NothingFrom;
      if addr != 0 && !(WINDOW_START <= addr <= WINDOW_END) {
        OutsideWindow(areas, addr, RoundUp(length));
        return -1;
      }
      if addr != 0 && fixed && !(WINDOW_START <= addr && addr + length <= WINDOW_END) {
        OutsideWindow(areas, addr, RoundUp(length));
        return -1;
      }
      var len := RoundUp(length);
      if addr == 0 {
        ret := MapAnywhere(len, prot);
      } else if areas == [] {
        EmptyTarget(addr, len);
        ret := MapFirst(addr, if addr + len > WINDOW_END then WINDOW_START else addr, len, prot);
      } else {
        ret := MapNear(addr, len, prot, fixed);
      }
      if fixed && addr != 0 {
        FixedMeaning(old(areas), areas, addr, len, prot, ret);
      } else {
        SearchMeaning(old(areas), areas, addr, len, prot, fixed, ret);
      }
    }

    /** munmap: remove `length` bytes, rounded up to whole pages. */
    method Unmap(addr: int, length: int) returns (ret: int)
      requires Valid() && PageRange(addr, length)
      modifies this
      ensures Valid()
      ensures ret == 0 || (ret == -1 && areas == old(areas))
      ensures ret == -1 <==>
        || !(addr == 0 || (WINDOW_START <= addr && addr + length <= WINDOW_END))
        || (|old(areas)| == MAX_AREAS && SplitsAny(old(areas), addr, addr + RoundUp(length)))
      ensures ret == 0 ==> areas == Cut(old(areas), addr, addr + RoundUp(length))
      ensures |old(areas)| <= MAX_AREAS ==> |areas| <= MAX_AREAS
    {
      if addr != 0 && !(WINDOW_START <= addr && addr + length <= WINDOW_END) {
        return -1;
      }
      var len := RoundUp(length);
      CutCanonical(areas, addr, addr + len);
      CutCount(areas, addr, addr + len);
      ret := RemoveRange(addr, addr + len);
    }

    /** The walk of munmap: skip the areas below `lo`, cut the one around it, then delete upwards. */
    method RemoveRange(lo: int, hi: int) returns (ret: int)
      requires Valid() && lo < hi
      modifies this
      ensures ret == 0 || (ret == -1 && areas == old(areas))
      ensures ret == -1 <==> |old(areas)| == MAX_AREAS && SplitsAny(old(areas), lo, hi)
      ensures ret == 0 ==> areas == Cut(old(areas), lo, hi)
    {
      ghost var s := areas;
      var i := SkipBelow(lo);
      CutSkipped(s, i, lo, hi);
      OnlyFirstSplits(s, i, lo, hi);
      if i < |areas| && areas[i].start < lo {
        if hi < areas[i].end {
          if |areas| == MAX_AREAS {
            return -1;
          }
          CutSplitNode(s, i, lo, hi);
          areas := areas[..i] + [areas[i].(end := lo), areas[i].(start := hi)] + areas[i + 1..];
          return 0;
        }
        CutTrimNode(s, i, lo, hi);
        areas := areas[i := areas[i].(end := lo)];
        i := i + 1;
      }
      DeleteUpwards(i, lo, hi);
      ret := 0;
    }

    /** The first area that reaches above `lo`. */
    method SkipBelow(lo: int) returns (i: nat)
      ensures i <= |areas| && (i < |areas| ==> lo < areas[i].end)
      ensures forall j :: 0 <= j < i ==> areas[j].end <= lo
    {
      i := 0;
      while i < |areas| && areas[i].end <= lo
        invariant i <= |areas| && forall j :: 0 <= j < i ==> areas[j].end <= lo
      {
        i := i + 1;
      }
    }

    /** Delete the areas from `i` on that end by `hi`, and trim the one that `hi` lies in. */
    method DeleteUpwards(i: nat, lo: int, hi: int)
      requires i <= |areas| && Sorted(areas) && lo < hi
      requires i < |areas| ==> lo <= areas[i].start
      modifies this
      ensures areas == old(areas)[..i] + Cut(old(areas)[i..], lo, hi)
    {
      hide Sorted, Cut;
      ghost var s := areas;
      ghost var k := i;
      while i < |areas|
        invariant i <= k <= |s| && areas == s[..i] + s[k..]
        invariant Cut(s[i..], lo, hi) == Cut(s[k..], lo, hi)
        decreases |s| - k
      {
        CutReached(s, i, k, lo, hi);
        EditBehind(s[..i], s[k..], s[k].(start := hi));
        assert s[k..][1..] == s[k + 1..];
        if areas[i].start >= hi {
          return;
        } else if areas[i].end > hi {
          areas := areas[i := areas[i].(start := hi)];
          return;
        } else if areas[i].end == hi {
          areas := areas[..i] + areas[i + 1..];
          return;
        }
        areas := areas[..i] + areas[i + 1..];
        k := k + 1;
      }
      CutNothing(lo, hi);
    }
  }
}
