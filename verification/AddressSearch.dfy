/** Where mmap may put a new range: the specification of the address search, stated on
    the meaning of the list, and its link to the gaps between neighbouring nodes. */
module AddressSearch {
  import opened Options
  import opened AreaLists
  import opened AreaInsertion

  /** [u, u + len) lies in the window and is entirely unmapped. */
  ghost predicate Fits(s: seq<Area>, u: int, len: int) {
    WINDOW_START <= u && u + len <= WINDOW_END && forall a :: u <= a < u + len ==> At(s, a) == None
  }

  /** `t` is the least fitting address at or above `from`, or, when there is none, the least of all. */
  ghost predicate IsTarget(s: seq<Area>, from: int, len: int, t: int) {
    && Fits(s, t, len)
    && if t >= from
       then forall u :: from <= u < t ==> !Fits(s, u, len)
       else (forall u :: u >= from ==> !Fits(s, u, len)) && (forall u :: u < t ==> !Fits(s, u, len))
  }

  lemma TargetUnique(s: seq<Area>, from: int, len: int, t: int, u: int)
    requires IsTarget(s, from, len, t) && IsTarget(s, from, len, u)
    ensures t == u
  {
    assert Fits(s, t, len) && Fits(s, u, len);
  }

  /** The address mmap must choose: a fixed request only its own address, any other the next fit. */
  ghost function Chosen(s: seq<Area>, addr: int, len: int, fixed: bool): Option<int> {
    if fixed && addr != 0 then
      if Fits(s, addr, len) then Some(addr) else None
    else if exists t :: IsTarget(s, addr, len, t) then
      var t :| IsTarget(s, addr, len, t); Some(t)
    else None
  }

  lemma ChosenIs(s: seq<Area>, addr: int, len: int, fixed: bool, t: int)
    requires IsTarget(s, addr, len, t) && (fixed && addr != 0 ==> t == addr)
    ensures Chosen(s, addr, len, fixed) == Some(t)
  {
    if !(fixed && addr != 0) {
      var c := Chosen(s, addr, len, fixed);
      TargetUnique(s, addr, len, t, c.value);
    }
  }

  /** A least fitting address at or above `from` exists below any fitting one. */
  lemma LeastFit(s: seq<Area>, from: int, len: int, u: int) returns (t: int)
    requires from <= u && Fits(s, u, len)
    ensures from <= t <= u && Fits(s, t, len) && forall v :: from <= v < t ==> !Fits(s, v, len)
    decreases u - from
  {
    if v :| from <= v < u && Fits(s, v, len) {
      t := LeastFit(s, from, len, v);
    } else {
      t := u;
    }
  }

  lemma TargetExists(s: seq<Area>, addr: int, len: int, u: int)
    requires Fits(s, u, len)
    ensures Chosen(s, addr, len, false).Some?
  {
    if v :| addr <= v && Fits(s, v, len) {
      var t := LeastFit(s, addr, len, v);
      ChosenIs(s, addr, len, false, t);
    } else {
      var t := LeastFit(s, WINDOW_START, len, u);
      assert forall v :: v < WINDOW_START ==> !Fits(s, v, len);
      assert IsTarget(s, addr, len, t);
      ChosenIs(s, addr, len, false, t);
    }
  }

  // ---------------------------------------------------------------- gaps

  /** Bounds of gap `k`, the one after the first k + 1 areas. */
  function GapLo(s: seq<Area>, k: int): int
    requires -1 <= k < |s|
  {
    if k == -1 then WINDOW_START else s[k].end
  }

  function GapHi(s: seq<Area>, k: int): int
    requires -1 <= k < |s|
  {
    if k == |s| - 1 then WINDOW_END else s[k + 1].start
  }

  ghost predicate SmallGaps(s: seq<Area>, i: int, j: int, len: int)
    requires -1 <= i && j <= |s|
  {
    forall k :: i <= k < j ==> GapHi(s, k) - GapLo(s, k) < len
  }

  lemma GapFits(s: seq<Area>, k: int, u: int, len: int)
    requires Sorted(s) && -1 <= k < |s|
    requires GapLo(s, k) <= u && u + len <= GapHi(s, k)
    ensures Fits(s, u, len)
  {
    forall a | u <= a < u + len ensures At(s, a) == None {
      AtGap(s, k, a);
    }
  }

  lemma GapForFits(s: seq<Area>, i: nat, u: int, len: int)
    requires Sorted(s) && GapFor(s, i, u, u + len)
    ensures Fits(s, u, len)
  {
    forall a | u <= a < u + len ensures At(s, a) == None {
      AtGap(s, i - 1, a);
    }
  }

  /** A fitting address lies in one gap that has room for it. */
  lemma FitsInGap(s: seq<Area>, u: int, len: int) returns (k: int)
    requires Sorted(s) && Fits(s, u, len) && len > 0
    ensures -1 <= k < |s| && GapLo(s, k) <= u && u + len <= GapHi(s, k)
  {
    k := Locate(s, u);
    assert At(s, u) == None;
    if k >= 0 && s[k].Has(u) {
      AtMember(s, k, u);
    }
    if k < |s| - 1 && s[k + 1].start < u + len {
      assert At(s, s[k + 1].start) == None;
      AtMember(s, k + 1, s[k + 1].start);
    }
  }

  /** The gap of a fitting address between the start of area i and the end of area j. */
  lemma FitGapBetween(s: seq<Area>, i: int, j: int, len: int, u: int) returns (k: int)
    requires Sorted(s) && len > 0 && -1 <= i < |s| && 0 <= j <= |s| && Fits(s, u, len)
    requires i >= 0 ==> s[i].start <= u
    requires j < |s| ==> u < s[j].end
    ensures i <= k < j && GapHi(s, k) - GapLo(s, k) >= len
  {
    k := FitsInGap(s, u, len);
    InOrder(s, k + 1, i);
    InOrder(s, j, k);
  }

  /** Small gaps from `i` up to `j` leave no fit between the start of area i and the end of area j. */
  lemma NoFitAmong(s: seq<Area>, i: int, j: int, len: int, u: int)
    requires Sorted(s) && len > 0 && -1 <= i < |s| && 0 <= j <= |s| && SmallGaps(s, i, j, len)
    requires i >= 0 ==> s[i].start <= u
    requires j < |s| ==> u < s[j].end
    ensures !Fits(s, u, len)
  {
    if Fits(s, u, len) {
      var k := FitGapBetween(s, i, j, len, u);
    }
  }

  // ---------------------------------------------------------------- outcomes of the search

  /** The hint cannot be used; the search resumes at area `i`, below which nothing fits from the hint on. */
  ghost predicate Blocked(s: seq<Area>, addr: int, len: int, i: int) {
    && 0 <= i <= |s|
    && !Fits(s, addr, len)
    && if i < |s|
       then addr <= s[i].end && forall u :: addr <= u < s[i].end ==> !Fits(s, u, len)
       else NothingFrom(s, addr, len)
  }

  ghost predicate NothingFrom(s: seq<Area>, addr: int, len: int) {
    forall u :: addr <= u ==> !Fits(s, u, len)
  }

  lemma BlockedInside(s: seq<Area>, addr: int, len: int, i: nat)
    requires Sorted(s) && len > 0 && i < |s| && s[i].Has(addr)
    ensures Blocked(s, addr, len, i)
  {
    forall u | addr <= u < s[i].end ensures !Fits(s, u, len) {
      AtMember(s, i, u);
      assert Fits(s, u, len) ==> At(s, u) == None;
    }
    assert addr <= addr < s[i].end;
  }

  /** The hint lies in gap `k`, which ends too early: resume at the next area. */
  lemma BlockedBefore(s: seq<Area>, addr: int, len: int, k: int)
    requires Sorted(s) && len > 0 && -1 <= k < |s| - 1
    requires addr < s[k + 1].start < addr + len
    ensures Blocked(s, addr, len, k + 1)
  {
    forall u | addr <= u < s[k + 1].end ensures !Fits(s, u, len) {
      var a := if u < s[k + 1].start then s[k + 1].start else u;
      AtMember(s, k + 1, a);
      assert Fits(s, u, len) ==> At(s, a) == None;
    }
    assert addr <= addr < s[k + 1].end;
  }

  /** The hint touches area `i` from above and the gap behind it is too small. */
  lemma BlockedBehind(s: seq<Area>, addr: int, len: int, i: nat)
    requires Sorted(s) && len > 0 && i < |s| - 1
    requires addr == s[i].end && s[i + 1].start < addr + len
    ensures Blocked(s, addr, len, i)
  {
    var a := s[i + 1].start;
    AtMember(s, i + 1, a);
    InOrder(s, i, i + 1);
    assert addr <= a < addr + len;
  }

  lemma TargetFirst(s: seq<Area>, len: int, j: int)
    requires Sorted(s) && len > 0 && -1 <= j < |s| && SmallGaps(s, -1, j, len)
    requires GapLo(s, j) + len <= GapHi(s, j)
    ensures IsTarget(s, 0, len, GapLo(s, j))
  {
    GapFits(s, j, GapLo(s, j), len);
    NothingBelow(s, len, j);
  }

  lemma NothingBelow(s: seq<Area>, len: int, j: int)
    requires Sorted(s) && len > 0 && -1 <= j < |s| && SmallGaps(s, -1, j, len)
    ensures forall u :: u < GapLo(s, j) ==> !Fits(s, u, len)
  {
    if j >= 0 {
      forall u | u < s[j].end ensures !Fits(s, u, len) {
        NoFitAmong(s, -1, j, len, u);
      }
    }
  }

  lemma TargetAhead(s: seq<Area>, addr: int, len: int, i: nat, j: nat)
    requires Sorted(s) && len > 0 && Blocked(s, addr, len, i) && i <= j < |s|
    requires SmallGaps(s, i, j, len) && GapLo(s, j) + len <= GapHi(s, j)
    ensures IsTarget(s, addr, len, GapLo(s, j))
  {
    GapFits(s, j, GapLo(s, j), len);
    InOrder(s, i, j);
    forall u | addr <= u < s[j].end ensures !Fits(s, u, len) {
      if s[i].end <= u {
        NoFitAmong(s, i, j, len, u);
      }
    }
  }

  lemma NothingAhead(s: seq<Area>, addr: int, len: int, i: nat)
    requires Sorted(s) && len > 0 && Blocked(s, addr, len, i) && i < |s|
    requires SmallGaps(s, i, |s|, len)
    ensures NothingFrom(s, addr, len)
  {
    forall u | addr <= u ensures !Fits(s, u, len) {
      if s[i].end <= u {
        NoFitAmong(s, i, |s|, len, u);
      }
    }
  }

  lemma TargetBehind(s: seq<Area>, addr: int, len: int, j: int)
    requires Sorted(s) && len > 0 && -1 <= j < |s| && NothingFrom(s, addr, len)
    requires SmallGaps(s, -1, j, len) && GapLo(s, j) + len <= GapHi(s, j)
    ensures IsTarget(s, addr, len, GapLo(s, j))
  {
    GapFits(s, j, GapLo(s, j), len);
    NothingBelow(s, len, j);
    var t := GapLo(s, j);
    assert addr <= t ==> !Fits(s, t, len);
  }

  lemma NoTargetBehind(s: seq<Area>, addr: int, len: int, j: int)
    requires Sorted(s) && len > 0 && NothingFrom(s, addr, len)
    requires 0 <= j < |s| && SmallGaps(s, -1, j, len) && addr <= s[j].end
    ensures forall u :: !Fits(s, u, len)
  {
    NothingBelow(s, len, j);
  }

  lemma NoTargetAnywhere(s: seq<Area>, len: int)
    requires Sorted(s) && len > 0 && SmallGaps(s, -1, |s|, len)
    ensures forall u :: !Fits(s, u, len)
  {
    forall u ensures !Fits(s, u, len) {
      NoFitAmong(s, -1, |s|, len, u);
    }
  }

  // ---------------------------------------------------------------- the node limit

  /** No equal-protection area touches [lo, hi), so mapping it takes a new node. */
  ghost predicate Isolated(s: seq<Area>, lo: int, hi: int, prot: nat) {
    At(s, lo - 1) != Some(prot) && At(s, hi) != Some(prot)
  }

  lemma JoinsMeaning(s: seq<Area>, i: nat, lo: int, hi: int, prot: nat)
    requires Canonical(s) && GapFor(s, i, lo, hi)
    ensures JoinsLeft(s, i, lo, prot) <==> At(s, lo - 1) == Some(prot)
    ensures JoinsRight(s, i, hi, prot) <==> At(s, hi) == Some(prot)
  {
    if i > 0 && s[i - 1].end == lo {
      AtMember(s, i - 1, lo - 1);
    } else {
      AtGap(s, i - 1, lo - 1);
    }
    if i < |s| && s[i].start == hi {
      AtMember(s, i, hi);
    } else {
      AtGap(s, i - 1, hi);
    }
  }
}
