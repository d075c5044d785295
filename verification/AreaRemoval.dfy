/** Removing an address range from a list of areas: what munmap leaves behind. */
module AreaRemoval {
  import opened Options
  import opened AreaLists
  import opened AreaInsertion

  /** What is left of one area: the part below `lo` and the part from `hi` on. */
  function CutOne(x: Area, lo: int, hi: int): seq<Area> {
    (if x.start < lo then [x.(end := if x.end < lo then x.end else lo)] else [])
    + (if x.end > hi then [x.(start := if x.start > hi then x.start else hi)] else [])
  }

  function Cut(s: seq<Area>, lo: int, hi: int): seq<Area> {
    if s == [] then [] else CutOne(s[0], lo, hi) + Cut(s[1..], lo, hi)
  }

  /** The list `t` is `s` with exactly [lo, hi) unmapped. */
  ghost predicate UnmapsRange(s: seq<Area>, t: seq<Area>, lo: int, hi: int) {
    forall a :: At(t, a) == if lo <= a < hi then None else At(s, a)
  }

  /** Removing [lo, hi) leaves a piece of `x` on both sides. */
  predicate Splits(x: Area, lo: int, hi: int) {
    x.start < lo && hi < x.end
  }

  lemma CutOneAt(x: Area, lo: int, hi: int, a: int)
    requires x.start < x.end && lo < hi
    ensures At(CutOne(x, lo, hi), a) == if lo <= a < hi then None else At([x], a)
  {
    var left := if x.start < lo then [x.(end := if x.end < lo then x.end else lo)] else [];
    var right := if x.end > hi then [x.(start := if x.start > hi then x.start else hi)] else [];
    AtConcat(left, right, a);
    AtOne(x, a);
    if x.start < lo { AtOne(left[0], a); }
    if x.end > hi { AtOne(right[0], a); }
  }

  lemma {:induction false} CutMeaning(s: seq<Area>, lo: int, hi: int, a: int)
    requires Sorted(s) && lo < hi
    ensures At(Cut(s, lo, hi), a) == if lo <= a < hi then None else At(s, a)
  {
    if s != [] {
      CutMeaning(s[1..], lo, hi, a);
      AtConcat(CutOne(s[0], lo, hi), Cut(s[1..], lo, hi), a);
      AtConcat([s[0]], s[1..], a);
      assert [s[0]] + s[1..] == s;
      CutOneAt(s[0], lo, hi, a);
    }
  }

  /** Every piece comes from one area and keeps its protection. */
  lemma {:induction false} CutOrigin(s: seq<Area>, lo: int, hi: int, y: Area) returns (i: nat)
    requires y in Cut(s, lo, hi) && Sorted(s) && lo < hi
    ensures i < |s| && s[i].start <= y.start < y.end <= s[i].end && y.prot == s[i].prot
  {
    if y in CutOne(s[0], lo, hi) {
      i := 0;
    } else {
      var j := CutOrigin(s[1..], lo, hi, y);
      i := j + 1;
    }
  }

  lemma CutOneCanonical(x: Area, lo: int, hi: int)
    requires Canonical([x]) && lo < hi && lo % PAGE == 0 && hi % PAGE == 0
    ensures Canonical(CutOne(x, lo, hi))
  {
    assert [x][0] == x;
  }

  lemma {:induction false} CutCanonical(s: seq<Area>, lo: int, hi: int)
    requires Canonical(s) && lo < hi && lo % PAGE == 0 && hi % PAGE == 0
    ensures Canonical(Cut(s, lo, hi))
  {
    if s != [] {
      CanonicalSlice(s, 0, 1);
      CanonicalSlice(s, 1, |s|);
      assert s[0..1] == [s[0]];
      CutOneCanonical(s[0], lo, hi);
      CutCanonical(s[1..], lo, hi);
      CutHeadBefore(s, lo, hi);
      CanonicalConcat(CutOne(s[0], lo, hi), Cut(s[1..], lo, hi));
    }
  }

  lemma CutOneWithin(x: Area, lo: int, hi: int, y: Area)
    requires y in CutOne(x, lo, hi)
    ensures y.end <= x.end && y.prot == x.prot
  {
  }

  lemma CutHeadBefore(s: seq<Area>, lo: int, hi: int)
    requires Sorted(s) && Coalesced(s) && s != [] && lo < hi
    ensures Before(CutOne(s[0], lo, hi), Cut(s[1..], lo, hi))
  {
    hide Sorted, Coalesced, CutOne, Cut;
    forall x, y | x in CutOne(s[0], lo, hi) && y in Cut(s[1..], lo, hi)
      ensures x.end <= y.start && (x.end == y.start ==> x.prot != y.prot)
    {
      CutPairApart(s, lo, hi, x, y);
    }
  }

  lemma CutPairApart(s: seq<Area>, lo: int, hi: int, x: Area, y: Area)
    requires Sorted(s) && Coalesced(s) && s != [] && lo < hi
    requires x in CutOne(s[0], lo, hi) && y in Cut(s[1..], lo, hi)
    ensures x.end <= y.start && (x.end == y.start ==> x.prot != y.prot)
  {
    CutOneWithin(s[0], lo, hi, x);
    CutRestAbove(s, lo, hi, y);
  }

  lemma CutRestAbove(s: seq<Area>, lo: int, hi: int, y: Area)
    requires Sorted(s) && Coalesced(s) && s != [] && lo < hi && y in Cut(s[1..], lo, hi)
    ensures s[0].end <= y.start && (s[0].end == y.start ==> s[0].prot != y.prot)
  {
    var i := CutOrigin(s[1..], lo, hi, y);
    var z := s[i + 1];
    assert s[1..][i] == z;
    assert s[0].end <= z.start;
  }

  // ---------------------------------------------------------------- removing step by step

  predicate SplitsAny(s: seq<Area>, lo: int, hi: int) {
    exists i :: 0 <= i < |s| && Splits(s[i], lo, hi)
  }

  lemma {:induction false} CutConcat(p: seq<Area>, q: seq<Area>, lo: int, hi: int)
    ensures Cut(p + q, lo, hi) == Cut(p, lo, hi) + Cut(q, lo, hi)
  {
    if p == [] {
      assert p + q == q;
    } else {
      assert (p + q)[1..] == p[1..] + q;
      CutConcat(p[1..], q, lo, hi);
    }
  }

  lemma CutOneKeeps(x: Area, lo: int, hi: int)
    requires lo < hi && x.start < x.end && (hi <= x.start || x.end <= lo)
    ensures CutOne(x, lo, hi) == [x]
  {
  }

  /** Areas at or above `hi` are untouched. */
  lemma {:induction false} CutAbove(s: seq<Area>, lo: int, hi: int)
    requires lo < hi && forall x :: x in s ==> hi <= x.start < x.end
    ensures Cut(s, lo, hi) == s
  {
    if s != [] {
      hide CutOne;
      CutOneKeeps(s[0], lo, hi);
      CutAbove(s[1..], lo, hi);
      assert s == [s[0]] + s[1..];
    }
  }

  lemma CutAboveSorted(s: seq<Area>, lo: int, hi: int)
    requires Sorted(s) && lo < hi && (s != [] ==> hi <= s[0].start)
    ensures Cut(s, lo, hi) == s
  {
    forall x | x in s ensures hi <= x.start < x.end {
      var i :| 0 <= i < |s| && s[i] == x;
      InOrder(s, 0, i);
    }
    CutAbove(s, lo, hi);
  }

  /** Areas that end by `lo` are untouched. */
  lemma {:induction false} CutBelow(s: seq<Area>, lo: int, hi: int)
    requires lo < hi && forall x :: x in s ==> x.start < x.end <= lo
    ensures Cut(s, lo, hi) == s
  {
    if s != [] {
      hide CutOne;
      CutOneKeeps(s[0], lo, hi);
      CutBelow(s[1..], lo, hi);
      assert s == [s[0]] + s[1..];
    }
  }

  lemma CutSkipped(s: seq<Area>, i: nat, lo: int, hi: int)
    requires Sorted(s) && lo < hi && i <= |s| && forall j :: 0 <= j < i ==> s[j].end <= lo
    ensures Cut(s, lo, hi) == s[..i] + Cut(s[i..], lo, hi)
  {
    assert s == s[..i] + s[i..];
    CutConcat(s[..i], s[i..], lo, hi);
    CutBelow(s[..i], lo, hi);
  }

  lemma CutNothing(lo: int, hi: int)
    ensures Cut([], lo, hi) == []
  {
  }

  lemma CutHead(s: seq<Area>, i: nat, lo: int, hi: int)
    requires i < |s|
    ensures Cut(s[i..], lo, hi) == CutOne(s[i], lo, hi) + Cut(s[i + 1..], lo, hi)
  {
    assert s[i..][1..] == s[i + 1..];
  }

  lemma CutSplitNode(s: seq<Area>, i: nat, lo: int, hi: int)
    requires Sorted(s) && lo < hi && i < |s| && Splits(s[i], lo, hi)
    ensures s[..i] + Cut(s[i..], lo, hi) == s[..i] + [s[i].(end := lo), s[i].(start := hi)] + s[i + 1..]
  {
    CutHead(s, i, lo, hi);
    CutAboveSorted(s[i + 1..], lo, hi);
  }

  lemma CutTrimNode(s: seq<Area>, i: nat, lo: int, hi: int)
    requires lo < hi && i < |s| && s[i].start < lo < s[i].end <= hi
    requires Sorted(s)
    ensures var t := s[i := s[i].(end := lo)];
      && Sorted(t)
      && s[..i] + Cut(s[i..], lo, hi) == t[..i + 1] + Cut(t[i + 1..], lo, hi)
  {
    var t := s[i := s[i].(end := lo)];
    CutHead(s, i, lo, hi);
    assert t[..i + 1] == s[..i] + [t[i]] && t[i + 1..] == s[i + 1..];
  }

  /** What cutting leaves of the areas from `k` on, when they all start at or above `lo`. */
  lemma CutReached(s: seq<Area>, i: nat, k: nat, lo: int, hi: int)
    requires Sorted(s) && lo < hi && i <= k < |s| && lo <= s[i].start
    ensures Cut(s[k..], lo, hi) ==
      if s[k].start >= hi then s[k..]
      else if s[k].end > hi then [s[k].(start := hi)] + s[k + 1..]
      else if s[k].end == hi then s[k + 1..]
      else Cut(s[k + 1..], lo, hi)
  {
    hide Sorted, Cut, CutOne;
    InOrder(s, i, k);
    CutHead(s, k, lo, hi);
    InWindow(s, i);
    RestSorted(s, k);
    RestSorted(s, k + 1);
    if s[k].start >= hi {
      CutAboveSorted(s[k..], lo, hi);
    } else if s[k].end >= hi {
      InOrder(s, k, k + 1);
      CutAboveSorted(s[k + 1..], lo, hi);
    }
    CutOneFrom(s[k], lo, hi);
  }

  lemma CutOneFrom(x: Area, lo: int, hi: int)
    requires lo <= x.start < x.end
    ensures CutOne(x, lo, hi) == if x.end <= hi then [] else if x.start < hi then [x.(start := hi)] else [x]
  {
  }

  lemma RestSorted(s: seq<Area>, k: nat)
    requires Sorted(s) && k <= |s|
    ensures Sorted(s[k..]) && (k < |s| ==> s[k..][0] == s[k] && s[k].start < s[k].end)
    ensures 0 < k < |s| ==> s[k - 1].end <= s[k].start
  {
  }

  /** Only the first area reaching above `lo` can be split. */
  lemma OnlyFirstSplits(s: seq<Area>, i: nat, lo: int, hi: int)
    requires Sorted(s) && lo < hi && i <= |s| && (i < |s| ==> lo < s[i].end)
    requires forall j :: 0 <= j < i ==> s[j].end <= lo
    ensures SplitsAny(s, lo, hi) <==> i < |s| && Splits(s[i], lo, hi)
  {
    forall j | 0 <= j < |s| && j != i ensures !Splits(s[j], lo, hi) {
      InOrder(s, i, j);
    }
  }

  /** Cutting takes a further node exactly when one area is split. */
  lemma {:induction false} CutCount(s: seq<Area>, lo: int, hi: int)
    requires Sorted(s) && lo < hi
    ensures |Cut(s, lo, hi)| <= |s| + if SplitsAny(s, lo, hi) then 1 else 0
  {
    if s != [] {
      RestSorted(s, 1);
      CutCount(s[1..], lo, hi);
      if SplitsAny(s[1..], lo, hi) {
        var i :| 0 <= i < |s[1..]| && Splits(s[1..][i], lo, hi);
        assert Splits(s[i + 1], lo, hi);
        InOrder(s, 0, i + 1);
      }
      assert Splits(s[0], lo, hi) ==> SplitsAny(s, lo, hi);
    }
  }
}
