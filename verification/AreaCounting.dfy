/** Counting the nodes of a canonical list through its meaning: one node for each address
    where a run of equal protection starts. */
module AreaCounting {
  import opened Options
  import opened AreaLists
  import opened AreaInsertion
  import opened AreaProtection

  /** A run of one protection starts at `a`. */
  ghost predicate IsStart(s: seq<Area>, a: int) {
    At(s, a).Some? && At(s, a - 1) != At(s, a)
  }

  ghost function Starts(s: seq<Area>): set<int> {
    set i | 0 <= i < |s| :: s[i].start
  }

  lemma {:induction false} StartsCount(s: seq<Area>)
    requires Sorted(s)
    ensures |Starts(s)| == |s|
  {
    if s == [] {
      assert Starts(s) == {};
    } else {
      var rest := s[1..];
      StartsCount(rest);
      StartsHead(s);
      assert s[0].start !in Starts(rest);
    }
  }

  lemma StartsHead(s: seq<Area>)
    requires Sorted(s) && s != []
    ensures Starts(s) == {s[0].start} + Starts(s[1..])
    ensures forall i :: 0 <= i < |s[1..]| ==> s[0].start < s[1..][i].start
  {
    var rest := s[1..];
    forall i | 0 <= i < |s| ensures s[i].start in {s[0].start} + Starts(rest) {
      if i > 0 {
        assert rest[i - 1] == s[i];
      }
    }
    forall i | 0 <= i < |rest| ensures rest[i].start in Starts(s) && s[0].start < rest[i].start {
      assert rest[i] == s[i + 1];
      InOrder(s, 0, i + 1);
    }
  }

  /** Node starts are exactly the starts of runs. */
  lemma StartsAreRuns(s: seq<Area>, a: int)
    requires Sorted(s) && Coalesced(s)
    ensures a in Starts(s) <==> IsStart(s, a)
  {
    if a in Starts(s) {
      var i :| 0 <= i < |s| && s[i].start == a;
      NodeIsStart(s, i);
    }
    if IsStart(s, a) {
      var i := AtWitness(s, a);
      if s[i].start < a {
        AtMember(s, i, a - 1);
      }
    }
  }

  lemma NodeIsStart(s: seq<Area>, i: nat)
    requires Sorted(s) && Coalesced(s) && i < |s|
    ensures IsStart(s, s[i].start)
  {
    AtMember(s, i, s[i].start);
    if i > 0 && s[i - 1].end == s[i].start {
      AtMember(s, i - 1, s[i].start - 1);
    } else {
      if i > 0 { InOrder(s, i - 1, i); }
      AtGap(s, i - 1, s[i].start - 1);
    }
  }

  // ---------------------------------------------------------------- how mprotect changes the count

  function Bit(b: bool): int {
    if b then 1 else 0
  }

  /** The nodes that start strictly inside the range. */
  ghost function Inner(s: seq<Area>, lo: int, hi: int): set<int> {
    Between(Starts(s), lo, hi)
  }

  ghost function Outer(s: seq<Area>, lo: int, hi: int): set<int> {
    Outside(Starts(s), lo, hi)
  }

  ghost function Between(all: set<int>, lo: int, hi: int): set<int> {
    set a | a in all && lo < a < hi
  }

  ghost function Outside(all: set<int>, lo: int, hi: int): set<int> {
    set a | a in all && (a < lo || hi < a)
  }

  lemma CountByParts(s: seq<Area>, lo: int, hi: int)
    requires Sorted(s) && lo < hi
    ensures |s| == |Outer(s, lo, hi)| + |Inner(s, lo, hi)| + Bit(lo in Starts(s)) + Bit(hi in Starts(s))
  {
    StartsCount(s);
    PartCount(Starts(s), lo, hi);
  }

  lemma PartCount(all: set<int>, lo: int, hi: int)
    requires lo < hi
    ensures |all| == |Outside(all, lo, hi)| + |Between(all, lo, hi)| + Bit(lo in all) + Bit(hi in all)
  {
    var o, i := Outside(all, lo, hi), Between(all, lo, hi);
    UnionCount(o, i);
    BitCount(o + i, lo, lo in all);
    var l := if lo in all then o + i + {lo} else o + i;
    BitCount(l, hi, hi in all);
    var r := if hi in all then l + {hi} else l;
    PartUnion(all, lo, hi);
  }

  lemma PartUnion(all: set<int>, lo: int, hi: int)
    requires lo < hi
    ensures var l := Outside(all, lo, hi) + Between(all, lo, hi) + if lo in all then {lo} else {};
      all == l + if hi in all then {hi} else {}
  {
  }

  lemma BitCount(s: set<int>, a: int, add: bool)
    requires a !in s
    ensures |if add then s + {a} else s| == |s| + Bit(add)
  {
  }

  lemma UnionCount(a: set<int>, b: set<int>)
    requires a !! b
    ensures |a + b| == |a| + |b|
  {
  }

  /** The change in the number of nodes when [lo, hi) is given protection `prot`, from the meaning alone. */
  ghost function Growth(s: seq<Area>, lo: int, hi: int, prot: nat): int {
    (if At(s, lo - 1) != Some(prot) then 1 else 0) - Bit(IsStart(s, lo))
    + (if At(s, hi).Some? && At(s, hi) != Some(prot) then 1 else 0) - Bit(IsStart(s, hi))
    - |Inner(s, lo, hi)|
  }

  /** The mapped part of [lo, hi) has no hole below a mapped address. */
  ghost predicate NoHole(s: seq<Area>, lo: int, hi: int) {
    At(s, lo).Some? && forall a :: lo < a < hi && At(s, a).Some? ==> At(s, a - 1).Some?
  }

  lemma InnerGone(s: seq<Area>, t: seq<Area>, lo: int, hi: int, prot: nat)
    requires Sorted(t) && Coalesced(t) && Protects(s, t, lo, hi, prot) && NoHole(s, lo, hi)
    ensures Inner(t, lo, hi) == {}
  {
    forall a | lo < a < hi ensures a !in Starts(t) {
      StartsAreRuns(t, a);
      assert At(t, a) == if At(s, a).Some? then Some(prot) else None;
      assert At(t, a - 1) == if At(s, a - 1).Some? then Some(prot) else None;
    }
  }

  lemma OuterSame(s: seq<Area>, t: seq<Area>, lo: int, hi: int, prot: nat)
    requires Sorted(s) && Coalesced(s) && Sorted(t) && Coalesced(t) && lo < hi
    requires Protects(s, t, lo, hi, prot)
    ensures Outer(t, lo, hi) == Outer(s, lo, hi)
  {
    forall a | a < lo || hi < a ensures a in Starts(t) <==> a in Starts(s) {
      StartsAreRuns(t, a);
      StartsAreRuns(s, a);
      assert At(t, a) == At(s, a) && At(t, a - 1) == At(s, a - 1);
    }
  }

  /** mprotect changes the node count by exactly `Growth`, whatever splits and merges it takes. */
  lemma ProtectCount(s: seq<Area>, t: seq<Area>, lo: int, hi: int, prot: nat)
    requires Canonical(s) && Canonical(t) && lo < hi && Protects(s, t, lo, hi, prot) && NoHole(s, lo, hi)
    requires At(s, hi).Some? ==> At(s, hi - 1).Some?
    ensures |t| == |s| + Growth(s, lo, hi, prot)
  {
    CountByParts(s, lo, hi);
    CountByParts(t, lo, hi);
    InnerGone(s, t, lo, hi, prot);
    OuterSame(s, t, lo, hi, prot);
    StartsAreRuns(s, lo);
    StartsAreRuns(s, hi);
    StartsAreRuns(t, lo);
    StartsAreRuns(t, hi);
    assert At(t, lo) == Some(prot) && At(t, lo - 1) == At(s, lo - 1);
    assert At(t, hi) == At(s, hi);
    assert At(t, hi - 1) == if At(s, hi - 1).Some? then Some(prot) else None;
  }

  // ---------------------------------------------------------------- the count in terms of nodes

  /** [lo, hi) starts in area `f`, the last area it meets is `g`. */
  ghost predicate Meets(s: seq<Area>, f: int, g: int, lo: int, hi: int) {
    && 0 <= f <= g < |s|
    && s[f].Has(lo)
    && s[g].start < hi
    && (g + 1 < |s| ==> hi <= s[g].end)
  }

  lemma InnerCount(s: seq<Area>, f: nat, g: nat, lo: int, hi: int)
    requires Sorted(s) && Meets(s, f, g, lo, hi)
    ensures |Inner(s, lo, hi)| == g - f
  {
    StartsCount(s[f + 1..g + 1]);
    forall a ensures a in Inner(s, lo, hi) <==> a in Starts(s[f + 1..g + 1]) {
      InnerIsStart(s, f, g, lo, hi, a);
    }
    assert Inner(s, lo, hi) == Starts(s[f + 1..g + 1]);
  }

  lemma InnerIsStart(s: seq<Area>, f: nat, g: nat, lo: int, hi: int, a: int)
    requires Sorted(s) && Meets(s, f, g, lo, hi)
    ensures a in Inner(s, lo, hi) <==> a in Starts(s[f + 1..g + 1])
  {
    var mid := s[f + 1..g + 1];
    if a in Inner(s, lo, hi) {
      var i := InnerIndex(s, f, g, lo, hi, a);
      assert mid[i - f - 1] == s[i];
    }
    if a in Starts(mid) {
      var j :| 0 <= j < |mid| && mid[j].start == a;
      InOrder(s, f, f + 1 + j);
      InOrder(s, f + 1 + j, g);
      assert s[f + 1 + j].start in Starts(s);
    }
  }

  lemma InnerIndex(s: seq<Area>, f: nat, g: nat, lo: int, hi: int, a: int) returns (i: nat)
    requires Sorted(s) && Meets(s, f, g, lo, hi) && a in Inner(s, lo, hi)
    ensures f < i <= g && s[i].start == a
  {
    i :| 0 <= i < |s| && s[i].start == a;
    InOrder(s, i, f);
    InOrder(s, g, i);
  }

  /** How many nodes appear or vanish at the lower and the upper end of the range. */
  function LowerChange(s: seq<Area>, f: nat, lo: int, prot: nat): int
    requires f < |s|
  {
    if lo == s[f].start then -Bit(JoinsLeft(s, f, lo, prot)) else Bit(s[f].prot != prot)
  }

  function UpperChange(s: seq<Area>, g: nat, hi: int, prot: nat): int
    requires g < |s|
  {
    if hi < s[g].end then Bit(s[g].prot != prot) else -Bit(JoinsRight(s, g + 1, hi, prot))
  }

  lemma LowerEnd(s: seq<Area>, f: nat, lo: int, prot: nat)
    requires Canonical(s) && f < |s| && s[f].Has(lo)
    ensures (if At(s, lo - 1) != Some(prot) then 1 else 0) - Bit(IsStart(s, lo)) == LowerChange(s, f, lo, prot)
  {
    if lo == s[f].start {
      NodeIsStart(s, f);
      if f > 0 && s[f - 1].end == lo {
        AtMember(s, f - 1, lo - 1);
      } else {
        if f > 0 { InOrder(s, f - 1, f); }
        AtGap(s, f - 1, lo - 1);
      }
    } else {
      AtMember(s, f, lo);
      AtMember(s, f, lo - 1);
    }
  }

  lemma UpperEnd(s: seq<Area>, g: nat, hi: int, prot: nat)
    requires Canonical(s) && g < |s| && s[g].start < hi && (g + 1 < |s| ==> hi <= s[g].end)
    ensures (if At(s, hi).Some? && At(s, hi) != Some(prot) then 1 else 0) - Bit(IsStart(s, hi))
            == UpperChange(s, g, hi, prot)
  {
    if hi < s[g].end {
      AtMember(s, g, hi);
      AtMember(s, g, hi - 1);
    } else if g + 1 < |s| && s[g + 1].start == hi {
      NodeIsStart(s, g + 1);
      AtMember(s, g + 1, hi);
    } else {
      if g + 1 < |s| { InOrder(s, g, g + 1); }
      AtGap(s, g, hi);
    }
  }

  /** The change of the node count, read off the nodes that the range meets. */
  lemma GrowthByNodes(s: seq<Area>, f: nat, g: nat, lo: int, hi: int, prot: nat)
    requires Canonical(s) && Meets(s, f, g, lo, hi)
    ensures Growth(s, lo, hi, prot) == LowerChange(s, f, lo, prot) + UpperChange(s, g, hi, prot) - (g - f)
  {
    LowerEnd(s, f, lo, prot);
    UpperEnd(s, g, hi, prot);
    InnerCount(s, f, g, lo, hi);
  }
}
