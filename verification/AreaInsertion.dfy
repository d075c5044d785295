/** Adding one range to a canonical list: the node changes of mmap, and where the
    address search may place the range. */
module AreaInsertion {
  import opened Options
  import opened AreaLists

  // ---------------------------------------------------------------- gluing lists

  /** Every area of `p` ends below every area of `q`, and touching ones differ. */
  ghost predicate Before(p: seq<Area>, q: seq<Area>) {
    forall x, y :: x in p && y in q ==> x.end <= y.start && (x.end == y.start ==> x.prot != y.prot)
  }

  lemma CanonicalConcat(p: seq<Area>, q: seq<Area>)
    requires Canonical(p) && Canonical(q) && Before(p, q)
    ensures Canonical(p + q)
  {
    var t := p + q;
    forall i, j | 0 <= i < j < |t|
      ensures t[i].end <= t[j].start && (t[i].end == t[j].start ==> t[i].prot != t[j].prot)
    {
      if i < |p| <= j {
        assert t[i] in p && t[j] in q;
      }
    }
  }

  lemma CanonicalSlice(s: seq<Area>, i: nat, j: nat)
    requires Canonical(s) && i <= j <= |s|
    ensures Canonical(s[i..j])
  {
  }

  // ---------------------------------------------------------------- replacing nodes by one
  /** A prefix maps only addresses below the rest of the list. */
  lemma AtPrefix(s: seq<Area>, i: nat, a: int)
    requires Sorted(s) && i <= |s|
    ensures At(s[..i], a).Some? ==> i > 0 && a < s[i - 1].end && At(s, a) == At(s[..i], a)
  {
    assert s == s[..i] + s[i..];
    AtConcat(s[..i], s[i..], a);
    if At(s[..i], a).Some? {
      var k := AtWitness(s[..i], a);
      assert k < i - 1 ==> s[k].end <= s[i - 1].start;
    }
  }

  /** The list with the areas l..r-1 replaced by the single area `x`. */
  function Replace(s: seq<Area>, l: nat, r: nat, x: Area): seq<Area>
    requires l <= r <= |s|
  {
    s[..l] + [x] + s[r..]
  }

  ghost predicate FitsBetween(s: seq<Area>, l: nat, r: nat, x: Area)
    requires l <= r <= |s|
  {
    && WINDOW_START <= x.start < x.end <= WINDOW_END
    && x.start % PAGE == 0 && x.end % PAGE == 0
    && (l > 0 ==> s[l - 1].end <= x.start && (s[l - 1].end == x.start ==> s[l - 1].prot != x.prot))
    && (r < |s| ==> x.end <= s[r].start && (x.end == s[r].start ==> x.prot != s[r].prot))
  }

  lemma ReplaceCanonical(s: seq<Area>, l: nat, r: nat, x: Area)
    requires Canonical(s) && l <= r <= |s| && FitsBetween(s, l, r, x)
    ensures Canonical(Replace(s, l, r, x))
  {
    hide Before, Sorted, Coalesced, Aligned;
    CanonicalSlice(s, 0, l);
    CanonicalSlice(s, r, |s|);
    assert s[0..l] == s[..l] && s[r..|s|] == s[r..];
    BeforeOne(s, l, x);
    OneCanonical(x);
    CanonicalConcat(s[..l], [x]);
    OneBefore(s, l, r, x);
    CanonicalConcat(s[..l] + [x], s[r..]);
  }

  lemma OneCanonical(x: Area)
    requires WINDOW_START <= x.start < x.end <= WINDOW_END && x.start % PAGE == 0 && x.end % PAGE == 0
    ensures Canonical([x])
  {
  }

  lemma BeforeOne(s: seq<Area>, l: nat, x: Area)
    requires Canonical(s) && l <= |s| && x.start < x.end
    requires l > 0 ==> s[l - 1].end <= x.start && (s[l - 1].end == x.start ==> s[l - 1].prot != x.prot)
    ensures Before(s[..l], [x])
  {
    forall y | y in s[..l] ensures y.end <= x.start && (y.end == x.start ==> y.prot != x.prot) {
      var k :| 0 <= k < l && s[k] == y;
      assert k < l - 1 ==> s[k].end <= s[l - 1].start;
    }
  }

  lemma OneBefore(s: seq<Area>, l: nat, r: nat, x: Area)
    requires Canonical(s) && l <= r <= |s| && FitsBetween(s, l, r, x)
    ensures Before(s[..l] + [x], s[r..])
  {
    hide Canonical;
    forall y, z | y in s[..l] + [x] && z in s[r..]
      ensures y.end <= z.start && (y.end == z.start ==> y.prot != z.prot)
    {
      var k :| r <= k < |s| && s[k] == z;
      if y == x {
        if r < k {
          PairApart(s, r, k);
          NodeGrows(s, r);
        }
      } else {
        var i :| 0 <= i < l && s[i] == y;
        PairApart(s, i, k);
      }
    }
  }

  lemma NodeGrows(s: seq<Area>, r: nat)
    requires Canonical(s) && r < |s|
    ensures s[r].start < s[r].end
  {
  }

  lemma PairApart(s: seq<Area>, i: nat, k: nat)
    requires Canonical(s) && i < k < |s|
    ensures s[i].end <= s[k].start && (s[i].end == s[k].start ==> s[i].prot != s[k].prot)
  {
  }

  /** Replacing nodes that `x` covers changes the meaning only inside `x`. */
  lemma ReplaceAt(s: seq<Area>, l: nat, r: nat, x: Area, a: int)
    requires Sorted(s) && l <= r <= |s|
    requires l > 0 ==> s[l - 1].end <= x.start
    requires r < |s| ==> x.end <= s[r].start
    requires forall k :: l <= k < r ==> x.start <= s[k].start && s[k].end <= x.end
    ensures At(Replace(s, l, r, x), a) == if x.Has(a) then Some(x.prot) else At(s, a)
  {
    AtConcat(s[..l] + [x], s[r..], a);
    AtConcat(s[..l], [x], a);
    AtOne(x, a);
    if x.Has(a) {
      AtPrefix(s, l, a);
    } else {
      AtWithout(s, l, r, x, a);
    }
  }

  /** Outside `x` the nodes it replaces do not matter. */
  lemma AtWithout(s: seq<Area>, l: nat, r: nat, x: Area, a: int)
    requires l <= r <= |s| && !x.Has(a)
    requires forall k :: l <= k < r ==> x.start <= s[k].start && s[k].end <= x.end
    ensures At(s, a) == if At(s[..l], a).Some? then At(s[..l], a) else At(s[r..], a)
  {
    var mid := s[l..r];
    assert s == s[..l] + s[l..] && s[l..] == mid + s[r..];
    AtConcat(s[..l], s[l..], a);
    AtConcat(mid, s[r..], a);
    if At(mid, a).Some? {
      var k := AtWitness(mid, a);
    }
  }

  lemma AtOne(x: Area, a: int)
    ensures At([x], a) == if x.Has(a) then Some(x.prot) else None
  {
    assert [x][1..] == [];
  }

  // ---------------------------------------------------------------- inserting a range

  /** The list `t` maps [lo, hi) with `prot` and is otherwise like `s`. */
  ghost predicate MapsRange(s: seq<Area>, t: seq<Area>, lo: int, hi: int, prot: nat) {
    forall a :: At(t, a) == if lo <= a < hi then Some(prot) else At(s, a)
  }

  /** [lo, hi) is a whole number of pages in the window, unmapped, and lies after exactly `i` areas. */
  ghost predicate GapFor(s: seq<Area>, i: nat, lo: int, hi: int) {
    && i <= |s|
    && WINDOW_START <= lo < hi <= WINDOW_END
    && lo % PAGE == 0 && hi % PAGE == 0
    && (i > 0 ==> s[i - 1].end <= lo)
    && (i < |s| ==> hi <= s[i].start)
  }

  predicate JoinsLeft(s: seq<Area>, i: nat, lo: int, prot: nat) {
    0 < i <= |s| && s[i - 1].end == lo && s[i - 1].prot == prot
  }

  predicate JoinsRight(s: seq<Area>, i: nat, hi: int, prot: nat) {
    i < |s| && s[i].start == hi && s[i].prot == prot
  }

  /** The area that results from adding [lo, hi), merged with equal touching neighbours. */
  function Merged(s: seq<Area>, i: nat, lo: int, hi: int, prot: nat): Area {
    Area(if JoinsLeft(s, i, lo, prot) then s[i - 1].start else lo,
         if JoinsRight(s, i, hi, prot) then s[i].end else hi,
         prot)
  }

  /** The list after adding [lo, hi) behind the first `i` areas. */
  function Insert(s: seq<Area>, i: nat, lo: int, hi: int, prot: nat): seq<Area>
    requires i <= |s|
  {
    Replace(s,
            if JoinsLeft(s, i, lo, prot) then i - 1 else i,
            if JoinsRight(s, i, hi, prot) then i + 1 else i,
            Merged(s, i, lo, hi, prot))
  }

  lemma InsertCount(s: seq<Area>, i: nat, lo: int, hi: int, prot: nat)
    requires i <= |s|
    ensures |Insert(s, i, lo, hi, prot)| ==
      |s| + 1 - (if JoinsLeft(s, i, lo, prot) then 1 else 0) - (if JoinsRight(s, i, hi, prot) then 1 else 0)
  {
  }

  lemma InsertCanonical(s: seq<Area>, i: nat, lo: int, hi: int, prot: nat)
    requires Canonical(s) && GapFor(s, i, lo, hi)
    ensures Canonical(Insert(s, i, lo, hi, prot))
  {
    var l := if JoinsLeft(s, i, lo, prot) then i - 1 else i;
    var r := if JoinsRight(s, i, hi, prot) then i + 1 else i;
    ReplaceCanonical(s, l, r, Merged(s, i, lo, hi, prot));
  }

  /** What the merged area covers beyond [lo, hi) was mapped with `prot` already. */
  lemma MergedMeaning(s: seq<Area>, i: nat, lo: int, hi: int, prot: nat, a: int)
    requires Sorted(s) && GapFor(s, i, lo, hi)
    ensures lo <= a < hi ==> Merged(s, i, lo, hi, prot).Has(a)
    ensures Merged(s, i, lo, hi, prot).Has(a) && !(lo <= a < hi) ==> At(s, a) == Some(prot)
  {
    if JoinsLeft(s, i, lo, prot) && s[i - 1].Has(a) {
      AtMember(s, i - 1, a);
    }
    if JoinsRight(s, i, hi, prot) && s[i].Has(a) {
      AtMember(s, i, a);
    }
  }

  lemma InsertMeaning(s: seq<Area>, i: nat, lo: int, hi: int, prot: nat)
    requires Sorted(s) && GapFor(s, i, lo, hi)
    ensures MapsRange(s, Insert(s, i, lo, hi, prot), lo, hi, prot)
  {
    var l := if JoinsLeft(s, i, lo, prot) then i - 1 else i;
    var r := if JoinsRight(s, i, hi, prot) then i + 1 else i;
    forall a ensures At(Insert(s, i, lo, hi, prot), a) == if lo <= a < hi then Some(prot) else At(s, a) {
      MergedMeaning(s, i, lo, hi, prot, a);
      ReplaceAt(s, l, r, Merged(s, i, lo, hi, prot), a);
    }
  }
}
