/** Changing the protection of an address range: the node edits of mprotect and the
    merging pass that follows them. */
module AreaProtection {
  import opened Options
  import opened AreaLists
  import opened AreaInsertion

  /** The list `t` is `s` with every mapped address of [lo, hi) given protection `prot`. */
  ghost predicate Protects(s: seq<Area>, t: seq<Area>, lo: int, hi: int, prot: nat) {
    forall a :: At(t, a) == if lo <= a < hi && At(s, a).Some? then Some(prot) else At(s, a)
  }

  ghost predicate Covered(s: seq<Area>, lo: int, hi: int) {
    forall a :: lo <= a < hi ==> At(s, a).Some?
  }

  /** The range starts inside the last area and runs past its end. */
  predicate RunsOff(s: seq<Area>, lo: int, hi: int) {
    s != [] && s[|s| - 1].Has(lo) && s[|s| - 1].end < hi
  }

  // ---------------------------------------------------------------- splitting and recolouring one node

  function SplitNode(s: seq<Area>, i: nat, c: int): seq<Area>
    requires i < |s|
  {
    s[..i] + [s[i].(end := c), s[i].(start := c)] + s[i + 1..]
  }

  function SetProt(s: seq<Area>, i: nat, prot: nat): seq<Area>
    requires i < |s|
  {
    s[i := s[i].(prot := prot)]
  }

  lemma AtNode(s: seq<Area>, i: nat, m: seq<Area>, a: int)
    requires Sorted(s) && i < |s|
    requires !s[i].Has(a) ==> At(m, a) == None
    requires s[i].Has(a) ==> At(m, a).Some?
    ensures At(s[..i] + m + s[i + 1..], a) == if s[i].Has(a) then At(m, a) else At(s, a)
  {
    AtConcat(s[..i] + m, s[i + 1..], a);
    AtConcat(s[..i], m, a);
    AtOne(s[i], a);
    if s[i].Has(a) {
      AtPrefix(s, i, a);
    } else {
      AtWithout(s, i, i + 1, s[i], a);
    }
  }

  lemma SplitMeaning(s: seq<Area>, i: nat, c: int)
    requires Sorted(s) && i < |s| && s[i].start < c < s[i].end
    ensures SameMeaning(SplitNode(s, i, c), s)
  {
    var m := [s[i].(end := c), s[i].(start := c)];
    forall a ensures At(SplitNode(s, i, c), a) == At(s, a) {
      assert m[1..] == [s[i].(start := c)];
      AtOne(s[i].(start := c), a);
      AtNode(s, i, m, a);
      if s[i].Has(a) {
        AtMember(s, i, a);
      }
    }
  }

  ghost predicate Ordered(s: seq<Area>) {
    Sorted(s) && Aligned(s)
  }

  lemma SplitOrdered(s: seq<Area>, i: nat, c: int)
    requires Ordered(s) && i < |s| && s[i].start < c < s[i].end && c % PAGE == 0
    ensures Ordered(SplitNode(s, i, c))
  {
    var t := SplitNode(s, i, c);
    forall j ensures 0 <= j < |t| ==> WINDOW_START <= t[j].start < t[j].end <= WINDOW_END
                                      && t[j].start % PAGE == 0 && t[j].end % PAGE == 0 {
    }
    forall j, k | 0 <= j < k < |t| ensures t[j].end <= t[k].start {
      InOrder(s, if j <= i then j else j - 1, if k <= i then k else k - 1);
    }
  }

  lemma SetProtMeaning(s: seq<Area>, i: nat, prot: nat)
    requires Sorted(s) && i < |s|
    ensures Protects(s, SetProt(s, i, prot), s[i].start, s[i].end, prot)
  {
    var m := [s[i].(prot := prot)];
    assert SetProt(s, i, prot) == s[..i] + m + s[i + 1..];
    forall a ensures At(SetProt(s, i, prot), a) ==
        if s[i].start <= a < s[i].end && At(s, a).Some? then Some(prot) else At(s, a)
    {
      AtOne(m[0], a);
      AtNode(s, i, m, a);
      if s[i].Has(a) {
        AtMember(s, i, a);
      }
    }
  }

  lemma SetProtOrdered(s: seq<Area>, i: nat, prot: nat)
    requires Ordered(s) && i < |s|
    ensures Ordered(SetProt(s, i, prot))
  {
  }

  /** Protecting two adjoining ranges in turn protects their union. */
  lemma ProtectsJoin(s: seq<Area>, t: seq<Area>, u: seq<Area>, lo: int, mid: int, hi: int, prot: nat)
    requires lo <= mid <= hi && Protects(s, t, lo, mid, prot) && Protects(t, u, mid, hi, prot)
    ensures Protects(s, u, lo, hi, prot)
  {
    forall a ensures At(u, a) == if lo <= a < hi && At(s, a).Some? then Some(prot) else At(s, a) {
      assert At(t, a) == if lo <= a < mid && At(s, a).Some? then Some(prot) else At(s, a);
    }
  }

  /** Nothing is protected beyond the last area, and a range already of the protection stays. */
  lemma ProtectsSame(s: seq<Area>, lo: int, hi: int, prot: nat)
    requires forall a :: lo <= a < hi ==> At(s, a) == None || At(s, a) == Some(prot)
    ensures Protects(s, s, lo, hi, prot)
  {
  }

  lemma NodeAlready(s: seq<Area>, i: nat, lo: int, hi: int)
    requires Sorted(s) && i < |s| && s[i].start <= lo && hi <= s[i].end
    ensures Protects(s, s, lo, hi, s[i].prot)
  {
    forall a | lo <= a < hi ensures At(s, a) == Some(s[i].prot) {
      AtMember(s, i, a);
    }
  }

  lemma ProtectsAfterSame(s: seq<Area>, t: seq<Area>, u: seq<Area>, lo: int, hi: int, prot: nat)
    requires SameMeaning(t, s) && Protects(t, u, lo, hi, prot)
    ensures Protects(s, u, lo, hi, prot)
  {
    forall a ensures At(u, a) == if lo <= a < hi && At(s, a).Some? then Some(prot) else At(s, a) {
      assert At(t, a) == At(s, a);
    }
  }

  lemma BeyondLast(s: seq<Area>, hi: int, prot: nat)
    requires Sorted(s) && s != []
    ensures Protects(s, s, s[|s| - 1].end, hi, prot)
  {
    forall a | s[|s| - 1].end <= a < hi ensures At(s, a) == None {
      AtGap(s, |s| - 1, a);
    }
  }

  // ---------------------------------------------------------------- merging

  /** Joining the touching nodes i and i + 1 of one protection does not change the meaning. */
  lemma JoinMeaning(s: seq<Area>, i: nat)
    requires Sorted(s) && i + 1 < |s| && s[i].end == s[i + 1].start && s[i].prot == s[i + 1].prot
    ensures SameMeaning(Replace(s, i, i + 2, s[i].(end := s[i + 1].end)), s)
  {
    var x := s[i].(end := s[i + 1].end);
    forall a ensures At(Replace(s, i, i + 2, x), a) == At(s, a) {
      InOrder(s, i - 1, i);
      InOrder(s, i + 1, i + 2);
      ReplaceAt(s, i, i + 2, x, a);
      if s[i].Has(a) {
        AtMember(s, i, a);
      } else if s[i + 1].Has(a) {
        AtMember(s, i + 1, a);
      }
    }
  }

  lemma JoinOrdered(s: seq<Area>, i: nat)
    requires Ordered(s) && i + 1 < |s| && s[i].end == s[i + 1].start
    ensures Ordered(Replace(s, i, i + 2, s[i].(end := s[i + 1].end)))
  {
    var t := Replace(s, i, i + 2, s[i].(end := s[i + 1].end));
    forall j, k | 0 <= j < k < |t| ensures t[j].end <= t[k].start {
      JoinedPair(s, i, j, k);
    }
  }

  lemma JoinedPair(s: seq<Area>, i: nat, j: nat, k: nat)
    requires Sorted(s) && i + 1 < |s| && j < k < |s| - 1
    ensures var t := Replace(s, i, i + 2, s[i].(end := s[i + 1].end)); |t| == |s| - 1 && t[j].end <= t[k].start
  {
    InOrder(s, if j < i then j else j + 1, if k <= i then k else k + 1);
  }

  lemma SameMeaningTrans(s: seq<Area>, t: seq<Area>, u: seq<Area>)
    requires SameMeaning(u, t) && SameMeaning(t, s)
    ensures SameMeaning(u, s)
  {
    forall a ensures At(u, a) == At(s, a) {
      assert At(t, a) == At(s, a);
    }
  }
}
