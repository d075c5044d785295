/** Lists of virtual-memory areas and their meaning: a partial map from addresses
    to protections. */
module AreaLists {
  import opened Options

  /** A mapped range [start, end) with one protection; `prot` is the u32 access_flags. */
  datatype Area = Area(start: int, end: int, prot: nat) {
    predicate Has(a: int) { start <= a < end }
  }

  const WINDOW_START: int := 0x180200000
  const WINDOW_END: int := 0x7FE000000
  const MAX_AREAS: nat := 128
  const PAGE: int := 4096

  /** The meaning of a list: the protection of address `a`, if it is mapped. */
  function At(s: seq<Area>, a: int): Option<nat> {
    if s == [] then None
    else if s[0].Has(a) then Some(s[0].prot)
    else At(s[1..], a)
  }

  ghost predicate Sorted(s: seq<Area>) {
    && (forall i :: 0 <= i < |s| ==> WINDOW_START <= s[i].start < s[i].end <= WINDOW_END)
    && (forall i, j :: 0 <= i < j < |s| ==> s[i].end <= s[j].start)
  }

  /** No two touching areas share a protection. */
  ghost predicate Coalesced(s: seq<Area>) {
    forall i, j :: 0 <= i < j < |s| && s[i].end == s[j].start ==> s[i].prot != s[j].prot
  }

  ghost predicate Aligned(s: seq<Area>) {
    forall i :: 0 <= i < |s| ==> s[i].start % PAGE == 0 && s[i].end % PAGE == 0
  }

  /** The representation invariant every system call keeps. */
  ghost predicate Canonical(s: seq<Area>) {
    Sorted(s) && Coalesced(s) && Aligned(s)
  }

  // ---------------------------------------------------------------- basic facts about At

  lemma InOrder(s: seq<Area>, i: int, j: int)
    requires Sorted(s)
    ensures 0 <= i < j < |s| ==> s[i].end <= s[j].start
  {
  }

  lemma InWindow(s: seq<Area>, i: int)
    requires Sorted(s)
    ensures 0 <= i < |s| ==> WINDOW_START <= s[i].start < s[i].end <= WINDOW_END
  {
  }

  lemma {:induction false} AtConcat(p: seq<Area>, q: seq<Area>, a: int)
    ensures At(p + q, a) == if At(p, a).Some? then At(p, a) else At(q, a)
  {
    if p == [] {
      assert p + q == q;
    } else {
      assert (p + q)[1..] == p[1..] + q;
      AtConcat(p[1..], q, a);
    }
  }

  lemma {:induction false} AtMember(s: seq<Area>, i: nat, a: int)
    requires Sorted(s) && i < |s| && s[i].Has(a)
    ensures At(s, a) == Some(s[i].prot)
  {
    if i > 0 {
      assert s[0].end <= s[i].start;
      AtMember(s[1..], i - 1, a);
    }
  }

  lemma {:induction false} AtWitness(s: seq<Area>, a: int) returns (i: nat)
    requires At(s, a).Some?
    ensures i < |s| && s[i].Has(a) && At(s, a) == Some(s[i].prot)
  {
    if s[0].Has(a) {
      i := 0;
    } else {
      var j := AtWitness(s[1..], a);
      i := j + 1;
    }
  }

  /** An address lying between two neighbours (or outside the list) is not mapped. */
  lemma {:induction false} AtGap(s: seq<Area>, k: int, a: int)
    requires Sorted(s) && -1 <= k < |s|
    requires k == -1 || s[k].end <= a
    requires k == |s| - 1 || a < s[k + 1].start
    ensures At(s, a) == None
  {
    if s != [] {
      assert k > 0 ==> s[0].end <= s[k].start;
      AtGap(s[1..], if k == -1 then -1 else k - 1, a);
    }
  }

  /** Every address is in an area or in one of the gaps. */
  lemma {:induction false} Locate(s: seq<Area>, a: int) returns (k: int)
    requires Sorted(s)
    ensures -1 <= k < |s|
    ensures k >= 0 ==> s[k].start <= a
    ensures k < |s| - 1 ==> a < s[k + 1].start
  {
    if s == [] || a < s[0].start {
      k := -1;
    } else {
      var j := Locate(s[1..], a);
      k := j + 1;
      assert j >= 0 ==> s[1..][j] == s[k];
      assert j < |s[1..]| - 1 ==> s[1..][j + 1] == s[k + 1];
    }
  }

  // ---------------------------------------------------------------- canonical form

  ghost predicate SameMeaning(s: seq<Area>, t: seq<Area>) {
    forall a :: At(s, a) == At(t, a)
  }

  /** Two lists with one meaning that are sorted and coalesced have equal first areas. */
  lemma HeadsAgree(s: seq<Area>, t: seq<Area>)
    requires Sorted(s) && Coalesced(s) && Sorted(t) && Coalesced(t) && SameMeaning(s, t)
    requires s != [] && t != []
    ensures s[0] == t[0]
  {
    HeadNotEarlier(s, t);
    HeadNotEarlier(t, s);
    AtMember(s, 0, s[0].start);
    AtMember(t, 0, t[0].start);
    HeadNotShorter(s, t);
    HeadNotShorter(t, s);
  }

  lemma HeadNotEarlier(s: seq<Area>, t: seq<Area>)
    requires Sorted(s) && Sorted(t) && SameMeaning(s, t)
    requires s != [] && t != []
    ensures t[0].start <= s[0].start
  {
    var a := s[0].start;
    AtMember(s, 0, a);
    var i := AtWitness(t, a);
    assert i > 0 ==> t[0].end <= t[i].start;
  }

  lemma HeadNotShorter(s: seq<Area>, t: seq<Area>)
    requires Sorted(s) && Coalesced(s) && Sorted(t) && SameMeaning(s, t)
    requires s != [] && t != [] && s[0].start == t[0].start && s[0].prot == t[0].prot
    ensures t[0].end <= s[0].end
  {
    var a := s[0].end;
    assert At(s, a) == At(t, a);
    if a < t[0].end {
      AfterHead(s);
    }
  }

  /** In a coalesced list the address just after the first area is unmapped or differs. */
  lemma AfterHead(s: seq<Area>)
    requires Sorted(s) && Coalesced(s) && s != []
    ensures At(s, s[0].end) != Some(s[0].prot)
  {
    if |s| > 1 && s[1].start == s[0].end {
      AtMember(s, 1, s[0].end);
    } else {
      AtGap(s, 0, s[0].end);
    }
  }

  /** Coalesced lists are canonical: one meaning has one list, node for node. */
  lemma {:induction false} CanonicalUnique(s: seq<Area>, t: seq<Area>)
    requires Sorted(s) && Coalesced(s) && Sorted(t) && Coalesced(t)
    requires SameMeaning(s, t)
    ensures s == t
  {
    if s != [] { NotEmpty(s, t); }
    if t != [] { NotEmpty(t, s); }
    if s != [] {
      HeadsAgree(s, t);
      TailsAgree(s, t);
      TailOrdered(s);
      TailOrdered(t);
      CanonicalUnique(s[1..], t[1..]);
      assert s == [s[0]] + s[1..] && t == [t[0]] + t[1..];
    }
  }

  lemma TailOrdered(s: seq<Area>)
    requires Sorted(s) && Coalesced(s) && s != []
    ensures Sorted(s[1..]) && Coalesced(s[1..])
  {
  }

  lemma NotEmpty(s: seq<Area>, t: seq<Area>)
    requires Sorted(s) && SameMeaning(s, t) && s != []
    ensures t != []
  {
    AtMember(s, 0, s[0].start);
    assert At(t, s[0].start).Some?;
  }

  lemma TailsAgree(s: seq<Area>, t: seq<Area>)
    requires Sorted(s) && Sorted(t) && SameMeaning(s, t)
    requires s != [] && t != [] && s[0] == t[0]
    ensures SameMeaning(s[1..], t[1..])
  {
    forall a ensures At(s[1..], a) == At(t[1..], a) {
      if s[0].Has(a) {
        AtGap(s[1..], -1, a);
        AtGap(t[1..], -1, a);
      } else {
        assert At(s, a) == At(t, a);
      }
    }
  }
}
