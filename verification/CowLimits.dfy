/** How far the u8 reference counts carry: with no bound on the number of address spaces, exactly when
    a write fault still isolates the writer and exactly when an unmapping still spares the sharers. */
module CowLimits {
  import opened CowMemory

  /** The memory after a write fault on `l` and the store that is retried. */
  function FaultAndStore(m: Mem, l: Loc, nf: nat, off: nat, b: int): Mem
    requires l in m.ptes && m.ptes[l].frame in m.pages && m.ptes[l].frame in m.counts
    requires off < |m.pages[m.ptes[l].frame]|
  {
    Poke(CowFault(m, l, nf), l, off, b)
  }

  /** The stored count cannot be told from that of a private frame. */
  ghost predicate Ambiguous(m: Mem, l: Loc)
    requires l in m.ptes
  {
    var n := |Sharers(m.ptes, m.ptes[l].frame)|;
    n > 1 && n % U8 == 1
  }

  lemma AnotherSharer(s: set<Loc>, l: Loc) returns (k: Loc)
    requires l in s && |s| > 1
    ensures k in s && k != l
  {
    assert |s - {l}| == |s| - 1;
    k :| k in s - {l};
  }

  lemma StoredCount(m: Mem, l: Loc)
    requires MemOk(m) && l in m.ptes
    ensures EntryOk(m, l) && FrameOk(m.ptes, m.counts, m.ptes[l].frame) && l in Sharers(m.ptes, m.ptes[l].frame)
    ensures m.counts[m.ptes[l].frame] == 1 <==> Sharers(m.ptes, m.ptes[l].frame) == {l} || Ambiguous(m, l)
  {
    hide EntriesOk, OneHome;
    assert EntryOk(m, l) by { Each(m, l); }
    assert FrameOk(m.ptes, m.counts, m.ptes[l].frame);
    Unshared(m.ptes, l, m.ptes[l].frame);
    OnlyMember(Sharers(m.ptes, m.ptes[l].frame), l);
  }

  lemma Each(m: Mem, l: Loc)
    requires EntriesOk(m) && l in m.ptes
    ensures EntryOk(m, l)
  {
  }

  /** A store through copy-on-write changes one page of one space, exactly unless the frame has 257, 513, …
      sharers: then the writer is given the shared frame itself. */
  lemma WriteIsolatesExactly(m: Mem, l: Loc, nf: nat, off: nat, b: int)
    requires MemOk(m) && l in m.ptes && nf !in m.pages && EntryOk(m, l) && m.ptes[l].frame in m.counts
    requires off < |m.pages[m.ptes[l].frame]| && m.pages[m.ptes[l].frame][off] != b
    ensures l in View(m) && off < |View(m)[l]|
    ensures View(FaultAndStore(m, l, nf, off, b)) == View(m)[l := View(m)[l][off := b]] <==> !Ambiguous(m, l)
  {
    hide MemOk, Ambiguous;
    StoredCount(m, l);
    Framed(m);
    var f := m.ptes[l].frame;
    if m.counts[f] != 1 {
      CopiedStore(m, l, nf, off, b);
    } else if Sharers(m.ptes, f) == {l} {
      PrivateStore(m, l, nf, off, b);
    } else {
      SharedStore(m, l, nf, off, b);
    }
    SharedNotOnly(m, l);
  }

  lemma Framed(m: Mem)
    requires MemOk(m)
    ensures EntriesOk(m)
  {
  }

  lemma SharedNotOnly(m: Mem, l: Loc)
    requires l in m.ptes
    ensures Ambiguous(m, l) ==> Sharers(m.ptes, m.ptes[l].frame) != {l}
  {
  }

  lemma CopiedStore(m: Mem, l: Loc, nf: nat, off: nat, b: int)
    requires EntriesOk(m) && l in m.ptes && nf !in m.pages && EntryOk(m, l) && m.ptes[l].frame in m.counts
    requires off < |m.pages[m.ptes[l].frame]| && m.counts[m.ptes[l].frame] != 1
    ensures View(FaultAndStore(m, l, nf, off, b)) == View(m)[l := View(m)[l][off := b]]
  {
    hide EntriesOk, Sharers;
    var u := CowFault(m, l, nf);
    CowView(m, l, nf);
    Unmapped(m, nf);
    SharersPut(m.ptes, l, Pte(nf, true), nf);
    PokeAlone(u, l, off, b);
  }

  lemma PrivateStore(m: Mem, l: Loc, nf: nat, off: nat, b: int)
    requires EntriesOk(m) && l in m.ptes && nf !in m.pages && EntryOk(m, l) && m.ptes[l].frame in m.counts
    requires off < |m.pages[m.ptes[l].frame]| && m.counts[m.ptes[l].frame] == 1
    requires Sharers(m.ptes, m.ptes[l].frame) == {l}
    ensures View(FaultAndStore(m, l, nf, off, b)) == View(m)[l := View(m)[l][off := b]]
  {
    hide EntriesOk, Sharers;
    CowView(m, l, nf);
    SharersPut(m.ptes, l, Pte(m.ptes[l].frame, true), m.ptes[l].frame);
    PokeAlone(CowFault(m, l, nf), l, off, b);
  }

  lemma SharedStore(m: Mem, l: Loc, nf: nat, off: nat, b: int)
    requires EntriesOk(m) && l in m.ptes && nf !in m.pages && EntryOk(m, l) && m.ptes[l].frame in m.counts
    requires off < |m.pages[m.ptes[l].frame]| && m.counts[m.ptes[l].frame] == 1
    requires m.pages[m.ptes[l].frame][off] != b && Ambiguous(m, l)
    ensures View(FaultAndStore(m, l, nf, off, b)) != View(m)[l := View(m)[l][off := b]]
  {
    var k := AnotherSharer(Sharers(m.ptes, m.ptes[l].frame), l);
    assert View(FaultAndStore(m, l, nf, off, b))[k][off] == b;
    assert View(m)[k][off] != b;
  }

  /** Unmapping a page takes it from nobody else, under exactly the same condition. */
  lemma UnmapSparesExactly(m: Mem, l: Loc)
    requires MemOk(m) && l in m.ptes
    ensures View(DropOne(m, l)) == View(m) - {l} <==> !Ambiguous(m, l)
  {
    hide MemOk, Ambiguous;
    StoredCount(m, l);
    Framed(m);
    SharedNotOnly(m, l);
    var f := m.ptes[l].frame;
    if m.counts[f] == 1 && Sharers(m.ptes, f) != {l} {
      SharedDrop(m, l);
    } else {
      PrivateDrop(m, l);
    }
  }

  lemma SharedDrop(m: Mem, l: Loc)
    requires EntriesOk(m) && l in m.ptes && EntryOk(m, l) && m.ptes[l].frame in m.counts
    requires m.counts[m.ptes[l].frame] == 1 && Ambiguous(m, l)
    ensures View(DropOne(m, l)) != View(m) - {l}
  {
    var k := AnotherSharer(Sharers(m.ptes, m.ptes[l].frame), l);
    assert k !in View(DropOne(m, l));
    assert k in View(m) - {l};
  }

  lemma PrivateDrop(m: Mem, l: Loc)
    requires EntriesOk(m) && l in m.ptes && EntryOk(m, l) && m.ptes[l].frame in m.counts
    requires m.counts[m.ptes[l].frame] == 1 ==> Sharers(m.ptes, m.ptes[l].frame) == {l}
    ensures View(DropOne(m, l)) == View(m) - {l}
  {
    forall k | k in m.ptes && k != l ensures m.ptes[k].frame in m.pages && m.ptes[k].frame in DropOne(m, l).pages {
      assert EntryOk(m, k);
      assert m.counts[m.ptes[l].frame] == 1 ==> k !in Sharers(m.ptes, m.ptes[l].frame);
    }
    DropPages(m, l);
    SurvivingPages(m.ptes, m.pages, DropOne(m, l).pages, l);
  }

  // ---------------------------------------------------------------- the bad state is reachable

  /** One page, shared read-only by `n` spaces. */
  function SharedBy(n: nat, content: Page): Mem {
    Mem(n, TableOf(n), map[0 := content], map[0 := n % U8])
  }

  /** Each cfork of the first space adds one sharer. */
  lemma ForkAddsSharer(n: nat, content: Page)
    requires n > 0
    ensures ShareOne(AddSpace(SharedBy(n, content)), 0, n, 0) == SharedBy(n + 1, content)
  {
    TableGrows(n);
    var m := AddSpace(SharedBy(n, content));
    assert m.counts[0 := (m.counts[0] + 1) % U8] == SharedBy(n + 1, content).counts;
  }

  /** The read-only entries of the first `n` spaces. */
  function TableOf(n: nat): Table {
    map i: nat | i < n :: Loc(i, 0) := Pte(0, false)
  }

  lemma TableGrows(n: nat)
    requires n > 0
    ensures TableOf(n)[Loc(0, 0) := Pte(0, false)][Loc(n, 0) := Pte(0, false)] == TableOf(n + 1)
    ensures Loc(0, 0) in TableOf(n) && TableOf(n)[Loc(0, 0)] == Pte(0, false)
  {
  }

  lemma {:induction false} SharedByOk(n: nat, content: Page)
    requires n > 0
    ensures MemOk(SharedBy(n, content))
  {
    hide MemOk, TableOf;
    if n == 1 {
      AloneOk(content);
    } else {
      SharedByOk(n - 1, content);
      ForkAddsSharer(n - 1, content);
      AddSpaceKeeps(SharedBy(n - 1, content));
      TableEnds(n - 1);
      ShareKeeps(AddSpace(SharedBy(n - 1, content)), 0, n - 1, 0);
    }
  }

  lemma TableEnds(n: nat)
    ensures Loc(n, 0) !in TableOf(n)
  {
  }

  lemma AloneOk(content: Page)
    ensures MemOk(SharedBy(1, content))
  {
    var m := Mem(1, map[], map[], map[]);
    InstallKeeps(m, Loc(0, 0), 0, content, false);
    assert SharedBy(1, content) == Install(m, Loc(0, 0), 0, content, false);
  }

  lemma {:induction false} SharersOf(n: nat)
    ensures |Sharers(TableOf(n), 0)| == n
  {
    if n > 0 {
      SharersOf(n - 1);
      OneMore(n - 1);
    }
  }

  lemma OneMore(n: nat)
    ensures Sharers(TableOf(n + 1), 0) == Sharers(TableOf(n), 0) + {Loc(n, 0)} && Loc(n, 0) !in Sharers(TableOf(n), 0)
  {
  }

  /** 256 forks of one process are enough: every bookkeeping invariant holds, and yet a store in any of the
      257 spaces is seen by the others, and an unmapping in one takes the page from the others. */
  lemma ForksCanBreakIsolation(content: Page, i: nat, nf: nat, off: nat, b: int)
    requires i < U8 + 1 && nf != 0 && off < |content| && content[off] != b
    ensures var m, l := SharedBy(U8 + 1, content), Loc(i, 0);
      && MemOk(m)
      && View(FaultAndStore(m, l, nf, off, b)) != View(m)[l := View(m)[l][off := b]]
      && View(DropOne(m, l)) != View(m) - {l}
  {
    var m, l := SharedBy(U8 + 1, content), Loc(i, 0);
    SharedByOk(U8 + 1, content);
    SharersOf(U8 + 1);
    StoredCount(m, l);
    WriteIsolatesExactly(m, l, nf, off, b);
    UnmapSparesExactly(m, l);
  }
}
