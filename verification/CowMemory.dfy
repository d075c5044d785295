/** Page tables that share frames copy-on-write, with u8 reference counts. The leaf entries of all
    tables form one map from (space, page number); frames hold pages. */
module CowMemory {
  /** The bytes of one page. */
  type Page = seq<int>

  /** Page `page` of address space `space`. */
  datatype Loc = Loc(space: nat, page: nat)

  /** A present leaf entry. */
  datatype Pte = Pte(frame: nat, writable: bool)

  type Table = map<Loc, Pte>

  datatype Mem = Mem(spaces: nat, ptes: Table, pages: map<nat, Page>, counts: map<nat, nat>)

  const U8: nat := 256

  // ---------------------------------------------------------------- the invariant

  /** The entries that map frame `f`. */
  ghost function Sharers(t: Table, f: nat): set<Loc> {
    set l | l in t && t[l].frame == f
  }

  /** A present entry belongs to a space and names an allocated frame; a writable one is the only one. */
  ghost predicate EntryOk(m: Mem, l: Loc)
    requires l in m.ptes
  {
    && l.space < m.spaces
    && m.ptes[l].frame in m.pages
    && (m.ptes[l].writable ==> Sharers(m.ptes, m.ptes[l].frame) == {l})
  }

  ghost predicate EntriesOk(m: Mem) {
    forall l :: l in m.ptes ==> EntryOk(m, l)
  }

  /** A stored count is the number of entries, as a u8. */
  ghost predicate Counted(s: set<Loc>, count: nat) {
    s != {} && count == |s| % U8
  }

  ghost predicate FrameOk(t: Table, counts: map<nat, nat>, f: nat) {
    f in counts && Counted(Sharers(t, f), counts[f])
  }

  /** Every allocated frame is mapped and counted. */
  ghost predicate FramesOk(m: Mem) {
    m.counts.Keys == m.pages.Keys && forall f :: f in m.pages ==> FrameOk(m.ptes, m.counts, f)
  }

  /** Frames are mapped at one page number only, whichever space maps them. */
  ghost predicate OneHome(t: Table) {
    forall k, l :: k in t && l in t && t[k].frame == t[l].frame ==> k.page == l.page
  }

  ghost predicate MemOk(m: Mem) {
    EntriesOk(m) && FramesOk(m) && OneHome(m.ptes)
  }

  /** The private memory of every space: what each present page holds. */
  ghost function View(m: Mem): map<Loc, Page> {
    Held(m.ptes, m.pages)
  }

  ghost function Held(t: Table, pages: map<nat, Page>): map<Loc, Page> {
    map l | l in t && t[l].frame in pages :: pages[t[l].frame]
  }

  // ---------------------------------------------------------------- steps of the kernel

  /** cfork on one page: both entries lose the write bit and the frame gains a sharer. */
  function ShareOne(m: Mem, p: nat, c: nat, vp: nat): Mem {
    if Loc(p, vp) !in m.ptes || m.ptes[Loc(p, vp)].frame !in m.counts then m
    else
      var e := Pte(m.ptes[Loc(p, vp)].frame, false);
      Mem(m.spaces,
          m.ptes[Loc(p, vp) := e][Loc(c, vp) := e],
          m.pages,
          m.counts[e.frame := (m.counts[e.frame] + 1) % U8])
  }

  /** A write fault on a present entry: reuse a frame of count 1, copy any other into `nf`. */
  function CowFault(m: Mem, l: Loc, nf: nat): Mem
    requires l in m.ptes && m.ptes[l].frame in m.pages && m.ptes[l].frame in m.counts
  {
    var f := m.ptes[l].frame;
    if m.counts[f] == 1 then m.(ptes := m.ptes[l := Pte(f, true)])
    else
      Mem(m.spaces,
          m.ptes[l := Pte(nf, true)],
          m.pages[nf := m.pages[f]],
          m.counts[f := (m.counts[f] + U8 - 1) % U8][nf := 1])
  }

  /** A fault on an absent page: the new frame `nf` with whatever it held before. */
  function Install(m: Mem, l: Loc, nf: nat, content: Page, writable: bool): Mem {
    Mem(m.spaces, m.ptes[l := Pte(nf, writable)], m.pages[nf := content], m.counts[nf := 1])
  }

  /** pfn_unmap: drop one entry, and free the frame when its count is 1. */
  function DropOne(m: Mem, l: Loc): Mem {
    if l !in m.ptes || m.ptes[l].frame !in m.counts then m
    else
      var f := m.ptes[l].frame;
      if m.counts[f] == 1 then Mem(m.spaces, m.ptes - {l}, m.pages - {f}, m.counts - {f})
      else Mem(m.spaces, m.ptes - {l}, m.pages, m.counts[f := (m.counts[f] + U8 - 1) % U8])
  }

  /** change_permissions on one page: an entry of a shared frame stays read-only. */
  function SetWritable(m: Mem, l: Loc, writable: bool): Mem {
    if l in m.ptes && m.ptes[l].frame in m.counts && m.counts[m.ptes[l].frame] == 1
    then m.(ptes := m.ptes[l := Pte(m.ptes[l].frame, writable)])
    else m
  }

  /** A store that the hardware lets through. */
  function Poke(m: Mem, l: Loc, off: nat, b: int): Mem
    requires l in m.ptes && m.ptes[l].frame in m.pages && off < |m.pages[m.ptes[l].frame]|
  {
    var f := m.ptes[l].frame;
    m.(pages := m.pages[f := m.pages[f][off := b]])
  }

  /** A space with an empty table. */
  function AddSpace(m: Mem): Mem {
    m.(spaces := m.spaces + 1)
  }

  // ---------------------------------------------------------------- who maps a frame

  lemma SharersPut(t: Table, l: Loc, e: Pte, f: nat)
    ensures Sharers(t[l := e], f) == if f == e.frame then Sharers(t, f) + {l} else Sharers(t, f) - {l}
  {
  }

  lemma SharersDrop(t: Table, l: Loc, f: nat)
    ensures Sharers(t - {l}, f) == Sharers(t, f) - {l}
  {
  }

  lemma Unshared(t: Table, l: Loc, f: nat)
    ensures l in Sharers(t, f) <==> l in t && t[l].frame == f
    ensures l in t && t[l].frame == f ==> Sharers(t, f) + {l} == Sharers(t, f)
    ensures !(l in t && t[l].frame == f) ==> Sharers(t, f) - {l} == Sharers(t, f)
  {
  }

  lemma Unmapped(m: Mem, nf: nat)
    requires EntriesOk(m) && nf !in m.pages
    ensures Sharers(m.ptes, nf) == {}
    ensures forall l :: l in m.ptes ==> m.ptes[l].frame != nf
  {
    forall l | l in m.ptes ensures m.ptes[l].frame != nf {
      assert EntryOk(m, l);
    }
  }

  // ---------------------------------------------------------------- counting sharers

  lemma {:induction false} BoundedCount(s: set<Loc>, n: nat)
    requires forall l :: l in s ==> l.space < n
    requires forall k, l :: k in s && l in s ==> k.page == l.page
    ensures |s| <= n
  {
    if s != {} {
      var l :| l in s;
      if n > 0 {
        var top := Loc(n - 1, l.page);
        var rest := s - {top};
        BoundedCount(rest, n - 1);
        assert s <= rest + {top};
      }
    }
  }

  lemma OnlyMember(s: set<Loc>, l: Loc)
    requires l in s
    ensures |s| == 1 <==> s == {l}
  {
    assert s == (s - {l}) + {l};
    if |s| == 1 {
      assert |s - {l}| == 0;
    }
  }

  lemma FewSharers(m: Mem, f: nat)
    requires EntriesOk(m) && OneHome(m.ptes)
    ensures |Sharers(m.ptes, f)| <= m.spaces
  {
    var s := Sharers(m.ptes, f);
    forall k | k in s ensures k.space < m.spaces {
      assert EntryOk(m, k);
    }
    BoundedCount(s, m.spaces);
  }

  /** With at most 256 spaces ever built, a stored count of 1 means a single entry. */
  lemma CountIsOne(m: Mem, l: Loc)
    requires MemOk(m) && m.spaces <= U8 && l in m.ptes
    ensures EntryOk(m, l) && Counted(Sharers(m.ptes, m.ptes[l].frame), m.counts[m.ptes[l].frame])
    ensures m.counts[m.ptes[l].frame] == 1 <==> Sharers(m.ptes, m.ptes[l].frame) == {l}
  {
    assert EntryOk(m, l) && FrameOk(m.ptes, m.counts, m.ptes[l].frame);
    Unshared(m.ptes, l, m.ptes[l].frame);
    FewSharers(m, m.ptes[l].frame);
    OnlyMember(Sharers(m.ptes, m.ptes[l].frame), l);
  }

  lemma CountUp(s: set<Loc>, l: Loc, count: nat)
    requires l !in s && Counted(s, count)
    ensures Counted(s + {l}, (count + 1) % U8)
  {
    assert |s + {l}| == |s| + 1;
  }

  lemma CountDown(s: set<Loc>, l: Loc, count: nat)
    requires l in s && s != {l} && Counted(s, count)
    ensures Counted(s - {l}, (count + U8 - 1) % U8)
  {
    assert |s - {l}| == |s| - 1;
    assert s == (s - {l}) + {l};
  }

  // ---------------------------------------------------------------- sharing one page

  lemma ShareSharers(t: Table, p: Loc, c: Loc, f: nat)
    requires p in t && c !in t
    ensures var e := Pte(t[p].frame, false);
      && Sharers(t[p := e][c := e], f) == Sharers(t, f) + (if f == e.frame then {c} else {})
      && c !in Sharers(t, f)
  {
    var e := Pte(t[p].frame, false);
    SharersPut(t, p, e, f);
    SharersPut(t[p := e], c, e, f);
    Unshared(t, p, f);
    Unshared(t[p := e], c, f);
  }

  lemma ShareEntry(m: Mem, p: nat, c: nat, vp: nat, l: Loc)
    requires MemOk(m) && c < m.spaces && Loc(p, vp) in m.ptes && Loc(c, vp) !in m.ptes
    requires l in ShareOne(m, p, c, vp).ptes
    ensures EntryOk(ShareOne(m, p, c, vp), l)
  {
    assert EntryOk(m, Loc(p, vp));
    assert Loc(p, vp) in Sharers(m.ptes, m.ptes[Loc(p, vp)].frame);
    if l != Loc(p, vp) && l != Loc(c, vp) {
      assert EntryOk(m, l);
      ShareSharers(m.ptes, Loc(p, vp), Loc(c, vp), m.ptes[l].frame);
    }
  }

  lemma ShareFrames(m: Mem, p: nat, c: nat, vp: nat)
    requires MemOk(m) && Loc(p, vp) in m.ptes && Loc(c, vp) !in m.ptes
    ensures FramesOk(ShareOne(m, p, c, vp))
  {
    assert EntryOk(m, Loc(p, vp));
    var f, u := m.ptes[Loc(p, vp)].frame, ShareOne(m, p, c, vp);
    assert FrameOk(m.ptes, m.counts, f);
    ShareSharers(m.ptes, Loc(p, vp), Loc(c, vp), f);
    CountUp(Sharers(m.ptes, f), Loc(c, vp), m.counts[f]);
    assert FrameOk(u.ptes, u.counts, f);
    forall g | g in u.pages && g != f ensures FrameOk(u.ptes, u.counts, g) {
      assert FrameOk(m.ptes, m.counts, g);
      ShareSharers(m.ptes, Loc(p, vp), Loc(c, vp), g);
    }
  }

  lemma ShareHomes(t: Table, p: Loc, c: Loc)
    requires OneHome(t) && p in t && c !in t && p.page == c.page
    ensures var e := Pte(t[p].frame, false); OneHome(t[p := e][c := e])
  {
  }

  lemma ShareKeeps(m: Mem, p: nat, c: nat, vp: nat)
    requires MemOk(m) && c < m.spaces && Loc(c, vp) !in m.ptes
    ensures MemOk(ShareOne(m, p, c, vp))
  {
    if Loc(p, vp) in m.ptes && m.ptes[Loc(p, vp)].frame in m.counts {
      forall l | l in ShareOne(m, p, c, vp).ptes ensures EntryOk(ShareOne(m, p, c, vp), l) {
        ShareEntry(m, p, c, vp, l);
      }
      ShareFrames(m, p, c, vp);
      ShareHomes(m.ptes, Loc(p, vp), Loc(c, vp));
    }
  }

  lemma ShareView(m: Mem, p: nat, c: nat, vp: nat)
    requires MemOk(m)
    ensures View(ShareOne(m, p, c, vp)) ==
      if Loc(p, vp) in View(m) then View(m)[Loc(c, vp) := View(m)[Loc(p, vp)]] else View(m)
  {
    if Loc(p, vp) in m.ptes {
      assert EntryOk(m, Loc(p, vp));
    }
  }

  // ---------------------------------------------------------------- a fault on an absent page

  lemma InstallSharers(m: Mem, l: Loc, nf: nat, writable: bool, g: nat)
    requires EntriesOk(m) && l !in m.ptes && nf !in m.pages
    ensures Sharers(m.ptes[l := Pte(nf, writable)], g) == if g == nf then {l} else Sharers(m.ptes, g)
  {
    Unmapped(m, nf);
    SharersPut(m.ptes, l, Pte(nf, writable), g);
    Unshared(m.ptes, l, g);
  }

  lemma InstallEntry(m: Mem, l: Loc, nf: nat, content: Page, writable: bool, k: Loc)
    requires EntriesOk(m) && l !in m.ptes && l.space < m.spaces && nf !in m.pages
    requires k == l || k in m.ptes
    ensures EntryOk(Install(m, l, nf, content, writable), k)
  {
    if k == l {
      InstallSharers(m, l, nf, writable, nf);
    } else {
      assert EntryOk(m, k);
      InstallSharers(m, l, nf, writable, m.ptes[k].frame);
    }
  }

  lemma InstallFrame(m: Mem, l: Loc, nf: nat, content: Page, writable: bool, g: nat)
    requires MemOk(m) && l !in m.ptes && nf !in m.pages
    requires g == nf || g in m.pages
    ensures FrameOk(m.ptes[l := Pte(nf, writable)], m.counts[nf := 1], g)
  {
    InstallSharers(m, l, nf, writable, g);
    assert g != nf ==> FrameOk(m.ptes, m.counts, g);
  }

  lemma InstallKeeps(m: Mem, l: Loc, nf: nat, content: Page, writable: bool)
    requires MemOk(m) && l !in m.ptes && l.space < m.spaces && nf !in m.pages
    ensures MemOk(Install(m, l, nf, content, writable))
  {
    hide EntryOk, Counted;
    var u := Install(m, l, nf, content, writable);
    forall k | k in u.ptes ensures EntryOk(u, k) {
      InstallEntry(m, l, nf, content, writable, k);
    }
    forall g | g in u.pages ensures FrameOk(u.ptes, u.counts, g) {
      InstallFrame(m, l, nf, content, writable, g);
    }
    Unmapped(m, nf);
  }

  lemma InstallView(m: Mem, l: Loc, nf: nat, content: Page, writable: bool)
    requires EntriesOk(m) && l !in m.ptes && nf !in m.pages
    ensures View(Install(m, l, nf, content, writable)) == View(m)[l := content]
  {
    Unmapped(m, nf);
  }

  // ---------------------------------------------------------------- dropping an entry

  lemma DropSharers(t: Table, l: Loc, g: nat)
    requires l in t
    ensures Sharers(t - {l}, g) == if g == t[l].frame then Sharers(t, g) - {l} else Sharers(t, g)
    ensures l in Sharers(t, t[l].frame)
  {
    SharersDrop(t, l, g);
    Unshared(t, l, g);
  }

  lemma DropEntry(m: Mem, l: Loc, k: Loc)
    requires MemOk(m) && m.spaces <= U8 && l in m.ptes && k in m.ptes && k != l
    ensures EntryOk(m, l) && EntryOk(DropOne(m, l), k)
  {
    CountIsOne(m, l);
    assert EntryOk(m, k);
    Unshared(m.ptes, k, m.ptes[k].frame);
    DropSharers(m.ptes, l, m.ptes[k].frame);
  }

  lemma DropFrames(m: Mem, l: Loc)
    requires MemOk(m) && m.spaces <= U8 && l in m.ptes
    ensures FramesOk(DropOne(m, l))
  {
    var f, u := m.ptes[l].frame, DropOne(m, l);
    CountIsOne(m, l);
    if m.counts[f] != 1 {
      Unshared(m.ptes, l, f);
      CountDown(Sharers(m.ptes, f), l, m.counts[f]);
    }
    forall g | g in u.pages ensures FrameOk(u.ptes, u.counts, g) {
      assert FrameOk(m.ptes, m.counts, g);
      DropSharers(m.ptes, l, g);
    }
  }

  /** Unmapping a page frees its frame exactly when no other entry maps that frame. */
  lemma DropKeeps(m: Mem, l: Loc)
    requires MemOk(m) && m.spaces <= U8
    ensures MemOk(DropOne(m, l))
    ensures l in m.ptes ==> (DropOne(m, l).pages ==
      if Sharers(m.ptes, m.ptes[l].frame) == {l} then m.pages - {m.ptes[l].frame} else m.pages)
  {
    if l in m.ptes {
      CountIsOne(m, l);
      forall k | k in DropOne(m, l).ptes ensures EntryOk(DropOne(m, l), k) {
        DropEntry(m, l, k);
      }
      DropFrames(m, l);
    }
  }

  lemma DropTable(m: Mem, l: Loc)
    requires MemOk(m)
    ensures DropOne(m, l).ptes == m.ptes - {l}
  {
    if l in m.ptes {
      assert EntryOk(m, l);
    }
  }

  lemma DropPages(m: Mem, l: Loc)
    ensures forall f :: f in DropOne(m, l).pages ==> f in m.pages && DropOne(m, l).pages[f] == m.pages[f]
  {
  }

  lemma SurvivingPages(t: Table, before: map<nat, Page>, after: map<nat, Page>, l: Loc)
    requires forall k :: k in t && k != l ==>
      t[k].frame in before && t[k].frame in after && after[t[k].frame] == before[t[k].frame]
    ensures Held(t - {l}, after) == Held(t, before) - {l}
  {
  }

  /** Nobody else loses a page. */
  lemma DropView(m: Mem, l: Loc)
    requires MemOk(m) && m.spaces <= U8
    ensures View(DropOne(m, l)) == View(m) - {l}
  {
    DropTable(m, l);
    DropPages(m, l);
    forall k | k in m.ptes && k != l ensures EntryOk(m, k) && m.ptes[k].frame in DropOne(m, l).pages {
      assert EntryOk(m, k);
      if l in m.ptes {
        DropEntry(m, l, k);
      }
    }
    SurvivingPages(m.ptes, m.pages, DropOne(m, l).pages, l);
  }

  // ---------------------------------------------------------------- a write fault

  /** Copying a shared page is unmapping it and mapping a new frame with the same bytes. */
  lemma CopyIsDropAndInstall(m: Mem, l: Loc, nf: nat)
    requires l in m.ptes && m.ptes[l].frame in m.pages && m.ptes[l].frame in m.counts
    requires m.counts[m.ptes[l].frame] != 1
    ensures CowFault(m, l, nf) == Install(DropOne(m, l), l, nf, m.pages[m.ptes[l].frame], true)
  {
    assert m.ptes[l := Pte(nf, true)] == (m.ptes - {l})[l := Pte(nf, true)];
  }

  /** Rewriting entries without changing their frames, and frames without freeing any, keeps the counts. */
  lemma SameFrames(m: Mem, u: Mem)
    requires FramesOk(m) && OneHome(m.ptes) && u.counts == m.counts && u.pages.Keys == m.pages.Keys
    requires u.ptes.Keys == m.ptes.Keys && forall k :: k in m.ptes ==> u.ptes[k].frame == m.ptes[k].frame
    ensures FramesOk(u) && OneHome(u.ptes)
    ensures forall f :: Sharers(u.ptes, f) == Sharers(m.ptes, f)
  {
    forall f ensures Sharers(u.ptes, f) == Sharers(m.ptes, f) {
    }
    forall f | f in u.pages ensures FrameOk(u.ptes, u.counts, f) {
      assert FrameOk(m.ptes, m.counts, f);
    }
  }

  /** Setting the write bit of the only entry of a frame. */
  lemma SetBitKeeps(m: Mem, l: Loc, writable: bool)
    requires MemOk(m) && l in m.ptes && Sharers(m.ptes, m.ptes[l].frame) == {l}
    ensures MemOk(m.(ptes := m.ptes[l := Pte(m.ptes[l].frame, writable)]))
  {
    var u := m.(ptes := m.ptes[l := Pte(m.ptes[l].frame, writable)]);
    SameFrames(m, u);
    forall k | k in u.ptes ensures EntryOk(u, k) {
      assert EntryOk(m, k);
    }
  }

  /** A write fault keeps every frame's count equal to the number of its entries. */
  lemma CowKeeps(m: Mem, l: Loc, nf: nat)
    requires MemOk(m) && m.spaces <= U8 && l in m.ptes && nf !in m.pages
    ensures EntryOk(m, l) && MemOk(CowFault(m, l, nf))
  {
    CountIsOne(m, l);
    if m.counts[m.ptes[l].frame] == 1 {
      SetBitKeeps(m, l, true);
    } else {
      CopyIsDropAndInstall(m, l, nf);
      DropKeeps(m, l);
      DropTable(m, l);
      InstallKeeps(DropOne(m, l), l, nf, m.pages[m.ptes[l].frame], true);
    }
  }

  /** The fault changes nobody's memory, and afterwards the entry is writable. */
  lemma CowView(m: Mem, l: Loc, nf: nat)
    requires EntriesOk(m) && l in m.ptes && nf !in m.pages && m.ptes[l].frame in m.counts
    ensures EntryOk(m, l)
    ensures View(CowFault(m, l, nf)) == View(m)
    ensures CowFault(m, l, nf).ptes[l].writable
    ensures CowFault(m, l, nf).ptes.Keys == m.ptes.Keys
    ensures forall k :: k in m.ptes && k != l ==> CowFault(m, l, nf).ptes[k] == m.ptes[k]
  {
    assert EntryOk(m, l);
    Unmapped(m, nf);
  }

  // ---------------------------------------------------------------- permissions and stores

  lemma SetKeeps(m: Mem, l: Loc, writable: bool)
    requires MemOk(m) && m.spaces <= U8
    ensures MemOk(SetWritable(m, l, writable))
    ensures l in m.ptes && SetWritable(m, l, writable).ptes[l].writable ==> writable
  {
    if l in m.ptes {
      CountIsOne(m, l);
      if m.counts[m.ptes[l].frame] == 1 {
        SetBitKeeps(m, l, writable);
      }
    }
  }

  lemma SetView(m: Mem, l: Loc, writable: bool)
    ensures View(SetWritable(m, l, writable)) == View(m)
    ensures SetWritable(m, l, writable).ptes.Keys == m.ptes.Keys
    ensures forall k :: k in m.ptes && k != l ==> SetWritable(m, l, writable).ptes[k] == m.ptes[k]
  {
  }

  lemma PokeKeeps(m: Mem, l: Loc, off: nat, b: int)
    requires MemOk(m) && l in m.ptes && m.ptes[l].frame in m.pages && off < |m.pages[m.ptes[l].frame]|
    ensures MemOk(Poke(m, l, off, b))
  {
    var u := Poke(m, l, off, b);
    SameFrames(m, u);
    forall k | k in u.ptes ensures EntryOk(u, k) {
      assert EntryOk(m, k);
    }
  }

  lemma PokeAlone(m: Mem, l: Loc, off: nat, b: int)
    requires l in m.ptes && m.ptes[l].frame in m.pages && off < |m.pages[m.ptes[l].frame]|
    requires Sharers(m.ptes, m.ptes[l].frame) == {l}
    ensures View(Poke(m, l, off, b)) == View(m)[l := View(m)[l][off := b]]
  {
    forall k | k in m.ptes && k != l ensures m.ptes[k].frame != m.ptes[l].frame {
      assert k !in Sharers(m.ptes, m.ptes[l].frame);
    }
  }

  /** A store through a writable entry is seen by its own space only. */
  lemma PokeView(m: Mem, l: Loc, off: nat, b: int)
    requires EntriesOk(m) && l in m.ptes && m.ptes[l].writable
    requires m.ptes[l].frame in m.pages && off < |m.pages[m.ptes[l].frame]|
    ensures View(Poke(m, l, off, b)) == View(m)[l := View(m)[l][off := b]]
  {
    assert EntryOk(m, l);
    PokeAlone(m, l, off, b);
  }

  lemma AddSpaceKeeps(m: Mem)
    requires MemOk(m)
    ensures MemOk(AddSpace(m)) && View(AddSpace(m)) == View(m)
  {
    SameFrames(m, AddSpace(m));
    forall k | k in m.ptes ensures EntryOk(AddSpace(m), k) {
      assert EntryOk(m, k);
    }
  }
}
