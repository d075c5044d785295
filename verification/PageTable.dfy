/** The four-level page table in physical frames is a map from virtual pages to leaf entries. */
module PageTable {
  import opened Options

  const ENTRIES: nat := 512
  const VA_LIMIT: nat := 0x1_0000_0000_0000
  const PFN_LIMIT: nat := 0x1_0000_0000

  /** Table frames: 512 entries of 64 bits each. */
  type Frames = map<nat, seq<nat>>

  /** Present and accessible from user mode. */
  predicate UserEntry(e: nat) {
    e % 2 == 1 && e / 4 % 2 == 1
  }

  function Pfn(e: nat): nat {
    e / 4096 % PFN_LIMIT
  }

  function Entry(pfn: nat, flags: nat): nat {
    pfn * 4096 + flags
  }

  /** The indices of an address at the four levels. */
  function PathOf(va: nat): (p: seq<nat>)
    ensures |p| == 4 && IsPath(p)
  {
    [va / 0x80_0000_0000 % ENTRIES, va / 0x4000_0000 % ENTRIES, va / 0x20_0000 % ENTRIES, va / 4096 % ENTRIES]
  }

  predicate IsPath(p: seq<nat>) {
    forall i :: 0 <= i < |p| ==> p[i] < ENTRIES
  }

  /** The table reached from `t` by following `p`. */
  function Reach(frames: Frames, t: nat, p: seq<nat>): Option<nat>
    decreases |p|
  {
    if p == [] then Some(t)
    else
      match Reach(frames, t, p[..|p| - 1])
      case None => None
      case Some(u) =>
        if u in frames && p[|p| - 1] < |frames[u]| && UserEntry(frames[u][p[|p| - 1]])
        then Some(Pfn(frames[u][p[|p| - 1]]))
        else None
  }

  /** The leaf entry of a page, if every entry on its path is a user entry. */
  function Lookup(frames: Frames, root: nat, p: seq<nat>): Option<nat>
    requires p != []
  {
    match Reach(frames, root, p[..|p| - 1])
    case None => None
    case Some(t) =>
      if t in frames && p[|p| - 1] < |frames[t]| && UserEntry(frames[t][p[|p| - 1]])
      then Some(frames[t][p[|p| - 1]])
      else None
  }

  // ---------------------------------------------------------------- the invariant

  ghost predicate FramesOk(frames: Frames, level: map<nat, nat>) {
    && level.Keys == frames.Keys
    && forall t :: t in frames ==> |frames[t]| == ENTRIES && 1 <= level[t] <= 4
  }

  /** Entry `i` of table `t` points to the next table down. */
  ghost predicate Link(frames: Frames, level: map<nat, nat>, t: nat, i: nat) {
    t in frames && t in level && level[t] > 1 && i < |frames[t]| && UserEntry(frames[t][i])
  }

  ghost predicate LinksOk(frames: Frames, level: map<nat, nat>) {
    forall t: nat, i: nat :: Link(frames, level, t, i) ==>
      Pfn(frames[t][i]) in level && level[Pfn(frames[t][i])] == level[t] - 1
  }

  /** No table is pointed to by two entries. */
  ghost predicate NoSharing(frames: Frames, level: map<nat, nat>) {
    forall t: nat, i: nat, u: nat, j: nat :: Link(frames, level, t, i) && Link(frames, level, u, j) && Pfn(frames[t][i]) == Pfn(frames[u][j])
      ==> t == u && i == j
  }

  ghost predicate TreesOk(frames: Frames, level: map<nat, nat>) {
    FramesOk(frames, level) && LinksOk(frames, level) && NoSharing(frames, level)
  }

  // ---------------------------------------------------------------- paths

  /** Following a path goes down one level per step. */
  lemma {:induction false} ReachLevel(frames: Frames, level: map<nat, nat>, t: nat, p: seq<nat>)
    requires FramesOk(frames, level) && LinksOk(frames, level) && t in level && |p| < level[t]
    requires Reach(frames, t, p).Some?
    ensures var u := Reach(frames, t, p).value; u in level && level[u] == level[t] - |p|
  {
    if p != [] {
      ReachLevel(frames, level, t, p[..|p| - 1]);
      var u := Reach(frames, t, p[..|p| - 1]).value;
      assert Link(frames, level, u, p[|p| - 1]);
    }
  }

  /** Without sharing, a table has one path from one root. */
  lemma {:induction false} ReachUnique(frames: Frames, level: map<nat, nat>, r: nat, p: seq<nat>, s: nat, q: seq<nat>)
    requires TreesOk(frames, level) && r in level && s in level && level[r] == level[s] == 4
    requires |p| == |q| < 4
    requires Reach(frames, r, p).Some? && Reach(frames, r, p) == Reach(frames, s, q)
    ensures r == s && p == q
  {
    if p != [] {
      var p', q' := p[..|p| - 1], q[..|q| - 1];
      ReachLevel(frames, level, r, p');
      ReachLevel(frames, level, s, q');
      var t, u := Reach(frames, r, p').value, Reach(frames, s, q').value;
      assert Link(frames, level, t, p[|p| - 1]) && Link(frames, level, u, q[|q| - 1]);
      ReachUnique(frames, level, r, p', s, q');
      assert p == p' + [p[|p| - 1]] && q == q' + [q[|q| - 1]];
    }
  }

  /** Different pages have different paths. */
  lemma PathInjective(va: nat, vb: nat)
    requires va < VA_LIMIT && vb < VA_LIMIT
    ensures PathOf(va) == PathOf(vb) <==> va / 4096 == vb / 4096
  {
    PathDigits(va);
    PathDigits(vb);
  }

  lemma PathDigits(va: nat)
    requires va < VA_LIMIT
    ensures var p := PathOf(va);
      va / 4096 == ((p[0] * ENTRIES + p[1]) * ENTRIES + p[2]) * ENTRIES + p[3]
    ensures var v := va / 4096;
      PathOf(va) == [v / 0x800_0000 % ENTRIES, v / 0x4_0000 % ENTRIES, v / ENTRIES % ENTRIES, v % ENTRIES]
  {
    var v := va / 4096;
    assert va / 0x80_0000_0000 == v / 0x800_0000;
    assert va / 0x4000_0000 == v / 0x4_0000;
    assert va / 0x20_0000 == v / ENTRIES;
    assert v / 0x4_0000 == v / ENTRIES / ENTRIES;
    assert v / 0x800_0000 == v / 0x4_0000 / ENTRIES;
  }

  // ---------------------------------------------------------------- a new table

  /** Entry `i` of table `t` becomes `e`. */
  function SetEntry(frames: Frames, t: nat, i: nat, e: nat): Frames
    requires t in frames && i < |frames[t]|
  {
    var row: seq<nat> := frames[t][i := e];
    frames[t := row]
  }

  /** Hang an empty table `nf` into the empty entry (t, i). */
  function AddTable(frames: Frames, t: nat, i: nat, nf: nat, flags: nat): Frames
    requires t in frames && i < |frames[t]| && nf != t
  {
    var blank: seq<nat> := seq(ENTRIES, k => 0);
    SetEntry(frames[nf := blank], t, i, Entry(nf, flags))
  }

  lemma EntryFields(pfn: nat, flags: nat)
    requires pfn < PFN_LIMIT && (flags == 5 || flags == 7)
    ensures UserEntry(Entry(pfn, flags)) && Pfn(Entry(pfn, flags)) == pfn
  {
    Quotients(pfn, flags);
    Half(2048 * pfn + flags / 2);
    Half(512 * pfn);
  }

  lemma Quotients(pfn: nat, flags: nat)
    requires flags < 8
    ensures Entry(pfn, flags) / 4096 == pfn && Entry(pfn, flags) / 4 == 1024 * pfn + flags / 4
  {
  }

  lemma Half(n: nat)
    ensures (2 * n + 1) % 2 == 1
  {
  }

  ghost predicate CanAdd(frames: Frames, level: map<nat, nat>, t: nat, i: nat, nf: nat, flags: nat) {
    && TreesOk(frames, level)
    && t in frames && i < ENTRIES && level[t] > 1 && !UserEntry(frames[t][i])
    && nf !in frames && nf < PFN_LIMIT && (flags == 5 || flags == 7)
  }

  lemma AddLinks(frames: Frames, level: map<nat, nat>, t: nat, i: nat, nf: nat, flags: nat, u: nat, j: nat)
    requires CanAdd(frames, level, t, i, nf, flags)
    requires Link(AddTable(frames, t, i, nf, flags), level[nf := level[t] - 1], u, j)
    ensures if u == t && i == j then Pfn(AddTable(frames, t, i, nf, flags)[u][j]) == nf
            else Link(frames, level, u, j) && AddTable(frames, t, i, nf, flags)[u][j] == frames[u][j] && u != nf
  {
    EntryFields(nf, flags);
  }

  lemma AddKeepsTrees(frames: Frames, level: map<nat, nat>, t: nat, i: nat, nf: nat, flags: nat)
    requires CanAdd(frames, level, t, i, nf, flags)
    ensures TreesOk(AddTable(frames, t, i, nf, flags), level[nf := level[t] - 1])
  {
    var g, l := AddTable(frames, t, i, nf, flags), level[nf := level[t] - 1];
    forall u: nat, j: nat | Link(g, l, u, j)
      ensures Pfn(g[u][j]) in l && l[Pfn(g[u][j])] == l[u] - 1
      ensures (u == t && j == i) || (Link(frames, level, u, j) && g[u][j] == frames[u][j] && Pfn(g[u][j]) in level)
      ensures u == t && j == i ==> Pfn(g[u][j]) == nf
    {
      AddLinks(frames, level, t, i, nf, flags, u, j);
    }
  }

  /** An empty table changes no look-up, under any root. */
  lemma {:induction false} AddKeepsReach(frames: Frames, level: map<nat, nat>, t: nat, i: nat, nf: nat, flags: nat,
                                         root: nat, p: seq<nat>)
    requires CanAdd(frames, level, t, i, nf, flags) && root in level && |p| < level[root]
    ensures var q := Reach(AddTable(frames, t, i, nf, flags), root, p);
      q == Reach(frames, root, p) || (q == Some(nf) && Reach(frames, root, p) == None)
  {
    if p != [] {
      var p' := p[..|p| - 1];
      AddKeepsReach(frames, level, t, i, nf, flags, root, p');
      EntryFields(nf, flags);
      if Reach(frames, root, p').Some? {
        ReachLevel(frames, level, root, p');
      }
    }
  }

  lemma AddKeepsLookups(frames: Frames, level: map<nat, nat>, t: nat, i: nat, nf: nat, flags: nat, root: nat, p: seq<nat>)
    requires CanAdd(frames, level, t, i, nf, flags) && root in level && 0 < |p| <= level[root] && level[root] == |p|
    ensures Lookup(AddTable(frames, t, i, nf, flags), root, p) == Lookup(frames, root, p)
  {
    var p' := p[..|p| - 1];
    AddKeepsReach(frames, level, t, i, nf, flags, root, p');
    if Reach(frames, root, p').Some? {
      ReachLevel(frames, level, root, p');
    }
  }

  // ---------------------------------------------------------------- a leaf entry

  lemma LeafKeepsTrees(frames: Frames, level: map<nat, nat>, t: nat, i: nat, e: nat)
    requires TreesOk(frames, level) && t in frames && i < ENTRIES && level[t] == 1
    ensures TreesOk(SetEntry(frames, t, i, e), level)
  {
    var g := SetEntry(frames, t, i, e);
    forall u: nat, j: nat | Link(g, level, u, j) ensures Link(frames, level, u, j) && g[u][j] == frames[u][j] {
    }
  }

  lemma {:induction false} LeafKeepsReach(frames: Frames, level: map<nat, nat>, t: nat, i: nat, e: nat, root: nat, p: seq<nat>)
    requires FramesOk(frames, level) && LinksOk(frames, level)
    requires t in frames && i < ENTRIES && level[t] == 1 && root in level && |p| < level[root]
    ensures Reach(SetEntry(frames, t, i, e), root, p) == Reach(frames, root, p)
  {
    if p != [] {
      var p' := p[..|p| - 1];
      LeafKeepsReach(frames, level, t, i, e, root, p');
      if Reach(frames, root, p').Some? {
        ReachLevel(frames, level, root, p');
      }
    }
  }

  /** Sharing or not, writing a leaf entry changes the look-ups whose walk ends at that very entry. */
  lemma LeafChangesSharers(frames: Frames, level: map<nat, nat>, t: nat, i: nat, e: nat, s: nat, q: seq<nat>)
    requires FramesOk(frames, level) && LinksOk(frames, level) && t in frames && i < ENTRIES && level[t] == 1
    requires s in level && level[s] == |q| == 4 && IsPath(q)
    ensures Lookup(SetEntry(frames, t, i, e), s, q) ==
      if Reach(frames, s, q[..3]) == Some(t) && q[3] == i then (if UserEntry(e) then Some(e) else None)
      else Lookup(frames, s, q)
  {
    LeafKeepsReach(frames, level, t, i, e, s, q[..3]);
  }

  /** Without sharing that is exactly one page of exactly one root. */
  lemma LeafChangesOne(frames: Frames, level: map<nat, nat>, r: nat, p: seq<nat>, t: nat, e: nat, s: nat, q: seq<nat>)
    requires TreesOk(frames, level) && r in level && s in level && level[r] == level[s] == 4
    requires |p| == |q| == 4 && IsPath(p) && IsPath(q) && Reach(frames, r, p[..3]) == Some(t)
    ensures t in frames && p[3] < |frames[t]|
    ensures Lookup(SetEntry(frames, t, p[3], e), s, q) ==
      if s == r && q == p then (if UserEntry(e) then Some(e) else None) else Lookup(frames, s, q)
  {
    ReachLevel(frames, level, r, p[..3]);
    LeafChangesSharers(frames, level, t, p[3], e, s, q);
    if Reach(frames, s, q[..3]) == Some(t) {
      ReachUnique(frames, level, r, p[..3], s, q[..3]);
      assert p == p[..3] + [p[3]] && q == q[..3] + [q[3]];
    }
  }

  // ---------------------------------------------------------------- the code

  /** Above the leaf, every entry on the path is empty or a user entry. */
  ghost predicate Clear(frames: Frames, root: nat, p: seq<nat>)
    requires |p| == 4
  {
    forall k, u :: 0 <= k < 3 && Reach(frames, root, p[..k]) == Some(u) && u in frames && p[k] < |frames[u]| ==>
      frames[u][p[k]] == 0 || UserEntry(frames[u][p[k]])
  }

  lemma AddKeepsClear(frames: Frames, level: map<nat, nat>, t: nat, i: nat, nf: nat, flags: nat, root: nat, p: seq<nat>)
    requires CanAdd(frames, level, t, i, nf, flags) && root in level && level[root] == 4
    requires |p| == 4 && Clear(frames, root, p)
    ensures Clear(AddTable(frames, t, i, nf, flags), root, p)
  {
    hide LinksOk, NoSharing, Pfn, UserEntry, Entry;
    var g := AddTable(frames, t, i, nf, flags);
    EntryFields(nf, flags);
    forall k, u | 0 <= k < 3 && Reach(g, root, p[..k]) == Some(u) && u in g && p[k] < |g[u]|
      ensures g[u][p[k]] == 0 || UserEntry(g[u][p[k]])
    {
      AddKeepsReach(frames, level, t, i, nf, flags, root, p[..k]);
      if Reach(frames, root, p[..k]) == Some(u) {
        ReachLevel(frames, level, root, p[..k]);
      }
    }
  }

  lemma ReachOn(frames: Frames, root: nat, p: seq<nat>, k: nat, t: nat)
    requires k < |p| && Reach(frames, root, p[..k]) == Some(t)
    requires t in frames && p[k] < |frames[t]| && UserEntry(frames[t][p[k]])
    ensures Reach(frames, root, p[..k + 1]) == Some(Pfn(frames[t][p[k]]))
  {
    assert p[..k + 1][..k] == p[..k];
  }

  /** Every look-up under every root gives the same result in both heaps of tables. */
  ghost predicate SameLookups(frames: Frames, level: map<nat, nat>, after: Frames, newLevel: map<nat, nat>) {
    forall r, p :: r in level && level[r] == 4 && |p| == 4 ==>
      r in newLevel && newLevel[r] == 4 && Lookup(after, r, p) == Lookup(frames, r, p)
  }

  /** Apart from the page of `va` under `root`, every root maps what it mapped before. */
  ghost predicate OnlyPage(frames: Frames, level: map<nat, nat>, after: Frames, root: nat, va: nat) {
    forall r: nat, vb: nat ::
      r in level && level[r] == 4 && vb < VA_LIMIT && !(r == root && vb / 4096 == va / 4096) ==>
        Lookup(after, r, PathOf(vb)) == Lookup(frames, r, PathOf(vb))
  }

  lemma LookupsChain(f: Frames, l: map<nat, nat>, g: Frames, m: map<nat, nat>, h: Frames, n: map<nat, nat>)
    requires SameLookups(f, l, g, m) && SameLookups(g, m, h, n)
    ensures SameLookups(f, l, h, n)
  {
    forall r, p | r in l && l[r] == 4 && |p| == 4
      ensures r in n && n[r] == 4 && Lookup(h, r, p) == Lookup(f, r, p)
    {
      assert Lookup(g, r, p) == Lookup(f, r, p);
    }
  }

  /** Tables are only added: none goes, moves to another level or changes a look-up. */
  ghost predicate Grows(f: Frames, l: map<nat, nat>, g: Frames, m: map<nat, nat>) {
    && SameLookups(f, l, g, m) && f.Keys <= g.Keys && (Clean(f, l) ==> Clean(g, m))
    && forall r :: r in l ==> r in m && m[r] == l[r]
  }

  lemma GrowsChain(f: Frames, l: map<nat, nat>, g: Frames, m: map<nat, nat>, h: Frames, n: map<nat, nat>)
    requires Grows(f, l, g, m) && Grows(g, m, h, n)
    ensures Grows(f, l, h, n)
  {
    hide SameLookups, Clean;
    LookupsChain(f, l, g, m, h, n);
  }

  lemma ThenOnlyPage(f: Frames, l: map<nat, nat>, g: Frames, m: map<nat, nat>, h: Frames, root: nat, va: nat)
    requires SameLookups(f, l, g, m) && OnlyPage(g, m, h, root, va)
    ensures OnlyPage(f, l, h, root, va)
  {
    hide PathOf, Lookup;
    forall r: nat, vb: nat | r in l && l[r] == 4 && vb < VA_LIMIT && !(r == root && vb / 4096 == va / 4096)
      ensures Lookup(h, r, PathOf(vb)) == Lookup(f, r, PathOf(vb))
    {
      assert Lookup(g, r, PathOf(vb)) == Lookup(f, r, PathOf(vb));
    }
  }

  lemma LeafOnlyPage(frames: Frames, level: map<nat, nat>, root: nat, va: nat, t: nat, e: nat)
    requires TreesOk(frames, level) && root in level && level[root] == 4 && va < VA_LIMIT
    requires Reach(frames, root, PathOf(va)[..3]) == Some(t)
    ensures t in frames && PathOf(va)[3] < |frames[t]|
    ensures TreesOk(SetEntry(frames, t, PathOf(va)[3], e), level)
    ensures Lookup(SetEntry(frames, t, PathOf(va)[3], e), root, PathOf(va)) == if UserEntry(e) then Some(e) else None
    ensures OnlyPage(frames, level, SetEntry(frames, t, PathOf(va)[3], e), root, va)
  {
    hide PathOf, TreesOk, Lookup;
    var p := PathOf(va);
    LeafChangesOne(frames, level, root, p, t, e, root, p);
    LeafLevel(frames, level, root, p, t);
    forall r: nat, vb: nat | r in level && level[r] == 4 && vb < VA_LIMIT && !(r == root && vb / 4096 == va / 4096)
      ensures Lookup(SetEntry(frames, t, p[3], e), r, PathOf(vb)) == Lookup(frames, r, PathOf(vb))
    {
      LeafChangesOne(frames, level, root, p, t, e, r, PathOf(vb));
      PathInjective(va, vb);
    }
    LeafKeepsTrees(frames, level, t, p[3], e);
  }

  lemma LeafLevel(frames: Frames, level: map<nat, nat>, root: nat, p: seq<nat>, t: nat)
    requires TreesOk(frames, level) && root in level && level[root] == |p| == 4 && Reach(frames, root, p[..3]) == Some(t)
    ensures t in level && level[t] == 1
  {
    ReachLevel(frames, level, root, p[..3]);
  }

  /** Three different frames that are not tables yet. */
  predicate Unused(frames: Frames, a: nat, b: nat, c: nat) {
    && a !in frames && b !in frames && c !in frames && a != b && a != c && b != c
    && a < PFN_LIMIT && b < PFN_LIMIT && c < PFN_LIMIT
  }

  lemma AddTableKeys(frames: Frames, t: nat, i: nat, nf: nat, flags: nat)
    ensures t in frames && i < |frames[t]| && nf != t ==> AddTable(frames, t, i, nf, flags).Keys == frames.Keys + {nf}
  {
  }

  lemma NothingAdded(frames: Frames, level: map<nat, nat>)
    ensures Grows(frames, level, frames, level)
  {
  }

  /** A walk that meets an entry that is not a user entry finds nothing. */
  lemma {:induction false} WalkStops(frames: Frames, root: nat, p: seq<nat>, k: nat, t: nat)
    requires k < |p| && Reach(frames, root, p[..k]) == Some(t)
    requires t in frames && p[k] < |frames[t]| && !UserEntry(frames[t][p[k]])
    ensures Lookup(frames, root, p) == None
  {
    NotBeyond(frames, root, p, k, t, |p| - 1);
  }

  lemma {:induction false} NotBeyond(frames: Frames, root: nat, p: seq<nat>, k: nat, t: nat, j: nat)
    requires k <= j < |p| && Reach(frames, root, p[..k]) == Some(t)
    requires t in frames && p[k] < |frames[t]| && !UserEntry(frames[t][p[k]])
    ensures Reach(frames, root, p[..j]) == if j == k then Some(t) else None
  {
    if j > k {
      NotBeyond(frames, root, p, k, t, j - 1);
      assert p[..j][..j - 1] == p[..j - 1];
    }
  }

  lemma RootReached(frames: Frames, root: nat, p: seq<nat>)
    ensures Reach(frames, root, p[..0]) == Some(root)
  {
  }

  lemma WalkEnds(frames: Frames, root: nat, p: seq<nat>, t: nat)
    requires |p| == 4 && Reach(frames, root, p[..3]) == Some(t) && t in frames && p[3] < |frames[t]|
    ensures Lookup(frames, root, p) == if UserEntry(frames[t][p[3]]) then Some(frames[t][p[3]]) else None
  {
  }

  /** On the way down a table has all its entries, and the next one is empty or a user entry. */
  lemma EntryOnWalk(frames: Frames, level: map<nat, nat>, root: nat, p: seq<nat>, k: nat, t: nat)
    requires FramesOk(frames, level) && LinksOk(frames, level) && root in level && level[root] == |p| == 4 && k < 3
    requires IsPath(p) && Reach(frames, root, p[..k]) == Some(t) && Clear(frames, root, p)
    ensures t in frames && t in level && level[t] == 4 - k && p[k] < ENTRIES == |frames[t]|
    ensures var e := frames[t][p[k]];
      if e == 0 then e % 2 == 0 && !UserEntry(e) else e % 2 == 1 && UserEntry(e)
  {
    hide LinksOk, Reach;
    ReachLevel(frames, level, root, p[..k]);
  }

  lemma AddStep(frames: Frames, level: map<nat, nat>, t: nat, i: nat, nf: nat, flags: nat, root: nat, p: seq<nat>, k: nat)
    requires CanAdd(frames, level, t, i, nf, flags) && root in level && level[root] == |p| == 4 && k < 3
    requires Reach(frames, root, p[..k]) == Some(t) && Clear(frames, root, p)
    ensures var g, l := AddTable(frames, t, i, nf, flags), level[nf := level[t] - 1];
      && TreesOk(g, l) && Grows(frames, level, g, l) && Clear(g, root, p)
      && l[root] == 4 && Reach(g, root, p[..k]) == Some(t) && i < |g[t]| && UserEntry(g[t][i])
  {
    hide LinksOk, NoSharing, Lookup, Clear, UserEntry, Pfn, Clean;
    EntryFields(nf, flags);
    if Clean(frames, level) {
      AddKeepsClean(frames, level, t, i, nf, flags);
    }
    var g, l := AddTable(frames, t, i, nf, flags), level[nf := level[t] - 1];
    forall r, q | r in level && level[r] == 4 && |q| == 4
      ensures r in l && l[r] == 4 && Lookup(g, r, q) == Lookup(frames, r, q)
    {
      AddKeepsLookups(frames, level, t, i, nf, flags, r, q);
    }
    AddKeepsReach(frames, level, t, i, nf, flags, root, p[..k]);
    AddKeepsClear(frames, level, t, i, nf, flags, root, p);
    AddKeepsTrees(frames, level, t, i, nf, flags);
  }

  /** Above the leaf, every entry is empty or a user entry. */
  ghost predicate Clean(frames: Frames, level: map<nat, nat>) {
    forall t: nat, i: nat :: t in level && level[t] > 1 && t in frames && i < |frames[t]| ==>
      frames[t][i] == 0 || UserEntry(frames[t][i])
  }

  lemma CleanIsClear(frames: Frames, level: map<nat, nat>, root: nat, p: seq<nat>)
    requires TreesOk(frames, level) && Clean(frames, level) && root in level && level[root] == |p| == 4
    ensures Clear(frames, root, p)
  {
    forall k, u | 0 <= k < 3 && Reach(frames, root, p[..k]) == Some(u) && u in frames && p[k] < |frames[u]|
      ensures frames[u][p[k]] == 0 || UserEntry(frames[u][p[k]])
    {
      ReachLevel(frames, level, root, p[..k]);
    }
  }

  lemma AddKeepsClean(frames: Frames, level: map<nat, nat>, t: nat, i: nat, nf: nat, flags: nat)
    requires CanAdd(frames, level, t, i, nf, flags) && Clean(frames, level)
    ensures Clean(AddTable(frames, t, i, nf, flags), level[nf := level[t] - 1])
  {
    EntryFields(nf, flags);
  }

  lemma LeafKeepsClean(frames: Frames, level: map<nat, nat>, t: nat, i: nat, e: nat)
    requires t in frames && i < |frames[t]| && t in level && level[t] == 1 && Clean(frames, level)
    ensures Clean(SetEntry(frames, t, i, e), level)
  {
  }

  predicate WriteBit(e: nat) {
    e / 2 % 2 == 1
  }

  /** Every entry that points to a table allows writing. */
  ghost predicate TablesWritable(frames: Frames, level: map<nat, nat>) {
    forall t: nat, i: nat :: Link(frames, level, t, i) ==> WriteBit(frames[t][i])
  }

  /** The processor lets a write through when every entry on the walk allows it. */
  ghost predicate MayWrite(frames: Frames, root: nat, p: seq<nat>)
    requires |p| == 4
  {
    && Lookup(frames, root, p).Some? && WriteBit(Lookup(frames, root, p).value)
    && forall k, u :: 0 <= k < 3 && Reach(frames, root, p[..k]) == Some(u) && u in frames && p[k] < |frames[u]| ==>
         WriteBit(frames[u][p[k]])
  }

  /** When no table withholds the permission, the leaf entry decides. */
  lemma LeafDecides(frames: Frames, level: map<nat, nat>, root: nat, p: seq<nat>)
    requires TreesOk(frames, level) && TablesWritable(frames, level) && root in level && level[root] == |p| == 4
    ensures MayWrite(frames, root, p) <==> Lookup(frames, root, p).Some? && WriteBit(Lookup(frames, root, p).value)
  {
    if Lookup(frames, root, p).Some? {
      forall k, u | 0 <= k < 3 && Reach(frames, root, p[..k]) == Some(u) && u in frames && p[k] < |frames[u]|
        ensures WriteBit(frames[u][p[k]])
      {
        ReachLevel(frames, level, root, p[..k]);
        if !UserEntry(frames[u][p[k]]) {
          WalkStops(frames, root, p, k, u);
        }
        assert UserEntry(frames[u][p[k]]) ==> Link(frames, level, u, p[k]);
      }
    }
  }

  /** A new table withholds the permission exactly when it is hung in with the flags of a read access. */
  lemma AddKeepsWritable(frames: Frames, level: map<nat, nat>, t: nat, i: nat, nf: nat, flags: nat)
    requires CanAdd(frames, level, t, i, nf, flags)
    ensures TablesWritable(AddTable(frames, t, i, nf, flags), level[nf := level[t] - 1])
      <==> TablesWritable(frames, level) && flags == 7
  {
    var g, l := AddTable(frames, t, i, nf, flags), level[nf := level[t] - 1];
    EntryFields(nf, flags);
    EntryWrite(nf, flags);
    assert Link(g, l, t, i);
    forall u: nat, j: nat | Link(frames, level, u, j) ensures Link(g, l, u, j) && g[u][j] == frames[u][j] {
    }
    forall u: nat, j: nat | Link(g, l, u, j) && !(u == t && j == i) ensures Link(frames, level, u, j) && g[u][j] == frames[u][j] {
      AddLinks(frames, level, t, i, nf, flags, u, j);
    }
  }

  lemma Halved(n: nat)
    ensures (2 * n + 1) / 2 == n && (2 * n + 1) % 2 == 1
  {
  }

  lemma EntryWrite(pfn: nat, flags: nat)
    requires flags == 5 || flags == 7
    ensures WriteBit(Entry(pfn, flags)) <==> flags == 7
  {
    var n := 1024 * pfn + 1;
    if flags == 7 {
      assert Entry(pfn, flags) == 2 * (2 * n + 1) + 1;
      Halved(2 * n + 1);
      Halved(n);
    } else {
      assert Entry(pfn, flags) == 2 * (2 * n) + 1;
      Halved(2 * n);
    }
  }

  lemma LeafKeepsWritable(frames: Frames, level: map<nat, nat>, t: nat, i: nat, e: nat)
    requires t in frames && i < |frames[t]| && t in level && level[t] == 1
    ensures TablesWritable(SetEntry(frames, t, i, e), level) <==> TablesWritable(frames, level)
    ensures SetEntry(frames, t, i, e).Keys == frames.Keys
  {
    var g := SetEntry(frames, t, i, e);
    forall u: nat, j: nat ensures Link(g, level, u, j) <==> Link(frames, level, u, j) {
    }
  }

  /** An empty root maps nothing and changes no look-up. */
  lemma RootKeeps(frames: Frames, level: map<nat, nat>, nf: nat)
    requires TreesOk(frames, level) && nf !in frames
    ensures var blank: seq<nat> := seq(ENTRIES, k => 0);
      var g, l := frames[nf := blank], level[nf := 4];
      && TreesOk(g, l) && SameLookups(frames, level, g, l) && (Clean(frames, level) ==> Clean(g, l))
      && (TablesWritable(frames, level) ==> TablesWritable(g, l))
      && forall p :: |p| == 4 && IsPath(p) ==> Lookup(g, nf, p) == None
  {
    hide LinksOk, NoSharing, Lookup, Reach;
    var blank: seq<nat> := seq(ENTRIES, k => 0);
    var g, l := frames[nf := blank], level[nf := 4];
    RootKeepsTrees(frames, level, nf);
    forall r, p | r in level && level[r] == 4 && |p| == 4 ensures Lookup(g, r, p) == Lookup(frames, r, p) {
      RootKeepsLookup(frames, level, nf, r, p);
    }
    forall p | |p| == 4 && IsPath(p) ensures Lookup(g, nf, p) == None {
      RootReached(g, nf, p);
      WalkStops(g, nf, p, 0, nf);
    }
  }

  lemma RootKeepsTrees(frames: Frames, level: map<nat, nat>, nf: nat)
    requires TreesOk(frames, level) && nf !in frames
    ensures var blank: seq<nat> := seq(ENTRIES, k => 0);
      var g, l := frames[nf := blank], level[nf := 4];
      && TreesOk(g, l) && (Clean(frames, level) ==> Clean(g, l))
      && (TablesWritable(frames, level) ==> TablesWritable(g, l))
  {
    hide Pfn;
    var blank: seq<nat> := seq(ENTRIES, k => 0);
    var g, l := frames[nf := blank], level[nf := 4];
    forall u: nat, j: nat | Link(g, l, u, j) ensures Link(frames, level, u, j) && g[u][j] == frames[u][j] {
    }
  }

  lemma RootKeepsLookup(frames: Frames, level: map<nat, nat>, nf: nat, r: nat, p: seq<nat>)
    requires FramesOk(frames, level) && LinksOk(frames, level) && nf !in frames && r in level && |p| == level[r] == 4
    ensures Lookup(frames[nf := seq(ENTRIES, k => 0)], r, p) == Lookup(frames, r, p)
  {
    hide LinksOk;
    RootKeepsReach(frames, level, nf, r, p[..3]);
    if Reach(frames, r, p[..3]).Some? {
      ReachLevel(frames, level, r, p[..3]);
    }
  }

  lemma {:induction false} RootKeepsReach(frames: Frames, level: map<nat, nat>, nf: nat, r: nat, p: seq<nat>)
    requires FramesOk(frames, level) && LinksOk(frames, level) && nf !in frames && r in level && |p| < level[r]
    ensures Reach(frames[nf := seq(ENTRIES, k => 0)], r, p) == Reach(frames, r, p)
  {
    if p != [] {
      RootKeepsReach(frames, level, nf, r, p[..|p| - 1]);
      if Reach(frames, r, p[..|p| - 1]).Some? {
        ReachLevel(frames, level, r, p[..|p| - 1]);
      }
    }
  }

  class PageTables {
    var frames: Frames
    ghost var level: map<nat, nat>

    ghost predicate Valid()
      reads this
    {
      TreesOk(frames, level)
    }

    ghost predicate IsRoot(r: nat)
      reads this
    {
      r in level && level[r] == 4
    }

    constructor ()
      ensures Valid() && frames == map[] && level == map[]
    {
      frames, level := map[], map[];
    }

    /** A page directory for a new space. */
    method NewRoot(nf: nat)
      requires Valid() && nf !in frames
      modifies this
      ensures Valid() && IsRoot(nf) && nf !in old(level)
      ensures SameLookups(old(frames), old(level), frames, level)
      ensures forall p :: |p| == 4 && IsPath(p) ==> Lookup(frames, nf, p) == None
      ensures forall r :: r in old(level) ==> r in level && level[r] == old(level)[r]
      ensures Clean(old(frames), old(level)) ==> Clean(frames, level)
      ensures TablesWritable(old(frames), old(level)) ==> TablesWritable(frames, level)
    {
      hide LinksOk, NoSharing, SameLookups, Lookup, Clean, TablesWritable, IsPath;
      RootKeeps(frames, level, nf);
      frames := frames[nf := seq(ENTRIES, k => 0)];
      level := level[nf := 4];
    }

    /** One level of the walk that allocates: follow entry p[k] of the table `t`, or hang `nf` into it. */
    method Descend(ghost root: nat, p: seq<nat>, k: nat, t: nat, nf: nat, flags: nat, byPresentBit: bool)
      returns (child: nat)
      requires Valid() && IsRoot(root) && |p| == 4 && IsPath(p) && k < 3
      requires Reach(frames, root, p[..k]) == Some(t) && Clear(frames, root, p)
      requires nf !in frames && nf < PFN_LIMIT && (flags == 5 || flags == 7)
      modifies this
      ensures Valid() && IsRoot(root) && Reach(frames, root, p[..k + 1]) == Some(child) && Clear(frames, root, p)
      ensures Grows(old(frames), old(level), frames, level)
      ensures frames.Keys <= old(frames.Keys) + {nf}
      ensures TablesWritable(frames, level) <==>
        TablesWritable(old(frames), old(level)) && (flags == 7 || frames.Keys == old(frames).Keys)
    {
      hide FramesOk, LinksOk, NoSharing, Clear, UserEntry, Reach, Grows, AddTable, Pfn, TablesWritable;
      NothingAdded(frames, level);
      EntryOnWalk(frames, level, root, p, k, t);
      AddTableKeys(frames, t, p[k], nf, flags);
      if (if byPresentBit then frames[t][p[k]] % 2 == 0 else frames[t][p[k]] == 0) {
        AddStep(frames, level, t, p[k], nf, flags, root, p, k);
        AddKeepsWritable(frames, level, t, p[k], nf, flags);
        frames := AddTable(frames, t, p[k], nf, flags);
        level := level[nf := level[t] - 1];
      }
      ReachOn(frames, root, p, k, t);
      child := Pfn(frames[t][p[k]]);
    }

    /** The walk shared by map_physical_page and install_page_table: the tables on the way, then the leaf. */
    method MapWith(root: nat, va: nat, e: nat, flags: nat, byPresentBit: bool, nf3: nat, nf2: nat, nf1: nat)
      requires Valid() && IsRoot(root) && va < VA_LIMIT && Clear(frames, root, PathOf(va)) && UserEntry(e)
      requires Unused(frames, nf3, nf2, nf1) && (flags == 5 || flags == 7)
      modifies this
      ensures TablesWritable(frames, level) <==>
        TablesWritable(old(frames), old(level)) && (flags == 7 || frames.Keys == old(frames).Keys)
      ensures old(frames).Keys <= frames.Keys
      ensures Valid() && Lookup(frames, root, PathOf(va)) == Some(e)
      ensures OnlyPage(old(frames), old(level), frames, root, va)
      ensures forall r :: r in old(level) ==> r in level && level[r] == old(level)[r]
      ensures Clean(old(frames), old(level)) ==> Clean(frames, level)
    {
      hide PathOf, TreesOk, Lookup, Reach, Clear, UserEntry, OnlyPage, IsPath, SameLookups, Clean, TablesWritable;
      var p := PathOf(va);
      assert p[..0] == [];
      RootReached(frames, root, p);
      var t3 := Descend(root, p, 0, root, nf3, flags, byPresentBit);
      ghost var f, l := frames, level;
      var t2 := Descend(root, p, 1, t3, nf2, flags, byPresentBit);
      GrowsChain(old(frames), old(level), f, l, frames, level);
      f, l := frames, level;
      var t1 := Descend(root, p, 2, t2, nf1, flags, byPresentBit);
      GrowsChain(old(frames), old(level), f, l, frames, level);
      f := frames;
      SetLeaf(root, va, t1, p[3], e);
      ThenOnlyPage(old(frames), old(level), f, level, frames, root, va);
    }

    /** The store into a leaf entry. */
    method SetLeaf(ghost root: nat, ghost va: nat, t: nat, i: nat, e: nat)
      requires Valid() && IsRoot(root) && va < VA_LIMIT
      requires Reach(frames, root, PathOf(va)[..3]) == Some(t) && i == PathOf(va)[3]
      modifies this`frames
      ensures Valid() && frames.Keys == old(frames).Keys
      ensures Lookup(frames, root, PathOf(va)) == if UserEntry(e) then Some(e) else None
      ensures OnlyPage(old(frames), level, frames, root, va)
      ensures TablesWritable(frames, level) <==> TablesWritable(old(frames), level)
      ensures Clean(old(frames), level) ==> Clean(frames, level)
    {
      hide PathOf, TreesOk, Lookup, Reach, Clean, UserEntry, OnlyPage, IsPath, TablesWritable;
      LeafOnlyPage(frames, level, root, va, t, e);
      LeafLevel(frames, level, root, PathOf(va), t);
      LeafKeepsWritable(frames, level, t, i, e);
      if Clean(frames, level) {
        LeafKeepsClean(frames, level, t, i, e);
      }
      frames := SetEntry(frames, t, i, e);
    }

    /** map_physical_page: map a frame with the segment's write permission. */
    method MapPhysicalPage(root: nat, va: nat, writable: bool, upfn: nat, nf3: nat, nf2: nat, nf1: nat)
      requires Valid() && IsRoot(root) && va < VA_LIMIT && Clear(frames, root, PathOf(va)) && upfn < PFN_LIMIT
      requires Unused(frames, nf3, nf2, nf1)
      modifies this
      ensures Valid() && Lookup(frames, root, PathOf(va)) == Some(Entry(upfn, if writable then 7 else 5))
      ensures TablesWritable(old(frames), old(level)) ==>
        TablesWritable(frames, level) && (MayWrite(frames, root, PathOf(va)) <==> writable)
      ensures OnlyPage(old(frames), old(level), frames, root, va)
      ensures forall r :: r in old(level) ==> r in level && level[r] == old(level)[r]
      ensures Clean(old(frames), old(level)) ==> Clean(frames, level)
    {
      hide PathOf, TreesOk, Lookup, Clear, OnlyPage, Clean, TablesWritable, MayWrite, WriteBit;
      EntryFields(upfn, if writable then 7 else 5);
      MapWith(root, va, Entry(upfn, if writable then 7 else 5), 7, false, nf3, nf2, nf1);
      EntryWrite(upfn, if writable then 7 else 5);
      if TablesWritable(frames, level) {
        LeafDecides(frames, level, root, PathOf(va));
      }
    }

    /** install_page_table: the same walk, but tables and leaf get the write bit of the faulting access. */
    method InstallPageTable(root: nat, va: nat, write: bool, upfn: nat, nf3: nat, nf2: nat, nf1: nat)
      requires Valid() && IsRoot(root) && va < VA_LIMIT && Clear(frames, root, PathOf(va)) && upfn < PFN_LIMIT
      requires Unused(frames, nf3, nf2, nf1)
      modifies this
      ensures Valid() && Lookup(frames, root, PathOf(va)) == Some(Entry(upfn, if write then 7 else 5))
      ensures TablesWritable(old(frames), old(level)) ==>
        (TablesWritable(frames, level) <==> write || frames.Keys == old(frames).Keys)
      ensures OnlyPage(old(frames), old(level), frames, root, va)
      ensures forall r :: r in old(level) ==> r in level && level[r] == old(level)[r]
      ensures Clean(old(frames), old(level)) ==> Clean(frames, level)
    {
      hide PathOf, TreesOk, Lookup, Clear, OnlyPage, Clean, TablesWritable, MayWrite, WriteBit;
      var flags := if write then 7 else 5;
      EntryFields(upfn, flags);
      MapWith(root, va, Entry(upfn, flags), flags, true, nf3, nf2, nf1);
    }

    /** get_user_pte: where the leaf entry of a user page is, if it has one. */
    method GetUserPte(root: nat, va: nat) returns (found: bool, t: nat, i: nat)
      requires Valid() && IsRoot(root) && va < VA_LIMIT
      ensures found <==> Lookup(frames, root, PathOf(va)).Some?
      ensures found ==> Reach(frames, root, PathOf(va)[..3]) == Some(t) && i == PathOf(va)[3]
      ensures found ==> t in frames && i < |frames[t]| && Lookup(frames, root, PathOf(va)) == Some(frames[t][i])
    {
      hide PathOf, LinksOk, NoSharing, Lookup, UserEntry, Reach;
      var p := PathOf(va);
      RootReached(frames, root, p);
      found, t, i := false, root, p[0];
      if !UserEntry(frames[t][i]) {
        WalkStops(frames, root, p, 0, t);
        return;
      }
      ReachOn(frames, root, p, 0, t);
      t, i := Pfn(frames[t][i]), p[1];
      ReachLevel(frames, level, root, p[..1]);
      if !UserEntry(frames[t][i]) {
        WalkStops(frames, root, p, 1, t);
        return;
      }
      ReachOn(frames, root, p, 1, t);
      t, i := Pfn(frames[t][i]), p[2];
      ReachLevel(frames, level, root, p[..2]);
      if !UserEntry(frames[t][i]) {
        WalkStops(frames, root, p, 2, t);
        return;
      }
      ReachOn(frames, root, p, 2, t);
      t, i := Pfn(frames[t][i]), p[3];
      ReachLevel(frames, level, root, p[..3]);
      WalkEnds(frames, root, p, t);
      found := UserEntry(frames[t][i]);
    }

    /** The store of pfn_unmap: clear the leaf entry if there is one. */
    method ClearPage(root: nat, va: nat)
      requires Valid() && IsRoot(root) && va < VA_LIMIT
      modifies this`frames
      ensures Valid() && Lookup(frames, root, PathOf(va)) == None
      ensures OnlyPage(old(frames), level, frames, root, va)
      ensures TablesWritable(frames, level) <==> TablesWritable(old(frames), level)
      ensures Clean(old(frames), level) ==> Clean(frames, level)
    {
      hide PathOf, TreesOk, Clean, TablesWritable, Lookup, Reach;
      var found, t, i := GetUserPte(root, va);
      if found {
        SetLeaf(root, va, t, i, 0);
      }
    }
  }
}
