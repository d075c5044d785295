/** The reference semantics of the address spaces: every space owns its memory outright, cfork copies
    all of it at once, and an access is permitted by the areas and the data segment alone. */
module EagerCopies {
  import opened Options
  import opened AreaLists
  import opened AreaRemoval
  import opened AreaProtection
  import opened AddressSpaces
  import opened MProtect
  import opened VmLaws
  import opened CowMemory

  const DATA_START: int := 0x180000000

  /** PROT_WRITE is bit 1 of the flags. */
  predicate CanWrite(prot: nat) {
    prot / 2 % 2 == 1
  }

  /** May a space with areas `s` and data segment [DATA_START, brk) touch `addr`? */
  predicate Allowed(s: seq<Area>, brk: int, addr: int, write: bool) {
    || DATA_START <= addr < brk
    || (At(s, addr).Some? && (write ==> CanWrite(At(s, addr).value)))
  }

  function PageOf(addr: nat): nat {
    addr / PAGE
  }

  function LocOf(p: nat, addr: nat): Loc {
    Loc(p, PageOf(addr))
  }

  /** All spaces: their areas, the ends of their data segments, their private pages, and the pages that mprotect
      has made read-only but that can still be written. */
  datatype World = World(areas: seq<seq<Area>>, brks: seq<int>, memory: map<Loc, Page>, stale: set<Loc>)

  /** A system call or an access by space `p`; `junk` is what a newly allocated frame holds. */
  datatype Command =
    | Load(p: nat, addr: nat, junk: Page)
    | Store(p: nat, addr: nat, byte: int, junk: Page)
    | Fork(p: nat)
    | Map(p: nat, addr: nat, length: int, prot: nat, fixed: bool)
    | Unmap(p: nat, addr: nat, length: int)
    | Protect(p: nat, addr: nat, length: int, prot: nat)
    | Expand(p: nat, pages: nat)

  datatype Answer = Value(byte: int) | Done | Code(ret: int) | Fault

  function Look(memory: map<Loc, Page>, l: Loc): Option<Page> {
    if l in memory then Some(memory[l]) else None
  }

  /** What a first access makes of the memory. */
  function Touch(memory: map<Loc, Page>, l: Loc, junk: Page): map<Loc, Page> {
    if l in memory then memory else memory[l := junk]
  }

  /** Space `c` receives a copy of every page of space `p`. */
  ghost predicate Copied(before: map<Loc, Page>, after: map<Loc, Page>, p: nat, c: nat) {
    forall l :: Look(after, l) == Look(before, if l.space == c then Loc(p, l.page) else l)
  }

  /** Space `p` loses its pages in [lo, hi). */
  ghost predicate Removed(before: map<Loc, Page>, after: map<Loc, Page>, p: nat, lo: nat, hi: nat) {
    forall l :: Look(after, l) == if l.space == p && lo <= l.page < hi then None else Look(before, l)
  }

  /** Space `p` owns the page `l`, and the page lies in [lo, hi). */
  predicate InRange(l: Loc, p: nat, lo: int, hi: int) {
    l.space == p && lo <= l.page * PAGE < hi
  }

  /** mprotect can leave stale pages of its own range only: resident ones behind the first, and only when it
      takes the write permission away. */
  ghost predicate StaleAfter(w: World, v: World, p: nat, lo: int, hi: int, prot: nat) {
    forall l ::
      if InRange(l, p, lo, hi)
      then l in v.stale ==> !CanWrite(prot) && l in w.memory && l.page * PAGE != lo
      else l in v.stale <==> l in w.stale
  }

  ghost predicate Complete(memory: map<Loc, Page>) {
    forall l :: l in memory ==> |memory[l]| == PAGE
  }

  /** The data segment ends on a page boundary below the window. */
  predicate BreakOk(brk: int) {
    DATA_START <= brk <= WINDOW_START && brk % PAGE == 0
  }

  ghost predicate WorldOk(w: World) {
    && |w.areas| == |w.brks|
    && (forall i :: 0 <= i < |w.areas| ==> Canonical(w.areas[i]) && BreakOk(w.brks[i]))
    && Complete(w.memory)
    && w.stale <= w.memory.Keys
  }

  const MAX_EXPAND: nat := 1024

  /** What the source asks of a caller. */
  predicate WellFormed(c: Command, spaces: nat) {
    c.p < spaces && match c
    case Load(_, addr, junk) => DATA_START <= addr <= WINDOW_END && |junk| == PAGE
    case Store(_, addr, _, junk) => DATA_START <= addr <= WINDOW_END && |junk| == PAGE
    case Fork(_) => spaces < U8
    case Map(_, addr, length, _, _) => 0 < length <= 0x7ffff000 && addr % PAGE == 0
    case Unmap(_, addr, length) => 0 < length <= 0x7ffff000 && addr % PAGE == 0
    case Protect(_, addr, length, _) => 0 <= length <= 0x7ffff000 && addr % PAGE == 0
    case Expand(_, _) => true
  }

  /** Only an mprotect that takes the write permission from more than one page can leave a stale page. */
  predicate Harmless(c: Command) {
    c.Protect? ==> CanWrite(c.prot) || c.length <= PAGE
  }

  ghost predicate OnlyAreas(w: World, v: World, p: nat) {
    && |v.areas| == |w.areas| && p < |w.areas| && v.brks == w.brks
    && (forall i :: 0 <= i < |w.areas| && i != p ==> v.areas[i] == w.areas[i])
  }

  /** munmap refuses a range outside the window, and one that would split a node of a full list. */
  ghost predicate UnmapFails(s: seq<Area>, addr: int, length: nat) {
    || !(addr == 0 || (WINDOW_START <= addr && addr + length <= WINDOW_END))
    || (|s| == MAX_AREAS && SplitsAny(s, addr, addr + RoundUp(length)))
  }

  /** One command under eager copying. */
  ghost predicate Eager(w: World, c: Command, ans: Answer, v: World)
    requires WellFormed(c, |w.areas|) && WorldOk(w)
  {
    var s := w.areas[c.p];
    match c
    case Load(p, addr, junk) =>
      if Allowed(s, w.brks[p], addr, false) then
        var memory := Touch(w.memory, LocOf(p, addr), junk);
        v == w.(memory := memory) && ans == Value(memory[LocOf(p, addr)][addr % PAGE])
      else v == w && ans == Fault
    case Store(p, addr, byte, junk) =>
      if Allowed(s, w.brks[p], addr, true) || LocOf(p, addr) in w.stale then
        var memory := Touch(w.memory, LocOf(p, addr), junk);
        && v == w.(memory := memory[LocOf(p, addr) := memory[LocOf(p, addr)][addr % PAGE := byte]])
        && ans == Done
      else v == w && ans == Fault
    case Fork(p) =>
      && v.areas == w.areas + [s] && v.brks == w.brks + [w.brks[p]]
      && Copied(w.memory, v.memory, p, |w.areas|)
      && (forall l :: l in v.stale <==> l in w.stale && l.space != p)
      && ans == Code(|w.areas|)
    case Map(p, addr, length, prot, fixed) =>
      && OnlyAreas(w, v, p) && v.memory == w.memory && v.stale == w.stale && ans.Code?
      && (if AcceptsHint(addr, length, fixed)
          then MapResult(s, v.areas[p], addr, RoundUp(length), prot, fixed, ans.ret)
               && (|s| <= MAX_AREAS ==> |v.areas[p]| <= MAX_AREAS)
          else ans.ret == -1 && v == w)
    case Unmap(p, addr, length) =>
      if UnmapFails(s, addr, length) then v == w && ans == Code(-1)
      else
        && OnlyAreas(w, v, p) && v.areas[p] == Cut(s, addr, addr + RoundUp(length))
        && Removed(w.memory, v.memory, p, PageOf(addr), PageOf(addr + RoundUp(length)))
        && (forall l :: l in v.stale <==> l in w.stale && !InRange(l, p, addr, addr + RoundUp(length)))
        && ans == Code(0)
    case Protect(p, addr, length, prot) =>
      && OnlyAreas(w, v, p) && v.memory == w.memory && ans.Code?
      && ProtectOutcome(s, v.areas[p], addr, length, prot, ans.ret)
      && (if ans.ret == 0 then StaleAfter(w, v, p, addr, addr + RoundUp(length), prot) else v.stale == w.stale)
    case Expand(p, pages) =>
      if pages > MAX_EXPAND || w.brks[p] + pages * PAGE > WINDOW_START - 1 then v == w && ans == Code(0)
      else v == w.(brks := w.brks[p := w.brks[p] + pages * PAGE]) && ans == Code(w.brks[p])
  }

  // ---------------------------------------------------------------- steps that change areas or spaces

  lemma EagerUnmap(w: World, v: World, p: nat, addr: nat, length: nat)
    requires WorldOk(w) && WellFormed(Unmap(p, addr, length), |w.areas|) && !UnmapFails(w.areas[p], addr, length)
    requires v.areas == w.areas[p := Cut(w.areas[p], addr, addr + RoundUp(length))] && v.brks == w.brks
    requires Removed(w.memory, v.memory, p, PageOf(addr), PageOf(addr + RoundUp(length)))
    requires forall l :: l in v.stale <==> l in w.stale && !InRange(l, p, addr, addr + RoundUp(length))
    ensures Eager(w, Unmap(p, addr, length), Code(0), v)
  {
  }

  lemma EagerUnmapRefused(w: World, p: nat, addr: nat, length: nat)
    requires WorldOk(w) && WellFormed(Unmap(p, addr, length), |w.areas|) && UnmapFails(w.areas[p], addr, length)
    ensures Eager(w, Unmap(p, addr, length), Code(-1), w)
  {
  }

  lemma EagerProtect(w: World, v: World, p: nat, addr: nat, length: nat, prot: nat, t: seq<Area>, ret: int)
    requires WorldOk(w) && WellFormed(Protect(p, addr, length, prot), |w.areas|)
    requires v.areas == w.areas[p := t] && v.brks == w.brks && v.memory == w.memory
    requires ProtectOutcome(w.areas[p], t, addr, length, prot, ret)
    requires if ret == 0 then StaleAfter(w, v, p, addr, addr + RoundUp(length), prot) else v.stale == w.stale
    ensures Eager(w, Protect(p, addr, length, prot), Code(ret), v)
  {
  }

  lemma EagerFork(w: World, v: World, p: nat)
    requires WorldOk(w) && WellFormed(Fork(p), |w.areas|)
    requires v.areas == w.areas + [w.areas[p]] && v.brks == w.brks + [w.brks[p]]
    requires Copied(w.memory, v.memory, p, |w.areas|)
    requires forall l :: l in v.stale <==> l in w.stale && l.space != p
    ensures Eager(w, Fork(p), Code(|w.areas|), v)
  {
  }

  /** A list of commands issued when `spaces` tables have been built, of which there are never more than 256. */
  predicate WellFormedRun(commands: seq<Command>, spaces: nat) {
    commands == [] || (
      && WellFormed(commands[0], spaces)
      && WellFormedRun(commands[1..], if commands[0].Fork? then spaces + 1 else spaces))
  }

  /** A run under eager copying: `trace` holds the world before the first command and after each. */
  ghost predicate EagerRun(commands: seq<Command>, answers: seq<Answer>, trace: seq<World>) {
    && |answers| == |commands| && |trace| == |commands| + 1
    && forall i :: 0 <= i < |commands| ==>
      && WorldOk(trace[i]) && WellFormed(commands[i], |trace[i].areas|)
      && Eager(trace[i], commands[i], answers[i], trace[i + 1])
  }

  lemma EmptyRun(w: World)
    ensures EagerRun([], [], [w])
  {
  }

  lemma RestWellFormed(commands: seq<Command>, i: nat, spaces: nat)
    requires i < |commands| && WellFormedRun(commands[i..], spaces)
    ensures WellFormed(commands[i], spaces)
    ensures WellFormedRun(commands[i + 1..], if commands[i].Fork? then spaces + 1 else spaces)
  {
    assert commands[i..][0] == commands[i] && commands[i..][1..] == commands[i + 1..];
  }

  lemma RunExtends(commands: seq<Command>, answers: seq<Answer>, trace: seq<World>, c: Command, ans: Answer, w: World)
    requires EagerRun(commands, answers, trace)
    requires var last := trace[|commands|];
      WorldOk(last) && WellFormed(c, |last.areas|) && Eager(last, c, ans, w)
    ensures EagerRun(commands + [c], answers + [ans], trace + [w])
  {
    hide WorldOk, WellFormed, Eager;
    var cs, ns, ws := commands + [c], answers + [ans], trace + [w];
    forall i | 0 <= i < |cs|
      ensures WorldOk(ws[i]) && WellFormed(cs[i], |ws[i].areas|) && Eager(ws[i], cs[i], ns[i], ws[i + 1])
    {
      if i < |commands| {
        assert cs[i] == commands[i] && ns[i] == answers[i] && ws[i] == trace[i] && ws[i + 1] == trace[i + 1];
      } else {
        assert ws[i] == trace[i] && ws[i + 1] == w;
      }
    }
  }

  // ---------------------------------------------------------------- what eager copying guarantees

  /** Space `q` has the same areas, data segment, pages and stale pages in both worlds. */
  ghost predicate SameSpace(w: World, v: World, q: nat) {
    && q < |w.areas| && q < |w.brks| && q < |v.areas| && q < |v.brks|
    && v.areas[q] == w.areas[q] && v.brks[q] == w.brks[q]
    && (forall page :: Look(v.memory, Loc(q, page)) == Look(w.memory, Loc(q, page)))
    && (forall page :: Loc(q, page) in v.stale <==> Loc(q, page) in w.stale)
  }

  lemma OthersKeepTheirs(w: World, c: Command, ans: Answer, v: World, q: nat)
    requires WorldOk(w) && WellFormed(c, |w.areas|) && Eager(w, c, ans, v)
    requires c.p != q && q < |w.areas|
    ensures SameSpace(w, v, q)
  {
    hide Canonical, MapResult, Protects, SplitsAny;
    if c.Fork? {
      forall page ensures Look(v.memory, Loc(q, page)) == Look(w.memory, Loc(q, page)) {
        assert Loc(q, page).space != |w.areas|;
      }
    }
  }

  /** In any run, whatever the others do, a space that issues no command keeps its memory. */
  lemma {:induction false} RunIsolates(commands: seq<Command>, answers: seq<Answer>, trace: seq<World>, q: nat, n: nat)
    requires EagerRun(commands, answers, trace) && WorldOk(trace[0]) && q < |trace[0].areas| && n <= |commands|
    requires forall i :: 0 <= i < n ==> commands[i].p != q
    ensures SameSpace(trace[0], trace[n], q)
  {
    if n == 0 {
    } else {
      hide Eager, WorldOk, WellFormed;
      RunIsolates(commands, answers, trace, q, n - 1);
      OthersKeepTheirs(trace[n - 1], commands[n - 1], answers[n - 1], trace[n], q);
    }
  }

  // ---------------------------------------------------------------- stale pages

  lemma HarmlessStep(w: World, c: Command, ans: Answer, v: World)
    requires WorldOk(w) && WellFormed(c, |w.areas|) && Eager(w, c, ans, v)
    requires w.stale == {} && Harmless(c)
    ensures v.stale == {}
  {
    hide Canonical, MapResult, ProtectOutcome, SplitsAny, Copied, Removed, Allowed;
    match c
    case Protect(p, addr, length, prot) =>
      forall l ensures length <= PAGE && InRange(l, p, addr, addr + RoundUp(length)) ==> l.page * PAGE == addr {
        OnePageRange(l, p, addr, length);
      }
    case _ =>
  }

  lemma OnePageRange(l: Loc, p: nat, lo: nat, length: nat)
    requires lo % PAGE == 0
    ensures length <= PAGE && InRange(l, p, lo, lo + RoundUp(length)) ==> l.page * PAGE == lo
  {
    assert lo == lo / PAGE * PAGE;
  }

  /** As long as no mprotect takes the write permission from more than one page, a store succeeds exactly
      where areas and data segment permit it, in every world of the run. */
  lemma {:induction false} HarmlessRun(commands: seq<Command>, answers: seq<Answer>, trace: seq<World>, n: nat)
    requires EagerRun(commands, answers, trace) && trace[0].stale == {} && n <= |commands|
    requires forall i :: 0 <= i < n ==> Harmless(commands[i])
    ensures trace[n].stale == {}
  {
    hide Eager, WorldOk, WellFormed, Harmless;
    if n > 0 {
      HarmlessRun(commands, answers, trace, n - 1);
      HarmlessStep(trace[n - 1], commands[n - 1], answers[n - 1], trace[n]);
    }
  }

  // ---------------------------------------------------------------- the node limit

  ghost predicate WithinLimit(w: World) {
    forall i :: 0 <= i < |w.areas| ==> |w.areas[i]| <= MAX_AREAS
  }

  /** The command is an mprotect that misleads the refusal test at a full list. */
  ghost predicate Overfilling(w: World, c: Command) {
    c.Protect? && c.p < |w.areas| && c.length >= 0 && Overfills(w.areas[c.p], c.addr, c.length, c.prot)
  }

  /** Whatever the call, a list passes 128 nodes exactly by overfilling. */
  lemma StepLimit(w: World, c: Command, ans: Answer, v: World)
    requires WorldOk(w) && WellFormed(c, |w.areas|) && Eager(w, c, ans, v) && WithinLimit(w)
    ensures WithinLimit(v) <==> !Overfilling(w, c)
  {
    hide Sorted, Coalesced, Aligned, MapResult, ProtectOutcome, Overfills, SplitsAny, Copied, Removed, Allowed, StaleAfter;
    var s := w.areas[c.p];
    match c
    case Unmap(p, addr, length) => CutCount(s, addr, addr + RoundUp(length));
    case Protect(p, addr, length, prot) =>
      ProtectKeepsLimit(s, v.areas[p], addr, length, prot, ans.ret);
      OneListDecides(w, v, p);
    case _ =>
  }

  lemma OneListDecides(w: World, v: World, p: nat)
    requires OnlyAreas(w, v, p) && WithinLimit(w)
    ensures WithinLimit(v) <==> |v.areas[p]| <= MAX_AREAS
  {
  }

  /** In a run all lists stay within 128 nodes exactly as long as no command overfills one. */
  lemma {:induction false} RunLimit(commands: seq<Command>, answers: seq<Answer>, trace: seq<World>, n: nat)
    requires EagerRun(commands, answers, trace) && WithinLimit(trace[0]) && n <= |commands|
    ensures (forall i :: 0 <= i <= n ==> WithinLimit(trace[i]))
      <==> (forall i :: 0 <= i < n ==> !Overfilling(trace[i], commands[i]))
  {
    hide Eager, WorldOk, WellFormed, WithinLimit, Overfilling;
    if n > 0 {
      RunLimit(commands, answers, trace, n - 1);
      if WithinLimit(trace[n - 1]) {
        StepLimit(trace[n - 1], commands[n - 1], answers[n - 1], trace[n]);
      }
    }
  }
}
