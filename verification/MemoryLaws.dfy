/** What processes see of their memory, read off the commands and answers of a run alone: a load returns the last
    byte written, a child starts with its parent's bytes, and calls grant and revoke access as they promise. */
module MemoryLaws {
  import opened Options
  import opened AreaLists
  import opened AreaInsertion
  import opened AreaRemoval
  import opened AreaProtection
  import opened AddressSearch
  import opened AddressSpaces
  import opened MProtect
  import opened VmLaws
  import opened CowMemory
  import opened EagerCopies

  // ---------------------------------------------------------------- loads return what was stored

  /** The command stored or loaded `byte` at this address of space `p`. */
  predicate Shows(c: Command, ans: Answer, p: nat, addr: nat, byte: int) {
    || (c.Store? && c.p == p && c.addr == addr && c.byte == byte && ans == Done)
    || (c.Load? && c.p == p && c.addr == addr && ans == Value(byte))
  }

  /** The command neither stores at this address of space `p` nor unmaps it. */
  predicate Leaves(c: Command, ans: Answer, p: nat, addr: nat) {
    && !(c.Store? && c.p == p && c.addr == addr)
    && !(c.Unmap? && c.p == p && c.length >= 0 && c.addr <= addr < c.addr + RoundUp(c.length) && ans == Code(0))
  }

  /** Space `p` exists and has this byte at the address. */
  ghost predicate HasByte(w: World, p: nat, addr: nat, byte: int) {
    && p < |w.areas| && LocOf(p, addr) in w.memory
    && |w.memory[LocOf(p, addr)]| == PAGE && w.memory[LocOf(p, addr)][addr % PAGE] == byte
  }

  lemma ShownByte(w: World, c: Command, ans: Answer, v: World, p: nat, addr: nat, byte: int)
    requires WorldOk(w) && WellFormed(c, |w.areas|) && Eager(w, c, ans, v) && Shows(c, ans, p, addr, byte)
    ensures HasByte(v, p, addr, byte)
  {
    hide Canonical, Allowed;
  }

  lemma SameAddress(a: nat, b: nat)
    requires PageOf(a) == PageOf(b) && a % PAGE == b % PAGE
    ensures a == b
  {
    assert a == PageOf(a) * PAGE + a % PAGE && b == PageOf(b) * PAGE + b % PAGE;
  }

  lemma PageWithin(a: nat, lo: nat, hi: nat)
    requires lo % PAGE == 0 && hi % PAGE == 0
    ensures PageOf(lo) <= PageOf(a) < PageOf(hi) <==> lo <= a < hi
  {
    assert lo == PageOf(lo) * PAGE && hi == PageOf(hi) * PAGE && a == PageOf(a) * PAGE + a % PAGE;
  }

  lemma ByteStays(w: World, c: Command, ans: Answer, v: World, p: nat, addr: nat, byte: int)
    requires WorldOk(w) && WellFormed(c, |w.areas|) && Eager(w, c, ans, v)
    requires HasByte(w, p, addr, byte) && Leaves(c, ans, p, addr)
    ensures HasByte(v, p, addr, byte)
  {
    hide Canonical, Allowed, MapResult, ProtectOutcome, UnmapFails, Cut, InRange, StaleAfter, RoundUp;
    var l := LocOf(p, addr);
    match c
    case Store(q, a, _, _) =>
      if PageOf(a) == PageOf(addr) && a % PAGE == addr % PAGE {
        SameAddress(a, addr);
      }
    case Fork(q) => assert Look(v.memory, l) == Look(w.memory, l);
    case Unmap(q, a, length) =>
      PageWithin(addr, a, a + RoundUp(length));
      assert ans == Code(0) ==>
        Look(v.memory, l) == if q == p && PageOf(a) <= PageOf(addr) < PageOf(a + RoundUp(length)) then None else Look(w.memory, l);
    case _ =>
  }

  lemma {:induction false} ByteThroughRun(commands: seq<Command>, answers: seq<Answer>, trace: seq<World>,
                                          i: nat, j: nat, p: nat, addr: nat, byte: int)
    requires EagerRun(commands, answers, trace) && i <= j <= |commands| && HasByte(trace[i], p, addr, byte)
    requires forall k :: i <= k < j ==> Leaves(commands[k], answers[k], p, addr)
    ensures HasByte(trace[j], p, addr, byte)
  {
    hide Eager, WorldOk, WellFormed, HasByte, Leaves;
    if i < j {
      ByteThroughRun(commands, answers, trace, i, j - 1, p, addr, byte);
      ByteStays(trace[j - 1], commands[j - 1], answers[j - 1], trace[j], p, addr, byte);
    }
  }

  lemma LoadShowsByte(w: World, c: Command, ans: Answer, v: World, byte: int)
    requires WorldOk(w) && WellFormed(c, |w.areas|) && Eager(w, c, ans, v)
    requires c.Load? && HasByte(w, c.p, c.addr, byte)
    ensures ans == Value(byte) || ans == Fault
  {
    hide Canonical, Allowed;
  }

  /** A load returns the byte last stored at its address, whatever the spaces do in between: fork, map, protect,
      fault, or store elsewhere. Two loads with no store between them agree. */
  lemma LoadReturnsLastStore(commands: seq<Command>, answers: seq<Answer>, trace: seq<World>,
                             i: nat, j: nat, byte: int)
    requires EagerRun(commands, answers, trace) && i < j < |commands|
    requires commands[j].Load? && Shows(commands[i], answers[i], commands[j].p, commands[j].addr, byte)
    requires forall k :: i < k < j ==> Leaves(commands[k], answers[k], commands[j].p, commands[j].addr)
    ensures answers[j] == Value(byte) || answers[j] == Fault
  {
    hide Eager, WorldOk, WellFormed, HasByte, Leaves, Shows;
    var p, addr := commands[j].p, commands[j].addr;
    ShownByte(trace[i], commands[i], answers[i], trace[i + 1], p, addr, byte);
    ByteThroughRun(commands, answers, trace, i + 1, j, p, addr, byte);
    LoadShowsByte(trace[j], commands[j], answers[j], trace[j + 1], byte);
  }

  lemma ForkGivesByte(w: World, c: Command, ans: Answer, v: World, addr: nat, byte: int)
    requires WorldOk(w) && WellFormed(c, |w.areas|) && Eager(w, c, ans, v)
    requires c.Fork? && HasByte(w, c.p, addr, byte)
    ensures ans.Code? && ans.ret == |w.areas| && HasByte(v, |w.areas|, addr, byte)
  {
    hide Canonical, Allowed;
    assert Look(v.memory, LocOf(|w.areas|, addr)) == Look(w.memory, LocOf(c.p, addr));
  }

  /** A child loads the byte that its parent had stored before the fork, until the child itself stores or unmaps
      there: what the parent does after the fork does not reach it. */
  lemma ChildLoadsParentsByte(commands: seq<Command>, answers: seq<Answer>, trace: seq<World>,
                              i: nat, f: nat, j: nat, byte: int)
    requires EagerRun(commands, answers, trace) && i < f < j < |commands|
    requires commands[f].Fork? && commands[j].Load? && answers[f] == Code(commands[j].p)
    requires Shows(commands[i], answers[i], commands[f].p, commands[j].addr, byte)
    requires forall k :: i < k < f ==> Leaves(commands[k], answers[k], commands[f].p, commands[j].addr)
    requires forall k :: f < k < j ==> Leaves(commands[k], answers[k], commands[j].p, commands[j].addr)
    ensures answers[j] == Value(byte) || answers[j] == Fault
  {
    hide Eager, WorldOk, WellFormed, HasByte, Leaves, Shows;
    var p, c, addr := commands[f].p, commands[j].p, commands[j].addr;
    ShownByte(trace[i], commands[i], answers[i], trace[i + 1], p, addr, byte);
    ByteThroughRun(commands, answers, trace, i + 1, f, p, addr, byte);
    ForkGivesByte(trace[f], commands[f], answers[f], trace[f + 1], addr, byte);
    ByteThroughRun(commands, answers, trace, f + 1, j, c, addr, byte);
    LoadShowsByte(trace[j], commands[j], answers[j], trace[j + 1], byte);
  }

  // ---------------------------------------------------------------- who may access what

  /** The command may change the areas of space `p`. */
  predicate EditsAreas(c: Command, p: nat) {
    c.p == p && (c.Map? || c.Unmap? || c.Protect?)
  }

  lemma AreasStay(w: World, c: Command, ans: Answer, v: World, p: nat)
    requires WorldOk(w) && WellFormed(c, |w.areas|) && Eager(w, c, ans, v) && p < |w.areas|
    ensures p < |v.areas| && |v.areas| == |v.brks| && v.brks[p] >= w.brks[p]
    ensures !(c.Expand? && c.p == p) ==> v.brks[p] == w.brks[p]
    ensures !EditsAreas(c, p) ==> v.areas[p] == w.areas[p]
  {
    hide Canonical, Allowed, MapResult, ProtectOutcome, UnmapFails, Cut, Removed, Copied, InRange, StaleAfter, RoundUp;
  }

  lemma {:induction false} AreasThroughRun(commands: seq<Command>, answers: seq<Answer>, trace: seq<World>,
                                           i: nat, j: nat, p: nat)
    requires EagerRun(commands, answers, trace) && i <= j <= |commands|
    requires p < |trace[i].areas| == |trace[i].brks|
    ensures p < |trace[j].areas| == |trace[j].brks| && trace[j].brks[p] >= trace[i].brks[p]
    ensures (forall k :: i <= k < j ==> !(commands[k].Expand? && commands[k].p == p)) ==> trace[j].brks[p] == trace[i].brks[p]
    ensures (forall k :: i <= k < j ==> !EditsAreas(commands[k], p)) ==> trace[j].areas[p] == trace[i].areas[p]
  {
    hide Eager, WellFormed, EditsAreas, Canonical;
    if i < j {
      AreasThroughRun(commands, answers, trace, i, j - 1, p);
      AreasStay(trace[j - 1], commands[j - 1], answers[j - 1], trace[j], p);
    }
  }

  /** A load faults exactly outside the areas and the data segment. */
  lemma LoadFaults(w: World, c: Command, ans: Answer, v: World)
    requires WorldOk(w) && WellFormed(c, |w.areas|) && Eager(w, c, ans, v) && c.Load?
    ensures ans == Fault <==> At(w.areas[c.p], c.addr) == None && !(DATA_START <= c.addr < w.brks[c.p])
  {
    hide Canonical, At;
  }

  /** A store also needs bit 1 of the protection, unless the page is stale. */
  lemma StoreFaults(w: World, c: Command, ans: Answer, v: World)
    requires WorldOk(w) && WellFormed(c, |w.areas|) && Eager(w, c, ans, v) && c.Store? && w.stale == {}
    ensures ans == Fault <==>
      && !(DATA_START <= c.addr < w.brks[c.p])
      && (At(w.areas[c.p], c.addr) == None || At(w.areas[c.p], c.addr).value / 2 % 2 == 0)
  {
    hide Canonical, At;
  }

  /** No page is stale at the start, and no command before the j-th is an mprotect that can leave one. */
  ghost predicate AllHarmless(commands: seq<Command>, trace: seq<World>, j: nat)
    requires j <= |commands| && trace != []
  {
    trace[0].stale == {} && forall k :: 0 <= k < j ==> Harmless(commands[k])
  }

  /** The command asks for exactly its address, and got it. */
  predicate Maps(c: Command, ans: Answer, p: nat, addr: nat) {
    && c.Map? && c.p == p && c.fixed && c.addr != 0 && ans != Code(-1)
    && c.length >= 0 && c.addr <= addr < c.addr + RoundUp(c.length)
  }

  lemma MappedNow(w: World, c: Command, ans: Answer, v: World, p: nat, addr: nat)
    requires WorldOk(w) && WellFormed(c, |w.areas|) && Eager(w, c, ans, v) && Maps(c, ans, p, addr)
    ensures p < |v.areas| == |v.brks| && At(v.areas[p], addr) == Some(c.prot)
    ensures WINDOW_START <= addr < WINDOW_END && v.brks[p] <= WINDOW_START
  {
    hide Canonical, At, MapResult, MapsRange, FreeRange;
    if AcceptsHint(c.addr, c.length, true) {
      FixedMeaning(w.areas[p], v.areas[p], c.addr, RoundUp(c.length), c.prot, ans.ret);
      InFreeRange(w.areas[p], c.addr, RoundUp(c.length), addr);
    }
  }

  lemma InFreeRange(s: seq<Area>, lo: int, len: int, a: int)
    requires FreeRange(s, lo, len) && lo <= a < lo + len
    ensures WINDOW_START <= a < WINDOW_END
  {
    assert At(s, a) == None;
  }

  /** After a successful mmap of fixed address its pages can be loaded, and stored to exactly if the protection
      has the write bit, until the process edits its areas. */
  lemma MapGrants(commands: seq<Command>, answers: seq<Answer>, trace: seq<World>, i: nat, j: nat)
    requires EagerRun(commands, answers, trace) && i < j < |commands| && (commands[j].Load? || commands[j].Store?)
    requires Maps(commands[i], answers[i], commands[j].p, commands[j].addr)
    requires forall k :: i < k < j ==> !EditsAreas(commands[k], commands[j].p)
    ensures commands[j].Load? ==> answers[j] != Fault
    ensures commands[j].Store? && AllHarmless(commands, trace, j) ==> (answers[j] == Fault <==> commands[i].prot / 2 % 2 == 0)
  {
    hide Eager, WellFormed, EditsAreas, Canonical, Maps, Harmless;
    var p, addr := commands[j].p, commands[j].addr;
    MappedNow(trace[i], commands[i], answers[i], trace[i + 1], p, addr);
    AreasThroughRun(commands, answers, trace, i + 1, j, p);
    if commands[j].Load? {
      LoadFaults(trace[j], commands[j], answers[j], trace[j + 1]);
    } else if AllHarmless(commands, trace, j) {
      HarmlessRun(commands, answers, trace, j);
      BreakBelowWindow(trace[j], p);
      StoreFaults(trace[j], commands[j], answers[j], trace[j + 1]);
    }
  }

  lemma BreakBelowWindow(w: World, p: nat)
    requires WorldOk(w) && p < |w.areas|
    ensures w.brks[p] <= WINDOW_START
  {
    hide Canonical;
  }

  /** The command unmapped this address of the window. */
  predicate Unmaps(c: Command, ans: Answer, p: nat, addr: nat) {
    && c.Unmap? && c.p == p && ans == Code(0)
    && c.length >= 0 && c.addr <= addr < c.addr + RoundUp(c.length) && WINDOW_START <= addr
  }

  lemma UnmappedNow(w: World, c: Command, ans: Answer, v: World, p: nat, addr: nat)
    requires WorldOk(w) && WellFormed(c, |w.areas|) && Eager(w, c, ans, v) && Unmaps(c, ans, p, addr)
    ensures p < |v.areas| == |v.brks| && At(v.areas[p], addr) == None
  {
    hide Sorted, Coalesced, Aligned, At, Cut, Removed, SplitsAny, InRange;
    UnmapMeaning(w.areas[p], c.addr, c.addr + RoundUp(c.length));
  }

  /** In the window munmap can be refused only to a list that has reached the node limit. */
  lemma UnmapSucceeds(w: World, c: Command, ans: Answer, v: World)
    requires WorldOk(w) && WellFormed(c, |w.areas|) && Eager(w, c, ans, v) && c.Unmap?
    requires WINDOW_START <= c.addr && c.addr + c.length <= WINDOW_END && |w.areas[c.p]| < MAX_AREAS
    ensures ans == Code(0)
  {
    hide Canonical, Cut, Removed, InRange, SplitsAny;
  }

  /** After a successful munmap every access to the range faults, until the process edits its areas. */
  lemma UnmapRevokes(commands: seq<Command>, answers: seq<Answer>, trace: seq<World>, i: nat, j: nat)
    requires EagerRun(commands, answers, trace) && i < j < |commands| && (commands[j].Load? || commands[j].Store?)
    requires Unmaps(commands[i], answers[i], commands[j].p, commands[j].addr)
    requires forall k :: i < k < j ==> !EditsAreas(commands[k], commands[j].p)
    ensures commands[j].Load? || AllHarmless(commands, trace, j) ==> answers[j] == Fault
  {
    hide Eager, WellFormed, EditsAreas, Canonical, Unmaps, Harmless;
    var p, addr := commands[j].p, commands[j].addr;
    assert Unmaps(commands[i], answers[i], p, addr);
    UnmappedNow(trace[i], commands[i], answers[i], trace[i + 1], p, addr);
    AreasThroughRun(commands, answers, trace, i + 1, j, p);
    BreakBelowWindow(trace[j], p);
    InWindowRange(commands[i], answers[i], p, addr);
    if commands[j].Load? {
      LoadFaults(trace[j], commands[j], answers[j], trace[j + 1]);
    } else if AllHarmless(commands, trace, j) {
      HarmlessRun(commands, answers, trace, j);
      StoreFaults(trace[j], commands[j], answers[j], trace[j + 1]);
    }
  }

  lemma InWindowRange(c: Command, ans: Answer, p: nat, addr: nat)
    requires Unmaps(c, ans, p, addr)
    ensures WINDOW_START <= addr
  {
  }

  /** The command gave this mapped address a new protection. */
  ghost predicate GivesProtection(w: World, c: Command, ans: Answer, p: nat, addr: nat) {
    && c.Protect? && c.p == p && ans == Code(0) && p < |w.areas| && At(w.areas[p], addr).Some?
    && c.length >= 0 && c.addr <= addr < c.addr + RoundUp(c.length)
  }

  lemma ProtectedNow(w: World, c: Command, ans: Answer, v: World, p: nat, addr: nat)
    requires WorldOk(w) && WellFormed(c, |w.areas|) && Eager(w, c, ans, v) && GivesProtection(w, c, ans, p, addr)
    ensures p < |v.areas| == |v.brks| && At(v.areas[p], addr) == Some(c.prot)
    ensures WINDOW_START <= addr < WINDOW_END && v.brks[p] <= WINDOW_START
  {
    hide Coalesced, Aligned, ProtectOutcome, StaleAfter;
    OutcomeProtects(w.areas[p], v.areas[p], c.addr, c.length, c.prot, 0);
    var k := AtWitness(w.areas[p], addr);
  }

  /** After a successful mprotect a mapped address of its range can still be loaded, and stored to exactly if the
      new protection has the write bit, until the process edits its areas. */
  lemma ProtectDecides(commands: seq<Command>, answers: seq<Answer>, trace: seq<World>, i: nat, j: nat)
    requires EagerRun(commands, answers, trace) && i < j < |commands| && (commands[j].Load? || commands[j].Store?)
    requires GivesProtection(trace[i], commands[i], answers[i], commands[j].p, commands[j].addr)
    requires forall k :: i < k < j ==> !EditsAreas(commands[k], commands[j].p)
    ensures commands[j].Load? ==> answers[j] != Fault
    ensures commands[j].Store? && AllHarmless(commands, trace, j) ==> (answers[j] == Fault <==> commands[i].prot / 2 % 2 == 0)
  {
    hide Eager, WellFormed, EditsAreas, Canonical, Harmless, GivesProtection;
    var p, addr := commands[j].p, commands[j].addr;
    ProtectedNow(trace[i], commands[i], answers[i], trace[i + 1], p, addr);
    AreasThroughRun(commands, answers, trace, i + 1, j, p);
    if commands[j].Load? {
      LoadFaults(trace[j], commands[j], answers[j], trace[j + 1]);
    } else if AllHarmless(commands, trace, j) {
      HarmlessRun(commands, answers, trace, j);
      BreakBelowWindow(trace[j], p);
      StoreFaults(trace[j], commands[j], answers[j], trace[j + 1]);
    }
  }

  /** Heap growth fails exactly when it asks for more than 1024 pages or would reach the window. Otherwise it
      answers where the new pages start, and from then on no access to them faults. */
  lemma ExpandGrants(commands: seq<Command>, answers: seq<Answer>, trace: seq<World>, i: nat, j: nat)
    requires EagerRun(commands, answers, trace) && i < j < |commands| && (commands[j].Load? || commands[j].Store?)
    requires commands[i].Expand? && commands[i].p == commands[j].p
    ensures commands[i].p < |trace[i].brks| && answers[i].Code?
    ensures answers[i].ret == 0 <==>
      commands[i].pages > 1024 || trace[i].brks[commands[i].p] + commands[i].pages * PAGE >= WINDOW_START
    ensures answers[i].ret != 0 && answers[i].ret <= commands[j].addr < answers[i].ret + commands[i].pages * PAGE ==>
      answers[j] != Fault
  {
    hide Eager, WorldOk, WellFormed, EditsAreas;
    ExpandMoves(trace[i], commands[i], answers[i], trace[i + 1]);
    AreasThroughRun(commands, answers, trace, i + 1, j, commands[j].p);
    if answers[i].ret != 0 && answers[i].ret <= commands[j].addr < answers[i].ret + commands[i].pages * PAGE {
      DataAllowed(trace[j], commands[j], answers[j], trace[j + 1]);
    }
  }

  lemma ExpandMoves(w: World, c: Command, ans: Answer, v: World)
    requires WorldOk(w) && WellFormed(c, |w.areas|) && Eager(w, c, ans, v) && c.Expand?
    ensures c.p < |w.areas| == |w.brks| == |v.areas| == |v.brks| && ans.Code?
    ensures ans.ret == 0 <==> c.pages > 1024 || w.brks[c.p] + c.pages * PAGE >= WINDOW_START
    ensures ans.ret != 0 ==> ans.ret >= DATA_START && v.brks[c.p] == ans.ret + c.pages * PAGE
  {
    hide Canonical;
  }

  lemma DataAllowed(w: World, c: Command, ans: Answer, v: World)
    requires WorldOk(w) && WellFormed(c, |w.areas|) && Eager(w, c, ans, v) && (c.Load? || c.Store?)
    requires c.p < |w.brks| && DATA_START <= c.addr < w.brks[c.p]
    ensures ans != Fault
  {
    hide Canonical, At;
  }

  /** A child may load exactly where its parent may, as long as neither edits its areas or grows its heap. */
  lemma ChildLoadsWhereParentDoes(commands: seq<Command>, answers: seq<Answer>, trace: seq<World>, f: nat, i: nat, j: nat)
    requires EagerRun(commands, answers, trace) && f < i < |commands| && f < j < |commands|
    requires commands[f].Fork? && commands[i].Load? && commands[j].Load? && commands[i].addr == commands[j].addr
    requires commands[i].p == commands[f].p && answers[f] == Code(commands[j].p)
    requires forall k :: f < k < i || f < k < j ==>
      && !EditsAreas(commands[k], commands[i].p) && !EditsAreas(commands[k], commands[j].p)
      && !(commands[k].Expand? && (commands[k].p == commands[i].p || commands[k].p == commands[j].p))
    ensures answers[i] == Fault <==> answers[j] == Fault
  {
    hide Eager, EditsAreas, Canonical, WellFormed, WorldOk;
    var p, c := commands[i].p, commands[j].p;
    ForkedAreas(trace[f], commands[f], answers[f], trace[f + 1]);
    AreasThroughRun(commands, answers, trace, f + 1, i, p);
    AreasThroughRun(commands, answers, trace, f + 1, j, c);
    LoadFaults(trace[i], commands[i], answers[i], trace[i + 1]);
    LoadFaults(trace[j], commands[j], answers[j], trace[j + 1]);
  }

  lemma ForkedAreas(w: World, c: Command, ans: Answer, v: World)
    requires WorldOk(w) && WellFormed(c, |w.areas|) && Eager(w, c, ans, v) && c.Fork?
    ensures |v.areas| == |v.brks| == |w.areas| + 1 && c.p < |w.areas| && ans == Code(|w.areas|)
    ensures v.areas[c.p] == v.areas[|w.areas|] && v.brks[c.p] == v.brks[|w.areas|]
  {
    hide Canonical, Copied;
  }
}
