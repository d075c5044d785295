/** The list walks of the page-fault handlers: is the faulting address mapped, and may it be written? */
module PageFaults {
  import opened AreaLists
  import opened EagerCopies

  /** handle_cow_fault: is the address in some area? */
  method InSomeArea(s: seq<Area>, addr: int) returns (found: bool)
    requires Sorted(s)
    ensures found <==> At(s, addr).Some?
  {
    found := false;
    var i := 0;
    while i < |s|
      invariant i <= |s| && !found
      invariant forall j :: 0 <= j < i ==> !s[j].Has(addr)
    {
      if s[i].Has(addr) {
        found := true;
        AtMember(s, i, addr);
        break;
      }
      i := i + 1;
    }
    if !found && At(s, addr).Some? {
      ghost var w := AtWitness(s, addr);
    }
  }

  /** handle_cow_fault: is the address in a page of the data segment? */
  method InData(brk: int, addr: int) returns (found: bool)
    requires BreakOk(brk)
    ensures found <==> DATA_START <= addr < brk
  {
    var v := DATA_START;
    while v < brk
      invariant DATA_START <= v <= brk && v % PAGE == 0
      invariant addr < DATA_START || v <= addr
      decreases brk - v
    {
      if v <= addr < v + PAGE {
        return true;
      }
      v := v + PAGE;
    }
    found := false;
  }

  /** Does an area around the address forbid writing? */
  method WriteDenied(s: seq<Area>, addr: int) returns (denied: bool)
    requires Sorted(s)
    ensures denied <==> At(s, addr).Some? && !CanWrite(At(s, addr).value)
  {
    denied := false;
    var i := 0;
    while i < |s|
      invariant i <= |s|
      invariant forall j :: 0 <= j < i && s[j].Has(addr) ==> CanWrite(s[j].prot)
    {
      if s[i].Has(addr) && !CanWrite(s[i].prot) {
        AtMember(s, i, addr);
        return true;
      }
      i := i + 1;
    }
    if At(s, addr).Some? {
      ghost var w := AtWitness(s, addr);
    }
  }

  /** vm_area_pagefault: reject an address before, between or behind the areas. */
  method PageIsMapped(s: seq<Area>, addr: int) returns (mapped: bool)
    requires Sorted(s)
    ensures mapped <==> At(s, addr).Some?
  {
    if s == [] {
      return false;
    }
    if addr < s[0].start {
      AtGap(s, -1, addr);
      return false;
    }
    var i := 0;
    while i < |s|
      invariant i <= |s|
      invariant i < |s| ==> s[i].start <= addr || (i > 0 && At(s, addr).Some?)
      invariant i == |s| ==> At(s, addr).Some?
    {
      if i + 1 < |s| {
        if s[i].end <= addr < s[i + 1].start {
          AtGap(s, i, addr);
          return false;
        }
      } else if addr >= s[i].end {
        AtGap(s, i, addr);
        return false;
      }
      if s[i].Has(addr) {
        AtMember(s, i, addr);
      }
      i := i + 1;
    }
    mapped := true;
  }

  /** vm_area_pagefault up to the installation of a frame: only a not-present access to a mapped page
      of the window is served, and a write only where writing is permitted. */
  method MayServe(s: seq<Area>, addr: int, present: bool, write: bool) returns (serve: bool)
    requires Sorted(s)
    ensures serve <==> !present && WINDOW_START <= addr < WINDOW_END && At(s, addr).Some?
                       && (write ==> CanWrite(At(s, addr).value))
  {
    if !(WINDOW_START <= addr < WINDOW_END) || present {
      return false;
    }
    var mapped := PageIsMapped(s, addr);
    if !mapped {
      return false;
    }
    if write {
      var denied := WriteDenied(s, addr);
      return !denied;
    }
    serve := true;
  }
}
