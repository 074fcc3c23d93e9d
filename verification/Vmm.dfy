/** Pages handed out through the direct map. */
module Vmm {
  import opened Options
  import opened FirstFit
  import opened PmmModel
  import opened PageTables
  import opened Paging

  /** vmm_AllocatePages; None is the allocator's panic. Asking for 0 pages yields the direct-map address of NULL. */
  method AllocatePages(spaces: AddressSpaces, numPages: nat) returns (address: Option<nat>)
    requires spaces.pmm.Valid()
    modifies spaces.pmm.Repr()
    ensures spaces.pmm.Repr() == old(spaces.pmm.Repr()) && spaces.pmm.Valid()
    ensures numPages == 0 ==> address == Some(spaces.hhdmOffset) && spaces.pmm.State() == old(spaces.pmm.State())
    ensures numPages > 0 ==>
      match Allocate(old(spaces.pmm.State()), numPages)
      case Panic => address == None && spaces.pmm.State() == old(spaces.pmm.State())
      case Allocated(start, after) =>
        address == Some(start * PAGE_SIZE + spaces.hhdmOffset) && spaces.pmm.State() == after
  {
    var physical := spaces.pmm.AllocatePages(numPages);
    if physical == None {
      return None;
    }
    return Some(physical.value + spaces.hhdmOffset);
  }

  /** vmm_FreePages; false is its panic on an address without translation. */
  method FreePages(spaces: AddressSpaces, address: nat, numPages: nat) returns (ok: bool)
    requires spaces.pmm.Valid()
    requires var physical := VirtToPhysical(spaces.mem, spaces.pageDir, spaces.hhdmOffset, spaces.mmTotal, address);
      physical != 0 ==> physical / PAGE_SIZE + numPages <= |spaces.pmm.State().bits|
    modifies spaces.pmm.Repr()
    ensures spaces.pmm.Repr() == old(spaces.pmm.Repr()) && spaces.pmm.Valid()
    ensures var physical := VirtToPhysical(spaces.mem, spaces.pageDir, spaces.hhdmOffset, spaces.mmTotal, address);
      && (ok <==> physical != 0)
      && spaces.pmm.State() == if ok then ApplyRange(Free, old(spaces.pmm.State()), physical / PAGE_SIZE, numPages)
                               else old(spaces.pmm.State())
  {
    var physical := spaces.TranslateAddress(address);
    if physical == 0 {
      return false;
    }
    RangeBits(Free, spaces.pmm.State(), physical / PAGE_SIZE, numPages);
    spaces.pmm.FreePages(physical, numPages);
    return true;
  }

  /** Freeing pages that were just allocated in existing memory never panics, as page 0 is reserved, and restores the
      bitmap and all three counters. With 0 pages the round trip always panics: its address stands for physical 0. */
  lemma FreeUndoesAllocate(m: Mem, n: nat, mem: Memory, root: nat, hhdmOffset: nat, mmTotal: nat)
    requires HintOk(m) && |m.bits| > 0 && m.bits[0]
    ensures n == 0 ==> VirtToPhysical(mem, root, hhdmOffset, mmTotal, hhdmOffset) == 0
    ensures n > 0 ==>
      match Allocate(m, n)
      case Panic => true
      case Allocated(start, mid) =>
        var physical := VirtToPhysical(mem, root, hhdmOffset, mmTotal, start * PAGE_SIZE + hhdmOffset);
        start * PAGE_SIZE <= mmTotal ==>
          && physical != 0 && physical / PAGE_SIZE == start && start + n <= |mid.bits|
          && ApplyRange(Free, mid, start, n) == m.(hint := if n == 1 then start else m.hint)
  {
    if n > 0 {
      AllocateThenFree(m, n);
      AllocateEffect(m, n);
      var (r, _) := FindFree(m, n);
      if r.Some? {
        assert FreeRun(m.bits, r.value, n) && !m.bits[r.value];
      }
    }
  }
}
