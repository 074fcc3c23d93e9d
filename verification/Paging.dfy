/** Page tables changed in place: map, translate, clone and switch, with every table frame drawn from the page
    allocator. A directory is named by its frame; its pointer is the direct-map address of that frame. */
module Paging {
  import opened Options
  import opened PmmModel
  import opened PageIndex
  import opened PageTables
  import Pmm

  class AddressSpaces {
    const hhdmOffset: nat
    const mmTotal: nat
    const pmm: Pmm.PageAllocator

    var mem: Memory
    var pageDir: nat
    var taskInitialized: bool
    var currentTaskDir: nat

    // The role of every frame in use as a table.
    ghost var role: map<nat, Role>

    // The page bitmap of `pmm`.
    ghost var occupied: seq<bool>

    ghost function State(): (m: Machine)
      reads `mem, `role, `occupied
    {
      Machine(Space(mem, role), occupied)
    }

    /** The allocator is between operations and `occupied` is its bitmap. */
    ghost predicate Linked()
      reads `occupied, pmm, pmm.bitmap, pmm.bitmap.buffer
    {
      pmm.Valid() && occupied == pmm.State().bits
    }

    ghost predicate Valid()
      reads `mem, `role, `pageDir, `occupied, pmm, pmm.bitmap, pmm.bitmap.buffer
    {
      Linked() && Sound(State()) && IsRoot(State().space, pageDir)
    }

    constructor (hhdmOffset: nat, mmTotal: nat, pmm: Pmm.PageAllocator, mem: Memory, pageDir: nat,
                 ghost role: map<nat, Role>)
      requires pmm.Valid() && Sound(Machine(Space(mem, role), pmm.State().bits)) && IsRoot(Space(mem, role), pageDir)
      ensures Valid() && this.pmm == pmm && State() == Machine(Space(mem, role), pmm.State().bits)
      ensures this.pageDir == pageDir && !taskInitialized
    {
      this.hhdmOffset, this.mmTotal, this.pmm := hhdmOffset, mmTotal, pmm;
      this.mem, this.pageDir, this.role, this.occupied := mem, pageDir, role, pmm.State().bits;
      taskInitialized, currentTaskDir := false, pageDir;
    }

    /** A zeroed frame that was free; None is the allocator's panic, exactly when no page is free. */
    method PhysicalAllocate() returns (frame: Option<nat>)
      requires Valid()
      modifies `mem, `occupied, pmm.Repr()
      ensures pmm.Repr() == old(pmm.Repr()) && Linked()
      ensures frame == None <==> Spare(old(occupied)) == 0
      ensures match frame
        case None => State() == old(State())
        case Some(f) =>
          && f < |old(occupied)| && !old(occupied)[f] && Spare(occupied) == Spare(old(occupied)) - 1
          && State() == Machine(Space(old(mem)[f := ZeroTable()], role), old(occupied)[f := true])
    {
      frame := AllocateFrame();
      if frame.Some? {
        mem := mem[frame.value := ZeroTable()];
      }
    }

    /** Let the absent entry `i` of table `f` point to a newly allocated empty table. False is the allocator's panic. */
    method CreateTable(f: nat, i: Index, ghost root: nat, ghost slot: Index) returns (ok: bool)
      requires Valid() && f in role && !role[f].Pt? && !Present(mem[f][i])
      requires role[f].Root? ==> f == root && i == slot
      modifies `mem, `role, `occupied, pmm.Repr()
      ensures pmm.Repr() == old(pmm.Repr()) && Linked() && Adds(old(State()), State(), root, slot)
      ensures ok <==> Spare(old(occupied)) > 0
      ensures !ok ==> State() == old(State())
      ensures ok ==>
        f in mem && PointsToTable(mem[f][i]) && Points(State().space, EntryFrame(mem[f][i]), ChildRole(role[f], f, i))
      ensures ok ==> Spare(occupied) == Spare(old(occupied)) - 1
      ensures ok ==> EntryFrame(mem[f][i]) in mem && mem[EntryFrame(mem[f][i])] == ZeroTable()
    {
      hide Extends, Grown, Walk, Linked, Points, Adds, Spare;
      var targetAddr := PhysicalAllocate();
      if targetAddr == None {
        AddsNothing(old(State()), root, slot);
        return false;
      }
      AddTableEffect(old(State()), f, i, targetAddr.value, root, slot);
      mem := mem[f := mem[f][i := TableEntry(targetAddr.value)]];
      role := role[targetAddr.value := ChildRole(role[f], f, i)];
      assert State() == AddTable(old(State()), f, i, targetAddr.value);
      return true;
    }

    /** Follow entry `i` of table `f`, creating the table it should point to when it is absent. */
    method EnsureTable(f: nat, i: Index, ghost root: nat, ghost slot: Index) returns (ok: bool, child: nat)
      requires Valid() && f in role && !role[f].Pt? && !HugeAt(mem, f, i)
      requires role[f].Root? ==> f == root && i == slot
      modifies `mem, `role, `occupied, pmm.Repr()
      ensures pmm.Repr() == old(pmm.Repr()) && Linked() && Adds(old(State()), State(), root, slot)
      ensures ok <==> Child(old(mem), f, i).Some? || Spare(old(occupied)) > 0
      ensures !ok || Child(old(mem), f, i).Some? ==> State() == old(State())
      ensures ok ==> Child(mem, f, i) == Some(child) && Points(State().space, child, ChildRole(role[f], f, i))
      ensures ok && Child(old(mem), f, i) == None ==>
        child in mem && mem[child] == ZeroTable() && Spare(occupied) == Spare(old(occupied)) - 1
    {
      hide Spare, Adds, Linked;
      if !Present(mem[f][i]) {
        ok := CreateTable(f, i, root, slot);
        if !ok {
          return false, 0;
        }
      } else {
        AddsNothing(old(State()), root, slot);
      }
      return true, EntryFrame(mem[f][i]);
    }

    /** The first two levels of the path, with the tables they point to created if absent. False is the allocator's
        panic, exactly when fewer pages are free than tables are missing. */
    method WalkToPd(p: Path) returns (ok: bool, pd: nat)
      requires Valid() && NoHuge(mem, pageDir, p)
      modifies `mem, `role, `occupied, pmm.Repr()
      ensures pmm.Repr() == old(pmm.Repr()) && Linked() && Adds(old(State()), State(), pageDir, p.i4)
      ensures ok <==> MissingAbovePd(old(mem), pageDir, p) <= Spare(old(occupied))
      ensures ok ==> PdOf(mem, pageDir, p) == Some(pd) && IsPd(State().space, pd) && !HugeAt(mem, pd, p.i2)
      ensures ok ==> Spare(occupied) == Spare(old(occupied)) - MissingAbovePd(old(mem), pageDir, p)
      ensures ok && PdOf(old(mem), pageDir, p).Some? ==> State() == old(State())
      ensures ok && PdOf(old(mem), pageDir, p) == None ==> pd in mem && mem[pd] == ZeroTable()
    {
      hide WellFormed, Extends, Grown, Walk, HugeAt, Linked, Child, NoHuge, Spare;
      var pdp;
      NoHugeAtRoot(mem, pageDir, p);
      ok, pdp := EnsureTable(pageDir, p.i4, pageDir, p.i4);
      if !ok {
        return false, 0;
      }
      ghost var s1 := State();
      AddsKeepsPath(old(State()), s1, pageDir, p);
      if Child(old(mem), pageDir, p.i4) == None {
        ZeroTableHasNoChild(mem, pdp, p.i3);
      }
      ok, pd := EnsureTable(pdp, p.i3, pageDir, p.i4);
      AddsTwice(old(State()), s1, State(), pageDir, p.i4);
      if ok {
        AddsKeepsRootChild(s1, State(), pageDir, p.i4, pdp);
        AddsKeepsPath(old(State()), State(), pageDir, p);
      }
    }

    /** The page table of path `p` in the directory in force, with every table on the way created if absent. False is
        the allocator's panic, exactly when fewer pages are free than tables are missing. */
    method WalkToTable(p: Path) returns (ok: bool, pt: nat)
      requires Valid() && NoHuge(mem, pageDir, p)
      modifies `mem, `role, `occupied, pmm.Repr()
      ensures pmm.Repr() == old(pmm.Repr()) && Linked() && Adds(old(State()), State(), pageDir, p.i4)
      ensures ok <==> Missing(old(mem), pageDir, p) <= Spare(old(occupied))
      ensures ok ==> PtOf(mem, pageDir, p) == Some(pt)
      ensures ok ==> Spare(occupied) == Spare(old(occupied)) - Missing(old(mem), pageDir, p)
    {
      hide WellFormed, Extends, Grown, Walk, HugeAt, Linked, Child, NoHuge, Spare, MissingAbovePd;
      var pd;
      ok, pd := WalkToPd(p);
      if !ok {
        return false, 0;
      }
      ghost var s2 := State();
      AddsRoot(old(State()), s2, pageDir, p.i4);
      if PdOf(old(mem), pageDir, p) == None {
        ZeroTableHasNoChild(mem, pd, p.i2);
      }
      ok, pt := EnsureTable(pd, p.i2, pageDir, p.i4);
      AddsTwice(old(State()), s2, State(), pageDir, p.i4);
      if ok {
        AddsKeepsPd(s2, State(), pageDir, p, pd);
      }
    }

    /** Map one page through the directory in force. False is the allocator's panic while a table was being created,
        exactly when fewer pages are free than tables are missing; no translation has changed then. */
    method MapPage(virtAddr: nat, physicalAddr: nat, flags: Flags) returns (ok: bool)
      requires Valid() && NoHuge(mem, pageDir, PathOf(virtAddr))
      modifies `mem, `role, `occupied, pmm.Repr()
      ensures pmm.Repr() == old(pmm.Repr()) && Valid() && Grown(old(State()), State())
      ensures ok <==> Missing(old(mem), pageDir, PathOf(virtAddr)) <= Spare(old(occupied))
      ensures ok ==>
        Mapped(old(State().space), State().space, pageDir, PathOf(virtAddr), LeafEntry(physicalAddr, flags))
      ensures ok ==> Spare(occupied) == Spare(old(occupied)) - Missing(old(mem), pageDir, PathOf(virtAddr))
      ensures !ok ==> Extends(old(State().space), State().space, pageDir, PathOf(virtAddr).i4)
    {
      hide WellFormed, Extends, Grown, Mapped, Walk, PtOf, Linked, Adds, NoHuge, Spare, Missing;
      hide PathOf, LeafEntry;
      var p := PathOf(virtAddr);
      var pt;
      ok, pt := WalkToTable(p);
      if !ok {
        AddsRoot(old(State()), State(), pageDir, p.i4);
        return;
      }
      ghost var s3 := State();
      PresentLeaf(physicalAddr, flags);
      MapLastStep(old(State()), s3, pageDir, p, pt, LeafEntry(physicalAddr, flags));
      mem := mem[pt := mem[pt][p.i1 := LeafEntry(physicalAddr, flags)]];
      assert State() == s3.(space := WriteLeaf(s3.space, pt, p.i1, LeafEntry(physicalAddr, flags)));
    }

    /** paging_VirtToPhysical through the directory in force. */
    method TranslateAddress(virtAddr: nat) returns (physicalAddr: nat)
      ensures physicalAddr == VirtToPhysical(mem, pageDir, hhdmOffset, mmTotal, virtAddr)
      ensures hhdmOffset <= virtAddr <= hhdmOffset + mmTotal ==> physicalAddr == virtAddr - hhdmOffset
      ensures (virtAddr < hhdmOffset || virtAddr > hhdmOffset + mmTotal) && NoHuge(mem, pageDir, PathOf(virtAddr)) ==>
        physicalAddr == match Translate(mem, pageDir, virtAddr) case None => 0 case Some(x) => x
    {
      hide NoHuge, Translate, Walk, PathOf, EntryFrame, Present;
      VirtToPhysicalExactly(mem, pageDir, hhdmOffset, mmTotal, virtAddr);
      if virtAddr >= hhdmOffset && virtAddr <= hhdmOffset + mmTotal {
        return virtAddr - hhdmOffset;
      }
      var p := PathOf(virtAddr - Offset(virtAddr));
      PathIgnoresOffset(virtAddr);
      var pml4Entry := ReadEntry(mem, pageDir, p.i4);
      if !Present(pml4Entry) {
        return 0;
      }
      var pdpEntry := ReadEntry(mem, EntryFrame(pml4Entry), p.i3);
      if !Present(pdpEntry) {
        return 0;
      }
      var pdEntry := ReadEntry(mem, EntryFrame(pdpEntry), p.i2);
      if !Present(pdEntry) {
        return 0;
      }
      var ptEntry := ReadEntry(mem, EntryFrame(pdEntry), p.i1);
      if Present(ptEntry) {
        return EntryFrame(ptEntry) * 0x1000 + Offset(virtAddr);
      }
      return 0;
    }

    /** A new directory with the 512 entries of the kernel's. None is a panic: multitasking is not initialized, or no
        page is free. */
    method AllocatePD(kernelDir: nat) returns (out: Option<nat>)
      requires Valid() && IsRoot(State().space, kernelDir)
      modifies `mem, `role, `occupied, pmm.Repr()
      ensures pmm.Repr() == old(pmm.Repr()) && Valid()
      ensures out == None <==> !taskInitialized || Spare(old(occupied)) == 0
      ensures out == None ==> State() == old(State())
      ensures out.Some? ==>
        && out.value < |old(occupied)| && !old(occupied)[out.value]
        && State() == Machine(Clone(old(State().space), kernelDir, out.value), old(occupied)[out.value := true])
    {
      hide Sound, Spare, WellFormed;
      if !taskInitialized {
        return None;
      }
      var page := AllocateFrame();
      if page == None {
        return None;
      }
      var d := page.value;
      CloneSound(old(State()), kernelDir, d);
      CopyEntries(kernelDir, d);
      role := role[d := Root];
      assert State() == Machine(Clone(old(State().space), kernelDir, d), old(occupied)[d := true]);
      return Some(d);
    }

    /** vmm_AllocatePage: one page, not cleared. None is the allocator's panic, exactly when no page is free. */
    method AllocateFrame() returns (frame: Option<nat>)
      requires Linked()
      modifies `occupied, pmm.Repr()
      ensures pmm.Repr() == old(pmm.Repr()) && Linked()
      ensures frame == None <==> Spare(old(occupied)) == 0
      ensures match frame
        case None => State() == old(State())
        case Some(f) =>
          && f < |old(occupied)| && !old(occupied)[f] && Spare(occupied) == Spare(old(occupied)) - 1
          && State() == old(State()).(occupied := old(occupied)[f := true])
    {
      hide Spare, Allocate;
      AllocateOne(pmm.State());
      var address := pmm.AllocatePage();
      occupied := pmm.State().bits;
      match address
      case None =>
        frame := None;
      case Some(a) =>
        frame := Some(a / 0x1000);
    }

    /** Copy the 512 entries of table `target` into frame `out`, one by one. */
    method CopyEntries(target: nat, out: nat)
      requires target in mem && out in mem && target != out
      modifies `mem
      ensures mem == old(mem)[out := old(mem)[target]]
    {
      for i := 0 to 512
        invariant target in mem && out in mem && mem[target] == old(mem)[target]
        invariant mem == old(mem)[out := mem[out]]
        invariant forall j :: 0 <= j < i ==> mem[out][j] == old(mem)[target][j]
      {
        mem := mem[out := mem[out][i := mem[target][i]]];
      }
      assert mem[out] == old(mem)[target];
    }

    /** Address of frame `f` in the direct map. */
    function Pointer(f: nat): nat { hhdmOffset + f * 0x1000 }

    /** Switch directories and record the switch in the current task. False is the panic. */
    method ChangePageDir(pd: nat) returns (ok: bool)
      modifies `pageDir, `currentTaskDir
      ensures ok <==> VirtToPhysical(mem, old(pageDir), hhdmOffset, mmTotal, Pointer(pd)) != 0
      ensures pageDir == if ok then pd else old(pageDir)
      ensures currentTaskDir == if taskInitialized then pd else old(currentTaskDir)
    {
      if taskInitialized {
        currentTaskDir := pd;
      }
      ok := ChangePageDirFake(pd);
    }

    /** Switch directories without recording it. The unsafe variant also loads the processor's register. */
    method ChangePageDirFake(pd: nat) returns (ok: bool)
      modifies `pageDir
      ensures ok <==> VirtToPhysical(mem, old(pageDir), hhdmOffset, mmTotal, Pointer(pd)) != 0
      ensures pageDir == if ok then pd else old(pageDir)
    {
      var target := TranslateAddress(Pointer(pd));
      if target == 0 {
        return false;
      }
      pageDir := pd;
      return true;
    }
  }

  /** Switching to a directory held in an existing page other than page 0 never panics. */
  lemma PointerTranslates(mem: Memory, root: nat, hhdmOffset: nat, mmTotal: nat, pd: nat)
    requires pd * 0x1000 <= mmTotal
    ensures VirtToPhysical(mem, root, hhdmOffset, mmTotal, hhdmOffset + pd * 0x1000) == pd * 0x1000
  {
  }
}
