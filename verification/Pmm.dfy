/** The physical memory manager: bitmap, search hint and 64-bit counters changed in place. */
module Pmm {
  import opened Options
  import opened FirstFit
  import opened PmmModel
  import opened PmmBoot
  import opened Words
  import Bitmap

  /** The page number of the i-th page after an address. */
  lemma PageIndex(addr: nat, i: nat)
    ensures (addr + i * PAGE_SIZE) / PAGE_SIZE == addr / PAGE_SIZE + i
  {
  }

  class PageAllocator {
    var bitmap: Bitmap.PageBitmap
    var freeMemory: nat
    var usedMemory: nat
    var reservedMemory: nat

    // The exact values the three words stand for.
    ghost var free: int
    ghost var used: int
    ghost var reserved: int

    ghost function Repr(): set<object>
      reads this, bitmap
    {
      {this, bitmap, bitmap.buffer}
    }

    ghost predicate Represents()
      reads this, bitmap
    {
      && bitmap.Valid()
      && freeMemory == Wrap(free) && usedMemory == Wrap(used) && reservedMemory == Wrap(reserved)
    }

    ghost function State(): Mem
      reads this, bitmap, bitmap.buffer
      requires Represents()
    {
      Mem(bitmap.Bits(), bitmap.lastDeepFragmented, free, used, reserved)
    }

    /** Holds between operations: the hint skips only occupied pages. */
    ghost predicate Valid()
      reads this, bitmap, bitmap.buffer
    {
      Represents() && HintOk(State())
    }

    /** The zero-initialized globals before InitializePMM. */
    constructor ()
      ensures Represents() && fresh(Repr())
      ensures used == 0 && reserved == 0
    {
      bitmap := new Bitmap.PageBitmap(0);
      freeMemory, usedMemory, reservedMemory := 0, 0, 0;
      free, used, reserved := 0, 0, 0;
    }

    method LockPage(addr: nat)
      requires Represents() && addr / PAGE_SIZE < 8 * bitmap.bitmapSize
      modifies Repr()
      ensures Represents() && Repr() == old(Repr())
      ensures State() == Apply(Lock, old(State()), addr / PAGE_SIZE)
    {
      var index := addr / PAGE_SIZE;
      var occupied := bitmap.Get(index);
      if occupied {
        return;
      }
      bitmap.Set(index, true);
      WrapWrap(free, -PAGE_SIZE);
      WrapWrap(used, PAGE_SIZE);
      freeMemory, free := Wrap(freeMemory - PAGE_SIZE), free - PAGE_SIZE;
      usedMemory, used := Wrap(usedMemory + PAGE_SIZE), used + PAGE_SIZE;
    }

    method FreePage(addr: nat)
      requires Represents() && addr / PAGE_SIZE < 8 * bitmap.bitmapSize
      modifies Repr()
      ensures Represents() && Repr() == old(Repr())
      ensures State() == Apply(Free, old(State()), addr / PAGE_SIZE)
    {
      var index := addr / PAGE_SIZE;
      var occupied := bitmap.Get(index);
      if !occupied {
        return;
      }
      bitmap.Set(index, false);
      WrapWrap(free, PAGE_SIZE);
      WrapWrap(used, -PAGE_SIZE);
      freeMemory, free := Wrap(freeMemory + PAGE_SIZE), free + PAGE_SIZE;
      usedMemory, used := Wrap(usedMemory - PAGE_SIZE), used - PAGE_SIZE;
      if bitmap.lastDeepFragmented > index {
        bitmap.lastDeepFragmented := index;
      }
    }

    method ReservePage(addr: nat)
      requires Represents() && addr / PAGE_SIZE < 8 * bitmap.bitmapSize
      modifies Repr()
      ensures Represents() && Repr() == old(Repr())
      ensures State() == Apply(Reserve, old(State()), addr / PAGE_SIZE)
    {
      var index := addr / PAGE_SIZE;
      var occupied := bitmap.Get(index);
      if occupied {
        return;
      }
      bitmap.Set(index, true);
      WrapWrap(free, -PAGE_SIZE);
      WrapWrap(reserved, PAGE_SIZE);
      freeMemory, free := Wrap(freeMemory - PAGE_SIZE), free - PAGE_SIZE;
      reservedMemory, reserved := Wrap(reservedMemory + PAGE_SIZE), reserved + PAGE_SIZE;
    }

    method UnreservePage(addr: nat)
      requires Represents() && addr / PAGE_SIZE < 8 * bitmap.bitmapSize
      modifies Repr()
      ensures Represents() && Repr() == old(Repr())
      ensures State() == Apply(Unreserve, old(State()), addr / PAGE_SIZE)
    {
      var index := addr / PAGE_SIZE;
      var occupied := bitmap.Get(index);
      if !occupied {
        return;
      }
      bitmap.Set(index, false);
      WrapWrap(free, PAGE_SIZE);
      WrapWrap(reserved, -PAGE_SIZE);
      freeMemory, free := Wrap(freeMemory + PAGE_SIZE), free + PAGE_SIZE;
      reservedMemory, reserved := Wrap(reservedMemory - PAGE_SIZE), reserved - PAGE_SIZE;
      if bitmap.lastDeepFragmented > index {
        bitmap.lastDeepFragmented := index;
      }
    }

    method LockPages(addr: nat, numPages: nat)
      requires Represents() && addr / PAGE_SIZE + numPages <= 8 * bitmap.bitmapSize
      modifies Repr()
      ensures Represents() && Repr() == old(Repr())
      ensures State() == ApplyRange(Lock, old(State()), addr / PAGE_SIZE, numPages)
    {
      hide Apply, Wrap;
      for i := 0 to numPages
        invariant Represents() && Repr() == old(Repr())
        invariant State() == ApplyRange(Lock, old(State()), addr / PAGE_SIZE, i)
      {
        PageIndex(addr, i);
        LockPage(addr + i * PAGE_SIZE);
      }
    }

    method FreePages(addr: nat, numPages: nat)
      requires Represents() && addr / PAGE_SIZE + numPages <= 8 * bitmap.bitmapSize
      modifies Repr()
      ensures Represents() && Repr() == old(Repr())
      ensures State() == ApplyRange(Free, old(State()), addr / PAGE_SIZE, numPages)
    {
      hide Apply, Wrap;
      for i := 0 to numPages
        invariant Represents() && Repr() == old(Repr())
        invariant State() == ApplyRange(Free, old(State()), addr / PAGE_SIZE, i)
      {
        PageIndex(addr, i);
        FreePage(addr + i * PAGE_SIZE);
      }
    }

    method ReservePages(addr: nat, numPages: nat)
      requires Represents() && addr / PAGE_SIZE + numPages <= 8 * bitmap.bitmapSize
      modifies Repr()
      ensures Represents() && Repr() == old(Repr())
      ensures State() == ApplyRange(Reserve, old(State()), addr / PAGE_SIZE, numPages)
    {
      hide Apply, Wrap;
      for i := 0 to numPages
        invariant Represents() && Repr() == old(Repr())
        invariant State() == ApplyRange(Reserve, old(State()), addr / PAGE_SIZE, i)
      {
        PageIndex(addr, i);
        ReservePage(addr + i * PAGE_SIZE);
      }
    }

    method UnreservePages(addr: nat, numPages: nat)
      requires Represents() && addr / PAGE_SIZE + numPages <= 8 * bitmap.bitmapSize
      modifies Repr()
      ensures Represents() && Repr() == old(Repr())
      ensures State() == ApplyRange(Unreserve, old(State()), addr / PAGE_SIZE, numPages)
    {
      hide Apply, Wrap;
      for i := 0 to numPages
        invariant Represents() && Repr() == old(Repr())
        invariant State() == ApplyRange(Unreserve, old(State()), addr / PAGE_SIZE, i)
      {
        PageIndex(addr, i);
        UnreservePage(addr + i * PAGE_SIZE);
      }
    }

    /** Starting at the hint, the search still answers for the whole bitmap: the lowest free run, or none. */
    method FindFreeRegion(numPages: nat) returns (region: Option<nat>)
      requires Valid()
      modifies bitmap`lastDeepFragmented
      ensures Represents() && Repr() == old(Repr())
      ensures (region, State()) == FindFree(old(State()), numPages)
    {
      var currentRegionStart: nat := bitmap.lastDeepFragmented;
      var currentRegionSize: nat := 0;
      ghost var bits := bitmap.Bits();
      ghost var need := if numPages == 0 then 1 else numPages;
      ScanFrom(bits, currentRegionStart, need);
      for i := currentRegionStart to bitmap.bitmapSize * 8
        invariant bitmap.lastDeepFragmented == old(bitmap.lastDeepFragmented)
        invariant Scanned(bits, i, currentRegionStart, currentRegionSize, need)
      {
        var occupied := bitmap.Get(i);
        if occupied {
          ScanOccupied(bits, i, currentRegionStart, currentRegionSize, need);
          currentRegionSize := 0;
          currentRegionStart := i + 1;
        } else {
          ScanFree(bits, i, currentRegionStart, currentRegionSize, need);
          if numPages == 1 {
            bitmap.lastDeepFragmented := currentRegionStart + 1;
          }
          currentRegionSize := currentRegionSize + 1;
          if currentRegionSize >= numPages {
            return Some(currentRegionStart);
          }
        }
      }
      ScanEnd(bits, currentRegionStart, currentRegionSize, need);
      return None;
    }

    /** None stands for the panic that halts the kernel; NULL is address 0. */
    method AllocatePages(numPages: nat) returns (addr: Option<nat>)
      requires Valid()
      modifies Repr()
      ensures Represents() && Repr() == old(Repr())
      ensures numPages == 0 ==> addr == Some(0) && State() == old(State())
      ensures numPages > 0 ==>
        match Allocate(old(State()), numPages)
        case Panic => addr == None && State() == old(State())
        case Allocated(start, after) => addr == Some(start * PAGE_SIZE) && State() == after
      ensures Valid()
    {
      if numPages == 0 {
        return Some(0);
      }
      var region := FindFreeRegion(numPages);
      AllocateEffect(old(State()), numPages);
      if region == None {
        return None;
      }
      LockPages(region.value * PAGE_SIZE, numPages);
      return Some(region.value * PAGE_SIZE);
    }

    method AllocatePage() returns (addr: Option<nat>)
      requires Valid()
      modifies Repr()
      ensures Represents() && Repr() == old(Repr())
      ensures match Allocate(old(State()), 1)
        case Panic => addr == None && State() == old(State())
        case Allocated(start, after) => addr == Some(start * PAGE_SIZE) && State() == after
      ensures Valid()
    {
      var region := FindFreeRegion(1);
      AllocateEffect(old(State()), 1);
      if region == None {
        return None;
      }
      ghost var found := State();
      LockPage(region.value * PAGE_SIZE);
      assert ApplyRange(Lock, found, region.value, 0) == found;
      return Some(region.value * PAGE_SIZE);
    }

    /** False is the panic: no usable entry, or the largest one starts at address 0. */
    method InitializePMM(entries: seq<MemEntry>, mmTotal: nat) returns (ok: bool)
      requires Represents() && used == 0 && reserved == 0
      requires MapFits(entries, mmTotal)
      modifies this
      ensures Represents()
      ensures ok <==> exists k: nat :: IsLargest(entries, k) && entries[k].base != 0
      ensures ok ==> fresh(Repr() - {this})
      ensures ok ==> exists k: nat :: IsLargest(entries, k) && State() == BootMem(entries, mmTotal, entries[k].base)
    {
      var largestMemSeg, k := FindLargest(entries);
      if largestMemSeg == 0 {
        return false;
      }
      BuildBitmap(entries, mmTotal, largestMemSeg);
      return true;
    }

    method BuildBitmap(entries: seq<MemEntry>, mmTotal: nat, storage: nat)
      requires Represents() && used == 0 && reserved == 0
      requires MapFits(entries, mmTotal)
      requires storage / PAGE_SIZE + BitmapSize(mmTotal) / PAGE_SIZE + 1 <= 8 * BitmapSize(mmTotal)
      modifies this
      ensures Represents() && fresh(Repr() - {this})
      ensures State() == BootMem(entries, mmTotal, storage)
    {
      hide Wrap, BootMem, MapFits;
      freeMemory, free := Wrap(mmTotal), mmTotal;
      bitmap := new Bitmap.PageBitmap(mmTotal / PAGE_SIZE / 8 + 1);
      assert State() == EmptyMem(mmTotal);
      MarkPages(entries, mmTotal, storage);
    }

    /** The scan for bitmap storage; address 0 when there is no usable entry. */
    method FindLargest(entries: seq<MemEntry>) returns (largestMemSeg: nat, ghost k: nat)
      ensures largestMemSeg != 0 ==> IsLargest(entries, k) && entries[k].base == largestMemSeg
      ensures largestMemSeg == 0 ==> forall j: nat :: IsLargest(entries, j) ==> entries[j].base == 0
      ensures largestMemSeg != 0 ==> forall j :: 0 <= j < |entries| && entries[j].usable ==>
        entries[j].length < entries[k].length || (entries[j].length == entries[k].length && k <= j)
    {
      largestMemSeg, k := 0, 0;
      var largestMemSegSize := 0;
      for i := 0 to |entries|
        invariant forall j :: 0 <= j < i && entries[j].usable ==> entries[j].length <= largestMemSegSize
        invariant largestMemSegSize == 0 ==> largestMemSeg == 0
        invariant largestMemSegSize > 0 ==>
          && k < i && entries[k] == MemEntry(largestMemSeg, largestMemSegSize, true)
          && forall j :: 0 <= j < k && entries[j].usable ==> entries[j].length < largestMemSegSize
      {
        if entries[i].usable {
          if entries[i].length > largestMemSegSize {
            largestMemSeg := entries[i].base;
            largestMemSegSize := entries[i].length;
            k := i;
          }
        }
      }
      forall j: nat | IsLargest(entries, j)
        ensures entries[j].base == largestMemSeg
      {
        assert j == k;
      }
    }

    /** Reserve everything, unreserve what is usable, take back the first 16 pages and the bitmap's own pages. */
    method MarkPages(entries: seq<MemEntry>, mmTotal: nat, storage: nat)
      requires Represents() && State() == EmptyMem(mmTotal) && MapFits(entries, mmTotal)
      requires storage / PAGE_SIZE + BitmapSize(mmTotal) / PAGE_SIZE + 1 <= 8 * BitmapSize(mmTotal)
      modifies Repr()
      ensures Represents() && Repr() == old(Repr())
      ensures State() == BootMem(entries, mmTotal, storage)
    {
      hide Wrap, ApplyRange, UnreserveEntries;
      ReservePages(0, mmTotal / PAGE_SIZE + 1);
      UnreserveUsable(entries);
      ReservePages(0, 0x10);
      LockPages(storage, bitmap.bitmapSize / PAGE_SIZE + 1);
    }

    method UnreserveUsable(entries: seq<MemEntry>)
      requires Represents()
      requires forall e :: e in entries && e.usable ==>
        e.base / PAGE_SIZE + e.length / PAGE_SIZE <= 8 * bitmap.bitmapSize
      modifies Repr()
      ensures Represents() && Repr() == old(Repr())
      ensures State() == UnreserveEntries(old(State()), entries, |entries|)
    {
      for i := 0 to |entries|
        invariant Represents() && Repr() == old(Repr())
        invariant |State().bits| == |old(State()).bits|
        invariant State() == UnreserveEntries(old(State()), entries, i)
      {
        var entry := entries[i];
        if entry.usable {
          UnreservePages(entry.base, entry.length / PAGE_SIZE);
        }
      }
    }
  }
}
