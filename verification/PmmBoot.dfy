/** The bitmap that InitializePMM builds from the boot loader's memory map. */
module PmmBoot {
  import opened PmmModel

  /** A memory-map entry; only usable ones are handed to the allocator. Limine aligns usable entries to pages. */
  datatype MemEntry = MemEntry(base: nat, length: nat, usable: bool)

  function BitmapSize(mmTotal: nat): nat { mmTotal / PAGE_SIZE / 8 + 1 }

  /** Number of whole pages of memory. Bitmap bits above this page are slack: they stand for no memory. */
  function LastPage(mmTotal: nat): nat { mmTotal / PAGE_SIZE }

  /** Entry `k` is the usable entry that the search for bitmap storage settles on: the first of greatest length. */
  ghost predicate IsLargest(entries: seq<MemEntry>, k: nat)
  {
    && k < |entries| && entries[k].usable && entries[k].length > 0
    && (forall j :: 0 <= j < |entries| && entries[j].usable ==> entries[j].length <= entries[k].length)
    && (forall j :: 0 <= j < k && entries[j].usable ==> entries[j].length < entries[k].length)
  }

  /** What the memory map must satisfy for initialization to stay inside the bitmap. */
  ghost predicate MapFits(entries: seq<MemEntry>, mmTotal: nat)
  {
    var pages := 8 * BitmapSize(mmTotal);
    && 16 <= pages
    && (forall e :: e in entries && e.usable ==> e.base / PAGE_SIZE + e.length / PAGE_SIZE <= pages)
    && (forall k: nat :: IsLargest(entries, k) ==>
          entries[k].base / PAGE_SIZE + BitmapSize(mmTotal) / PAGE_SIZE + 1 <= pages)
  }

  /** The unreserve loop over the first `k` entries. */
  function UnreserveEntries(m: Mem, entries: seq<MemEntry>, k: nat): (m': Mem)
    requires k <= |entries|
    requires forall e :: e in entries && e.usable ==> e.base / PAGE_SIZE + e.length / PAGE_SIZE <= |m.bits|
    ensures |m'.bits| == |m.bits|
  {
    if k == 0 then m else
      var before := UnreserveEntries(m, entries, k - 1);
      var e := entries[k - 1];
      if e.usable then ApplyRange(Unreserve, before, e.base / PAGE_SIZE, e.length / PAGE_SIZE) else before
  }

  function EmptyMem(mmTotal: nat): Mem
  {
    Mem(seq(8 * BitmapSize(mmTotal), i => false), 0, mmTotal, 0, 0)
  }

  /** The state InitializePMM leaves behind when the bitmap is stored at address `storage`. */
  function BootMem(entries: seq<MemEntry>, mmTotal: nat, storage: nat): (m: Mem)
    requires MapFits(entries, mmTotal)
    requires storage / PAGE_SIZE + BitmapSize(mmTotal) / PAGE_SIZE + 1 <= 8 * BitmapSize(mmTotal)
    ensures |m.bits| == 8 * BitmapSize(mmTotal)
  {
    var blocked := ApplyRange(Reserve, EmptyMem(mmTotal), 0, LastPage(mmTotal) + 1);
    var unreserved := UnreserveEntries(blocked, entries, |entries|);
    var lowReserved := ApplyRange(Reserve, unreserved, 0, 0x10);
    ApplyRange(Lock, lowReserved, storage / PAGE_SIZE, BitmapSize(mmTotal) / PAGE_SIZE + 1)
  }

  /** The whole page lies inside the entry's byte range. */
  predicate PageInEntry(e: MemEntry, page: nat)
  {
    e.base <= PAGE_SIZE * page && PAGE_SIZE * (page + 1) <= e.base + e.length
  }

  /** The page holds some byte of the bitmap, or is the page just after a bitmap that ends on a page boundary. */
  predicate StoragePage(mmTotal: nat, storage: nat, page: nat)
  {
    storage / PAGE_SIZE <= page <= storage / PAGE_SIZE + BitmapSize(mmTotal) / PAGE_SIZE
  }

  /** Every byte of the bitmap is on a storage page. */
  lemma StorageHoldsBitmap(mmTotal: nat, storage: nat, byte: nat)
    requires storage % PAGE_SIZE == 0 && byte < BitmapSize(mmTotal)
    ensures StoragePage(mmTotal, storage, (storage + byte) / PAGE_SIZE)
  {
  }

  lemma {:induction false} UnreserveEntriesBits(m: Mem, entries: seq<MemEntry>, k: nat, total: int)
    requires k <= |entries| && HintOk(m) && Conserved(m, total)
    requires forall e :: e in entries && e.usable ==>
      e.base / PAGE_SIZE + e.length / PAGE_SIZE <= |m.bits| && e.base % PAGE_SIZE == 0
    ensures var m' := UnreserveEntries(m, entries, k);
      && HintOk(m') && Conserved(m', total) && m'.hint <= m.hint && m'.used == m.used
      && forall page :: 0 <= page < |m.bits| ==>
           m'.bits[page] ==
             (m.bits[page] && !exists j :: 0 <= j < k && entries[j].usable && PageInEntry(entries[j], page))
  {
    hide HintOk, Conserved, PageInEntry, ApplyRange;
    if k > 0 {
      UnreserveEntriesBits(m, entries, k - 1, total);
      if entries[k - 1].usable {
        UnreserveOneEntry(UnreserveEntries(m, entries, k - 1), entries[k - 1], total);
      }
    }
  }

  lemma UnreserveOneEntry(m: Mem, e: MemEntry, total: int)
    requires HintOk(m) && Conserved(m, total)
    requires e.base / PAGE_SIZE + e.length / PAGE_SIZE <= |m.bits| && e.base % PAGE_SIZE == 0
    ensures var m' := ApplyRange(Unreserve, m, e.base / PAGE_SIZE, e.length / PAGE_SIZE);
      && HintOk(m') && Conserved(m', total) && m'.hint <= m.hint && m'.used == m.used
      && forall page :: 0 <= page < |m.bits| ==> m'.bits[page] == (m.bits[page] && !PageInEntry(e, page))
  {
    hide ApplyRange, HintOk, Count;
    RangeBits(Unreserve, m, e.base / PAGE_SIZE, e.length / PAGE_SIZE);
    RangeConserves(Unreserve, m, e.base / PAGE_SIZE, e.length / PAGE_SIZE, total);
    RangeCounters(Unreserve, m, e.base / PAGE_SIZE, e.length / PAGE_SIZE);
    forall page | 0 <= page < |m.bits|
      ensures (e.base / PAGE_SIZE <= page < e.base / PAGE_SIZE + e.length / PAGE_SIZE) == PageInEntry(e, page)
    {
    }
  }

  lemma {:induction false} CountNone(bits: seq<bool>)
    requires forall j :: 0 <= j < |bits| ==> !bits[j]
    ensures Count(bits) == 0
  {
    if bits != [] {
      CountNone(bits[..|bits| - 1]);
    }
  }

  /** Everything up to the bitmap's own storage. */
  lemma UnreservedMeaning(entries: seq<MemEntry>, mmTotal: nat)
    requires MapFits(entries, mmTotal)
    requires forall e :: e in entries && e.usable ==> e.base % PAGE_SIZE == 0
    ensures var blocked := ApplyRange(Reserve, EmptyMem(mmTotal), 0, LastPage(mmTotal) + 1);
      var m := UnreserveEntries(blocked, entries, |entries|);
      && HintOk(m) && m.hint == 0 && Conserved(m, mmTotal) && m.used == 0
      && forall page :: 0 <= page < |m.bits| ==>
           (!m.bits[page] <==> page > LastPage(mmTotal) || exists e :: e in entries && e.usable && PageInEntry(e, page))
  {
    var empty := EmptyMem(mmTotal);
    CountNone(empty.bits);
    RangeBits(Reserve, empty, 0, LastPage(mmTotal) + 1);
    RangeConserves(Reserve, empty, 0, LastPage(mmTotal) + 1, mmTotal);
    var blocked := ApplyRange(Reserve, empty, 0, LastPage(mmTotal) + 1);
    RangeCounters(Reserve, empty, 0, LastPage(mmTotal) + 1);
    UnreserveEntriesBits(blocked, entries, |entries|, mmTotal);
  }

  /** After initialization a bit is clear exactly when its page is usable (or slack), not among the first 16 and not
      bitmap storage; the hint is sound and the counters are conserved. */
  lemma BootMeaning(entries: seq<MemEntry>, mmTotal: nat, storage: nat)
    requires MapFits(entries, mmTotal)
    requires storage / PAGE_SIZE + BitmapSize(mmTotal) / PAGE_SIZE + 1 <= 8 * BitmapSize(mmTotal)
    requires forall e :: e in entries && e.usable ==> e.base % PAGE_SIZE == 0
    ensures var m := BootMem(entries, mmTotal, storage);
      && HintOk(m) && m.hint == 0 && Conserved(m, mmTotal)
      && forall page :: 0 <= page < |m.bits| ==>
           (!m.bits[page] <==>
              && (page > LastPage(mmTotal) || exists e :: e in entries && e.usable && PageInEntry(e, page))
              && page >= 0x10
              && !StoragePage(mmTotal, storage, page))
  {
    var blocked := ApplyRange(Reserve, EmptyMem(mmTotal), 0, LastPage(mmTotal) + 1);
    var m := UnreserveEntries(blocked, entries, |entries|);
    UnreservedMeaning(entries, mmTotal);
    RangeBits(Reserve, m, 0, 0x10);
    RangeConserves(Reserve, m, 0, 0x10, mmTotal);
    var low := ApplyRange(Reserve, m, 0, 0x10);
    RangeBits(Lock, low, storage / PAGE_SIZE, BitmapSize(mmTotal) / PAGE_SIZE + 1);
    RangeConserves(Lock, low, storage / PAGE_SIZE, BitmapSize(mmTotal) / PAGE_SIZE + 1, mmTotal);
  }

  /** Occupying pages never lowers the number of occupied ones. */
  lemma {:induction false} LockCounts(m: Mem, start: nat, n: nat)
    requires start + n <= |m.bits|
    ensures Count(ApplyRange(Lock, m, start, n).bits) >= Count(m.bits)
  {
    hide Count;
    if n > 0 {
      LockCounts(m, start, n - 1);
      CountUpdate(ApplyRange(Lock, m, start, n - 1).bits, start + n - 1, true);
    }
  }

  /** After initialization the used bytes are those of the bitmap's own storage that were not reserved anyway, and
      neither they nor the reserved ones are negative. */
  lemma BootCounters(entries: seq<MemEntry>, mmTotal: nat, storage: nat)
    requires MapFits(entries, mmTotal)
    requires storage / PAGE_SIZE + BitmapSize(mmTotal) / PAGE_SIZE + 1 <= 8 * BitmapSize(mmTotal)
    requires forall e :: e in entries && e.usable ==> e.base % PAGE_SIZE == 0
    ensures var m := BootMem(entries, mmTotal, storage); m.used >= 0 && m.reserved >= 0
  {
    hide Count, ApplyRange;
    var blocked := ApplyRange(Reserve, EmptyMem(mmTotal), 0, LastPage(mmTotal) + 1);
    var m := UnreserveEntries(blocked, entries, |entries|);
    UnreservedMeaning(entries, mmTotal);
    RangeConserves(Reserve, m, 0, 0x10, mmTotal);
    RangeCounters(Reserve, m, 0, 0x10);
    var low := ApplyRange(Reserve, m, 0, 0x10);
    LockCounts(low, storage / PAGE_SIZE, BitmapSize(mmTotal) / PAGE_SIZE + 1);
    RangeCounters(Lock, low, storage / PAGE_SIZE, BitmapSize(mmTotal) / PAGE_SIZE + 1);
  }
}
