/** Whole runs of the page allocator: who owns which pages after any sequence of allocations and frees. */
module PmmRuns {
  import opened Options
  import opened FirstFit
  import opened PmmModel
  import opened PmmBoot
  import opened Words

  datatype Region = Region(start: nat, n: nat)

  /** An owner allocates pages or gives back one of its regions; asking for 0 pages yields NULL and changes nothing. */
  datatype Op = Alloc(n: nat) | Release(k: nat)

  datatype System = Halted | Up(mem: Mem, live: seq<Region>)

  ghost predicate InRange(r: Region, m: Mem)
  {
    r.start + r.n <= |m.bits|
  }

  ghost predicate Has(r: Region, page: nat)
  {
    r.start <= page < r.start + r.n
  }

  ghost predicate Held(live: seq<Region>, page: nat)
  {
    exists k :: 0 <= k < |live| && Has(live[k], page)
  }

  ghost function Step(s: System, op: Op): System
  {
    match s
    case Halted => Halted
    case Up(m, live) =>
      match op
      case Alloc(n) =>
        if n == 0 then s else
          (match Allocate(m, n)
           case Panic => Halted
           case Allocated(start, m') => Up(m', live + [Region(start, n)]))
      case Release(k) =>
        if k < |live| && InRange(live[k], m)
        then Up(ApplyRange(Free, m, live[k].start, live[k].n), live[..k] + live[k + 1..])
        else s
  }

  ghost function Run(s: System, ops: seq<Op>): System
  {
    if ops == [] then s else Step(Run(s, ops[..|ops| - 1]), ops[|ops| - 1])
  }

  function Pages(live: seq<Region>): nat
  {
    if live == [] then 0 else Pages(live[..|live| - 1]) + live[|live| - 1].n
  }

  /** Two live regions share no page. */
  ghost predicate Disjoint(live: seq<Region>)
  {
    forall i, j :: 0 <= i < j < |live| ==>
      live[i].start + live[i].n <= live[j].start || live[j].start + live[j].n <= live[i].start
  }

  /** The allocator invariant relative to the state `boot` in which nobody owned anything. */
  ghost predicate Safe(boot: Mem, s: System)
  {
    s.Up? ==>
      && HintOk(s.mem) && |s.mem.bits| == |boot.bits|
      && (forall k :: 0 <= k < |s.live| ==> s.live[k].n > 0 && InRange(s.live[k], s.mem))
      && Disjoint(s.live)
      && (forall page :: 0 <= page < |boot.bits| ==> !(boot.bits[page] && Held(s.live, page)))
      && (forall page :: 0 <= page < |boot.bits| ==> s.mem.bits[page] == (boot.bits[page] || Held(s.live, page)))
      && s.mem.used == boot.used + PAGE_SIZE * Pages(s.live)
      && s.mem.reserved == boot.reserved
      && s.mem.free == boot.free - PAGE_SIZE * Pages(s.live)
  }

  /** A range in which every page changes state changes the count by its length. */
  lemma {:induction false} RangeCount(op: PageOp, m: Mem, start: nat, n: nat)
    requires start + n <= |m.bits|
    requires forall j :: start <= j < start + n ==> m.bits[j] != Occupies(op)
    ensures Occupies(op) ==> Count(ApplyRange(op, m, start, n).bits) == Count(m.bits) + n
    ensures !Occupies(op) ==> Count(ApplyRange(op, m, start, n).bits) == Count(m.bits) - n
  {
    hide Count, Apply;
    if n > 0 {
      var mid := ApplyRange(op, m, start, n - 1);
      RangeCount(op, m, start, n - 1);
      assert mid.bits[start + n - 1] == m.bits[start + n - 1] by {
        RangeBits(op, m, start, n - 1);
      }
      ApplyCount(op, mid, start + n - 1);
    }
  }

  lemma ApplyCount(op: PageOp, m: Mem, index: nat)
    requires index < |m.bits| && m.bits[index] != Occupies(op)
    ensures Count(Apply(op, m, index).bits) == Count(m.bits) + if Occupies(op) then 1 else -1
  {
    hide Count;
    CountUpdate(m.bits, index, Occupies(op));
  }

  lemma HeldAppend(live: seq<Region>, r: Region, page: nat)
    ensures Held(live + [r], page) == (Held(live, page) || Has(r, page))
  {
    if Held(live, page) {
      var k :| 0 <= k < |live| && Has(live[k], page);
      assert Has((live + [r])[k], page);
    }
    if Has(r, page) {
      assert Has((live + [r])[|live|], page);
    }
  }

  lemma HeldRemove(live: seq<Region>, k: nat, page: nat)
    requires k < |live| && Disjoint(live)
    ensures Held(live[..k] + live[k + 1..], page) == (Held(live, page) && !Has(live[k], page))
  {
    var rest := live[..k] + live[k + 1..];
    forall j | 0 <= j < |live| && j != k && Has(live[j], page)
      ensures Held(rest, page)
    {
      assert Has(rest[if j < k then j else j - 1], page);
    }
    if Held(rest, page) {
      var i :| 0 <= i < |rest| && Has(rest[i], page);
      assert Has(live[if i < k then i else i + 1], page);
    }
  }

  lemma {:induction false} PagesRemove(live: seq<Region>, k: nat)
    requires k < |live|
    ensures Pages(live[..k] + live[k + 1..]) == Pages(live) - live[k].n
  {
    var last := |live| - 1;
    if k == last {
      assert live[..k] + live[k + 1..] == live[..last];
    } else {
      assert (live[..k] + live[k + 1..])[..last - 1] == live[..last][..k] + live[..last][k + 1..];
      PagesRemove(live[..last], k);
    }
  }

  /** A run of free pages meets no live region. */
  lemma FreeRunApart(boot: Mem, s: System, start: nat, n: nat)
    requires Safe(boot, s) && s.Up? && FreeRun(s.mem.bits, start, n) && n > 0
    ensures forall k :: 0 <= k < |s.live| ==>
      s.live[k].start + s.live[k].n <= start || start + n <= s.live[k].start
    ensures forall page :: start <= page < start + n ==> !boot.bits[page]
  {
    forall k | 0 <= k < |s.live|
      ensures s.live[k].start + s.live[k].n <= start || start + n <= s.live[k].start
    {
      var r := s.live[k];
      assert InRange(r, s.mem);
      var page := if start <= r.start then r.start else start;
      if Has(r, page) {
        assert Held(s.live, page) && s.mem.bits[page];
      }
    }
  }

  /** Allocating sets exactly the pages of the new region. */
  lemma AllocBits(boot: Mem, s: System, n: nat)
    requires Safe(boot, s) && s.Up? && n > 0
    ensures match Allocate(s.mem, n)
      case Panic => true
      case Allocated(start, m') =>
        && FreeRun(s.mem.bits, start, n) && HintOk(m') && |m'.bits| == |s.mem.bits|
        && Charged(Lock, s.mem, m') && Count(m'.bits) == Count(s.mem.bits) + n
        && forall page :: 0 <= page < |boot.bits| ==>
             m'.bits[page] == (boot.bits[page] || Held(s.live + [Region(start, n)], page))
  {
    AllocateEffect(s.mem, n);
    var (r, found) := FindFree(s.mem, n);
    if r.Some? {
      var grant := Region(r.value, n);
      RangeCount(Lock, found, r.value, n);
      forall page | 0 <= page < |boot.bits|
        ensures Held(s.live + [grant], page) == (Held(s.live, page) || Has(grant, page))
      {
        HeldAppend(s.live, grant, page);
      }
    }
  }

  lemma AllocSafe(boot: Mem, s: System, n: nat)
    requires Safe(boot, s) && s.Up? && n > 0
    ensures Safe(boot, Step(s, Alloc(n)))
  {
    hide FindFree, Count, HintOk, Allocate, FreeRun;
    AllocBits(boot, s, n);
    if Allocate(s.mem, n).Allocated? {
      var grant := Region(Allocate(s.mem, n).start, n);
      FreeRunApart(boot, s, grant.start, n);
      assert (s.live + [grant])[..|s.live|] == s.live;
      forall page | 0 <= page < |boot.bits|
        ensures !(boot.bits[page] && Held(s.live + [grant], page))
      {
        HeldAppend(s.live, grant, page);
      }
    }
  }

  lemma DisjointRemove(live: seq<Region>, k: nat)
    requires k < |live| && Disjoint(live)
    ensures Disjoint(live[..k] + live[k + 1..])
  {
  }

  /** Releasing a region clears exactly its pages. */
  lemma ReleaseBits(boot: Mem, s: System, k: nat)
    requires Safe(boot, s) && s.Up? && k < |s.live|
    ensures var m' := ApplyRange(Free, s.mem, s.live[k].start, s.live[k].n);
      && Charged(Free, s.mem, m') && Count(m'.bits) == Count(s.mem.bits) - s.live[k].n
      && HintOk(m')
      && forall page :: 0 <= page < |boot.bits| ==>
           m'.bits[page] == (boot.bits[page] || Held(s.live[..k] + s.live[k + 1..], page))
  {
    var m, live, r := s.mem, s.live, s.live[k];
    forall j | r.start <= j < r.start + r.n
      ensures m.bits[j] && !boot.bits[j]
    {
      assert Has(live[k], j) && Held(live, j);
    }
    RangeBits(Free, m, r.start, r.n);
    RangeCount(Free, m, r.start, r.n);
    RangeCounters(Free, m, r.start, r.n);
    forall page | 0 <= page < |boot.bits|
      ensures Held(live[..k] + live[k + 1..], page) == (Held(live, page) && !Has(r, page))
    {
      HeldRemove(live, k, page);
    }
  }

  lemma ReleaseSafe(boot: Mem, s: System, k: nat)
    requires Safe(boot, s) && s.Up? && k < |s.live|
    ensures Safe(boot, Step(s, Release(k)))
  {
    hide ApplyRange, Count, HintOk;
    ReleaseBits(boot, s, k);
    PagesRemove(s.live, k);
    DisjointRemove(s.live, k);
    forall page | 0 <= page < |boot.bits|
      ensures !(boot.bits[page] && Held(s.live[..k] + s.live[k + 1..], page))
    {
      HeldRemove(s.live, k, page);
    }
  }

  /** Over every run, live regions are disjoint, inside the bitmap and clear of everything occupied at boot; the
      bitmap is exactly boot plus live; the counters say so too. */
  lemma {:induction false} RunsAreSafe(boot: Mem, ops: seq<Op>)
    requires HintOk(boot)
    ensures Safe(boot, Run(Up(boot, []), ops))
  {
    if ops != [] {
      var before := Run(Up(boot, []), ops[..|ops| - 1]);
      RunsAreSafe(boot, ops[..|ops| - 1]);
      if before.Up? {
        match ops[|ops| - 1]
        case Alloc(n) =>
          if n > 0 { AllocSafe(boot, before, n); }
        case Release(k) =>
          if k < |before.live| { ReleaseSafe(boot, before, k); }
      }
    }
  }

  ghost predicate FreeAtBoot(boot: Mem, page: nat)
  {
    page < |boot.bits| && !boot.bits[page]
  }

  /** Live regions overlap neither one another nor anything occupied at boot. */
  ghost predicate Exclusive(boot: Mem, live: seq<Region>)
  {
    && Disjoint(live)
    && forall k, page: nat :: 0 <= k < |live| && Has(live[k], page) ==> FreeAtBoot(boot, page)
  }

  lemma SafeIsExclusive(boot: Mem, s: System)
    requires Safe(boot, s) && s.Up?
    ensures Exclusive(boot, s.live)
  {
    forall k, page: nat | 0 <= k < |s.live| && Has(s.live[k], page)
      ensures FreeAtBoot(boot, page)
    {
      assert InRange(s.live[k], s.mem);
      assert Held(s.live, page);
    }
  }

  /** Once every region is given back, the bitmap and all three counters are those of boot. */
  lemma AllReleasedRestoresBoot(boot: Mem, ops: seq<Op>)
    requires HintOk(boot)
    ensures var s := Run(Up(boot, []), ops);
      s.Up? && s.live == [] ==> s.mem == boot.(hint := s.mem.hint)
  {
    RunsAreSafe(boot, ops);
    var s := Run(Up(boot, []), ops);
    if s.Up? && s.live == [] {
      assert s.mem.bits == boot.bits;
    }
  }

  /** After the real boot no live region ever holds one of the first 16 pages, a page storing a byte of the bitmap, or a
      page of memory that does not lie, with all its 4 KiB, inside a usable entry. */
  lemma LiveRegionsAreUsable(entries: seq<MemEntry>, mmTotal: nat, storage: nat, ops: seq<Op>, k: nat, page: nat,
                             byte: nat)
    requires MapFits(entries, mmTotal)
    requires storage / PAGE_SIZE + BitmapSize(mmTotal) / PAGE_SIZE + 1 <= 8 * BitmapSize(mmTotal)
    requires forall e :: e in entries && e.usable ==> e.base % PAGE_SIZE == 0
    ensures var s := Run(Up(BootMem(entries, mmTotal, storage), []), ops);
      s.Up? && k < |s.live| && Has(s.live[k], page) ==>
        && page >= 16
        && (storage % 0x1000 == 0 && byte <= mmTotal / 0x1000 / 8 ==> page != (storage + byte) / 0x1000)
        && (page * 0x1000 <= mmTotal ==>
              exists e :: e in entries && e.usable && e.base <= page * 0x1000
                          && page * 0x1000 + 0x1000 <= e.base + e.length)
  {
    var boot := BootMem(entries, mmTotal, storage);
    BootMeaning(entries, mmTotal, storage);
    RunsAreSafe(boot, ops);
    var s := Run(Up(boot, []), ops);
    if s.Up? && k < |s.live| && Has(s.live[k], page) {
      SafeIsExclusive(boot, s);
      assert FreeAtBoot(boot, page);
      hide BootMem, Run;
      if storage % 0x1000 == 0 && byte <= mmTotal / 0x1000 / 8 {
        StorageHoldsBitmap(mmTotal, storage, byte);
      }
      if page * 0x1000 <= mmTotal {
        InExistingPage(page, mmTotal);
        var e :| e in entries && e.usable && PageInEntry(e, page);
      }
    }
  }

  lemma InExistingPage(page: nat, mmTotal: nat)
    requires page * 0x1000 <= mmTotal
    ensures page <= LastPage(mmTotal)
  {
  }

  // ----- what each operation is for -----

  /** While there is a run of `n` free pages an allocation goes on, and its owner gets the lowest one. */
  lemma AllocGoesOn(m: Mem, live: seq<Region>, n: nat, start: nat)
    requires n > 0 && HintOk(m) && IsFirstFit(m.bits, n, Some(start))
    ensures var s' := Step(Up(m, live), Alloc(n));
      && s'.Up? && s'.live == live + [Region(start, n)]
      && |s'.mem.bits| == |m.bits|
      && forall page :: 0 <= page < |m.bits| ==>
           s'.mem.bits[page] == (m.bits[page] || start <= page < start + n)
  {
    AllocateEffect(m, n);
    LowestRunUnique(m.bits, n, Some(start));
  }

  /** Giving a region back frees its pages, no others, and takes it from its owner. */
  lemma ReleaseFrees(boot: Mem, s: System, k: nat)
    requires Safe(boot, s) && s.Up? && k < |s.live|
    ensures var s' := Step(s, Release(k));
      && s'.Up? && s'.live == s.live[..k] + s.live[k + 1..] && |s'.mem.bits| == |s.mem.bits|
      && forall page :: 0 <= page < |s.mem.bits| ==>
           s'.mem.bits[page] == (s.mem.bits[page] && !(s.live[k].start <= page < s.live[k].start + s.live[k].n))
  {
    assert InRange(s.live[k], s.mem);
    RangeBits(Free, s.mem, s.live[k].start, s.live[k].n);
  }

  // ----- the counter words -----

  /** Every run keeps the counters conserved. */
  lemma {:induction false} RunsConserve(boot: Mem, ops: seq<Op>, total: int)
    requires HintOk(boot) && Conserved(boot, total)
    ensures var s := Run(Up(boot, []), ops); s.Up? ==> Conserved(s.mem, total)
  {
    hide ApplyRange, Conserved, Safe, HintOk;
    if ops != [] {
      var before, op := Run(Up(boot, []), ops[..|ops| - 1]), ops[|ops| - 1];
      RunsConserve(boot, ops[..|ops| - 1], total);
      if before.Up? {
        match op
        case Alloc(n) =>
          var (r, found) := FindFree(before.mem, if n > 0 then n else 1);
          HintFree(before.mem, found, total);
          if n > 0 && r.Some? {
            RangeConserves(Lock, found, r.value, n, total);
          }
        case Release(k) =>
          if k < |before.live| && InRange(before.live[k], before.mem) {
            RangeConserves(Free, before.mem, before.live[k].start, before.live[k].n, total);
          }
      }
    }
  }

  lemma HintFree(m: Mem, found: Mem, total: int)
    requires found == m.(hint := found.hint)
    ensures Conserved(m, total) ==> Conserved(found, total)
  {
  }

  lemma WrapSmall(x: int)
    ensures 0 <= x < 0x1_0000_0000_0000_0000 <==> Wrap(x) == x
    ensures -0x1_0000_0000_0000_0000 <= x < 0 ==> Wrap(x) == x + 0x1_0000_0000_0000_0000
  {
    WrapIsMod(x);
  }

  /** In every run after boot the used and reserved words hold the exact byte counts, and the free word does so if and
      only if the occupied pages, counted in full, come to at most the memory there is. Otherwise it is the exact value
      plus 2^64. */
  lemma CounterWords(entries: seq<MemEntry>, mmTotal: nat, storage: nat, ops: seq<Op>)
    requires MapFits(entries, mmTotal) && mmTotal + 0x8000 < 0x1_0000_0000_0000_0000
    requires storage / PAGE_SIZE + BitmapSize(mmTotal) / PAGE_SIZE + 1 <= 8 * BitmapSize(mmTotal)
    requires forall e :: e in entries && e.usable ==> e.base % PAGE_SIZE == 0
    ensures var s := Run(Up(BootMem(entries, mmTotal, storage), []), ops);
      s.Up? ==>
        && s.mem.free == mmTotal - PAGE_SIZE * Count(s.mem.bits)
        && Wrap(s.mem.used) == s.mem.used && Wrap(s.mem.reserved) == s.mem.reserved
        && (Wrap(s.mem.free) == s.mem.free <==> PAGE_SIZE * Count(s.mem.bits) <= mmTotal)
        && (PAGE_SIZE * Count(s.mem.bits) > mmTotal ==> Wrap(s.mem.free) == s.mem.free + 0x1_0000_0000_0000_0000)
  {
    hide Count, Wrap, BootMem, Run;
    var boot := BootMem(entries, mmTotal, storage);
    var s := Run(Up(boot, []), ops);
    BootMeaning(entries, mmTotal, storage);
    BootCounters(entries, mmTotal, storage);
    RunsAreSafe(boot, ops);
    RunsConserve(boot, ops, mmTotal);
    if s.Up? {
      WrapSmall(s.mem.used);
      WrapSmall(s.mem.reserved);
      WrapSmall(s.mem.free);
    }
  }

  // ----- slack bits -----

  /** Every live region stands for memory that exists. */
  ghost predicate InMemory(s: System, mmTotal: nat)
  {
    s.Up? ==> forall k :: 0 <= k < |s.live| ==> s.live[k].start + s.live[k].n <= LastPage(mmTotal)
  }

  lemma StepExtends(s: System, ops: seq<Op>, op: Op)
    ensures Run(s, ops + [op]) == Step(Run(s, ops), op)
  {
    assert (ops + [op])[..|ops|] == ops;
  }

  /** While a slack bit is clear, allocating page after page ends with one that stands for no memory. */
  lemma {:induction false} DrainToSlack(boot: Mem, mmTotal: nat, ops: seq<Op>) returns (more: seq<Op>)
    requires HintOk(boot)
    requires var s := Run(Up(boot, []), ops);
      s.Up? && LastPage(mmTotal) + 1 < |s.mem.bits| && !s.mem.bits[LastPage(mmTotal) + 1]
    ensures !InMemory(Run(Up(boot, []), more), mmTotal)
    decreases var s := Run(Up(boot, []), ops); |s.mem.bits| - Count(s.mem.bits)
  {
    hide Count, ApplyRange;
    var s := Run(Up(boot, []), ops);
    RunsAreSafe(boot, ops);
    AllocateEffect(s.mem, 1);
    assert FreeRun(s.mem.bits, LastPage(mmTotal) + 1, 1);
    StepExtends(Up(boot, []), ops, Alloc(1));
    more := ops + [Alloc(1)];
    var (r, found) := FindFree(s.mem, 1);
    RangeCount(Lock, found, r.value, 1);
    var s' := Run(Up(boot, []), more);
    if r.value <= LastPage(mmTotal) {
      more := DrainToSlack(boot, mmTotal, more);
    } else {
      assert s'.live[|s.live|].start > LastPage(mmTotal);
    }
  }

  lemma RegionAvoids(boot: Mem, s: System, k: nat, page: nat)
    requires Safe(boot, s) && s.Up? && k < |s.live| && page < |boot.bits| && boot.bits[page]
    ensures !Has(s.live[k], page)
  {
    if Has(s.live[k], page) {
      assert Held(s.live, page);
    }
  }

  /** Every allocation of every run stays inside memory if and only if the number of the last page is 7 modulo 8,
      so that the bitmap's last byte has no bit to spare. */
  lemma SlackExactly(entries: seq<MemEntry>, mmTotal: nat, storage: nat)
    requires MapFits(entries, mmTotal) && LastPage(mmTotal) >= 0x10
    requires storage % PAGE_SIZE == 0 && storage + BitmapSize(mmTotal) <= PAGE_SIZE * LastPage(mmTotal)
    requires forall e :: e in entries && e.usable ==>
      e.base % PAGE_SIZE == 0 && e.base + e.length <= PAGE_SIZE * LastPage(mmTotal)
    ensures (forall ops :: InMemory(Run(Up(BootMem(entries, mmTotal, storage), []), ops), mmTotal))
       <==> mmTotal / 0x1000 % 8 == 7
  {
    var boot := BootMem(entries, mmTotal, storage);
    var last := LastPage(mmTotal);
    BootMeaning(entries, mmTotal, storage);
    assert boot.bits[last];
    if last % 8 == 7 {
      forall ops
        ensures InMemory(Run(Up(boot, []), ops), mmTotal)
      {
        RunsAreSafe(boot, ops);
        var s := Run(Up(boot, []), ops);
        if s.Up? {
          forall k | 0 <= k < |s.live|
            ensures s.live[k].start + s.live[k].n <= last
          {
            assert InRange(s.live[k], s.mem);
            RegionAvoids(boot, s, k, last);
          }
        }
      }
    } else {
      assert !boot.bits[last + 1];
      var ops := DrainToSlack(boot, mmTotal, []);
    }
  }
}
