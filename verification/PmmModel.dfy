/** The physical memory manager on values: what one page operation does to bitmap, hint and counters. */
module PmmModel {
  import opened Options
  import opened FirstFit

  const PAGE_SIZE: int := 0x1000

  /** Bitmap, search hint and the three byte counters. The counters are exact here; the kernel keeps them modulo
      2^64 (see Pmm), where the free counter passes through negative values while the memory map is set up. */
  datatype Mem = Mem(bits: seq<bool>, hint: nat, free: int, used: int, reserved: int)

  datatype PageOp = Lock | Free | Reserve | Unreserve

  /** Lock and Reserve occupy a page, Free and Unreserve release it. */
  predicate Occupies(op: PageOp)
  {
    op == Lock || op == Reserve
  }

  /** Lock and Free charge the page to the used counter, Reserve and Unreserve to the reserved one. */
  predicate ChargesUsed(op: PageOp)
  {
    op == Lock || op == Free
  }

  /** `m` after `pages` more pages became occupied (fewer when negative) on behalf of `op`. */
  function Charge(op: PageOp, m: Mem, pages: int): Mem
  {
    var bytes := PAGE_SIZE * pages;
    if ChargesUsed(op) then m.(free := m.free - bytes, used := m.used + bytes)
    else m.(free := m.free - bytes, reserved := m.reserved + bytes)
  }

  /** One of the four page operations on page `index`; a page already in the wanted state is left alone. */
  function Apply(op: PageOp, m: Mem, index: nat): Mem
    requires index < |m.bits|
  {
    if m.bits[index] == Occupies(op) then m
    else if Occupies(op) then Charge(op, m, 1).(bits := m.bits[index := true])
    else Charge(op, m, -1).(bits := m.bits[index := false], hint := if m.hint > index then index else m.hint)
  }

  /** The operation on pages `start .. start + n`, lowest first. */
  function ApplyRange(op: PageOp, m: Mem, start: nat, n: nat): (m': Mem)
    requires start + n <= |m.bits|
    ensures |m'.bits| == |m.bits|
  {
    if n == 0 then m else Apply(op, ApplyRange(op, m, start, n - 1), start + n - 1)
  }

  /** Number of occupied pages. */
  function Count(bits: seq<bool>): (n: nat)
    ensures n <= |bits|
  {
    if bits == [] then 0 else Count(bits[..|bits| - 1]) + if bits[|bits| - 1] then 1 else 0
  }

  /** Number of free pages. */
  function Spare(bits: seq<bool>): nat
  {
    |bits| - Count(bits)
  }

  lemma {:induction false} CountUpdate(bits: seq<bool>, index: nat, v: bool)
    requires index < |bits|
    ensures Count(bits[index := v]) == Count(bits) + (if v then 1 else 0) - (if bits[index] then 1 else 0)
  {
    var last := |bits| - 1;
    if index == last {
      assert bits[index := v][..last] == bits[..last];
    } else {
      assert bits[index := v][..last] == bits[..last][index := v];
      CountUpdate(bits[..last], index, v);
    }
  }

  /** The counters add up to `total`, and the occupied ones cover the set bits. */
  ghost predicate Conserved(m: Mem, total: int)
  {
    && m.free + m.used + m.reserved == total
    && m.used + m.reserved == PAGE_SIZE * Count(m.bits)
  }

  /** Every page below the hint is occupied. */
  ghost predicate HintOk(m: Mem)
  {
    m.hint <= |m.bits| && forall j :: 0 <= j < m.hint ==> m.bits[j]
  }

  /** `m'` differs from `m`, apart from bits and hint, by charging the change in occupied pages to `op`. */
  ghost predicate Charged(op: PageOp, m: Mem, m': Mem)
  {
    m' == Charge(op, m, Count(m'.bits) - Count(m.bits)).(bits := m'.bits, hint := m'.hint)
  }

  lemma ApplyCharges(op: PageOp, m: Mem, index: nat)
    requires index < |m.bits|
    ensures Charged(op, m, Apply(op, m, index))
  {
    CountUpdate(m.bits, index, Occupies(op));
  }

  lemma ChargedTwice(op: PageOp, a: Mem, b: Mem, c: Mem)
    requires Charged(op, a, b) && Charged(op, b, c)
    ensures Charged(op, a, c)
  {
  }

  /** A range operation charges exactly the pages that were not yet in the wanted state. */
  lemma {:induction false} RangeCounters(op: PageOp, m: Mem, start: nat, n: nat)
    requires start + n <= |m.bits|
    ensures Charged(op, m, ApplyRange(op, m, start, n))
  {
    if n > 0 {
      var mid := ApplyRange(op, m, start, n - 1);
      RangeCounters(op, m, start, n - 1);
      ApplyCharges(op, mid, start + n - 1);
      ChargedTwice(op, m, mid, ApplyRange(op, m, start, n));
    }
  }

  /** No discipline is needed for the counters: any page operation on any range keeps them conserved. */
  lemma RangeConserves(op: PageOp, m: Mem, start: nat, n: nat, total: int)
    requires start + n <= |m.bits| && Conserved(m, total)
    ensures Conserved(ApplyRange(op, m, start, n), total)
  {
    RangeCounters(op, m, start, n);
  }

  /** One operation decides exactly one bit. */
  lemma ApplyBits(op: PageOp, m: Mem, index: nat)
    requires index < |m.bits|
    ensures var m' := Apply(op, m, index);
      && m'.bits == m.bits[index := Occupies(op)]
      && (Occupies(op) ==> m'.hint == m.hint)
      && m'.hint <= m.hint
      && (HintOk(m) ==> HintOk(m'))
  {
  }

  /** A range operation decides exactly the bits of its range and keeps the hint sound. */
  lemma {:induction false} RangeBits(op: PageOp, m: Mem, start: nat, n: nat)
    requires start + n <= |m.bits|
    ensures var m' := ApplyRange(op, m, start, n);
      && (forall j :: 0 <= j < |m.bits| ==> m'.bits[j] == if start <= j < start + n then Occupies(op) else m.bits[j])
      && (Occupies(op) ==> m'.hint == m.hint)
      && m'.hint <= m.hint
      && (HintOk(m) ==> HintOk(m'))
  {
    hide Apply, HintOk;
    if n > 0 {
      RangeBits(op, m, start, n - 1);
      ApplyBits(op, ApplyRange(op, m, start, n - 1), start + n - 1);
    }
  }

  // ----- allocation -----

  /** A failing allocation panics and halts the kernel. */
  datatype Allocation = Panic | Allocated(start: nat, after: Mem)

  /** The region search: first fit, and a one-page search moves the hint just past the page it found. */
  ghost function FindFree(m: Mem, n: nat): (Option<nat>, Mem)
  {
    var r := LowestRun(m.bits, if n == 0 then 1 else n);
    (r, if n == 1 && r.Some? then m.(hint := r.value + 1) else m)
  }

  ghost function Allocate(m: Mem, n: nat): Allocation
    requires n > 0
  {
    var (r, found) := FindFree(m, n);
    match r
    case None => Panic
    case Some(start) => Allocated(start, ApplyRange(Lock, found, start, n))
  }

  /** The search never needs the pages below a sound hint. */
  lemma HintSkipsNothing(m: Mem, start: nat, n: nat)
    requires n > 0 && HintOk(m) && FreeRun(m.bits, start, n)
    ensures m.hint <= start
  {
    assert !m.bits[start];
  }

  /** Locking what a one-page search found repairs the hint that the search itself left unsound. */
  lemma AllocateEffect(m: Mem, n: nat)
    requires n > 0 && HintOk(m)
    ensures match Allocate(m, n)
      case Panic => forall s: nat :: !FreeRun(m.bits, s, n)
      case Allocated(start, m') =>
        && IsFirstFit(m.bits, n, Some(start))
        && m.hint <= start
        && |m'.bits| == |m.bits|
        && (forall j :: 0 <= j < |m.bits| ==> m'.bits[j] == (m.bits[j] || start <= j < start + n))
        && HintOk(m') && Charged(Lock, m, m')
  {
    var (r, found) := FindFree(m, n);
    if r.Some? {
      var start := r.value;
      HintSkipsNothing(m, start, n);
      RangeBits(Lock, found, start, n);
      RangeCounters(Lock, found, start, n);
      if n == 1 {
        forall j | 0 <= j < start
          ensures m.bits[j]
        {
          assert !FreeRun(m.bits, j, 1);
        }
      }
    }
  }

  /** Occupying a free page leaves one page less. */
  lemma SpareTaken(bits: seq<bool>, index: nat)
    requires index < |bits| && !bits[index]
    ensures Spare(bits) == Spare(bits[index := true]) + 1
  {
    hide Count;
    CountUpdate(bits, index, true);
  }

  /** A search for one page comes back empty exactly when no page is free. */
  lemma {:induction false} SpareNone(bits: seq<bool>)
    ensures (forall s: nat :: !FreeRun(bits, s, 1)) <==> Spare(bits) == 0
  {
    if s: nat :| FreeRun(bits, s, 1) {
      SpareTaken(bits, s);
    } else {
      CountFull(bits);
    }
  }

  lemma {:induction false} CountFull(bits: seq<bool>)
    requires forall s: nat :: !FreeRun(bits, s, 1)
    ensures Count(bits) == |bits|
  {
    if bits != [] {
      var init := bits[..|bits| - 1];
      forall s: nat
        ensures !FreeRun(init, s, 1)
      {
        assert !FreeRun(bits, s, 1);
      }
      CountFull(init);
      assert !FreeRun(bits, |bits| - 1, 1);
    }
  }

  /** One page: a free page becomes occupied, or a panic exactly when no page is free. */
  lemma AllocateOne(m: Mem)
    requires HintOk(m)
    ensures match Allocate(m, 1)
      case Panic => Spare(m.bits) == 0
      case Allocated(start, m') =>
        && start < |m.bits| && !m.bits[start] && m'.bits == m.bits[start := true]
        && Spare(m.bits) > 0 && Spare(m'.bits) == Spare(m.bits) - 1
  {
    AllocateEffect(m, 1);
    SpareNone(m.bits);
    var r := LowestRun(m.bits, 1);
    if r.Some? {
      assert FreeRun(m.bits, r.value, 1);
      SpareTaken(m.bits, r.value);
    }
  }

  /** Freeing what was just allocated restores the bitmap and every counter; only a one-page hint may advance. */
  lemma AllocateThenFree(m: Mem, n: nat)
    requires n > 0 && HintOk(m)
    ensures match Allocate(m, n)
      case Panic => true
      case Allocated(start, mid) =>
        start + n <= |mid.bits| &&
        ApplyRange(Free, mid, start, n) == m.(hint := if n == 1 then start else m.hint)
  {
    AllocateEffect(m, n);
    var (r, found) := FindFree(m, n);
    if r.Some? {
      var start := r.value;
      var mid := ApplyRange(Lock, found, start, n);
      var m' := ApplyRange(Free, mid, start, n);
      RangeBits(Lock, found, start, n);
      RangeBits(Free, mid, start, n);
      assert m'.bits == m.bits;
      RangeCounters(Lock, found, start, n);
      RangeCounters(Free, mid, start, n);
      FreeHint(mid, start, n);
    }
  }

  /** Freeing an occupied range pulls the hint down to its start, and no further. */
  lemma {:induction false} FreeHint(m: Mem, start: nat, n: nat)
    requires start + n <= |m.bits| && forall j :: start <= j < start + n ==> m.bits[j]
    ensures ApplyRange(Free, m, start, n).hint == if n > 0 && start < m.hint then start else m.hint
  {
    if n > 0 {
      FreeHint(m, start, n - 1);
      RangeBits(Free, m, start, n - 1);
    }
  }
}
