/** The macros of paging.h on 64-bit words, and what they compute on the numbers those words stand for. */
module PageBits {
  import opened Arithmetic
  import opened PageIndex

  // ----- words and numbers -----

  function Half(x: bv64): bv64 { x >> 1 }

  predicate Odd(x: bv64) { x & 1 == 1 }

  function And(x: bv64, y: bv64): bv64 { x & y }

  function Or(x: bv64, y: bv64): bv64 { x | y }

  /** The number a word stands for, bit by bit. */
  function Val(x: bv64): nat
  {
    if x == 0 then 0 else 2 * Val(Half(x)) + (if Odd(x) then 1 else 0)
  }

  function Pow2(n: nat): nat
  {
    if n == 0 then 1 else 2 * Pow2(n - 1)
  }

  function Shr(x: bv64, n: nat): bv64
  {
    if n == 0 then x else Half(Shr(x, n - 1))
  }

  function Grown(m: bv64): bv64 { (m << 1) | 1 }

  /** The lowest `n` bits. */
  function Mask(n: nat): bv64
  {
    if n == 0 then 0 else Grown(Mask(n - 1))
  }

  /** Shifting one bit out halves the number. */
  lemma ValHalf(x: bv64)
    ensures Val(Half(x)) == Val(x) / 2 && (Odd(x) <==> Val(x) % 2 == 1)
  {
    if x == 0 {
      assert Half(x) == 0 && !Odd(x);
    }
  }

  lemma DivDiv(a: nat, m: nat)
    requires m > 0
    ensures a / m / 2 == a / (2 * m)
  {
    var q := a / m;
    var h := q / 2;
    DivFundamental(a, m);
    assert 2 * h * m == h * (2 * m);
    if q == 2 * h {
      DivUnique(a, 2 * m, h, a % m);
    } else {
      MulNext(2 * h, m);
      DivUnique(a, 2 * m, h, m + a % m);
    }
  }

  lemma {:induction false} ValShr(x: bv64, n: nat)
    ensures Pow2(n) > 0 && Val(Shr(x, n)) == Val(x) / Pow2(n)
  {
    if n > 0 {
      ValShr(x, n - 1);
      ValHalf(Shr(x, n - 1));
      DivDiv(Val(x), Pow2(n - 1));
    }
  }

  lemma MaskStep(x: bv64, m: bv64)
    ensures Half(And(x, Grown(m))) == And(Half(x), m) && (Odd(And(x, Grown(m))) <==> Odd(x))
  {
  }

  lemma AndZero(x: bv64)
    ensures And(x, 0) == 0
  {
  }

  /** Keeping the lowest `n` bits is a remainder. */
  lemma {:induction false} ValMask(x: bv64, n: nat)
    ensures Pow2(n) > 0 && Val(And(x, Mask(n))) == Val(x) % Pow2(n)
    decreases n
  {
    hide And, Half, Odd, Grown;
    if n == 0 {
      AndZero(x);
    } else {
      ValMask(Half(x), n - 1);
      ValHalf(x);
      ValHalf(And(x, Mask(n)));
      MaskStep(x, Mask(n - 1));
      ModStep(Val(x), Pow2(n - 1), Val(And(x, Mask(n))));
    }
  }

  lemma ModStep(a: nat, m: nat, y: nat)
    requires m > 0 && y / 2 == a / 2 % m && y % 2 == a % 2
    ensures y == a % (2 * m)
  {
    var h := a / 2;
    assert h == m * (h / m) + h % m;
    assert 2 * (m * (h / m)) == 2 * m * (h / m);
    assert 2 * m * (h / m) == h / m * (2 * m);
    DivUnique(a, 2 * m, h / m, y);
  }

  lemma OrStep(x: bv64, y: bv64)
    requires And(x, y) == 0
    ensures And(Half(x), Half(y)) == 0 && Half(Or(x, y)) == Or(Half(x), Half(y))
    ensures (Odd(Or(x, y)) <==> Odd(x) || Odd(y)) && !(Odd(x) && Odd(y))
    ensures x == 0 ==> Or(x, y) == y
  {
  }

  /** An `or` of words without a common bit is a sum. */
  lemma {:induction false} ValOr(x: bv64, y: bv64, n: nat)
    requires And(x, y) == 0 && Val(x) <= n
    ensures Val(Or(x, y)) == Val(x) + Val(y)
    decreases n
  {
    hide And, Or, Half, Odd;
    OrStep(x, y);
    if x != 0 {
      ValHalf(x);
      ValHalf(y);
      ValHalf(Or(x, y));
      if n > 0 {
        ValOr(Half(x), Half(y), n / 2);
      } else {
        ValZero(x);
      }
    }
  }

  lemma {:induction false} ValZero(x: bv64)
    requires x != 0
    ensures Val(x) > 0
  {
    if !Odd(x) {
      assert Half(x) != 0;
      ValZero(Half(x));
    }
  }

  // ----- the macros -----

  const PGMASK_ENTRY: bv64 := 0x1ff
  const OFFSET_MASK: bv64 := 0xFFF
  const PTE_ADDR_MASK: bv64 := 0x000f_ffff_ffff_f000

  function Pml4eBits(a: bv64): bv64 { Shift39(a) & PGMASK_ENTRY }

  function PdpteBits(a: bv64): bv64 { Shift30(a) & PGMASK_ENTRY }

  function PdeBits(a: bv64): bv64 { Shift21(a) & PGMASK_ENTRY }

  function PteBits(a: bv64): bv64 { Shift12(a) & PGMASK_ENTRY }

  function StripSxBits(a: bv64): bv64 { a & 0xFFFF_FFFF_FFFF }

  function PteGetAddr(entry: bv64): bv64 { entry & PTE_ADDR_MASK }

  /** What paging_MapPage stores in a page table, and in a table above for a new table. */
  function LeafWord(physical: bv64, flags: bv64): bv64 { PPhysAddr(physical) | 1 | flags }

  function TableWord(physical: bv64): bv64 { physical | 1 | 2 | 4 }

  function PPhysAddr(a: bv64): bv64 { a & !OFFSET_MASK }

  function Shift3(y: bv64): bv64 { y >> 3 }

  function Shift9(y: bv64): bv64 { y >> 9 }

  function Shift12(y: bv64): bv64 { y >> 12 }

  function Shift21(y: bv64): bv64 { y >> 21 }

  function Shift30(y: bv64): bv64 { y >> 30 }

  function Shift39(y: bv64): bv64 { y >> 39 }

  lemma ThreeHalves(y: bv64)
    ensures Half(Half(Half(y))) == Shift3(y)
  {
  }

  lemma ThreeThrees(y: bv64)
    ensures Shift3(Shift3(Shift3(y))) == Shift9(y)
  {
  }

  lemma ShiftSums(y: bv64)
    ensures Shift9(Shift3(y)) == Shift12(y) && Shift9(Shift12(y)) == Shift21(y)
  {
  }

  lemma ShiftSumsHigh(y: bv64)
    ensures Shift9(Shift21(y)) == Shift30(y) && Shift9(Shift30(y)) == Shift39(y)
  {
  }

  lemma Shr3(a: bv64, n: nat)
    ensures Shr(a, n + 3) == Shift3(Shr(a, n))
  {
    hide Half, Shift3, Shift9, Shift12, Shift21, Shift30, Shift39;
    ThreeHalves(Shr(a, n));
    assert Shr(a, n + 2) == Half(Half(Shr(a, n)));
  }

  lemma Shr9(a: bv64, n: nat)
    ensures Shr(a, n + 9) == Shift9(Shr(a, n))
  {
    hide Shr, Half, Shift3, Shift9, Shift12, Shift21, Shift30, Shift39;
    ThreeThrees(Shr(a, n));
    Shr3(a, n);
    Shr3(a, n + 3);
    Shr3(a, n + 6);
  }

  lemma Shifts(a: bv64)
    ensures Shr(a, 12) == Shift12(a) && Shr(a, 21) == Shift21(a)
    ensures Shr(a, 30) == Shift30(a) && Shr(a, 39) == Shift39(a)
  {
    assert Shr(a, 0) == a;
    hide Shr, Half, Shift3, Shift9, Shift12, Shift21, Shift30, Shift39;
    ShiftSums(a);
    ShiftSumsHigh(a);
    Shr3(a, 0);
    Shr9(a, 3);
    Shr9(a, 12);
    Shr9(a, 21);
    Shr9(a, 30);
  }

  lemma Masks()
    ensures Mask(9) == 0x1ff && Mask(12) == 0xFFF && Mask(48) == 0xFFFF_FFFF_FFFF && Mask(52) == 0xF_FFFF_FFFF_FFFF
  {
    assert Mask(6) == 0x3F && Mask(9) == 0x1FF;
    assert Mask(12) == 0xFFF;
    assert Mask(18) == 0x3_FFFF;
    assert Mask(24) == 0xFF_FFFF;
    assert Mask(30) == 0x3FFF_FFFF;
    assert Mask(36) == 0xF_FFFF_FFFF;
    assert Mask(42) == 0x3FF_FFFF_FFFF;
  }

  lemma Powers()
    ensures Pow2(9) == 0x200 && Pow2(12) == 0x1000 && Pow2(21) == 0x20_0000 && Pow2(30) == 0x4000_0000
    ensures Pow2(39) == 0x80_0000_0000 && Pow2(48) == 0x1_0000_0000_0000 && Pow2(52) == 0x10_0000_0000_0000
  {
    assert Pow2(6) == 0x40;
    assert Pow2(15) == 0x8000;
    assert Pow2(24) == 0x100_0000;
    assert Pow2(33) == 0x2_0000_0000;
    assert Pow2(42) == 0x400_0000_0000;
  }

  /** Each index macro computes the table index of the address as a number. */
  lemma IndexMacros(a: bv64)
    ensures Val(Pml4eBits(a)) == Pml4e(Val(a)) && Val(PdpteBits(a)) == Pdpte(Val(a))
    ensures Val(PdeBits(a)) == Pde(Val(a)) && Val(PteBits(a)) == Pte(Val(a))
  {
    hide Val, Shr, Mask, Pow2;
    Shifts(a);
    Masks();
    Powers();
    ValShr(a, 39);
    ValMask(Shr(a, 39), 9);
    ValShr(a, 30);
    ValMask(Shr(a, 30), 9);
    ValShr(a, 21);
    ValMask(Shr(a, 21), 9);
    ValShr(a, 12);
    ValMask(Shr(a, 12), 9);
  }

  /** Stripping the sign extension, taking the offset and testing the present bit. */
  lemma AddressMacros(a: bv64)
    ensures Val(StripSxBits(a)) == StripSx(Val(a)) && Val(And(a, OFFSET_MASK)) == Offset(Val(a))
    ensures Odd(a) <==> Present(Val(a))
  {
    ValHalf(a);
    hide Val, Mask, Pow2;
    Masks();
    Powers();
    ValMask(a, 48);
    ValMask(a, 12);
  }

  lemma SplitOffset(x: bv64)
    ensures And(PPhysAddr(x), And(x, OFFSET_MASK)) == 0
    ensures Or(PPhysAddr(x), And(x, OFFSET_MASK)) == x
  {
  }

  /** P_PHYS_ADDR drops the offset inside the page. */
  lemma PPhysAddrMacro(x: bv64)
    ensures Val(PPhysAddr(x)) == Val(x) - Offset(Val(x))
  {
    hide Val, Mask, Pow2, And, Or, PPhysAddr;
    Masks();
    Powers();
    ValMask(x, 12);
    SplitOffset(x);
    ValOr(PPhysAddr(x), And(x, OFFSET_MASK), Val(PPhysAddr(x)));
  }

  lemma FrameBits(x: bv64)
    ensures PteGetAddr(x) == PPhysAddr(And(x, 0xF_FFFF_FFFF_FFFF))
  {
  }

  /** PTE_GET_ADDR yields the address of the frame an entry holds. */
  lemma PteGetAddrMacro(entry: bv64)
    ensures Val(PteGetAddr(entry)) == EntryFrame(Val(entry)) * 0x1000
  {
    hide Val, Mask, Pow2, And, PteGetAddr, PPhysAddr;
    Masks();
    Powers();
    ValMask(entry, 52);
    PPhysAddrMacro(And(entry, 0xF_FFFF_FFFF_FFFF));
    FrameBits(entry);
  }

  lemma ValSmall(flags: bv64)
    requires flags <= OFFSET_MASK
    ensures Val(flags) < 0x1000
  {
    hide Val, Mask, Pow2;
    Masks();
    Powers();
    assert And(flags, OFFSET_MASK) == flags;
    ValMask(flags, 12);
  }

  lemma OrOne(flags: bv64)
    ensures Val(Or(1, flags)) == if Odd(flags) then Val(flags) else Val(flags) + 1
  {
    if Odd(flags) {
      assert Or(1, flags) == flags;
    } else {
      assert And(1, flags) == 0;
      assert Val(1) == 1;
      ValOr(1, flags, 1);
    }
  }

  lemma AddressBesideFlags(x: bv64, flags: bv64)
    requires flags <= OFFSET_MASK
    ensures And(PPhysAddr(x), Or(1, flags)) == 0 && LeafWord(x, flags) == Or(PPhysAddr(x), Or(1, flags))
  {
  }

  /** The word paging_MapPage stores in a page table is the model's leaf entry. */
  lemma LeafEntryMacro(physical: bv64, flags: bv64)
    requires flags <= OFFSET_MASK
    ensures Val(flags) < 0x1000 && Val(LeafWord(physical, flags)) == LeafEntry(Val(physical), Val(flags))
  {
    hide Val, And, Or, PPhysAddr, LeafWord;
    ValSmall(flags);
    ValHalf(flags);
    OrOne(flags);
    AddressBesideFlags(physical, flags);
    ValOr(PPhysAddr(physical), Or(1, flags), Val(PPhysAddr(physical)));
    PPhysAddrMacro(physical);
  }

  lemma AlignedAddress(x: bv64)
    requires And(x, OFFSET_MASK) == 0
    ensures PPhysAddr(x) == x && TableWord(x) == LeafWord(x, 6)
  {
  }

  lemma NoOffset(x: bv64)
    requires Val(x) % 0x1000 == 0
    ensures And(x, OFFSET_MASK) == 0
  {
    hide Val, Mask, Pow2, And;
    Masks();
    Powers();
    ValMask(x, 12);
    if And(x, OFFSET_MASK) != 0 {
      ValZero(And(x, OFFSET_MASK));
    }
  }

  /** The word paging_MapPage stores for a new table is the model's table entry. */
  lemma TableEntryMacro(physical: bv64, frame: nat)
    requires Val(physical) == frame * 0x1000
    ensures Val(TableWord(physical)) == TableEntry(frame)
  {
    assert Val(6) == 6;
    hide Val, And, PPhysAddr, LeafWord, TableWord;
    NoOffset(physical);
    AlignedAddress(physical);
    LeafEntryMacro(physical, 6);
  }
}
