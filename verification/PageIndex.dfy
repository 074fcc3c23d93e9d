/** The shift and mask macros of paging.h on unsigned 64-bit words: a right shift is a division by a power of two, a
    mask of low bits a remainder, and an `or` of operands without common bits a sum. */
module PageIndex {
  type Index = i: nat | i < 512

  /** Page-entry flags: bits 0..11 of an entry. Bit 0 is PF_PRESENT, bits 1 and 2 are PF_RW and PF_USER. */
  type Flags = f: nat | f < 0x1000

  const PF_PRESENT: Flags := 1
  const PF_RW: Flags := 2
  const PF_USER: Flags := 4

  /** The four table indices of a virtual address. */
  datatype Path = Path(i4: Index, i3: Index, i2: Index, i1: Index)

  /** AMD64_MM_STRIPSX: the low 48 bits. */
  function StripSx(address: nat): nat { address % 0x1_0000_0000_0000 }

  function Pml4e(address: nat): Index { address / 0x80_0000_0000 % 512 }

  function Pdpte(address: nat): Index { address / 0x4000_0000 % 512 }

  function Pde(address: nat): Index { address / 0x20_0000 % 512 }

  function Pte(address: nat): Index { address / 0x1000 % 512 }

  function PathOf(address: nat): Path
  {
    var a := StripSx(address);
    Path(Pml4e(a), Pdpte(a), Pde(a), Pte(a))
  }

  /** Offset inside the page: the low 12 bits. */
  function Offset(address: nat): nat { address % 0x1000 }

  predicate Present(entry: nat) { entry % 2 == 1 }

  /** PF_PS, bit 7: in a PDPT or PD entry it marks a 1-GiB or 2-MiB page instead of a table. */
  predicate Huge(entry: nat) { entry / 0x80 % 2 == 1 }

  /** Frame number held in bits 12..51 of an entry; PTE_GET_ADDR is this times the page size. */
  function EntryFrame(entry: nat): nat { entry / 0x1000 % 0x100_0000_0000 }

  /** `frameAddress | PF_PRESENT | PF_RW | PF_USER`. */
  function TableEntry(frame: nat): nat { frame * 0x1000 + PF_PRESENT + PF_RW + PF_USER }

  /** `P_PHYS_ADDR(address) | PF_PRESENT | flags`. */
  function LeafEntry(address: nat, flags: Flags): nat
  {
    address / 0x1000 * 0x1000 + if Present(flags) then flags else flags + PF_PRESENT
  }

  /** The page number of an address once the sign extension is stripped. */
  function VirtualPage(address: nat): nat { StripSx(address) / 0x1000 }

  /** Putting the four indices back together: 9 + 9 + 9 + 9 bits above the 12 bits of offset. */
  lemma PathIsPage(address: nat)
    ensures var p := PathOf(address);
      VirtualPage(address) == ((p.i4 * 512 + p.i3) * 512 + p.i2) * 512 + p.i1
  {
    var a := StripSx(address);
    assert a / 0x1000 / 512 == a / 0x20_0000;
    assert a / 0x20_0000 / 512 == a / 0x4000_0000;
    assert a / 0x4000_0000 / 512 == a / 0x80_0000_0000 < 512;
  }

  lemma PageIsPath(address: nat)
    ensures var v := VirtualPage(address);
      v < 0x10_0000_0000 && PathOf(address) == Path(v / 0x800_0000, v / 0x4_0000 % 512, v / 512 % 512, v % 512)
  {
    var a, v := StripSx(address), VirtualPage(address);
    assert a < 0x1_0000_0000_0000 && v == a / 0x1000;
    hide StripSx;
    assert a / 0x20_0000 == v / 512;
    assert a / 0x4000_0000 == v / 0x4_0000;
    assert a / 0x80_0000_0000 == v / 0x800_0000 < 512;
  }

  /** Two addresses walk the same path exactly when they lie in the same page. */
  lemma SamePathSamePage(a: nat, b: nat)
    ensures PathOf(a) == PathOf(b) <==> VirtualPage(a) == VirtualPage(b)
  {
    PageIsPath(a);
    PageIsPath(b);
    PathIsPage(a);
    PathIsPage(b);
    hide PathOf, VirtualPage;
  }

  /** The offset bits take no part in the walk. */
  lemma PathIgnoresOffset(address: nat)
    ensures PathOf(address - Offset(address)) == PathOf(address)
  {
    hide PathOf;
    var q, r := address / 0x1_0000_0000_0000, StripSx(address);
    assert address == q * 0x1_0000_0000_0000 + r;
    assert Offset(address) == Offset(r);
    assert StripSx(address - Offset(address)) == r - Offset(r);
    SamePathSamePage(address - Offset(address), address);
  }

  /** Decoding what was encoded. */
  lemma TableEntryDecodes(frame: nat)
    requires frame < 0x100_0000_0000
    ensures Present(TableEntry(frame)) && !Huge(TableEntry(frame)) && EntryFrame(TableEntry(frame)) == frame
  {
    assert TableEntry(frame) / 0x80 == frame * 0x20;
  }

  lemma LeafEntryDecodes(address: nat, flags: Flags)
    requires address < 0x10_0000_0000_0000
    ensures Present(LeafEntry(address, flags)) && EntryFrame(LeafEntry(address, flags)) == address / 0x1000
  {
    var low := if Present(flags) then flags else flags + PF_PRESENT;
    assert low < 0x1000 && low % 2 == 1;
    assert LeafEntry(address, flags) == address / 0x1000 * 0x1000 + low;
    assert LeafEntry(address, flags) / 0x1000 == address / 0x1000;
  }

  /** The write bit and the user bit of a page entry are those of the flags; the present bit is set in any case. */
  lemma LeafEntryBits(address: nat, flags: Flags)
    ensures var e := LeafEntry(address, flags);
      e % 2 == 1 && e / 2 % 2 == flags / 2 % 2 && e / 4 % 2 == flags / 4 % 2
  {
    var low := if Present(flags) then flags else flags + PF_PRESENT;
    FlagsKept(flags, low);
    FrameKeepsLowBits(address / 0x1000, low);
    hide Present;
  }

  lemma FlagsKept(flags: nat, low: nat)
    requires low == if flags % 2 == 1 then flags else flags + 1
    ensures low % 2 == 1 && low / 2 == flags / 2 && low / 4 == flags / 4
  {
    assert low / 4 == low / 2 / 2;
  }

  /** A table entry lets user code through for reading and writing. */
  lemma TableEntryBits(frame: nat)
    ensures var e := TableEntry(frame);
      e % 2 == 1 && e / 2 % 2 == 1 && e / 4 % 2 == 1
  {
    FrameKeepsLowBits(frame, 7);
  }

  lemma FrameKeepsLowBits(frame: nat, low: nat)
    ensures var e := frame * 0x1000 + low;
      e % 2 == low % 2 && e / 2 % 2 == low / 2 % 2 && e / 4 % 2 == low / 4 % 2
  {
    var e := frame * 0x1000 + low;
    DropBit(frame * 0x800, low);
    DropBit(frame * 0x400, low / 2);
    DropBit(frame * 0x200, low / 4);
    assert e / 2 == 2 * (frame * 0x400) + low / 2;
    assert e / 4 == e / 2 / 2 && low / 4 == low / 2 / 2;
  }

  lemma DropBit(k: nat, low: nat)
    ensures (2 * k + low) / 2 == k + low / 2 && (2 * k + low) % 2 == low % 2
  {
  }

  lemma PresentLeaf(address: nat, flags: Flags)
    ensures Present(LeafEntry(address, flags))
  {
    var low := if Present(flags) then flags else flags + PF_PRESENT;
    assert LeafEntry(address, flags) == 2 * (address / 0x1000 * 0x800) + low;
  }
}
