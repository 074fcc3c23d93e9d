/** Four-level page tables on values: physical memory as frames of 512 entries, and what one map does to every
    translation of every directory. */
module PageTables {
  import opened Options
  import opened PageIndex

  type Table = t: seq<nat> | |t| == 512 witness seq(512, i => 0)

  function ZeroTable(): (t: Table)
    ensures forall i: Index :: t[i] == 0
  {
    seq(512, i => 0)
  }

  type Memory = map<nat, Table>

  /** The role of a table frame. A PDPT may be shared by several directories at one slot; every lower table has one
      parent entry. */
  datatype Role = Root | Pdpt(slot: Index) | Pd(parent: nat, index: Index) | Pt(parent: nat, index: Index)

  /** Physical memory together with the role of every frame in use as a table. */
  datatype Space = Space(mem: Memory, role: map<nat, Role>)

  /** The role of the table that entry `i` of frame `f` points to. */
  function ChildRole(l: Role, f: nat, i: Index): Role
    requires !l.Pt?
  {
    match l
    case Root => Pdpt(i)
    case Pdpt(_) => Pd(f, i)
    case Pd(_, _) => Pt(f, i)
  }

  /** Table entries of directories, PDPTs and PDs point to tables of the right role, hence to distinct ones. */
  ghost predicate WellFormed(s: Space)
  {
    && s.role.Keys <= s.mem.Keys
    && forall f, i: Index :: f in s.role && !s.role[f].Pt? && PointsToTable(s.mem[f][i]) ==>
         Points(s, EntryFrame(s.mem[f][i]), ChildRole(s.role[f], f, i))
  }

  ghost predicate Points(s: Space, child: nat, l: Role)
  {
    child in s.role && s.role[child] == l
  }

  ghost predicate IsPd(s: Space, f: nat)
  {
    f in s.role && s.role[f].Pd?
  }

  ghost predicate IsRoot(s: Space, root: nat)
  {
    root in s.role && s.role[root].Root?
  }

  // ----- walking -----

  /** A present entry that is no huge page. */
  predicate PointsToTable(entry: nat)
  {
    Present(entry) && !Huge(entry)
  }

  predicate HugeAt(mem: Memory, f: nat, i: Index)
  {
    f in mem && Present(mem[f][i]) && Huge(mem[f][i])
  }

  function Child(mem: Memory, f: nat, i: Index): Option<nat>
  {
    if f in mem && PointsToTable(mem[f][i]) then Some(EntryFrame(mem[f][i])) else None
  }

  /** Where a walk ends: nowhere, or at a page entry of level 1 (4 KiB), 2 (2 MiB) or 3 (1 GiB). */
  datatype Landing = Unmapped | Page(level: nat, entry: nat)

  /** The 4-level walk of directory `root`, as in section 4.5 of the Intel SDM Volume 3A. */
  function Walk(mem: Memory, root: nat, p: Path): Landing
  {
    match Child(mem, root, p.i4)
    case None => Unmapped
    case Some(pdpt) =>
      if HugeAt(mem, pdpt, p.i3) then Page(3, mem[pdpt][p.i3]) else
      match Child(mem, pdpt, p.i3)
      case None => Unmapped
      case Some(pd) =>
        if HugeAt(mem, pd, p.i2) then Page(2, mem[pd][p.i2]) else
        match Child(mem, pd, p.i2)
        case None => Unmapped
        case Some(pt) => if pt in mem && Present(mem[pt][p.i1]) then Page(1, mem[pt][p.i1]) else Unmapped
  }

  /** The physical address a directory maps a virtual address to. */
  function Translate(mem: Memory, root: nat, address: nat): Option<nat>
  {
    match Walk(mem, root, PathOf(address))
    case Unmapped => None
    case Page(level, entry) =>
      Some(if level == 1 then EntryFrame(entry) * 0x1000 + address % 0x1000
           else if level == 2 then EntryFrame(entry) / 512 * 0x20_0000 + address % 0x20_0000
           else EntryFrame(entry) / 0x40000 * 0x4000_0000 + address % 0x4000_0000)
  }

  /** No entry on the path is a huge page, so table code may follow it. */
  predicate NoHuge(mem: Memory, root: nat, p: Path)
  {
    && !HugeAt(mem, root, p.i4)
    && var l := Walk(mem, root, p); l.Page? ==> l.level == 1
  }

  /** An entry as the kernel reads it through the direct map. */
  function ReadEntry(mem: Memory, f: nat, i: Index): nat
  {
    if f in mem then mem[f][i] else 0
  }

  /** The kernel's own walk, which takes every present entry for a table and answers 0 for an unmapped address. */
  function SoftWalk(mem: Memory, root: nat, address: nat): nat
  {
    var p := PathOf(address);
    var e4 := ReadEntry(mem, root, p.i4);
    if !Present(e4) then 0 else
    var e3 := ReadEntry(mem, EntryFrame(e4), p.i3);
    if !Present(e3) then 0 else
    var e2 := ReadEntry(mem, EntryFrame(e3), p.i2);
    if !Present(e2) then 0 else
    var e1 := ReadEntry(mem, EntryFrame(e2), p.i1);
    if !Present(e1) then 0 else EntryFrame(e1) * 0x1000 + Offset(address)
  }

  /** Off the huge pages the kernel's walk is the processor's. */
  lemma SoftWalkAgrees(mem: Memory, root: nat, address: nat)
    requires NoHuge(mem, root, PathOf(address))
    ensures SoftWalk(mem, root, address) == (match Translate(mem, root, address) case None => 0 case Some(x) => x)
  {
  }

  /** The direct map covers physical memory from `hhdmOffset` on, one byte further than its size. */
  predicate InWindow(hhdmOffset: nat, mmTotal: nat, address: nat)
  {
    hhdmOffset <= address <= hhdmOffset + mmTotal
  }

  /** paging_VirtToPhysical: direct-map addresses by subtraction, all others by the kernel's walk; 0 when unmapped. */
  function VirtToPhysical(mem: Memory, root: nat, hhdmOffset: nat, mmTotal: nat, address: nat): nat
  {
    if InWindow(hhdmOffset, mmTotal, address) then address - hhdmOffset else SoftWalk(mem, root, address)
  }

  /** Inside the bounds the answer is a subtraction; outside them, on both sides and off the huge pages, it is the
      processor's translation, with 0 for an unmapped address. */
  lemma VirtToPhysicalExactly(mem: Memory, root: nat, hhdmOffset: nat, mmTotal: nat, address: nat)
    ensures hhdmOffset <= address <= hhdmOffset + mmTotal ==>
      VirtToPhysical(mem, root, hhdmOffset, mmTotal, address) == address - hhdmOffset
    ensures (address < hhdmOffset || address > hhdmOffset + mmTotal) && NoHuge(mem, root, PathOf(address)) ==>
      VirtToPhysical(mem, root, hhdmOffset, mmTotal, address) ==
        match Translate(mem, root, address) case None => 0 case Some(x) => x
  {
    hide PathOf, Walk, SoftWalk, NoHuge, Translate;
    if NoHuge(mem, root, PathOf(address)) {
      SoftWalkAgrees(mem, root, address);
    }
  }

  /** The write bit and the user bit, without which the processor refuses a write by user code. */
  predicate Open(entry: nat)
  {
    entry / 2 % 2 == 1 && entry / 4 % 2 == 1
  }

  /** No table entry met on the path, as far as the tables go, keeps user code from writing. */
  predicate TablesOpen(mem: Memory, root: nat, p: Path)
  {
    match Child(mem, root, p.i4)
    case None => true
    case Some(pdpt) =>
      && Open(mem[root][p.i4])
      && match Child(mem, pdpt, p.i3)
         case None => true
         case Some(pd) => Open(mem[pdpt][p.i3]) && (Child(mem, pd, p.i2).Some? ==> Open(mem[pd][p.i2]))
  }

  /** User code may write to the page: section 4.6 of the Intel SDM Volume 3A asks for both bits at every level. */
  predicate UserWritable(mem: Memory, root: nat, p: Path)
  {
    Walk(mem, root, p).Page? && TablesOpen(mem, root, p) && Open(Walk(mem, root, p).entry)
  }

  /** What the tables let user code do stays, on every path of every directory of `s`. */
  ghost predicate RightsKept(s: Space, s': Space)
  {
    forall r, p :: IsRoot(s, r) ==> TablesOpen(s'.mem, r, p) == TablesOpen(s.mem, r, p)
  }

  lemma RightsKeptTwice(a: Space, b: Space, c: Space)
    requires RightsKept(a, b) && RightsKept(b, c) && forall r :: IsRoot(a, r) ==> IsRoot(b, r)
    ensures RightsKept(a, c)
  {
    forall r, p | IsRoot(a, r)
      ensures TablesOpen(c.mem, r, p) == TablesOpen(a.mem, r, p)
    {
      assert IsRoot(b, r);
    }
  }

  /** The page directory below two indices. */
  function PdOf(mem: Memory, root: nat, p: Path): Option<nat>
  {
    match Child(mem, root, p.i4)
    case None => None
    case Some(pdpt) => Child(mem, pdpt, p.i3)
  }

  /** The page table that translates the pages below three indices. */
  function PtOf(mem: Memory, root: nat, p: Path): Option<nat>
  {
    match PdOf(mem, root, p)
    case None => None
    case Some(pd) => Child(mem, pd, p.i2)
  }

  /** How many of the two upper tables below directory `root` path `p` lacks. */
  function MissingAbovePd(mem: Memory, root: nat, p: Path): nat
  {
    match Child(mem, root, p.i4)
    case None => 2
    case Some(pdpt) => if Child(mem, pdpt, p.i3) == None then 1 else 0
  }

  /** How many of the three tables below directory `root` path `p` lacks. */
  function Missing(mem: Memory, root: nat, p: Path): nat
  {
    MissingAbovePd(mem, root, p) +
    match PdOf(mem, root, p)
    case None => 1
    case Some(pd) => if Child(mem, pd, p.i2) == None then 1 else 0
  }

  lemma ZeroTableHasNoChild(mem: Memory, f: nat, i: Index)
    requires f in mem && mem[f] == ZeroTable()
    ensures Child(mem, f, i) == None
  {
  }

  /** A path that lacks no table reaches its page table, and so do all paths with the same upper indices. */
  lemma MissingNone(mem: Memory, root: nat, p: Path)
    ensures Missing(mem, root, p) == 0 <==> PtOf(mem, root, p).Some?
  {
  }

  /** Both directories reach the same PDPT at `slot`. */
  predicate Shares(mem: Memory, r: nat, r': nat, slot: Index)
  {
    Child(mem, r, slot).Some? && Child(mem, r, slot) == Child(mem, r', slot)
  }

  /** Along a walk every frame has the role of its position. */
  lemma WalkRoles(s: Space, root: nat, p: Path)
    requires WellFormed(s) && IsRoot(s, root)
    ensures var pdpt := Child(s.mem, root, p.i4);
      pdpt.Some? ==>
        && Points(s, pdpt.value, Pdpt(p.i4))
        && var pd := Child(s.mem, pdpt.value, p.i3);
           pd.Some? ==>
             && Points(s, pd.value, Pd(pdpt.value, p.i3))
             && var pt := Child(s.mem, pd.value, p.i2);
                pt.Some? ==> Points(s, pt.value, Pt(pd.value, p.i2))
  {
  }

  /** Two walks that meet in one page table came the same way. */
  lemma SamePtSameWay(s: Space, r: nat, a: Path, r': nat, b: Path)
    requires WellFormed(s) && IsRoot(s, r) && IsRoot(s, r')
    requires PtOf(s.mem, r, a).Some? && PtOf(s.mem, r, a) == PtOf(s.mem, r', b)
    ensures a.i4 == b.i4 && a.i3 == b.i3 && a.i2 == b.i2 && Shares(s.mem, r, r', a.i4)
  {
    WalkRoles(s, r, a);
    WalkRoles(s, r', b);
  }

  // ----- one table on the path -----

  /** Make sure entry `i` of table `f` points to a table, using the fresh zeroed frame if it does not. */
  function Ensure(s: Space, f: nat, i: Index, frame: nat): Space
    requires f in s.mem && f in s.role && !s.role[f].Pt?
  {
    if Present(s.mem[f][i]) then s
    else
      Space(s.mem[frame := ZeroTable()][f := s.mem[f][i := TableEntry(frame)]],
            s.role[frame := ChildRole(s.role[f], f, i)])
  }

  ghost predicate Fresh(s: Space, frame: nat)
  {
    frame !in s.role && frame < 0x100_0000_0000
  }

  /** Every table keeps its present entries. */
  ghost predicate EntriesKept(s: Space, s': Space)
  {
    forall g, i: Index :: g in s.role && g in s.mem && Present(s.mem[g][i]) ==>
      g in s'.mem && s'.mem[g][i] == s.mem[g][i]
  }

  /** `s'` has more tables than `s`, but the same directories and, for every directory, the same translations. At most
      the absent entry `slot` of directory `root` came to point to a new PDPT. */
  ghost predicate Extends(s: Space, s': Space, root: nat, slot: Index)
  {
    && WellFormed(s') && EntriesKept(s, s')
    && (forall g :: g in s.role ==> g in s'.role && s'.role[g] == s.role[g])
    && (forall g :: IsRoot(s', g) ==> IsRoot(s, g))
    && (forall r, p :: IsRoot(s, r) ==> Walk(s'.mem, r, p) == Walk(s.mem, r, p))
    && (forall r, j: Index :: IsRoot(s, r) ==>
          SlotKept(s, s', r, j) || (r == root && j == slot && SlotFilled(s, s', r, j)))
    && (forall r, j: Index :: IsRoot(s, r) ==> HugeAt(s'.mem, r, j) == HugeAt(s.mem, r, j))
    && RightsKept(s, s')
  }

  ghost predicate SlotKept(s: Space, s': Space, r: nat, j: Index)
  {
    Child(s'.mem, r, j) == Child(s.mem, r, j)
  }

  ghost predicate SlotFilled(s: Space, s': Space, r: nat, j: Index)
  {
    Child(s.mem, r, j) == None && Child(s'.mem, r, j).Some? && Child(s'.mem, r, j).value !in s.role
  }

  lemma ExtendsTwice(a: Space, b: Space, c: Space, root: nat, slot: Index)
    requires Extends(a, b, root, slot) && Extends(b, c, root, slot) && WellFormed(a)
    ensures Extends(a, c, root, slot)
  {
    RightsKeptTwice(a, b, c);
    hide RightsKept;
    forall r, j: Index | IsRoot(a, r)
      ensures SlotKept(a, c, r, j) || (r == root && j == slot && SlotFilled(a, c, r, j))
    {
      assert IsRoot(b, r);
      assert SlotKept(a, b, r, j) || (r == root && j == slot && SlotFilled(a, b, r, j));
      assert SlotKept(b, c, r, j) || (r == root && j == slot && SlotFilled(b, c, r, j));
    }
    forall r, p | IsRoot(a, r)
      ensures Walk(c.mem, r, p) == Walk(a.mem, r, p)
    {
      assert IsRoot(b, r);
    }
  }

  lemma EnsureWellFormed(s: Space, f: nat, i: Index, frame: nat)
    requires WellFormed(s) && f in s.role && !s.role[f].Pt? && !HugeAt(s.mem, f, i) && Fresh(s, frame)
    ensures var s' := Ensure(s, f, i, frame);
      && WellFormed(s')
      && (forall g :: g in s.role ==> g in s'.role && s'.role[g] == s.role[g])
      && Child(s'.mem, f, i).Some?
      && Points(s', Child(s'.mem, f, i).value, ChildRole(s.role[f], f, i))
      && s'.role.Keys <= s.role.Keys + {frame}
  {
    TableEntryDecodes(frame);
  }

  /** An added empty table is invisible to every walk. */
  lemma EnsureInvisible(s: Space, f: nat, i: Index, frame: nat, r: nat, p: Path)
    requires WellFormed(s) && f in s.role && !s.role[f].Pt? && Fresh(s, frame) && IsRoot(s, r)
    ensures Walk(Ensure(s, f, i, frame).mem, r, p) == Walk(s.mem, r, p)
  {
    TableEntryDecodes(frame);
    WalkRoles(s, r, p);
  }

  /** An added empty table bars user code nowhere: the entry pointing to it has both bits. */
  lemma EnsureKeepsRights(s: Space, f: nat, i: Index, frame: nat, r: nat, p: Path)
    requires WellFormed(s) && f in s.role && !s.role[f].Pt? && Fresh(s, frame) && IsRoot(s, r)
    ensures TablesOpen(Ensure(s, f, i, frame).mem, r, p) == TablesOpen(s.mem, r, p)
  {
    TableEntryDecodes(frame);
    TableEntryBits(frame);
    WalkRoles(s, r, p);
    hide TableEntry;
  }

  lemma EnsureExtends(s: Space, f: nat, i: Index, frame: nat, root: nat, slot: Index)
    requires WellFormed(s) && f in s.role && !s.role[f].Pt? && Fresh(s, frame)
    requires s.role[f].Root? ==> f == root && i == slot
    ensures Extends(s, Ensure(s, f, i, frame), root, slot)
  {
    TableEntryDecodes(frame);
    forall r, p | IsRoot(s, r)
      ensures Walk(Ensure(s, f, i, frame).mem, r, p) == Walk(s.mem, r, p)
    {
      EnsureInvisible(s, f, i, frame, r, p);
    }
    forall r, p | IsRoot(s, r)
      ensures TablesOpen(Ensure(s, f, i, frame).mem, r, p) == TablesOpen(s.mem, r, p)
    {
      EnsureKeepsRights(s, f, i, frame, r, p);
    }
  }

  // ----- the page entry -----

  function WriteLeaf(s: Space, pt: nat, i: Index, entry: nat): Space
    requires pt in s.mem
  {
    s.(mem := s.mem[pt := s.mem[pt][i := entry]])
  }

  /** Writing an entry of a page table changes exactly the walks that end at this entry. */
  lemma WriteLeafEffect(s: Space, pt: nat, i: Index, entry: nat, r: nat, p: Path)
    requires WellFormed(s) && pt in s.role && s.role[pt].Pt? && Present(entry) && IsRoot(s, r)
    ensures var s' := WriteLeaf(s, pt, i, entry);
      && PtOf(s'.mem, r, p) == PtOf(s.mem, r, p)
      && Child(s'.mem, r, p.i4) == Child(s.mem, r, p.i4)
      && Walk(s'.mem, r, p) == if PtOf(s.mem, r, p) == Some(pt) && p.i1 == i then Page(1, entry) else Walk(s.mem, r, p)
  {
    WalkRoles(s, r, p);
  }

  lemma WriteLeafKeepsRights(s: Space, pt: nat, i: Index, entry: nat)
    requires WellFormed(s) && pt in s.role && s.role[pt].Pt?
    ensures RightsKept(s, WriteLeaf(s, pt, i, entry))
  {
    forall r, p | IsRoot(s, r)
      ensures TablesOpen(WriteLeaf(s, pt, i, entry).mem, r, p) == TablesOpen(s.mem, r, p)
    {
      WalkRoles(s, r, p);
    }
  }

  /** A map through `root` gives path `p` the entry in `root` and in every directory sharing that slot with it. */
  function WalkAfterMap(s: Space, root: nat, p: Path, entry: nat, r: nat, b: Path): Landing
  {
    if b == p && (r == root || Shares(s.mem, r, root, p.i4)) then Page(1, entry) else Walk(s.mem, r, b)
  }

  /** What mapping one page through directory `root` does: exactly one page changes, in the directories that share its
      slot, every other translation of every directory stays, and no directory loses a slot. */
  ghost predicate Mapped(s: Space, s': Space, root: nat, p: Path, entry: nat)
  {
    && WellFormed(s')
    && (forall g :: g in s.role ==> g in s'.role && s'.role[g] == s.role[g])
    && (forall g :: IsRoot(s', g) ==> IsRoot(s, g))
    && (forall r, b :: IsRoot(s, r) ==> Walk(s'.mem, r, b) == WalkAfterMap(s, root, p, entry, r, b))
    && (forall r, j: Index :: IsRoot(s, r) ==>
          SlotKept(s, s', r, j) || (r == root && j == p.i4 && SlotFilled(s, s', r, j)))
    && (forall r, j: Index :: IsRoot(s, r) ==> HugeAt(s'.mem, r, j) == HugeAt(s.mem, r, j))
    && RightsKept(s, s')
  }

  /** Tables on the whole path, then the page entry: exactly one page changes its translation. */
  lemma MapEffect(s: Space, s3: Space, root: nat, p: Path, entry: nat)
    requires WellFormed(s) && IsRoot(s, root) && Present(entry)
    requires Extends(s, s3, root, p.i4) && PtOf(s3.mem, root, p).Some?
    ensures PtOf(s3.mem, root, p).value in s3.mem
    ensures Mapped(s, WriteLeaf(s3, PtOf(s3.mem, root, p).value, p.i1, entry), root, p, entry)
  {
    var pt := PtOf(s3.mem, root, p).value;
    assert IsRoot(s3, root);
    WalkRoles(s3, root, p);
    var s' := WriteLeaf(s3, pt, p.i1, entry);
    WriteLeafKeepsRights(s3, pt, p.i1, entry);
    RightsKeptTwice(s, s3, s');
    hide RightsKept;
    forall r, b | IsRoot(s, r)
      ensures Walk(s'.mem, r, b) == WalkAfterMap(s, root, p, entry, r, b)
    {
      WriteLeafEffect(s3, pt, p.i1, entry, r, b);
      ReachesOnlyBySharing(s, s3, root, p, r, b);
    }
    forall r, j: Index | IsRoot(s, r)
      ensures SlotKept(s, s', r, j) || (r == root && j == p.i4 && SlotFilled(s, s', r, j))
    {
      WriteLeafEffect(s3, pt, p.i1, entry, r, p.(i4 := j));
      assert SlotKept(s, s3, r, j) || (r == root && j == p.i4 && SlotFilled(s, s3, r, j));
    }
  }

  /** After a map through `root`, the processor translates every address of the mapped page to the given frame and
      every other address, mapped or not, as before. */
  lemma MapThenTranslate(s: Space, s': Space, root: nat, virtAddr: nat, physicalAddr: nat, flags: Flags, address: nat)
    requires IsRoot(s, root) && Mapped(s, s', root, PathOf(virtAddr), LeafEntry(physicalAddr, flags))
    requires physicalAddr < 0x10_0000_0000_0000
    ensures Translate(s'.mem, root, address) ==
      if VirtualPage(address) == VirtualPage(virtAddr) then Some(physicalAddr / 0x1000 * 0x1000 + Offset(address))
      else Translate(s.mem, root, address)
  {
    SamePathSamePage(address, virtAddr);
    LeafEntryDecodes(physicalAddr, flags);
  }

  /** After a map, user code may write to the page exactly when the flags have the write bit and the user bit and the
      tables that were there before let it. Every other page keeps its rights. */
  lemma MapRights(s: Space, s': Space, root: nat, virtAddr: nat, physicalAddr: nat, flags: Flags, b: Path)
    requires IsRoot(s, root) && Mapped(s, s', root, PathOf(virtAddr), LeafEntry(physicalAddr, flags))
    ensures UserWritable(s'.mem, root, b) <==>
      if b == PathOf(virtAddr) then TablesOpen(s.mem, root, b) && flags / 2 % 2 == 1 && flags / 4 % 2 == 1
      else UserWritable(s.mem, root, b)
  {
    LeafEntryBits(physicalAddr, flags);
    assert Walk(s'.mem, root, b) ==
      WalkAfterMap(s, root, PathOf(virtAddr), LeafEntry(physicalAddr, flags), root, b);
    assert TablesOpen(s'.mem, root, b) == TablesOpen(s.mem, root, b);
  }

  /** A map puts no huge page on any path. */
  lemma MapKeepsNoHuge(s: Space, s': Space, root: nat, p: Path, entry: nat, b: Path)
    requires IsRoot(s, root) && Mapped(s, s', root, p, entry) && NoHuge(s.mem, root, b)
    ensures NoHuge(s'.mem, root, b)
  {
    assert Walk(s'.mem, root, b) == WalkAfterMap(s, root, p, entry, root, b);
  }

  /** The kernel's own translation after a map, for any address, in terms of the one before. Addresses of the direct
      map are answered without the tables, before and after. */
  lemma MapThenVirtToPhysical(s: Space, s': Space, root: nat, virtAddr: nat, physicalAddr: nat, flags: Flags,
                              hhdmOffset: nat, mmTotal: nat, address: nat)
    requires IsRoot(s, root) && Mapped(s, s', root, PathOf(virtAddr), LeafEntry(physicalAddr, flags))
    requires physicalAddr < 0x10_0000_0000_0000
    requires NoHuge(s.mem, root, PathOf(address))
    ensures VirtToPhysical(s'.mem, root, hhdmOffset, mmTotal, address) ==
      if hhdmOffset <= address && address <= hhdmOffset + mmTotal then address - hhdmOffset
      else if VirtualPage(address) == VirtualPage(virtAddr) then physicalAddr / 0x1000 * 0x1000 + Offset(address)
      else match Translate(s.mem, root, address) case None => 0 case Some(x) => x
  {
    MapThenTranslate(s, s', root, virtAddr, physicalAddr, flags, address);
    MapKeepsNoHuge(s, s', root, PathOf(virtAddr), LeafEntry(physicalAddr, flags), PathOf(address));
    SoftWalkAgrees(s.mem, root, address);
    SoftWalkAgrees(s'.mem, root, address);
  }

  lemma ReachesOnlyBySharing(s: Space, s3: Space, root: nat, p: Path, r: nat, b: Path)
    requires WellFormed(s) && IsRoot(s, root) && IsRoot(s, r) && Extends(s, s3, root, p.i4)
    requires PtOf(s3.mem, root, p).Some?
    ensures (PtOf(s3.mem, r, b) == PtOf(s3.mem, root, p) && b.i1 == p.i1)
       <==> (b == p && (r == root || Shares(s.mem, r, root, p.i4)))
  {
    assert IsRoot(s3, root) && IsRoot(s3, r);
    assert SlotKept(s, s3, r, p.i4) || (r == root && SlotFilled(s, s3, r, p.i4));
    assert SlotKept(s, s3, root, p.i4) || SlotFilled(s, s3, root, p.i4);
    WalkRoles(s, r, p);
    if PtOf(s3.mem, r, b) == PtOf(s3.mem, root, p) {
      SamePtSameWay(s3, root, p, r, b);
    }
  }

  // ----- cloning a directory -----

  /** Frame `d` becomes a directory with the 512 entries of directory `k`. */
  function Clone(s: Space, k: nat, d: nat): Space
    requires k in s.mem
  {
    Space(s.mem[d := s.mem[k]], s.role[d := Root])
  }

  /** The clone translates like its original and no other directory notices. */
  lemma CloneEffect(s: Space, k: nat, d: nat)
    requires WellFormed(s) && IsRoot(s, k) && d !in s.role
    ensures var s' := Clone(s, k, d);
      && WellFormed(s') && IsRoot(s', d)
      && (forall g :: IsRoot(s', g) <==> (IsRoot(s, g) || g == d))
      && (forall p :: Walk(s'.mem, d, p) == Walk(s.mem, k, p))
      && (forall j: Index :: Child(s'.mem, d, j) == Child(s.mem, k, j))
      && (forall r, p :: IsRoot(s, r) ==> Walk(s'.mem, r, p) == Walk(s.mem, r, p))
      && (forall r, j: Index :: IsRoot(s, r) ==> Child(s'.mem, r, j) == Child(s.mem, r, j))
  {
    var s' := Clone(s, k, d);
    forall r, p | IsRoot(s, r)
      ensures Walk(s'.mem, r, p) == Walk(s.mem, r, p)
    {
      WalkRoles(s, r, p);
    }
    forall p
      ensures Walk(s'.mem, d, p) == Walk(s.mem, k, p)
    {
      WalkRoles(s, k, p);
    }
  }

  /** Overwriting a frame that is no table changes no translation. */
  lemma DataInvisible(s: Space, frame: nat, data: Table)
    requires WellFormed(s) && frame !in s.role
    ensures var s' := s.(mem := s.mem[frame := data]);
      && WellFormed(s')
      && (forall r, p :: IsRoot(s, r) ==> Walk(s'.mem, r, p) == Walk(s.mem, r, p))
      && (forall r, j: Index :: IsRoot(s, r) ==> Child(s'.mem, r, j) == Child(s.mem, r, j))
      && RightsKept(s, s')
  {
    var s' := s.(mem := s.mem[frame := data]);
    forall r, p | IsRoot(s, r)
      ensures Walk(s'.mem, r, p) == Walk(s.mem, r, p)
      ensures TablesOpen(s'.mem, r, p) == TablesOpen(s.mem, r, p)
    {
      WalkRoles(s, r, p);
    }
  }

  // ----- tables inside allocated pages -----

  /** Page tables next to the page bitmap their frames come from. */
  datatype Machine = Machine(space: Space, occupied: seq<bool>)

  /** Well-formed tables, each in an occupied page; memory behind every page. */
  ghost predicate Sound(m: Machine)
  {
    && WellFormed(m.space) && |m.occupied| <= 0x100_0000_0000
    && (forall f :: 0 <= f < |m.occupied| ==> f in m.space.mem)
    && (forall f :: f in m.space.role ==> f < |m.occupied| && m.occupied[f])
  }

  ghost predicate InUse(m: Machine, f: nat)
  {
    f < |m.occupied| && m.occupied[f]
  }

  /** Pages stay occupied, new tables sit in pages that were free, and no occupied page that is no table is written. */
  ghost predicate Grown(m: Machine, m': Machine)
  {
    && |m'.occupied| == |m.occupied|
    && (forall f :: InUse(m, f) ==> InUse(m', f))
    && (forall f :: f in m'.space.role && f !in m.space.role ==> !InUse(m, f))
    && (forall f :: InUse(m, f) && f !in m.space.role && f in m.space.mem ==>
          f in m'.space.mem && m'.space.mem[f] == m.space.mem[f])
  }

  /** Tables were added on the way below slot `slot` of directory `root`, and nothing else happened. */
  ghost predicate Adds(m: Machine, m': Machine, root: nat, slot: Index)
  {
    Sound(m') && Grown(m, m') && Extends(m.space, m'.space, root, slot)
  }

  lemma AddsNothing(m: Machine, root: nat, slot: Index)
    requires Sound(m)
    ensures Adds(m, m, root, slot)
  {
  }

  lemma AddsRoot(m: Machine, m': Machine, root: nat, slot: Index)
    requires Adds(m, m', root, slot) && IsRoot(m.space, root)
    ensures IsRoot(m'.space, root) && Sound(m') && Grown(m, m') && Extends(m.space, m'.space, root, slot)
  {
  }

  lemma AddsTwice(a: Machine, b: Machine, c: Machine, root: nat, slot: Index)
    requires Sound(a) && Adds(a, b, root, slot) && Adds(b, c, root, slot)
    ensures Adds(a, c, root, slot)
  {
    ExtendsTwice(a.space, b.space, c.space, root, slot);
  }

  /** Entry `i` of table `f` starts pointing to the newly allocated frame. */
  function AddTable(m: Machine, f: nat, i: Index, frame: nat): Machine
    requires f in m.space.mem && f in m.space.role && !m.space.role[f].Pt? && frame < |m.occupied|
  {
    Machine(Ensure(m.space, f, i, frame), m.occupied[frame := true])
  }

  lemma AddTableEffect(m: Machine, f: nat, i: Index, frame: nat, root: nat, slot: Index)
    requires Sound(m) && f in m.space.role && !m.space.role[f].Pt? && !Present(m.space.mem[f][i])
    requires frame < |m.occupied| && !m.occupied[frame]
    requires m.space.role[f].Root? ==> f == root && i == slot
    ensures var m' := AddTable(m, f, i, frame);
      && Adds(m, m', root, slot)
      && Child(m'.space.mem, f, i) == Some(frame) && Points(m'.space, frame, ChildRole(m.space.role[f], f, i))
  {
    EnsureWellFormed(m.space, f, i, frame);
    EnsureExtends(m.space, f, i, frame, root, slot);
    TableEntryDecodes(frame);
  }

  /** Adding tables puts no huge page on a path. */
  lemma AddsKeepsPath(m: Machine, m': Machine, root: nat, p: Path)
    requires Sound(m) && IsRoot(m.space, root) && NoHuge(m.space.mem, root, p)
    requires Adds(m, m', root, p.i4) && Child(m'.space.mem, root, p.i4).Some?
    ensures IsRoot(m'.space, root)
    ensures var pdpt := Child(m'.space.mem, root, p.i4).value;
      && !HugeAt(m'.space.mem, pdpt, p.i3)
      && var pd := Child(m'.space.mem, pdpt, p.i3);
         pd.Some? ==> IsPd(m'.space, pd.value) && !HugeAt(m'.space.mem, pd.value, p.i2)
  {
  }

  /** What a walk reached before more tables were added it still reaches. */
  lemma AddsKeepsChild(m: Machine, m': Machine, f: nat, i: Index)
    requires Sound(m) && f in m.space.role && Child(m.space.mem, f, i).Some?
    requires EntriesKept(m.space, m'.space)
    ensures Child(m'.space.mem, f, i) == Child(m.space.mem, f, i)
  {
  }

  lemma AddsKeepsRootChild(m: Machine, m': Machine, root: nat, slot: Index, child: nat)
    requires Sound(m) && Adds(m, m', root, slot) && IsRoot(m.space, root)
    requires Child(m.space.mem, root, slot) == Some(child)
    ensures Child(m'.space.mem, root, slot) == Some(child)
  {
    AddsKeepsChild(m, m', root, slot);
  }

  lemma NoHugeAtRoot(mem: Memory, root: nat, p: Path)
    requires NoHuge(mem, root, p)
    ensures !HugeAt(mem, root, p.i4)
  {
  }

  lemma AddsKeepsPd(m: Machine, m': Machine, root: nat, p: Path, pd: nat)
    requires Sound(m) && Adds(m, m', root, p.i4) && IsRoot(m.space, root) && PdOf(m.space.mem, root, p) == Some(pd)
    ensures PdOf(m'.space.mem, root, p) == Some(pd)
  {
    WalkRoles(m.space, root, p);
  }

  /** The last step of a map: writing the page entry once all tables are there. */
  lemma MapLastStep(m: Machine, m3: Machine, root: nat, p: Path, pt: nat, entry: nat)
    requires Sound(m) && IsRoot(m.space, root) && Present(entry)
    requires Adds(m, m3, root, p.i4) && PtOf(m3.space.mem, root, p) == Some(pt)
    ensures pt in m3.space.mem
    ensures var m' := m3.(space := WriteLeaf(m3.space, pt, p.i1, entry));
      Sound(m') && Grown(m, m') && IsRoot(m'.space, root) && Mapped(m.space, m'.space, root, p, entry)
  {
    MapEffect(m.space, m3.space, root, p, entry);
    assert IsRoot(m3.space, root);
    WalkRoles(m3.space, root, p);
  }

  /** Cloning into a page that was free keeps everything sound. */
  lemma CloneSound(m: Machine, k: nat, d: nat)
    requires Sound(m) && IsRoot(m.space, k) && d < |m.occupied| && !m.occupied[d]
    ensures Sound(Machine(Clone(m.space, k, d), m.occupied[d := true]))
    ensures d != k && k in m.space.mem && d in m.space.mem && d !in m.space.role
  {
    CloneEffect(m.space, k, d);
  }
}
