/** Where the kernel's own walk, which ignores the page-size bit, differs from the processor's. */
module HugePages {
  import opened Options
  import opened PageIndex
  import opened PageTables

  /** The processor's translation with 0 for unmapped, as the kernel answers. */
  function Target(mem: Memory, root: nat, address: nat): nat
  {
    match Translate(mem, root, address)
    case None => 0
    case Some(x) => x
  }

  ghost predicate Agree(mem: Memory, root: nat, address: nat)
  {
    SoftWalk(mem, root, address) == Target(mem, root, address)
  }

  /** `mem` holds the tables of `s`; all other frames may hold anything. */
  ghost predicate SameTables(s: Space, mem: Memory)
  {
    forall f :: f in s.role ==> f in mem && f in s.mem && mem[f] == s.mem[f]
  }

  /** The entry with the page-size bit that path `p` meets first, if any. */
  function HugeEntry(mem: Memory, root: nat, p: Path): Option<nat>
  {
    if HugeAt(mem, root, p.i4) then Some(mem[root][p.i4]) else
    match Walk(mem, root, p)
    case Unmapped => None
    case Page(level, entry) => if level == 1 then None else Some(entry)
  }

  /** The page that entry maps is no table. */
  ghost predicate HugeIsData(s: Space, root: nat, p: Path)
  {
    match HugeEntry(s.mem, root, p)
    case None => true
    case Some(entry) => EntryFrame(entry) !in s.role
  }

  lemma SameTablesWalk(s: Space, mem: Memory, root: nat, p: Path)
    requires WellFormed(s) && IsRoot(s, root) && SameTables(s, mem)
    ensures Walk(mem, root, p) == Walk(s.mem, root, p) && HugeAt(mem, root, p.i4) == HugeAt(s.mem, root, p.i4)
    ensures HugeEntry(mem, root, p) == HugeEntry(s.mem, root, p)
  {
    WalkRoles(s, root, p);
  }

  /** A table whose entries all point to frame `h`. */
  function Filled(h: nat): (t: Table)
    ensures forall i: Index :: t[i] == TableEntry(h)
  {
    seq(512, i => TableEntry(h))
  }

  /** Memory in which the kernel's walk ends as soon as it takes the data frame `g` for a table. */
  function Ending(s: Space, g: nat): Memory
  {
    s.mem[g := ZeroTable()]
  }

  /** Memory in which the kernel's walk goes on from data frame `g` to frame `h` and stays there. */
  function Looping(s: Space, g: nat, h: nat): Memory
  {
    s.mem[g := Filled(h)][h := Filled(h)]
  }

  /** A 2-MiB page whose first frame holds no present word at the lowest index is mapped, but the kernel says it is
      not. */
  lemma HugePageUnseen(mem: Memory, root: nat, address: nat)
    requires Walk(mem, root, PathOf(address)).Page? && Walk(mem, root, PathOf(address)).level == 2
    requires !Present(ReadEntry(mem, EntryFrame(Walk(mem, root, PathOf(address)).entry), PathOf(address).i1))
    ensures SoftWalk(mem, root, address) == 0 && Translate(mem, root, address).Some?
  {
  }

  /** Every frame the kernel's walk reads is a table. */
  ghost predicate OnTables(s: Space, root: nat, p: Path)
    requires root in s.role && s.role.Keys <= s.mem.Keys
  {
    Present(s.mem[root][p.i4]) ==>
      var pdpt := EntryFrame(s.mem[root][p.i4]);
      pdpt in s.role && (Present(s.mem[pdpt][p.i3]) ==>
        var pd := EntryFrame(s.mem[pdpt][p.i3]);
        pd in s.role && (Present(s.mem[pd][p.i2]) ==> EntryFrame(s.mem[pd][p.i2]) in s.role))
  }

  /** The first frame the kernel's walk reads that is no table. */
  function FirstData(s: Space, root: nat, p: Path): nat
    requires root in s.role && s.role.Keys <= s.mem.Keys && !OnTables(s, root, p)
  {
    var pdpt := EntryFrame(s.mem[root][p.i4]);
    if pdpt !in s.role then pdpt else
    var pd := EntryFrame(s.mem[pdpt][p.i3]);
    if pd !in s.role then pd else EntryFrame(s.mem[pd][p.i2])
  }

  /** On tables alone the kernel's walk does not depend on what other frames hold. */
  lemma OnTablesFixed(s: Space, mem: Memory, root: nat, address: nat)
    requires WellFormed(s) && IsRoot(s, root) && SameTables(s, mem) && OnTables(s, root, PathOf(address))
    ensures SoftWalk(mem, root, address) == SoftWalk(s.mem, root, address)
  {
  }

  /** Off the tables what a data frame holds decides whether the kernel's walk finds anything. */
  lemma OffTablesFree(s: Space, root: nat, address: nat, h: nat)
    requires WellFormed(s) && IsRoot(s, root) && !OnTables(s, root, PathOf(address))
    requires 0 < h < 0x100_0000_0000 && h !in s.role
    ensures var g := FirstData(s, root, PathOf(address));
      && g !in s.role
      && SoftWalk(Ending(s, g), root, address) == 0 && SoftWalk(Looping(s, g, h), root, address) != 0
  {
    TableEntryDecodes(h);
  }

  /** Off the huge pages the kernel's walk reads tables only; past a huge page that holds no table it does not. */
  lemma NoHugeOnTables(s: Space, root: nat, p: Path)
    requires WellFormed(s) && IsRoot(s, root)
    ensures NoHuge(s.mem, root, p) ==> OnTables(s, root, p)
    ensures !NoHuge(s.mem, root, p) && HugeIsData(s, root, p) ==> !OnTables(s, root, p)
  {
    WalkRoles(s, root, p);
  }

  /** The two walks agree whatever the frames hold that are no tables, if and only if the kernel's walk reads tables
      only and they agree as things are. */
  lemma AgreeExactly(s: Space, root: nat, address: nat, h: nat)
    requires WellFormed(s) && IsRoot(s, root) && 0 < h < 0x100_0000_0000 && h !in s.role
    ensures (forall mem :: SameTables(s, mem) ==> Agree(mem, root, address))
       <==> OnTables(s, root, PathOf(address)) && Agree(s.mem, root, address)
  {
    var p := PathOf(address);
    assert SameTables(s, s.mem);
    if OnTables(s, root, p) {
      forall mem | SameTables(s, mem)
        ensures Agree(mem, root, address) == Agree(s.mem, root, address)
      {
        OnTablesFixed(s, mem, root, address);
        SameTablesWalk(s, mem, root, p);
      }
    } else {
      OffTablesFree(s, root, address, h);
      var g := FirstData(s, root, p);
      var a, b := Ending(s, g), Looping(s, g, h);
      assert SameTables(s, a) && SameTables(s, b);
      SameTablesWalk(s, a, root, p);
      SameTablesWalk(s, b, root, p);
      assert Target(a, root, address) == Target(b, root, address);
    }
  }

  /** For huge pages that hold no table: they agree for every content if and only if the path meets no huge page. */
  lemma AgreeOffHugePages(s: Space, root: nat, address: nat, h: nat)
    requires WellFormed(s) && IsRoot(s, root) && HugeIsData(s, root, PathOf(address))
    requires 0 < h < 0x100_0000_0000 && h !in s.role
    ensures (forall mem :: SameTables(s, mem) ==> Agree(mem, root, address)) <==> NoHuge(s.mem, root, PathOf(address))
  {
    AgreeExactly(s, root, address, h);
    NoHugeOnTables(s, root, PathOf(address));
    if NoHuge(s.mem, root, PathOf(address)) {
      SoftWalkAgrees(s.mem, root, address);
    }
  }
}
