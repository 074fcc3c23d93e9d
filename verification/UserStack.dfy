/** The user stack of a new task: four fresh pages below USER_STACK_TOP, mapped in the task's own directory. */
module UserStack {
  import opened KernelLayout
  import opened Options
  import opened PageIndex
  import opened PageTables
  import opened Paging
  import opened PmmModel

  const STACK_FLAGS: Flags := 6

  /** The lowest address of stack page `i`; the stack grows downward from the top. */
  function StackPage(i: nat): nat
  {
    USER_STACK_TOP - DEFAULT_STACK_SIZE_IN_PAGES * 0x1000 + i * 0x1000
  }

  const STACK_SLOT: Index := 191

  function StackPath(i: nat): Path
    requires i < DEFAULT_STACK_SIZE_IN_PAGES
  {
    Path(STACK_SLOT, 511, 511, 508 + i)
  }

  lemma StackPageInPath(i: nat, address: nat)
    requires i < DEFAULT_STACK_SIZE_IN_PAGES && StackPage(i) <= address < StackPage(i + 1)
    ensures PathOf(address) == StackPath(i)
  {
    assert StripSx(address) == address;
    assert address / 0x1000 == 0x5_FFFF_FFFC + i;
    assert address / 0x20_0000 == 0x2FF_FFFF;
    assert address / 0x4000_0000 == 0x1_7FFF;
    assert address / 0x80_0000_0000 == 0xBF;
  }

  /** Whether path `b` is one of the first `n` stack pages. */
  predicate IsStackPath(b: Path, n: nat)
  {
    b.i4 == STACK_SLOT && b.i3 == 511 && b.i2 == 511 && 508 <= b.i1 < 508 + n
  }

  /** Where walk `b` of directory `r` lands once `frames` back the first stack pages of directory `dir`. */
  function StackWalk(s0: Space, dir: nat, frames: seq<nat>, r: nat, b: Path): Landing
  {
    if IsStackPath(b, |frames|) && (r == dir || Shares(s0.mem, r, dir, STACK_SLOT))
    then Page(1, LeafEntry(frames[b.i1 - 508] * 0x1000, STACK_FLAGS))
    else Walk(s0.mem, r, b)
  }

  /** From `s0` to `s` the first stack pages of `dir` were mapped to `frames`, and nothing else changed for anyone. */
  ghost predicate StackSoFar(s0: Space, s: Space, dir: nat, frames: seq<nat>)
  {
    && WellFormed(s) && IsRoot(s, dir)
    && (forall r :: IsRoot(s0, r) ==> IsRoot(s, r))
    && (forall r, b :: IsRoot(s0, r) ==> Walk(s.mem, r, b) == StackWalk(s0, dir, frames, r, b))
    && (forall r :: IsRoot(s0, r) && r != dir ==>
          (Shares(s.mem, r, dir, STACK_SLOT) <==> Shares(s0.mem, r, dir, STACK_SLOT)))
    && RightsKept(s0, s)
  }

  lemma MapStackPage(s0: Space, s: Space, s': Space, dir: nat, frames: seq<nat>, f: nat)
    requires WellFormed(s0) && IsRoot(s0, dir) && StackSoFar(s0, s, dir, frames)
    requires |frames| < DEFAULT_STACK_SIZE_IN_PAGES
    requires Mapped(s, s', dir, StackPath(|frames|), LeafEntry(f * 0x1000, STACK_FLAGS))
    ensures StackSoFar(s0, s', dir, frames + [f])
  {
    var p := StackPath(|frames|);
    RightsKeptTwice(s0, s, s');
    hide RightsKept;
    forall r | IsRoot(s0, r) && r != dir
      ensures Shares(s'.mem, r, dir, STACK_SLOT) <==> Shares(s.mem, r, dir, STACK_SLOT)
    {
      assert IsRoot(s, r);
      assert SlotKept(s, s', r, STACK_SLOT);
      assert SlotKept(s, s', dir, STACK_SLOT) || SlotFilled(s, s', dir, STACK_SLOT);
      WalkRoles(s, r, p);
    }
    forall r, b | IsRoot(s0, r)
      ensures Walk(s'.mem, r, b) == StackWalk(s0, dir, frames + [f], r, b)
    {
      assert IsRoot(s, r);
      assert Walk(s'.mem, r, b) == WalkAfterMap(s, dir, p, LeafEntry(f * 0x1000, STACK_FLAGS), r, b);
    }
  }

  /** Clearing a data page changes nothing. */
  lemma ClearStackPage(s0: Space, s: Space, dir: nat, frames: seq<nat>, f: nat)
    requires StackSoFar(s0, s, dir, frames) && f !in s.role
    ensures StackSoFar(s0, s.(mem := s.mem[f := ZeroTable()]), dir, frames)
  {
    DataInvisible(s, f, ZeroTable());
    RightsKeptTwice(s0, s, s.(mem := s.mem[f := ZeroTable()]));
    hide RightsKept;
    forall r, b | IsRoot(s0, r)
      ensures Walk(s.mem[f := ZeroTable()], r, b) == StackWalk(s0, dir, frames, r, b)
    {
      assert IsRoot(s, r);
    }
  }

  /** While pages are being mapped the remaining stack paths stay free of huge pages. */
  lemma StackNoHuge(s0: Space, s: Space, dir: nat, frames: seq<nat>)
    requires StackSoFar(s0, s, dir, frames) && IsRoot(s0, dir) && |frames| < DEFAULT_STACK_SIZE_IN_PAGES
    requires forall i :: 0 <= i < DEFAULT_STACK_SIZE_IN_PAGES ==> NoHuge(s0.mem, dir, StackPath(i))
    requires frames == [] ==> s.mem == s0.mem
    ensures NoHuge(s.mem, dir, StackPath(|frames|))
  {
    var p := StackPath(|frames|);
    assert Walk(s.mem, dir, p) == StackWalk(s0, dir, frames, dir, p) == Walk(s0.mem, dir, p);
    if frames != [] {
      assert Walk(s.mem, dir, StackPath(0)) == StackWalk(s0, dir, frames, dir, StackPath(0));
      assert Walk(s.mem, dir, StackPath(0)).Page?;
    }
  }

  /** The outcome: every stack address of `dir` translates into its own frame. */
  lemma StackTranslates(s0: Space, s: Space, dir: nat, frames: seq<nat>, i: nat, address: nat)
    requires StackSoFar(s0, s, dir, frames) && IsRoot(s0, dir) && |frames| == DEFAULT_STACK_SIZE_IN_PAGES
    requires i < DEFAULT_STACK_SIZE_IN_PAGES && StackPage(i) <= address < StackPage(i + 1)
    requires frames[i] < 0x100_0000_0000
    ensures Translate(s.mem, dir, address) == Some(frames[i] * 0x1000 + (address - StackPage(i)))
  {
    StackPageInPath(i, address);
    LeafEntryDecodes(frames[i] * 0x1000, STACK_FLAGS);
    assert Walk(s.mem, dir, StackPath(i)) == StackWalk(s0, dir, frames, dir, StackPath(i));
  }

  /** Every stack page of `dir` ends at a present entry with the write bit and the user bit, and user code may write to
      it exactly when the tables that were there before let it: every table entry added on the way has both bits. */
  lemma StackRights(s0: Space, s: Space, dir: nat, frames: seq<nat>, i: nat)
    requires StackSoFar(s0, s, dir, frames) && IsRoot(s0, dir) && |frames| == DEFAULT_STACK_SIZE_IN_PAGES
    requires i < DEFAULT_STACK_SIZE_IN_PAGES
    ensures var l := Walk(s.mem, dir, StackPath(i));
      l.Page? && l.level == 1 && l.entry % 2 == 1 && l.entry / 2 % 2 == 1 && l.entry / 4 % 2 == 1
    ensures UserWritable(s.mem, dir, StackPath(i)) <==> TablesOpen(s0.mem, dir, StackPath(i))
    ensures !Present(ReadEntry(s0.mem, dir, STACK_SLOT)) ==> UserWritable(s.mem, dir, StackPath(i))
  {
    LeafEntryBits(frames[i] * 0x1000, STACK_FLAGS);
    assert Walk(s.mem, dir, StackPath(i)) == StackWalk(s0, dir, frames, dir, StackPath(i));
    assert TablesOpen(s.mem, dir, StackPath(i)) == TablesOpen(s0.mem, dir, StackPath(i));
  }

  /** No kernel translation changes unless the kernel shares the stack's slot with the task. */
  lemma StackUnseen(s0: Space, s: Space, dir: nat, frames: seq<nat>, kernel: nat, b: Path)
    requires StackSoFar(s0, s, dir, frames) && IsRoot(s0, kernel) && kernel != dir
    requires !Shares(s0.mem, kernel, dir, STACK_SLOT)
    ensures Walk(s.mem, kernel, b) == Walk(s0.mem, kernel, b)
  {
  }

  /** Frames handed out one after the other: each was free, none twice. */
  ghost predicate FreshFrames(m0: Machine, m: Machine, frames: seq<nat>)
  {
    && |m.occupied| == |m0.occupied|
    && (forall f :: InUse(m0, f) ==> InUse(m, f))
    && (forall i :: 0 <= i < |frames| ==> InUse(m, frames[i]) && !InUse(m0, frames[i]) && frames[i] !in m.space.role)
    && (forall i, j :: 0 <= i < j < |frames| ==> frames[i] != frames[j])
  }

  /** The pages behind the frames are zero. */
  ghost predicate Cleared(mem: Memory, frames: seq<nat>)
  {
    forall i :: 0 <= i < |frames| ==> frames[i] in mem && mem[frames[i]] == ZeroTable()
  }

  /** How many pages a user stack takes: its own, and the tables its path lacks. */
  function StackNeed(mem: Memory, dir: nat): nat
  {
    DEFAULT_STACK_SIZE_IN_PAGES + Missing(mem, dir, StackPath(0))
  }

  /** Once one stack page is mapped the others need no more tables. */
  lemma StackNeedsNoTables(s0: Space, s: Space, dir: nat, frames: seq<nat>)
    requires StackSoFar(s0, s, dir, frames) && IsRoot(s0, dir) && 0 < |frames| < DEFAULT_STACK_SIZE_IN_PAGES
    ensures Missing(s.mem, dir, StackPath(|frames|)) == 0
  {
    assert Walk(s.mem, dir, StackPath(0)) == StackWalk(s0, dir, frames, dir, StackPath(0));
    assert PtOf(s.mem, dir, StackPath(0)).Some?;
    MissingNone(s.mem, dir, StackPath(|frames|));
  }

  /** Map the stack pages of the directory in force. False is a panic, exactly when that is not the task's directory
      or fewer pages are free than the stack takes. */
  method StackMapUser(spaces: AddressSpaces, taskDir: nat) returns (ok: bool, ghost frames: seq<nat>)
    requires spaces.Valid()
    requires spaces.pageDir == taskDir ==>
      forall i :: 0 <= i < DEFAULT_STACK_SIZE_IN_PAGES ==> NoHuge(spaces.mem, taskDir, StackPath(i))
    modifies spaces`mem, spaces`role, spaces`occupied, spaces.pmm.Repr()
    ensures spaces.pmm.Repr() == old(spaces.pmm.Repr()) && spaces.Valid()
    ensures ok <==>
      old(spaces.pageDir) == taskDir && StackNeed(old(spaces.mem), taskDir) <= Spare(old(spaces.occupied))
    ensures ok ==>
      && |frames| == DEFAULT_STACK_SIZE_IN_PAGES
      && StackSoFar(old(spaces.State().space), spaces.State().space, taskDir, frames)
      && FreshFrames(old(spaces.State()), spaces.State(), frames) && Cleared(spaces.mem, frames)
      && Spare(spaces.occupied) == Spare(old(spaces.occupied)) - StackNeed(old(spaces.mem), taskDir)
  {
    hide Spare, Missing, StackPath, StackSoFar, FreshFrames, Sound, NoHuge;
    frames := [];
    if spaces.pageDir != taskDir {
      return false, frames;
    }
    ghost var m0 := spaces.State();
    StackNothingYet(m0, taskDir);
    for i := 0 to DEFAULT_STACK_SIZE_IN_PAGES
      invariant spaces.pmm.Repr() == old(spaces.pmm.Repr()) && spaces.Valid()
      invariant |frames| == i && StackSoFar(m0.space, spaces.State().space, taskDir, frames)
      invariant FreshFrames(m0, spaces.State(), frames) && Cleared(spaces.mem, frames)
      invariant i == 0 ==> spaces.mem == m0.space.mem
      invariant Spare(spaces.occupied) == Spare(m0.occupied) -
        if i == 0 then 0 else i + Missing(m0.space.mem, taskDir, StackPath(0))
    {
      if i > 0 {
        StackNeedsNoTables(m0.space, spaces.State().space, taskDir, frames);
      }
      ghost var frame;
      ok, frame := StackMapPage(spaces, i, m0, frames);
      frames := frames + [frame];
      if !ok {
        return false, frames;
      }
    }
    return true, frames;
  }

  lemma StackNothingYet(m: Machine, dir: nat)
    requires Sound(m) && IsRoot(m.space, dir)
    ensures StackSoFar(m.space, m.space, dir, []) && FreshFrames(m, m, [])
  {
  }

  /** One round of the loop: allocate, map, clear. False is a panic, exactly when the page and the tables it lacks are
      more than the free pages. */
  method StackMapPage(spaces: AddressSpaces, i: nat, ghost m0: Machine, ghost frames: seq<nat>)
    returns (ok: bool, ghost f: nat)
    requires spaces.Valid() && Sound(m0) && IsRoot(m0.space, spaces.pageDir)
    requires |frames| == i < DEFAULT_STACK_SIZE_IN_PAGES
    requires forall j :: 0 <= j < DEFAULT_STACK_SIZE_IN_PAGES ==> NoHuge(m0.space.mem, spaces.pageDir, StackPath(j))
    requires StackSoFar(m0.space, spaces.State().space, spaces.pageDir, frames)
    requires FreshFrames(m0, spaces.State(), frames)
    requires i == 0 ==> spaces.mem == m0.space.mem
    requires Cleared(spaces.mem, frames)
    modifies spaces`mem, spaces`role, spaces`occupied, spaces.pmm.Repr()
    ensures spaces.pmm.Repr() == old(spaces.pmm.Repr()) && spaces.Valid()
    ensures ok <==> 1 + Missing(old(spaces.mem), spaces.pageDir, StackPath(i)) <= Spare(old(spaces.occupied))
    ensures ok ==>
      Spare(old(spaces.occupied)) == Spare(spaces.occupied) + 1 + Missing(old(spaces.mem), spaces.pageDir, StackPath(i))
    ensures ok ==> StackSoFar(m0.space, spaces.State().space, spaces.pageDir, frames + [f])
    ensures ok ==> FreshFrames(m0, spaces.State(), frames + [f]) && Cleared(spaces.mem, frames + [f])
  {
    hide WellFormed, StackSoFar, FreshFrames, Grown, Walk, StackPath, StackPage, Spare, Missing, Sound, NoHuge;
    ghost var before := spaces.State();
    var frame := spaces.AllocateFrame();
    f := 0;
    if frame == None {
      return false, f;
    }
    f := frame.value;
    ok := StackMapFrame(spaces, i, frame.value, m0, before, frames);
    if !ok {
      return false, f;
    }
    ghost var mapped := spaces.State();
    ClearStackPage(m0.space, mapped.space, spaces.pageDir, frames + [f], f);
    ClearSound(m0, mapped, f, spaces.pageDir, frames + [f]);
    spaces.mem := spaces.mem[frame.value := ZeroTable()];
    assert spaces.State() == mapped.(space := mapped.space.(mem := mapped.space.mem[f := ZeroTable()]));
  }

  /** The map of the page just allocated. */
  method StackMapFrame(spaces: AddressSpaces, i: nat, f: nat,
                       ghost m0: Machine, ghost before: Machine, ghost frames: seq<nat>)
    returns (ok: bool)
    requires spaces.Linked() && Sound(before) && IsRoot(before.space, spaces.pageDir)
    requires Sound(m0) && IsRoot(m0.space, spaces.pageDir) && |frames| == i < DEFAULT_STACK_SIZE_IN_PAGES
    requires forall j :: 0 <= j < DEFAULT_STACK_SIZE_IN_PAGES ==> NoHuge(m0.space.mem, spaces.pageDir, StackPath(j))
    requires StackSoFar(m0.space, before.space, spaces.pageDir, frames) && FreshFrames(m0, before, frames)
    requires i == 0 ==> before.space.mem == m0.space.mem
    requires f < |before.occupied| && !before.occupied[f]
    requires spaces.State() == before.(occupied := before.occupied[f := true])
    requires Cleared(spaces.mem, frames)
    modifies spaces`mem, spaces`role, spaces`occupied, spaces.pmm.Repr()
    ensures spaces.pmm.Repr() == old(spaces.pmm.Repr()) && spaces.Valid()
    ensures ok <==> Missing(old(spaces.mem), spaces.pageDir, StackPath(i)) <= Spare(old(spaces.occupied))
    ensures ok ==>
      Spare(old(spaces.occupied)) == Spare(spaces.occupied) + Missing(old(spaces.mem), spaces.pageDir, StackPath(i))
    ensures ok ==> StackSoFar(m0.space, spaces.State().space, spaces.pageDir, frames + [f])
    ensures ok ==> FreshFrames(m0, spaces.State(), frames + [f]) && f !in spaces.role && Cleared(spaces.mem, frames)
  {
    hide WellFormed, Mapped, StackSoFar, Extends, Walk, Grown, FreshFrames, NoHuge, StackPath, StackPage;
    hide Spare, Missing, Cleared;
    StackPageStart(i);
    StackPageInPath(i, StackPage(i));
    StackNoHuge(m0.space, before.space, spaces.pageDir, frames);
    ghost var granted := spaces.State();
    ok := spaces.MapPage(StackPage(i), f * 0x1000, STACK_FLAGS);
    if ok {
      MapStackPage(m0.space, before.space, spaces.State().space, spaces.pageDir, frames, f);
      FreshFrame(m0, before, granted, spaces.State(), frames, f);
      GrownKeepsCleared(m0, before, granted, spaces.State(), frames, f);
    }
  }

  /** Mapping a page leaves the pages mapped before alone. */
  lemma GrownKeepsCleared(m0: Machine, before: Machine, granted: Machine, mapped: Machine, frames: seq<nat>, f: nat)
    requires FreshFrames(m0, before, frames) && Grown(granted, mapped) && Cleared(before.space.mem, frames)
    requires f < |before.occupied| && granted == before.(occupied := before.occupied[f := true])
    ensures Cleared(mapped.space.mem, frames)
  {
    forall g | g in frames
      ensures g in mapped.space.mem && mapped.space.mem[g] == ZeroTable()
    {
      assert InUse(before, g) && InUse(granted, g);
    }
  }

  lemma StackPageStart(i: nat)
    ensures StackPage(i) < StackPage(i + 1)
  {
  }

  lemma ClearSound(m0: Machine, m: Machine, f: nat, root: nat, frames: seq<nat>)
    requires Sound(m) && f !in m.space.role && IsRoot(m.space, root) && FreshFrames(m0, m, frames)
    ensures var m' := m.(space := m.space.(mem := m.space.mem[f := ZeroTable()]));
      Sound(m') && IsRoot(m'.space, root) && FreshFrames(m0, m', frames)
  {
    DataInvisible(m.space, f, ZeroTable());
  }

  lemma FreshFrame(m0: Machine, before: Machine, granted: Machine, mapped: Machine, frames: seq<nat>, f: nat)
    requires Sound(before) && Sound(granted) && Grown(granted, mapped) && FreshFrames(m0, before, frames)
    requires f < |before.occupied| && !before.occupied[f]
    requires granted == before.(occupied := before.occupied[f := true])
    ensures FreshFrames(m0, mapped, frames + [f]) && f !in mapped.space.role
  {
    forall g | g in frames + [f]
      ensures InUse(mapped, g) && !InUse(m0, g) && g !in mapped.space.role
    {
      assert InUse(granted, g);
    }
  }

  /** Switch to the task's directory, map its stack, switch back. On success the directory in force and the one
      recorded in the current task are what they were. False is a panic, exactly when one of the two directories has no
      translation where it is switched to, or fewer pages are free than the stack takes; directories in existing memory
      other than page 0 always have one. */
  method StackGenerateUser(spaces: AddressSpaces, taskDir: nat) returns (ok: bool, ghost frames: seq<nat>)
    requires spaces.Valid() && IsRoot(spaces.State().space, taskDir)
    requires spaces.taskInitialized ==> spaces.currentTaskDir == spaces.pageDir
    requires forall i :: 0 <= i < DEFAULT_STACK_SIZE_IN_PAGES ==> NoHuge(spaces.mem, taskDir, StackPath(i))
    modifies spaces, spaces.pmm.Repr()
    ensures spaces.pmm.Repr() == old(spaces.pmm.Repr())
    ensures ok <==>
      && DirectoryFound(spaces, old(spaces.mem), old(spaces.pageDir), taskDir)
      && StackNeed(old(spaces.mem), taskDir) <= Spare(old(spaces.occupied))
      && DirectoryFound(spaces, spaces.mem, taskDir, old(spaces.pageDir))
    ensures InMemory(spaces, taskDir) && InMemory(spaces, old(spaces.pageDir)) ==>
      (ok <==> StackNeed(old(spaces.mem), taskDir) <= Spare(old(spaces.occupied)))
    ensures ok ==>
      && spaces.Valid() && spaces.pageDir == old(spaces.pageDir)
      && spaces.taskInitialized == old(spaces.taskInitialized) && spaces.currentTaskDir == old(spaces.currentTaskDir)
      && |frames| == DEFAULT_STACK_SIZE_IN_PAGES
      && StackSoFar(old(spaces.State().space), spaces.State().space, taskDir, frames)
      && FreshFrames(old(spaces.State()), spaces.State(), frames) && Cleared(spaces.mem, frames)
      && Spare(spaces.occupied) == Spare(old(spaces.occupied)) - StackNeed(old(spaces.mem), taskDir)
  {
    hide WellFormed, StackSoFar, FreshFrames, Sound, StackNeed, VirtToPhysical, Spare, NoHuge, Cleared;
    frames := [];
    var oldPageDir := spaces.pageDir;
    InMemoryFound(spaces, spaces.mem, oldPageDir, taskDir);
    ok := spaces.ChangePageDir(taskDir);
    if !ok {
      return false, frames;
    }
    ok, frames := StackMapUser(spaces, taskDir);
    if !ok {
      return false, frames;
    }
    InMemoryFound(spaces, spaces.mem, taskDir, oldPageDir);
    StackKeepsRoot(old(spaces.State().space), spaces.State().space, taskDir, frames, oldPageDir);
    ok := spaces.ChangePageDir(oldPageDir);
  }

  /** The pointer of directory `pd` has a translation while directory `root` is in force. */
  ghost predicate DirectoryFound(spaces: AddressSpaces, mem: Memory, root: nat, pd: nat)
  {
    VirtToPhysical(mem, root, spaces.hhdmOffset, spaces.mmTotal, spaces.Pointer(pd)) != 0
  }

  ghost predicate InMemory(spaces: AddressSpaces, pd: nat)
  {
    pd != 0 && pd * 0x1000 <= spaces.mmTotal
  }

  lemma InMemoryFound(spaces: AddressSpaces, mem: Memory, root: nat, pd: nat)
    ensures InMemory(spaces, pd) ==> DirectoryFound(spaces, mem, root, pd)
  {
    if InMemory(spaces, pd) {
      PointerTranslates(mem, root, spaces.hhdmOffset, spaces.mmTotal, pd);
    }
  }

  lemma StackKeepsRoot(s0: Space, s: Space, dir: nat, frames: seq<nat>, r: nat)
    requires StackSoFar(s0, s, dir, frames) && IsRoot(s0, r)
    ensures IsRoot(s, r)
  {
  }

  /** Freeing the stack of a user task that never ran, through a directory without the stack's slot: the address it goes
      by has no translation, which is a panic of vmm_FreePages. */
  lemma UnmappedStackUnfreeable(mem: Memory, root: nat, hhdmOffset: nat, mmTotal: nat)
    requires !Present(ReadEntry(mem, root, STACK_SLOT))
    requires 0x5FFF_FFFF_C000 < hhdmOffset || 0x5FFF_FFFF_C000 > hhdmOffset + mmTotal
    ensures VirtToPhysical(mem, root, hhdmOffset, mmTotal,
              USER_STACK_TOP - DEFAULT_STACK_SIZE_IN_PAGES * 0x1000) == 0
  {
    assert StackPage(0) < StackPage(1);
    StackPageInPath(0, StackPage(0));
  }
}
