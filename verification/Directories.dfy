/** Whole runs of directory clones and maps: which directories see which map. */
module Directories {
  import opened Options
  import opened PageIndex
  import opened PageTables

  /** `CloneKernel(d)` makes frame `d` a copy of the kernel's directory; `MapIn` maps a page through `root`. */
  datatype Event = CloneKernel(d: nat) | MapIn(root: nat, p: Path, entry: nat)

  ghost predicate Step(kernel: nat, s: Space, e: Event, s': Space)
  {
    match e
    case CloneKernel(d) => d !in s.role && kernel in s.mem && s' == Clone(s, kernel, d)
    case MapIn(root, p, entry) => IsRoot(s, root) && Present(entry) && Mapped(s, s', root, p, entry)
  }

  /** `ss` are the spaces before, between and after the events `es`. */
  ghost predicate Behavior(kernel: nat, ss: seq<Space>, es: seq<Event>)
  {
    && |ss| == |es| + 1
    && WellFormed(ss[0]) && IsRoot(ss[0], kernel)
    && forall n :: 0 <= n < |es| ==> Step(kernel, ss[n], es[n], ss[n + 1])
  }

  lemma StepKeeps(kernel: nat, s: Space, e: Event, s': Space)
    requires WellFormed(s) && IsRoot(s, kernel) && Step(kernel, s, e, s')
    ensures WellFormed(s')
    ensures forall r :: IsRoot(s, r) ==> IsRoot(s', r)
    ensures forall r :: IsRoot(s', r) ==> IsRoot(s, r) || e == CloneKernel(r)
  {
    if e.CloneKernel? {
      CloneEffect(s, kernel, e.d);
    }
  }

  lemma {:induction false} BehaviorKeeps(kernel: nat, ss: seq<Space>, es: seq<Event>, m: nat, n: nat)
    requires Behavior(kernel, ss, es) && m <= n <= |es|
    ensures WellFormed(ss[n]) && IsRoot(ss[n], kernel)
    ensures forall r :: IsRoot(ss[m], r) ==> IsRoot(ss[n], r)
    decreases n
  {
    if n > 0 {
      assert Step(kernel, ss[n - 1], es[n - 1], ss[n]);
      if m < n {
        BehaviorKeeps(kernel, ss, es, m, n - 1);
      } else {
        BehaviorKeeps(kernel, ss, es, n - 1, n - 1);
      }
      StepKeeps(kernel, ss[n - 1], es[n - 1], ss[n]);
    }
  }

  /** Whether two existing directories share a slot never changes. */
  lemma SharingFixed(kernel: nat, s: Space, e: Event, s': Space, r: nat, r': nat, slot: Index)
    requires WellFormed(s) && IsRoot(s, kernel) && Step(kernel, s, e, s')
    requires IsRoot(s, r) && IsRoot(s, r') && r != r'
    ensures Shares(s'.mem, r, r', slot) <==> Shares(s.mem, r, r', slot)
  {
    match e
    case CloneKernel(d) =>
      CloneEffect(s, kernel, d);
    case MapIn(root, p, entry) =>
      assert SlotKept(s, s', r, slot) || (r == root && slot == p.i4 && SlotFilled(s, s', r, slot));
      assert SlotKept(s, s', r', slot) || (r' == root && slot == p.i4 && SlotFilled(s, s', r', slot));
      WalkRoles(s, r, p.(i4 := slot));
      WalkRoles(s, r', p.(i4 := slot));
  }

  /** The slot was absent from the kernel's directory when event `i` cloned it into `d`. */
  ghost predicate BornPrivate(kernel: nat, ss: seq<Space>, es: seq<Event>, i: nat, d: nat, slot: Index)
  {
    i < |es| < |ss| && es[i] == CloneKernel(d) && Child(ss[i].mem, kernel, slot) == None
  }

  ghost predicate BornShared(kernel: nat, ss: seq<Space>, es: seq<Event>, i: nat, d: nat, slot: Index)
  {
    i < |es| < |ss| && es[i] == CloneKernel(d) && Child(ss[i].mem, kernel, slot).Some?
  }

  /** A private slot of a clone is never shared with any other directory, existing or cloned later. */
  lemma {:induction false} PrivateForever(kernel: nat, ss: seq<Space>, es: seq<Event>, i: nat, d: nat, slot: Index,
                                          n: nat)
    requires Behavior(kernel, ss, es) && BornPrivate(kernel, ss, es, i, d, slot) && i < n <= |es|
    ensures IsRoot(ss[n], d) && d != kernel
    ensures forall r :: IsRoot(ss[n], r) && r != d ==> !Shares(ss[n].mem, r, d, slot)
    decreases n
  {
    BehaviorKeeps(kernel, ss, es, i, n - 1);
    assert Step(kernel, ss[n - 1], es[n - 1], ss[n]);
    if n == i + 1 {
      CloneEffect(ss[i], kernel, d);
    } else {
      PrivateForever(kernel, ss, es, i, d, slot, n - 1);
      StepKeeps(kernel, ss[n - 1], es[n - 1], ss[n]);
      forall r | IsRoot(ss[n], r) && r != d
        ensures !Shares(ss[n].mem, r, d, slot)
      {
        if IsRoot(ss[n - 1], r) {
          SharingFixed(kernel, ss[n - 1], es[n - 1], ss[n], r, d, slot);
        } else {
          CloneEffect(ss[n - 1], kernel, r);
          assert !Shares(ss[n - 1].mem, kernel, d, slot);
        }
      }
    }
  }

  /** A slot present in the kernel's directory at cloning time stays shared with the kernel for ever. */
  lemma {:induction false} SharedForever(kernel: nat, ss: seq<Space>, es: seq<Event>, i: nat, d: nat, slot: Index,
                                         n: nat)
    requires Behavior(kernel, ss, es) && BornShared(kernel, ss, es, i, d, slot) && i < n <= |es|
    ensures IsRoot(ss[n], d) && d != kernel && Shares(ss[n].mem, kernel, d, slot)
    decreases n
  {
    BehaviorKeeps(kernel, ss, es, i, n - 1);
    assert Step(kernel, ss[n - 1], es[n - 1], ss[n]);
    if n == i + 1 {
      CloneEffect(ss[i], kernel, d);
    } else {
      SharedForever(kernel, ss, es, i, d, slot, n - 1);
      StepKeeps(kernel, ss[n - 1], es[n - 1], ss[n]);
      SharingFixed(kernel, ss[n - 1], es[n - 1], ss[n], kernel, d, slot);
    }
  }

  /** A fresh clone translates every address as the kernel does. */
  lemma CloneTranslatesLikeKernel(kernel: nat, ss: seq<Space>, es: seq<Event>, i: nat, address: nat)
    requires Behavior(kernel, ss, es) && i < |es| && es[i].CloneKernel?
    ensures Translate(ss[i + 1].mem, es[i].d, address) == Translate(ss[i].mem, kernel, address)
         == Translate(ss[i + 1].mem, kernel, address)
  {
    BehaviorKeeps(kernel, ss, es, i, i);
    assert Step(kernel, ss[i], es[i], ss[i + 1]);
    CloneEffect(ss[i], kernel, es[i].d);
  }

  /** A map in a private slot of a clone changes no translation of the kernel or of any other directory. */
  lemma PrivateMapUnseen(kernel: nat, ss: seq<Space>, es: seq<Event>, i: nat, n: nat, r: nat, b: Path)
    requires Behavior(kernel, ss, es) && i < n < |es| && es[n].MapIn?
    requires BornPrivate(kernel, ss, es, i, es[n].root, es[n].p.i4)
    requires IsRoot(ss[n], r) && r != es[n].root
    ensures Walk(ss[n + 1].mem, r, b) == Walk(ss[n].mem, r, b)
  {
    PrivateForever(kernel, ss, es, i, es[n].root, es[n].p.i4, n);
    assert Step(kernel, ss[n], es[n], ss[n + 1]);
  }

  /** A map in a slot that was the kernel's at cloning time is seen by the kernel and by every clone born with the
      slot, whichever of them it goes through. */
  lemma SharedMapSeen(kernel: nat, ss: seq<Space>, es: seq<Event>, i: nat, j: nat, d: nat, n: nat)
    requires Behavior(kernel, ss, es) && i < n < |es| && j < n && es[n].MapIn?
    requires es[n].root == kernel || BornShared(kernel, ss, es, j, es[n].root, es[n].p.i4)
    requires BornShared(kernel, ss, es, i, d, es[n].p.i4)
    ensures Walk(ss[n + 1].mem, d, es[n].p) == Walk(ss[n + 1].mem, kernel, es[n].p) == Page(1, es[n].entry)
  {
    var slot := es[n].p.i4;
    BehaviorKeeps(kernel, ss, es, n, n);
    SharedForever(kernel, ss, es, i, d, slot, n);
    if es[n].root != kernel {
      SharedForever(kernel, ss, es, j, es[n].root, slot, n);
    }
    assert Step(kernel, ss[n], es[n], ss[n + 1]);
  }

  /** Every map so far went through a clone, in a slot private to it. */
  ghost predicate OnlyPrivateMaps(kernel: nat, ss: seq<Space>, es: seq<Event>)
  {
    forall n :: 0 <= n < |es| && es[n].MapIn? ==>
      exists i: nat :: i < n && BornPrivate(kernel, ss, es, i, es[n].root, es[n].p.i4)
  }

  /** However many clones are made and however much is mapped in their private slots, the kernel's translations stay. */
  lemma {:induction false} KernelUntouched(kernel: nat, ss: seq<Space>, es: seq<Event>, n: nat, b: Path)
    requires Behavior(kernel, ss, es) && OnlyPrivateMaps(kernel, ss, es) && n <= |es|
    ensures Walk(ss[n].mem, kernel, b) == Walk(ss[0].mem, kernel, b)
  {
    if n > 0 {
      KernelUntouched(kernel, ss, es, n - 1, b);
      BehaviorKeeps(kernel, ss, es, n - 1, n - 1);
      assert Step(kernel, ss[n - 1], es[n - 1], ss[n]);
      match es[n - 1]
      case CloneKernel(d) =>
        CloneEffect(ss[n - 1], kernel, d);
      case MapIn(root, p, entry) =>
        var i: nat :| i < n - 1 && BornPrivate(kernel, ss, es, i, root, p.i4);
        PrivateForever(kernel, ss, es, i, root, p.i4, n - 1);
        PrivateMapUnseen(kernel, ss, es, i, n - 1, kernel, b);
    }
  }
}
