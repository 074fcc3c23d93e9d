/** Any number of threads allocating pages under PMM_LOCK, interleaved at the steps test-and-set, search, lock one page,
    clear. Threads free regions only while the lock is not held. */
module SpinLock {
  import opened Options
  import opened FirstFit
  import opened PmmModel
  import PmmRuns

  /** Where one thread stands inside pmm_AllocatePages. */
  datatype Pc =
    | Idle
    | Acquiring(n: nat)
    | Searching(n: nat)
    | Locking(n: nat, region: nat, done: nat)
    | Clearing(n: nat, region: nat)

  /** `live`, `committed`, `owner` and `log` are history: the regions handed out, the allocator state without the
      unfinished allocation, the lock's holder, and the finished operations in order. */
  datatype State = State(
    locked: bool, mem: Mem, pcs: seq<Pc>, halted: bool,
    live: seq<PmmRuns.Region>, committed: Mem, owner: Option<nat>, log: seq<PmmRuns.Op>)

  datatype Event = Request(t: nat, n: nat) | Advance(t: nat) | Release(k: nat)

  predicate Critical(pc: Pc)
  {
    pc.Searching? || pc.Locking? || pc.Clearing?
  }

  /** One step of thread `t` inside the allocator. */
  ghost function Next(s: State, t: nat): State
    requires t < |s.pcs|
  {
    match s.pcs[t]
    case Idle => s
    case Acquiring(n) =>
      // Test-and-set: the lock ends up set either way, and was acquired when it read as clear.
      if s.locked then s else s.(locked := true, owner := Some(t), pcs := s.pcs[t := Searching(n)])
    case Searching(n) =>
      var (r, found) := FindFree(s.mem, n);
      if r == None then s.(halted := true)
      else s.(mem := found, pcs := s.pcs[t := Locking(n, r.value, 0)])
    case Locking(n, region, done) =>
      if done < n && region + done < |s.mem.bits|
      then s.(mem := Apply(Lock, s.mem, region + done), pcs := s.pcs[t := Locking(n, region, done + 1)])
      else s.(pcs := s.pcs[t := Clearing(n, region)])
    case Clearing(n, region) =>
      s.(locked := false, pcs := s.pcs[t := Idle], live := s.live + [PmmRuns.Region(region, n)],
         committed := s.mem, owner := None, log := s.log + [PmmRuns.Alloc(n)])
  }

  ghost function Step(s: State, e: Event): State
  {
    if s.halted then s else
      match e
      case Request(t, n) =>
        if t < |s.pcs| && s.pcs[t].Idle? && n > 0 then s.(pcs := s.pcs[t := Acquiring(n)]) else s
      case Advance(t) =>
        if t < |s.pcs| then Next(s, t) else s
      case Release(k) =>
        if !s.locked && k < |s.live| && PmmRuns.InRange(s.live[k], s.mem) then
          var after := PmmRuns.Step(PmmRuns.Up(s.mem, s.live), PmmRuns.Release(k));
          s.(mem := after.mem, live := after.live, committed := after.mem, log := s.log + [PmmRuns.Release(k)])
        else s
  }

  ghost function Run(s: State, events: seq<Event>): State
  {
    if events == [] then s else Step(Run(s, events[..|events| - 1]), events[|events| - 1])
  }

  function Start(boot: Mem, threads: nat): State
  {
    State(false, boot, seq(threads, i => Idle), false, [], boot, None, [])
  }

  /** What the thread inside the critical section has done to the committed state so far. */
  ghost predicate Progress(s: State, pc: Pc)
  {
    match pc
    case Searching(n) => n > 0 && s.mem == s.committed
    case Locking(n, region, done) =>
      var (r, found) := FindFree(s.committed, n);
      n > 0 && done <= n && r == Some(region) && s.mem == ApplyRange(Lock, found, region, done)
    case Clearing(n, region) => n > 0 && Allocate(s.committed, n) == Allocated(region, s.mem)
    case _ => false
  }

  ghost predicate Inv(boot: Mem, s: State)
  {
    && PmmRuns.Run(PmmRuns.Up(boot, []), s.log) == PmmRuns.Up(s.committed, s.live)
    && s.locked == s.owner.Some?
    && (s.owner.Some? ==> s.owner.value < |s.pcs|)
    && (forall t :: 0 <= t < |s.pcs| ==> (Critical(s.pcs[t]) <==> s.owner == Some(t)))
    && (forall t :: 0 <= t < |s.pcs| && s.pcs[t].Acquiring? ==> s.pcs[t].n > 0)
    && (s.owner == None ==> s.mem == s.committed)
    && (s.owner.Some? ==> Progress(s, s.pcs[s.owner.value]))
  }

  lemma SearchKeepsInv(boot: Mem, s: State, t: nat)
    requires Inv(boot, s) && t < |s.pcs| && s.pcs[t].Searching?
    ensures Inv(boot, Next(s, t))
  {
    var n := s.pcs[t].n;
    assert s.owner == Some(t) && Progress(s, s.pcs[t]);
    var (r, found) := FindFree(s.mem, n);
    if r.Some? {
      assert FreeRun(s.mem.bits, r.value, n);
      assert ApplyRange(Lock, found, r.value, 0) == found;
      assert Progress(Next(s, t), Locking(n, r.value, 0));
    }
  }

  lemma LockKeepsInv(boot: Mem, s: State, t: nat)
    requires Inv(boot, s) && t < |s.pcs| && s.pcs[t].Locking?
    ensures Inv(boot, Next(s, t))
  {
    var Locking(n, region, done) := s.pcs[t];
    assert s.owner == Some(t) && Progress(s, s.pcs[t]);
    assert FreeRun(s.committed.bits, region, n);
    assert Progress(Next(s, t), Next(s, t).pcs[t]);
  }

  lemma ClearKeepsInv(boot: Mem, s: State, t: nat)
    requires Inv(boot, s) && t < |s.pcs| && s.pcs[t].Clearing?
    ensures Inv(boot, Next(s, t))
  {
    assert s.owner == Some(t) && Progress(s, s.pcs[t]);
    PmmRuns.StepExtends(PmmRuns.Up(boot, []), s.log, PmmRuns.Alloc(s.pcs[t].n));
  }

  lemma {:induction false} RunKeepsInv(boot: Mem, threads: nat, events: seq<Event>)
    ensures Inv(boot, Run(Start(boot, threads), events))
  {
    if events != [] {
      var s, e := Run(Start(boot, threads), events[..|events| - 1]), events[|events| - 1];
      RunKeepsInv(boot, threads, events[..|events| - 1]);
      if !s.halted {
        match e
        case Request(_, _) =>
        case Advance(t) =>
          if t < |s.pcs| {
            match s.pcs[t]
            case Idle =>
            case Acquiring(_) =>
            case Searching(_) => SearchKeepsInv(boot, s, t);
            case Locking(_, _, _) => LockKeepsInv(boot, s, t);
            case Clearing(_, _) => ClearKeepsInv(boot, s, t);
          }
        case Release(k) => PmmRuns.StepExtends(PmmRuns.Up(boot, []), s.log, PmmRuns.Release(k));
      }
    }
  }

  /** Test-and-set excludes: no interleaving ever has two threads between acquire and release. */
  lemma MutualExclusion(boot: Mem, threads: nat, events: seq<Event>, t: nat, u: nat)
    ensures var s := Run(Start(boot, threads), events);
      t < |s.pcs| && u < |s.pcs| && Critical(s.pcs[t]) && Critical(s.pcs[u]) ==> t == u && s.locked
  {
    RunKeepsInv(boot, threads, events);
  }

  /** Every interleaving has the effect of a sequential run: whenever the lock is free, bitmap, hint, counters and
      regions are exactly those of the finished operations executed one after the other. */
  lemma Linearizable(boot: Mem, threads: nat, events: seq<Event>)
    ensures var s := Run(Start(boot, threads), events);
      !s.locked ==> PmmRuns.Run(PmmRuns.Up(boot, []), s.log) == PmmRuns.Up(s.mem, s.live)
  {
    RunKeepsInv(boot, threads, events);
  }

  /** So no page is ever handed to two callers, and the hint is unsound only inside the critical section. */
  lemma NoPageTwice(boot: Mem, threads: nat, events: seq<Event>)
    requires HintOk(boot)
    ensures var s := Run(Start(boot, threads), events);
      && PmmRuns.Exclusive(boot, s.live)
      && (!s.locked ==> HintOk(s.mem))
  {
    RunKeepsInv(boot, threads, events);
    var s := Run(Start(boot, threads), events);
    PmmRuns.RunsAreSafe(boot, s.log);
    PmmRuns.SafeIsExclusive(boot, PmmRuns.Up(s.committed, s.live));
  }

  /** The hint really is unsound in between: right after a one-page search the page below it is still free. */
  lemma HintBrokenInside(m: Mem)
    requires HintOk(m) && exists page :: 0 <= page < |m.bits| && !m.bits[page]
    ensures FindFree(m, 1).0.Some? && !HintOk(FindFree(m, 1).1)
  {
    var page :| 0 <= page < |m.bits| && !m.bits[page];
    assert FreeRun(m.bits, page, 1);
    var start := FindFree(m, 1).0.value;
    assert FreeRun(m.bits, start, 1) && !m.bits[start];
  }

  // ----- progress -----

  /** How many more steps a thread takes, when it runs alone, until it has released the lock. */
  function StepsLeft(pc: Pc): nat
  {
    match pc
    case Idle => 0
    case Acquiring(n) => n + 4
    case Searching(n) => n + 3
    case Locking(n, _, done) => if done < n then n - done + 2 else 2
    case Clearing(_, _) => 1
  }

  /** `after` is `s` once thread `t` finished its allocation of `n` pages: the lock is free, the thread is idle, and
      exactly the lowest free run of the committed state was handed out; or, exactly when there is none, the kernel
      halted. */
  ghost predicate Finished(s: State, t: nat, n: nat, after: State)
    requires t < |s.pcs|
  {
    if forall start: nat :: !FreeRun(s.committed.bits, start, n) then after.halted
    else
      && !after.halted && !after.locked && after.pcs == s.pcs[t := Idle]
      && |after.live| == |s.live| + 1 && after.live[..|s.live|] == s.live
      && var region := after.live[|s.live|];
         && region.n == n && IsFirstFit(s.committed.bits, n, Some(region.start))
         && n > 0 && Allocate(s.committed, n) == Allocated(region.start, after.mem)
  }

  function Advances(t: nat, k: nat): seq<Event>
  {
    if k == 0 then [] else [Advance(t)] + Advances(t, k - 1)
  }

  /** The number of pages a thread is allocating. */
  function Wanted(pc: Pc): nat
    requires !pc.Idle?
  {
    pc.n
  }

  lemma RunStep(s: State, events: seq<Event>, e: Event)
    ensures Run(s, events + [e]) == Step(Run(s, events), e)
  {
    assert (events + [e])[..|events|] == events;
  }

  /** A thread that holds the lock, or finds it free, always reaches the release when only it advances. */
  lemma {:induction false} FinishesAlone(boot: Mem, threads: nat, events: seq<Event>, t: nat)
    requires var s := Run(Start(boot, threads), events);
      !s.halted && t < |s.pcs| && (Critical(s.pcs[t]) || (s.pcs[t].Acquiring? && !s.locked))
    ensures var s := Run(Start(boot, threads), events);
      Finished(s, t, Wanted(s.pcs[t]), Run(Start(boot, threads), events + Advances(t, StepsLeft(s.pcs[t]))))
    decreases StepsLeft(Run(Start(boot, threads), events).pcs[t])
  {
    hide Next, Inv, Finished, Run;
    var s := Run(Start(boot, threads), events);
    var more := events + [Advance(t)];
    RunKeepsInv(boot, threads, events);
    RunStep(Start(boot, threads), events, Advance(t));
    var s' := Run(Start(boot, threads), more);
    var left := StepsLeft(s.pcs[t]);
    assert events + Advances(t, left) == more + Advances(t, left - 1);
    AdvanceAlone(boot, s, t);
    if s.pcs[t].Clearing? {
      assert more + Advances(t, 0) == more;
    } else if s'.halted {
      HaltedStays(boot, threads, more, Advances(t, left - 1));
      FinishedHalted(s, t, s.pcs[t].n, Run(Start(boot, threads), more + Advances(t, left - 1)));
    } else {
      FinishesAlone(boot, threads, more, t);
      FinishedBefore(s, s', t, s.pcs[t].n, Run(Start(boot, threads), more + Advances(t, left - 1)));
    }
  }

  lemma FinishedHalted(s: State, t: nat, n: nat, after: State)
    requires t < |s.pcs| && after.halted && forall start: nat :: !FreeRun(s.committed.bits, start, n)
    ensures Finished(s, t, n, after)
  {
  }

  /** What finished after one more step of the thread also finished before it. */
  lemma FinishedBefore(s: State, s': State, t: nat, n: nat, after: State)
    requires t < |s.pcs| && t < |s'.pcs| && s'.pcs == s.pcs[t := s'.pcs[t]]
    requires s'.committed == s.committed && s'.live == s.live && Finished(s', t, n, after)
    ensures Finished(s, t, n, after)
  {
    assert s'.pcs[t := Idle] == s.pcs[t := Idle];
  }

  /** One step of a thread on its way to the release. */
  lemma AdvanceAlone(boot: Mem, s: State, t: nat)
    requires Inv(boot, s) && !s.halted && t < |s.pcs|
    requires Critical(s.pcs[t]) || (s.pcs[t].Acquiring? && !s.locked)
    ensures var s', n := Next(s, t), s.pcs[t].n;
      if s.pcs[t].Clearing? then Finished(s, t, n, s')
      else if s'.halted then s.pcs[t].Searching? && forall start: nat :: !FreeRun(s.committed.bits, start, n)
      else
        && t < |s'.pcs| && Critical(s'.pcs[t]) && s'.pcs[t].n == n && StepsLeft(s'.pcs[t]) == StepsLeft(s.pcs[t]) - 1
        && s'.pcs == s.pcs[t := s'.pcs[t]] && s'.committed == s.committed && s'.live == s.live
  {
    if Critical(s.pcs[t]) {
      assert s.owner == Some(t) && Progress(s, s.pcs[t]);
    }
  }

  lemma {:induction false} HaltedStays(boot: Mem, threads: nat, events: seq<Event>, more: seq<Event>)
    requires Run(Start(boot, threads), events).halted
    ensures Run(Start(boot, threads), events + more).halted
    decreases |more|
  {
    if more == [] {
      assert events + more == events;
    } else {
      RunStep(Start(boot, threads), events, more[0]);
      assert events + more == (events + [more[0]]) + more[1..];
      HaltedStays(boot, threads, events + [more[0]], more[1..]);
    }
  }

  /** Whenever the lock is free an idle thread that asks for pages and runs alone has them after n + 4 steps, with the
      lock free again, exactly as the sequential allocator would; or the kernel halts, exactly when there is no run of
      that many free pages. */
  lemma AllocatesAlone(boot: Mem, threads: nat, events: seq<Event>, t: nat, n: nat)
    requires var s := Run(Start(boot, threads), events);
      !s.halted && !s.locked && t < |s.pcs| && s.pcs[t].Idle? && n > 0
    ensures var s := Run(Start(boot, threads), events);
      s.mem == s.committed
      && Finished(s, t, n, Run(Start(boot, threads), events + [Request(t, n)] + Advances(t, n + 4)))
  {
    var s := Run(Start(boot, threads), events);
    RunKeepsInv(boot, threads, events);
    RunStep(Start(boot, threads), events, Request(t, n));
    FinishesAlone(boot, threads, events + [Request(t, n)], t);
    assert s.pcs[t := Acquiring(n)][t := Idle] == s.pcs[t := Idle];
  }
}
