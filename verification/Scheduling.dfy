/** The scheduler as a state machine: ticks, task creation, release, kill and temporary directory switches. */
module Scheduling {
  import opened KernelLayout
  import opened Tasks

  /** `order` is the task list, `task` the record of every task ever in it, `rsp0` the stack pointer in the TSS. */
  datatype State<R> =
    State(order: seq<R>, task: map<R, Task>, current: R, dummy: R, nextId: nat, pageDir: nat, rsp0: nat)

  function Pos<R(==)>(order: seq<R>, r: R): (p: nat)
    requires r in order
    ensures p < |order| && order[p] == r && forall j :: 0 <= j < p ==> order[j] != r
  {
    if order[0] == r then 0 else 1 + Pos(order[1..], r)
  }

  /** A preempted task that was not killed is READY again. */
  function Preempted<R>(task: map<R, Task>, current: R): map<R, Task>
    requires current in task
  {
    if task[current].status != Dead && task[current].status != Ready
    then task[current := task[current].(status := Ready)]
    else task
  }

  /** Where the search starts: after the current task, or at the head when that is the last one. */
  function SearchStart<R(==)>(order: seq<R>, current: R): (i: nat)
    requires current in order
    ensures i < |order|
  {
    var i := Pos(order, current) + 1;
    if i < |order| then i else 0
  }

  datatype Ticked<R> = Crashed | Switched(after: State<R>, loaded: Registers)

  /** One timer tick that interrupts the current task with registers `frame`: `loaded` is what the processor resumes
      with. Crashed is the null dereference while unlinking the head of the list. */
  function Tick<R(==)>(s: State<R>, frame: Registers): Ticked<R>
    requires Known(s.order, s.task) && s.current in s.order && s.dummy in s.task
  {
    var task := Preempted(s.task, s.current);
    var (found, order) := Search(s.order, task, SearchStart(s.order, s.current), 0);
    if found.Fault? then Crashed else
      var next := if found.Next? then found.task else s.dummy;
      var after := SwitchTo(s.(order := order, task := task), next, frame);
      Switched(after, after.task[next].regs)
  }

  /** Run `next`: save `frame` in the old task, make the new one current, take over its stack and directory. */
  function SwitchTo<R(==)>(s: State<R>, next: R, frame: Registers): (after: State<R>)
    requires next in s.task && s.current in s.task
    ensures next in after.task
  {
    var running := s.task[next := s.task[next].(status := Running)];
    var saved := running[s.current := running[s.current].(regs := frame)];
    s.(task := saved, current := next, rsp0 := saved[next].rsp0, pageDir := saved[next].pageDir)
  }

  // ----- the other events -----

  /** The frame a new task starts from. */
  function InitialRegisters(entry: nat, arg: nat, isKernelTask: bool): Registers
  {
    var (ss, cs) := if isKernelTask then (0x10, 0x08) else (0x23, 0x1B);
    Registers(entry, cs, 0x202, USER_STACK_TOP, ss, arg, 0, seq(15, i => 0))
  }

  datatype Event<R> =
    | Timer(frame: Registers)
    | Create(r: R, entry: nat, pageDir: nat, arg: nat, isKernelTask: bool, rsp0: nat)
    | Release(r: R)
    | Kill(id: nat)
    | SwitchDir(pageDir: nat)

  function WithTask<R>(s: State<R>, r: R, regs: Registers, pageDir: nat, rsp0: nat): State<R>
  {
    s.(order := s.order + [r],
       task := s.task[r := Task(s.nextId, Status.Created, regs, pageDir, rsp0)],
       nextId := s.nextId + 1)
  }

  /** The list position TaskGet finds: the first task with this id, or the length of the list. */
  function FindId<R>(order: seq<R>, task: map<R, Task>, id: nat): (i: nat)
    requires Known(order, task)
    ensures i <= |order| && (i < |order| ==> task[order[i]].id == id)
    ensures forall j :: 0 <= j < i ==> task[order[j]].id != id
  {
    if order == [] || task[order[0]].id == id then 0 else 1 + FindId(order[1..], task, id)
  }

  function WithStatus<R>(s: State<R>, r: R, status: Status): State<R>
    requires r in s.task
  {
    s.(task := s.task[r := s.task[r].(status := status)])
  }

  function Killed<R>(s: State<R>, id: nat): State<R>
    requires Known(s.order, s.task)
  {
    var i := FindId(s.order, s.task, id);
    if i < |s.order| then WithStatus(s, s.order[i], Dead) else s
  }

  /** The creator declares its task READY, whatever became of the task meanwhile. */
  function Released<R>(s: State<R>, r: R): State<R>
    requires r in s.task
  {
    WithStatus(s, r, Ready)
  }

  /** ChangePageDir records the directory in the current task and puts it in force. */
  function DirSwitched<R>(s: State<R>, pageDir: nat): State<R>
    requires s.current in s.task
  {
    s.(task := s.task[s.current := s.task[s.current].(pageDir := pageDir)], pageDir := pageDir)
  }

  ghost predicate WellFormed<R>(s: State<R>)
  {
    Known(s.order, s.task) && s.current in s.order && s.dummy in s.order && Distinct(s.order)
  }

  /** `e` takes `s` to `s'`. A created task gets memory that is not in the list; every task but the dummy may be
      released by its creator, once or more, in the list or deleted from it; a tick must not crash. */
  ghost predicate Step<R>(s: State<R>, e: Event<R>, s': State<R>)
    requires WellFormed(s)
  {
    match e
    case Timer(frame) => Tick(s, frame).Switched? && s' == Tick(s, frame).after
    case Create(r, entry, pageDir, arg, isKernelTask, rsp0) =>
      r !in s.order && s' == WithTask(s, r, InitialRegisters(entry, arg, isKernelTask), pageDir, rsp0)
    case Release(r) => r in s.task && r != s.dummy && s' == Released(s, r)
    case Kill(id) => s' == Killed(s, id)
    case SwitchDir(pageDir) => s' == DirSwitched(s, pageDir)
  }

  // ----- the invariant of runs in which the kernel task lives -----

  ghost predicate Inv<R>(s: State<R>)
  {
    && WellFormed(s)
    && s.dummy != s.order[0] && s.current != s.dummy
    && s.task[s.order[0]].status in {Ready, Running}
    && s.task[s.dummy].status == Dummy
    && (forall r :: r in s.order && s.task[r].status == Running ==> r == s.current)
    && s.task[s.current].status in {Ready, Running, Dead}
    && s.pageDir == s.task[s.current].pageDir
    && IdsOk(s)
  }

  /** The kernel and the dummy have id 0, all other tasks distinct ids below the next one. */
  ghost predicate IdsOk<R>(s: State<R>)
    requires WellFormed(s)
  {
    && s.nextId > 0 && s.task[s.order[0]].id == 0 && s.task[s.dummy].id == 0
    && (forall r :: r in s.order && r != s.order[0] && r != s.dummy ==> 0 < s.task[r].id < s.nextId)
    && (forall r, q :: r in s.order && q in s.order && r != q && s.task[r].id != 0 ==> s.task[r].id != s.task[q].id)
  }

  /** What InitializeTask leaves: the kernel READY and current, the dummy behind it. */
  ghost predicate Initial<R>(s: State<R>, kernel: R)
  {
    && s.order == [kernel, s.dummy] && kernel != s.dummy && kernel in s.task && s.dummy in s.task
    && s.current == kernel && s.nextId == 1
    && s.task[kernel].id == 0 && s.task[kernel].status == Ready && s.task[kernel].pageDir == s.pageDir
    && s.task[s.dummy].id == 0 && s.task[s.dummy].status == Dummy
  }

  lemma InitialInv<R>(s: State<R>, kernel: R)
    requires Initial(s, kernel)
    ensures Inv(s)
  {
  }

  /** The position where a search starting behind the current task ends. */
  function NextPos<R>(order: seq<R>, task: map<R, Task>, c: nat): (k: nat)
    requires c < |order| && Known(order, task)
    ensures k < |order|
  {
    var k := NextReady(order, task, c + 1);
    if k < |order| then k else 0
  }

  lemma SearchFromCurrent<R>(order: seq<R>, task: map<R, Task>, current: R)
    requires Known(order, task) && current in order && task[order[0]].status == Ready
    ensures var c := Pos(order, current); var k := NextReady(order, task, c + 1);
      Search(order, task, SearchStart(order, current), 0) ==
        (Next(order[NextPos(order, task, c)]), Swept(order, task, c + 1, k))
  {
    var c := Pos(order, current);
    SearchClosedForm(order, task, c + 1, 0);
    if c + 1 == |order| {
      assert Swept(order, task, c + 1, c + 1) == order;
    }
  }

  lemma PreemptedFacts<R>(s: State<R>)
    requires Inv(s)
    ensures var task := Preempted(s.task, s.current);
      && task.Keys == s.task.Keys && Known(s.order, task)
      && task[s.order[0]].status == Ready
      && (forall r :: r in s.task ==>
            task[r] == s.task[r] || (r == s.current && task[r] == s.task[r].(status := Ready)))
      && (forall r :: r in s.order ==> task[r].status != Running)
  {
  }

  /** The tick in closed form: the next READY task after the current one, else the kernel; DEAD tasks in between go. */
  lemma TickClosedForm<R>(s: State<R>, frame: Registers)
    requires Inv(s)
    ensures var task := Preempted(s.task, s.current); var c := Pos(s.order, s.current);
      Known(s.order, task) && s.order[NextPos(s.order, task, c)] in task && s.current in task &&
      var k := NextReady(s.order, task, c + 1); var next := s.order[NextPos(s.order, task, c)];
      && task[next].status == Ready
      && Tick(s, frame) == Switched(SwitchTo(s.(order := Swept(s.order, task, c + 1, k), task := task), next, frame),
                                    if next == s.current then frame else task[next].regs)
  {
    hide Search, Swept;
    PreemptedFacts(s);
    SearchFromCurrent(s.order, Preempted(s.task, s.current), s.current);
  }

  // ----- every step keeps the invariant -----

  lemma SweptMembers<R>(order: seq<R>, task: map<R, Task>, c: nat)
    requires c < |order| && Known(order, task) && Distinct(order) && task[order[0]].status == Ready
    ensures var after := Swept(order, task, c + 1, NextReady(order, task, c + 1));
      && 0 < |after| <= |order| && after[0] == order[0] && Distinct(after)
      && (forall r :: r in after ==> r in order)
      && (forall r :: r in order && task[r].status != Dead ==> r in after)
  {
    var after := Swept(order, task, c + 1, NextReady(order, task, c + 1));
    SearchClosedForm(order, task, c + 1, 0);
    SearchOnAnyList(order, task, c + 1, 0);
    LiveMembers(order, task);
    LiveMembers(after, task);
  }

  /** Tasks up to the current one keep their position, tasks from the next READY one on move up together. */
  lemma SweptPositions<R>(order: seq<R>, task: map<R, Task>, c: nat)
    requires c < |order| && Known(order, task)
    ensures var k := NextReady(order, task, c + 1); var after := Swept(order, task, c + 1, k);
      var gone := |order| - |after|;
      && 0 <= gone <= k - (c + 1) && c < |after|
      && (forall j :: 0 <= j <= c ==> after[j] == order[j])
      && (forall j :: k <= j < |order| ==> after[j - gone] == order[j])
  {
  }

  lemma SwitchInv<R>(s: State<R>, task: map<R, Task>, order: seq<R>, next: R, frame: Registers)
    requires Inv(s) && task == Preempted(s.task, s.current)
    requires next in order && next in task && task[next].status == Ready
    requires 0 < |order| && order[0] == s.order[0] && Distinct(order)
    requires forall r :: r in order ==> r in s.order
    requires s.dummy in order
    ensures Inv(SwitchTo(s.(order := order, task := task), next, frame))
  {
    PreemptedFacts(s);
    var s' := SwitchTo(s.(order := order, task := task), next, frame);
    forall r | r in order
      ensures r in s'.task && s'.task[r].id == s.task[r].id
    {
      assert r in s.order;
    }
    assert WellFormed(s');
    assert IdsOk(s');
  }

  /** A tick in a run where the kernel lives: its search never faults and never falls back to the dummy; the chosen task
      is READY before and RUNNING after, nothing else is RUNNING, and the invariant stays. */
  lemma TickInv<R>(s: State<R>, frame: Registers)
    requires Inv(s)
    ensures var t := Tick(s, frame);
      && t.Switched? && Inv(t.after)
      && t.after.current in s.order && t.after.current != s.dummy
      && t.after.task[t.after.current].status == Running
      && s.current in t.after.order
      && t.after.pageDir == t.after.task[t.after.current].pageDir
      && t.after.rsp0 == t.after.task[t.after.current].rsp0
      && t.loaded == t.after.task[t.after.current].regs
  {
    hide Tick, Swept, IdsOk, Search, NextReady, Distinct;
    TickClosedForm(s, frame);
    PreemptedFacts(s);
    var task, c := Preempted(s.task, s.current), Pos(s.order, s.current);
    SweptMembers(s.order, task, c);
    SweptPositions(s.order, task, c);
    var k := NextReady(s.order, task, c + 1);
    var order, next := Swept(s.order, task, c + 1, k), s.order[NextPos(s.order, task, c)];
    assert order[c] == s.current;
    SwitchInv(s, task, order, next, frame);
  }

  /** Killing the kernel task is what makes a search fault: on any list whose DEAD ids are unique, so that deleting by
      id deletes the task meant, exactly when the head is DEAD and the tasks behind the current one offer nothing READY
      before the search comes back to it. */
  lemma CrashExactly<R>(s: State<R>, frame: Registers)
    requires WellFormed(s)
    ensures var task := Preempted(s.task, s.current);
      Tick(s, frame).Crashed? <==>
        task[s.order[0]].status == Dead && NextReady(s.order, task, Pos(s.order, s.current) + 1) == |s.order|
  {
    var task, i := Preempted(s.task, s.current), Pos(s.order, s.current) + 1;
    SearchAnyList(s.order, task, SearchStart(s.order, s.current), 0);
    if task[s.order[0]].status == Dead {
      SearchDeadHead(s.order, task, i, 0);
    }
  }

  /** When nothing is READY, not even the interrupted task, and the head is not DEAD, the tick deletes every DEAD task
      and runs the dummy with its saved frame. */
  lemma NothingReadyRunsDummy<R>(s: State<R>, frame: Registers)
    requires WellFormed(s) && s.dummy in s.task && s.task[s.order[0]].status != Dead
    requires forall r :: r in s.order ==> Preempted(s.task, s.current)[r].status != Ready
    ensures Tick(s, frame).Switched?
    ensures var t := Tick(s, frame);
      && t.after.current == s.dummy && s.dummy in t.after.task && t.after.task[s.dummy].status == Running
      && t.loaded == (if s.dummy == s.current then frame else s.task[s.dummy].regs)
      && t.after.pageDir == s.task[s.dummy].pageDir && t.after.rsp0 == s.task[s.dummy].rsp0
      && t.after.order == Live(s.order, Preempted(s.task, s.current))
  {
    var task := Preempted(s.task, s.current);
    SearchAnyList(s.order, task, SearchStart(s.order, s.current), 0);
    hide Search;
    assert task[s.order[0]].status != Dead;
  }

  /** In any well-formed state, whatever its status was, an interrupted task that was not killed is READY once another
      task runs, the dummy too; a killed one stays DEAD. All other tasks keep their status, but the one that runs. */
  lemma InterruptedIsReady<R>(s: State<R>, frame: Registers, r: R)
    requires WellFormed(s) && s.dummy in s.task && Tick(s, frame).Switched? && r in s.task
    ensures var after := Tick(s, frame).after;
      && r in after.task
      && after.task[r].status ==
           if r == after.current then Running
           else if r == s.current && s.task[r].status != Dead then Ready
           else s.task[r].status
  {
    hide Search, SearchStart;
  }

  /** Killing the kernel task right after initialization makes the search of the very next tick fault. */
  lemma KilledKernelCrashes<R>(s: State<R>, kernel: R, frame: Registers)
    requires Initial(s, kernel)
    ensures WellFormed(Killed(s, 0)) && Tick(Killed(s, 0), frame).Crashed?
  {
    InitialInv(s, kernel);
    CrashExactly(Killed(s, 0), frame);
  }

  /** In runs of the living kernel, deleting by id always deletes the task meant. */
  lemma InvDeadIds<R>(s: State<R>)
    requires Inv(s)
    ensures DeadIdsUnique(s.order, s.task)
  {
    forall i, j | 0 <= i < j < |s.order| && s.task[s.order[j]].status == Dead
      ensures s.task[s.order[i]].id != s.task[s.order[j]].id
    {
      assert s.order[j] in s.order && s.order[i] in s.order;
    }
  }

  lemma CreateInv<R>(s: State<R>, r: R, regs: Registers, pageDir: nat, rsp0: nat)
    requires Inv(s) && r !in s.order
    ensures Inv(WithTask(s, r, regs, pageDir, rsp0))
  {
    var s' := WithTask(s, r, regs, pageDir, rsp0);
    forall q | q in s'.order
      ensures q in s.order || q == r
    {
    }
    assert IdsOk(s');
  }

  lemma StatusInv<R>(s: State<R>, r: R, status: Status)
    requires Inv(s) && r in s.task && status in {Dead, Ready}
    requires r != s.dummy && (status == Dead ==> r != s.order[0])
    ensures Inv(WithStatus(s, r, status))
  {
    var s' := WithStatus(s, r, status);
    assert WellFormed(s') && IdsOk(s');
  }

  lemma DirInv<R>(s: State<R>, pageDir: nat)
    requires Inv(s)
    ensures Inv(DirSwitched(s, pageDir))
  {
    assert IdsOk(DirSwitched(s, pageDir));
  }

  /** Every event keeps the invariant as long as the kernel task is not killed. */
  lemma StepInv<R>(s: State<R>, e: Event<R>, s': State<R>)
    requires Inv(s) && Step(s, e, s') && e != Kill(0)
    ensures Inv(s')
  {
    match e
    case Timer(frame) => TickInv(s, frame);
    case Create(r, entry, pageDir, arg, isKernelTask, rsp0) =>
      CreateInv(s, r, InitialRegisters(entry, arg, isKernelTask), pageDir, rsp0);
    case Release(r) => StatusInv(s, r, Ready);
    case Kill(id) =>
      var i := FindId(s.order, s.task, id);
      if i < |s.order| {
        StatusInv(s, s.order[i], Dead);
      }
    case SwitchDir(pageDir) => DirInv(s, pageDir);
  }

  // ----- whole runs -----

  /** A run in which the kernel task is never killed: `ss` are the states before, between and after the events. */
  ghost predicate Behavior<R>(ss: seq<State<R>>, es: seq<Event<R>>)
  {
    && |ss| == |es| + 1 && Inv(ss[0])
    && forall n :: 0 <= n < |es| ==> es[n] != Kill(0) && WellFormed(ss[n]) && Step(ss[n], es[n], ss[n + 1])
  }

  lemma {:induction false} BehaviorInv<R>(ss: seq<State<R>>, es: seq<Event<R>>, n: nat)
    requires Behavior(ss, es) && n <= |es|
    ensures Inv(ss[n])
  {
    if n > 0 {
      BehaviorInv(ss, es, n - 1);
      StepInv(ss[n - 1], es[n - 1], ss[n]);
    }
  }

  /** In every run the search of a tick never faults, ends on a task that was READY, never on the dummy, and does not
      unlink the task whose registers the tick saves, killed or not. Between ticks only the current task can be RUNNING
      and the directory in force is the one it recorded. Freeing the memory of deleted tasks is no part of this tick. */
  lemma RunsNeverCrash<R>(ss: seq<State<R>>, es: seq<Event<R>>, n: nat, frame: Registers)
    requires Behavior(ss, es) && n <= |es|
    ensures Inv(ss[n])
    ensures var s := ss[n]; var t := Tick(s, frame);
      && (forall r :: r in s.order && s.task[r].status == Running ==> r == s.current)
      && s.pageDir == s.task[s.current].pageDir
      && t.Switched? && t.after.current != s.dummy && t.after.task[t.after.current].status == Running
      && s.current in t.after.order
  {
    BehaviorInv(ss, es, n);
    TickInv(ss[n], frame);
  }

  // ----- waiting -----

  /** How many list positions lie from the current task to `r`, going round; a full round for the current task. */
  function Distance<R(==)>(order: seq<R>, current: R, r: R): (d: nat)
    requires current in order && r in order
    ensures 0 < d <= |order|
  {
    var c, p := Pos(order, current), Pos(order, r);
    if p > c then p - c else p + |order| - c
  }

  lemma PosIs<R>(order: seq<R>, i: nat)
    requires Distinct(order) && i < |order|
    ensures Pos(order, order[i]) == i
  {
  }

  /** A DEAD task in the stretch the search passes is no longer in the list. */
  lemma PassedDeadGone<R>(order: seq<R>, task: map<R, Task>, c: nat, p: nat)
    requires Known(order, task) && Distinct(order) && c < p < |order| && p < NextReady(order, task, c + 1)
    requires task[order[p]].status == Dead
    ensures order[p] !in Swept(order, task, c + 1, NextReady(order, task, c + 1))
  {
    var k := NextReady(order, task, c + 1);
    LiveMembers(order[c + 1..k], task);
  }

  /** One search: a READY task is chosen or comes closer, a DEAD one is deleted or comes closer. */
  lemma SweepCloser<R>(order: seq<R>, task: map<R, Task>, current: R, r: R)
    requires 0 < |order| && Known(order, task) && Distinct(order) && task[order[0]].status == Ready
    requires current in order && r in order && task[r].status in {Ready, Dead}
    ensures var c := Pos(order, current); var next := order[NextPos(order, task, c)];
      var after := Swept(order, task, c + 1, NextReady(order, task, c + 1));
      && next in after
      && ((task[r].status == Ready && next == r)
          || (task[r].status == Dead && r !in after)
          || (r in after && Distance(after, next, r) < Distance(order, current, r)))
  {
    hide Swept, NextReady;
    var c, p := Pos(order, current), Pos(order, r);
    var k := NextReady(order, task, c + 1);
    SweptPositions(order, task, c);
    SweptMembers(order, task, c);
    if c < p < k {
      PassedDeadGone(order, task, c, p);
    } else {
      SweepDistance(order, task, c, p, k);
    }
  }

  lemma SweepDistance<R>(order: seq<R>, task: map<R, Task>, c: nat, p: nat, k: nat)
    requires 0 < |order| && Known(order, task) && Distinct(order) && task[order[0]].status == Ready
    requires c < |order| && p < |order| && k == NextReady(order, task, c + 1) && !(c < p < k)
    requires Distinct(Swept(order, task, c + 1, k))
    ensures var after := Swept(order, task, c + 1, k); var next := order[NextPos(order, task, c)];
      && next in after && order[p] in after
      && (next == order[p] || Distance(after, next, order[p]) < if p > c then p - c else p + |order| - c)
  {
    hide Swept;
    var after := Swept(order, task, c + 1, k);
    SweptPositions(order, task, c);
    var gone := |order| - |after|;
    PosIs(after, if p <= c then p else p - gone);
    PosIs(after, if k < |order| then k - gone else 0);
  }

  /** One tick: a READY task is made current or comes closer, a DEAD one is deleted or comes closer. */
  lemma TickCloser<R>(s: State<R>, frame: Registers, r: R)
    requires Inv(s) && r in s.order && s.task[r].status in {Ready, Dead}
    ensures Tick(s, frame).Switched?
    ensures var s' := Tick(s, frame).after;
      && s'.current in s'.order && r in s'.task && s'.task[r].id == s.task[r].id
      && ((s.task[r].status == Ready && s'.current == r)
          || (s.task[r].status == Dead && r !in s'.order)
          || (r in s'.order && s'.task[r].status == s.task[r].status
              && Distance(s'.order, s'.current, r) < Distance(s.order, s.current, r)))
  {
    hide Tick, Swept, Search, Distance;
    TickClosedForm(s, frame);
    PreemptedFacts(s);
    SweepCloser(s.order, Preempted(s.task, s.current), s.current, r);
  }

  function Ticks<R>(es: seq<Event<R>>): nat
  {
    if es == [] then 0 else Ticks(es[..|es| - 1]) + if es[|es| - 1].Timer? then 1 else 0
  }

  function Creates<R>(es: seq<Event<R>>): nat
  {
    if es == [] then 0 else Creates(es[..|es| - 1]) + if es[|es| - 1].Create? then 1 else 0
  }

  lemma AppendedDistance<R>(order: seq<R>, x: R, current: R, r: R)
    requires Distinct(order) && x !in order && current in order && r in order
    ensures Distance(order + [x], current, r) <= Distance(order, current, r) + 1
  {
    assert Distinct(order + [x]);
    PosIs(order + [x], Pos(order, current));
    PosIs(order + [x], Pos(order, r));
  }

  /** One event seen by a waiting task `r`: it is made current, or is deleted because it was DEAD, or waits on at a
      distance that shrinks with every tick and grows by at most one with every new task. */
  lemma StepWait<R>(s: State<R>, e: Event<R>, s': State<R>, r: R)
    requires Inv(s) && Step(s, e, s') && e != Kill(0)
    requires r in s.order && s.task[r].status in {Ready, Dead}
    requires e != if s.task[r].status == Ready then Kill(s.task[r].id) else Release(r)
    ensures s'.current in s'.order
    ensures
      || (e.Timer? && s.task[r].status == Ready && s'.current == r)
      || (e.Timer? && s.task[r].status == Dead && r !in s'.order)
      || (r in s'.order && r in s'.task && s'.task[r].status == s.task[r].status && s'.task[r].id == s.task[r].id
          && Distance(s'.order, s'.current, r) + (if e.Timer? then 1 else 0)
             <= Distance(s.order, s.current, r) + (if e.Create? then 1 else 0))
  {
    hide Tick, Distance, IdsOk;
    match e
    case Timer(frame) => TickCloser(s, frame, r);
    case Create(x, _, _, _, _, _) => AppendedDistance(s.order, x, s.current, r);
    case Release(_) =>
    case Kill(_) =>
    case SwitchDir(_) =>
  }

  /** The task `r` was chosen by a tick, or (when DEAD) deleted, somewhere in the first `n` events. */
  ghost predicate Served<R>(ss: seq<State<R>>, es: seq<Event<R>>, r: R, n: nat)
    requires n <= |es| < |ss|
  {
    exists m :: 0 <= m < n && es[m].Timer? && (ss[m + 1].current == r || r !in ss[m + 1].order)
  }

  lemma {:induction false} WaitsOn<R>(ss: seq<State<R>>, es: seq<Event<R>>, r: R, n: nat)
    requires Behavior(ss, es) && n <= |es| && r in ss[0].order && ss[0].task[r].status in {Ready, Dead}
    requires var undo := if ss[0].task[r].status == Ready then Kill(ss[0].task[r].id) else Release(r);
      forall m :: 0 <= m < n ==> es[m] != undo
    requires !Served(ss, es, r, n)
    ensures Inv(ss[n]) && r in ss[n].order
      && ss[n].task[r].status == ss[0].task[r].status && ss[n].task[r].id == ss[0].task[r].id
      && Distance(ss[n].order, ss[n].current, r) + Ticks(es[..n])
         <= Distance(ss[0].order, ss[0].current, r) + Creates(es[..n])
  {
    BehaviorInv(ss, es, n);
    if n > 0 {
      WaitsOn(ss, es, r, n - 1);
      assert es[..n][..n - 1] == es[..n - 1];
      StepWait(ss[n - 1], es[n - 1], ss[n], r);
    }
  }

  /** Bounded waiting: in every run a READY task that nobody kills is made current within as many ticks as it is
      positions away from the current task plus the number of tasks created meanwhile. */
  lemma ReadyTaskRuns<R>(ss: seq<State<R>>, es: seq<Event<R>>, r: R)
    requires Behavior(ss, es) && r in ss[0].order && ss[0].task[r].status == Ready
    requires forall m :: 0 <= m < |es| ==> es[m] != Kill(ss[0].task[r].id)
    requires Ticks(es) >= Distance(ss[0].order, ss[0].current, r) + Creates(es)
    ensures exists m :: 0 <= m < |es| && es[m].Timer? && ss[m + 1].current == r
  {
    assert es[..|es|] == es;
    if !Served(ss, es, r, |es|) {
      WaitsOn(ss, es, r, |es|);
    } else {
      FirstServed(ss, es, r, |es|);
    }
  }

  /** A READY task is never deleted before it ran, so being served means being made current. */
  lemma {:induction false} FirstServed<R>(ss: seq<State<R>>, es: seq<Event<R>>, r: R, n: nat)
    requires Behavior(ss, es) && n <= |es| && r in ss[0].order && ss[0].task[r].status == Ready
    requires forall m :: 0 <= m < n ==> es[m] != Kill(ss[0].task[r].id)
    requires Served(ss, es, r, n)
    ensures exists m :: 0 <= m < n && es[m].Timer? && ss[m + 1].current == r
  {
    hide Tick, Distance, Step, IdsOk, WellFormed, Creates, Ticks;
    if Served(ss, es, r, n - 1) {
      FirstServed(ss, es, r, n - 1);
    } else {
      WaitsOn(ss, es, r, n - 1);
      StepWait(ss[n - 1], es[n - 1], ss[n], r);
    }
  }

  /** A killed task that its creator does not declare READY afterwards is gone from the list within one full rotation:
      as many ticks as the list is long, plus the number of tasks created meanwhile. Freeing its memory, which comes
      before the unlinking and may panic, is no part of these runs. */
  lemma KilledTaskGone<R>(ss: seq<State<R>>, es: seq<Event<R>>, r: R)
    requires Behavior(ss, es) && r in ss[0].order && ss[0].task[r].status == Dead
    requires forall m :: 0 <= m < |es| ==> es[m] != Release(r)
    requires Ticks(es) >= |ss[0].order| + Creates(es)
    ensures exists m :: 0 <= m < |es| && es[m].Timer? && r !in ss[m + 1].order
  {
    assert es[..|es|] == es;
    if !Served(ss, es, r, |es|) {
      WaitsOn(ss, es, r, |es|);
    } else {
      FirstDeleted(ss, es, r, |es|);
    }
  }

  lemma TickMarks<R>(s: State<R>, e: Event<R>, s': State<R>)
    requires Inv(s) && Step(s, e, s') && e.Timer?
    ensures s'.current in s'.task && s'.task[s'.current].status == Running
  {
    TickInv(s, e.frame);
  }

  lemma {:induction false} FirstDeleted<R>(ss: seq<State<R>>, es: seq<Event<R>>, r: R, n: nat)
    requires Behavior(ss, es) && n <= |es| && r in ss[0].order && ss[0].task[r].status == Dead
    requires forall m :: 0 <= m < n ==> es[m] != Release(r)
    requires Served(ss, es, r, n)
    ensures exists m :: 0 <= m < n && es[m].Timer? && r !in ss[m + 1].order
  {
    hide Tick, Distance, Step, IdsOk, WellFormed, Creates, Ticks;
    if Served(ss, es, r, n - 1) {
      FirstDeleted(ss, es, r, n - 1);
    } else {
      WaitsOn(ss, es, r, n - 1);
      var s, e := ss[n - 1], es[n - 1];
      TickMarks(s, e, ss[n]);
      StepWait(s, e, ss[n], r);
    }
  }

  /** One event leaves a task in the list that is not DEAD, unless it kills it. */
  lemma StepKeepsTask<R>(s: State<R>, e: Event<R>, s': State<R>, r: R)
    requires Inv(s) && Step(s, e, s') && e != Kill(0)
    requires r in s.order && s.task[r].status != Dead && e != Kill(s.task[r].id)
    ensures r in s'.order && r in s'.task && s'.task[r].status != Dead && s'.task[r].id == s.task[r].id
  {
    hide Tick, IdsOk, Distinct;
    match e
    case Timer(frame) => TickKeepsTask(s, frame, r);
    case Create(_, _, _, _, _, _) =>
    case Release(_) =>
    case Kill(_) =>
    case SwitchDir(_) =>
  }

  lemma TickKeepsTask<R>(s: State<R>, frame: Registers, r: R)
    requires Inv(s) && r in s.order && s.task[r].status != Dead
    ensures Tick(s, frame).Switched?
    ensures var s' := Tick(s, frame).after;
      r in s'.order && r in s'.task && s'.task[r].status != Dead && s'.task[r].id == s.task[r].id
  {
    hide Tick, Swept, IdsOk, Search, NextReady, Distinct, Preempted;
    TickClosedForm(s, frame);
    PreemptedFacts(s);
    SweptMembers(s.order, Preempted(s.task, s.current), Pos(s.order, s.current));
  }

  /** Only killed tasks are deleted. */
  lemma {:induction false} OnlyKilledGo<R>(ss: seq<State<R>>, es: seq<Event<R>>, r: R, m: nat, n: nat)
    requires Behavior(ss, es) && m <= n <= |es| && r in ss[m].order && r in ss[m].task && ss[m].task[r].status != Dead
    requires forall j :: m <= j < n ==> es[j] != Kill(ss[m].task[r].id)
    ensures Inv(ss[n]) && r in ss[n].order && ss[n].task[r].status != Dead && ss[n].task[r].id == ss[m].task[r].id
    decreases n - m
  {
    BehaviorInv(ss, es, n);
    if m < n {
      OnlyKilledGo(ss, es, r, m, n - 1);
      StepKeepsTask(ss[n - 1], es[n - 1], ss[n], r);
    }
  }

  /** A task killed before its creator declares it READY is READY again, and then stays in the list for ever unless it
      is killed once more: the two events of creator and killer must not come in this order. */
  lemma ReleaseRevives<R>(ss: seq<State<R>>, es: seq<Event<R>>, r: R, m: nat, n: nat)
    requires Behavior(ss, es) && m < n <= |es| && es[m] == Release(r) && r in ss[m].order
    requires forall j :: m < j < n ==> es[j] != Kill(ss[m].task[r].id)
    ensures r in ss[m + 1].order && ss[m + 1].task[r].status == Ready
    ensures r in ss[n].order
  {
    BehaviorInv(ss, es, m);
    OnlyKilledGo(ss, es, r, m + 1, n);
  }

  /** Such a run exists: create, kill, declare READY. */
  lemma RevivedRun<R>(s: State<R>, r: R, entry: nat, pageDir: nat, arg: nat, rsp0: nat)
      returns (ss: seq<State<R>>, es: seq<Event<R>>)
    requires Inv(s) && r !in s.order
    ensures es == [Create(r, entry, pageDir, arg, false, rsp0), Kill(s.nextId), Release(r)]
    ensures Behavior(ss, es) && ss[0] == s
    ensures r in ss[2].order && ss[2].task[r].status == Dead
    ensures r in ss[3].order && ss[3].task[r].status == Ready
  {
    hide Tick, IdsOk, InitialRegisters, FindId;
    var regs := InitialRegisters(entry, arg, false);
    var s1 := WithTask(s, r, regs, pageDir, rsp0);
    CreateInv(s, r, regs, pageDir, rsp0);
    NewTaskFound(s, r, regs, pageDir, rsp0);
    var s2 := Killed(s1, s.nextId);
    StepInv(s1, Kill(s.nextId), s2);
    ss, es := [s, s1, s2, Released(s2, r)], [Create(r, entry, pageDir, arg, false, rsp0), Kill(s.nextId), Release(r)];
  }

  /** Killing by the id a task was just given kills that task. */
  lemma NewTaskFound<R>(s: State<R>, r: R, regs: Registers, pageDir: nat, rsp0: nat)
    requires Inv(s) && r !in s.order
    ensures s.nextId > 0
    ensures var s1 := WithTask(s, r, regs, pageDir, rsp0);
      Known(s1.order, s1.task) && Killed(s1, s.nextId) == WithStatus(s1, r, Dead)
  {
    var s1 := WithTask(s, r, regs, pageDir, rsp0);
    forall j | 0 <= j < |s.order|
      ensures s1.task[s1.order[j]].id != s.nextId
    {
      assert s1.order[j] == s.order[j] && s.order[j] in s.order;
    }
    FindIdIsLast(s1.order, s1.task, s.nextId);
  }

  /** An id only the last task has is found there. */
  lemma FindIdIsLast<R>(order: seq<R>, task: map<R, Task>, id: nat)
    requires 0 < |order| && Known(order, task) && task[order[|order| - 1]].id == id
    requires forall j :: 0 <= j < |order| - 1 ==> task[order[j]].id != id
    ensures FindId(order, task, id) == |order| - 1
  {
  }

  // ----- register frames, stacks and directories of a task -----

  /** What one event does to the record of a task that it does not create: its id and its kernel stack stay, its frame
      changes when it is interrupted, its directory when it switches directories. */
  lemma StepRecord<R>(s: State<R>, e: Event<R>, s': State<R>, r: R)
    requires Inv(s) && Step(s, e, s') && r in s.task && !(e.Create? && e.r == r)
    ensures r in s'.task && s'.task[r].id == s.task[r].id && s'.task[r].rsp0 == s.task[r].rsp0
    ensures s'.task[r].regs == if e.Timer? && s.current == r then e.frame else s.task[r].regs
    ensures s'.task[r].pageDir == if e.SwitchDir? && s.current == r then e.pageDir else s.task[r].pageDir
  {
    hide Tick, Search, Swept, NextReady, IdsOk, Distinct;
    if e.Timer? {
      TickClosedForm(s, e.frame);
      PreemptedFacts(s);
    }
  }

  lemma {:induction false} FrameKept<R>(ss: seq<State<R>>, es: seq<Event<R>>, r: R, m: nat, n: nat)
    requires Behavior(ss, es) && m <= n <= |es| && r in ss[m].task
    requires forall j :: m <= j < n ==> ss[j].current != r && (es[j].Create? ==> es[j].r != r)
    ensures r in ss[n].task && ss[n].task[r].regs == ss[m].task[r].regs
    ensures ss[n].task[r].pageDir == ss[m].task[r].pageDir && ss[n].task[r].rsp0 == ss[m].task[r].rsp0
    decreases n - m
  {
    hide Step, Tick, IdsOk;
    if m < n {
      FrameKept(ss, es, r, m, n - 1);
      BehaviorInv(ss, es, n - 1);
      StepRecord(ss[n - 1], es[n - 1], ss[n], r);
    }
  }

  /** A task resumes with exactly the frame saved when it was last preempted, however long ago, and with its initial
      frame when it never ran; a task that follows itself resumes with the frame just saved. */
  lemma ResumesExactly<R>(ss: seq<State<R>>, es: seq<Event<R>>, r: R, m: nat, n: nat)
    requires Behavior(ss, es) && m <= n < |es|
    requires es[n].Timer? && ss[n + 1].current == r
    requires (es[m].Timer? && ss[m].current == r) || (es[m].Create? && es[m].r == r)
    requires forall j :: m < j <= n ==> ss[j].current != r && (es[j].Create? ==> es[j].r != r)
    ensures Known(ss[n].order, ss[n].task) && ss[n].current in ss[n].order && ss[n].dummy in ss[n].task
    ensures Tick(ss[n], es[n].frame).Switched?
    ensures Tick(ss[n], es[n].frame).loaded ==
      if es[m].Timer? then es[m].frame else InitialRegisters(es[m].entry, es[m].arg, es[m].isKernelTask)
  {
    hide Search, Swept, IdsOk, NextReady;
    BehaviorInv(ss, es, n);
    BehaviorInv(ss, es, m);
    TickInv(ss[n], es[n].frame);
    TickClosedForm(ss[n], es[n].frame);
    if m < n {
      if es[m].Timer? {
        TickClosedForm(ss[m], es[m].frame);
      }
      FrameKept(ss, es, r, m + 1, n);
    }
  }

  /** The first resume of a created task, register by register: it starts at its entry with its argument, its stack
      pointer at the top of the user stack, on the privilege level of its kind, with interrupts enabled (bit 9), in the
      directory and on the kernel stack it was created with. */
  lemma FirstResume<R>(ss: seq<State<R>>, es: seq<Event<R>>, r: R, m: nat, n: nat)
    requires Behavior(ss, es) && m <= n < |es|
    requires es[n].Timer? && ss[n + 1].current == r && es[m].Create? && es[m].r == r
    requires forall j :: m < j <= n ==> ss[j].current != r && (es[j].Create? ==> es[j].r != r)
    ensures Known(ss[n].order, ss[n].task) && ss[n].current in ss[n].order && ss[n].dummy in ss[n].task
    ensures Tick(ss[n], es[n].frame).Switched?
    ensures var loaded := Tick(ss[n], es[n].frame).loaded;
      && loaded.rip == es[m].entry && loaded.rdi == es[m].arg
      && loaded.rsp == 0x6000_0000_0000 && loaded.rbp == 0
      && loaded.cs == (if es[m].isKernelTask then 0x08 else 0x1B)
      && loaded.ss == (if es[m].isKernelTask then 0x10 else 0x23)
      && loaded.cs % 4 == loaded.ss % 4 == (if es[m].isKernelTask then 0 else 3)
      && loaded.rflags == 0x202 && loaded.rflags / 0x200 % 2 == 1
    ensures ss[n + 1].pageDir == es[m].pageDir && ss[n + 1].rsp0 == es[m].rsp0
  {
    hide Tick, IdsOk, Search, Swept, NextReady;
    ResumesExactly(ss, es, r, m, n);
    BehaviorInv(ss, es, m);
    BehaviorInv(ss, es, n);
    TickInv(ss[n], es[n].frame);
    FrameKept(ss, es, r, m + 1, n);
    StepRecord(ss[n], es[n], ss[n + 1], r);
  }

  /** The kernel stack of a task never changes unless its memory is used for a new task, and every tick that makes the
      task current puts it into the TSS. */
  lemma {:induction false} KernelStackFixed<R>(ss: seq<State<R>>, es: seq<Event<R>>, r: R, m: nat, n: nat)
    requires Behavior(ss, es) && m <= n <= |es| && r in ss[m].task
    requires forall j :: m <= j < n ==> !(es[j].Create? && es[j].r == r)
    ensures r in ss[n].task && ss[n].task[r].rsp0 == ss[m].task[r].rsp0
    ensures m < n && es[n - 1].Timer? && ss[n].current == r ==> ss[n].rsp0 == ss[m].task[r].rsp0
    decreases n - m
  {
    hide Step, Tick, IdsOk;
    if m < n {
      KernelStackFixed(ss, es, r, m, n - 1);
      BehaviorInv(ss, es, n - 1);
      StepRecord(ss[n - 1], es[n - 1], ss[n], r);
      if es[n - 1].Timer? {
        TickInTss(ss[n - 1], es[n - 1], ss[n]);
      }
    }
  }

  lemma TickInTss<R>(s: State<R>, e: Event<R>, s': State<R>)
    requires Inv(s) && Step(s, e, s') && e.Timer?
    ensures s'.current in s'.task && s'.rsp0 == s'.task[s'.current].rsp0
    ensures s'.pageDir == s'.task[s'.current].pageDir
  {
    TickInv(s, e.frame);
  }

  /** Event `e` in state `s` gives task `r` the directory `e.pageDir`. */
  ghost predicate SetsDirectory<R>(s: State<R>, e: Event<R>, r: R)
  {
    (e.SwitchDir? && s.current == r) || (e.Create? && e.r == r)
  }

  /** Whenever a task is current, the directory in force is the one it switched to last, or was created with,
      whatever directories the others switched to meanwhile. */
  lemma DirectoryRestored<R>(ss: seq<State<R>>, es: seq<Event<R>>, r: R, m: nat, n: nat)
    requires Behavior(ss, es) && m < n <= |es| && SetsDirectory(ss[m], es[m], r) && ss[n].current == r
    requires forall j :: m < j < n ==> !SetsDirectory(ss[j], es[j], r)
    ensures ss[n].pageDir == es[m].pageDir
  {
    hide Tick, IdsOk;
    BehaviorInv(ss, es, m);
    BehaviorInv(ss, es, n);
    DirectoryKept(ss, es, r, m + 1, n);
  }

  lemma {:induction false} DirectoryKept<R>(ss: seq<State<R>>, es: seq<Event<R>>, r: R, m: nat, n: nat)
    requires Behavior(ss, es) && m <= n <= |es| && r in ss[m].task
    requires forall j :: m <= j < n ==> !SetsDirectory(ss[j], es[j], r)
    ensures r in ss[n].task && ss[n].task[r].pageDir == ss[m].task[r].pageDir
    decreases n - m
  {
    hide Step, Tick, IdsOk;
    if m < n {
      DirectoryKept(ss, es, r, m, n - 1);
      BehaviorInv(ss, es, n - 1);
      StepRecord(ss[n - 1], es[n - 1], ss[n], r);
    }
  }

  /** A new task is never made current before its creator declares it READY. */
  lemma {:induction false} CreatedWaits<R>(ss: seq<State<R>>, es: seq<Event<R>>, r: R, m: nat, n: nat)
    requires Behavior(ss, es) && m < n <= |es| && es[m].Create? && es[m].r == r
    requires forall j :: m < j < n ==> es[j] != Release(r)
    ensures ss[n].current != r && r in ss[n].task && ss[n].task[r].status in {Status.Created, Dead}
    decreases n
  {
    BehaviorInv(ss, es, n - 1);
    hide IdsOk, Tick;
    if m + 1 < n {
      CreatedWaits(ss, es, r, m, n - 1);
      StepCreated(ss[n - 1], es[n - 1], ss[n], r);
    }
  }

  lemma StepCreated<R>(s: State<R>, e: Event<R>, s': State<R>, r: R)
    requires Inv(s) && Step(s, e, s') && e != Release(r)
    requires s.current != r && r in s.task && s.task[r].status in {Status.Created, Dead}
    ensures s'.current != r && r in s'.task && s'.task[r].status in {Status.Created, Dead}
  {
    hide Tick, Search, Swept, NextReady, IdsOk, Distinct;
    if e.Timer? {
      TickClosedForm(s, e.frame);
      PreemptedFacts(s);
    }
  }
}
