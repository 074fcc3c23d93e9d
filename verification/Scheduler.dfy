/** The task list as linked nodes and the scheduler that walks and changes it in place. */
module Scheduler {
  import opened KernelLayout
  import opened Tasks
  import opened Scheduling

  class TaskNode {
    var id: nat
    var status: Status
    var cpuStatus: Registers
    var pageDir: nat
    var rsp0: nat
    var next: TaskNode?

    /** Zeroed memory: id 0, status READY, no successor. */
    constructor ()
      ensures id == 0 && status == Ready && pageDir == 0 && rsp0 == 0 && next == null
    {
      id, status, pageDir, rsp0, next := 0, Ready, 0, 0, null;
      cpuStatus := Registers(0, 0, 0, 0, 0, 0, 0, seq(15, i => 0));
    }

    ghost function Record(): Task
      reads `id, `status, `cpuStatus, `pageDir, `rsp0
    {
      Task(id, status, cpuStatus, pageDir, rsp0)
    }
  }

  /** The node at position `i`, or null past the end. */
  ghost function At(tasks: seq<TaskNode>, i: nat): TaskNode?
  {
    if i < |tasks| then tasks[i] else null
  }

  /** `tasks` are linked by their `next` fields, in this order and without repetition. */
  ghost predicate Chain(tasks: seq<TaskNode>)
    reads tasks`next
  {
    && 0 < |tasks| && Distinct(tasks)
    && forall i {:trigger tasks[i].next} :: 0 <= i < |tasks| ==> tasks[i].next == At(tasks, i + 1)
  }

  method KernelTask(kernelDir: nat, kernelRsp0: nat) returns (kernel: TaskNode)
    ensures fresh(kernel) && kernel.next == null
    ensures kernel.Record() == Task(0, Ready, kernel.cpuStatus, kernelDir, kernelRsp0)
    ensures kernel.cpuStatus.rflags == 0x202
  {
    kernel := new TaskNode();
    kernel.id := 0;
    kernel.status := Ready;
    kernel.pageDir := kernelDir;
    kernel.cpuStatus := kernel.cpuStatus.(rflags := 0x202);
    kernel.rsp0 := kernelRsp0;
  }

  class TaskScheduler {
    var firstTask: TaskNode
    var currentTask: TaskNode
    var dummyTask: TaskNode
    var currentID: nat
    var schedulerReady: bool
    var pageDir: nat
    var tssRsp0: nat

    // The list, and every node that was ever in it.
    ghost var tasks: seq<TaskNode>
    ghost var nodes: set<TaskNode>

    ghost predicate Linked()
      reads `tasks, `nodes, `firstTask, nodes`next
    {
      (forall t :: t in tasks ==> t in nodes) && Chain(tasks) && firstTask == tasks[0]
    }

    ghost predicate Valid()
      reads `tasks, `nodes, `firstTask, `currentTask, `dummyTask, nodes`next
    {
      Linked() && currentTask in tasks && dummyTask in tasks
    }

    ghost function Records(): (m: map<TaskNode, Task>)
      reads `nodes, nodes`id, nodes`status, nodes`cpuStatus, nodes`pageDir, nodes`rsp0
      ensures m.Keys == nodes
    {
      map t | t in nodes :: t.Record()
    }

    ghost function Abs(): (s: State<TaskNode>)
      reads this, nodes`id, nodes`status, nodes`cpuStatus, nodes`pageDir, nodes`rsp0
    {
      State(tasks, Records(), currentTask, dummyTask, currentID, pageDir, tssRsp0)
    }

    lemma MemberNodes()
      requires Valid()
      ensures currentTask in nodes && dummyTask in nodes && firstTask in nodes && Known(tasks, Records())
    {
    }

    method TaskGet(id: nat) returns (task: TaskNode?)
      requires Linked()
      ensures task == At(tasks, FindId(tasks, Records(), id))
    {
      task := firstTask;
      ghost var i := 0;
      while task != null && task.id != id
        invariant i <= |tasks| && task == At(tasks, i)
        invariant forall j :: 0 <= j < i ==> tasks[j].id != id
        decreases |tasks| - i
      {
        task := task.next;
        i := i + 1;
      }
      FindIdIs(tasks, Records(), id, i);
    }

    /** Unlink a node. Crashed stands for the null dereference when no node points to the target. */
    method TaskFree(target: TaskNode) returns (crashed: bool)
      requires Linked() && target in tasks
      modifies `tasks, nodes`next
      ensures Linked()
      ensures crashed <==> target == old(tasks)[0]
      ensures tasks == if crashed then old(tasks) else Without(old(tasks), Pos(old(tasks), target))
      ensures target.next == At(old(tasks), Pos(old(tasks), target) + 1)
    {
      var browse: TaskNode? := firstTask;
      ghost var i, p := 0, Pos(tasks, target);
      while browse != null && browse.next != target
        invariant i <= |tasks| && browse == At(tasks, i)
        invariant p > 0 ==> i < p
        decreases |tasks| - i
      {
        browse := browse.next;
        i := i + 1;
      }
      if browse == null {
        return true;
      }
      PosIs(tasks, i + 1);
      Unlink(browse, target, i);
      return false;
    }

    method Unlink(browse: TaskNode, target: TaskNode, ghost i: nat)
      requires Linked() && i + 1 < |tasks| && tasks[i] == browse && tasks[i + 1] == target
      modifies `tasks, browse`next
      ensures Linked() && tasks == Without(old(tasks), i + 1)
      ensures target.next == old(target.next)
    {
      ghost var was := tasks;
      DistinctWithout(tasks, i + 1);
      browse.next := target.next;
      tasks := Without(tasks, i + 1);
      forall j | 0 <= j < |tasks|
        ensures tasks[j].next == At(tasks, j + 1)
      {
        assert tasks[j] == was[if j <= i then j else j + 1];
        assert was[if j <= i then j else j + 1].next == At(tasks, j + 1);
      }
    }

    /** The kernel becomes the first and current task, the dummy the second. */
    constructor InitializeTask(kernelDir: nat, kernelRsp0: nat, idle: nat, dummyDir: nat, dummyRsp0: nat)
      ensures Valid() && fresh(nodes) && schedulerReady
      ensures Initial(Abs(), firstTask) && currentTask == firstTask && pageDir == kernelDir
      ensures Records()[dummyTask] == Task(0, Dummy, InitialRegisters(idle, 0, false), dummyDir, dummyRsp0)
      ensures firstTask in nodes && Records()[firstTask].rsp0 == kernelRsp0
      ensures Records()[firstTask].regs.rflags == 0x202 && StartsAt(dummyTask.cpuStatus, idle, 0, false)
    {
      var kernel := KernelTask(kernelDir, kernelRsp0);
      firstTask, currentTask, dummyTask := kernel, kernel, kernel;
      currentID, pageDir, tssRsp0 := 0, kernelDir, 0;
      schedulerReady := false;
      tasks, nodes := [kernel], {kernel};
      new;
      hide Initial, InitialRegisters;
      CreateDummy(idle, dummyDir, dummyRsp0);
    }

    method CreateDummy(idle: nat, dummyDir: nat, dummyRsp0: nat)
      requires Valid() && tasks == [firstTask] && nodes == {firstTask} && currentTask == firstTask && currentID == 0
      requires firstTask.Record() == Task(0, Ready, firstTask.cpuStatus, pageDir, firstTask.rsp0)
      modifies this, nodes
      ensures Valid() && fresh(nodes - old(nodes)) && schedulerReady
      ensures Initial(Abs(), firstTask) && firstTask == old(firstTask) && currentTask == firstTask
      ensures pageDir == old(pageDir)
      ensures dummyTask in nodes && firstTask.Record() == old(firstTask.Record())
      ensures StartsAt(dummyTask.cpuStatus, idle, 0, false)
      ensures Records()[dummyTask] == Task(0, Dummy, InitialRegisters(idle, 0, false), dummyDir, dummyRsp0)
    {
      hide Chain, InitialRegisters;
      var dummy := TaskCreate(idle, dummyDir, 0, false, dummyRsp0);
      ghost var created := Records();
      dummyTask := dummy;
      dummyTask.status := Dummy;
      schedulerReady := true;
      assert Records() == created[dummyTask := dummyTask.Record()];
    }

    /** Append a zeroed node to the list. */
    method TaskAllocate() returns (task: TaskNode)
      requires Valid()
      modifies `tasks, `nodes, nodes`next
      ensures Valid() && fresh(task) && tasks == old(tasks) + [task] && nodes == old(nodes) + {task}
      ensures task.rsp0 == 0
      ensures Records() == old(Records())[task := task.Record()]
    {
      task := new TaskNode();
      assert Chain(tasks);
      var browse := firstTask;
      ghost var i := 0;
      while browse.next != null
        invariant i < |tasks| && browse == tasks[i]
        decreases |tasks| - i
      {
        assert i < |tasks| - 1;
        browse := browse.next;
        i := i + 1;
      }
      browse.next := task;
      tasks := tasks + [task];
      nodes := nodes + {task};
      assert Records() == old(Records())[task := task.Record()];
    }

    /** Create a task. Its stack pointer `stack` is the top of the kernel stack allocated for it. */
    method TaskCreate(entry: nat, pd: nat, arg: nat, isKernelTask: bool, stack: nat) returns (task: TaskNode)
      requires Valid() && currentTask.pageDir == pageDir
      modifies this, nodes
      ensures Valid() && fresh(task) && nodes == old(nodes) + {task} && firstTask == old(firstTask)
      ensures schedulerReady == old(schedulerReady)
      ensures Abs() == WithTask(old(Abs()), task, InitialRegisters(entry, arg, isKernelTask), pd, stack)
      ensures StartsAt(task.cpuStatus, entry, arg, isKernelTask)
      ensures task.status == Status.Created && task.pageDir == pd && task.rsp0 == stack && task.id == old(currentID)
      ensures forall t :: t in old(nodes) ==> t.Record() == old(t.Record())
    {
      hide Chain, Records, Valid, InitialRegisters, StartsAt, DirSwitched;
      ghost var before := Records();
      MemberNodes();
      task := NewTask(pd);
      StackDirectory(task.pageDir);
      Prepare(task, stack, entry, arg, isKernelTask);
      assert Records() == before[task := task.Record()];
    }

    /** A task with the next id, not ready yet. */
    method NewTask(pd: nat) returns (task: TaskNode)
      requires Valid()
      modifies `tasks, `nodes, `currentID, nodes`next
      ensures Valid() && fresh(task) && nodes == old(nodes) + {task}
      ensures task.Record() == Task(old(currentID), Status.Created, task.cpuStatus, pd, 0)
      ensures Abs() == WithTask(old(Abs()), task, task.cpuStatus, pd, 0)
    {
      hide Chain, Records, Valid;
      ghost var before := Records();
      task := TaskAllocate();
      Describe(task, currentID, pd);
      currentID := currentID + 1;
      assert Records() == before[task := task.Record()];
    }

    /** Identity, state and directory of a new task. */
    method Describe(task: TaskNode, id: nat, pd: nat)
      requires task in nodes
      modifies task`id, task`status, task`pageDir
      ensures task.Record() == old(task.Record()).(id := id, status := Status.Created, pageDir := pd)
      ensures Records() == old(Records())[task := task.Record()]
    {
      task.id := id;
      task.status := Status.Created;
      task.pageDir := pd;
      assert Records() == old(Records())[task := task.Record()];
    }

    /** Kernel stack and initial registers of a new task. */
    method Prepare(task: TaskNode, stack: nat, entry: nat, arg: nat, isKernelTask: bool)
      requires task in nodes
      modifies task`rsp0, task`cpuStatus
      ensures task.Record() == old(task.Record()).(rsp0 := stack, regs := InitialRegisters(entry, arg, isKernelTask))
      ensures StartsAt(task.cpuStatus, entry, arg, isKernelTask)
      ensures Records() == old(Records())[task := task.Record()]
    {
      var ss, cs := 0x20 + 3, 0x18 + 3;
      if isKernelTask {
        ss, cs := 0x10, 0x08;
      }
      task.rsp0 := stack;
      task.cpuStatus := Registers(entry, cs, 0x202, USER_STACK_TOP, ss, arg, 0, seq(15, i => 0));
      assert Records() == old(Records())[task := task.Record()];
    }

    /** The switch to the new task's directory and back while its user stack is mapped. */
    method StackDirectory(pd: nat)
      requires Valid() && currentTask.pageDir == pageDir
      modifies `pageDir, currentTask`pageDir
      ensures Valid() && Records() == old(Records()) && pageDir == old(pageDir)
      ensures currentTask.pageDir == old(currentTask.pageDir)
    {
      var oldPageDir := pageDir;
      ChangePageDir(pd);
      ChangePageDir(oldPageDir);
      assert Records() == old(Records());
    }

    method ChangePageDir(pd: nat)
      requires Valid()
      modifies `pageDir, currentTask`pageDir
      ensures Valid() && Abs() == DirSwitched(old(Abs()), pd)
      ensures pageDir == currentTask.pageDir == pd
    {
      currentTask.pageDir := pd;
      pageDir := pd;
      assert Records() == old(Records())[currentTask := currentTask.Record()];
    }

    method TaskKill(id: nat)
      requires Valid()
      modifies nodes`status
      ensures Valid() && Abs() == Killed(old(Abs()), id)
    {
      hide Chain, FindId;
      var task := TaskGet(id);
      if task == null {
        return;
      }
      task.status := Dead;
      assert Records() == old(Records())[task := task.Record()];
    }

    /** What a creator does once its task may run, without looking at its state. */
    method Release(task: TaskNode)
      requires Valid() && task in nodes
      modifies task`status
      ensures Valid() && Abs() == Released(old(Abs()), task)
    {
      task.status := Ready;
      assert Records() == old(Records())[task := task.Record()];
    }

    /** schedulerDeleteTask, as far as the list is concerned. */
    method DeleteTask(taskId: nat) returns (crashed: bool)
      requires Linked()
      modifies `tasks, nodes`next
      ensures Linked() && Records() == old(Records())
      ensures var p := FindId(old(tasks), old(Records()), taskId);
        && (crashed <==> p == 0)
        && tasks == (if crashed || p == |old(tasks)| then old(tasks) else Without(old(tasks), p))
        && (p < |old(tasks)| ==> old(tasks)[p].next == At(old(tasks), p + 1))
    {
      var task := TaskGet(taskId);
      if task == null {
        return false;
      }
      PosIs(tasks, FindId(tasks, Records(), taskId));
      crashed := TaskFree(task);
      assert Records() == old(Records());
    }

    /** The search so far: continuing at position `i` gives what the whole search gives. */
    ghost predicate Searching(order: seq<TaskNode>, task: map<TaskNode, Task>, start: nat, i: nat, wraps: nat)
      reads `tasks
    {
      && Known(order, task) && start < |order| && Known(tasks, task) && DeadIdsUnique(tasks, task)
      && i < |tasks| && wraps <= 2 && Search(tasks, task, i, wraps) == Search(order, task, start, 0)
    }

    /** The search loop. Crashed is the null dereference of TaskFree; null means that no task was found. */
    method FindNext() returns (crashed: bool, nextTask: TaskNode?)
      requires Valid() && DeadIdsUnique(tasks, Records())
      modifies `tasks, nodes`next
      ensures Linked() && Records() == old(Records())
      ensures var (found, order) := Search(old(tasks), old(Records()), SearchStart(old(tasks), currentTask), 0);
        && (crashed <==> found.Fault?)
        && (!crashed ==> tasks == order && nextTask == if found.Next? then found.task else null)
    {
      ghost var order, task, start := tasks, Records(), SearchStart(tasks, currentTask);
      nextTask := currentTask.next;
      if nextTask == null {
        nextTask := firstTask;
      }
      ghost var i: nat := start;
      var fullRun := 0;
      while nextTask.status != Ready
        invariant Linked() && Records() == task && nextTask != null
        invariant Searching(order, task, start, i, fullRun) && nextTask == tasks[i]
        decreases 3 - fullRun, |tasks| - i
      {
        ghost var here, at := tasks, i;
        if nextTask.status == Dead {
          crashed := DeleteDead(nextTask, i);
          if crashed {
            return;
          }
          WithoutKeepsIds(here, task, at);
        } else {
          i := i + 1;
        }
        assert Search(here, task, at, fullRun) == SearchOn(tasks, task, i, fullRun);
        nextTask := nextTask.next;
        if nextTask == null {
          fullRun := fullRun + 1;
          if fullRun > 2 {
            return false, null;
          }
          nextTask := firstTask;
          i := 0;
        }
      }
      return false, nextTask;
    }

    method DeleteDead(target: TaskNode, ghost i: nat) returns (crashed: bool)
      requires Linked() && DeadIdsUnique(tasks, Records())
      requires i < |tasks| && target == tasks[i] && target.status == Dead
      modifies `tasks, nodes`next
      ensures Linked() && Records() == old(Records())
      ensures crashed <==> i == 0
      ensures !crashed ==> tasks == Without(old(tasks), i) && target.next == At(tasks, i)
    {
      FindIdIs(tasks, Records(), target.id, i);
      crashed := DeleteTask(target.id);
    }

    /** The part of a tick after the search: mark, save, load, take over stack and directory. */
    method Switch(nextTask: TaskNode, frame: Registers) returns (loaded: Registers)
      requires nextTask in nodes && currentTask in nodes
      modifies `currentTask, `pageDir, `tssRsp0, nodes`status, nodes`cpuStatus
      ensures Abs() == SwitchTo(old(Abs()), nextTask, frame) && loaded == Records()[nextTask].regs
    {
      nextTask.status := Running;
      var oldTask := currentTask;
      currentTask := nextTask;
      tssRsp0 := nextTask.rsp0;
      oldTask.cpuStatus := frame;
      loaded := nextTask.cpuStatus;
      pageDir := nextTask.pageDir;
      ghost var running := old(Records())[nextTask := old(Records())[nextTask].(status := Running)];
      assert Records() == running[oldTask := running[oldTask].(regs := frame)];
    }

    /** A preempted task that is neither killed nor READY becomes READY. */
    method Preempt()
      requires Valid()
      modifies currentTask`status
      ensures Valid() && Records() == Preempted(old(Records()), currentTask) && currentTask in nodes
    {
      if currentTask.status != Dead && currentTask.status != Ready {
        currentTask.status := Ready;
      }
      assert Records() == Preempted(old(Records()), currentTask);
    }

    /** One timer interrupt, or nothing before the scheduler is ready. */
    method Schedule(frame: Registers) returns (outcome: Outcome)
      requires Valid() && DeadIdsUnique(tasks, Records())
      modifies this, nodes
      ensures nodes == old(nodes)
      ensures !old(schedulerReady) ==> outcome == Ignored && Abs() == old(Abs())
      ensures old(schedulerReady) ==>
        match Tick(old(Abs()), frame)
        case Crashed => outcome == Faulted
        case Switched(after, loaded) => outcome == Resumes(loaded) && Abs() == after && Linked()
      ensures old(schedulerReady && Inv(Abs())) ==> outcome.Resumes? && Valid() && Inv(Abs())
    {
      if !schedulerReady {
        return Ignored;
      }
      ghost var before := Abs();
      outcome := Reschedule(frame);
      hide Tick;
      if Inv(before) {
        TickInv(before, frame);
      }
    }

    method Reschedule(frame: Registers) returns (outcome: Outcome)
      requires Valid() && DeadIdsUnique(tasks, Records())
      modifies `tasks, `currentTask, `pageDir, `tssRsp0, nodes
      ensures match Tick(old(Abs()), frame)
        case Crashed => outcome == Faulted
        case Switched(after, loaded) => outcome == Resumes(loaded) && Abs() == after && Linked()
    {
      hide Chain, Search, SearchStart, DeadIdsUnique, Preempted, SwitchTo, Records;
      MemberNodes();
      Preempt();
      PreemptedIds(tasks, old(Records()), currentTask);
      var crashed, nextTask := FindNext();
      if crashed {
        return Faulted;
      }
      if nextTask == null {
        nextTask := dummyTask;
      }
      var loaded := Switch(nextTask, frame);
      return Resumes(loaded);
    }
  }

  /** The frame of a task that starts at `entry` with argument `arg` on an empty user stack, on the privilege level of
      its kind, with interrupts enabled. */
  ghost predicate StartsAt(regs: Registers, entry: nat, arg: nat, isKernelTask: bool)
  {
    && regs.rip == entry && regs.rdi == arg && regs.rsp == 0x6000_0000_0000 && regs.rbp == 0
    && regs.cs == (if isKernelTask then 0x08 else 0x1B) && regs.ss == (if isKernelTask then 0x10 else 0x23)
    && regs.cs % 4 == regs.ss % 4 == (if isKernelTask then 0 else 3)
    && regs.rflags == 0x202 && regs.rflags / 0x200 % 2 == 1
  }

  datatype Outcome = Ignored | Faulted | Resumes(loaded: Registers)

  lemma PreemptedIds<R>(order: seq<R>, task: map<R, Task>, current: R)
    requires Known(order, task) && current in task && DeadIdsUnique(order, task)
    ensures Known(order, Preempted(task, current)) && DeadIdsUnique(order, Preempted(task, current))
  {
  }

  lemma {:induction false} FindIdIs<R>(order: seq<R>, task: map<R, Task>, id: nat, i: nat)
    requires Known(order, task) && i <= |order|
    requires (forall j :: 0 <= j < i ==> task[order[j]].id != id) && (i < |order| ==> task[order[i]].id == id)
    ensures FindId(order, task, id) == i
  {
    if i > 0 {
      FindIdIs(order[1..], task, id, i - 1);
    }
  }
}
