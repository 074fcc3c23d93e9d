/** The task list and the search for the next task, on values. Tasks are named by references of any type. */
module Tasks {

  datatype Status = Ready | Created | Running | Dead | Dummy

  /** The saved register frame; `rest` holds the registers the kernel never sets itself. */
  datatype Registers = Registers(rip: nat, cs: nat, rflags: nat, rsp: nat, ss: nat, rdi: nat, rbp: nat, rest: seq<nat>)

  datatype Task = Task(id: nat, status: Status, regs: Registers, pageDir: nat, rsp0: nat)

  /** Every task of the list has a record. */
  predicate Known<R>(order: seq<R>, task: map<R, Task>)
  {
    forall j :: 0 <= j < |order| ==> order[j] in task
  }

  /** The result of a search: a READY task, nothing after the third wrap, or a fault: the head of the list cannot be
      unlinked, because no node points to it. */
  datatype Found<R> = Next(task: R) | Exhausted | Fault

  /** The list without its element `i`. */
  function Without<R>(order: seq<R>, i: nat): seq<R>
    requires i < |order|
  {
    order[..i] + order[i + 1..]
  }

  /** The search loop of the scheduler at list position `i` after `wraps` returns to the head: stop at the first READY
      task, delete DEAD ones on the way, give up at the third wrap. */
  function Search<R>(order: seq<R>, task: map<R, Task>, i: nat, wraps: nat): (result: (Found<R>, seq<R>))
    requires i < |order| && wraps <= 2
    requires Known(order, task)
    ensures result.0.Next? ==> result.0.task in task
    decreases 3 - wraps, |order| - i, 0
  {
    var status := task[order[i]].status;
    if status == Ready then (Next(order[i]), order)
    else if status == Dead then
      if i == 0 then (Fault, order)
      else SearchOn(Without(order, i), task, i, wraps)
    else SearchOn(order, task, i + 1, wraps)
  }

  /** The search continues at position `i`, or wraps around when that is past the end. */
  function SearchOn<R>(order: seq<R>, task: map<R, Task>, i: nat, wraps: nat): (result: (Found<R>, seq<R>))
    requires 0 < |order| && i <= |order| && wraps <= 2
    requires Known(order, task)
    ensures result.0.Next? ==> result.0.task in task
    decreases 3 - wraps, |order| - i, 1
  {
    if i < |order| then Search(order, task, i, wraps)
    else if wraps + 1 > 2 then (Exhausted, order)
    else Search(order, task, 0, wraps + 1)
  }

  /** The tasks of a list that are not DEAD, in order. */
  function Live<R>(order: seq<R>, task: map<R, Task>): (live: seq<R>)
    requires Known(order, task)
    ensures |live| <= |order|
  {
    if order == [] then []
    else if task[order[0]].status == Dead then Live(order[1..], task)
    else [order[0]] + Live(order[1..], task)
  }

  lemma {:induction false} LiveMembers<R>(order: seq<R>, task: map<R, Task>)
    requires Known(order, task)
    ensures forall r :: r in Live(order, task) <==> r in order && task[r].status != Dead
  {
    if order != [] {
      LiveMembers(order[1..], task);
    }
  }

  lemma {:induction false} LiveAppend<R>(a: seq<R>, b: seq<R>, task: map<R, Task>)
    requires Known(a + b, task)
    ensures Known(a, task) && Known(b, task)
    ensures Live(a + b, task) == Live(a, task) + Live(b, task)
  {
    forall j | 0 <= j < |a|
      ensures a[j] in task
    {
      assert (a + b)[j] == a[j];
    }
    forall j | 0 <= j < |b|
      ensures b[j] in task
    {
      assert (a + b)[|a| + j] == b[j];
    }
    if a == [] {
      assert a + b == b;
    } else {
      assert (a + b)[1..] == a[1..] + b;
      LiveAppend(a[1..], b, task);
    }
  }

  /** The lowest position from `i` on that holds a READY task, or the length of the list. */
  function NextReady<R>(order: seq<R>, task: map<R, Task>, i: nat): (k: nat)
    requires i <= |order| && Known(order, task)
    ensures i <= k <= |order|
    ensures forall j :: i <= j < k ==> task[order[j]].status != Ready
    ensures k < |order| ==> task[order[k]].status == Ready
    decreases |order| - i
  {
    if i == |order| || task[order[i]].status == Ready then i else NextReady(order, task, i + 1)
  }

  /** The list after the DEAD tasks at positions `i .. k` were deleted. */
  function Swept<R>(order: seq<R>, task: map<R, Task>, i: nat, k: nat): seq<R>
    requires i <= k <= |order| && Known(order, task)
  {
    order[..i] + Live(order[i..k], task) + order[k..]
  }

  /** Every DEAD task is the first one with its id, so deleting by id deletes the task meant. */
  ghost predicate DeadIdsUnique<R>(order: seq<R>, task: map<R, Task>)
    requires Known(order, task)
  {
    forall i, j :: 0 <= i < j < |order| && task[order[j]].status == Dead ==> task[order[i]].id != task[order[j]].id
  }

  lemma WithoutKeepsIds<R>(order: seq<R>, task: map<R, Task>, k: nat)
    requires k < |order| && Known(order, task) && DeadIdsUnique(order, task)
    ensures Known(Without(order, k), task) && DeadIdsUnique(Without(order, k), task)
  {
    var rest := Without(order, k);
    forall j | 0 <= j < |rest|
      ensures rest[j] == order[if j < k then j else j + 1]
    {
    }
  }

  // ----- any list -----

  ghost predicate Distinct<R>(order: seq<R>)
  {
    forall i, j :: 0 <= i < j < |order| ==> order[i] != order[j]
  }

  lemma DistinctWithout<R>(order: seq<R>, k: nat)
    requires k < |order| && Distinct(order)
    ensures Distinct(Without(order, k))
  {
    var rest := Without(order, k);
    forall i, j | 0 <= i < j < |rest|
      ensures rest[i] != rest[j]
    {
      assert rest[i] == order[if i < k then i else i + 1] && rest[j] == order[if j < k then j else j + 1];
    }
  }

  /** Whatever the list: the search removes only DEAD tasks and no other, keeps the head and the order, ends on a READY
      task if it names one, and gives up only when no task is READY and none DEAD is left. */
  ghost predicate SearchOutcome<R>(order: seq<R>, task: map<R, Task>, found: Found<R>, after: seq<R>)
  {
    && 0 < |after| <= |order| && 0 < |order| && after[0] == order[0]
    && Known(order, task) && Known(after, task)
    && Live(after, task) == Live(order, task)
    && (forall r :: r in after ==> r in order) && (Distinct(order) ==> Distinct(after))
    && (found.Next? ==> found.task in after && task[found.task].status == Ready)
    && (found.Fault? ==> task[order[0]].status == Dead)
    && (found.Exhausted? ==> after == Live(order, task) && forall r :: r in after ==> task[r].status != Ready)
  }

  lemma WithoutDead<R>(order: seq<R>, task: map<R, Task>, i: nat)
    requires 0 < i < |order| && Known(order, task) && task[order[i]].status == Dead
    ensures Known(Without(order, i), task)
    ensures Live(Without(order, i), task) == Live(order, task)
  {
    assert order == order[..i] + ([order[i]] + order[i + 1..]);
    LiveAppend(order[..i], [order[i]] + order[i + 1..], task);
    assert ([order[i]] + order[i + 1..])[1..] == order[i + 1..];
    LiveAppend(order[..i], order[i + 1..], task);
  }

  /** On its last round the search has seen, since the last wrap, neither READY nor DEAD tasks below position `i`. */
  ghost predicate Barren<R>(order: seq<R>, task: map<R, Task>, i: nat)
    requires i <= |order| && Known(order, task)
  {
    forall j :: 0 <= j < i ==> task[order[j]].status != Ready && task[order[j]].status != Dead
  }

  lemma {:induction false} SearchAnyList<R>(order: seq<R>, task: map<R, Task>, i: nat, wraps: nat)
    requires i < |order| && wraps <= 2 && Known(order, task)
    requires wraps > 0 ==> Barren(order, task, i)
    ensures SearchOutcome(order, task, Search(order, task, i, wraps).0, Search(order, task, i, wraps).1)
    decreases 3 - wraps, |order| - i, 0
  {
    var status := task[order[i]].status;
    if status == Ready {
    } else if status == Dead {
      if i > 0 {
        WithoutDead(order, task, i);
        SearchOnAnyList(Without(order, i), task, i, wraps);
      }
    } else {
      SearchOnAnyList(order, task, i + 1, wraps);
    }
  }

  lemma {:induction false} SearchOnAnyList<R>(order: seq<R>, task: map<R, Task>, i: nat, wraps: nat)
    requires 0 < |order| && i <= |order| && wraps <= 2 && Known(order, task)
    requires wraps > 0 ==> Barren(order, task, i)
    ensures SearchOutcome(order, task, SearchOn(order, task, i, wraps).0, SearchOn(order, task, i, wraps).1)
    decreases 3 - wraps, |order| - i, 1
  {
    if i < |order| {
      SearchAnyList(order, task, i, wraps);
    } else if wraps + 1 > 2 {
      BarrenIsLive(order, task);
    } else {
      SearchAnyList(order, task, 0, wraps + 1);
    }
  }

  lemma {:induction false} BarrenIsLive<R>(order: seq<R>, task: map<R, Task>)
    requires Known(order, task) && Barren(order, task, |order|)
    ensures Live(order, task) == order
  {
    if order != [] {
      assert Barren(order[1..], task, |order| - 1) by {
        forall j | 0 <= j < |order| - 1
          ensures task[order[1..][j]].status != Ready && task[order[1..][j]].status != Dead
        {
          assert order[1..][j] == order[j + 1];
        }
      }
      BarrenIsLive(order[1..], task);
    }
  }

  // ----- a list whose head is READY -----

  lemma {:induction false} NextReadyIs<R>(order: seq<R>, task: map<R, Task>, i: nat, k: nat)
    requires i <= k <= |order| && Known(order, task)
    requires forall j :: i <= j < k ==> task[order[j]].status != Ready
    requires k < |order| ==> task[order[k]].status == Ready
    ensures NextReady(order, task, i) == k
    decreases k - i
  {
    if i < k {
      NextReadyIs(order, task, i + 1, k);
    }
  }

  /** Deleting a DEAD task at the start of a stretch leaves the same swept list. */
  lemma SweptWithout<R>(order: seq<R>, task: map<R, Task>, i: nat)
    requires 0 < i < |order| && Known(order, task) && task[order[i]].status == Dead
    ensures Known(Without(order, i), task)
    ensures var k, rest := NextReady(order, task, i), Without(order, i);
      && i < k && NextReady(rest, task, i) == k - 1
      && rest[0] == order[0] && (k < |order| ==> rest[k - 1] == order[k])
      && Swept(rest, task, i, k - 1) == Swept(order, task, i, k)
  {
    WithoutDead(order, task, i);
    var k, rest := NextReady(order, task, i), Without(order, i);
    NextReadyWithout(order, task, i);
    hide NextReady, Without;
    SliceWithout(order, i, k);
    LiveSlice(order, task, i, k);
  }

  lemma SliceWithout<R>(order: seq<R>, i: nat, k: nat)
    requires i < k <= |order|
    ensures var rest := Without(order, i);
      && |rest| == |order| - 1 && rest[..i] == order[..i]
      && rest[i..k - 1] == order[i + 1..k] && rest[k - 1..] == order[k..]
      && (i > 0 ==> rest[0] == order[0]) && (k < |order| ==> rest[k - 1] == order[k])
  {
  }

  lemma LiveSlice<R>(order: seq<R>, task: map<R, Task>, i: nat, k: nat)
    requires i < k <= |order| && Known(order, task)
    ensures Live(order[i..k], task)
      == (if task[order[i]].status == Dead then [] else [order[i]]) + Live(order[i + 1..k], task)
  {
    var stretch := order[i..k];
    assert stretch[0] == order[i] && stretch[1..] == order[i + 1..k];
  }

  lemma NextReadyWithout<R>(order: seq<R>, task: map<R, Task>, i: nat)
    requires 0 < i < |order| && Known(order, task) && task[order[i]].status == Dead
    requires Known(Without(order, i), task)
    ensures NextReady(Without(order, i), task, i) == NextReady(order, task, i) - 1
  {
    var k, rest := NextReady(order, task, i), Without(order, i);
    forall j | i <= j < |rest|
      ensures rest[j] == order[j + 1]
    {
    }
    NextReadyIs(rest, task, i, k - 1);
  }

  /** Passing a task that is neither READY nor DEAD leaves the same swept list. */
  lemma SweptPast<R>(order: seq<R>, task: map<R, Task>, i: nat)
    requires i < |order| && Known(order, task)
    requires task[order[i]].status != Dead && task[order[i]].status != Ready
    ensures var k := NextReady(order, task, i);
      i < k && NextReady(order, task, i + 1) == k && Swept(order, task, i + 1, k) == Swept(order, task, i, k)
  {
    var k := NextReady(order, task, i);
    assert i < k && NextReady(order, task, i + 1) == k;
    LiveSlice(order, task, i, k);
    hide NextReady, Live, Known;
    Regroup(order, i, Live(order[i + 1..k], task), order[k..]);
  }

  lemma Regroup<R>(order: seq<R>, i: nat, live: seq<R>, rest: seq<R>)
    requires i < |order|
    ensures order[..i + 1] + live + rest == order[..i] + ([order[i]] + live) + rest
  {
  }

  /** With a READY task at the head the search makes at most one wrap, sweeps the DEAD tasks it passes and stops at the
      next READY task after its start, or at the head. */
  lemma {:induction false} SearchClosedForm<R>(order: seq<R>, task: map<R, Task>, i: nat, wraps: nat)
    requires 0 < i <= |order| && wraps <= 1
    requires Known(order, task) && task[order[0]].status == Ready
    ensures var k := NextReady(order, task, i);
      SearchOn(order, task, i, wraps) == (Next(order[if k < |order| then k else 0]), Swept(order, task, i, k))
    decreases |order| - i
  {
    if i == |order| || task[order[i]].status == Ready {
      assert Swept(order, task, i, i) == order;
    } else if task[order[i]].status == Dead {
      SweptWithout(order, task, i);
      SearchClosedForm(Without(order, i), task, i, wraps);
    } else {
      SweptPast(order, task, i);
      SearchClosedForm(order, task, i + 1, wraps);
    }
  }

  // ----- a list whose head is DEAD -----

  /** With a DEAD head the search faults exactly when no task from its start on is READY. */
  lemma {:induction false} SearchDeadHead<R>(order: seq<R>, task: map<R, Task>, i: nat, wraps: nat)
    requires 0 < i <= |order| && wraps <= 1
    requires Known(order, task) && task[order[0]].status == Dead
    ensures SearchOn(order, task, i, wraps).0.Fault? <==> NextReady(order, task, i) == |order|
    decreases |order| - i
  {
    if i == |order| || task[order[i]].status == Ready {
    } else if task[order[i]].status == Dead {
      SweptWithout(order, task, i);
      SearchDeadHead(Without(order, i), task, i, wraps);
    } else {
      SearchDeadHead(order, task, i + 1, wraps);
    }
  }
}
