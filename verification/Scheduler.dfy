/** The ring of tasks as linked records, changed in place, step by step as in the protocol
    (src/kernel/sched/scheduler.c, src/arch/x86_64/syscall/proc.c). */
module Scheduler {
  import opened Wrappers
  import opened Words
  import opened Protocol
  import opened ProtocolRuns

  /** task_t */
  class TaskNode {
    var next: TaskNode?
    var st: TaskState
    var regs: Regs
    const id: nat
    var wake: nat
    const parent: nat
    var status: int
    const user: bool
    ghost var waitingFor: nat

    constructor (number: nat, state: TaskState, saved: Regs, parentId: nat, usermode: bool)
      ensures Value() == Task(number, state, saved, 0, parentId, 0, usermode, 0) && next == null
    {
      next, st, regs, id, wake, parent, status, user, waitingFor := null, state, saved, number, 0, parentId, 0,
          usermode, 0;
    }

    ghost function Value(): Task
      reads this
    {
      Task(id, st, regs, wake, parent, status, user, waitingFor)
    }
  }

  ghost function Values(nodes: seq<TaskNode>): (r: seq<Task>)
    reads nodes
    ensures |r| == |nodes|
  {
    seq(|nodes|, i requires 0 <= i < |nodes| reads nodes => nodes[i].Value())
  }

  ghost predicate Distinct(nodes: seq<TaskNode>) {
    forall i, j :: 0 <= i < j < |nodes| ==> nodes[i] != nodes[j]
  }

  /** Each node links to the next one, and the last to the first. */
  ghost predicate Ring(nodes: seq<TaskNode>)
    reads nodes
  {
    forall i :: 0 <= i < |nodes| ==> nodes[i].next == nodes[On(|nodes|, i, 1)]
  }

  /** The place whose link a node takes over when node i is taken out. */
  function LinkOf(n: nat, i: nat, j: nat): (k: nat)
    requires i < n && j < n
    ensures k < n
  {
    if j == (if i == 0 then n - 1 else i - 1) then i else j
  }

  /** The links pass node i by. */
  ghost predicate PassedBy(nodes: seq<TaskNode>, i: nat)
    requires i < |nodes|
    reads nodes
  {
    forall j: nat :: j < |nodes| ==> nodes[j].next == nodes[On(|nodes|, LinkOf(|nodes|, i, j), 1)]
  }

  class Scheduler {
    var taskList: TaskNode?
    var current: TaskNode?
    var nextTaskId: nat
    ghost var nodes: seq<TaskNode>
    ghost var place: nat // of the current task

    /** init_scheduler */
    constructor ()
      ensures Valid() && Value() == Sys([], None, 1)
    {
      taskList, current, nextTaskId := null, null, 1;
      nodes, place := [], 0;
    }

    ghost predicate Valid()
      reads this, nodes
    {
      && Distinct(nodes) && Ring(nodes)
      && (nodes == [] <==> taskList == null) && (nodes != [] ==> taskList == nodes[0])
      && (current != null ==> place < |nodes| && nodes[place] == current)
    }

    ghost function Value(): Sys
      reads this, nodes
    {
      Sys(Values(nodes), if current == null then None else Some(place), nextTaskId)
    }

    /** find_task_by_id */
    method Find(id: nat) returns (t: TaskNode?, ghost at: nat)
      requires Valid()
      ensures t == null <==> Lookup(Values(nodes), id).None?
      ensures t != null ==> Lookup(Values(nodes), id) == Some(at) && at < |nodes| && nodes[at] == t
    {
      at := 0;
      if taskList == null {
        return null, 0;
      }
      var node: TaskNode := taskList;
      var round := false;
      while !round
        invariant at <= |nodes| && (!round ==> at < |nodes| && node == nodes[at]) && (round ==> at == |nodes|)
        invariant Lookup(Values(nodes), id) == LookupFrom(Values(nodes), id, at)
        decreases |nodes| - at
      {
        if node.id == id {
          return node, at;
        }
        node := node.next;
        round := node == taskList;
        at := at + 1;
      }
      t := null;
    }

    /** The walk to the end of the ring. */
    method Last() returns (tail: TaskNode)
      requires Valid() && taskList != null
      ensures tail == nodes[|nodes| - 1]
    {
      tail := taskList;
      ghost var k: nat := 0;
      while tail.next != taskList
        invariant k < |nodes| && tail == nodes[k]
        decreases |nodes| - k
      {
        tail := tail.next;
        k := k + 1;
      }
    }

    /** task_enqueue: the node comes last. */
    method Enqueue(t: TaskNode)
      requires Valid() && t !in nodes
      modifies this`taskList, this`nodes, nodes`next, t`next
      ensures Valid() && nodes == old(nodes) + [t] && Values(nodes) == old(Values(nodes)) + [old(t.Value())]
    {
      if taskList == null {
        taskList := t;
        t.next := t;
      } else {
        var tail := Last();
        tail.next := t;
        t.next := taskList;
      }
      nodes := nodes + [t];
    }

    /** sweep_wakeup */
    method SweepWakeup(ticks: nat)
      requires Valid()
      modifies nodes`st
      ensures Valid() && Values(nodes) == Swept(old(Values(nodes)), ticks)
    {
      if taskList == null {
        return;
      }
      ghost var was := Values(nodes);
      var t: TaskNode := taskList;
      var round := false;
      ghost var k: nat := 0;
      while !round
        modifies nodes`st
        invariant k <= |nodes| && (!round ==> k < |nodes| && t == nodes[k]) && (round ==> k == |nodes|)
        invariant forall i :: 0 <= i < |nodes| ==> nodes[i].Value() == if i < k then Awake(was[i], ticks) else was[i]
        decreases |nodes| - k
      {
        if t.st == Blocked && t.wake <= ticks {
          t.st := Runnable;
        }
        t := t.next;
        round := t == taskList;
        k := k + 1;
      }
    }

    /** The first tick: the code that runs becomes task 0, the idle task. */
    method Adopt(regs: Regs)
      requires Valid() && current == null && taskList != null
      modifies this, nodes`next
      ensures Valid() && nextTaskId == old(nextTaskId) && fresh(current)
      ensures Value() ==
              Sys(old(Values(nodes)) + [Task(0, Running, regs, 0, 0, 0, false, 0)], Some(|old(nodes)|), old(nextTaskId))
    {
      hide Ring, Distinct, Values;
      var main := new TaskNode(0, Running, regs, 0, false);
      Enqueue(main);
      current := main;
      place := |nodes| - 1;
    }

    /** The search for the next runnable task, from the one behind the current one. */
    method Choose() returns (next: TaskNode?, ghost k: Option<nat>)
      requires Valid() && current != null
      ensures k == NextRunnable(Values(nodes), place, 1)
      ensures next == null <==> k.None?
      ensures k.Some? ==> next == nodes[On(|nodes|, place, k.value)]
    {
      var node: TaskNode := current.next;
      ghost var j: nat := 1;
      while node.st != Runnable
        invariant 1 <= j <= |nodes| && node == nodes[On(|nodes|, place, j)]
        invariant NextRunnable(Values(nodes), place, 1) == NextRunnable(Values(nodes), place, j)
        decreases |nodes| - j
      {
        if node == current {
          return null, None;
        }
        node := node.next;
        j := j + 1;
      }
      next, k := node, Some(j);
    }

    /** The current task gives the processor up, with its registers saved. */
    method Yield(regs: Regs)
      requires Valid() && current != null
      modifies current`st, current`regs
      ensures Valid() && Values(nodes) == old(Values(nodes))[place := Yielded(old(current.Value()), regs)]
    {
      current.regs := regs;
      if current.st == Running {
        current.st := Runnable;
      }
    }

    /** The next runnable task runs, or the current one goes on if there is none. */
    method Switch(regs: Regs) returns (out: Regs)
      requires Valid() && current != null
      modifies this`current, this`place, nodes`st
      ensures Valid() && current != null
      ensures var ring, c := old(Values(nodes)), old(place);
              var k := NextRunnable(ring, c, 1);
              if k.None? then place == c && out == regs && Values(nodes) == ring[c := ring[c].(st := Running)]
              else place == On(|ring|, c, k.value) && out == ring[place].regs
                   && Values(nodes) == ring[place := ring[place].(st := Running)]
    {
      out := regs;
      var next, k := Choose();
      if next == null {
        current.st := Running;
      } else {
        place := On(|nodes|, place, k.value);
        current := next;
        current.st := Running;
        out := current.regs;
      }
    }

    /** schedule_tick: the registers that the processor continues with. */
    method ScheduleTick(ticks: nat, regs: Regs) returns (out: Regs)
      requires Valid()
      modifies this, nodes`next, nodes`st, nodes`regs
      ensures Valid() && (Value(), out) == Tick(old(Value()), ticks, regs)
    {
      hide NextRunnable, Ring, Distinct;
      out := regs;
      if taskList == null {
        return;
      }
      SweepWakeup(ticks);
      if current == null {
        Adopt(regs);
        return;
      }
      ghost var s := old(Value());
      assert Values(nodes)[place] == current.Value();
      Yield(regs);
      assert Values(nodes) == Ready(s, ticks, regs);
      out := Switch(regs);
    }

    /** create_elf_task_args, once the program image is there */
    method SpawnTask(regs: Regs) returns (t: TaskNode)
      requires Valid()
      modifies this, nodes`next
      ensures Valid() && Value() == Spawn(old(Value()), regs) && t.id == old(nextTaskId)
    {
      t := new TaskNode(nextTaskId, Runnable, regs, 0, true);
      nextTaskId := nextTaskId + 1;
      Enqueue(t);
    }

    /** fork_current_task and sys_fork, once the address space is cloned: the id of the child */
    method ForkTask(regs: Regs) returns (id: nat)
      requires Valid() && MayCall(Value())
      modifies this, nodes`next
      ensures Valid() && Value() == Fork(old(Value()), regs) && id == old(nextTaskId)
    {
      assert Values(nodes)[place] == current.Value();
      var child := new TaskNode(nextTaskId, Runnable, regs.(rax := 0), current.id, true);
      id := nextTaskId;
      nextTaskId := nextTaskId + 1;
      Enqueue(child);
    }

    method SetStatus(status: int)
      requires Valid() && current != null
      modifies current`status
      ensures Valid() && Values(nodes) == old(Values(nodes))[place := old(Values(nodes))[place].(status := status)]
    {
      current.status := status;
    }

    method SetState(st: TaskState)
      requires Valid() && current != null
      modifies current`st
      ensures Valid() && Values(nodes) == old(Values(nodes))[place := old(Values(nodes))[place].(st := st)]
    {
      current.st := st;
    }

    /** sys_exit, up to its endless halt */
    method ExitCurrent(status: int)
      requires Valid() && MayCall(Value())
      modifies nodes`st, current`status
      ensures Valid() && Value() == Exit(old(Value()), status)
    {
      hide Lookup, Ring, Distinct, Exit;
      ghost var s := Value();
      assert s.ring[place] == current.Value();
      SetStatus(status);
      ghost var mid := Values(nodes);
      SameIds(s.ring, mid, current.parent);
      WakeParent(current.parent);
      ghost var woken := Values(nodes);
      SetState(Zombie);
      ExitOrder(s, status, mid, woken, Values(nodes));
    }

    /** A blocked parent is woken. */
    method WakeParent(parentId: nat)
      requires Valid()
      modifies nodes`st
      ensures Valid()
      ensures var ring := old(Values(nodes));
              var p := if parentId > 0 then Lookup(ring, parentId) else None;
              Values(nodes) == if p.Some? then ring[p.value := Woken(ring[p.value])] else ring
    {
      hide LookupFrom;
      ghost var ring := Values(nodes);
      if parentId > 0 {
        var parent, p := Find(parentId);
        if parent != null {
          assert ring[p] == parent.Value();
          if parent.st == Blocked {
            parent.st := Runnable;
          }
        }
      }
    }

    /** scheduler_sleep, up to its wait */
    method SleepUntil(until: nat)
      requires Valid() && MayCall(Value())
      modifies current`st, current`wake, current`waitingFor
      ensures Valid() && Value() == Sleep(old(Value()), until)
    {
      assert Values(nodes)[place] == current.Value();
      current.wake := until;
      current.waitingFor := 0;
      current.st := Blocked;
    }

    /** The walk to the node in front of child. */
    method NodeBefore(child: TaskNode, from: TaskNode, ghost i: nat, ghost k: nat) returns (prev: TaskNode)
      requires Distinct(nodes) && Ring(nodes) && i < |nodes| && nodes[i] == child && k < |nodes| && nodes[k] == from
      requires if i == 0 then k == On(|nodes|, 0, 1) else k < i
      ensures prev == nodes[if i == 0 then |nodes| - 1 else i - 1]
    {
      prev := from;
      ghost var j: nat := k;
      while prev.next != child
        invariant j < |nodes| && prev == nodes[j] && (i > 0 ==> j < i)
        decreases |nodes| - j
      {
        prev := prev.next;
        j := j + 1;
      }
    }

    /** The links around a node that is taken out. */
    method Detach(child: TaskNode, ghost i: nat)
      requires Valid() && i < |nodes| && nodes[i] == child && |nodes| > 1
      modifies this`taskList, nodes`next
      ensures taskList == if i == 0 then nodes[1] else nodes[0]
      ensures PassedBy(nodes, i)
    {
      if child == taskList {
        taskList := child.next;
        var tail := NodeBefore(child, child.next, i, 1);
        tail.next := taskList;
      } else {
        var prev := NodeBefore(child, taskList, i, 0);
        prev.next := child.next;
      }
    }

    /** Takes a node out of the ring; the current task is another one, so that the ring stays. */
    method Unlink(child: TaskNode, ghost i: nat)
      requires Valid() && current != null && i < |nodes| && nodes[i] == child && i != place
      modifies this`taskList, this`nodes, this`place, nodes`next
      ensures Valid() && nodes == old(nodes)[..i] + old(nodes)[i + 1..]
      ensures place == if i < old(place) then old(place) - 1 else old(place)
      ensures Values(nodes) == Without(old(Values(nodes)), i)
    {
      ghost var was := Values(nodes);
      Detach(child, i);
      LinksLeft(nodes, i);
      LeftValues(nodes, was, i);
      nodes := nodes[..i] + nodes[i + 1..];
      place := if i < place then place - 1 else place;
    }

    /** The caller waits for a child. */
    method Block(pid: nat)
      requires Valid() && current != null
      modifies current`st, current`wake, current`waitingFor
      ensures Valid() && current != null
      ensures Value() == old(Value()).(ring := old(Value()).ring[
                place := old(current.Value()).(st := Blocked, wake := FOREVER, waitingFor := pid)])
    {
      current.st := Blocked;
      current.wake := FOREVER;
      current.waitingFor := pid;
    }

    /** sys_waitpid, up to its wait: the id that is looked for is the pid cast to 32 bits. */
    method WaitPid(pid: Word64, nohang: bool) returns (r: WaitResult)
      requires Valid() && MayCall(Value()) && NotOwnParent(Value()) && NoChildZero(Value())
      modifies this`taskList, this`nodes, this`place, nodes`next, current`st, current`wake, current`waitingFor
      ensures Valid() && (Value(), r) == Wait(old(Value()), WaitId(pid), nohang)
    {
      hide LookupFrom, Ring, Distinct;
      if pid == 0 {
        return Failed;
      }
      var id := AsInt(pid);
      if id < 0 { // no task has a negative id
        return Failed;
      }
      ghost var s, c := Value(), place;
      assert s.ring[c] == current.Value();
      var child, i := Find(id);
      assert child != null ==> s.ring[i] == child.Value();
      if child == null || child.parent != current.id {
        return Failed;
      }
      if child.st == Zombie {
        r := Collected(child.id, child.status);
        Unlink(child, i);
      } else if nohang {
        r := NotYet;
      } else {
        Block(id);
        r := Waiting;
      }
    }
  }

  /** (int)pid */
  function AsInt(pid: Word64): int {
    var low := pid % TWO_32;
    if low < 0x8000_0000 then low else low - TWO_32
  }

  /** The id that sys_waitpid looks for; 0 stands for none. */
  function WaitId(pid: Word64): nat {
    if AsInt(pid) > 0 then AsInt(pid) else 0
  }

  /** The ring that is left when the links pass node i by. */
  lemma LinksLeft(nodes: seq<TaskNode>, i: nat)
    requires Distinct(nodes) && i < |nodes| && |nodes| > 1 && PassedBy(nodes, i)
    ensures Distinct(nodes[..i] + nodes[i + 1..]) && Ring(nodes[..i] + nodes[i + 1..])
  {
    var n := |nodes|;
    var left := nodes[..i] + nodes[i + 1..];
    forall k: nat | k < n - 1 ensures left[k] == nodes[Before(i, k)] {
    }
    hide Before;
    forall k: nat | k < n - 1 ensures left[k].next == left[On(n - 1, k, 1)] {
      NextLeft(n, i, k);
    }
    forall j: nat, k: nat | j < k < n - 1 ensures left[j] != left[k] {
      BeforeGrows(i, j, k);
    }
  }

  lemma LeftValues(nodes: seq<TaskNode>, was: seq<Task>, i: nat)
    requires i < |nodes| && was == Values(nodes)
    ensures Values(nodes[..i] + nodes[i + 1..]) == Without(was, i)
  {
    var left := nodes[..i] + nodes[i + 1..];
    forall k: nat | k < |left| ensures Values(left)[k] == Without(was, i)[k] {
      assert left[k] == nodes[Before(i, k)];
      WithoutAt(was, i, k);
    }
  }

  lemma NextLeft(n: nat, i: nat, k: nat)
    requires n > 1 && i < n && k < n - 1
    ensures Before(i, k) < n
    ensures Before(i, On(n - 1, k, 1)) == On(n, LinkOf(n, i, Before(i, k)), 1)
  {
  }

  lemma BeforeGrows(i: nat, j: nat, k: nat)
    requires j < k
    ensures Before(i, j) < Before(i, k)
  {
  }

  /** The running task is not its own parent; the ids of every run see to that. */
  ghost predicate NotOwnParent(s: Sys) {
    s.cur.Some? && s.cur.value < |s.ring| ==> s.ring[s.cur.value].parent != s.ring[s.cur.value].id
  }

  lemma NeverOwnParent(s: Sys)
    requires Inv(s) && MayCall(s)
    ensures NotOwnParent(s)
  {
    assert Aged(s.ring[s.cur.value], s.nextId);
  }

  /** The idle task, number 0, is no child of the running task. */
  ghost predicate NoChildZero(s: Sys) {
    var i := Lookup(s.ring, 0);
    s.cur.Some? && s.cur.value < |s.ring| && i.Some? ==> s.ring[i.value].parent != s.ring[s.cur.value].id
  }

  lemma NeverChildZero(s: Sys)
    requires Inv(s) && MayCall(s)
    ensures NoChildZero(s)
  {
    hide LookupFrom;
    var i := Lookup(s.ring, 0);
    assert Aged(s.ring[s.cur.value], s.nextId);
    if i.Some? {
      assert Aged(s.ring[i.value], s.nextId);
    }
  }

  /** A pid beyond 32 bits is taken for its low half: 2^32 + 1 waits for task 1. */
  lemma PidCut()
    ensures WaitId(0x1_0000_0001) == 1
    ensures forall pid: Word64 :: pid < 0x8000_0000 ==> WaitId(pid) == pid
  {
  }

  /** Storing the status before the parent is woken or after makes no difference. */
  lemma ExitOrder(s: Sys, status: int, mid: seq<Task>, woken: seq<Task>, last: seq<Task>)
    requires MayCall(s)
    requires var c := s.cur.value;
             var p := if s.ring[c].parent > 0 then Lookup(s.ring, s.ring[c].parent) else None;
             && mid == s.ring[c := s.ring[c].(status := status)]
             && woken == (if p.Some? then mid[p.value := Woken(mid[p.value])] else mid)
             && last == woken[c := woken[c].(st := Zombie)]
    ensures last == Exit(s, status).ring && Exit(s, status).cur == s.cur && Exit(s, status).nextId == s.nextId
  {
    hide Lookup;
  }

  /** Finding a task looks at ids only. */
  lemma {:induction false} SameIdsFrom(a: seq<Task>, b: seq<Task>, id: nat, k: nat)
    requires |a| == |b| && k <= |a| && forall i :: 0 <= i < |a| ==> a[i].id == b[i].id
    ensures LookupFrom(a, id, k) == LookupFrom(b, id, k)
    decreases |a| - k
  {
    if k < |a| {
      SameIdsFrom(a, b, id, k + 1);
    }
  }

  lemma SameIds(a: seq<Task>, b: seq<Task>, id: nat)
    requires |a| == |b| && forall i :: 0 <= i < |a| ==> a[i].id == b[i].id
    ensures Lookup(a, id) == Lookup(b, id)
  {
    SameIdsFrom(a, b, id, 0);
  }
}
