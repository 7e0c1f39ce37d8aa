/** The process protocol on values: tick, spawn, fork, exit, waitpid and sleep as steps on a ring of
    tasks (src/kernel/sched/scheduler.c, src/arch/x86_64/syscall/proc.c). Each step is atomic, since
    system calls and the timer come in through interrupt gates. */
module Protocol {
  import opened Wrappers

  datatype TaskState = Runnable | Running | Blocked | Zombie

  /** The saved registers: the one that carries results, and the others. */
  datatype Regs = Regs(rax: int, others: seq<nat>)

  /** A task; waitingFor is the child that its last blocking waitpid named, 0 for a sleep. */
  datatype Task = Task(id: nat, st: TaskState, regs: Regs, wake: nat, parent: nat, status: int, user: bool,
      waitingFor: nat)

  const FOREVER: nat := 0xFFFF_FFFF_FFFF_FFFF

  /** The ring from its head on, and the place of the current task in it. */
  datatype Sys = Sys(ring: seq<Task>, cur: Option<nat>, nextId: nat)

  // ----- places in the ring -----

  /** k steps on from place c. */
  function On(n: nat, c: nat, k: nat): (i: nat)
    requires c < n && k <= n
    ensures i < n
  {
    if c + k < n then c + k else c + k - n
  }

  /** The steps from place c to place i. */
  function Distance(n: nat, c: nat, i: nat): (d: nat)
    requires c < n && i < n
    ensures d < n && On(n, c, d) == i
  {
    if i >= c then i - c else i + n - c
  }

  /** find_task_by_id */
  function Lookup(ring: seq<Task>, id: nat): (r: Option<nat>)
    ensures r.Some? ==> r.value < |ring| && ring[r.value].id == id && forall i :: 0 <= i < r.value ==> ring[i].id != id
    ensures r.None? ==> forall i :: 0 <= i < |ring| ==> ring[i].id != id
  {
    LookupFrom(ring, id, 0)
  }

  function LookupFrom(ring: seq<Task>, id: nat, k: nat): (r: Option<nat>)
    requires k <= |ring|
    ensures r.Some? ==> k <= r.value < |ring| && ring[r.value].id == id && forall i :: k <= i < r.value ==>
        ring[i].id != id
    ensures r.None? ==> forall i :: k <= i < |ring| ==> ring[i].id != id
    decreases |ring| - k
  {
    if k == |ring| then None else if ring[k].id == id then Some(k) else LookupFrom(ring, id, k + 1)
  }

  // ----- tick -----

  /** sweep_wakeup */
  function Awake(t: Task, ticks: nat): Task {
    if t.st == Blocked && t.wake <= ticks then t.(st := Runnable) else t
  }

  function Swept(ring: seq<Task>, ticks: nat): (r: seq<Task>)
    ensures |r| == |ring| && forall i :: 0 <= i < |r| ==> r[i] == Awake(ring[i], ticks)
  {
    seq(|ring|, i requires 0 <= i < |ring| => Awake(ring[i], ticks))
  }

  /** The current task gives the processor up: its registers are saved. */
  function Yielded(t: Task, regs: Regs): Task {
    t.(regs := regs, st := if t.st == Running then Runnable else t.st)
  }

  /** The steps to the next runnable task, the current one last; None if there is none. */
  function NextRunnable(ring: seq<Task>, c: nat, k: nat): (r: Option<nat>)
    requires c < |ring| && 1 <= k <= |ring| + 1
    ensures r.Some? ==> k <= r.value <= |ring| && ring[On(|ring|, c, r.value)].st == Runnable
    ensures forall j: nat :: k <= j <= |ring| && (r.None? || j < r.value) ==> ring[On(|ring|, c, j)].st != Runnable
    decreases |ring| - k
  {
    if k == |ring| + 1 then None
    else if ring[On(|ring|, c, k)].st == Runnable then Some(k)
    else NextRunnable(ring, c, k + 1)
  }

  /** The ring once the current task has yielded. */
  function Ready(s: Sys, ticks: nat, regs: Regs): (r: seq<Task>)
    requires s.cur.Some? && s.cur.value < |s.ring|
    ensures |r| == |s.ring|
  {
    var ring := Swept(s.ring, ticks);
    ring[s.cur.value := Yielded(ring[s.cur.value], regs)]
  }

  /** schedule_tick: the new state, and the registers that the processor continues with. */
  function Tick(s: Sys, ticks: nat, regs: Regs): (Sys, Regs)
    requires s.cur.Some? ==> s.cur.value < |s.ring|
  {
    if s.ring == [] then (s, regs)
    else if s.cur.None? then
      (Sys(Swept(s.ring, ticks) + [Task(0, Running, regs, 0, 0, 0, false, 0)], Some(|s.ring|), s.nextId), regs)
    else
      var c := s.cur.value;
      var ring := Ready(s, ticks, regs);
      var k := NextRunnable(ring, c, 1);
      if k.None? then (s.(ring := ring[c := ring[c].(st := Running)]), regs)
      else
        var i := On(|ring|, c, k.value);
        (s.(ring := ring[i := ring[i].(st := Running)], cur := Some(i)), ring[i].regs)
  }

  // ----- system calls -----

  /** create_elf_task_args: a new task without a parent. */
  function Spawn(s: Sys, regs: Regs): Sys {
    Sys(s.ring + [Task(s.nextId, Runnable, regs, 0, 0, 0, true, 0)], s.cur, s.nextId + 1)
  }

  predicate MayCall(s: Sys) {
    s.cur.Some? && s.cur.value < |s.ring| && s.ring[s.cur.value].st == Running && s.ring[s.cur.value].user
  }

  /** fork_current_task and sys_fork: the child has the caller's registers, with 0 as result. */
  function Fork(s: Sys, regs: Regs): Sys
    requires MayCall(s)
  {
    var me := s.ring[s.cur.value];
    Sys(s.ring + [Task(s.nextId, Runnable, regs.(rax := 0), 0, me.id, 0, true, 0)], s.cur, s.nextId + 1)
  }

  function Woken(t: Task): Task {
    if t.st == Blocked then t.(st := Runnable) else t
  }

  /** sys_exit: a blocked parent is woken, and the caller becomes a zombie with its status. */
  function Exit(s: Sys, status: int): (r: Sys)
    requires MayCall(s)
    ensures |r.ring| == |s.ring|
  {
    var c := s.cur.value;
    var p := if s.ring[c].parent > 0 then Lookup(s.ring, s.ring[c].parent) else None;
    var ring := if p.Some? then s.ring[p.value := Woken(s.ring[p.value])] else s.ring;
    s.(ring := ring[c := ring[c].(st := Zombie, status := status)])
  }

  datatype WaitResult = Failed | NotYet | Collected(id: nat, status: int) | Waiting

  function Without(ring: seq<Task>, i: nat): (r: seq<Task>)
    requires i < |ring|
    ensures |r| == |ring| - 1
  {
    ring[..i] + ring[i + 1..]
  }

  /** sys_waitpid: a zombie child is taken out of the ring; otherwise the caller blocks, or not. */
  function Wait(s: Sys, pid: nat, nohang: bool): (Sys, WaitResult)
    requires MayCall(s)
  {
    var c := s.cur.value;
    var i := if pid == 0 then None else Lookup(s.ring, pid);
    if i.None? || s.ring[i.value].parent != s.ring[c].id then (s, Failed)
    else if s.ring[i.value].st == Zombie then
      (s.(ring := Without(s.ring, i.value), cur := Some(if i.value < c then c - 1 else c)),
       Collected(s.ring[i.value].id, s.ring[i.value].status))
    else if nohang then (s, NotYet)
    else (s.(ring := s.ring[c := s.ring[c].(st := Blocked, wake := FOREVER, waitingFor := pid)]), Waiting)
  }

  /** scheduler_sleep */
  function Sleep(s: Sys, until: nat): (r: Sys)
    requires MayCall(s)
    ensures |r.ring| == |s.ring|
  {
    var c := s.cur.value;
    s.(ring := s.ring[c := s.ring[c].(st := Blocked, wake := until, waitingFor := 0)])
  }

  // ----- steps and what holds in every state -----

  datatype Step = DoTick(ticks: nat, regs: Regs) | DoSpawn(regs: Regs) | DoFork(regs: Regs) | DoExit(status: int)
                | DoWait(pid: nat, nohang: bool) | DoSleep(until: nat)

  predicate Enabled(s: Sys, e: Step) {
    e.DoTick? || e.DoSpawn? || MayCall(s)
  }

  function Next(s: Sys, e: Step): Sys
    requires Enabled(s, e) && (s.cur.Some? ==> s.cur.value < |s.ring|)
  {
    match e
    case DoTick(ticks, regs) => Tick(s, ticks, regs).0
    case DoSpawn(regs) => Spawn(s, regs)
    case DoFork(regs) => Fork(s, regs)
    case DoExit(status) => Exit(s, status)
    case DoWait(pid, nohang) => Wait(s, pid, nohang).0
    case DoSleep(until) => Sleep(s, until)
  }

  /** Ids are distinct and given out in order; a parent is older than its children. */
  predicate Ids(s: Sys) {
    && s.nextId >= 1
    && (forall i, j :: 0 <= i < j < |s.ring| ==> s.ring[i].id != s.ring[j].id)
    && (forall i :: 0 <= i < |s.ring| ==> Aged(s.ring[i], s.nextId))
  }

  predicate Aged(t: Task, nextId: nat) {
    t.id < nextId && (t.user <==> t.id > 0) && (t.parent < t.id || t.parent == 0)
  }

  /** Only the current task may be running; the idle task, number 0, is running or runnable. */
  predicate Turns(s: Sys) {
    if s.cur.None? then forall i :: 0 <= i < |s.ring| ==> s.ring[i].st == Runnable && s.ring[i].user
    else
      && s.cur.value < |s.ring|
      && (forall i :: 0 <= i < |s.ring| && i != s.cur.value ==> s.ring[i].st != Running)
      && (forall i :: 0 <= i < |s.ring| && s.ring[i].id == 0 ==> s.ring[i].st == Runnable || s.ring[i].st == Running)
      && exists i :: 0 <= i < |s.ring| && s.ring[i].id == 0
  }

  /** No lost wakeup: the child that a blocked task waits for is in the ring, and not a zombie. */
  predicate Served(s: Sys) {
    forall i :: 0 <= i < |s.ring| && s.ring[i].st == Blocked && s.ring[i].waitingFor != 0 ==> HasChild(s.ring,
        s.ring[i])
  }

  predicate HasChild(ring: seq<Task>, t: Task) {
    exists j :: 0 <= j < |ring| && Serves(ring[j], t)
  }

  predicate Serves(child: Task, t: Task) {
    child.id == t.waitingFor && child.parent == t.id && child.st != Zombie
  }

  predicate Inv(s: Sys) {
    Ids(s) && Turns(s) && Served(s)
  }
}
