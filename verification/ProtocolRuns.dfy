/** What every run of the process protocol keeps. */
module ProtocolRuns {
  import opened Wrappers
  import opened Protocol

  lemma InvParts(s: Sys)
    requires Inv(s)
    ensures Turns(s) && Ids(s) && Served(s)
  {
  }

  // ----- steps that leave the ring in place -----

  /** What such a step leaves of a task: a zombie stays one, and nobody blocks. */
  predicate SameTask(a: Task, b: Task) {
    && a.id == b.id && a.parent == b.parent && a.user == b.user && a.waitingFor == b.waitingFor
    && (a.st == Zombie <==> b.st == Zombie) && (a.st == Zombie ==> a.status == b.status)
    && (b.st == Blocked ==> a.st == Blocked)
  }

  predicate SameTasks(a: seq<Task>, b: seq<Task>) {
    |a| == |b| && forall i :: 0 <= i < |a| ==> SameTask(a[i], b[i])
  }

  lemma SameServed(s: Sys, r: Sys)
    requires Served(s) && Ids(s) && SameTasks(s.ring, r.ring) && r.nextId == s.nextId
    ensures Served(r) && Ids(r)
  {
    forall i | 0 <= i < |r.ring| && r.ring[i].st == Blocked && r.ring[i].waitingFor != 0
      ensures HasChild(r.ring, r.ring[i])
    {
      assert SameTask(s.ring[i], r.ring[i]);
      assert HasChild(s.ring, s.ring[i]);
      var j :| 0 <= j < |s.ring| && Serves(s.ring[j], s.ring[i]);
      assert SameTask(s.ring[j], r.ring[j]);
      assert Serves(r.ring[j], r.ring[i]);
    }
    forall i | 0 <= i < |r.ring| ensures Aged(r.ring[i], r.nextId) && r.ring[i].id == s.ring[i].id {
      assert SameTask(s.ring[i], r.ring[i]) && Aged(s.ring[i], s.nextId);
    }
  }

  // ----- tick -----

  lemma ReadyTask(s: Sys, ticks: nat, regs: Regs, i: nat)
    requires Turns(s) && s.cur.Some? && i < |s.ring|
    ensures var t := Ready(s, ticks, regs)[i];
            && SameTask(s.ring[i], t) && t.st != Running
            && (s.ring[i].st == Runnable || s.ring[i].st == Running ==> t.st == Runnable)
            && t.regs == if i == s.cur.value then regs else s.ring[i].regs
  {
  }

  lemma FindsAny(ring: seq<Task>, c: nat, i: nat)
    requires c < |ring| && i < |ring| && ring[i].st == Runnable
    ensures var d := Distance(|ring|, c, i);
            var k := NextRunnable(ring, c, 1);
            k.Some? && k.value <= if d == 0 then |ring| else d
  {
    var d := Distance(|ring|, c, i);
    assert On(|ring|, c, if d == 0 then |ring| else d) == i;
  }

  /** A tick, task by task: the chosen one runs, and every other one has yielded or was swept. */
  predicate Ticked(s: Sys, r: Sys, ready: seq<Task>) {
    && |ready| == |s.ring| == |r.ring| && r.nextId == s.nextId
    && r.cur.Some? && r.cur.value < |r.ring| && ready[r.cur.value].st == Runnable
    && r.ring == ready[r.cur.value := ready[r.cur.value].(st := Running)]
  }

  /** The idle task is there, so that a tick finds a runnable task. */
  lemma TickIs(s: Sys, ticks: nat, regs: Regs)
    requires Inv(s) && s.cur.Some?
    ensures Ticked(s, Tick(s, ticks, regs).0, Ready(s, ticks, regs))
    ensures var r := Tick(s, ticks, regs); r.1 == Ready(s, ticks, regs)[r.0.cur.value].regs
  {
    hide Ready, NextRunnable;
    var m :| 0 <= m < |s.ring| && s.ring[m].id == 0;
    ReadyTask(s, ticks, regs, m);
    FindsAny(Ready(s, ticks, regs), s.cur.value, m);
  }

  lemma TickedTask(s: Sys, r: Sys, ticks: nat, regs: Regs, i: nat)
    requires Turns(s) && s.cur.Some? && Ticked(s, r, Ready(s, ticks, regs)) && i < |s.ring|
    ensures SameTask(s.ring[i], r.ring[i]) && (r.ring[i].st == Running <==> i == r.cur.value)
    ensures s.ring[i].st == Runnable || s.ring[i].st == Running ==> r.ring[i].st == Runnable || r.ring[i].st == Running
  {
    hide Ready;
    ReadyTask(s, ticks, regs, i);
  }

  lemma TickedTurns(s: Sys, r: Sys, ticks: nat, regs: Regs)
    requires Turns(s) && s.cur.Some? && Ticked(s, r, Ready(s, ticks, regs))
    ensures Turns(r) && SameTasks(s.ring, r.ring)
  {
    hide Ready;
    forall i: nat | i < |s.ring|
      ensures SameTask(s.ring[i], r.ring[i]) && (r.ring[i].st == Running <==> i == r.cur.value)
      ensures s.ring[i].st == Runnable || s.ring[i].st == Running ==>
              r.ring[i].st == Runnable || r.ring[i].st == Running
    {
      TickedTask(s, r, ticks, regs, i);
    }
    var m :| 0 <= m < |s.ring| && s.ring[m].id == 0;
    assert SameTask(s.ring[m], r.ring[m]);
  }

  lemma TickKeeps(s: Sys, ticks: nat, regs: Regs)
    requires Inv(s)
    ensures Inv(Tick(s, ticks, regs).0)
    ensures s.cur.Some? ==> SameTasks(s.ring, Tick(s, ticks, regs).0.ring)
  {
    var r := Tick(s, ticks, regs).0;
    if s.cur.Some? {
      TickIs(s, ticks, regs);
      hide Tick, Ready, SameTasks, Ids, Served;
      TickedTurns(s, r, ticks, regs);
      SameServed(s, r);
    } else if s.ring != [] {
      FirstTick(s, ticks, regs);
    }
  }

  lemma FirstTick(s: Sys, ticks: nat, regs: Regs)
    requires Inv(s) && s.cur.None? && s.ring != []
    ensures Inv(Tick(s, ticks, regs).0)
  {
    var r := Tick(s, ticks, regs).0;
    forall i | 0 <= i < |s.ring| ensures r.ring[i] == s.ring[i] && Aged(r.ring[i], r.nextId) && r.ring[i].id > 0 {
      assert Aged(s.ring[i], s.nextId);
    }
    assert r.ring[|s.ring|].id == 0;
  }

  // ----- steps that append -----

  lemma AppendKeeps(s: Sys, t: Task)
    requires Inv(s) && t.st == Runnable && t.id == s.nextId && Aged(t, s.nextId + 1)
    ensures Inv(Sys(s.ring + [t], s.cur, s.nextId + 1))
  {
    var r := Sys(s.ring + [t], s.cur, s.nextId + 1);
    forall i | 0 <= i < |s.ring| ensures r.ring[i] == s.ring[i] && Aged(s.ring[i], s.nextId) {
    }
    forall i | 0 <= i < |r.ring| && r.ring[i].st == Blocked && r.ring[i].waitingFor != 0
      ensures HasChild(r.ring, r.ring[i])
    {
      assert HasChild(s.ring, s.ring[i]);
      var j :| 0 <= j < |s.ring| && Serves(s.ring[j], s.ring[i]);
      assert Serves(r.ring[j], r.ring[i]);
    }
    if s.cur.Some? {
      var m :| 0 <= m < |s.ring| && s.ring[m].id == 0;
      assert r.ring[m].id == 0;
    }
  }

  // ----- exit -----

  /** Exit, task by task. */
  lemma ExitTask(s: Sys, status: int, i: nat)
    requires Inv(s) && MayCall(s) && i < |s.ring|
    ensures var c := s.cur.value;
            var t := Exit(s, status).ring[i];
            if i == c then t == s.ring[c].(st := Zombie, status := status)
            else t == s.ring[i] || (t == Woken(s.ring[i]) && s.ring[c].parent > 0 && s.ring[i].id == s.ring[c].parent)
    ensures var c := s.cur.value;
            i != c && s.ring[c].parent > 0 && s.ring[i].id == s.ring[c].parent ==>
                Exit(s, status).ring[i] == Woken(s.ring[i])
  {
  }

  lemma ExitKeeps(s: Sys, status: int)
    requires Inv(s) && MayCall(s)
    ensures Inv(Exit(s, status))
  {
    var r, c := Exit(s, status), s.cur.value;
    forall i: nat | i < |s.ring|
      ensures r.ring[i].id == s.ring[i].id && r.ring[i].parent == s.ring[i].parent
      ensures r.ring[i].waitingFor == s.ring[i].waitingFor
      ensures Aged(r.ring[i], r.nextId) && (i != c ==> r.ring[i].st != Running)
      ensures r.ring[i].id == 0 ==> r.ring[i].st == Runnable || r.ring[i].st == Running
      ensures r.ring[i].st == Blocked && r.ring[i].waitingFor != 0 ==> HasChild(r.ring, r.ring[i])
    {
      ExitTask(s, status, i);
      assert Aged(s.ring[i], s.nextId) && Aged(s.ring[c], s.nextId);
      if r.ring[i].st == Blocked && r.ring[i].waitingFor != 0 {
        assert HasChild(s.ring, s.ring[i]);
        var j :| 0 <= j < |s.ring| && Serves(s.ring[j], s.ring[i]);
        ExitTask(s, status, j);
        assert Serves(r.ring[j], r.ring[i]);
      }
    }
    hide Exit;
    var m :| 0 <= m < |s.ring| && s.ring[m].id == 0;
    assert r.ring[m].id == 0;
  }

  // ----- waitpid and sleep -----

  /** The place that place k of the shorter ring had before, and the other way round. */
  function Before(i: nat, k: nat): nat {
    if k < i then k else k + 1
  }

  function Behind(i: nat, j: nat): nat
    requires j != i
  {
    if j < i then j else j - 1
  }

  lemma WithoutAt(ring: seq<Task>, i: nat, k: nat)
    requires i < |ring|
    ensures k < |ring| - 1 ==> Without(ring, i)[k] == ring[Before(i, k)]
    ensures k < |ring| && k != i ==> Behind(i, k) < |ring| - 1 && Without(ring, i)[Behind(i, k)] == ring[k]
  {
  }

  lemma CollectServed(s: Sys, r: Sys, i: nat)
    requires Served(s) && i < |s.ring| && s.ring[i].st == Zombie && r.ring == Without(s.ring, i)
    ensures Served(r)
  {
    hide Without;
    forall k: nat | k < |r.ring| && r.ring[k].st == Blocked && r.ring[k].waitingFor != 0
        ensures HasChild(r.ring, r.ring[k]) {
      WithoutAt(s.ring, i, k);
      assert HasChild(s.ring, s.ring[Before(i, k)]);
      var j :| 0 <= j < |s.ring| && Serves(s.ring[j], r.ring[k]);
      WithoutAt(s.ring, i, j);
      assert Serves(r.ring[Behind(i, j)], r.ring[k]);
    }
  }

  lemma CollectIds(s: Sys, r: Sys, i: nat)
    requires Ids(s) && i < |s.ring| && r.ring == Without(s.ring, i) && r.nextId == s.nextId
    ensures Ids(r)
  {
    hide Without, Aged;
    forall k: nat | k < |r.ring| ensures r.ring[k] == s.ring[Before(i, k)] {
      WithoutAt(s.ring, i, k);
    }
  }

  lemma CollectTurns(s: Sys, r: Sys, i: nat)
    requires Turns(s) && s.cur.Some? && i < |s.ring| && s.ring[i].st == Zombie && i != s.cur.value
    requires r.ring == Without(s.ring, i) && r.cur == Some(Behind(i, s.cur.value))
    ensures Turns(r)
  {
    hide Without;
    forall k: nat | k < |r.ring| ensures r.ring[k] == s.ring[Before(i, k)] {
      WithoutAt(s.ring, i, k);
    }
    var m :| 0 <= m < |s.ring| && s.ring[m].id == 0;
    WithoutAt(s.ring, i, m);
    WithoutAt(s.ring, i, s.cur.value);
    assert r.ring[Behind(i, m)].id == 0;
  }

  lemma CollectKeeps(s: Sys, i: nat)
    requires Inv(s) && MayCall(s) && i < |s.ring| && s.ring[i].st == Zombie
    ensures Inv(s.(ring := Without(s.ring, i), cur := Some(if i < s.cur.value then s.cur.value - 1 else s.cur.value)))
  {
    hide Without, Ids, Turns, Served;
    var c := s.cur.value;
    var r := s.(ring := Without(s.ring, i), cur := Some(if i < c then c - 1 else c));
    CollectServed(s, r, i);
    CollectIds(s, r, i);
    CollectTurns(s, r, i);
  }

  /** The caller blocks, for a child that is there and alive, or to sleep. */
  lemma BlockKeeps(s: Sys, wake: nat, pid: nat, i: nat)
    requires Inv(s) && MayCall(s) && i < |s.ring|
    requires pid != 0 ==> s.ring[i].id == pid && s.ring[i].parent == s.ring[s.cur.value].id && s.ring[i].st != Zombie
    ensures Inv(s.(ring := s.ring[s.cur.value := s.ring[s.cur.value].(st := Blocked, wake := wake, waitingFor := pid)]))
  {
    var c := s.cur.value;
    var r := s.(ring := s.ring[c := s.ring[c].(st := Blocked, wake := wake, waitingFor := pid)]);
    forall k: nat | k < |s.ring|
      ensures r.ring[k].id == s.ring[k].id && Aged(r.ring[k], r.nextId)
    {
      assert Aged(s.ring[k], s.nextId);
    }
    forall k: nat | k < |s.ring| && r.ring[k].st == Blocked && r.ring[k].waitingFor != 0
        ensures HasChild(r.ring, r.ring[k]) {
      if k == c {
        assert Aged(s.ring[i], s.nextId);
        assert Serves(r.ring[i], r.ring[k]);
      } else {
        assert HasChild(s.ring, s.ring[k]);
        var j :| 0 <= j < |s.ring| && Serves(s.ring[j], s.ring[k]);
        assert Serves(r.ring[j], r.ring[k]);
      }
    }
    var m :| 0 <= m < |s.ring| && s.ring[m].id == 0;
    assert r.ring[m].id == 0;
  }

  lemma WaitKeeps(s: Sys, pid: nat, nohang: bool)
    requires Inv(s) && MayCall(s)
    ensures Inv(Wait(s, pid, nohang).0)
  {
    hide Inv;
    var i := if pid == 0 then None else Lookup(s.ring, pid);
    InvParts(s);
    if i.Some? && s.ring[i.value].parent == s.ring[s.cur.value].id {
      if s.ring[i.value].st == Zombie {
        CollectKeeps(s, i.value);
      } else if !nohang {
        BlockKeeps(s, FOREVER, pid, i.value);
      }
    }
  }

  // ----- every step, every run -----

  lemma StepKeeps(s: Sys, e: Step)
    requires Inv(s) && Enabled(s, e)
    ensures Inv(Next(s, e))
  {
    hide Tick, Exit, Wait, Served, Ids;
    InvParts(s);
    match e
    case DoTick(ticks, regs) => TickKeeps(s, ticks, regs);
    case DoSpawn(regs) => SpawnKeeps(s, regs);
    case DoFork(regs) => ForkKeeps(s, regs);
    case DoExit(status) => ExitKeeps(s, status);
    case DoWait(pid, nohang) => WaitKeeps(s, pid, nohang);
    case DoSleep(until) => BlockKeeps(s, until, 0, 0);
  }

  lemma SpawnKeeps(s: Sys, regs: Regs)
    requires Inv(s)
    ensures Inv(Spawn(s, regs))
  {
    AppendKeeps(s, Task(s.nextId, Runnable, regs, 0, 0, 0, true, 0));
  }

  lemma ForkKeeps(s: Sys, regs: Regs)
    requires Inv(s) && MayCall(s)
    ensures Inv(Fork(s, regs))
  {
    assert Aged(s.ring[s.cur.value], s.nextId);
    AppendKeeps(s, Task(s.nextId, Runnable, regs.(rax := 0), 0, s.ring[s.cur.value].id, 0, true, 0));
  }

  /** A run: states and the steps between them. */
  predicate IsRun(states: seq<Sys>, steps: seq<Step>) {
    && |states| == |steps| + 1
    && forall k :: 0 <= k < |steps| ==> StepAt(states, steps, k)
  }

  predicate StepAt(states: seq<Sys>, steps: seq<Step>, k: nat)
    requires |states| == |steps| + 1 && k < |steps|
  {
    && Enabled(states[k], steps[k]) && (states[k].cur.Some? ==> states[k].cur.value < |states[k].ring|)
    && states[k + 1] == Next(states[k], steps[k])
  }

  /** In every state of every run from an empty ring the invariant holds: ids are distinct, only the
      current task runs, the idle task can always run, and no task waits for a child that is gone. */
  lemma {:induction false} RunKeeps(states: seq<Sys>, steps: seq<Step>, k: nat)
    requires IsRun(states, steps) && k <= |steps| && states[0] == Sys([], None, 1)
    ensures Inv(states[k])
  {
    hide Inv, Next;
    if k == 0 {
      StartHolds();
    } else {
      RunKeeps(states, steps, k - 1);
      assert StepAt(states, steps, k - 1);
      StepKeeps(states[k - 1], steps[k - 1]);
    }
  }

  lemma StartHolds()
    ensures Inv(Sys([], None, 1))
  {
  }
}
