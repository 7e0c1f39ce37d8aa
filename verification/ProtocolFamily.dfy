/** Parents and children over whole runs: who is whose child, who collects it, what waitpid answers, and
    how long a sleep lasts (src/kernel/sched/scheduler.c:244-330, src/arch/x86_64/syscall/proc.c:37-107). */
module ProtocolFamily {
  import opened Wrappers
  import opened Protocol
  import opened ProtocolRuns
  import opened ProtocolSafety

  // ----- parents -----

  /** The task with this id, while it is in the ring, has this parent; the id is given out. */
  predicate Parented(s: Sys, id: nat, parent: nat) {
    id < s.nextId && forall i :: 0 <= i < |s.ring| && s.ring[i].id == id ==> s.ring[i].parent == parent
  }

  lemma StepParented(s: Sys, e: Step, id: nat, parent: nat)
    requires Inv(s) && Enabled(s, e) && Parented(s, id, parent) && id > 0
    ensures Parented(Next(s, e), id, parent)
  {
    var r := Next(s, e);
    hide Next, Inv;
    forall k: nat | k < |r.ring| && r.ring[k].id == id
      ensures r.ring[k].parent == parent
    {
      StepDescends(s, e, k);
      var i :| 0 <= i < |s.ring| && From(s.ring[i], r.ring[k]);
    }
    StepNextId(s, e);
  }

  lemma {:induction false} StaysParented(states: seq<Sys>, steps: seq<Step>, a: nat, b: nat, id: nat, parent: nat)
    requires IsRun(states, steps) && states[0] == Sys([], None, 1) && a <= b <= |steps|
    requires Parented(states[a], id, parent) && id > 0
    ensures Parented(states[b], id, parent)
    decreases b
  {
    hide Next, Inv, Parented;
    if a < b {
      StaysParented(states, steps, a, b - 1, id, parent);
      RunKeeps(states, steps, b - 1);
      assert StepAt(states, steps, b - 1);
      StepParented(states[b - 1], steps[b - 1], id, parent);
    }
  }

  /** The task that joined last in this step is new, runnable, and has this parent. */
  predicate Joined(s: Sys, r: Sys, parent: nat) {
    && |r.ring| == |s.ring| + 1 && r.ring[..|s.ring|] == s.ring
    && (forall i :: 0 <= i < |s.ring| ==> s.ring[i].id != s.nextId)
    && r.ring[|s.ring|].id == s.nextId && r.ring[|s.ring|].parent == parent && r.ring[|s.ring|].st == Runnable
    && r.nextId == s.nextId + 1 && r.cur == s.cur
  }

  lemma JoinedParented(s: Sys, r: Sys, parent: nat)
    requires Joined(s, r, parent)
    ensures Parented(r, s.nextId, parent)
  {
    forall i | 0 <= i < |s.ring| ensures r.ring[i] == s.ring[i] {
    }
  }

  lemma StepJoins(s: Sys, e: Step)
    requires Inv(s) && Enabled(s, e)
    ensures e.DoFork? ==> Joined(s, Next(s, e), Caller(s)) && Caller(s) > 0
    ensures e.DoSpawn? ==> Joined(s, Next(s, e), 0)
  {
    forall i | 0 <= i < |s.ring| ensures s.ring[i].id != s.nextId {
      assert Aged(s.ring[i], s.nextId);
    }
    if e.DoFork? {
      assert Aged(s.ring[s.cur.value], s.nextId);
    }
  }

  /** A task that joins at a fork is the caller's child, and in every later state of the run it still
      is, as long as it is in the ring. */
  lemma ForkedChild(states: seq<Sys>, steps: seq<Step>, a: nat, b: nat)
    requires IsRun(states, steps) && states[0] == Sys([], None, 1) && a < b <= |steps| && steps[a].DoFork?
    ensures Joined(states[a], states[a + 1], Caller(states[a])) && Caller(states[a]) > 0
    ensures Parented(states[b], states[a].nextId, Caller(states[a]))
  {
    hide Next, Inv, Joined, Parented;
    RunKeeps(states, steps, a);
    assert StepAt(states, steps, a);
    StepJoins(states[a], steps[a]);
    JoinedParented(states[a], states[a + 1], Caller(states[a]));
    NextIdPositive(states[a]);
    StaysParented(states, steps, a + 1, b, states[a].nextId, Caller(states[a]));
  }

  lemma NextIdPositive(s: Sys)
    requires Inv(s)
    ensures s.nextId > 0
  {
  }

  // ----- collection -----

  /** Whoever collects a task is its parent. */
  lemma CollectsChild(s: Sys, e: Step, id: nat, status: int, parent: nat)
    requires Inv(s) && Collects(s, e, id, status) && Parented(s, id, parent)
    ensures Caller(s) == parent && Caller(s) > 0
  {
    hide Without, LookupFrom;
    assert Aged(s.ring[s.cur.value], s.nextId);
  }

  /** Only the task that forked it ever collects a child. */
  lemma CollectedByParent(states: seq<Sys>, steps: seq<Step>, a: nat, b: nat, status: int)
    requires IsRun(states, steps) && states[0] == Sys([], None, 1) && a < b < |steps| && steps[a].DoFork?
    requires Collects(states[b], steps[b], states[a].nextId, status)
    ensures Caller(states[b]) == Caller(states[a])
  {
    hide Next, Inv, Collects, Parented;
    ForkedChild(states, steps, a, b);
    RunKeeps(states, steps, b);
    CollectsChild(states[b], steps[b], states[a].nextId, status, Caller(states[a]));
  }

  /** A task that was spawned has no parent, and nobody ever collects it. */
  lemma SpawnedNeverCollected(states: seq<Sys>, steps: seq<Step>, a: nat, b: nat, status: int)
    requires IsRun(states, steps) && states[0] == Sys([], None, 1) && a < b < |steps| && steps[a].DoSpawn?
    ensures Joined(states[a], states[a + 1], 0)
    ensures !Collects(states[b], steps[b], states[a].nextId, status)
  {
    hide Next, Inv, Collects, Parented, Joined;
    RunKeeps(states, steps, a);
    assert StepAt(states, steps, a);
    StepJoins(states[a], steps[a]);
    JoinedParented(states[a], states[a + 1], 0);
    NextIdPositive(states[a]);
    StaysParented(states, steps, a + 1, b, states[a].nextId, 0);
    RunKeeps(states, steps, b);
    if Collects(states[b], steps[b], states[a].nextId, status) {
      CollectsChild(states[b], steps[b], states[a].nextId, status, 0);
    }
  }

  // ----- what waitpid answers -----

  /** Place i of the ring holds the caller's child with this id. */
  predicate IsChild(s: Sys, pid: nat, i: nat) {
    i < |s.ring| && s.ring[i].id == pid && s.ring[i].parent == Caller(s)
  }

  /** Nothing changed but the caller, who waits for this child until it exits. */
  predicate WaitsFor(s: Sys, r: Sys, pid: nat) {
    && r.cur == s.cur && r.nextId == s.nextId && |r.ring| == |s.ring|
    && forall i :: 0 <= i < |s.ring| ==>
         if s.ring[i].id == Caller(s) then
           r.ring[i] == s.ring[i].(st := Blocked, wake := 0xFFFF_FFFF_FFFF_FFFF, waitingFor := pid)
         else r.ring[i] == s.ring[i]
  }

  /** Task i left the ring; the others are as they were, in their order, and the caller runs on. */
  predicate Left(s: Sys, r: Sys, i: nat)
    requires i < |s.ring|
  {
    r.ring == s.ring[..i] + s.ring[i + 1..] && r.nextId == s.nextId && Caller(r) == Caller(s)
  }

  /** What the answer to waitpid means, for the child at place i. */
  predicate AnswersFor(s: Sys, r: Sys, nohang: bool, answer: WaitResult, i: nat)
    requires i < |s.ring|
  {
    var child := s.ring[i];
    if child.st == Zombie then answer == Collected(child.id, child.status) && Left(s, r, i)
    else if nohang then answer == NotYet && r == s
    else answer == Waiting && WaitsFor(s, r, child.id)
  }

  lemma WaitAnswers(s: Sys, pid: nat, nohang: bool)
    requires Inv(s) && MayCall(s)
    ensures var (r, answer) := Wait(s, pid, nohang);
            && (answer == Failed <==> forall i: nat :: !IsChild(s, pid, i))
            && (answer == Failed ==> r == s)
            && forall i: nat :: IsChild(s, pid, i) ==> AnswersFor(s, r, nohang, answer, i)
  {
    hide LookupFrom;
    assert Aged(s.ring[s.cur.value], s.nextId);
    forall i: nat | IsChild(s, pid, i)
      ensures pid > 0 && i != s.cur.value && Lookup(s.ring, pid) == Some(i)
    {
      assert Aged(s.ring[i], s.nextId);
    }
    var found := if pid == 0 then None else Lookup(s.ring, pid);
    assert found.Some? && s.ring[found.value].parent == Caller(s) ==> IsChild(s, pid, found.value);
  }

  /** In every run, waitpid fails exactly when no task of the ring has this id and the caller as its parent;
      else it collects the child, or reports that it is not yet dead, or waits for it. */
  lemma WaitAnswersInRun(states: seq<Sys>, steps: seq<Step>, b: nat)
    requires IsRun(states, steps) && states[0] == Sys([], None, 1) && b < |steps| && steps[b].DoWait?
    ensures MayCall(states[b])
    ensures var s, r, answer := states[b], states[b + 1], Wait(states[b], steps[b].pid, steps[b].nohang).1;
            && (answer == Failed <==> forall i: nat :: !IsChild(s, steps[b].pid, i))
            && (answer == Failed ==> r == s)
            && forall i: nat :: IsChild(s, steps[b].pid, i) ==> AnswersFor(s, r, steps[b].nohang, answer, i)
  {
    hide Inv, IsChild, AnswersFor;
    RunKeeps(states, steps, b);
    assert StepAt(states, steps, b);
    WaitAnswers(states[b], steps[b].pid, steps[b].nohang);
  }

  // ----- from fork to waitpid -----

  predicate Present(s: Sys, id: nat) {
    exists i :: 0 <= i < |s.ring| && s.ring[i].id == id
  }

  /** Only waitpid takes a task out of the ring, by collecting it. */
  lemma StepPresent(s: Sys, e: Step, id: nat)
    requires Inv(s) && Enabled(s, e) && Present(s, id)
    ensures Present(Next(s, e), id) || exists status :: Collects(s, e, id, status)
  {
    var r := Next(s, e);
    var i: nat :| i < |s.ring| && s.ring[i].id == id;
    hide Tick, Exit, Wait, Ids, Turns, Served;
    match e
    case DoTick(ticks, regs) => TickPresent(s, ticks, regs, i);
    case DoSpawn(regs) => assert r.ring[i] == s.ring[i];
    case DoFork(regs) => assert r.ring[i] == s.ring[i];
    case DoExit(status) => ExitTask(s, status, i); assert r.ring[i].id == id;
    case DoWait(pid, nohang) =>
      WaitPresent(s, pid, nohang, i);
      assert Present(r, id) || Collects(s, e, id, s.ring[i].status);
    case DoSleep(until) => assert r.ring[i].id == id;
  }

  lemma WaitPresent(s: Sys, pid: nat, nohang: bool, i: nat)
    requires MayCall(s) && i < |s.ring|
    ensures var (r, answer) := Wait(s, pid, nohang);
            Present(r, s.ring[i].id) || answer == Collected(s.ring[i].id, s.ring[i].status)
  {
    hide LookupFrom, Without;
    var r := Wait(s, pid, nohang).0;
    if |r.ring| == |s.ring| {
      assert r.ring[i].id == s.ring[i].id;
    } else if Lookup(s.ring, pid).value != i {
      var j := Lookup(s.ring, pid).value;
      WithoutAt(s.ring, j, i);
      assert r.ring[Behind(j, i)].id == s.ring[i].id;
    }
  }

  lemma TickPresent(s: Sys, ticks: nat, regs: Regs, i: nat)
    requires Inv(s) && i < |s.ring|
    ensures Present(Tick(s, ticks, regs).0, s.ring[i].id)
  {
    hide Ready, NextRunnable;
    var r := Tick(s, ticks, regs).0;
    if s.cur.Some? {
      TickKeeps(s, ticks, regs);
      assert SameTask(s.ring[i], r.ring[i]);
    }
    assert r.ring[i].id == s.ring[i].id;
  }

  ghost predicate TakenOut(s: Sys, e: Step, id: nat) {
    exists status :: Collects(s, e, id, status)
  }

  lemma {:induction false} StaysPresent(states: seq<Sys>, steps: seq<Step>, a: nat, b: nat, id: nat)
    requires IsRun(states, steps) && states[0] == Sys([], None, 1) && a <= b <= |steps| && Present(states[a], id)
    requires forall k :: a <= k < b ==> !TakenOut(states[k], steps[k], id)
    ensures Present(states[b], id)
    decreases b
  {
    hide Next, Inv, Present;
    if a < b {
      StaysPresent(states, steps, a, b - 1, id);
      RunKeeps(states, steps, b - 1);
      assert StepAt(states, steps, b - 1);
      StepPresent(states[b - 1], steps[b - 1], id);
      assert !TakenOut(states[b - 1], steps[b - 1], id);
    }
  }

  /** From fork to waitpid: when a child has exited and was not collected yet, waitpid by the task that
      forked it returns its id and the status it exited with. */
  lemma ForkExitWait(states: seq<Sys>, steps: seq<Step>, a: nat, x: nat, b: nat)
    requires IsRun(states, steps) && states[0] == Sys([], None, 1) && a < x < b < |steps|
    requires steps[a].DoFork? && steps[x].DoExit? && Caller(states[x]) == states[a].nextId
    requires steps[b].DoWait? && steps[b].pid == states[a].nextId && Caller(states[b]) == Caller(states[a])
    requires forall k :: a < k < b ==> !TakenOut(states[k], steps[k], states[a].nextId)
    ensures MayCall(states[b])
    ensures Wait(states[b], steps[b].pid, steps[b].nohang).1 == Collected(states[a].nextId, steps[x].status)
  {
    var id := states[a].nextId;
    ForkedChild(states, steps, a, b);
    JoinedPresent(states[a], states[a + 1], Caller(states[a]));
    StaysPresent(states, steps, a + 1, b, id);
    DeadForGood(states, steps, x, b);
    WaitAnswersInRun(states, steps, b);
    hide Next, Inv, Wait, Left, WaitsFor;
    var i: nat :| i < |states[b].ring| && states[b].ring[i].id == id;
    assert IsChild(states[b], id, i);
  }

  lemma JoinedPresent(s: Sys, r: Sys, parent: nat)
    requires Joined(s, r, parent)
    ensures Present(r, s.nextId)
  {
    assert r.ring[|s.ring|].id == s.nextId;
  }

  /** An exit sets a parent that is blocked running again, so that it calls waitpid once more. */
  lemma ExitWakes(s: Sys, status: int, i: nat)
    requires Inv(s) && MayCall(s) && i < |s.ring| && s.ring[i].id == s.ring[s.cur.value].parent > 0
    ensures i != s.cur.value && Exit(s, status).ring[i].id == s.ring[i].id
    ensures Exit(s, status).ring[i].st == if s.ring[i].st == Blocked then Runnable else s.ring[i].st
  {
    hide LookupFrom;
    assert Aged(s.ring[s.cur.value], s.nextId);
  }

  // ----- sleep -----

  /** The task is blocked, for no child, with this time to wake. */
  predicate Asleep(s: Sys, id: nat, until: nat) {
    id < s.nextId && forall i :: 0 <= i < |s.ring| && s.ring[i].id == id ==>
        s.ring[i].st == Blocked && s.ring[i].wake == until && s.ring[i].waitingFor == 0
  }

  /** Time has come, or a child of the task exits. */
  predicate Wakes(s: Sys, e: Step, id: nat, until: nat) {
    match e
    case DoTick(ticks, _) => until <= ticks
    case DoExit(_) => s.cur.Some? && s.cur.value < |s.ring| && s.ring[s.cur.value].parent == id
    case _ => false
  }

  lemma StepAsleep(s: Sys, e: Step, id: nat, until: nat)
    requires Inv(s) && Enabled(s, e) && Asleep(s, id, until) && id > 0 && !Wakes(s, e, id, until)
    ensures Asleep(Next(s, e), id, until)
  {
    hide Tick, Exit, Wait, Ids, Served;
    InvParts(s);
    match e
    case DoTick(ticks, regs) => TickAsleep(s, ticks, regs, id, until);
    case DoSpawn(regs) =>
    case DoFork(regs) =>
    case DoExit(status) => ExitAsleep(s, status, id, until);
    case DoWait(pid, nohang) => WaitAsleep(s, pid, nohang, id, until);
    case DoSleep(_) =>
  }

  lemma WaitAsleep(s: Sys, pid: nat, nohang: bool, id: nat, until: nat)
    requires MayCall(s) && Asleep(s, id, until)
    ensures Asleep(Wait(s, pid, nohang).0, id, until)
  {
    hide LookupFrom, Without;
    var r := Wait(s, pid, nohang).0;
    if |r.ring| != |s.ring| {
      var j := Lookup(s.ring, pid).value;
      forall k: nat | k < |r.ring| ensures r.ring[k] == s.ring[Before(j, k)] {
        WithoutAt(s.ring, j, k);
      }
    }
  }

  lemma TickAsleep(s: Sys, ticks: nat, regs: Regs, id: nat, until: nat)
    requires Inv(s) && Asleep(s, id, until) && id > 0 && ticks < until
    ensures Asleep(Tick(s, ticks, regs).0, id, until)
  {
    hide NextRunnable;
    InvParts(s);
    if s.cur.Some? {
      TickIs(s, ticks, regs);
    }
  }

  lemma ExitAsleep(s: Sys, status: int, id: nat, until: nat)
    requires Inv(s) && MayCall(s) && Asleep(s, id, until) && s.ring[s.cur.value].parent != id
    ensures Asleep(Exit(s, status), id, until)
  {
    hide LookupFrom;
    assert forall i :: 0 <= i < |s.ring| && s.ring[i].id == id ==> i != s.cur.value;
  }

  /** A sleep lasts until its time has come, or until a child exits. */
  lemma {:induction false} SleepsOn(states: seq<Sys>, steps: seq<Step>, a: nat, b: nat)
    requires IsRun(states, steps) && states[0] == Sys([], None, 1) && a < b <= |steps| && steps[a].DoSleep?
    requires forall k :: a < k < b ==> !Wakes(states[k], steps[k], Caller(states[a]), steps[a].until)
    ensures Asleep(states[b], Caller(states[a]), steps[a].until) && Caller(states[a]) > 0
    decreases b
  {
    RunKeeps(states, steps, b - 1);
    assert StepAt(states, steps, b - 1);
    if b == a + 1 {
      FallsAsleep(states[a], steps[a].until);
    } else {
      hide Next, Inv, Asleep, Wakes;
      SleepsOn(states, steps, a, b - 1);
      StepAsleep(states[b - 1], steps[b - 1], Caller(states[a]), steps[a].until);
    }
  }

  lemma FallsAsleep(s: Sys, until: nat)
    requires Inv(s) && MayCall(s)
    ensures Asleep(Sleep(s, until), Caller(s), until) && Caller(s) > 0
  {
    assert Aged(s.ring[s.cur.value], s.nextId);
  }

  /** The first tick at its time or later ends it: the task can run, or does. */
  lemma WakesInTime(s: Sys, ticks: nat, regs: Regs, id: nat, until: nat, i: nat)
    requires Inv(s) && s.cur.Some? && Asleep(s, id, until) && until <= ticks && i < |s.ring| && s.ring[i].id == id
    requires i != s.cur.value
    ensures |Tick(s, ticks, regs).0.ring| == |s.ring| && Tick(s, ticks, regs).0.ring[i].id == id
    ensures var t := Tick(s, ticks, regs).0.ring[i]; t.st == Runnable || t.st == Running
  {
    hide NextRunnable;
    TickIs(s, ticks, regs);
  }
}
