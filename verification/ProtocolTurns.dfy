/** Round robin: bounded waiting, and the registers that tasks resume with. */
module ProtocolTurns {
  import opened Wrappers
  import opened Protocol
  import opened ProtocolRuns
  import opened ProtocolSafety

  // ----- bounded waiting -----

  /** Task id waits for its turn at place i. */
  predicate WaitsAt(s: Sys, id: nat, i: nat) {
    s.cur.Some? && s.cur.value < |s.ring| && i < |s.ring| && i != s.cur.value && s.ring[i].id == id
        && s.ring[i].st == Runnable
  }

  /** Its distance from the current task. */
  function Ahead(s: Sys, i: nat): (d: nat)
    requires s.cur.Some? && s.cur.value < |s.ring| && i < |s.ring|
  {
    Distance(|s.ring|, s.cur.value, i)
  }

  /** A tick gives a waiting task its turn, or brings it strictly nearer. */
  lemma TickNearer(s: Sys, ticks: nat, regs: Regs, id: nat, i: nat)
    requires Inv(s) && WaitsAt(s, id, i)
    ensures var r := Tick(s, ticks, regs).0;
            && |r.ring| == |s.ring| && r.cur.Some? && r.cur.value < |r.ring|
            && (r.cur.value == i || (WaitsAt(r, id, i) && Ahead(r, i) < Ahead(s, i)))
  {
    hide NextRunnable, Ready;
    InvParts(s);
    TickIs(s, ticks, regs);
    ReadyTask(s, ticks, regs, i);
    FindsAny(Ready(s, ticks, regs), s.cur.value, i);
    TickChoice(s, ticks, regs);
    var r := Tick(s, ticks, regs).0;
    Between(|s.ring|, s.cur.value, i, NextRunnable(Ready(s, ticks, regs), s.cur.value, 1).value);
  }

  lemma TickChoice(s: Sys, ticks: nat, regs: Regs)
    requires s.cur.Some? && s.cur.value < |s.ring|
    requires NextRunnable(Ready(s, ticks, regs), s.cur.value, 1).Some?
    ensures Tick(s, ticks, regs).0.cur ==
            Some(On(|s.ring|, s.cur.value, NextRunnable(Ready(s, ticks, regs), s.cur.value, 1).value))
  {
    hide Ready, NextRunnable;
  }

  lemma Between(n: nat, c: nat, i: nat, k: nat)
    requires c < n && i < n && i != c && 1 <= k <= Distance(n, c, i)
    ensures var c' := On(n, c, k); Distance(n, c', i) == Distance(n, c, i) - k
  {
  }

  /** How far a step may push a waiting task back: a task that joins the ring may come in between. */
  function Joins(e: Step): nat {
    if e.DoFork? || e.DoSpawn? then 1 else 0
  }

  function Turn(e: Step): nat {
    if e.DoTick? then 1 else 0
  }

  predicate HasTurn(s: Sys, id: nat) {
    Caller(s) == id && s.cur.Some?
  }

  /** Behind a step the task has its turn, or waits on, nearer by the tick or further by one place. */
  ghost predicate Moved(s: Sys, r: Sys, e: Step, id: nat, i: nat)
    requires WaitsAt(s, id, i)
  {
    HasTurn(r, id) || exists j: nat :: WaitsAt(r, id, j) && Ahead(r, j) + Turn(e) <= Ahead(s, i) + Joins(e)
  }

  lemma TickMoves(s: Sys, ticks: nat, regs: Regs, id: nat, i: nat)
    requires Inv(s) && WaitsAt(s, id, i)
    ensures Moved(s, Tick(s, ticks, regs).0, DoTick(ticks, regs), id, i)
  {
    TickNearer(s, ticks, regs, id, i);
    TickKeeps(s, ticks, regs);
    hide Tick, Distance;
    assert SameTask(s.ring[i], Tick(s, ticks, regs).0.ring[i]);
    assert Tick(s, ticks, regs).0.cur.value != i ==> WaitsAt(Tick(s, ticks, regs).0, id, i);
  }

  lemma CollectMoves(s: Sys, r: Sys, z: nat, id: nat, i: nat)
    requires WaitsAt(s, id, i) && z < |s.ring| && z != i && z != s.cur.value
    requires r.ring == Without(s.ring, z) && r.cur == Some(Behind(z, s.cur.value))
    ensures WaitsAt(r, id, Behind(z, i)) && Ahead(r, Behind(z, i)) <= Ahead(s, i)
  {
    WithoutAt(s.ring, z, i);
    WithoutAt(s.ring, z, s.cur.value);
    Closer(|s.ring|, s.cur.value, i, z);
  }

  lemma WaitMoves(s: Sys, pid: nat, nohang: bool, id: nat, i: nat)
    requires WaitsAt(s, id, i) && MayCall(s)
    ensures Moved(s, Wait(s, pid, nohang).0, DoWait(pid, nohang), id, i)
  {
    var r := Wait(s, pid, nohang).0;
    hide Lookup, Without, Ahead;
    if |r.ring| != |s.ring| {
      var z := Lookup(s.ring, pid).value;
      CollectMoves(s, r, z, id, i);
    } else {
      assert WaitsAt(r, id, i) && Ahead(r, i) == Ahead(s, i) by {
        SamePlace(s, r, i);
      }
    }
  }

  lemma SamePlace(s: Sys, r: Sys, i: nat)
    requires |r.ring| == |s.ring| && r.cur == s.cur && s.cur.Some? && s.cur.value < |s.ring| && i < |s.ring|
    ensures Ahead(r, i) == Ahead(s, i)
  {
  }

  lemma Closer(n: nat, c: nat, i: nat, z: nat)
    requires c < n && i < n && z < n && z != c && z != i && c != i
    ensures Behind(z, c) < n - 1 && Behind(z, i) < n - 1
    ensures Distance(n - 1, Behind(z, c), Behind(z, i)) <= Distance(n, c, i)
  {
  }

  lemma ExitMoves(s: Sys, status: int, id: nat, i: nat)
    requires Inv(s) && WaitsAt(s, id, i) && MayCall(s)
    ensures Moved(s, Exit(s, status), DoExit(status), id, i)
  {
    ExitTask(s, status, i);
    assert WaitsAt(Exit(s, status), id, i);
  }

  lemma StepMoves(s: Sys, e: Step, id: nat, i: nat)
    requires Inv(s) && Enabled(s, e) && WaitsAt(s, id, i)
    ensures Moved(s, Next(s, e), e, id, i)
  {
    hide Tick, Wait, Exit;
    match e
    case DoTick(ticks, regs) => TickMoves(s, ticks, regs, id, i);
    case DoSpawn(regs) => assert WaitsAt(Spawn(s, regs), id, i);
    case DoFork(regs) => assert WaitsAt(Fork(s, regs), id, i);
    case DoExit(status) => ExitMoves(s, status, id, i);
    case DoWait(pid, nohang) => WaitMoves(s, pid, nohang, id, i);
    case DoSleep(until) => assert WaitsAt(Sleep(s, until), id, i);
  }

  function TickCount(steps: seq<Step>, a: nat, b: nat): nat
    requires a <= b <= |steps|
    decreases b
  {
    if a == b then 0 else TickCount(steps, a, b - 1) + Turn(steps[b - 1])
  }

  function JoinCount(steps: seq<Step>, a: nat, b: nat): nat
    requires a <= b <= |steps|
    decreases b
  {
    if a == b then 0 else JoinCount(steps, a, b - 1) + Joins(steps[b - 1])
  }

  lemma {:induction false} StillWaits(states: seq<Sys>, steps: seq<Step>, a: nat, b: nat, id: nat,
      i: nat) returns (j: nat)
    requires IsRun(states, steps) && states[0] == Sys([], None, 1) && a <= b <= |steps|
    requires WaitsAt(states[a], id, i) && forall k :: a < k <= b ==> !HasTurn(states[k], id)
    ensures WaitsAt(states[b], id, j)
    ensures Ahead(states[b], j) + TickCount(steps, a, b) <= Ahead(states[a], i) + JoinCount(steps, a, b)
    decreases b
  {
    hide Next, Inv, HasTurn, Ahead, Turn, Joins;
    if a == b {
      j := i;
    } else {
      var m := StillWaits(states, steps, a, b - 1, id, i);
      RunKeeps(states, steps, b - 1);
      assert StepAt(states, steps, b - 1);
      StepMoves(states[b - 1], steps[b - 1], id, m);
      j :| WaitsAt(states[b], id, j)
          && Ahead(states[b], j) + Turn(steps[b - 1]) <= Ahead(states[b - 1], m) + Joins(steps[b - 1]);
    }
  }

  /** Bounded waiting: a runnable task gets its turn before as many ticks have passed as tasks
      stood between, and as have joined the ring since. */
  lemma RunsInTime(states: seq<Sys>, steps: seq<Step>, a: nat, b: nat, id: nat, i: nat)
    requires IsRun(states, steps) && states[0] == Sys([], None, 1) && a <= b <= |steps| && WaitsAt(states[a], id, i)
    requires TickCount(steps, a, b) >= Ahead(states[a], i) + JoinCount(steps, a, b)
    ensures exists k :: a < k <= b && HasTurn(states[k], id)
  {
    if forall k :: a < k <= b ==> !HasTurn(states[k], id) {
      var j := StillWaits(states, steps, a, b, id, i);
    }
  }

  // ----- registers -----

  /** The registers saved for a task. */
  predicate Saved(s: Sys, id: nat, regs: Regs) {
    forall i :: 0 <= i < |s.ring| && s.ring[i].id == id ==> s.ring[i].regs == regs
  }

  /** A tick saves the registers of the task that it stops, and continues with those saved for the
      task that it starts. */
  lemma TickRegs(s: Sys, ticks: nat, regs: Regs, id: nat, saved: Regs)
    requires Inv(s) && s.cur.Some?
    ensures var (r, out) := Tick(s, ticks, regs);
            && Saved(r, Caller(s), regs)
            && (Caller(r) == Caller(s) ==> out == regs)
            && (Caller(s) != id && Saved(s, id, saved) ==> Saved(r, id, saved) && (Caller(r) == id ==> out == saved))
  {
    TickIs(s, ticks, regs);
    var (r, out) := Tick(s, ticks, regs);
    forall i: nat | i < |s.ring|
      ensures r.ring[i].regs == (if i == s.cur.value then regs else s.ring[i].regs) && r.ring[i].id == s.ring[i].id
      ensures Ready(s, ticks, regs)[i].regs == if i == s.cur.value then regs else s.ring[i].regs
    {
      ReadyTask(s, ticks, regs, i);
    }
  }

  /** No other step touches the registers saved for a task that is not running. */
  lemma StepRegs(s: Sys, e: Step, id: nat, saved: Regs)
    requires Inv(s) && Enabled(s, e) && id < s.nextId && Saved(s, id, saved) && Caller(s) != id && s.cur.Some?
    ensures Saved(Next(s, e), id, saved)
  {
    hide Tick, Lookup;
    match e
    case DoTick(ticks, regs) => TickRegs(s, ticks, regs, id, saved);
    case DoSpawn(regs) =>
    case DoFork(regs) =>
    case DoExit(status) =>
      forall i: nat | i < |s.ring|
          ensures Exit(s, status).ring[i].regs == s.ring[i].regs && Exit(s, status).ring[i].id == s.ring[i].id {
        ExitTask(s, status, i);
      }
    case DoWait(pid, nohang) =>
    case DoSleep(until) =>
  }

  lemma {:induction false} SavedUntil(states: seq<Sys>, steps: seq<Step>, a: nat, b: nat, id: nat, saved: Regs)
    requires IsRun(states, steps) && states[0] == Sys([], None, 1) && a <= b <= |steps|
    requires id < states[a].nextId && Saved(states[a], id, saved)
    requires forall k :: a <= k < b ==> states[k].cur.Some? && Caller(states[k]) != id
    ensures Saved(states[b], id, saved) && id < states[b].nextId
    decreases b
  {
    hide Next, Inv, Caller;
    if a < b {
      SavedUntil(states, steps, a, b - 1, id, saved);
      RunKeeps(states, steps, b - 1);
      assert StepAt(states, steps, b - 1);
      StepRegs(states[b - 1], steps[b - 1], id, saved);
      StepNextId(states[b - 1], steps[b - 1]);
    }
  }

  /** A task resumes with exactly the registers that the tick that stopped it saved. */
  lemma ResumesAsStopped(states: seq<Sys>, steps: seq<Step>, a: nat, b: nat, id: nat)
    requires IsRun(states, steps) && states[0] == Sys([], None, 1) && a < b < |steps| && steps[a].DoTick?
    requires steps[b].DoTick?
    requires states[a].cur.Some? && Caller(states[a]) == id && Caller(states[b + 1]) == id
    requires forall k :: a < k <= b ==> states[k].cur.Some? && Caller(states[k]) != id
    ensures states[b].cur.value < |states[b].ring|
    ensures Tick(states[b], steps[b].ticks, steps[b].regs).1 == steps[a].regs
  {
    hide Tick, Inv, Saved;
    RunKeeps(states, steps, a);
    RunKeeps(states, steps, b);
    assert StepAt(states, steps, a) && StepAt(states, steps, b);
    TickRegs(states[a], steps[a].ticks, steps[a].regs, id, steps[a].regs);
    CallerKnown(states[a]);
    StepNextId(states[a], steps[a]);
    SavedUntil(states, steps, a + 1, b, id, steps[a].regs);
    TickRegs(states[b], steps[b].ticks, steps[b].regs, id, steps[a].regs);
  }

  lemma CallerKnown(s: Sys)
    requires Inv(s) && s.cur.Some?
    ensures Caller(s) < s.nextId
  {
    assert Aged(s.ring[s.cur.value], s.nextId);
  }

  /** The registers of a child are its parent's, with 0 as the result of the call. */
  lemma ChildRegs(s: Sys, regs: Regs)
    requires Inv(s) && MayCall(s)
    ensures Saved(Fork(s, regs), s.nextId, regs.(rax := 0)) && s.nextId < Fork(s, regs).nextId
  {
    forall i | 0 <= i < |s.ring| ensures s.ring[i].id != s.nextId {
      assert Aged(s.ring[i], s.nextId);
    }
  }

  // ----- without the idle task -----

  /** A tick in which the current task is a zombie sets it running again exactly when no task
      is runnable; that is why an idle task must always be. */
  lemma ZombieRevived(s: Sys, ticks: nat, regs: Regs)
    requires s.cur.Some? && s.cur.value < |s.ring| && s.ring[s.cur.value].st == Zombie
    ensures Tick(s, ticks, regs).0.ring[s.cur.value].st == Running <==>
            forall i :: 0 <= i < |s.ring| ==> Swept(s.ring, ticks)[i].st != Runnable
  {
    var c, ready := s.cur.value, Ready(s, ticks, regs);
    hide NextRunnable;
    assert forall i :: 0 <= i < |s.ring| ==> ready[i].st == Swept(s.ring, ticks)[i].st;
    if k: nat :| k < |s.ring| && ready[k].st == Runnable {
      FindsAny(ready, c, k);
      TickChoice(s, ticks, regs);
    } else {
      assert NextRunnable(ready, c, 1).None?;
    }
  }

  /** A zombie alone in the ring, the current task, runs again after a tick. */
  lemma LoneZombie(regs: Regs, ticks: nat)
    ensures var s := Sys([Task(1, Zombie, regs, 0, 0, 7, true, 0)], Some(0), 2);
            Tick(s, ticks, regs).0.ring[0].st == Running
  {
    var s := Sys([Task(1, Zombie, regs, 0, 0, 7, true, 0)], Some(0), 2);
    ZombieRevived(s, ticks, regs);
  }
}
