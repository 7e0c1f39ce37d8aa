/** Zombies, collection, waiting and registers, over whole runs of the process protocol. */
module ProtocolSafety {
  import opened Wrappers
  import opened Protocol
  import opened ProtocolRuns

  // ----- zombies -----

  /** The task is a zombie with this status, or gone for good. */
  predicate Dead(s: Sys, id: nat, status: int) {
    id < s.nextId && forall i :: 0 <= i < |s.ring| && s.ring[i].id == id ==>
        s.ring[i].st == Zombie && s.ring[i].status == status
  }

  predicate Gone(s: Sys, id: nat) {
    id < s.nextId && forall i :: 0 <= i < |s.ring| ==> s.ring[i].id != id
  }

  /** Where a task of the new ring was before a step, and what it was like. */
  predicate Descends(s: Sys, t: Task) {
    exists i :: 0 <= i < |s.ring| && From(s.ring[i], t)
  }

  /** A step keeps a zombie, and makes nobody but the caller of exit one. */
  predicate From(was: Task, t: Task) {
    && was.id == t.id && was.parent == t.parent
    && (was.st == Zombie ==> t.st == Zombie && t.status == was.status)
  }

  lemma TickDescends(s: Sys, ticks: nat, regs: Regs, k: nat)
    requires Inv(s) && k < |Tick(s, ticks, regs).0.ring|
    ensures var t := Tick(s, ticks, regs).0.ring[k]; t.id == 0 || Descends(s, t)
  {
    hide Ready, NextRunnable;
    if s.cur.Some? {
      TickKeeps(s, ticks, regs);
      var t := Tick(s, ticks, regs).0.ring[k];
      assert SameTask(s.ring[k], t);
      assert From(s.ring[k], t);
    } else if k < |s.ring| {
      assert From(s.ring[k], Awake(s.ring[k], ticks));
    }
  }

  lemma WaitDescends(s: Sys, pid: nat, nohang: bool, k: nat)
    requires MayCall(s) && k < |Wait(s, pid, nohang).0.ring|
    requires (forall i :: 0 <= i < |s.ring| && i != s.cur.value ==> s.ring[i].st != Running)
    ensures Descends(s, Wait(s, pid, nohang).0.ring[k])
  {
    hide Lookup, Without;
    var r := Wait(s, pid, nohang).0;
    var i := if pid == 0 then None else Lookup(s.ring, pid);
    if |r.ring| == |s.ring| {
      assert From(s.ring[k], r.ring[k]);
    } else {
      WithoutAt(s.ring, i.value, k);
      assert From(s.ring[Before(i.value, k)], r.ring[k]);
    }
  }

  /** Every task behind a step was there before, is new, or is the idle task of the first tick. */
  lemma StepDescends(s: Sys, e: Step, k: nat)
    requires Inv(s) && Enabled(s, e) && k < |Next(s, e).ring|
    ensures var t := Next(s, e).ring[k]; t.id == s.nextId || t.id == 0 || Descends(s, t)
    ensures s.nextId <= Next(s, e).nextId
  {
    hide Tick, Wait, Exit;
    InvParts(s);
    match e
    case DoTick(ticks, regs) => TickDescends(s, ticks, regs, k); TickNext(s, ticks, regs);
    case DoSpawn(regs) => if k < |s.ring| { assert From(s.ring[k], s.ring[k]); }
    case DoFork(regs) => if k < |s.ring| { assert From(s.ring[k], s.ring[k]); }
    case DoExit(status) => ExitDescends(s, status, k);
    case DoWait(pid, nohang) => WaitDescends(s, pid, nohang, k); WaitNext(s, pid, nohang);
    case DoSleep(until) => assert From(s.ring[k], Sleep(s, until).ring[k]);
  }

  lemma TickNext(s: Sys, ticks: nat, regs: Regs)
    requires Inv(s)
    ensures Tick(s, ticks, regs).0.nextId == s.nextId
  {
  }

  lemma WaitNext(s: Sys, pid: nat, nohang: bool)
    requires MayCall(s)
    ensures Wait(s, pid, nohang).0.nextId == s.nextId
  {
  }

  lemma ExitDescends(s: Sys, status: int, k: nat)
    requires Inv(s) && MayCall(s) && k < |s.ring|
    ensures Descends(s, Exit(s, status).ring[k]) && Exit(s, status).nextId == s.nextId
  {
    ExitTask(s, status, k);
    assert From(s.ring[k], Exit(s, status).ring[k]);
  }

  /** A zombie stays one with its status until it is taken out, and its id is not used again. */
  lemma StepDead(s: Sys, e: Step, id: nat, status: int)
    requires Inv(s) && Enabled(s, e) && Dead(s, id, status) && id > 0
    ensures Dead(Next(s, e), id, status) && (Gone(s, id) ==> Gone(Next(s, e), id))
  {
    var r := Next(s, e);
    hide Next, Inv;
    forall k: nat | k < |r.ring| && r.ring[k].id == id
      ensures r.ring[k].st == Zombie && r.ring[k].status == status && !Gone(s, id)
    {
      StepDescends(s, e, k);
      var i :| 0 <= i < |s.ring| && From(s.ring[i], r.ring[k]);
    }
    StepNextId(s, e);
  }

  lemma StepNextId(s: Sys, e: Step)
    requires Inv(s) && Enabled(s, e)
    ensures s.nextId <= Next(s, e).nextId
  {
    hide Tick, Wait, Exit;
    match e
    case DoTick(ticks, regs) => TickNext(s, ticks, regs);
    case DoSpawn(regs) =>
    case DoFork(regs) =>
    case DoExit(status) => ExitDescends(s, status, s.cur.value);
    case DoWait(pid, nohang) => WaitNext(s, pid, nohang);
    case DoSleep(until) =>
  }

  /** From an exit on, in every later state of the run, the task is a zombie with the status it
      exited with, or gone; so it never runs again. */
  lemma {:induction false} DeadForGood(states: seq<Sys>, steps: seq<Step>, a: nat, b: nat)
    requires IsRun(states, steps) && states[0] == Sys([], None, 1) && a < b <= |steps| && steps[a].DoExit?
    ensures var id := Caller(states[a]);
            && id > 0 && Dead(states[b], id, steps[a].status)
            && (states[b].cur.Some? && states[b].cur.value < |states[b].ring|
                && states[b].ring[states[b].cur.value].id == id
                ==> states[b].ring[states[b].cur.value].st == Zombie)
    decreases b
  {
    hide Next, Inv;
    RunKeeps(states, steps, b - 1);
    assert StepAt(states, steps, b - 1);
    if b == a + 1 {
      ExitMakesDead(states[a], steps[a].status);
      NextIsExit(states[a], steps[a]);
    } else {
      DeadForGood(states, steps, a, b - 1);
      StepDead(states[b - 1], steps[b - 1], Caller(states[a]), steps[a].status);
    }
  }

  function Caller(s: Sys): nat {
    if s.cur.Some? && s.cur.value < |s.ring| then s.ring[s.cur.value].id else 0
  }

  lemma NextIsExit(s: Sys, e: Step)
    requires e.DoExit? && MayCall(s)
    ensures Next(s, e) == Exit(s, e.status)
  {
  }

  lemma ExitMakesDead(s: Sys, status: int)
    requires Inv(s) && MayCall(s)
    ensures Caller(s) > 0 && Dead(Exit(s, status), Caller(s), status)
  {
    var c := s.cur.value;
    assert Aged(s.ring[c], s.nextId);
    forall k: nat | k < |s.ring| && Exit(s, status).ring[k].id == Caller(s) ensures k == c {
      ExitTask(s, status, k);
    }
    ExitTask(s, status, c);
  }

  // ----- collection -----

  /** Step b collects task id with this status. */
  predicate Collects(s: Sys, e: Step, id: nat, status: int) {
    e.DoWait? && MayCall(s) && Wait(s, e.pid, e.nohang).1 == Collected(id, status)
  }

  lemma CollectGone(s: Sys, e: Step, id: nat, status: int)
    requires Inv(s) && Collects(s, e, id, status)
    ensures id > 0 && Gone(Next(s, e), id) && !Gone(s, id)
    ensures exists i :: 0 <= i < |s.ring| && s.ring[i].id == id && s.ring[i].st == Zombie && s.ring[i].status == status
  {
    hide Without;
    var i := Lookup(s.ring, e.pid).value;
    assert Aged(s.ring[i], s.nextId);
    forall k: nat | k < |s.ring| - 1 ensures Without(s.ring, i)[k].id != id {
      WithoutAt(s.ring, i, k);
    }
  }

  lemma {:induction false} GoneForGood(states: seq<Sys>, steps: seq<Step>, a: nat, b: nat, id: nat)
    requires IsRun(states, steps) && states[0] == Sys([], None, 1) && a <= b <= |steps| && id > 0 && Gone(states[a], id)
    ensures Gone(states[b], id)
    decreases b
  {
    hide Next, Inv;
    if a < b {
      GoneForGood(states, steps, a, b - 1, id);
      RunKeeps(states, steps, b - 1);
      assert StepAt(states, steps, b - 1);
      StepDead(states[b - 1], steps[b - 1], id, 0);
    }
  }

  /** A child is collected at most once in a run. */
  lemma CollectedOnce(states: seq<Sys>, steps: seq<Step>, a: nat, b: nat, id: nat, v: int, w: int)
    requires IsRun(states, steps) && states[0] == Sys([], None, 1) && a < |steps| && b < |steps|
    requires Collects(states[a], steps[a], id, v) && Collects(states[b], steps[b], id, w)
    ensures a == b
  {
    hide Next, Inv, Collects, Gone;
    if a != b {
      var x, y := if a < b then a else b, if a < b then b else a;
      RunKeeps(states, steps, x);
      RunKeeps(states, steps, y);
      CollectGone(states[x], steps[x], id, if a < b then v else w);
      CollectGone(states[y], steps[y], id, if a < b then w else v);
      assert StepAt(states, steps, x);
      GoneForGood(states, steps, x + 1, y, id);
    }
  }

  /** A zombie got there by an exit with its status. */
  lemma {:induction false} ExitBefore(states: seq<Sys>, steps: seq<Step>, b: nat, i: nat) returns (a: nat)
    requires IsRun(states, steps) && states[0] == Sys([], None, 1) && b <= |steps|
    requires i < |states[b].ring| && states[b].ring[i].st == Zombie
    ensures a < b && steps[a].DoExit? && MayCall(states[a])
    ensures Caller(states[a]) == states[b].ring[i].id && steps[a].status == states[b].ring[i].status
  {
    hide Next, Inv;
    RunKeeps(states, steps, b - 1);
    assert StepAt(states, steps, b - 1);
    var z := ZombieFrom(states[b - 1], steps[b - 1], i);
    if z.None? {
      a := b - 1;
    } else {
      a := ExitBefore(states, steps, b - 1, z.value);
    }
  }

  lemma ZombieFrom(s: Sys, e: Step, i: nat) returns (z: Option<nat>)
    requires Inv(s) && Enabled(s, e) && i < |Next(s, e).ring| && Next(s, e).ring[i].st == Zombie
    ensures z.Some? ==> z.value < |s.ring| && s.ring[z.value].st == Zombie
                        && s.ring[z.value].id == Next(s, e).ring[i].id
                            && s.ring[z.value].status == Next(s, e).ring[i].status
    ensures z.None? ==> e.DoExit? && Caller(s) == Next(s, e).ring[i].id && e.status == Next(s, e).ring[i].status
  {
    hide Tick, Wait, Exit;
    InvParts(s);
    match e
    case DoTick(ticks, regs) => TickZombie(s, ticks, regs, i); z := Some(i);
    case DoSpawn(regs) => z := Some(i);
    case DoFork(regs) => z := Some(i);
    case DoExit(status) =>
      ExitTask(s, status, i);
      z := if i == s.cur.value then None else Some(i);
    case DoWait(pid, nohang) => z := WaitZombie(s, pid, nohang, i);
    case DoSleep(until) => z := Some(i);
  }

  lemma TickZombie(s: Sys, ticks: nat, regs: Regs, i: nat)
    requires Inv(s) && i < |Tick(s, ticks, regs).0.ring| && Tick(s, ticks, regs).0.ring[i].st == Zombie
    ensures i < |s.ring| && s.ring[i].st == Zombie
    ensures s.ring[i].id == Tick(s, ticks, regs).0.ring[i].id
    ensures s.ring[i].status == Tick(s, ticks, regs).0.ring[i].status
  {
    hide Ready, NextRunnable;
    if s.cur.Some? {
      TickKeeps(s, ticks, regs);
      assert SameTask(s.ring[i], Tick(s, ticks, regs).0.ring[i]);
    }
  }

  lemma WaitZombie(s: Sys, pid: nat, nohang: bool, i: nat) returns (z: Option<nat>)
    requires MayCall(s) && i < |Wait(s, pid, nohang).0.ring| && Wait(s, pid, nohang).0.ring[i].st == Zombie
    ensures z.Some? && z.value < |s.ring| && s.ring[z.value].st == Zombie
    ensures var t := Wait(s, pid, nohang).0.ring[i]; s.ring[z.value].id == t.id && s.ring[z.value].status == t.status
  {
    hide Lookup, Without;
    if |Wait(s, pid, nohang).0.ring| == |s.ring| {
      z := Some(i);
    } else {
      var j := Lookup(s.ring, pid).value;
      WithoutAt(s.ring, j, i);
      z := Some(Before(j, i));
    }
  }

  /** What waitpid collects is the status that the child exited with. */
  lemma CollectedStatus(states: seq<Sys>, steps: seq<Step>, b: nat, id: nat, status: int) returns (a: nat)
    requires IsRun(states, steps) && states[0] == Sys([], None, 1) && b < |steps|
    requires Collects(states[b], steps[b], id, status)
    ensures a < b && steps[a] == DoExit(status) && MayCall(states[a]) && Caller(states[a]) == id
  {
    hide Next, Inv, Collects;
    RunKeeps(states, steps, b);
    CollectGone(states[b], steps[b], id, status);
    var i :| 0 <= i < |states[b].ring| && states[b].ring[i].id == id && states[b].ring[i].st == Zombie
        && states[b].ring[i].status == status;
    a := ExitBefore(states, steps, b, i);
  }
}
