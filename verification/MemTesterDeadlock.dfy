/** Exactly when MemTester's barrier can come to a deadlock: from which states some schedule leads to a state
    in which no thread can move although main has not given up. */
module MemTesterDeadlock {
  import opened MemTesterProtocol
  import opened MemTesterProgress

  /** Worker i has not seen -2, and no worker in front of it has failed, so nothing makes main give up before it comes to i. */
  ghost predicate Blocks(c: Config, s: State, i: nat)
    requires Shape(c, s)
  {
    i < c.workers && s.workers[i] == WaitReady && forall k | 0 <= k < i :: s.workers[k] != Returned
  }

  /** Some schedule ends in a deadlock. */
  ghost predicate CanDeadlock(c: Config, s: State)
    requires Shape(c, s)
  {
    exists steps | Schedule(c, steps) :: Deadlocked(c, From(c, s, steps))
  }

  ghost predicate Deadlocked(c: Config, s: State)
    requires Shape(c, s)
  {
    Stuck(c, s) && !s.main.Exited?
  }

  // ---- Only if ----

  /** No worker waits for -2 a second time, and a worker that has failed is gone for good. */
  lemma {:induction false} NoWayBack(c: Config, s: State, steps: seq<Step>, i: nat)
    requires Shape(c, s) && Schedule(c, steps) && i < c.workers
    ensures From(c, s, steps).workers[i] == WaitReady ==> s.workers[i] == WaitReady
    ensures s.workers[i] == Returned ==> From(c, s, steps).workers[i] == Returned
  {
    if steps != [] { NoWayBack(c, s, steps[..|steps| - 1], i); }
  }

  lemma DeadlockNeedsBlocker(c: Config, s: State, steps: seq<Step>) returns (i: nat)
    requires Inv(c, s) && c.tests > 0 && Schedule(c, steps) && Deadlocked(c, From(c, s, steps))
    ensures Blocks(c, s, i)
  {
    var t := From(c, s, steps);
    RunKeepsInv(c, s, steps);
    StuckMeansMissed(c, t);
    i := t.main.j;
    NoWayBack(c, s, steps, i);
    forall k | 0 <= k < i
      ensures s.workers[k] != Returned
    {
      NoWayBack(c, s, steps, k);
      assert WorkerOk(c, t, k);
    }
  }

  // ---- If ----

  lemma OneLast(c: Config, s: State, front: seq<Step>, last: Step)
    requires Shape(c, s) && Schedule(c, front) && Possible(c, last)
    ensures Schedule(c, front + [last]) && From(c, s, front + [last]) == Next(c, From(c, s, front), last)
  {
    var all := front + [last];
    assert all[..|all| - 1] == front;
  }

  /** A step of the drained schedule: anyone but worker i, and no test fails. */
  predicate Spares(step: Step, i: nat) { step.Main? || (step.i != i && step.testPasses) }

  /** Such a step leaves worker i in the way, and main neither passes the job nor gives up. */
  lemma StillBlocks(c: Config, s: State, step: Step, i: nat)
    requires Inv(c, s) && c.tests > 0 && Blocks(c, s, i) && !s.main.Exited? && Possible(c, step) && Spares(step, i)
    ensures var t := Next(c, s, step); Blocks(c, t, i) && !t.main.Exited? && Round(t) == Round(s)
  {
    assert WorkerOk(c, s, i);
    JobsDiffer(c, Round(s));
    if s.main.j < c.workers { assert WorkerOk(c, s, s.main.j); }
  }

  /** When no spared step does anything, nothing does. */
  lemma DrainedIsStuck(c: Config, s: State, i: nat)
    requires Inv(c, s) && c.tests > 0 && Blocks(c, s, i) && !s.main.Exited?
    requires forall step | Possible(c, step) && Spares(step, i) :: Next(c, s, step) == s
    ensures Stuck(c, s)
  {
    assert Next(c, s, Main) == s;
    assert s.main.Poll? && s.main.j < c.workers;
    JobsDiffer(c, Round(s));
    forall step | Possible(c, step)
      ensures Next(c, s, step) == s
    {
      if step.Worker? {
        assert WorkerOk(c, s, step.i);
        if step.i != i { assert Next(c, s, Worker(step.i, true)) == s; }
      }
    }
  }

  /** After any schedule, letting everyone else run on as far as possible ends in a deadlock. */
  lemma {:induction false} Drain(c: Config, s: State, done: seq<Step>, i: nat) returns (steps: seq<Step>)
    requires Inv(c, s) && c.tests > 0 && Schedule(c, done)
    requires Inv(c, From(c, s, done)) && Blocks(c, From(c, s, done), i) && !From(c, s, done).main.Exited?
    ensures Schedule(c, steps) && Deadlocked(c, From(c, s, steps))
    decreases Work(c, From(c, s, done))
  {
    var t := From(c, s, done);
    if step :| Possible(c, step) && Spares(step, i) && Next(c, t, step) != t {
      StillBlocks(c, t, step, i);
      EveryStepCounts(c, t, step);
      OneLast(c, s, done, step);
      RunKeepsInv(c, s, done + [step]);
      steps := Drain(c, s, done + [step], i);
    } else {
      DrainedIsStuck(c, t, i);
      steps := done;
    }
  }

  /** From a state of a run, a deadlock lies ahead exactly if some worker has not seen -2 and none in front of it has
      failed. If one has, main comes to that one first and gives up. */
  lemma DeadlockExactly(c: Config, s: State)
    requires Inv(c, s) && c.tests > 0 && !s.main.Exited?
    ensures CanDeadlock(c, s) <==> exists i: nat :: Blocks(c, s, i)
  {
    if CanDeadlock(c, s) {
      var steps :| Schedule(c, steps) && Deadlocked(c, From(c, s, steps));
      var i := DeadlockNeedsBlocker(c, s, steps);
    }
    if i: nat :| Blocks(c, s, i) {
      var steps := Drain(c, s, [], i);
    }
  }
}
