/** When MemTester's barrier moves: which states are stuck, how long a round can take, and why the
    barrier needs at least one test. */
module MemTesterProgress {
  import opened Common
  import opened MemTesterProtocol

  // ---- Runs ----

  lemma StartIsReachable(c: Config)
    ensures Reachable(c, Initial(c))
  {
    assert Schedule(c, []) && From(c, Initial(c), []) == Initial(c);
  }

  lemma OneMore(c: Config, s: State, step: Step)
    requires Reachable(c, s) && Shape(c, s) && Possible(c, step)
    ensures Reachable(c, Next(c, s, step))
  {
    var steps :| Schedule(c, steps) && From(c, Initial(c), steps) == s;
    var all := steps + [step];
    assert all[..|all| - 1] == steps;
    assert Schedule(c, all) && From(c, Initial(c), all) == Next(c, s, step);
  }

  /** Main has made the first n workers ready, and no worker has looked yet. */
  function ReadyUpTo(c: Config, n: nat): (s: State)
    requires n <= c.workers
    ensures Shape(c, s)
  {
    Initial(c).(main := SetReady(n), jobIds := seq(c.workers, i => if i < n then READY else 0))
  }

  /** Main has gone on to publish the first job to the first m workers. */
  function CalledUpTo(c: Config, m: nat): (s: State)
    requires m <= c.workers
    ensures Shape(c, s)
  {
    Initial(c).(main := SetJob(STUCK_ADDRESS, m), jobIds := seq(c.workers, i => if i < m then STUCK_ADDRESS else READY))
  }

  lemma {:induction false} MainMakesReady(c: Config, n: nat)
    requires n <= c.workers
    ensures Reachable(c, ReadyUpTo(c, n))
  {
    if n == 0 {
      StartIsReachable(c);
      assert ReadyUpTo(c, 0) == Initial(c);
    } else {
      MainMakesReady(c, n - 1);
      OneMore(c, ReadyUpTo(c, n - 1), Main);
      assert Next(c, ReadyUpTo(c, n - 1), Main).jobIds == ReadyUpTo(c, n).jobIds;
    }
  }

  lemma {:induction false} MainCalls(c: Config, m: nat)
    requires m <= c.workers
    ensures Reachable(c, CalledUpTo(c, m))
  {
    if m == 0 {
      MainMakesReady(c, c.workers);
      OneMore(c, ReadyUpTo(c, c.workers), Main);
      assert Next(c, ReadyUpTo(c, c.workers), Main).jobIds == CalledUpTo(c, 0).jobIds;
    } else {
      MainCalls(c, m - 1);
      OneMore(c, CalledUpTo(c, m - 1), Main);
      assert Next(c, CalledUpTo(c, m - 1), Main).jobIds == CalledUpTo(c, m).jobIds;
    }
  }

  // ---- The barrier needs a test ----

  /** Without tests the published job stays at -1, and a worker runs its next stuck-address test
      although main has not taken the report of the first. */
  lemma NoTestsBreakLockStep(c: Config) returns (s: State)
    requires c.tests == 0 && c.workers > 0
    ensures Reachable(c, s) && Shape(c, s) && !LockStep(c, s)
  {
    MainCalls(c, 0);
    s := CalledUpTo(c, 0);
    OneMore(c, s, Worker(0, true));
    s := WorkerNext(c, s, 0, true);
    OneMore(c, s, Main);
    s := MainNext(c, s);
    assert s.workers[0] == WaitJob(STUCK_ADDRESS) && s.jobIds[0] == STUCK_ADDRESS;
    s := RunsAgain(c, s);
    assert !InStep(c, s, 0, 0);
  }

  lemma RunsAgain(c: Config, s: State) returns (t: State)
    requires c.tests == 0 && c.workers > 0 && Shape(c, s) && Reachable(c, s)
    requires s.workers[0] == WaitJob(STUCK_ADDRESS) && s.jobIds[0] == STUCK_ADDRESS && s.consumed[0] == 0 && s.logs[0] == []
    ensures Reachable(c, t) && Shape(c, t) && t.workers[0].Run? && |t.logs[0]| == 1 && t.consumed[0] == 0
  {
    OneMore(c, s, Worker(0, true));
    t := WorkerNext(c, s, 0, true);
    OneMore(c, t, Worker(0, true));
    t := WorkerNext(c, t, 0, true);
    OneMore(c, t, Worker(0, true));
    t := WorkerNext(c, t, 0, true);
  }

  /** Exactly when there is a test, or no worker, does every run stay in lock-step. */
  lemma LockStepExactly(c: Config)
    ensures (forall s | Reachable(c, s) && Shape(c, s) :: LockStep(c, s)) <==> c.tests > 0 || c.workers == 0
  {
    if c.tests > 0 {
      forall s | Reachable(c, s) && Shape(c, s)
        ensures LockStep(c, s)
      {
        ReachableInv(c, s);
        WorkersInLockStep(c, s);
      }
    } else if c.workers > 0 {
      var s := NoTestsBreakLockStep(c);
    }
  }

  // ---- Stuck states ----

  /** No step of any thread changes anything. */
  ghost predicate Stuck(c: Config, s: State)
    requires Shape(c, s)
  {
    forall step | Possible(c, step) :: Next(c, s, step) == s
  }

  /** Worker i has not seen -2, and never will: main has gone on to -1. */
  ghost predicate Missed(c: Config, s: State, i: nat)
    requires Shape(c, s) && i < c.workers
  {
    s.workers[i] == WaitReady && s.jobIds[i] == STUCK_ADDRESS
  }

  /** A run that has not ended is stuck only when main waits, in the first round, for a worker that missed -2. */
  lemma StuckMeansMissed(c: Config, s: State)
    requires Inv(c, s) && c.tests > 0 && Stuck(c, s) && !s.main.Exited?
    ensures s.main.Poll? && s.main.j < c.workers && Missed(c, s, s.main.j) && s.passed == []
  {
    assert Next(c, s, Main) == s;
    var j := s.main.j;
    assert s.main.Poll? && j < c.workers;
    assert WorkerOk(c, s, j);
    JobsDiffer(c, Round(s));
    assert Next(c, s, Worker(j, true)) == s;
  }

  /** If no worker has missed -2, some step is possible. */
  lemma Progress(c: Config, s: State)
    requires Inv(c, s) && c.tests > 0 && !s.main.Exited?
    requires forall i | 0 <= i < c.workers :: !Missed(c, s, i)
    ensures exists step :: Possible(c, step) && Next(c, s, step) != s
  {
    if Stuck(c, s) { StuckMeansMissed(c, s); }
  }

  /** Once every worker has seen -2, a run goes on until main exits. */
  lemma NeverStuckOnceObserved(c: Config, s: State, steps: seq<Step>)
    requires Inv(c, s) && c.tests > 0 && Schedule(c, steps) && AllObserved(c, s)
    ensures var t := From(c, s, steps); t.main.Exited? || exists step :: Possible(c, step) && Next(c, t, step) != t
  {
    RunKeepsInv(c, s, steps);
    StillObserved(c, s, steps);
    if !From(c, s, steps).main.Exited? { Progress(c, From(c, s, steps)); }
  }

  ghost predicate AllObserved(c: Config, s: State)
    requires Shape(c, s)
  {
    forall i | 0 <= i < c.workers :: s.workers[i] != WaitReady
  }

  lemma {:induction false} StillObserved(c: Config, s: State, steps: seq<Step>)
    requires Shape(c, s) && Schedule(c, steps) && AllObserved(c, s)
    ensures AllObserved(c, From(c, s, steps))
  {
    if steps != [] { StillObserved(c, s, steps[..|steps| - 1]); }
  }

  /** A worker that has missed -2 stays behind for good, and main never passes a job. */
  lemma MissedStaysMissed(c: Config, s: State, step: Step, i: nat)
    requires Inv(c, s) && c.tests > 0 && Possible(c, step) && i < c.workers && Missed(c, s, i)
    ensures Missed(c, Next(c, s, step), i) && Next(c, s, step).passed == []
  {
    assert WorkerOk(c, s, i);
    JobsDiffer(c, Round(s));
  }

  lemma {:induction false} MissedForever(c: Config, s: State, steps: seq<Step>, i: nat)
    requires Inv(c, s) && c.tests > 0 && Schedule(c, steps) && i < c.workers && Missed(c, s, i)
    ensures Missed(c, From(c, s, steps), i) && From(c, s, steps).passed == []
  {
    if steps == [] {
      assert WorkerOk(c, s, i);
    } else {
      var front := steps[..|steps| - 1];
      MissedForever(c, s, front, i);
      RunKeepsInv(c, s, front);
      MissedStaysMissed(c, From(c, s, front), steps[|steps| - 1], i);
    }
  }

  /** Whatever the workers and tests, there is such a run: main is through with -2 before any worker looks. */
  lemma CanGetStuck(c: Config) returns (s: State)
    requires c.workers > 0
    ensures Reachable(c, s) && Shape(c, s) && Stuck(c, s) && s.main == Poll(STUCK_ADDRESS, 0)
    ensures forall i | 0 <= i < c.workers :: Missed(c, s, i)
  {
    MainCalls(c, c.workers);
    OneMore(c, CalledUpTo(c, c.workers), Main);
    s := MainNext(c, CalledUpTo(c, c.workers));
    forall step | Possible(c, step)
      ensures Next(c, s, step) == s
    {
    }
  }

  // ---- Rounds end ----

  lemma {:induction false} SumOfChange(f: seq<nat>, g: seq<nat>, i: nat)
    requires |f| == |g| && i < |f| && (forall k | 0 <= k < |f| && k != i :: g[k] == f[k])
    ensures Sum(g) == Sum(f) + g[i] - f[i]
  {
    var n := |f| - 1;
    if i == n {
      assert f[..n] == g[..n];
    } else {
      SumOfChange(f[..n], g[..n], i);
    }
  }

  lemma {:induction false} SumBounded(f: seq<nat>, max: nat)
    requires forall k | 0 <= k < |f| :: f[k] <= max
    ensures Sum(f) <= |f| * max
  {
    if f != [] { SumBounded(f[..|f| - 1], max); }
  }

  /** Steps main has left in this round, apart from polls that find nothing. */
  function MainWork(c: Config, s: State): nat
    requires Shape(c, s)
  {
    var n := c.workers;
    match s.main
    case SetReady(j) => (n - j + 1) + (n + 1) + (2 * n + 1)
    case SetJob(_, j) => (n - j + 1) + (2 * n + 1)
    case Poll(_, j) => 2 * (n - j) + 1
    case Clear(_, j) => 2 * (n - j)
    case Exited(_, _) => 0
  }

  /** Steps worker i has left before it can only wait for the next round. */
  function WorkerWork(c: Config, s: State, i: nat): (w: nat)
    requires Shape(c, s) && i < c.workers
    ensures w <= 3
  {
    if s.workers[i] == WaitReady then 3 else if |s.logs[i]| > Round(s) then 0 else if s.workers[i].Run? then 1 else 2
  }

  function WorkerWorks(c: Config, s: State, n: nat): (f: seq<nat>)
    requires Shape(c, s) && n <= c.workers
    ensures |f| == n && forall i | 0 <= i < n :: f[i] == WorkerWork(c, s, i)
  {
    if n == 0 then [] else WorkerWorks(c, s, n - 1) + [WorkerWork(c, s, n - 1)]
  }

  /** The steps left in this round. */
  function Work(c: Config, s: State): nat
    requires Shape(c, s)
  {
    MainWork(c, s) + Sum(WorkerWorks(c, s, c.workers))
  }

  lemma WorkIsBounded(c: Config, s: State)
    requires Shape(c, s)
    ensures Work(c, s) <= 7 * c.workers + 3
  {
    SumBounded(WorkerWorks(c, s, c.workers), 3);
  }

  lemma MainStepCounts(c: Config, s: State)
    requires Inv(c, s) && c.tests > 0 && MainNext(c, s) != s
    ensures var t := MainNext(c, s); Round(t) == Round(s) + 1 || (Round(t) == Round(s) && Work(c, t) < Work(c, s))
  {
    var t := MainNext(c, s);
    if Round(t) == Round(s) { assert WorkerWorks(c, t, c.workers) == WorkerWorks(c, s, c.workers); }
  }

  lemma WorkerStepCounts(c: Config, s: State, i: nat, passes: bool)
    requires Inv(c, s) && c.tests > 0 && i < c.workers && WorkerNext(c, s, i, passes) != s
    ensures var t := WorkerNext(c, s, i, passes); Round(t) == Round(s) && Work(c, t) < Work(c, s)
  {
    var t := WorkerNext(c, s, i, passes);
    assert WorkerOk(c, s, i);
    JobsDiffer(c, Round(s));
    assert WorkerWork(c, t, i) < WorkerWork(c, s, i);
    SumOfChange(WorkerWorks(c, s, c.workers), WorkerWorks(c, t, c.workers), i);
  }

  /** Every step that changes anything ends the round or leaves less of it. */
  lemma EveryStepCounts(c: Config, s: State, step: Step)
    requires Inv(c, s) && c.tests > 0 && Possible(c, step) && Next(c, s, step) != s
    ensures var t := Next(c, s, step); Round(t) == Round(s) + 1 || (Round(t) == Round(s) && Work(c, t) < Work(c, s))
  {
    match step
    case Main => MainStepCounts(c, s);
    case Worker(i, passes) => WorkerStepCounts(c, s, i, passes);
  }

  /** Each step of the schedule changes something. */
  ghost predicate Effective(c: Config, s: State, steps: seq<Step>)
    requires Shape(c, s) && Schedule(c, steps)
  {
    forall n | 0 <= n < |steps| :: From(c, s, steps[..n + 1]) != From(c, s, steps[..n])
  }

  /** However the threads interleave, main passes a job within every 7N + 4 steps that change anything. */
  lemma RoundsEnd(c: Config, s: State, steps: seq<Step>)
    requires Inv(c, s) && c.tests > 0 && Schedule(c, steps) && Effective(c, s, steps)
    requires |steps| > 7 * c.workers + 3
    ensures Round(From(c, s, steps)) > Round(s)
  {
    WorkIsBounded(c, s);
    StepsAreCounted(c, s, steps);
  }

  lemma {:induction false} StepsAreCounted(c: Config, s: State, steps: seq<Step>)
    requires Inv(c, s) && c.tests > 0 && Schedule(c, steps) && Effective(c, s, steps)
    ensures var t := From(c, s, steps);
            Round(t) > Round(s) || (Round(t) == Round(s) && Work(c, t) + |steps| <= Work(c, s))
  {
    if steps != [] {
      var n := |steps| - 1;
      var front := steps[..n];
      assert forall k | 0 <= k <= n :: front[..k] == steps[..k];
      StepsAreCounted(c, s, front);
      RunKeepsInv(c, s, front);
      assert steps[..n + 1] == steps;
      EveryStepCounts(c, From(c, s, front), steps[n]);
    }
  }
}
