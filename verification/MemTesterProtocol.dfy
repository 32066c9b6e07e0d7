/** The hand-made barrier between MemTester's main loop and its workers, as interleaved steps over the two shared
    arrays: testJobId, which main writes and the workers poll, and testWorkerReport, which the workers write and
    main polls and clears. Each read and each write of a shared word is a step of its own. */
module MemTesterProtocol {

  const READY: int := -2
  const STUCK_ADDRESS: int := -1

  /** Any number of workers; `tests` is the length of the selected test table. */
  datatype Config = Config(workers: nat, tests: nat)

  datatype WorkerAt = WaitReady | WaitJob(job: int) | Run(job: int) | Returned

  /** Main is about to handle worker `j`; the last two hold the report it has just read. */
  datatype MainAt =
    | SetReady(j: nat) | SetJob(job: int, j: nat) | Poll(job: int, j: nat)
    | Clear(job: int, j: nat) | Exited(job: int, j: nat)

  /** One finished call of a test by a worker. */
  datatype Entry = Entry(job: int, passed: bool)

  /** The shared arrays, the program counters, and the history: each worker's finished calls, how many
      success reports main has taken from each worker, and the jobs main has declared passed. */
  datatype State = State(
    main: MainAt, workers: seq<WorkerAt>, jobIds: seq<int>, reports: seq<int>,
    logs: seq<seq<Entry>>, consumed: seq<nat>, passed: seq<int>)

  datatype Step = Main | Worker(i: nat, testPasses: bool)

  function Initial(c: Config): State {
    var n := c.workers;
    State(SetReady(0), seq(n, i => WaitReady), seq(n, i => 0), seq(n, i => 0), seq(n, i => []), seq(n, i => 0), [])
  }

  predicate Shape(c: Config, s: State) {
    && |s.workers| == |s.jobIds| == |s.reports| == |s.logs| == |s.consumed| == c.workers
    && s.main.j <= c.workers && (s.main.Clear? || s.main.Exited? ==> s.main.j < c.workers)
  }

  /** The worker's own count: the job behind the last test is the stuck-address test of the next loop. */
  function NextJob(c: Config, job: int): int { if job + 1 < c.tests then job + 1 else STUCK_ADDRESS }

  /** One step of the main thread; a poll that finds no report changes nothing. */
  function MainNext(c: Config, s: State): (t: State)
    requires Shape(c, s)
    ensures Shape(c, t)
  {
    match s.main
    case SetReady(j) =>
      if j < c.workers then s.(jobIds := s.jobIds[j := READY], main := SetReady(j + 1))
      else s.(main := SetJob(STUCK_ADDRESS, 0))
    case SetJob(k, j) =>
      if j < c.workers then s.(jobIds := s.jobIds[j := k], main := SetJob(k, j + 1))
      else s.(main := Poll(k, 0))
    case Poll(k, j) =>
      if j == c.workers then s.(passed := s.passed + [k], main := if k + 1 < c.tests then SetJob(k + 1, 0) else SetReady(0))
      else if s.reports[j] == -1 then s.(main := Exited(k, j))
      else if s.reports[j] == 1 then s.(main := Clear(k, j))
      else s
    case Clear(k, j) =>
      s.(reports := s.reports[j := 0], consumed := s.consumed[j := s.consumed[j] + 1], main := Poll(k, j + 1))
    case Exited(_, _) => s
  }

  /** One step of worker `i`; `passes` is what its test returns, if it is running one. */
  function WorkerNext(c: Config, s: State, i: nat, passes: bool): (t: State)
    requires Shape(c, s) && i < c.workers
    ensures Shape(c, t)
  {
    match s.workers[i]
    case WaitReady => if s.jobIds[i] == READY then s.(workers := s.workers[i := WaitJob(STUCK_ADDRESS)]) else s
    case WaitJob(k) => if s.jobIds[i] == k then s.(workers := s.workers[i := Run(k)]) else s
    case Run(k) =>
      s.(reports := s.reports[i := if passes then 1 else -1],
         workers := s.workers[i := if passes then WaitJob(NextJob(c, k)) else Returned],
         logs := s.logs[i := s.logs[i] + [Entry(k, passes)]])
    case Returned => s
  }

  /** The words that are exchanged: main announces a loop with -2 and then publishes the numbers of the jobs, and a worker
      that waits goes on only when it sees -2, or its own next job. */
  lemma Handshake(c: Config, s: State, i: nat, passes: bool)
    requires Shape(c, s) && i < c.workers
    ensures s.main.SetReady? && s.main.j == i ==> MainNext(c, s).jobIds[i] == -2
    ensures s.main.SetJob? && s.main.j == i ==> MainNext(c, s).jobIds[i] == s.main.job
    ensures s.workers[i] == WaitReady ==> WorkerNext(c, s, i, passes).workers[i] == if s.jobIds[i] == -2 then WaitJob(-1) else WaitReady
    ensures s.workers[i].WaitJob? ==>
              WorkerNext(c, s, i, passes).workers[i] == if s.jobIds[i] == s.workers[i].job then Run(s.jobIds[i]) else s.workers[i]
    ensures s.workers[i].Run? ==> WorkerNext(c, s, i, passes).reports[i] == if passes then 1 else -1
  {
  }

  predicate Possible(c: Config, step: Step) { step.Worker? ==> step.i < c.workers }

  function Next(c: Config, s: State, step: Step): (t: State)
    requires Shape(c, s) && Possible(c, step)
    ensures Shape(c, t)
  {
    match step
    case Main => MainNext(c, s)
    case Worker(i, passes) => WorkerNext(c, s, i, passes)
  }

  ghost predicate Schedule(c: Config, steps: seq<Step>) { forall n | 0 <= n < |steps| :: Possible(c, steps[n]) }

  /** The state a schedule leads to. */
  function From(c: Config, s: State, steps: seq<Step>): (t: State)
    requires Shape(c, s) && Schedule(c, steps)
    ensures Shape(c, t)
  {
    if steps == [] then s else Next(c, From(c, s, steps[..|steps| - 1]), steps[|steps| - 1])
  }

  ghost predicate Reachable(c: Config, s: State) {
    exists steps | Schedule(c, steps) :: From(c, Initial(c), steps) == s
  }

  // ---- Rounds ----

  /** The job of the r-th round: the stuck-address test, the tests in order, and again. */
  function JobOf(c: Config, r: nat): (k: int)
    ensures STUCK_ADDRESS <= k < c.tests
  {
    if r == 0 then STUCK_ADDRESS else NextJob(c, JobOf(c, r - 1))
  }

  /** In numbers: -1, 0, .., tests - 1, and again. */
  lemma {:induction false} JobOfExactly(c: Config, r: nat)
    ensures JobOf(c, r) == r % (c.tests + 1) - 1
  {
    if r == 0 {
      SmallRemainder(0, c.tests + 1);
    } else {
      JobOfExactly(c, r - 1);
      NextRemainder(r - 1, c.tests + 1);
    }
  }

  lemma SmallRemainder(r: nat, m: nat)
    requires r < m
    ensures r % m == r
  {
  }

  lemma NextRemainder(r: nat, m: nat)
    requires m > 0
    ensures (r + 1) % m == if r % m + 1 < m then r % m + 1 else 0
  {
    var q, s := r / m, r % m;
    assert r == q * m + s;
    if s + 1 < m {
      IsRemainder(r + 1, m, q, s + 1);
    } else {
      assert r + 1 == (q + 1) * m;
      IsRemainder(r + 1, m, q + 1, 0);
    }
  }

  lemma IsRemainder(n: nat, m: nat, q: nat, s: nat)
    requires s < m && n == q * m + s
    ensures n % m == s
  {
    var d := n / m - q;
    assert n == n / m * m + n % m;
    assert n % m == s - d * m;
    if d > 0 {
      AtLeastOnce(d, m);
    } else if d < 0 {
      AtLeastOnce(-d, m);
    }
  }

  lemma AtLeastOnce(d: nat, m: nat)
    requires d > 0
    ensures d * m >= m
  {
  }

  /** `log` is `n` successful calls, one for each of the first n rounds. */
  ghost predicate AllPassed(c: Config, log: seq<Entry>, n: nat) {
    |log| == n && forall r {:trigger log[r]} | 0 <= r < n :: log[r] == Entry(JobOf(c, r), true)
  }

  // ---- The invariant ----

  function Round(s: State): nat { |s.passed| }

  /** Main has taken worker i's report of this round. */
  predicate Taken(s: State, i: nat) { (s.main.Poll? || s.main.Clear? || s.main.Exited?) && i < s.main.j }

  /** Main has published the job of this round to worker i. */
  predicate Called(s: State, i: nat) { (s.main.SetJob? ==> i < s.main.j) && !s.main.SetReady? }

  /** Worker i has not started the job of this round. */
  ghost predicate Waiting(c: Config, s: State, i: nat)
    requires Shape(c, s) && i < c.workers
  {
    && !Taken(s, i) && s.reports[i] == 0 && AllPassed(c, s.logs[i], Round(s))
    && (s.workers[i] == WaitJob(JobOf(c, Round(s))) || (s.workers[i] == WaitReady && Round(s) == 0))
  }

  ghost predicate Running(c: Config, s: State, i: nat)
    requires Shape(c, s) && i < c.workers
  {
    && Called(s, i) && !Taken(s, i) && s.reports[i] == 0 && AllPassed(c, s.logs[i], Round(s))
    && s.workers[i] == Run(JobOf(c, Round(s)))
  }

  ghost predicate Reported(c: Config, s: State, i: nat)
    requires Shape(c, s) && i < c.workers
  {
    && Called(s, i) && !Taken(s, i) && s.reports[i] == 1 && AllPassed(c, s.logs[i], Round(s) + 1)
    && s.workers[i] == WaitJob(JobOf(c, Round(s) + 1))
  }

  ghost predicate Failed(c: Config, s: State, i: nat)
    requires Shape(c, s) && i < c.workers
  {
    && Called(s, i) && !Taken(s, i) && s.reports[i] == -1 && s.workers[i] == Returned
    && |s.logs[i]| == Round(s) + 1 && AllPassed(c, s.logs[i][..Round(s)], Round(s))
    && s.logs[i][Round(s)] == Entry(JobOf(c, Round(s)), false)
  }

  ghost predicate Done(c: Config, s: State, i: nat)
    requires Shape(c, s) && i < c.workers
  {
    && Taken(s, i) && s.reports[i] == 0 && AllPassed(c, s.logs[i], Round(s) + 1)
    && s.workers[i] == WaitJob(JobOf(c, Round(s) + 1))
  }

  ghost predicate WorkerOk(c: Config, s: State, i: nat)
    requires Shape(c, s) && i < c.workers
  {
    && (Waiting(c, s, i) || Running(c, s, i) || Reported(c, s, i) || Failed(c, s, i) || Done(c, s, i))
    && s.consumed[i] == Round(s) + (if Taken(s, i) then 1 else 0)
    && (s.jobIds[i] == JobOf(c, Round(s)) <==> Called(s, i))
  }

  ghost predicate MainOk(c: Config, s: State)
    requires Shape(c, s)
  {
    && (forall r {:trigger s.passed[r]} | 0 <= r < Round(s) :: s.passed[r] == JobOf(c, r))
    && JobOf(c, Round(s)) == (if s.main.SetReady? then STUCK_ADDRESS else s.main.job)
    && (s.main.Clear? ==> Reported(c, s, s.main.j))
    && (s.main.Exited? ==> Failed(c, s, s.main.j))
  }

  ghost predicate Inv(c: Config, s: State) {
    Shape(c, s) && MainOk(c, s) && forall i | 0 <= i < c.workers :: WorkerOk(c, s, i)
  }

  lemma InitInv(c: Config)
    ensures Inv(c, Initial(c))
  {
  }

  lemma JobsDiffer(c: Config, r: nat)
    requires c.tests > 0
    ensures JobOf(c, r + 1) == NextJob(c, JobOf(c, r)) && JobOf(c, r + 1) != JobOf(c, r)
  {
  }

  lemma MainKeepsInv(c: Config, s: State)
    requires Inv(c, s) && c.tests > 0
    ensures Inv(c, MainNext(c, s))
  {
    var t := MainNext(c, s);
    JobsDiffer(c, Round(s));
    assert s.main.j < c.workers ==> WorkerOk(c, s, s.main.j);
    forall i | 0 <= i < c.workers
      ensures WorkerOk(c, t, i)
    {
      assert WorkerOk(c, s, i);
    }
  }

  lemma WorkerKeepsItself(c: Config, s: State, i: nat, passes: bool)
    requires Inv(c, s) && c.tests > 0 && i < c.workers
    ensures WorkerOk(c, WorkerNext(c, s, i, passes), i)
  {
    JobsDiffer(c, Round(s));
    assert WorkerOk(c, s, i);
  }

  lemma WorkerKeepsOthers(c: Config, s: State, i: nat, passes: bool, n: nat)
    requires Inv(c, s) && i < c.workers && n < c.workers && n != i
    ensures WorkerOk(c, WorkerNext(c, s, i, passes), n)
  {
    assert WorkerOk(c, s, n);
  }

  lemma WorkerKeepsMainOk(c: Config, s: State, i: nat, passes: bool)
    requires Inv(c, s) && c.tests > 0 && i < c.workers
    ensures MainOk(c, WorkerNext(c, s, i, passes))
  {
    JobsDiffer(c, Round(s));
    assert WorkerOk(c, s, i);
  }

  lemma WorkerKeepsInv(c: Config, s: State, i: nat, passes: bool)
    requires Inv(c, s) && c.tests > 0 && i < c.workers
    ensures Inv(c, WorkerNext(c, s, i, passes))
  {
    WorkerKeepsMainOk(c, s, i, passes);
    forall n | 0 <= n < c.workers
      ensures WorkerOk(c, WorkerNext(c, s, i, passes), n)
    {
      if n == i { WorkerKeepsItself(c, s, i, passes); } else { WorkerKeepsOthers(c, s, i, passes, n); }
    }
  }

  lemma {:induction false} RunKeepsInv(c: Config, s: State, steps: seq<Step>)
    requires Inv(c, s) && c.tests > 0 && Schedule(c, steps)
    ensures Inv(c, From(c, s, steps))
  {
    if steps != [] {
      RunKeepsInv(c, s, steps[..|steps| - 1]);
      var before, last := From(c, s, steps[..|steps| - 1]), steps[|steps| - 1];
      match last
      case Main => MainKeepsInv(c, before);
      case Worker(i, passes) => WorkerKeepsInv(c, before, i, passes);
    }
  }

  lemma ReachableInv(c: Config, s: State)
    requires Reachable(c, s) && c.tests > 0
    ensures Inv(c, s)
  {
    var steps :| Schedule(c, steps) && From(c, Initial(c), steps) == s;
    InitInv(c);
    RunKeepsInv(c, Initial(c), steps);
  }

  // ---- Safety ----

  /** `job` is number `r` of the jobs -1, 0, .., tests - 1, -1, 0, .. */
  predicate IsJob(c: Config, job: int, r: nat) { job == r % (c.tests + 1) - 1 }

  /** Worker j has succeeded in each of the first n jobs, -1, 0, .., tests - 1 and again, and main has taken the report. */
  ghost predicate Finished(c: Config, s: State, j: nat, n: nat)
    requires Shape(c, s) && j < c.workers
  {
    && n <= s.consumed[j] && n <= |s.logs[j]|
    && forall r {:trigger s.logs[j][r]} | 0 <= r < n :: s.logs[j][r].passed && IsJob(c, s.logs[j][r].job, r)
  }

  /** A worker that runs its n-th job runs the n-th job in order, and all workers have finished the jobs before it. */
  ghost predicate LockStep(c: Config, s: State)
    requires Shape(c, s)
  {
    forall i: nat, j: nat | i < c.workers && j < c.workers :: InStep(c, s, i, j)
  }

  ghost predicate InStep(c: Config, s: State, i: nat, j: nat)
    requires Shape(c, s) && i < c.workers && j < c.workers
  {
    s.workers[i].Run? ==> IsJob(c, s.workers[i].job, |s.logs[i]|) && Finished(c, s, j, |s.logs[i]|)
  }

  lemma WorkersInLockStep(c: Config, s: State)
    requires Inv(c, s)
    ensures LockStep(c, s)
  {
    forall i: nat, j: nat | i < c.workers && j < c.workers
      ensures InStep(c, s, i, j)
    {
      if s.workers[i].Run? { RunningInOrder(c, s, i, j); }
    }
  }

  lemma RunningInOrder(c: Config, s: State, i: nat, j: nat)
    requires Inv(c, s) && i < c.workers && j < c.workers && s.workers[i].Run?
    ensures InStep(c, s, i, j)
  {
    assert WorkerOk(c, s, i) && WorkerOk(c, s, j);
    JobOfExactly(c, |s.logs[i]|);
    forall r {:trigger s.logs[j][r]} | 0 <= r < |s.logs[i]|
      ensures s.logs[j][r].passed && IsJob(c, s.logs[j][r].job, r)
    {
      JobOfExactly(c, r);
    }
  }

  /** In numbers. */
  lemma LockStepMeans(c: Config, s: State, i: nat, j: nat, r: nat)
    requires Shape(c, s) && LockStep(c, s) && i < c.workers && j < c.workers && s.workers[i].Run? && r < |s.logs[i]|
    ensures s.workers[i].job == |s.logs[i]| % (c.tests + 1) - 1
    ensures r < s.consumed[j] && r < |s.logs[j]| && s.logs[j][r] == Entry(r % (c.tests + 1) - 1, true)
  {
    assert InStep(c, s, i, j);
  }

  function Successes(log: seq<Entry>): nat {
    if log == [] then 0 else Successes(log[..|log| - 1]) + if log[|log| - 1].passed then 1 else 0
  }

  lemma {:induction false} AllAreSuccesses(c: Config, log: seq<Entry>, n: nat)
    requires AllPassed(c, log, n)
    ensures Successes(log) == n
  {
    if n > 0 { AllAreSuccesses(c, log[..n - 1], n - 1); }
  }

  /** No report is lost and none is counted twice: each success of a worker has been taken by main, or is waiting to be. */
  lemma ReportsAreConserved(c: Config, s: State, i: nat)
    requires Inv(c, s) && i < c.workers
    ensures Successes(s.logs[i]) == s.consumed[i] + if s.reports[i] == 1 then 1 else 0
  {
    assert WorkerOk(c, s, i);
    if Failed(c, s, i) {
      AllAreSuccesses(c, s.logs[i][..Round(s)], Round(s));
    } else {
      AllAreSuccesses(c, s.logs[i], |s.logs[i]|);
    }
  }

  /** The jobs main has passed are the jobs in order, and every worker returned 0 for each of them, in that very round. */
  lemma PassedMeansAllReturnedZero(c: Config, s: State, r: nat, i: nat)
    requires Inv(c, s) && r < |s.passed| && i < c.workers
    ensures s.passed[r] == r % (c.tests + 1) - 1 && r < |s.logs[i]| && s.logs[i][r] == Entry(s.passed[r], true)
  {
    assert WorkerOk(c, s, i);
    JobOfExactly(c, r);
    if Failed(c, s, i) { assert s.logs[i][..Round(s)][r] == s.logs[i][r]; }
  }

  /** Whenever main starts a loop, what it has passed so far are whole loops. */
  lemma LoopsAreWhole(c: Config, s: State)
    requires Inv(c, s) && s.main.SetReady?
    ensures |s.passed| % (c.tests + 1) == 0
  {
    JobOfExactly(c, Round(s));
  }

  /** Each of those, from any start on, is -1, 0, .., tests - 1, in that order. */
  lemma LoopsAreComplete(c: Config, s: State, start: nat, k: nat)
    requires Inv(c, s) && s.main.SetReady? && start % (c.tests + 1) == 0 && start < |s.passed| && k <= c.tests
    ensures start + k < |s.passed| && s.passed[start + k] == k - 1
  {
    LoopsAreWhole(c, s);
    WholeLoops(start, |s.passed|, c.tests + 1);
    JobOfExactly(c, start + k);
    PlaceInLoop(start, k, c.tests + 1);
  }

  lemma PlaceInLoop(start: nat, k: nat, m: nat)
    requires k < m && start % m == 0
    ensures (start + k) % m == k
  {
    assert start == start / m * m;
    IsRemainder(start + k, m, start / m, k);
  }

  lemma WholeLoops(start: nat, n: nat, m: nat)
    requires m > 0 && start % m == 0 && n % m == 0 && start < n
    ensures start + m <= n
  {
    var d := n / m - start / m;
    Division(start, m);
    Division(n, m);
    Difference(n / m, start / m, m);
    if d > 0 { AtLeastOnce(d, m); } else { NoMultiple(d, m); }
  }

  lemma Division(n: nat, m: nat)
    requires m > 0
    ensures n == n / m * m + n % m
  {
  }

  lemma Difference(a: nat, b: nat, m: nat)
    ensures a * m - b * m == (a - b) * m
  {
  }

  lemma NoMultiple(d: int, m: nat)
    requires d <= 0
    ensures d * m <= 0
  {
  }

  /** Inside a loop, main is at the job whose number follows from how many it has passed. */
  lemma CurrentJob(c: Config, s: State)
    requires Inv(c, s) && !s.main.SetReady?
    ensures s.main.job == |s.passed| % (c.tests + 1) - 1
  {
    JobOfExactly(c, Round(s));
  }

  /** When main gives up, the worker it names failed the job main was waiting for. */
  lemma ExitMeansFailure(c: Config, s: State)
    requires Inv(c, s) && s.main.Exited?
    ensures s.workers[s.main.j] == Returned && s.logs[s.main.j][|s.passed|..] == [Entry(s.main.job, false)]
    ensures s.main.job == |s.passed| % (c.tests + 1) - 1
  {
    CurrentJob(c, s);
  }
}
