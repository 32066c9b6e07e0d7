/** What the start gate guarantees over whole runs, however the threads interleave and however often
    a wait ends for no reason. */
module StartGateRuns {
  import opened StartGate

  lemma MainWakingKeepsInv(n: nat, s: State)
    requires Inv(n, s) && s.main == WaitReady
    ensures Inv(n, s.(main := RelockReady))
  {
    var t := s.(main := RelockReady);
    forall i | 0 <= i < n
      ensures WorkerOk(n, t, i)
    {
      assert WorkerOk(n, s, i);
    }
  }

  lemma WorkerWakingKeepsInv(n: nat, s: State, i: nat)
    requires Inv(n, s) && i < n && s.workers[i] == WaitStart
    ensures Inv(n, Moved(s, i, RelockStart))
  {
    var t := Moved(s, i, RelockStart);
    assert WorkerOk(n, s, i);
    CountAfterMove(s.workers, i, RelockStart);
    forall k | 0 <= k < n
      ensures WorkerOk(n, t, k)
    {
      assert WorkerOk(n, s, k);
    }
  }

  lemma StepKeepsInv(n: nat, s: State, step: Step)
    requires Inv(n, s) && Possible(n, step)
    ensures Inv(n, Next(n, s, step))
  {
    match step
    case MainRuns => MainKeepsInv(n, s);
    case WorkerRuns(i) => WorkerKeepsInv(n, s, i);
    case MainWakes => if s.main == WaitReady { MainWakingKeepsInv(n, s); }
    case WorkerWakes(i) => if s.workers[i] == WaitStart { WorkerWakingKeepsInv(n, s, i); }
  }

  ghost predicate Schedule(n: nat, steps: seq<Step>) { forall k | 0 <= k < |steps| :: Possible(n, steps[k]) }

  /** The state after a schedule. */
  ghost function From(n: nat, s: State, steps: seq<Step>): (t: State)
    requires Inv(n, s) && Schedule(n, steps)
    ensures Inv(n, t)
  {
    if steps == [] then s
    else
      var before := From(n, s, steps[..|steps| - 1]);
      StepKeepsInv(n, before, steps[|steps| - 1]);
      Next(n, before, steps[|steps| - 1])
  }

  // ---- Safety ----

  ghost function AfterStart(n: nat, steps: seq<Step>): (s: State)
    requires Schedule(n, steps)
    ensures Inv(n, s)
  {
    StartInv(n);
    From(n, Start(n), steps)
  }

  /** Nothing a worker has read, or is about to read, is left over from an earlier round: main has filled it in and has
      opened the gate.  It reads field after field, and has read all four when it starts its work. */
  lemma NoStaleRead(n: nat, steps: seq<Step>, i: nat)
    requires Schedule(n, steps) && i < n && AfterStart(n, steps).main != Init
    ensures var s := AfterStart(n, steps);
            && (forall f: nat | f < |s.seen[i]| :: s.seen[i][f] == Field(f, s.round))
            && (s.workers[i].Read? ==>
                  var f := s.workers[i].field; s.started && |s.seen[i]| == f && s.data[i][f] == Field(f, s.round))
            && (s.workers[i] == Work || s.workers[i] == Finished ==> |s.seen[i]| == 4)
  {
    var s := AfterStart(n, steps);
    assert WorkerOk(n, s, i);
  }

  /** When parallel_init has returned, every worker has checked in. */
  lemma AllHaveCheckedIn(n: nat, steps: seq<Step>, i: nat)
    requires Schedule(n, steps) && i < n && Phase(AfterStart(n, steps).main) >= 3
    ensures !Pending(AfterStart(n, steps).workers[i])
  {
    AllCounted(AfterStart(n, steps).workers);
  }

  /** At most one thread is inside the mutex. */
  lemma MutualExclusion(n: nat, steps: seq<Step>, i: nat, k: nat)
    requires Schedule(n, steps) && i < n && k < n && InsideLock(AfterStart(n, steps).workers[i])
    ensures !MainInsideLock(AfterStart(n, steps).main)
    ensures InsideLock(AfterStart(n, steps).workers[k]) ==> i == k
  {
    assert WorkerOk(n, AfterStart(n, steps), i) && WorkerOk(n, AfterStart(n, steps), k);
  }

  // ---- No deadlock ----

  /** Some thread can run, without being woken for no reason. */
  ghost predicate CanRun(n: nat, s: State)
    requires Shape(n, s)
  {
    MainNext(n, s) != s || exists i | 0 <= i < n :: WorkerNext(n, s, i) != s
  }

  lemma HolderRuns(n: nat, s: State)
    requires Inv(n, s) && s.holder != Free
    ensures CanRun(n, s)
  {
    if s.holder.WorkerHolds? {
      var i := s.holder.i;
      assert WorkerOk(n, s, i);
      assert WorkerNext(n, s, i).workers[i] != s.workers[i];
    }
  }

  /** While main waits for the workers, one of them has yet to check in and can. */
  lemma WaitingForWorkers(n: nat, s: State)
    requires Inv(n, s) && s.holder == Free && s.main == WaitReady
    ensures CanRun(n, s)
  {
    AllCounted(s.workers);
    var i :| 0 <= i < n && Pending(s.workers[i]);
    assert WorkerOk(n, s, i);
    assert WorkerNext(n, s, i).workers[i] != s.workers[i];
  }

  /** While main joins a worker, that worker is not waiting for the gate. */
  lemma JoiningWorker(n: nat, s: State)
    requires Inv(n, s) && s.holder == Free && s.main.Join? && s.main.i < n && s.workers[s.main.i] != Finished
    ensures CanRun(n, s)
  {
    var i := s.main.i;
    AllCounted(s.workers);
    assert WorkerOk(n, s, i);
    assert WorkerNext(n, s, i).workers[i] != s.workers[i];
  }

  /** No wakeup is lost: in every state of every run some thread can go on. */
  lemma NoDeadlock(n: nat, steps: seq<Step>)
    requires Schedule(n, steps)
    ensures CanRun(n, AfterStart(n, steps))
    ensures exists step :: Possible(n, step) && !step.MainWakes? && !step.WorkerWakes? && Effect(n, AfterStart(n, steps), step)
  {
    SomeoneRuns(n, steps);
    var s := AfterStart(n, steps);
    if MainNext(n, s) != s {
      assert Effect(n, s, MainRuns);
    } else {
      var i :| 0 <= i < n && WorkerNext(n, s, i) != s;
      assert Effect(n, s, WorkerRuns(i));
    }
  }

  /** The step changes something. */
  predicate Effect(n: nat, s: State, step: Step)
    requires Shape(n, s) && Possible(n, step)
  {
    Next(n, s, step) != s
  }

  lemma SomeoneRuns(n: nat, steps: seq<Step>)
    requires Schedule(n, steps)
    ensures CanRun(n, AfterStart(n, steps))
  {
    var s := AfterStart(n, steps);
    if s.holder != Free {
      HolderRuns(n, s);
    } else if s.main == WaitReady {
      WaitingForWorkers(n, s);
    } else if s.main.Join? && s.main.i < n && s.workers[s.main.i] != Finished {
      JoiningWorker(n, s);
    } else {
      assert MainNext(n, s).main != s.main;
    }
  }

  // ---- Rounds end ----

  /** Steps worker `w` has left in this round; being woken without need costs two. */
  function WorkerWork(w: WorkerAt): nat {
    match w
    case NotCreated => 12
    case Lock => 12
    case Decrement => 11
    case Signal => 10
    case CheckStart => 7
    case WaitStart => 6
    case RelockStart => 8
    case UnlockStart => 6
    case Read(f) => if f < FIELDS then 5 - f else 1
    case Work => 1
    case Finished => 0
  }

  function WorkersWork(w: seq<WorkerAt>): (k: nat)
    ensures k <= 12 * |w|
  {
    if w == [] then 0 else WorkersWork(w[..|w| - 1]) + WorkerWork(w[|w| - 1])
  }

  function MainWork(n: nat, m: MainAt): int {
    match m
    case Init => 8 * n + 11
    case Create(i) => 7 * n + 10 + (n - i)
    case LockInit => 7 * n + 9
    case CheckReady => 7 * n + 8
    case WaitReady => 7 * n + 7
    case RelockReady => 7 * n + 9
    case UnlockInit => 7 * n + 7
    case Fill(i, f) => 3 * n + 6 + if i == n then 0 else 4 * (n - i) - f
    case LockRun => 3 * n + 5
    case SetStart => 3 * n + 4
    case UnlockRun => 3 * n + 3
    case Broadcast => 3 * n + 2
    case Join(i) => n - i + 1
  }

  function WorkLeft(n: nat, s: State): int {
    MainWork(n, s.main) + if s.main == Init then 12 * n else WorkersWork(s.workers)
  }

  lemma {:induction false} WorkAfterMove(workers: seq<WorkerAt>, i: nat, w: WorkerAt)
    requires i < |workers|
    ensures WorkersWork(workers[i := w]) == WorkersWork(workers) - WorkerWork(workers[i]) + WorkerWork(w)
  {
    var k := |workers| - 1;
    if i == k {
      assert workers[i := w][..k] == workers[..k];
    } else {
      WorkAfterMove(workers[..k], i, w);
      assert workers[i := w][..k] == workers[..k][i := w];
    }
  }

  lemma {:induction false} WorkAfterBroadcast(workers: seq<WorkerAt>)
    ensures WorkersWork(Woken(workers)) <= WorkersWork(workers) + 2 * |workers|
  {
    if workers != [] {
      var k := |workers| - 1;
      WorkAfterBroadcast(workers[..k]);
      assert Woken(workers)[..k] == Woken(workers[..k]);
    }
  }

  lemma SettingUpCounts(n: nat, s: State)
    requires Inv(n, s) && Phase(s.main) <= 1
    ensures var t := MainNext(n, s); t.round == s.round && WorkLeft(n, t) < WorkLeft(n, s)
  {
    if s.main.Create? && s.main.i < n {
      assert WorkerOk(n, s, s.main.i);
      WorkAfterMove(s.workers, s.main.i, Lock);
    }
  }

  lemma BroadcastCounts(n: nat, s: State)
    requires Inv(n, s) && s.main.Broadcast?
    ensures var t := MainNext(n, s); t.round == s.round && WorkLeft(n, t) < WorkLeft(n, s)
  {
    WorkAfterBroadcast(s.workers);
  }

  lemma OpeningCounts(n: nat, s: State)
    requires Inv(n, s) && Phase(s.main) > 1 && !s.main.Broadcast? && !s.main.Join? && MainNext(n, s) != s
    ensures var t := MainNext(n, s); t.round == s.round && WorkLeft(n, t) < WorkLeft(n, s)
  {
  }

  lemma JoinCounts(n: nat, s: State)
    requires Inv(n, s) && s.main.Join? && MainNext(n, s) != s
    ensures var t := MainNext(n, s);
            t.round == s.round + 1 || (t.round == s.round && WorkLeft(n, t) < WorkLeft(n, s))
  {
  }

  lemma MainStepCounts(n: nat, s: State)
    requires Inv(n, s) && MainNext(n, s) != s
    ensures var t := MainNext(n, s);
            t.round == s.round + 1 || (t.round == s.round && WorkLeft(n, t) < WorkLeft(n, s))
  {
    if Phase(s.main) <= 1 {
      SettingUpCounts(n, s);
    } else if s.main.Broadcast? {
      BroadcastCounts(n, s);
    } else if s.main.Join? {
      JoinCounts(n, s);
    } else {
      OpeningCounts(n, s);
    }
  }

  lemma InsideStepCounts(n: nat, s: State, i: nat)
    requires Inv(n, s) && i < n && WorkerNext(n, s, i) != s && InsideLock(s.workers[i])
    ensures var t := WorkerNext(n, s, i); t.round == s.round && WorkLeft(n, t) < WorkLeft(n, s)
  {
    assert WorkerOk(n, s, i);
    WorkAfterMove(s.workers, i, WorkerNext(n, s, i).workers[i]);
  }

  lemma OutsideStepCounts(n: nat, s: State, i: nat)
    requires Inv(n, s) && i < n && WorkerNext(n, s, i) != s && !InsideLock(s.workers[i])
    ensures var t := WorkerNext(n, s, i); t.round == s.round && WorkLeft(n, t) < WorkLeft(n, s)
  {
    assert WorkerOk(n, s, i);
    WorkAfterMove(s.workers, i, WorkerNext(n, s, i).workers[i]);
  }

  lemma WorkerStepCounts(n: nat, s: State, i: nat)
    requires Inv(n, s) && i < n && WorkerNext(n, s, i) != s
    ensures var t := WorkerNext(n, s, i); t.round == s.round && WorkLeft(n, t) < WorkLeft(n, s)
  {
    if InsideLock(s.workers[i]) { InsideStepCounts(n, s, i); } else { OutsideStepCounts(n, s, i); }
  }

  predicate Needless(step: Step) { step.MainWakes? || step.WorkerWakes? }

  function Cost(step: Step): nat { if Needless(step) then 3 else 0 }

  /** Every step that changes something ends the round or leaves less of it; a needless wakeup adds two steps. */
  lemma EveryStepCounts(n: nat, s: State, step: Step)
    requires Inv(n, s) && Possible(n, step) && Next(n, s, step) != s
    ensures var t := Next(n, s, step);
            || t.round == s.round + 1
            || (t.round == s.round && WorkLeft(n, t) < WorkLeft(n, s) + if step.MainWakes? || step.WorkerWakes? then 3 else 0)
  {
    match step
    case MainRuns => MainStepCounts(n, s);
    case WorkerRuns(i) => WorkerStepCounts(n, s, i);
    case MainWakes =>
    case WorkerWakes(i) =>
      assert WorkerOk(n, s, i);
      WorkAfterMove(s.workers, i, RelockStart);
  }

  function NeedlessWakeups(steps: seq<Step>): nat {
    if steps == [] then 0
    else NeedlessWakeups(steps[..|steps| - 1]) + if Needless(steps[|steps| - 1]) then 1 else 0
  }

  lemma {:induction false} NoneNeedless(steps: seq<Step>)
    requires forall k | 0 <= k < |steps| :: !steps[k].MainWakes? && !steps[k].WorkerWakes?
    ensures NeedlessWakeups(steps) == 0
  {
    if steps != [] { NoneNeedless(steps[..|steps| - 1]); }
  }

  /** Each step of the schedule changes something. */
  ghost predicate Effective(n: nat, s: State, steps: seq<Step>)
    requires Inv(n, s) && Schedule(n, steps)
  {
    steps != [] ==>
      var front := steps[..|steps| - 1];
      Effective(n, s, front) && From(n, s, steps) != From(n, s, front)
  }

  lemma {:induction false} StepsAreCounted(n: nat, s: State, steps: seq<Step>)
    requires Inv(n, s) && Schedule(n, steps) && Effective(n, s, steps)
    ensures var t := From(n, s, steps);
            t.round > s.round
            || (t.round == s.round && WorkLeft(n, t) + |steps| <= WorkLeft(n, s) + 3 * NeedlessWakeups(steps))
  {
    if steps != [] {
      var k := |steps| - 1;
      var front := steps[..k];
      StepsAreCounted(n, s, front);
      StepIsCounted(n, s, From(n, s, front), From(n, s, steps), steps[k], k, NeedlessWakeups(front));
    }
  }

  lemma StepIsCounted(n: nat, s: State, u: State, t: State, step: Step, k: nat, wakeups: nat)
    requires Inv(n, u) && Possible(n, step) && t == Next(n, u, step) && t != u
    requires u.round > s.round || (u.round == s.round && WorkLeft(n, u) + k <= WorkLeft(n, s) + 3 * wakeups)
    ensures t.round > s.round
            || (t.round == s.round && WorkLeft(n, t) + k + 1 <= WorkLeft(n, s) + 3 * (wakeups + if Needless(step) then 1 else 0))
  {
    EveryStepCounts(n, u, step);
  }

  lemma WorkIsBounded(n: nat, s: State)
    requires Shape(n, s)
    ensures 0 <= WorkLeft(n, s) <= 20 * n + 11
  {
  }

  /** The gate opens and the workers are joined within 20n + 11 steps, and three more for every needless wakeup. */
  lemma RoundsEnd(n: nat, s: State, steps: seq<Step>)
    requires Inv(n, s) && Schedule(n, steps) && Effective(n, s, steps)
    requires |steps| > 20 * n + 11 + 3 * NeedlessWakeups(steps)
    ensures From(n, s, steps).round > s.round
  {
    StepsAreCounted(n, s, steps);
    WorkIsBounded(n, s);
    WorkIsBounded(n, From(n, s, steps));
  }

  /** When no wait ends without a signal, within 20n + 11 steps. */
  lemma SignalledRoundsEnd(n: nat, s: State, steps: seq<Step>)
    requires Inv(n, s) && Schedule(n, steps) && Effective(n, s, steps)
    requires forall k | 0 <= k < |steps| :: !steps[k].MainWakes? && !steps[k].WorkerWakes?
    requires |steps| > 20 * n + 11
    ensures From(n, s, steps).round > s.round
  {
    NoneNeedless(steps);
    RoundsEnd(n, s, steps);
  }
}
