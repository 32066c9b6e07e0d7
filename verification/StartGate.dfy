/** TinyMemBench's start gate: workers check in under a mutex and wait until main, having filled in what they
    are to do, opens the gate. One step is one access to shared memory or one operation of the thread library;
    a wait gives up the mutex, and may end without being signalled. */
module StartGate {

  /** func, arg1, arg2 and arg3 of a worker's data. */
  const FIELDS: nat := 4

  datatype WorkerAt =
    | NotCreated | Lock | Decrement | Signal | CheckStart | WaitStart | RelockStart | UnlockStart
    | Read(field: nat) | Work | Finished

  datatype MainAt =
    | Init | Create(i: nat) | LockInit | CheckReady | WaitReady | RelockReady | UnlockInit
    | Fill(i: nat, field: nat) | LockRun | SetStart | UnlockRun | Broadcast | Join(i: nat)

  datatype Holder = Free | MainHolds | WorkerHolds(i: nat)

  /** What stands in a field: which field it was written to, and in which round. */
  datatype Field = Field(number: nat, round: nat)

  /** `data` are the workers' fields, `seen` what each worker has read of its own in this round. */
  datatype State = State(
    main: MainAt, workers: seq<WorkerAt>, holder: Holder, notReady: int, started: bool,
    data: seq<seq<Field>>, seen: seq<seq<Field>>, round: nat)

  /** A thread runs, or wakes up from its wait for no reason. */
  datatype Step = MainRuns | WorkerRuns(i: nat) | MainWakes | WorkerWakes(i: nat)

  predicate Shape(n: nat, s: State) {
    && |s.workers| == |s.data| == |s.seen| == n
    && (forall i | 0 <= i < n :: |s.data[i]| == FIELDS)
    && (s.main.Create? || s.main.Join? ==> s.main.i <= n)
    && (s.main.Fill? ==> s.main.i <= n && s.main.field < FIELDS)
    && (forall i | 0 <= i < n :: s.workers[i].Read? ==> s.workers[i].field < FIELDS)
  }

  predicate Possible(n: nat, step: Step) { (step.WorkerRuns? || step.WorkerWakes?) ==> step.i < n }

  function Start(n: nat): State {
    State(Init, seq(n, i => NotCreated), Free, 0, false, seq(n, i => [Field(0, 0), Field(1, 0), Field(2, 0), Field(3, 0)]),
          seq(n, i => []), 1)
  }

  /** Everyone waiting for the gate is woken. */
  function Woken(workers: seq<WorkerAt>): (w: seq<WorkerAt>)
    ensures |w| == |workers|
    ensures forall i | 0 <= i < |w| :: w[i] == if workers[i] == WaitStart then RelockStart else workers[i]
  {
    seq(|workers|, i requires 0 <= i < |workers| => if workers[i] == WaitStart then RelockStart else workers[i])
  }

  function Filled(fields: seq<Field>, f: nat, round: nat): seq<Field>
    requires f < |fields|
  {
    fields[f := Field(f, round)]
  }

  /** parallel_init, the filling in of the data, parallel_run, the joins, and the next round. */
  function MainNext(n: nat, s: State): State
    requires Shape(n, s)
  {
    match s.main
    case Init =>
      s.(main := Create(0), workers := seq(n, i => NotCreated), holder := Free, notReady := n, started := false,
         seen := seq(n, i => []))
    case Create(i) => if i < n then s.(workers := s.workers[i := Lock], main := Create(i + 1)) else s.(main := LockInit)
    case LockInit => if s.holder == Free then s.(holder := MainHolds, main := CheckReady) else s
    case CheckReady => if s.notReady != 0 then s.(holder := Free, main := WaitReady) else s.(main := UnlockInit)
    case WaitReady => s
    case RelockReady => if s.holder == Free then s.(holder := MainHolds, main := CheckReady) else s
    case UnlockInit => s.(holder := Free, main := Fill(0, 0))
    case Fill(i, f) =>
      if i == n then s.(main := LockRun)
      else s.(data := s.data[i := Filled(s.data[i], f, s.round)], main := if f + 1 < FIELDS then Fill(i, f + 1) else Fill(i + 1, 0))
    case LockRun => if s.holder == Free then s.(holder := MainHolds, main := SetStart) else s
    case SetStart => s.(started := true, main := UnlockRun)
    case UnlockRun => s.(holder := Free, main := Broadcast)
    case Broadcast => s.(workers := Woken(s.workers), main := Join(0))
    case Join(i) =>
      if i == n then s.(main := Init, round := s.round + 1)
      else if s.workers[i] == Finished then s.(main := Join(i + 1)) else s
  }

  function Moved(s: State, i: nat, w: WorkerAt): State
    requires i < |s.workers|
  {
    s.(workers := s.workers[i := w])
  }

  /** thread_func. */
  function WorkerNext(n: nat, s: State, i: nat): State
    requires Shape(n, s) && i < n
  {
    match s.workers[i]
    case NotCreated => s
    case Lock => if s.holder == Free then Moved(s, i, Decrement).(holder := WorkerHolds(i)) else s
    case Decrement => Moved(s, i, if s.notReady - 1 == 0 then Signal else CheckStart).(notReady := s.notReady - 1)
    case Signal => Moved(s, i, CheckStart).(main := if s.main == WaitReady then RelockReady else s.main)
    case CheckStart => if s.started then Moved(s, i, UnlockStart) else Moved(s, i, WaitStart).(holder := Free)
    case WaitStart => s
    case RelockStart => if s.holder == Free then Moved(s, i, CheckStart).(holder := WorkerHolds(i)) else s
    case UnlockStart => Moved(s, i, Read(0)).(holder := Free)
    case Read(f) =>
      Moved(s, i, if f + 1 < FIELDS then Read(f + 1) else Work).(seen := s.seen[i := s.seen[i] + [s.data[i][f]]])
    case Work => Moved(s, i, Finished)
    case Finished => s
  }

  function Next(n: nat, s: State, step: Step): State
    requires Shape(n, s) && Possible(n, step)
  {
    match step
    case MainRuns => MainNext(n, s)
    case WorkerRuns(i) => WorkerNext(n, s, i)
    case MainWakes => if s.main == WaitReady then s.(main := RelockReady) else s
    case WorkerWakes(i) => if s.workers[i] == WaitStart then Moved(s, i, RelockStart) else s
  }

  // ---- The invariant ----

  predicate Pending(w: WorkerAt) { w == NotCreated || w == Lock || w == Decrement }

  predicate InsideLock(w: WorkerAt) { w == Decrement || w == Signal || w == CheckStart || w == UnlockStart }

  /** Through the gate. */
  predicate Through(w: WorkerAt) { w == UnlockStart || w.Read? || w == Work || w == Finished }

  function CountPending(workers: seq<WorkerAt>): nat {
    if workers == [] then 0 else CountPending(workers[..|workers| - 1]) + if Pending(workers[|workers| - 1]) then 1 else 0
  }

  lemma {:induction false} CountAfterMove(workers: seq<WorkerAt>, i: nat, w: WorkerAt)
    requires i < |workers|
    ensures CountPending(workers[i := w]) ==
            CountPending(workers) - (if Pending(workers[i]) then 1 else 0) + (if Pending(w) then 1 else 0)
  {
    var n := |workers| - 1;
    if i == n {
      assert workers[i := w][..n] == workers[..n];
    } else {
      CountAfterMove(workers[..n], i, w);
      assert workers[i := w][..n] == workers[..n][i := w];
    }
  }

  lemma {:induction false} SameCount(v: seq<WorkerAt>, w: seq<WorkerAt>)
    requires |v| == |w| && forall i | 0 <= i < |v| :: Pending(v[i]) == Pending(w[i])
    ensures CountPending(v) == CountPending(w)
  {
    if v != [] { SameCount(v[..|v| - 1], w[..|w| - 1]); }
  }

  lemma {:induction false} AllCounted(w: seq<WorkerAt>)
    ensures CountPending(w) == 0 ==> forall i | 0 <= i < |w| :: !Pending(w[i])
    ensures (forall i | 0 <= i < |w| :: Pending(w[i])) ==> CountPending(w) == |w|
    ensures CountPending(w) > 0 ==> exists i :: 0 <= i < |w| && Pending(w[i])
  {
    if w != [] {
      var front := w[..|w| - 1];
      AllCounted(front);
      if CountPending(front) > 0 {
        var i :| 0 <= i < |front| && Pending(front[i]);
        assert Pending(w[i]);
      }
    }
  }

  /** How far main is: 0 before the round, 1 creating threads, 2 waiting for them, 3 filling in,
      4 opening the gate, 5 the gate is open, 6 joining. */
  function Phase(m: MainAt): nat {
    match m
    case Init => 0
    case Create(_) => 1
    case LockInit => 2
    case CheckReady => 2
    case WaitReady => 2
    case RelockReady => 2
    case UnlockInit => 3
    case Fill(_, _) => 3
    case LockRun => 4
    case SetStart => 4
    case UnlockRun => 5
    case Broadcast => 5
    case Join(_) => 6
  }

  predicate MainInsideLock(m: MainAt) { m == CheckReady || m == UnlockInit || m == SetStart || m == UnlockRun }

  /** The fields of worker i that main has filled in this round. */
  predicate FilledUpTo(s: State, i: nat, k: nat)
    requires i < |s.data| && |s.data[i]| == FIELDS && k <= FIELDS
  {
    forall f | 0 <= f < k :: s.data[i][f] == Field(f, s.round)
  }

  /** How many fields a worker has read where it is. */
  function FieldsRead(w: WorkerAt): nat {
    match w
    case Read(f) => f
    case Work => 4
    case Finished => 4
    case _ => 0
  }

  /** Worker i has read that many, in order, and all of this round. */
  predicate ReadInOrder(s: State, i: nat)
    requires i < |s.seen| && i < |s.workers|
  {
    |s.seen[i]| == FieldsRead(s.workers[i]) && forall f: nat | f < |s.seen[i]| :: s.seen[i][f] == Field(f, s.round)
  }

  function NumFilled(s: State, i: nat): (k: nat)
    requires s.main.Fill? ==> s.main.field < FIELDS
    ensures k <= FIELDS
  {
    if s.main.Fill? then if i < s.main.i then FIELDS else if i == s.main.i then s.main.field else 0
    else if Phase(s.main) >= 4 then FIELDS else 0
  }

  ghost predicate WorkerOk(n: nat, s: State, i: nat)
    requires Shape(n, s) && i < n
  {
    var w := s.workers[i];
    && (s.main == Init ==> w == NotCreated || w == Finished)
    && (s.main != Init ==> (w == NotCreated <==> s.main.Create? && s.main.i <= i))
    && (InsideLock(w) <==> s.holder == WorkerHolds(i))
    && (Through(w) && s.main != Init ==> s.started)
    && (w == WaitStart ==> Phase(s.main) < 6)
    && (w == Signal ==> s.notReady == 0)
    && (s.main.Join? && i < s.main.i ==> w == Finished)
    && FilledUpTo(s, i, NumFilled(s, i))
    && (s.main != Init ==> ReadInOrder(s, i))
  }

  ghost predicate MainOk(n: nat, s: State)
    requires Shape(n, s)
  {
    && (MainInsideLock(s.main) <==> s.holder == MainHolds)
    && (s.holder.WorkerHolds? ==> s.holder.i < n && s.main != Init)
    && (s.main != Init ==> s.notReady == CountPending(s.workers))
    && (s.main != Init ==> (s.started <==> Phase(s.main) >= 5))
    && (Phase(s.main) >= 3 ==> s.notReady == 0)
    && (s.main == WaitReady ==> s.notReady > 0 || (s.holder.WorkerHolds? && s.workers[s.holder.i] == Signal))
  }

  ghost predicate Inv(n: nat, s: State) {
    Shape(n, s) && MainOk(n, s) && forall i | 0 <= i < n :: WorkerOk(n, s, i)
  }

  lemma StartInv(n: nat)
    ensures Inv(n, Start(n))
  {
  }

  lemma SettingUpKeepsMainOk(n: nat, s: State)
    requires Inv(n, s) && Phase(s.main) <= 1
    ensures Shape(n, MainNext(n, s)) && MainOk(n, MainNext(n, s))
  {
    AllCounted(MainNext(n, s).workers);
    if s.main.Create? && s.main.i < n {
      assert WorkerOk(n, s, s.main.i);
      CountAfterMove(s.workers, s.main.i, Lock);
    }
  }

  lemma WaitingKeepsMainOk(n: nat, s: State)
    requires Inv(n, s) && Phase(s.main) == 2
    ensures Shape(n, MainNext(n, s)) && MainOk(n, MainNext(n, s))
  {
  }

  lemma OpeningKeepsMainOk(n: nat, s: State)
    requires Inv(n, s) && Phase(s.main) >= 3
    ensures Shape(n, MainNext(n, s)) && MainOk(n, MainNext(n, s))
  {
    if s.main.Broadcast? { SameCount(s.workers, MainNext(n, s).workers); }
    if s.main.Join? && s.holder.WorkerHolds? { assert WorkerOk(n, s, s.holder.i); }
  }

  lemma SettingUpKeepsWorkerOk(n: nat, s: State, i: nat)
    requires Inv(n, s) && i < n && Shape(n, MainNext(n, s)) && Phase(s.main) <= 1
    ensures WorkerOk(n, MainNext(n, s), i)
  {
    assert WorkerOk(n, s, i);
    AllCounted(s.workers);
  }

  lemma OpeningKeepsWorkerOk(n: nat, s: State, i: nat)
    requires Inv(n, s) && i < n && Shape(n, MainNext(n, s)) && Phase(s.main) > 1
    ensures WorkerOk(n, MainNext(n, s), i)
  {
    assert WorkerOk(n, s, i);
    AllCounted(s.workers);
  }

  lemma MainKeepsInv(n: nat, s: State)
    requires Inv(n, s)
    ensures Inv(n, MainNext(n, s))
  {
    if Phase(s.main) <= 1 {
      SettingUpKeepsMainOk(n, s);
    } else if Phase(s.main) == 2 {
      WaitingKeepsMainOk(n, s);
    } else {
      OpeningKeepsMainOk(n, s);
    }
    forall i | 0 <= i < n
      ensures WorkerOk(n, MainNext(n, s), i)
    {
      if Phase(s.main) <= 1 { SettingUpKeepsWorkerOk(n, s, i); } else { OpeningKeepsWorkerOk(n, s, i); }
    }
  }

  lemma WorkerKeepsMainOk(n: nat, s: State, i: nat)
    requires Inv(n, s) && i < n
    ensures Shape(n, WorkerNext(n, s, i)) && MainOk(n, WorkerNext(n, s, i))
  {
    if InsideLock(s.workers[i]) {
      InsideKeepsMainOk(n, s, i);
    } else {
      OutsideKeepsMainOk(n, s, i);
    }
  }

  lemma InsideKeepsMainOk(n: nat, s: State, i: nat)
    requires Inv(n, s) && i < n && InsideLock(s.workers[i])
    ensures Shape(n, WorkerNext(n, s, i)) && MainOk(n, WorkerNext(n, s, i))
  {
    assert WorkerOk(n, s, i);
    CountAfterMove(s.workers, i, WorkerNext(n, s, i).workers[i]);
  }

  lemma OutsideKeepsMainOk(n: nat, s: State, i: nat)
    requires Inv(n, s) && i < n && !InsideLock(s.workers[i])
    ensures Shape(n, WorkerNext(n, s, i)) && MainOk(n, WorkerNext(n, s, i))
  {
    assert WorkerOk(n, s, i);
    CountAfterMove(s.workers, i, WorkerNext(n, s, i).workers[i]);
  }

  lemma InsideKeepsItself(n: nat, s: State, i: nat)
    requires Inv(n, s) && i < n && Shape(n, WorkerNext(n, s, i)) && InsideLock(s.workers[i])
    ensures WorkerOk(n, WorkerNext(n, s, i), i)
  {
    assert WorkerOk(n, s, i);
    AllCounted(s.workers);
  }

  lemma OutsideKeepsItself(n: nat, s: State, i: nat)
    requires Inv(n, s) && i < n && Shape(n, WorkerNext(n, s, i)) && !InsideLock(s.workers[i])
    ensures WorkerOk(n, WorkerNext(n, s, i), i)
  {
    assert WorkerOk(n, s, i);
    AllCounted(s.workers);
  }

  lemma InsideKeepsOthers(n: nat, s: State, i: nat, k: nat)
    requires Inv(n, s) && i < n && k < n && i != k && Shape(n, WorkerNext(n, s, i)) && InsideLock(s.workers[i])
    ensures WorkerOk(n, WorkerNext(n, s, i), k)
  {
    assert WorkerOk(n, s, i) && WorkerOk(n, s, k);
  }

  lemma OutsideKeepsOthers(n: nat, s: State, i: nat, k: nat)
    requires Inv(n, s) && i < n && k < n && i != k && Shape(n, WorkerNext(n, s, i)) && !InsideLock(s.workers[i])
    ensures WorkerOk(n, WorkerNext(n, s, i), k)
  {
    assert WorkerOk(n, s, i) && WorkerOk(n, s, k);
  }

  lemma WorkerKeepsInv(n: nat, s: State, i: nat)
    requires Inv(n, s) && i < n
    ensures Inv(n, WorkerNext(n, s, i))
  {
    WorkerKeepsMainOk(n, s, i);
    forall k | 0 <= k < n
      ensures WorkerOk(n, WorkerNext(n, s, i), k)
    {
      if InsideLock(s.workers[i]) {
        if k == i { InsideKeepsItself(n, s, i); } else { InsideKeepsOthers(n, s, i, k); }
      } else {
        if k == i { OutsideKeepsItself(n, s, i); } else { OutsideKeepsOthers(n, s, i, k); }
      }
    }
  }
}
