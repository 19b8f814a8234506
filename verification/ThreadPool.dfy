/** The hand-off of jobs between `addJobToPool` and the worker threads, as a transition
    system over every interleaving. A step is one action of one thread on the shared
    state; the mutex is `owner`, and a worker inside `pthread_cond_wait` is `Asleep`.
    Workers may wake spuriously. `terminate` stays 0, as in the program.
 */
module ThreadPool {
  import opened Common

  type Job = nat

  datatype Worker =
    | Unborn          // not yet created by `createPool`
    | AtLock          // about to lock the mutex at the top of its loop
    | Checking        // holds the mutex, about to test the queue
    | Asleep          // inside pthread_cond_wait, mutex released
    | Woken           // woken, about to lock the mutex again
    | Taken(job: Job) // holds the mutex and has removed a job
    | Running(job: Job)

  datatype Producer =
    | Idle
    | Locked(job: Job) // holds the mutex, about to LIST_ADD
    | Added            // holds the mutex, about to signal
    | Signalled        // holds the mutex, about to unlock

  datatype Owner = Free | ByWorker(w: nat) | ByProducer(p: nat)

  /** `jobs` is the list from its head; the rest is the history the theorems speak of. */
  datatype Pool = Pool(owner: Owner, jobs: seq<Job>, workers: seq<Worker>, producers: seq<Producer>,
                       submitted: seq<Job>, called: seq<Job>, finished: seq<Job>)

  datatype Action =
    | Spawn(w: nat)
    | Lock(w: nat)
    | Check(w: nat)
    | Unlock(w: nat)
    | Return(w: nat)
    | Spurious(w: nat)
    | Begin(p: nat, job: Job)
    | Add(p: nat)
    | Signal(p: nat, woken: set<nat>)
    | End(p: nat)

  // ---------- Counting over threads ----------

  function Sum<T>(ws: seq<T>, f: T -> nat): nat {
    if ws == [] then 0 else f(ws[0]) + Sum(ws[1..], f)
  }

  lemma {:induction false} SumUpdate<T>(ws: seq<T>, i: nat, w: T, f: T -> nat)
    requires i < |ws|
    ensures Sum(ws[i := w], f) + f(ws[i]) == Sum(ws, f) + f(w)
    ensures f(ws[i]) <= Sum(ws, f)
  {
    if i == 0 {
      assert ws[0 := w][1..] == ws[1..];
    } else {
      assert ws[i := w][1..] == ws[1..][i - 1 := w];
      SumUpdate(ws[1..], i - 1, w, f);
    }
  }

  function IsAsleep(w: Worker): nat {
    if w.Asleep? then 1 else 0
  }

  /** On the way to test the queue again without anybody's help. */
  function IsComing(w: Worker): nat {
    if w.AtLock? || w.Checking? || w.Woken? then 1 else 0
  }

  function AsleepCount(s: Pool): nat {
    Sum(s.workers, IsAsleep)
  }

  function ComingCount(s: Pool): nat {
    Sum(s.workers, IsComing)
  }

  lemma {:induction false} SumGrows<T>(ws: seq<T>, ws': seq<T>, i: nat, f: T -> nat)
    requires |ws| == |ws'| && i < |ws|
    requires forall j :: 0 <= j < |ws| ==> f(ws[j]) <= f(ws'[j])
    ensures Sum(ws, f) + f(ws'[i]) <= Sum(ws', f) + f(ws[i])
    decreases |ws|
  {
    if i > 0 {
      SumGrows(ws[1..], ws'[1..], i - 1, f);
    } else if |ws| > 1 {
      SumGrows(ws[1..], ws'[1..], 0, f);
    }
  }

  lemma {:induction false} SumPositive<T>(ws: seq<T>, f: T -> nat) returns (i: nat)
    requires Sum(ws, f) > 0
    ensures i < |ws| && f(ws[i]) > 0
  {
    if f(ws[0]) > 0 {
      i := 0;
    } else {
      i := SumPositive(ws[1..], f);
      i := i + 1;
    }
  }

  lemma {:induction false} SumSame<T>(ws: seq<T>, ws': seq<T>, f: T -> nat)
    requires |ws| == |ws'| && forall i :: 0 <= i < |ws| ==> f(ws[i]) == f(ws'[i])
    ensures Sum(ws, f) == Sum(ws', f)
    decreases |ws|
  {
    if ws != [] {
      SumSame(ws[1..], ws'[1..], f);
    }
  }

  /** How often a job occurs: in a list, as taken under the lock, as being run. */
  function Count(q: seq<Job>, j: Job): nat {
    multiset(q)[j]
  }

  function IsTaken(j: Job): Worker -> nat {
    w => if w == Taken(j) then 1 else 0
  }

  function IsRunning(j: Job): Worker -> nat {
    w => if w == Running(j) then 1 else 0
  }

  function TakenCount(s: Pool, j: Job): nat {
    Sum(s.workers, IsTaken(j))
  }

  function RunningCount(s: Pool, j: Job): nat {
    Sum(s.workers, IsRunning(j))
  }

  // ---------- Steps ----------

  predicate IsWorker(s: Pool, w: nat, what: Worker) {
    w < |s.workers| && s.workers[w] == what
  }

  predicate IsProducer(s: Pool, p: nat, what: Producer) {
    p < |s.producers| && s.producers[p] == what
  }

  /** `pthread_cond_signal` wakes at least one sleeper if there is one. */
  predicate Wakes(s: Pool, woken: set<nat>) {
    && (forall w :: w in woken ==> IsWorker(s, w, Worker.Asleep))
    && (woken == {} ==> forall w :: 0 <= w < |s.workers| ==> s.workers[w] != Worker.Asleep)
  }

  predicate Enabled(s: Pool, a: Action) {
    match a
    case Spawn(w) => IsWorker(s, w, Unborn)
    case Lock(w) => s.owner == Free && (IsWorker(s, w, AtLock) || IsWorker(s, w, Woken))
    case Check(w) => IsWorker(s, w, Checking)
    case Unlock(w) => w < |s.workers| && s.workers[w].Taken?
    case Return(w) => w < |s.workers| && s.workers[w].Running?
    case Spurious(w) => IsWorker(s, w, Worker.Asleep)
    case Begin(p, job) => s.owner == Free && IsProducer(s, p, Idle) && job !in s.submitted
    case Add(p) => p < |s.producers| && s.producers[p].Locked?
    case Signal(p, woken) => IsProducer(s, p, Added) && Wakes(s, woken)
    case End(p) => IsProducer(s, p, Signalled)
  }

  function Move(s: Pool, w: nat, to: Worker): Pool
    requires w < |s.workers|
  {
    s.(workers := s.workers[w := to])
  }

  function Wake(ws: seq<Worker>, woken: set<nat>): (r: seq<Worker>)
    ensures |r| == |ws|
  {
    seq(|ws|, i requires 0 <= i < |ws| => if i in woken then Woken else ws[i])
  }

  function Step(s: Pool, a: Action): Pool
    requires Enabled(s, a)
  {
    match a
    case Spawn(w) => Move(s, w, AtLock)
    case Lock(w) => Move(s, w, Checking).(owner := ByWorker(w))
    case Check(w) =>
      if s.jobs == [] then Move(s, w, Worker.Asleep).(owner := Free)
      else Move(s, w, Taken(s.jobs[0])).(jobs := s.jobs[1..])
    case Unlock(w) =>
      var job := s.workers[w].job;
      Move(s, w, Running(job)).(owner := Free, called := s.called + [job])
    case Return(w) => Move(s, w, AtLock).(finished := s.finished + [s.workers[w].job])
    case Spurious(w) => Move(s, w, Woken)
    case Begin(p, job) => s.(owner := ByProducer(p), producers := s.producers[p := Locked(job)])
    case Add(p) =>
      var job := s.producers[p].job;
      s.(producers := s.producers[p := Added], jobs := [job] + s.jobs, submitted := s.submitted + [job])
    case Signal(p, woken) =>
      s.(producers := s.producers[p := Signalled], workers := Wake(s.workers, woken))
    case End(p) => s.(owner := Free, producers := s.producers[p := Idle])
  }

  /** `createPool` with `n` workers, and the threads that will call `addJobToPool`. */
  predicate Init(s: Pool) {
    && s.owner == Free && s.jobs == s.submitted == s.called == s.finished == []
    && |s.workers| >= 1
    && (forall w :: 0 <= w < |s.workers| ==> s.workers[w] == Unborn)
    && (forall p :: 0 <= p < |s.producers| ==> s.producers[p] == Idle)
  }

  /** The state after a run of actions, if each is enabled when its turn comes. */
  function Exec(s: Pool, run: seq<Action>): Option<Pool>
    decreases |run|
  {
    if run == [] then Some(s)
    else if Enabled(s, run[0]) then Exec(Step(s, run[0]), run[1..])
    else None
  }

  // ---------- Invariants ----------

  /** Exactly the thread the mutex is held by is inside a critical section. */
  ghost predicate MutexInv(s: Pool) {
    && (forall w :: 0 <= w < |s.workers| ==>
          ((s.workers[w].Checking? || s.workers[w].Taken?) <==> s.owner == ByWorker(w)))
    && (forall p :: 0 <= p < |s.producers| ==> (!s.producers[p].Idle? <==> s.owner == ByProducer(p)))
    && (s.owner.ByWorker? ==> s.owner.w < |s.workers|)
    && (s.owner.ByProducer? ==> s.owner.p < |s.producers|)
  }

  /** A signal is still owed for the job just added. */
  ghost predicate SignalOwed(s: Pool) {
    s.owner.ByProducer? && s.owner.p < |s.producers| && s.producers[s.owner.p].Added?
  }

  ghost predicate WakeInv(s: Pool) {
    AsleepCount(s) > 0 ==> |s.jobs| <= ComingCount(s) + if SignalOwed(s) then 1 else 0
  }

  ghost predicate JobInv(s: Pool, j: Job) {
    && Count(s.jobs, j) + TakenCount(s, j) + Count(s.called, j) == Count(s.submitted, j) <= 1
    && RunningCount(s, j) + Count(s.finished, j) == Count(s.called, j)
    && forall p :: 0 <= p < |s.producers| && s.producers[p] == Locked(j) ==> Count(s.submitted, j) == 0
  }

  ghost predicate Inv(s: Pool) {
    |s.workers| >= 1 && MutexInv(s) && WakeInv(s) && forall j :: JobInv(s, j)
  }

  lemma {:induction false} InitInv(s: Pool)
    requires Init(s)
    ensures Inv(s)
  {
    if AsleepCount(s) > 0 {
      var i := SumPositive(s.workers, IsAsleep);
    }
    forall j ensures JobInv(s, j) {
      if TakenCount(s, j) > 0 { var i := SumPositive(s.workers, IsTaken(j)); }
      if RunningCount(s, j) > 0 { var i := SumPositive(s.workers, IsRunning(j)); }
    }
  }

  lemma StepKeepsMutex(s: Pool, a: Action)
    requires MutexInv(s) && Enabled(s, a)
    ensures MutexInv(Step(s, a))
  {
  }

  /** How one worker's move changes the two counts of the wake-up argument. */
  lemma {:induction false} MoveCounts(s: Pool, w: nat, to: Worker)
    requires w < |s.workers|
    ensures AsleepCount(Move(s, w, to)) + IsAsleep(s.workers[w]) == AsleepCount(s) + IsAsleep(to)
    ensures ComingCount(Move(s, w, to)) + IsComing(s.workers[w]) == ComingCount(s) + IsComing(to)
  {
    SumUpdate(s.workers, w, to, IsAsleep);
    SumUpdate(s.workers, w, to, IsComing);
  }

  lemma {:induction false} SignalCounts(s: Pool, woken: set<nat>)
    requires Wakes(s, woken) && AsleepCount(s) > 0
    ensures Sum(Wake(s.workers, woken), IsComing) >= ComingCount(s) + 1
  {
    var i := SumPositive(s.workers, IsAsleep);
    var w :| w in woken;
    assert IsWorker(s, w, Worker.Asleep);
    SumGrows(s.workers, Wake(s.workers, woken), w, IsComing);
  }

  lemma {:induction false} SleepersOnlyShrink(s: Pool, woken: set<nat>)
    requires Wakes(s, woken)
    ensures Sum(Wake(s.workers, woken), IsAsleep) <= AsleepCount(s)
  {
    var ws' := Wake(s.workers, woken);
    if s.workers == [] {
      assert ws' == [];
    } else {
      SumGrows(ws', s.workers, 0, IsAsleep);
    }
  }

  lemma {:induction false} StepKeepsWake(s: Pool, a: Action)
    requires MutexInv(s) && WakeInv(s) && Enabled(s, a)
    ensures WakeInv(Step(s, a))
  {
    match a
    case Spawn(w) => MoveCounts(s, w, AtLock);
    case Lock(w) => MoveCounts(s, w, Checking);
    case Check(w) =>
      MoveCounts(s, w, if s.jobs == [] then Worker.Asleep else Taken(s.jobs[0]));
    case Unlock(w) => MoveCounts(s, w, Running(s.workers[w].job));
    case Return(w) => MoveCounts(s, w, AtLock);
    case Spurious(w) => MoveCounts(s, w, Woken);
    case Begin(p, job) =>
    case Add(p) =>
    case Signal(p, woken) =>
      SleepersOnlyShrink(s, woken);
      if AsleepCount(s) > 0 { SignalCounts(s, woken); }
    case End(p) =>
  }

  lemma {:induction false} MoveJobCounts(s: Pool, w: nat, to: Worker, j: Job)
    requires w < |s.workers|
    ensures TakenCount(Move(s, w, to), j) + IsTaken(j)(s.workers[w]) == TakenCount(s, j) + IsTaken(j)(to)
    ensures RunningCount(Move(s, w, to), j) + IsRunning(j)(s.workers[w]) == RunningCount(s, j) + IsRunning(j)(to)
  {
    SumUpdate(s.workers, w, to, IsTaken(j));
    SumUpdate(s.workers, w, to, IsRunning(j));
  }

  lemma CountCons(q: seq<Job>, x: Job, j: Job)
    ensures Count([x] + q, j) == Count(q, j) + if x == j then 1 else 0
    ensures Count(q + [x], j) == Count(q, j) + if x == j then 1 else 0
  {
  }

  lemma {:induction false} StepKeepsJob(s: Pool, a: Action, j: Job)
    requires MutexInv(s) && JobInv(s, j) && Enabled(s, a)
    ensures JobInv(Step(s, a), j)
  {
    match a
    case Begin(p, job) =>
    case Add(p) => AddKeepsJob(s, p, j);
    case Signal(p, woken) => SignalKeepsJob(s, p, woken, j);
    case End(p) =>
    case Check(w) => CheckKeepsJob(s, w, j);
    case Unlock(w) => UnlockKeepsJob(s, w, j);
    case Return(w) => ReturnKeepsJob(s, w, j);
    case _ => MoveKeepsJob(s, a, j);
  }

  lemma {:induction false} SignalKeepsJob(s: Pool, p: nat, woken: set<nat>, j: Job)
    requires JobInv(s, j) && Enabled(s, Signal(p, woken))
    ensures JobInv(Step(s, Signal(p, woken)), j)
  {
    SumSame(s.workers, Wake(s.workers, woken), IsTaken(j));
    SumSame(s.workers, Wake(s.workers, woken), IsRunning(j));
  }

  lemma {:induction false} UnlockKeepsJob(s: Pool, w: nat, j: Job)
    requires JobInv(s, j) && Enabled(s, Unlock(w))
    ensures JobInv(Step(s, Unlock(w)), j)
  {
    MoveJobCounts(s, w, Running(s.workers[w].job), j);
    CountCons(s.called, s.workers[w].job, j);
  }

  lemma {:induction false} ReturnKeepsJob(s: Pool, w: nat, j: Job)
    requires JobInv(s, j) && Enabled(s, Return(w))
    ensures JobInv(Step(s, Return(w)), j)
  {
    MoveJobCounts(s, w, AtLock, j);
    CountCons(s.finished, s.workers[w].job, j);
  }

  lemma {:induction false} MoveKeepsJob(s: Pool, a: Action, j: Job)
    requires JobInv(s, j) && Enabled(s, a) && (a.Spawn? || a.Lock? || a.Spurious?)
    ensures JobInv(Step(s, a), j)
  {
    MoveJobCounts(s, a.w, Step(s, a).workers[a.w], j);
  }

  lemma AddKeepsJob(s: Pool, p: nat, j: Job)
    requires MutexInv(s) && JobInv(s, j) && Enabled(s, Add(p))
    ensures JobInv(Step(s, Add(p)), j)
  {
  }

  lemma {:induction false} CheckKeepsJob(s: Pool, w: nat, j: Job)
    requires JobInv(s, j) && Enabled(s, Check(w))
    ensures JobInv(Step(s, Check(w)), j)
  {
    if s.jobs == [] {
      MoveJobCounts(s, w, Worker.Asleep, j);
    } else {
      MoveJobCounts(s, w, Taken(s.jobs[0]), j);
      assert s.jobs == [s.jobs[0]] + s.jobs[1..];
      CountCons(s.jobs[1..], s.jobs[0], j);
    }
  }

  lemma {:induction false} RunKeepsInv(s: Pool, run: seq<Action>)
    requires Inv(s) && Exec(s, run).Some?
    ensures Inv(Exec(s, run).value)
    decreases |run|
  {
    if run != [] {
      StepKeepsMutex(s, run[0]);
      StepKeepsWake(s, run[0]);
      forall j ensures JobInv(Step(s, run[0]), j) {
        StepKeepsJob(s, run[0], j);
      }
      RunKeepsInv(Step(s, run[0]), run[1..]);
    }
  }

  // ---------- What the pool promises ----------

  /** No lost wake-up: whenever the mutex is free and some worker sleeps, each queued job
      has a worker of its own on the way to the queue. */
  lemma {:induction false} NoLostWakeup(s0: Pool, run: seq<Action>)
    requires Init(s0) && Exec(s0, run).Some?
    ensures var s := Exec(s0, run).value;
      && (s.owner == Free && AsleepCount(s) > 0 ==> |s.jobs| <= ComingCount(s))
      && (s.owner == Free && s.jobs != [] ==> exists w :: 0 <= w < |s.workers| && s.workers[w] != Worker.Asleep)
  {
    InitInv(s0);
    RunKeepsInv(s0, run);
    var s := Exec(s0, run).value;
    if s.owner == Free && s.jobs != [] {
      if AsleepCount(s) > 0 {
        var w := SumPositive(s.workers, IsComing);
        assert s.workers[w] != Worker.Asleep;
      } else {
        SumUpdate(s.workers, 0, Woken, IsAsleep);
        assert s.workers[0] != Worker.Asleep;
      }
    }
  }

  /** Each submitted job is, once and in one place, queued, taken, running or finished; and
      its callback has been entered at most once. */
  lemma {:induction false} JobsAreConserved(s0: Pool, run: seq<Action>, j: Job)
    requires Init(s0) && Exec(s0, run).Some?
    ensures var s := Exec(s0, run).value;
      && Count(s.jobs, j) + TakenCount(s, j) + RunningCount(s, j) + Count(s.finished, j)
           == (if j in s.submitted then 1 else 0)
      && Count(s.called, j) == RunningCount(s, j) + Count(s.finished, j) <= 1
  {
    InitInv(s0);
    RunKeepsInv(s0, run);
    assert JobInv(Exec(s0, run).value, j);
  }

  // ---------- The order ----------

  /** The queue, from its head, holds submitted jobs from the latest back. */
  ghost predicate LatestFirst(jobs: seq<Job>, submitted: seq<Job>)
    decreases |submitted|
  {
    jobs == [] ||
    (submitted != [] &&
     var n := |submitted| - 1;
     LatestFirst(if jobs[0] == submitted[n] then jobs[1..] else jobs, submitted[..n]))
  }

  lemma {:induction false} LatestFirstTail(jobs: seq<Job>, submitted: seq<Job>)
    requires jobs != [] && LatestFirst(jobs, submitted)
    ensures LatestFirst(jobs[1..], submitted)
    decreases |submitted|
  {
    var n := |submitted| - 1;
    if jobs[0] != submitted[n] {
      LatestFirstTail(jobs, submitted[..n]);
    }
    if |jobs| > 1 && jobs[1] == submitted[n] {
      LatestFirstTail(jobs[1..], submitted[..n]);
    }
  }

  lemma {:induction false} LatestFirstAdd(jobs: seq<Job>, submitted: seq<Job>, job: Job)
    requires LatestFirst(jobs, submitted)
    ensures LatestFirst([job] + jobs, submitted + [job])
  {
    assert ([job] + jobs)[1..] == jobs && (submitted + [job])[..|submitted|] == submitted;
  }

  lemma {:induction false} StepKeepsOrder(s: Pool, a: Action)
    requires Enabled(s, a) && LatestFirst(s.jobs, s.submitted)
    ensures LatestFirst(Step(s, a).jobs, Step(s, a).submitted)
  {
    if a.Add? {
      LatestFirstAdd(s.jobs, s.submitted, s.producers[a.p].job);
    } else if a.Check? && s.jobs != [] {
      LatestFirstTail(s.jobs, s.submitted);
    }
  }

  lemma {:induction false} RunKeepsOrder(s: Pool, run: seq<Action>)
    requires Exec(s, run).Some? && LatestFirst(s.jobs, s.submitted)
    ensures LatestFirst(Exec(s, run).value.jobs, Exec(s, run).value.submitted)
    decreases |run|
  {
    if run != [] {
      StepKeepsOrder(s, run[0]);
      RunKeepsOrder(Step(s, run[0]), run[1..]);
    }
  }

  /** Where the head was submitted: all other queued jobs were submitted before it. */
  lemma {:induction false} HeadPosition(jobs: seq<Job>, submitted: seq<Job>) returns (n: nat)
    requires jobs != [] && LatestFirst(jobs, submitted)
    ensures n < |submitted| && submitted[n] == jobs[0]
    ensures forall j :: j in jobs[1..] ==> j in submitted[..n]
    decreases |submitted|
  {
    var m := |submitted| - 1;
    if jobs[0] == submitted[m] {
      n := m;
      forall j | j in jobs[1..] ensures j in submitted[..n] {
        QueuedWereSubmitted(jobs[1..], submitted[..n], j);
      }
    } else {
      n := HeadPosition(jobs, submitted[..m]);
      assert submitted[..m][..n] == submitted[..n];
    }
  }

  lemma {:induction false} QueuedWereSubmitted(jobs: seq<Job>, submitted: seq<Job>, j: Job)
    requires LatestFirst(jobs, submitted) && j in jobs
    ensures j in submitted
    decreases |submitted|
  {
    var n := |submitted| - 1;
    if j != submitted[n] {
      QueuedWereSubmitted(if jobs[0] == submitted[n] then jobs[1..] else jobs, submitted[..n], j);
    }
  }

  lemma {:induction false} OnceOnly(q: seq<Job>, n: nat, k: nat)
    requires n < k < |q| && Count(q, q[k]) <= 1
    ensures q[k] !in q[..n] && q[k] != q[n]
  {
    assert q == q[..k] + q[k..] && q[k] in multiset(q[k..]);
    assert multiset(q) == multiset(q[..k]) + multiset(q[k..]);
    assert q[k] !in multiset(q[..k]) && q[..k][n] == q[n] && q[..k][..n] == q[..n];
  }

  /** In every reachable state a worker that takes a job takes the one submitted last of
      all that are queued. */
  lemma {:induction false} TakesTheLatest(s0: Pool, run: seq<Action>, w: nat)
    requires Init(s0) && Exec(s0, run).Some? && Enabled(Exec(s0, run).value, Check(w))
    requires Exec(s0, run).value.jobs != []
    ensures var s := Exec(s0, run).value;
      exists n :: 0 <= n < |s.submitted| && Step(s, Check(w)).workers[w] == Taken(s.submitted[n]) &&
                  forall k :: n < k < |s.submitted| ==> s.submitted[k] !in s.jobs
  {
    InitInv(s0);
    RunKeepsInv(s0, run);
    RunKeepsOrder(s0, run);
    var s := Exec(s0, run).value;
    var n := HeadPosition(s.jobs, s.submitted);
    forall k | n < k < |s.submitted| ensures s.submitted[k] !in s.jobs {
      assert JobInv(s, s.submitted[k]);
      OnceOnly(s.submitted, n, k);
      assert s.jobs == [s.jobs[0]] + s.jobs[1..];
    }
    assert Step(s, Check(w)).workers[w] == Taken(s.submitted[n]);
  }

  // ---------- What every thread is free to do ----------

  /** `createPool` can have any number of workers, and any number of threads may submit. */
  lemma {:induction false} AnyPoolStarts(workers: nat, producers: nat) returns (s: Pool)
    requires workers >= 1
    ensures Init(s) && |s.workers| == workers && |s.producers| == producers
  {
    s := Pool(Free, [], seq(workers, _ => Unborn), seq(producers, _ => Idle), [], [], []);
  }

  lemma {:induction false} ExecCons(s: Pool, a: Action, run: seq<Action>)
    requires Enabled(s, a)
    ensures Exec(s, [a] + run) == Exec(Step(s, a), run)
  {
    assert ([a] + run)[1..] == run;
  }

  /** Wakes one sleeper, if there is one. */
  ghost function WakeOne(s: Pool): (woken: set<nat>)
    ensures Wakes(s, woken)
  {
    if exists w: nat :: w < |s.workers| && s.workers[w] == Worker.Asleep then
      var w: nat :| w < |s.workers| && s.workers[w] == Worker.Asleep;
      {w}
    else {}
  }

  /** The four steps of one call of `addJobToPool`, taken in a row. */
  lemma {:induction false} CallInARow(s: Pool, p: nat, job: Job) returns (t: Pool, call: seq<Action>)
    requires s.owner == Free && IsProducer(s, p, Idle) && job !in s.submitted
    ensures |call| == 4 && Exec(s, call) == Some(t)
    ensures t.jobs == [job] + s.jobs && t.submitted == s.submitted + [job]
    ensures t.owner == Free && IsProducer(t, p, Idle)
  {
    var s1 := Step(s, Begin(p, job));
    var s2 := Step(s1, Add(p));
    var signal := Signal(p, WakeOne(s2));
    var s3 := Step(s2, signal);
    t := Step(s3, End(p));
    call := [Begin(p, job)] + ([Add(p)] + ([signal] + ([End(p)] + [])));
    ExecCons(s3, End(p), []);
    ExecCons(s2, signal, [End(p)] + []);
    ExecCons(s1, Add(p), [signal] + ([End(p)] + []));
    ExecCons(s, Begin(p, job), [Add(p)] + ([signal] + ([End(p)] + [])));
  }

  lemma {:induction false} ExecConcat(s: Pool, a: seq<Action>, b: seq<Action>)
    requires Exec(s, a).Some?
    ensures Exec(s, a + b) == Exec(Exec(s, a).value, b)
    decreases |a|
  {
    if a == [] {
      assert a + b == b;
    } else {
      assert (a + b)[1..] == a[1..] + b;
      ExecConcat(Step(s, a[0]), a[1..], b);
    }
  }

  function Reversed(q: seq<Job>): seq<Job> {
    if q == [] then [] else Reversed(q[1..]) + [q[0]]
  }

  ghost predicate AllNew(jobs: seq<Job>, submitted: seq<Job>) {
    && (forall i :: 0 <= i < |jobs| ==> jobs[i] !in submitted)
    && (forall i, j :: 0 <= i < j < |jobs| ==> jobs[i] != jobs[j])
  }

  lemma AllNewRest(jobs: seq<Job>, submitted: seq<Job>)
    requires AllNew(jobs, submitted) && jobs != []
    ensures jobs[0] !in submitted && AllNew(jobs[1..], submitted + [jobs[0]])
  {
  }

  lemma {:induction false} PushedOneByOne(jobs: seq<Job>, q: seq<Job>, submitted: seq<Job>)
    requires jobs != []
    ensures Reversed(jobs[1..]) + ([jobs[0]] + q) == Reversed(jobs) + q
    ensures submitted + [jobs[0]] + jobs[1..] == submitted + jobs
  {
    assert jobs == [jobs[0]] + jobs[1..];
  }

  /** A thread can submit any new jobs one after the other without waiting for a worker,
      whatever is queued already: the queue has no limit, and the last submitted is first. */
  lemma {:induction false} SubmissionsNeedNoWorker(s: Pool, p: nat, jobs: seq<Job>) returns (t: Pool, run: seq<Action>)
    requires s.owner == Free && IsProducer(s, p, Idle)
    requires AllNew(jobs, s.submitted)
    ensures |run| == 4 * |jobs| && Exec(s, run) == Some(t)
    ensures t.jobs == Reversed(jobs) + s.jobs && t.submitted == s.submitted + jobs
    ensures t.owner == Free && IsProducer(t, p, Idle)
    decreases |jobs|
  {
    if jobs == [] {
      t, run := s, [];
    } else {
      AllNewRest(jobs, s.submitted);
      var u, call := CallInARow(s, p, jobs[0]);
      var rest;
      t, rest := SubmissionsNeedNoWorker(u, p, jobs[1..]);
      run := call + rest;
      ExecConcat(s, call, rest);
      PushedOneByOne(jobs, s.jobs, s.submitted);
    }
  }

  /** Any worker that is not asleep or busy can, when the mutex is free, take the head of the
      queue, run it and come back, without any other thread. */
  lemma {:induction false} WorkerServesAlone(s: Pool, w: nat) returns (t: Pool)
    requires s.owner == Free && s.jobs != [] && (IsWorker(s, w, AtLock) || IsWorker(s, w, Woken))
    ensures Exec(s, [Lock(w), Check(w), Unlock(w), Return(w)]) == Some(t)
    ensures t == s.(jobs := s.jobs[1..], workers := s.workers[w := AtLock],
                    called := s.called + [s.jobs[0]], finished := s.finished + [s.jobs[0]])
  {
    var s1 := Step(s, Lock(w));
    var s2 := Step(s1, Check(w));
    var s3 := Step(s2, Unlock(w));
    t := Step(s3, Return(w));
    ExecCons(s3, Return(w), []);
    ExecCons(s2, Unlock(w), [Return(w)]);
    ExecCons(s1, Check(w), [Unlock(w), Return(w)]);
    ExecCons(s, Lock(w), [Check(w), Unlock(w), Return(w)]);
    assert [Lock(w)] + [Check(w), Unlock(w), Return(w)] == [Lock(w), Check(w), Unlock(w), Return(w)];
    assert [Check(w)] + [Unlock(w), Return(w)] == [Check(w), Unlock(w), Return(w)];
    assert [Unlock(w)] + [Return(w)] == [Unlock(w), Return(w)] && [Return(w)] + [] == [Return(w)];
    assert t.workers == s.workers[w := AtLock];
  }

  /** A worker that finds the queue empty sleeps and gives the mutex back; a sleeper may wake
      without a signal, and a signal may wake any sleepers, at least one. Starting and
      coming back from a callback need no mutex. */
  lemma SleepAndWake(s: Pool, w: nat, p: nat, woken: set<nat>)
    ensures IsWorker(s, w, Checking) && s.jobs == [] ==>
      Enabled(s, Check(w)) && Step(s, Check(w)) == s.(owner := Free, workers := s.workers[w := Worker.Asleep])
    ensures IsWorker(s, w, Worker.Asleep) ==>
      Enabled(s, Spurious(w)) && Step(s, Spurious(w)) == s.(workers := s.workers[w := Woken])
    ensures IsProducer(s, p, Added) && woken != {} && (forall k :: k in woken ==> IsWorker(s, k, Worker.Asleep)) ==>
      Enabled(s, Signal(p, woken))
    ensures IsWorker(s, w, Unborn) ==> Enabled(s, Spawn(w))
    ensures w < |s.workers| && s.workers[w].Running? ==> Enabled(s, Return(w))
  {
  }

  // ---------- Progress ----------

  function Weight(w: Worker): nat {
    match w
    case Unborn => 3
    case AtLock => 2
    case Woken => 2
    case Checking => 1
    case Asleep => 0
    case Taken(_) => 4
    case Running(_) => 3
  }

  /** The steps the workers still have to take before all of them sleep. */
  function StepsLeft(s: Pool): nat {
    4 * |s.jobs| + Sum(s.workers, Weight)
  }

  /** A step a worker takes of its own accord. */
  predicate ByWorkerAlone(a: Action) {
    a.Spawn? || a.Lock? || a.Check? || a.Unlock? || a.Return?
  }

  lemma {:induction false} WorkerStepCounts(s: Pool, a: Action)
    requires Enabled(s, a) && ByWorkerAlone(a)
    ensures StepsLeft(Step(s, a)) + 1 == StepsLeft(s)
    ensures Step(s, a).producers == s.producers && Step(s, a).submitted == s.submitted
  {
    var w := a.w;
    SumUpdate(s.workers, w, Step(s, a).workers[w], Weight);
  }

  predicate NoCallInProgress(s: Pool) {
    forall p :: 0 <= p < |s.producers| ==> s.producers[p].Idle?
  }

  /** While a worker has a step left, one of them can take it: with no call of
      `addJobToPool` in progress the workers are never stuck over a queued job. */
  lemma {:induction false} WorkersCanMove(s: Pool) returns (a: Action)
    requires Inv(s) && NoCallInProgress(s) && StepsLeft(s) > 0
    ensures ByWorkerAlone(a) && Enabled(s, a)
  {
    if s.owner.ByWorker? {
      var w := s.owner.w;
      a := if s.workers[w].Checking? then Check(w) else Unlock(w);
    } else {
      if Sum(s.workers, Weight) == 0 {
        SumUpdate(s.workers, 0, Worker.Asleep, Weight);
        assert s.workers[0] == Worker.Asleep;
        SumUpdate(s.workers, 0, Woken, IsAsleep);
        var w := SumPositive(s.workers, IsComing);
        SumUpdate(s.workers, w, Worker.Asleep, Weight);
        assert false;
      }
      var w := SumPositive(s.workers, Weight);
      a := match s.workers[w]
        case Unborn => Spawn(w)
        case Running(_) => Return(w)
        case _ => Lock(w);
    }
  }

  predicate AllDone(s: Pool) {
    && s.owner == Free && s.jobs == []
    && (forall w :: 0 <= w < |s.workers| ==> s.workers[w] == Worker.Asleep)
    && forall j :: j in s.submitted ==> Count(s.finished, j) == 1
  }

  lemma {:induction false} NothingLeft(s: Pool)
    requires Inv(s) && NoCallInProgress(s) && StepsLeft(s) == 0
    ensures AllDone(s)
  {
    forall w | 0 <= w < |s.workers| ensures s.workers[w] == Worker.Asleep {
      SumUpdate(s.workers, w, Worker.Asleep, Weight);
    }
    forall j | j in s.submitted ensures Count(s.finished, j) == 1 {
      assert JobInv(s, j);
      if TakenCount(s, j) > 0 { var w := SumPositive(s.workers, IsTaken(j)); }
      if RunningCount(s, j) > 0 { var w := SumPositive(s.workers, IsRunning(j)); }
    }
  }

  lemma {:induction false} WorkerRunCounts(s: Pool, run: seq<Action>)
    requires Exec(s, run).Some? && forall i :: 0 <= i < |run| ==> ByWorkerAlone(run[i])
    ensures var t := Exec(s, run).value;
      StepsLeft(t) + |run| == StepsLeft(s) && t.producers == s.producers && t.submitted == s.submitted
    decreases |run|
  {
    if run != [] {
      WorkerStepCounts(s, run[0]);
      WorkerRunCounts(Step(s, run[0]), run[1..]);
    }
  }

  /** From every reachable state with no call in progress, however the workers are
      scheduled: they take exactly `StepsLeft` steps of their own, can always take the next
      one until then, and then every submitted job has been run. */
  lemma {:induction false} EveryScheduleDrainsTheQueue(s0: Pool, before: seq<Action>, run: seq<Action>)
    requires Init(s0) && Exec(s0, before).Some? && NoCallInProgress(Exec(s0, before).value)
    requires Exec(Exec(s0, before).value, run).Some? && forall i :: 0 <= i < |run| ==> ByWorkerAlone(run[i])
    ensures var s := Exec(s0, before).value; var t := Exec(s, run).value;
      && |run| <= StepsLeft(s)
      && (|run| < StepsLeft(s) ==> exists a :: ByWorkerAlone(a) && Enabled(t, a))
      && (|run| == StepsLeft(s) ==> AllDone(t) && t.submitted == s.submitted)
  {
    InitInv(s0);
    RunKeepsInv(s0, before);
    var s := Exec(s0, before).value;
    RunKeepsInv(s, run);
    WorkerRunCounts(s, run);
    var t := Exec(s, run).value;
    if |run| < StepsLeft(s) {
      var a := WorkersCanMove(t);
    } else {
      NothingLeft(t);
    }
  }

  // ---------- Progress with calls under way and spurious wake-ups ----------

  /** The steps a call of `addJobToPool` has still to take, with those it may cause: the job
      it adds, and up to two for each of `n` workers it may wake. */
  function CallWeight(n: nat): Producer -> nat {
    (p: Producer) =>
      match p
      case Idle => 0
      case Locked(_) => 2 * n + 7
      case Added => 2 * n + 2
      case Signalled => 1
  }

  /** A bound on the steps left for workers and for calls under way. */
  function Work(s: Pool): nat {
    StepsLeft(s) + Sum(s.producers, CallWeight(|s.workers|))
  }

  /** What a step may add to the work, itself included: only a new call and a spurious
      wake-up do. */
  function Allowance(a: Action, n: nat): nat {
    match a
    case Begin(_, _) => 2 * n + 8
    case Spurious(_) => 3
    case _ => 0
  }

  function Budget(run: seq<Action>, n: nat): nat {
    if run == [] then 0 else Allowance(run[0], n) + Budget(run[1..], n)
  }

  lemma {:induction false} SumBounded<T>(ws: seq<T>, ws': seq<T>, f: T -> nat, d: nat)
    requires |ws| == |ws'| && forall i :: 0 <= i < |ws| ==> f(ws'[i]) <= f(ws[i]) + d
    ensures Sum(ws', f) <= Sum(ws, f) + d * |ws|
    decreases |ws|
  {
    if ws != [] {
      SumBounded(ws[1..], ws'[1..], f, d);
      assert d * |ws| == d + d * |ws[1..]|;
    }
  }

  lemma {:induction false} StepWithinAllowance(s: Pool, a: Action)
    requires Enabled(s, a)
    ensures |Step(s, a).workers| == |s.workers|
    ensures Work(Step(s, a)) + 1 <= Work(s) + Allowance(a, |s.workers|)
  {
    var f := CallWeight(|s.workers|);
    match a
    case Begin(p, job) => SumUpdate(s.producers, p, Locked(job), f);
    case Add(p) => SumUpdate(s.producers, p, Added, f);
    case Signal(p, woken) =>
      SumUpdate(s.producers, p, Signalled, f);
      SumBounded(s.workers, Wake(s.workers, woken), Weight, 2);
    case End(p) => SumUpdate(s.producers, p, Idle, f);
    case Spurious(w) => SumUpdate(s.workers, w, Woken, Weight);
    case _ => WorkerStepCounts(s, a);
  }

  lemma {:induction false} RunWithinBudget(s: Pool, run: seq<Action>)
    requires Exec(s, run).Some?
    ensures |Exec(s, run).value.workers| == |s.workers|
    ensures Work(Exec(s, run).value) + |run| <= Work(s) + Budget(run, |s.workers|)
    decreases |run|
  {
    if run != [] {
      StepWithinAllowance(s, run[0]);
      RunWithinBudget(Step(s, run[0]), run[1..]);
    }
  }

  /** A step of a worker, or the next step of a call under way. */
  predicate Continues(a: Action) {
    ByWorkerAlone(a) || a.Add? || a.Signal? || a.End?
  }

  lemma {:induction false} CallCanMove(s: Pool) returns (a: Action)
    requires Inv(s) && !NoCallInProgress(s)
    ensures Continues(a) && Enabled(s, a)
  {
    var p: nat :| p < |s.producers| && !s.producers[p].Idle?;
    match s.producers[p]
    case Locked(_) => a := Add(p);
    case Added => a := Signal(p, WakeOne(s));
    case Signalled => a := End(p);
  }

  lemma {:induction false} SumConstant<T>(ws: seq<T>, f: T -> nat, c: nat)
    requires forall i :: 0 <= i < |ws| ==> f(ws[i]) == c
    ensures Sum(ws, f) == c * |ws|
  {
    if ws != [] {
      SumConstant(ws[1..], f, c);
      assert c * |ws| == c + c * |ws[1..]|;
    }
  }

  lemma {:induction false} InitialWork(s: Pool)
    requires Init(s)
    ensures Work(s) == 3 * |s.workers|
  {
    SumConstant(s.workers, Weight, 3);
    SumConstant(s.producers, CallWeight(|s.workers|), 0);
  }

  /** Every run whatever, with calls and spurious wake-ups anywhere in it: it is no longer
      than three steps for each worker and each spurious wake-up and `2 * n + 8` for each
      call, and where it stops either some thread can go on by itself, or no call is under
      way and every submitted job has been run. */
  lemma {:induction false} EveryRunFinishes(s0: Pool, run: seq<Action>)
    requires Init(s0) && Exec(s0, run).Some?
    ensures |run| <= 3 * |s0.workers| + Budget(run, |s0.workers|)
    ensures var t := Exec(s0, run).value;
      (exists a :: Continues(a) && Enabled(t, a)) || (NoCallInProgress(t) && AllDone(t))
  {
    InitInv(s0);
    InitialWork(s0);
    RunWithinBudget(s0, run);
    RunKeepsInv(s0, run);
    var t := Exec(s0, run).value;
    if !NoCallInProgress(t) {
      var a := CallCanMove(t);
    } else if StepsLeft(t) > 0 {
      var a := WorkersCanMove(t);
    } else {
      NothingLeft(t);
    }
  }
}
