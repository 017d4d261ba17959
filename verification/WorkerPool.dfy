/**
 `WorkerPool` as a step system. One step is one critical section or one unlocked action: pushing a
 job, the `notify_one` that follows it, a worker's loop test, its locked check, its running of a job,
 the three stages of the destructor, and a spurious wake-up of a waiting worker.
 */
module WorkerPools {
  import opened Sequences

  /** A submitted job. */
  type Job = nat

  /**
   Where a worker is: about to read `_stop`; about to take the lock and test the wait condition;
   waiting on the condition variable; executing a job; out of its loop.
   */
  datatype Pc = Test | Check | Asleep | Running(job: Job) | Exited

  /** The destructor: not begun, flag set, everyone notified, workers joined and queue dropped. */
  datatype Phase = Alive | Stopping | Notified | Destroyed

  datatype State = State(
    queue: seq<Job>,
    phase: Phase,
    pending: nat,              // addJob calls that have pushed but not notified yet
    workers: seq<Pc>,
    submitted: seq<Job>,       // history, in push order
    taken: seq<Job>,           // history, in pop order
    finished: multiset<Job>,
    discarded: seq<Job>)
  {
    predicate Stop()
    {
      phase != Alive
    }
  }

  datatype Action =
    | Push(job: Job)
    | NotifyOne(i: nat)
    | NotifyNobody
    | WorkerStep(i: nat)
    | SpuriousWake(i: nat)
    | SetStop
    | NotifyAll
    | Finish

  function Init(n: nat): State
  {
    State([], Alive, 0, seq(n, _ => Test), [], [], multiset{}, [])
  }

  predicate IsAsleep(s: State, i: nat)
  {
    i < |s.workers| && s.workers[i] == Asleep
  }

  predicate NobodyAsleep(ws: seq<Pc>)
  {
    forall i :: 0 <= i < |ws| ==> ws[i] != Asleep
  }

  predicate AllExited(ws: seq<Pc>)
  {
    forall i :: 0 <= i < |ws| ==> ws[i] == Exited
  }

  predicate Enabled(s: State, a: Action)
  {
    match a
    case Push(_) => s.phase != Destroyed
    case NotifyOne(i) => s.pending > 0 && IsAsleep(s, i)
    case NotifyNobody => s.pending > 0 && NobodyAsleep(s.workers)
    case WorkerStep(i) => i < |s.workers| && s.workers[i] != Asleep && s.workers[i] != Exited
    case SpuriousWake(i) => IsAsleep(s, i)
    case SetStop => s.phase == Alive
    case NotifyAll => s.phase == Stopping
    case Finish => s.phase == Notified && AllExited(s.workers)
  }

  function WakeAll(ws: seq<Pc>): (r: seq<Pc>)
    ensures |r| == |ws|
  {
    seq(|ws|, i requires 0 <= i < |ws| => if ws[i] == Asleep then Check else ws[i])
  }

  /** One worker step: the loop test, the locked check with its possible pop, or the end of a job. */
  function StepWorker(s: State, i: nat): State
    requires Enabled(s, WorkerStep(i))
  {
    match s.workers[i]
    case Test =>
      s.(workers := s.workers[i := if s.Stop() then Exited else Check])
    case Check =>
      if s.Stop() then s.(workers := s.workers[i := Exited])
      else if s.queue == [] then s.(workers := s.workers[i := Asleep])
      else s.(workers := s.workers[i := Running(s.queue[0])],
              queue := s.queue[1..], taken := s.taken + [s.queue[0]])
    case Running(j) =>
      s.(workers := s.workers[i := Test], finished := s.finished + multiset{j})
  }

  function Apply(s: State, a: Action): State
    requires Enabled(s, a)
  {
    match a
    case Push(j) => s.(queue := s.queue + [j], pending := s.pending + 1, submitted := s.submitted + [j])
    case NotifyOne(i) => s.(pending := s.pending - 1, workers := s.workers[i := Check])
    case NotifyNobody => s.(pending := s.pending - 1)
    case WorkerStep(i) => StepWorker(s, i)
    case SpuriousWake(i) => s.(workers := s.workers[i := Check])
    case SetStop => s.(phase := Stopping)
    case NotifyAll => s.(phase := Notified, workers := WakeAll(s.workers))
    case Finish => s.(phase := Destroyed, discarded := s.queue, queue := [])
  }

  /** `acts` is an interleaving the system can perform from `s`. */
  predicate IsRun(s: State, acts: seq<Action>)
    decreases |acts|
  {
    acts == [] || (Enabled(s, acts[0]) && IsRun(Apply(s, acts[0]), acts[1..]))
  }

  function Run(s: State, acts: seq<Action>): State
    requires IsRun(s, acts)
    decreases |acts|
  {
    if acts == [] then s else Run(Apply(s, acts[0]), acts[1..])
  }

  // ---------- Sums over the workers ----------

  function Sum(ws: seq<Pc>, weight: Pc -> nat): nat
  {
    if ws == [] then 0 else weight(ws[0]) + Sum(ws[1..], weight)
  }

  lemma {:induction false} SumUpdate(ws: seq<Pc>, i: nat, pc: Pc, weight: Pc -> nat)
    requires i < |ws|
    ensures Sum(ws[i := pc], weight) + weight(ws[i]) == Sum(ws, weight) + weight(pc)
  {
    if i == 0 {
      assert ws[i := pc][1..] == ws[1..];
    } else {
      SumUpdate(ws[1..], i - 1, pc, weight);
      assert ws[i := pc][1..] == ws[1..][i - 1 := pc];
    }
  }

  lemma {:induction false} SumIncludes(ws: seq<Pc>, i: nat, weight: Pc -> nat)
    requires i < |ws|
    ensures Sum(ws, weight) >= weight(ws[i])
  {
    if i > 0 {
      SumIncludes(ws[1..], i - 1, weight);
    }
  }

  lemma {:induction false} SumZero(ws: seq<Pc>, weight: Pc -> nat)
    requires forall i :: 0 <= i < |ws| ==> weight(ws[i]) == 0
    ensures Sum(ws, weight) == 0
  {
    if ws != [] {
      SumZero(ws[1..], weight);
    }
  }

  /** Workers that will look at the queue before they can sleep again. */
  function Ready(pc: Pc): nat
  {
    if pc == Test || pc == Check then 1 else 0
  }

  function JobOf(pc: Pc): seq<Job>
  {
    if pc.Running? then [pc.job] else []
  }

  function Held(ws: seq<Pc>): seq<Job>
  {
    if ws == [] then [] else JobOf(ws[0]) + Held(ws[1..])
  }

  /** The jobs that some worker has taken and not finished. */
  function RunningJobs(ws: seq<Pc>): multiset<Job>
  {
    multiset(Held(ws))
  }

  lemma {:induction false} HeldAppend(a: seq<Pc>, b: seq<Pc>)
    ensures Held(a + b) == Held(a) + Held(b)
  {
    if a == [] {
      assert a + b == b;
    } else {
      HeldAppend(a[1..], b);
      assert (a + b)[0] == a[0] && (a + b)[1..] == a[1..] + b;
      SeqAssoc(JobOf(a[0]), Held(a[1..]), Held(b));
    }
  }

  lemma HeldAround(before: seq<Pc>, pc: Pc, behind: seq<Pc>)
    ensures Held(before + ([pc] + behind)) == Held(before) + (JobOf(pc) + Held(behind))
  {
    HeldAppend(before, [pc] + behind);
    assert ([pc] + behind)[1..] == behind;
  }

  lemma RunningUpdate(ws: seq<Pc>, i: nat, pc: Pc)
    requires i < |ws|
    ensures RunningJobs(ws[i := pc]) + multiset(JobOf(ws[i])) == RunningJobs(ws) + multiset(JobOf(pc))
  {
    var before, behind := ws[..i], ws[i + 1..];
    assert ws == before + ([ws[i]] + behind) && ws[i := pc] == before + ([pc] + behind);
    HeldAround(before, ws[i], behind);
    HeldAround(before, pc, behind);
    Swap(Held(before), JobOf(pc), Held(behind), JobOf(ws[i]));
  }

  lemma Swap(a: seq<Job>, b: seq<Job>, c: seq<Job>, d: seq<Job>)
    ensures multiset(a + (b + c)) + multiset(d) == multiset(a + (d + c)) + multiset(b)
  {
  }

  lemma RunningUnchanged(ws: seq<Pc>, i: nat, pc: Pc)
    requires i < |ws| && !ws[i].Running? && !pc.Running?
    ensures RunningJobs(ws[i := pc]) == RunningJobs(ws)
  {
    RunningUpdate(ws, i, pc);
    Unit(RunningJobs(ws[i := pc]));
    Unit(RunningJobs(ws));
  }

  lemma Unit(a: multiset<Job>)
    ensures a + multiset{} == a
  {
  }

  lemma {:induction false} RunningNone(ws: seq<Pc>)
    requires forall i :: 0 <= i < |ws| ==> !ws[i].Running?
    ensures Held(ws) == [] && RunningJobs(ws) == multiset{}
  {
    if ws != [] {
      RunningNone(ws[1..]);
    }
  }

  lemma {:induction false} RunningWakeAll(ws: seq<Pc>)
    ensures Held(WakeAll(ws)) == Held(ws)
  {
    if ws != [] {
      RunningWakeAll(ws[1..]);
      assert WakeAll(ws)[1..] == WakeAll(ws[1..]);
    }
  }

  // ---------- What every step keeps ----------

  /** Submitted jobs, in push order, are the taken ones, then the queued ones, then the dropped ones. */
  ghost predicate Ledger(s: State)
  {
    && s.submitted == s.taken + s.queue + s.discarded
    && (if s.phase == Destroyed then s.queue == [] else s.discarded == [])
    && multiset(s.taken) == s.finished + RunningJobs(s.workers)
  }

  /** While unstopped, a sleeper implies every queued job has a notification or a worker coming. */
  ghost predicate NoLostWakeup(s: State)
  {
    s.phase == Alive && !NobodyAsleep(s.workers) ==> |s.queue| <= s.pending + Sum(s.workers, Ready)
  }

  /** How far the workers can be, given the destructor's progress. */
  ghost predicate PhaseFits(s: State)
  {
    && (s.phase == Alive ==> forall i :: 0 <= i < |s.workers| ==> s.workers[i] != Exited)
    && (s.phase == Notified || s.phase == Destroyed ==> NobodyAsleep(s.workers))
    && (s.phase == Destroyed ==> AllExited(s.workers))
  }

  ghost predicate Inv(s: State)
  {
    Ledger(s) && NoLostWakeup(s) && PhaseFits(s)
  }

  lemma InitInv(n: nat)
    ensures Inv(Init(n))
  {
    RunningNone(Init(n).workers);
  }

  lemma LedgerTake(s: State, i: nat)
    requires Ledger(s) && Enabled(s, WorkerStep(i))
    requires s.workers[i] == Check && s.phase == Alive && s.queue != []
    ensures Ledger(StepWorker(s, i))
  {
    var j, t := s.queue[0], StepWorker(s, i);
    assert s.queue == [j] + s.queue[1..];
    assert s.taken + s.queue + s.discarded == (s.taken + [j]) + s.queue[1..] + s.discarded;
    RunningUpdate(s.workers, i, Running(j));
    Unit(RunningJobs(t.workers));
    assert RunningJobs(t.workers) == RunningJobs(s.workers) + multiset{j};
    assert multiset(s.taken + [j]) == multiset(s.taken) + multiset{j};
  }

  lemma LedgerDone(s: State, i: nat)
    requires Ledger(s) && Enabled(s, WorkerStep(i)) && s.workers[i].Running?
    ensures Ledger(StepWorker(s, i))
  {
    var j, t := s.workers[i].job, StepWorker(s, i);
    RunningUpdate(s.workers, i, Test);
    Unit(RunningJobs(s.workers));
    assert RunningJobs(t.workers) + multiset{j} == RunningJobs(s.workers);
  }

  lemma LedgerWorker(s: State, i: nat)
    requires Ledger(s) && PhaseFits(s) && Enabled(s, WorkerStep(i))
    ensures Ledger(StepWorker(s, i))
  {
    if s.workers[i].Running? {
      LedgerDone(s, i);
    } else if s.workers[i] == Check && s.phase == Alive && s.queue != [] {
      LedgerTake(s, i);
    } else {
      RunningUnchanged(s.workers, i, StepWorker(s, i).workers[i]);
    }
  }

  lemma LedgerStep(s: State, a: Action)
    requires Ledger(s) && PhaseFits(s) && Enabled(s, a)
    ensures Ledger(Apply(s, a))
  {
    match a
    case NotifyOne(i) => RunningUnchanged(s.workers, i, Check);
    case SpuriousWake(i) => RunningUnchanged(s.workers, i, Check);
    case NotifyAll => RunningWakeAll(s.workers);
    case WorkerStep(i) => LedgerWorker(s, i);
    case Push(j) => assert s.taken + s.queue + [] + [j] == s.taken + (s.queue + [j]) + [];
    case NotifyNobody =>
    case SetStop =>
    case Finish => assert s.taken + s.queue + [] == s.taken + [] + s.queue;
  }

  lemma WakeupStep(s: State, a: Action)
    requires NoLostWakeup(s) && Enabled(s, a)
    ensures NoLostWakeup(Apply(s, a))
  {
    match a
    case NotifyOne(i) => SumUpdate(s.workers, i, Check, Ready);
    case SpuriousWake(i) => SumUpdate(s.workers, i, Check, Ready);
    case WorkerStep(i) =>
      var pc := Apply(s, a).workers[i];
      SumUpdate(s.workers, i, pc, Ready);
      if pc != Asleep && !NobodyAsleep(Apply(s, a).workers) {
        SleeperWas(s.workers, i, pc);
      }
    case Push(j) =>
    case NotifyNobody =>
    case SetStop =>
    case NotifyAll =>
    case Finish =>
  }

  lemma SleeperWas(ws: seq<Pc>, i: nat, pc: Pc)
    requires i < |ws| && pc != Asleep && !NobodyAsleep(ws[i := pc])
    ensures !NobodyAsleep(ws)
  {
    var k :| 0 <= k < |ws| && ws[i := pc][k] == Asleep;
    assert ws[k] == Asleep;
  }

  lemma PhaseStep(s: State, a: Action)
    requires PhaseFits(s) && Enabled(s, a)
    ensures PhaseFits(Apply(s, a))
  {
  }

  lemma {:induction false} RunInv(s: State, acts: seq<Action>)
    requires Inv(s) && IsRun(s, acts)
    ensures Inv(Run(s, acts))
    decreases |acts|
  {
    if acts != [] {
      LedgerStep(s, acts[0]);
      WakeupStep(s, acts[0]);
      PhaseStep(s, acts[0]);
      RunInv(Apply(s, acts[0]), acts[1..]);
    }
  }

  // ---------- Never strands work ----------

  /** In every interleaving of a pool of any size: no sleeper is left behind a queued job. */
  lemma NeverStrandsWork(n: nat, acts: seq<Action>)
    requires IsRun(Init(n), acts)
    ensures var s := Run(Init(n), acts);
            && |s.workers| == n && NoLostWakeup(s)
            && (s.phase == Alive && s.pending == 0 && Sum(s.workers, Ready) == 0 && s.queue != [] ==>
                  NobodyAsleep(s.workers))
  {
    InitInv(n);
    RunInv(Init(n), acts);
    WorkersKept(Init(n), acts);
  }

  /** In every interleaving: each submission is taken at most once, in order, and runs once if taken. */
  lemma ExactlyOnceInOrder(n: nat, acts: seq<Action>)
    requires IsRun(Init(n), acts)
    ensures var s := Run(Init(n), acts);
            && s.submitted == s.taken + s.queue + s.discarded
            && multiset(s.taken) == s.finished + RunningJobs(s.workers)
            && (s.phase == Destroyed ==>
                  && s.finished == multiset(s.taken)
                  && s.discarded == s.submitted[|s.taken|..] && s.queue == [])
  {
    InitInv(n);
    RunInv(Init(n), acts);
    var s := Run(Init(n), acts);
    if s.phase == Destroyed {
      DestroyedTotals(s);
    }
  }

  // ---------- Progress without new jobs ----------

  /** A step the pool takes by itself: no new job, no destructor, no spurious wake-up. */
  predicate Internal(a: Action)
  {
    a.NotifyOne? || a.NotifyNobody? || a.WorkerStep?
  }

  /** Steps with no new job and no destructor; spurious wake-ups may come in between. */
  predicate LeftAlone(acts: seq<Action>)
  {
    forall i :: 0 <= i < |acts| ==> Internal(acts[i]) || acts[i].SpuriousWake?
  }

  function InternalSteps(acts: seq<Action>): nat
  {
    if acts == [] then 0 else (if Internal(acts[0]) then 1 else 0) + InternalSteps(acts[1..])
  }

  function SpuriousWakes(acts: seq<Action>): nat
  {
    if acts == [] then 0 else (if acts[0].SpuriousWake? then 1 else 0) + SpuriousWakes(acts[1..])
  }

  function Work(pc: Pc): nat
  {
    match pc
    case Running(_) => 3
    case Test => 2
    case Check => 1
    case Asleep => 0
    case Exited => 0
  }

  function Measure(s: State): nat
  {
    3 * |s.queue| + 2 * s.pending + Sum(s.workers, Work)
  }

  lemma InternalStepDecreases(s: State, a: Action)
    requires Enabled(s, a) && Internal(a)
    ensures Measure(Apply(s, a)) < Measure(s)
  {
    match a
    case NotifyOne(i) => SumUpdate(s.workers, i, Check, Work);
    case NotifyNobody =>
    case WorkerStep(i) => SumUpdate(s.workers, i, Apply(s, a).workers[i], Work);
  }

  lemma SpuriousStepCostsOne(s: State, a: Action)
    requires Enabled(s, a) && a.SpuriousWake?
    ensures Measure(Apply(s, a)) == Measure(s) + 1
  {
    SumUpdate(s.workers, a.i, Check, Work);
  }

  /** Each step of the pool uses up measure; only a spurious wake-up adds to it, and only one. */
  lemma {:induction false} RunsLeftAloneEnd(s: State, acts: seq<Action>)
    requires IsRun(s, acts) && LeftAlone(acts)
    ensures InternalSteps(acts) + Measure(Run(s, acts)) <= Measure(s) + SpuriousWakes(acts)
    ensures Run(s, acts).phase == s.phase && Run(s, acts).submitted == s.submitted
    ensures |Run(s, acts).workers| == |s.workers|
    decreases |acts|
  {
    if acts != [] {
      if Internal(acts[0]) {
        InternalStepDecreases(s, acts[0]);
      } else {
        SpuriousStepCostsOne(s, acts[0]);
      }
      assert forall i :: 0 <= i < |acts[1..]| ==> acts[1..][i] == acts[i + 1];
      RunsLeftAloneEnd(Apply(s, acts[0]), acts[1..]);
    }
  }

  lemma SettledHasNoWork(s: State)
    requires Inv(s) && s.phase == Alive && |s.workers| > 0
    requires forall a :: Internal(a) ==> !Enabled(s, a)
    ensures s.queue == [] && s.taken == s.submitted && s.finished == multiset(s.submitted)
  {
    forall i | 0 <= i < |s.workers|
      ensures s.workers[i] == Asleep
    {
      assert !Enabled(s, WorkerStep(i));
    }
    assert !Enabled(s, NotifyOne(0));
    assert s.workers[0] == Asleep;
    SumZero(s.workers, Ready);
    RunningNone(s.workers);
    assert s.taken + [] + [] == s.taken;
  }

  /**
   Left alone, a pool with at least one worker takes at most `Measure` more steps, in any order, plus
   one for each spurious wake-up, and once it can take none it has run every job ever submitted.
   */
  lemma AllJobsGetDone(n: nat, past: seq<Action>, acts: seq<Action>)
    requires n > 0 && IsRun(Init(n), past) && Run(Init(n), past).phase == Alive
    requires IsRun(Run(Init(n), past), acts) && LeftAlone(acts)
    ensures var s := Run(Init(n), past);
            var t := Run(s, acts);
            && |s.workers| == |t.workers| == n
            && InternalSteps(acts) <= Measure(s) + SpuriousWakes(acts)
            && ((forall a :: Internal(a) ==> !Enabled(t, a)) ==>
                  t.queue == [] && t.taken == s.submitted && t.finished == multiset(s.submitted))
  {
    InitInv(n);
    RunInv(Init(n), past);
    var s := Run(Init(n), past);
    RunInv(s, acts);
    RunsLeftAloneEnd(s, acts);
    WorkersKept(Init(n), past);
    WorkersKept(s, acts);
    var t := Run(s, acts);
    if forall a :: Internal(a) ==> !Enabled(t, a) {
      SettledHasNoWork(t);
    }
  }

  lemma {:induction false} WorkersKept(s: State, acts: seq<Action>)
    requires IsRun(s, acts)
    ensures |Run(s, acts).workers| == |s.workers|
    decreases |acts|
  {
    if acts != [] {
      WorkersKept(Apply(s, acts[0]), acts[1..]);
    }
  }

  // ---------- All workers at once ----------

  lemma {:induction false} RunThen(s: State, acts: seq<Action>, a: Action)
    requires IsRun(s, acts) && Enabled(Run(s, acts), a)
    ensures IsRun(s, acts + [a]) && Run(s, acts + [a]) == Apply(Run(s, acts), a)
    decreases |acts|
  {
    if acts == [] {
      assert [] + [a] == [a] && [a][1..] == [];
    } else {
      RunThen(Apply(s, acts[0]), acts[1..], a);
      assert (acts + [a])[0] == acts[0] && (acts + [a])[1..] == acts[1..] + [a];
    }
  }

  /** The first `k` workers run the first `k` jobs; the others have not begun. */
  predicate Busy(s: State, jobs: seq<Job>, k: nat)
  {
    && k <= |jobs| == |s.workers| && s.phase == Alive && s.queue == jobs[k..]
    && forall i :: 0 <= i < |jobs| ==> s.workers[i] == if i < k then Running(jobs[i]) else Test
  }

  lemma {:induction false} AllPushed(n: nat, jobs: seq<Job>) returns (acts: seq<Action>)
    ensures IsRun(Init(n), acts)
    ensures var s := Run(Init(n), acts); s.queue == jobs && s.phase == Alive && s.workers == Init(n).workers
    decreases |jobs|
  {
    if jobs == [] {
      acts := [];
    } else {
      var last := jobs[|jobs| - 1];
      acts := AllPushed(n, jobs[..|jobs| - 1]);
      RunThen(Init(n), acts, Push(last));
      acts := acts + [Push(last)];
      assert jobs[..|jobs| - 1] + [last] == jobs;
    }
  }

  lemma {:induction false} BusyUpTo(jobs: seq<Job>, k: nat) returns (acts: seq<Action>)
    requires k <= |jobs|
    ensures IsRun(Init(|jobs|), acts) && Busy(Run(Init(|jobs|), acts), jobs, k)
    decreases k
  {
    if k == 0 {
      acts := AllPushed(|jobs|, jobs);
    } else {
      acts := BusyUpTo(jobs, k - 1);
      RunThen(Init(|jobs|), acts, WorkerStep(k - 1));
      acts := acts + [WorkerStep(k - 1)];
      RunThen(Init(|jobs|), acts, WorkerStep(k - 1));
      acts := acts + [WorkerStep(k - 1)];
    }
  }

  /** No interleaving is missing: clients, awake workers and spurious wake-ups may always step. */
  lemma StepsArePossible(s: State, j: Job, i: nat)
    ensures s.phase != Destroyed ==> Enabled(s, Push(j))
    ensures s.phase == Alive ==> Enabled(s, SetStop)
    ensures i < |s.workers| ==> (Enabled(s, WorkerStep(i)) <==> s.workers[i] != Asleep && s.workers[i] != Exited)
    ensures i < |s.workers| && s.workers[i] == Asleep ==>
              Enabled(s, SpuriousWake(i)) && (s.pending > 0 ==> Enabled(s, NotifyOne(i)))
  {
  }

  /** The workers are concurrent: a pool of any size can have every worker running a job of its own. */
  lemma AllWorkersBusyAtOnce(jobs: seq<Job>)
    ensures exists acts :: IsRun(Init(|jobs|), acts)
                        && RunningAll(Run(Init(|jobs|), acts).workers, jobs)
  {
    var acts := BusyUpTo(jobs, |jobs|);
    assert RunningAll(Run(Init(|jobs|), acts).workers, jobs);
  }

  predicate RunningAll(ws: seq<Pc>, jobs: seq<Job>)
  {
    |ws| == |jobs| && forall i :: 0 <= i < |jobs| ==> ws[i] == Running(jobs[i])
  }

  // ---------- Shutdown ----------

  predicate FromClient(a: Action)
  {
    a.Push? || a.NotifyOne? || a.NotifyNobody?
  }

  function StopWork(pc: Pc): nat
  {
    match pc
    case Running(_) => 3
    case Test => 2
    case Asleep => 2
    case Check => 1
    case Exited => 0
  }

  /** Steps the workers and the destructor can still take once `_stop` is set. */
  function StopRank(s: State): nat
  {
    Sum(s.workers, StopWork)
    + (match s.phase case Alive => 3 case Stopping => 2 case Notified => 1 case Destroyed => 0)
  }

  lemma {:induction false} WakeAllLowers(ws: seq<Pc>)
    ensures Sum(WakeAll(ws), StopWork) <= Sum(ws, StopWork)
  {
    if ws != [] {
      WakeAllLowers(ws[1..]);
      assert WakeAll(ws)[1..] == WakeAll(ws[1..]);
    }
  }

  /** Once stopped, no step puts a worker to sleep or takes a job. */
  lemma StoppedStep(s: State, a: Action)
    requires s.Stop() && Enabled(s, a)
    ensures var t := Apply(s, a);
            && t.Stop() && t.taken == s.taken
            && t.submitted == s.submitted + (if a.Push? then [a.job] else [])
            && (forall i :: 0 <= i < |t.workers| && t.workers[i] == Asleep ==> s.workers[i] == Asleep)
  {
  }

  /** The rank goes down with every step of the pool and never goes up. */
  lemma StoppedRank(s: State, a: Action)
    requires s.Stop() && Enabled(s, a)
    ensures if FromClient(a) then StopRank(Apply(s, a)) <= StopRank(s)
            else StopRank(Apply(s, a)) < StopRank(s)
  {
    match a
    case NotifyOne(i) => SumUpdate(s.workers, i, Check, StopWork);
    case SpuriousWake(i) => SumUpdate(s.workers, i, Check, StopWork);
    case WorkerStep(i) => SumUpdate(s.workers, i, Apply(s, a).workers[i], StopWork);
    case NotifyAll => WakeAllLowers(s.workers);
    case Push(j) =>
    case NotifyNobody =>
    case SetStop =>
    case Finish =>
  }

  /** Number of actions in a run that are not calls of `addJob`. */
  function PoolSteps(acts: seq<Action>): nat
  {
    if acts == [] then 0 else (if FromClient(acts[0]) then 0 else 1) + PoolSteps(acts[1..])
  }

  function Pushed(acts: seq<Action>): seq<Job>
  {
    if acts == [] then [] else (if acts[0].Push? then [acts[0].job] else []) + Pushed(acts[1..])
  }

  lemma {:induction false} StoppedRunRank(s: State, acts: seq<Action>)
    requires s.Stop() && IsRun(s, acts)
    ensures Run(s, acts).Stop() && PoolSteps(acts) + StopRank(Run(s, acts)) <= StopRank(s)
    decreases |acts|
  {
    if acts != [] {
      StoppedRank(s, acts[0]);
      StoppedRunRank(Apply(s, acts[0]), acts[1..]);
    }
  }

  lemma {:induction false} StoppedRunTakesNothing(s: State, acts: seq<Action>)
    requires s.Stop() && IsRun(s, acts)
    ensures Run(s, acts).taken == s.taken && Run(s, acts).submitted == s.submitted + Pushed(acts)
    decreases |acts|
  {
    if acts != [] {
      var t := Apply(s, acts[0]);
      StoppedStep(s, acts[0]);
      StoppedRunTakesNothing(t, acts[1..]);
      var first := if acts[0].Push? then [acts[0].job] else [];
      assert (s.submitted + first) + Pushed(acts[1..]) == s.submitted + (first + Pushed(acts[1..]));
    }
  }

  /**
   Shutdown terminates: after `_stop` is set the pool takes at most `StopRank` further steps of its
   own, and until it is destroyed one of its steps is always enabled.
   */
  lemma ShutdownTerminates(n: nat, past: seq<Action>, acts: seq<Action>)
    requires IsRun(Init(n), past) && Run(Init(n), past).Stop()
    requires IsRun(Run(Init(n), past), acts)
    ensures var s := Run(Init(n), past);
            var t := Run(s, acts);
            && PoolSteps(acts) <= StopRank(s)
            && (t.phase != Destroyed ==> exists a :: !FromClient(a) && !a.SpuriousWake? && Enabled(t, a))
            && (t.phase == Notified || t.phase == Destroyed ==> NobodyAsleep(t.workers))
  {
    InitInv(n);
    RunInv(Init(n), past);
    var s := Run(Init(n), past);
    RunInv(s, acts);
    StoppedRunRank(s, acts);
    var t := Run(s, acts);
    if t.phase == Stopping {
      assert Enabled(t, NotifyAll);
    } else if t.phase == Notified {
      if AllExited(t.workers) {
        assert Enabled(t, Finish);
      } else {
        var i :| 0 <= i < |t.workers| && t.workers[i] != Exited;
        assert Enabled(t, WorkerStep(i));
      }
    }
  }

  /**
   The documentation says the destructor waits for all jobs. It does so exactly when the queue is
   empty at the moment `_stop` is set and nothing is submitted afterwards; otherwise the jobs queued
   then and the later ones are dropped.
   */
  lemma DestructorRunsAllIffQueueEmpty(n: nat, past: seq<Action>, acts: seq<Action>)
    requires IsRun(Init(n), past) && Run(Init(n), past).phase == Alive
    requires IsRun(Run(Init(n), past), [SetStop] + acts)
    requires Run(Run(Init(n), past), [SetStop] + acts).phase == Destroyed
    ensures var s := Run(Init(n), past);
            var t := Run(s, [SetStop] + acts);
            && t.discarded == s.queue + Pushed(acts)
            && (t.finished == multiset(t.submitted) <==> s.queue == [] && Pushed(acts) == [])
  {
    InitInv(n);
    RunInv(Init(n), past);
    var s := Run(Init(n), past);
    var all := [SetStop] + acts;
    assert all[0] == SetStop && all[1..] == acts;
    RunInv(s, all);
    var t := Run(s, all);
    StoppedRunTakesNothing(Apply(s, SetStop), acts);
    DestroyedLedger(s, t, Pushed(acts));
  }

  lemma DestroyedLedger(s: State, t: State, late: seq<Job>)
    requires Inv(s) && s.phase == Alive && Inv(t) && t.phase == Destroyed
    requires t.taken == s.taken && t.submitted == s.submitted + late
    ensures t.discarded == s.queue + late
    ensures t.finished == multiset(t.submitted) <==> s.queue == [] && late == []
  {
    DestroyedTotals(t);
    assert s.submitted == s.taken + s.queue + [] == s.taken + s.queue;
    SameBehind(s.taken, s.queue, late, t.discarded);
    NothingMore(t.taken, t.discarded);
  }

  lemma DestroyedTotals(t: State)
    requires Ledger(t) && PhaseFits(t) && t.phase == Destroyed
    ensures t.finished == multiset(t.taken) && t.submitted == t.taken + t.discarded
  {
    RunningNone(t.workers);
    Unit(t.finished);
    assert t.taken + [] == t.taken;
  }

  lemma SameBehind(front: seq<Job>, a: seq<Job>, b: seq<Job>, c: seq<Job>)
    requires front + a + b == front + c
    ensures c == a + b
  {
    SeqAssoc(front, a, b);
    assert (front + (a + b))[|front|..] == a + b && (front + c)[|front|..] == c;
  }

  lemma NothingMore(a: seq<Job>, b: seq<Job>)
    ensures multiset(a) == multiset(a + b) <==> b == []
  {
    if b != [] {
      assert |multiset(a + b)| == |a| + |b|;
    }
  }

  /** One worker, one job submitted and the pool destroyed at once: the job never runs. */
  lemma DestructorCanDropAJob(j: Job)
    ensures var acts := [Push(j), SetStop, NotifyAll, WorkerStep(0), Finish];
            IsRun(Init(1), acts) && Run(Init(1), acts).discarded == [j]
            && Run(Init(1), acts).finished == multiset{}
  {
    var s0 := Init(1);
    var s1 := Apply(s0, Push(j));
    var s2 := Apply(s1, SetStop);
    var s3 := Apply(s2, NotifyAll);
    var s4 := Apply(s3, WorkerStep(0));
    assert s4.workers == [Exited];
    var a4 := [Finish];
    var a3 := [WorkerStep(0), Finish];
    var a2 := [NotifyAll, WorkerStep(0), Finish];
    var a1 := [SetStop, NotifyAll, WorkerStep(0), Finish];
    var a0 := [Push(j), SetStop, NotifyAll, WorkerStep(0), Finish];
    assert a4[1..] == [] && a3[1..] == a4 && a2[1..] == a3 && a1[1..] == a2 && a0[1..] == a1;
    assert IsRun(s4, a4) && Run(s4, a4).discarded == [j];
    assert IsRun(s3, a3) && Run(s3, a3) == Run(s4, a4);
    assert IsRun(s2, a2) && Run(s2, a2) == Run(s3, a3);
    assert IsRun(s1, a1) && Run(s1, a1) == Run(s2, a2);
  }
}
