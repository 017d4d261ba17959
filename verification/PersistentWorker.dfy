/**
 `PersistentWorker` as a step system: one thread that repeats passes over a snapshot of the task
 table, while clients add and remove tasks and the destructor stops it. `addTask` changes the table
 and notifies in one locked step; the destructor sets the flag and notifies in two.
 */
module PersistentWorkers {
  import opened Wrappers

  type Name = string
  type Task = nat

  /**
   The worker: about to lock and test the wait condition; waiting; inside a pass with some tasks of
   its snapshot still to start; out of the loop.
   */
  datatype Pc = Check | Asleep | Pass(todo: seq<(Name, Task)>) | Exited

  datatype State = State(tasks: map<Name, Task>, running: bool, notifyPending: bool, pc: Pc)

  datatype Action =
    | Add(name: Name, task: Task)
    | Remove(name: Name)
    | SetStop
    | Notify
    | SpuriousWake
    | Look(order: seq<(Name, Task)>)  // the locked check; `order` is the iteration order of the snapshot
    | Start(threw: bool)              // run the next task, whether it throws or not
    | EndPass

  const Init: State := State(map[], true, false, Check)

  predicate DistinctNames(order: seq<(Name, Task)>)
  {
    forall i, j :: 0 <= i < j < |order| ==> order[i].0 != order[j].0
  }

  function Names(order: seq<(Name, Task)>): (r: seq<Name>)
    ensures |r| == |order|
  {
    seq(|order|, i requires 0 <= i < |order| => order[i].0)
  }

  /** `order` lists every entry of the table once. */
  predicate Enumerates(order: seq<(Name, Task)>, tasks: map<Name, Task>)
  {
    && |order| == |tasks| && DistinctNames(order)
    && (forall i :: 0 <= i < |order| ==> order[i].0 in tasks && tasks[order[i].0] == order[i].1)
    && (forall n :: n in tasks ==> n in Names(order))
  }

  predicate Enabled(s: State, a: Action)
  {
    match a
    case Add(_, _) => true
    case Remove(_) => true
    case SetStop => s.running
    case Notify => s.notifyPending
    case SpuriousWake => s.pc == Asleep
    case Look(order) => s.pc == Check && (s.running && s.tasks != map[] ==> Enumerates(order, s.tasks))
    case Start(_) => s.pc.Pass? && s.pc.todo != []
    case EndPass => s.pc.Pass? && s.pc.todo == []
  }

  function Wake(pc: Pc): Pc
  {
    if pc == Asleep then Check else pc
  }

  function Apply(s: State, a: Action): State
    requires Enabled(s, a)
  {
    match a
    case Add(n, t) => s.(tasks := s.tasks[n := t], pc := Wake(s.pc))
    case Remove(n) => s.(tasks := s.tasks - {n})
    case SetStop => s.(running := false, notifyPending := true)
    case Notify => s.(notifyPending := false, pc := Wake(s.pc))
    case SpuriousWake => s.(pc := Check)
    case Look(order) =>
      if !s.running then s.(pc := Exited)
      else if s.tasks == map[] then s.(pc := Asleep)
      else s.(pc := Pass(order))
    case Start(_) => s.(pc := Pass(s.pc.todo[1..]))
    case EndPass => s.(pc := if s.running then Check else Exited)
  }

  predicate IsRun(s: State, acts: seq<Action>)
    decreases |acts|
  {
    acts == [] || (Enabled(s, acts[0]) && IsRun(Apply(s, acts[0]), acts[1..]))
  }

  function Run(s: State, acts: seq<Action>): State
    requires IsRun(s, acts)
    decreases |acts|
  {
    if acts == [] then s else Run(Apply(s, acts[0]), acts[1..])
  }

  /** The tasks started during a run with their names, in order. */
  function StartedTasks(s: State, acts: seq<Action>): seq<(Name, Task)>
    requires IsRun(s, acts)
    decreases |acts|
  {
    if acts == [] then []
    else (if acts[0].Start? then [s.pc.todo[0]] else []) + StartedTasks(Apply(s, acts[0]), acts[1..])
  }

  function Started(s: State, acts: seq<Action>): (r: seq<Name>)
    requires IsRun(s, acts)
    ensures |r| == |StartedTasks(s, acts)|
  {
    Names(StartedTasks(s, acts))
  }

  lemma StartedUnfolds(s: State, acts: seq<Action>)
    requires IsRun(s, acts) && acts != []
    ensures Started(s, acts)
         == (if acts[0].Start? then [s.pc.todo[0].0] else []) + Started(Apply(s, acts[0]), acts[1..])
  {
    var first := if acts[0].Start? then [s.pc.todo[0]] else [];
    NamesAppend(first, StartedTasks(Apply(s, acts[0]), acts[1..]));
    assert Names(first) == if acts[0].Start? then [s.pc.todo[0].0] else [];
  }

  lemma NamesAppend(a: seq<(Name, Task)>, b: seq<(Name, Task)>)
    ensures Names(a + b) == Names(a) + Names(b)
  {
  }

  function Count(n: Name, names: seq<Name>): nat
  {
    if names == [] then 0 else (if names[0] == n then 1 else 0) + Count(n, names[1..])
  }

  /** No interleaving is missing: clients and a sleeping or working thread may always step. */
  lemma StepsArePossible(s: State, n: Name, t: Task, threw: bool)
    ensures Enabled(s, Add(n, t)) && Enabled(s, Remove(n)) && (s.running ==> Enabled(s, SetStop))
    ensures s.pc == Asleep ==> Enabled(s, SpuriousWake)
    ensures s.pc.Pass? ==> if s.pc.todo == [] then Enabled(s, EndPass) else Enabled(s, Start(threw))
  {
  }

  // ---------- What every step keeps ----------

  /** Asleep only with nothing to do, and never with a stop that nobody is about to announce. */
  ghost predicate WakeInv(s: State)
  {
    s.pc == Asleep ==> s.tasks == map[] && (s.running || s.notifyPending)
  }

  ghost predicate PassInv(s: State)
  {
    s.pc.Pass? ==> DistinctNames(s.pc.todo)
  }

  lemma InvStep(s: State, a: Action)
    requires WakeInv(s) && PassInv(s) && Enabled(s, a)
    ensures WakeInv(Apply(s, a)) && PassInv(Apply(s, a))
  {
    if a.Start? {
      assert forall i :: 0 <= i < |s.pc.todo[1..]| ==> s.pc.todo[1..][i] == s.pc.todo[i + 1];
    }
  }

  lemma {:induction false} RunInv(s: State, acts: seq<Action>)
    requires WakeInv(s) && PassInv(s) && IsRun(s, acts)
    ensures WakeInv(Run(s, acts)) && PassInv(Run(s, acts))
    decreases |acts|
  {
    if acts != [] {
      InvStep(s, acts[0]);
      RunInv(Apply(s, acts[0]), acts[1..]);
    }
  }

  /** In every interleaving the worker sleeps only on an empty table, and a stop always wakes it. */
  lemma SleepsOnlyWhenIdle(acts: seq<Action>)
    requires IsRun(Init, acts)
    ensures var s := Run(Init, acts);
            s.pc == Asleep ==> s.tasks == map[] && (s.running || s.notifyPending)
  {
    RunInv(Init, acts);
  }

  // ---------- Removal ----------

  predicate NeverAdds(n: Name, acts: seq<Action>)
  {
    forall i :: 0 <= i < |acts| ==> !(acts[i].Add? && acts[i].name == n)
  }

  /** How often the current pass will still start `n`. */
  function Owed(s: State, n: Name): nat
  {
    if s.pc.Pass? then Count(n, Names(s.pc.todo)) else 0
  }

  lemma {:induction false} CountAbsent(n: Name, names: seq<Name>)
    requires n !in names
    ensures Count(n, names) == 0
  {
    if names != [] {
      CountAbsent(n, names[1..]);
    }
  }

  lemma {:induction false} CountDistinct(n: Name, order: seq<(Name, Task)>)
    requires DistinctNames(order)
    ensures Count(n, Names(order)) <= 1
  {
    if order != [] {
      var tail := order[1..];
      assert Names(order)[1..] == Names(tail);
      assert forall i :: 0 <= i < |tail| ==> tail[i] == order[i + 1];
      CountDistinct(n, tail);
      if order[0].0 == n {
        assert n !in Names(tail);
        CountAbsent(n, Names(tail));
      }
    }
  }

  lemma OwedStep(s: State, a: Action, n: Name)
    requires Enabled(s, a) && n !in s.tasks && !(a.Add? && a.name == n)
    ensures n !in Apply(s, a).tasks
    ensures Owed(s, n) >= Owed(Apply(s, a), n) + (if a.Start? && s.pc.todo[0].0 == n then 1 else 0)
  {
    if a.Start? {
      assert Names(s.pc.todo)[1..] == Names(s.pc.todo[1..]);
    } else if a.Look? && Apply(s, a).pc.Pass? {
      CountAbsent(n, Names(a.order));
    }
  }

  lemma {:induction false} StartsAreOwed(s: State, acts: seq<Action>, n: Name)
    requires IsRun(s, acts) && n !in s.tasks && NeverAdds(n, acts)
    ensures Count(n, Started(s, acts)) <= Owed(s, n)
    decreases |acts|
  {
    if acts != [] {
      var t, a := Apply(s, acts[0]), acts[0];
      OwedStep(s, a, n);
      assert forall i :: 0 <= i < |acts[1..]| ==> acts[1..][i] == acts[i + 1];
      StartsAreOwed(t, acts[1..], n);
      var rest := Started(t, acts[1..]);
      StartedUnfolds(s, acts);
      if a.Start? {
        assert Started(s, acts)[1..] == rest;
      } else {
        assert Started(s, acts) == rest;
      }
    }
  }

  /**
   In every interleaving, once `removeTask(n)` has returned and as long as `n` is not added again,
   `n` is started at most once more, and not at all unless the current pass still owes it.
   */
  lemma RemovedTaskRunsAtMostOnce(past: seq<Action>, acts: seq<Action>, n: Name)
    requires IsRun(Init, past)
    requires IsRun(Apply(Run(Init, past), Remove(n)), acts) && NeverAdds(n, acts)
    ensures var s := Run(Init, past);
            var k := Count(n, Started(Apply(s, Remove(n)), acts));
            k <= 1 && (k == 1 ==> s.pc.Pass? && n in Names(s.pc.todo))
  {
    RunInv(Init, past);
    var s := Run(Init, past);
    StartsAreOwed(Apply(s, Remove(n)), acts, n);
    if s.pc.Pass? {
      CountDistinct(n, s.pc.todo);
      if n !in Names(s.pc.todo) {
        CountAbsent(n, Names(s.pc.todo));
      }
    }
  }

  // ---------- Passes ----------

  predicate WithinPass(acts: seq<Action>)
  {
    forall i :: 0 <= i < |acts| ==> acts[i] != EndPass
  }

  lemma {:induction false} PassProgress(s: State, acts: seq<Action>)
    requires IsRun(s, acts) && s.pc.Pass? && WithinPass(acts)
    ensures Run(s, acts).pc.Pass?
    ensures StartedTasks(s, acts) + Run(s, acts).pc.todo == s.pc.todo
    decreases |acts|
  {
    if acts == [] {
      assert [] + s.pc.todo == s.pc.todo;
    } else {
      var t := Apply(s, acts[0]);
      assert acts[0] != EndPass && t.pc.Pass?;
      assert forall i :: 0 <= i < |acts[1..]| ==> acts[1..][i] == acts[i + 1];
      PassProgress(t, acts[1..]);
      var rest, left := StartedTasks(t, acts[1..]), Run(t, acts[1..]).pc.todo;
      if acts[0].Start? {
        PrependTask(s.pc.todo, rest, left);
      } else {
        assert [] + rest == rest;
      }
    }
  }

  lemma NamesCons(order: seq<(Name, Task)>)
    requires order != []
    ensures Names(order) == [order[0].0] + Names(order[1..])
  {
  }

  lemma PrependTask(todo: seq<(Name, Task)>, a: seq<(Name, Task)>, b: seq<(Name, Task)>)
    requires todo != [] && a + b == todo[1..]
    ensures ([todo[0]] + a) + b == todo
  {
    assert [todo[0]] + (a + b) == todo;
  }

  /**
   A pass from its snapshot to its end starts every task of the snapshot exactly once, in the
   snapshot's order, whatever throws and whatever clients or the destructor do meanwhile.
   */
  lemma PassStartsEachTaskOnce(s: State, order: seq<(Name, Task)>, acts: seq<Action>, n: Name)
    requires s.pc == Check && s.running && s.tasks != map[] && Enumerates(order, s.tasks)
    requires IsRun(Apply(s, Look(order)), acts) && WithinPass(acts)
    requires Enabled(Run(Apply(s, Look(order)), acts), EndPass)
    ensures var started := StartedTasks(Apply(s, Look(order)), acts);
            && started == order
            && (forall i :: 0 <= i < |started| ==> started[i].0 in s.tasks && started[i].1 == s.tasks[started[i].0])
            && Count(n, Names(started)) == (if n in s.tasks then 1 else 0)
  {
    var t := Apply(s, Look(order));
    PassProgress(t, acts);
    assert StartedTasks(t, acts) + [] == StartedTasks(t, acts);
    CountDistinct(n, order);
    if n in s.tasks {
      CountPresent(n, Names(order));
    } else {
      CountAbsent(n, Names(order));
    }
  }

  lemma {:induction false} CountPresent(n: Name, names: seq<Name>)
    requires n in names
    ensures Count(n, names) >= 1
  {
    if names[0] != n {
      assert n in names[1..];
      CountPresent(n, names[1..]);
    }
  }

  // ---------- Which task is started ----------

  /** The task that clients gave `n` last, unless they removed it since. */
  function LastAdded(n: Name, acts: seq<Action>): Option<Task>
    decreases |acts|
  {
    if acts == [] then None
    else
      var a := acts[|acts| - 1];
      if a.Add? && a.name == n then Some(a.task)
      else if a == Remove(n) then None
      else LastAdded(n, acts[..|acts| - 1])
  }

  lemma {:induction false} RunSnoc(s: State, acts: seq<Action>, a: Action)
    requires IsRun(s, acts + [a])
    ensures IsRun(s, acts) && Enabled(Run(s, acts), a)
    ensures Run(s, acts + [a]) == Apply(Run(s, acts), a)
    decreases |acts|
  {
    if acts == [] {
      assert [] + [a] == [a] && [a][1..] == [];
    } else {
      assert (acts + [a])[0] == acts[0] && (acts + [a])[1..] == acts[1..] + [a];
      RunSnoc(Apply(s, acts[0]), acts[1..], a);
    }
  }

  lemma RunInit(acts: seq<Action>)
    requires acts != [] && IsRun(Init, acts)
    ensures var past, a := acts[..|acts| - 1], acts[|acts| - 1];
            IsRun(Init, past) && Enabled(Run(Init, past), a) && Run(Init, acts) == Apply(Run(Init, past), a)
  {
    assert acts == acts[..|acts| - 1] + [acts[|acts| - 1]];
    RunSnoc(Init, acts[..|acts| - 1], acts[|acts| - 1]);
  }

  /** In every interleaving the table holds, for each name, the task added last. */
  lemma {:induction false} TableHoldsLastAdded(acts: seq<Action>, n: Name)
    requires IsRun(Init, acts)
    ensures LastAdded(n, acts) == if n in Run(Init, acts).tasks then Some(Run(Init, acts).tasks[n]) else None
    decreases |acts|
  {
    if acts != [] {
      RunInit(acts);
      TableHoldsLastAdded(acts[..|acts| - 1], n);
    }
  }

  /** The snapshot a pass works on: the number of actions before the last locked check. */
  function LastLook(acts: seq<Action>): (k: nat)
    ensures k < |acts| ==> acts[k].Look? && forall j :: k < j < |acts| ==> !acts[j].Look?
    ensures k == |acts| ==> forall j :: 0 <= j < |acts| ==> !acts[j].Look?
    ensures k <= |acts|
    decreases |acts|
  {
    if acts == [] then 0
    else if acts[|acts| - 1].Look? then |acts| - 1
    else
      var k := LastLook(acts[..|acts| - 1]);
      if k < |acts| - 1 then k else |acts|
  }

  lemma {:induction false} PassHoldsSnapshot(acts: seq<Action>)
    requires IsRun(Init, acts) && Run(Init, acts).pc.Pass?
    ensures LastLook(acts) < |acts|
    ensures forall p :: p in Run(Init, acts).pc.todo ==> LastAdded(p.0, acts[..LastLook(acts)]) == Some(p.1)
    decreases |acts|
  {
    var past, a := acts[..|acts| - 1], acts[|acts| - 1];
    RunInit(acts);
    var s := Run(Init, past);
    if a.Look? {
      forall p | p in a.order
        ensures LastAdded(p.0, past) == Some(p.1)
      {
        TableHoldsLastAdded(past, p.0);
      }
    } else {
      assert s.pc.Pass?;
      PassHoldsSnapshot(past);
      assert acts[..LastLook(past)] == past[..LastLook(past)];
      assert forall p :: p in Run(Init, acts).pc.todo ==> p in s.pc.todo;
    }
  }

  /**
   In every interleaving, the task that is started is the one its name was given last before the locked
   check of the current pass: replacing a task takes effect with the next pass, and only then.
   */
  lemma StartsTheTaskAddedLast(acts: seq<Action>, threw: bool)
    requires IsRun(Init, acts) && Enabled(Run(Init, acts), Start(threw))
    ensures var (n, t) := Run(Init, acts).pc.todo[0];
            && StartedTasks(Run(Init, acts), [Start(threw)]) == [(n, t)]
            && exists k :: 0 <= k < |acts| && acts[k].Look? && (forall j :: k < j < |acts| ==> !acts[j].Look?)
                        && LastAdded(n, acts[..k]) == Some(t)
  {
    PassHoldsSnapshot(acts);
    var s := Run(Init, acts);
    assert s.pc.todo[0] in s.pc.todo;
    assert [Start(threw)][1..] == [];
    assert acts[LastLook(acts)].Look?;
  }

  // ---------- Progress ----------

  predicate WorkerOnly(acts: seq<Action>)
  {
    forall i :: 0 <= i < |acts| ==> acts[i].Look? || acts[i].Start? || acts[i].EndPass?
  }

  function Index(n: Name, names: seq<Name>): (i: nat)
    requires n in names
    ensures i < |names| && names[i] == n
  {
    if names[0] == n then 0 else 1 + Index(n, names[1..])
  }

  /** Bound on the worker steps before `n` is started. */
  function Distance(s: State, n: Name): nat
  {
    match s.pc
    case Pass(todo) =>
      if n in Names(todo) then Index(n, Names(todo)) + 1 else |todo| + 2 + |s.tasks|
    case _ => 1 + |s.tasks|
  }

  lemma DistanceStep(s: State, a: Action, n: Name)
    requires Enabled(s, a) && (a.Look? || a.Start? || a.EndPass?)
    requires s.running && n in s.tasks
    requires a.Start? ==> s.pc.todo[0].0 != n
    ensures Distance(Apply(s, a), n) < Distance(s, n)
    ensures Apply(s, a).running && Apply(s, a).tasks == s.tasks
  {
    if a.Start? {
      assert Names(s.pc.todo)[1..] == Names(s.pc.todo[1..]);
    }
  }

  /**
   While the worker runs and `n` stays in the table, any `Distance` worker steps include a start of
   `n`; and the worker is never asleep then, so no wake-up is missing.
   */
  lemma {:induction false} AddedTaskRuns(s: State, acts: seq<Action>, n: Name)
    requires WakeInv(s) && s.running && n in s.tasks
    requires IsRun(s, acts) && WorkerOnly(acts) && |acts| >= Distance(s, n)
    ensures s.pc != Asleep && n in Started(s, acts)
    decreases |acts|
  {
    StartedUnfolds(s, acts);
    if acts[0].Start? && s.pc.todo[0].0 == n {
      assert Started(s, acts)[0] == n;
    } else {
      var t := Apply(s, acts[0]);
      DistanceStep(s, acts[0], n);
      assert forall i :: 0 <= i < |acts[1..]| ==> acts[1..][i] == acts[i + 1];
      AddedTaskRuns(t, acts[1..], n);
      assert n in Started(t, acts[1..]);
    }
  }

  /** `n` stays in the table and the worker is not stopped. */
  predicate Keeps(n: Name, a: Action)
  {
    a != Remove(n) && a != SetStop
  }

  function PassesEnded(acts: seq<Action>): nat
  {
    if acts == [] then 0 else (if acts[0] == EndPass then 1 else 0) + PassesEnded(acts[1..])
  }

  /** Passes that can end before `n` is started: only one whose snapshot missed it. */
  function Misses(s: State, n: Name): nat
  {
    if s.pc.Pass? && n !in Names(s.pc.todo) then 1 else 0
  }

  lemma MissesStep(s: State, a: Action, n: Name)
    requires Enabled(s, a) && Keeps(n, a) && s.running && n in s.tasks
    requires a.Start? ==> s.pc.todo[0].0 != n
    ensures Apply(s, a).running && n in Apply(s, a).tasks
    ensures Misses(Apply(s, a), n) + (if a == EndPass then 1 else 0) <= Misses(s, n)
  {
    if a.Start? {
      NamesCons(s.pc.todo);
    }
  }

  /**
   In every interleaving, with clients adding, replacing and removing other tasks at will, a task that
   stays in the table of a running worker is started before two passes have ended.
   */
  lemma {:induction false} StartedWithinTwoPasses(s: State, acts: seq<Action>, n: Name)
    requires s.running && n in s.tasks && IsRun(s, acts)
    requires forall i :: 0 <= i < |acts| ==> Keeps(n, acts[i])
    ensures n in Started(s, acts) || PassesEnded(acts) <= Misses(s, n) <= 1
    decreases |acts|
  {
    if acts != [] {
      StartedUnfolds(s, acts);
      if acts[0].Start? && s.pc.todo[0].0 == n {
        assert Started(s, acts)[0] == n;
      } else {
        MissesStep(s, acts[0], n);
        assert forall i :: 0 <= i < |acts[1..]| ==> acts[1..][i] == acts[i + 1];
        StartedWithinTwoPasses(Apply(s, acts[0]), acts[1..], n);
      }
    }
  }

  // ---------- Stop ----------

  predicate FromClient(a: Action)
  {
    a.Add? || a.Remove?
  }

  function StopRank(s: State): nat
  {
    (match s.pc case Pass(todo) => |todo| + 1 case Asleep => 2 case Check => 1 case Exited => 0)
    + (if s.notifyPending then 1 else 0)
  }

  function TasksLeft(s: State): nat
  {
    if s.pc.Pass? then |s.pc.todo| else 0
  }

  function OwnSteps(acts: seq<Action>): nat
  {
    if acts == [] then 0 else (if FromClient(acts[0]) then 0 else 1) + OwnSteps(acts[1..])
  }

  /** Once stopped no snapshot is taken, and the rank only goes down. */
  lemma StoppedStep(s: State, a: Action)
    requires !s.running && Enabled(s, a)
    ensures var t := Apply(s, a);
            && !t.running && (t.pc.Pass? ==> s.pc.Pass?)
            && TasksLeft(t) + (if a.Start? then 1 else 0) <= TasksLeft(s)
            && (if FromClient(a) then StopRank(t) <= StopRank(s) else StopRank(t) < StopRank(s))
  {
  }

  lemma {:induction false} StoppedRun(s: State, acts: seq<Action>)
    requires !s.running && IsRun(s, acts)
    ensures !Run(s, acts).running
    ensures OwnSteps(acts) + StopRank(Run(s, acts)) <= StopRank(s)
    ensures |Started(s, acts)| <= TasksLeft(s)
    decreases |acts|
  {
    if acts != [] {
      StoppedStep(s, acts[0]);
      StartedUnfolds(s, acts);
      StoppedRun(Apply(s, acts[0]), acts[1..]);
    }
  }

  /**
   After `_running` is cleared the worker starts at most the tasks left in its current pass, takes
   at most `StopRank` more steps, and some step of its own or the destructor's is enabled until it
   has left its loop.
   */
  lemma StopTerminates(past: seq<Action>, acts: seq<Action>)
    requires IsRun(Init, past) && !Run(Init, past).running && IsRun(Run(Init, past), acts)
    ensures var s := Run(Init, past);
            var t := Run(s, acts);
            && |Started(s, acts)| <= TasksLeft(s)
            && OwnSteps(acts) <= StopRank(s)
            && (t.pc != Exited ==> exists a :: !FromClient(a) && a != SpuriousWake && Enabled(t, a))
  {
    RunInv(Init, past);
    var s := Run(Init, past);
    RunInv(s, acts);
    StoppedRun(s, acts);
    var t := Run(s, acts);
    match t.pc
    case Check => assert Enabled(t, Look([]));
    case Asleep => assert Enabled(t, Notify);
    case Pass(todo) =>
      if todo == [] {
        assert Enabled(t, EndPass);
      } else {
        assert Enabled(t, Start(false));
      }
    case Exited =>
  }
}
