/**
 * The bounded-concurrency scan (crates/glpi-discovery/src/scanner.rs) as a state
 * machine over its steps: one task per target, a semaphore, a join loop. Every
 * valid sequence of steps is one interleaving.
 *
 * The same pattern runs the device discovery
 * (crates/glpi-discovery/src/tasks/net_discovery.rs) and the remote inventory
 * (crates/glpi-cli/src/main.rs), so the result of a task is a type parameter.
 */
module Scanner {
  import opened Common

  /** How a task ended. */
  datatype Outcome<T> = Finished(value: T) | Panicked

  datatype TaskState<T> = Waiting | Running | Ended(outcome: Outcome<T>) | Joined(outcome: Outcome<T>)

  datatype Config<A> = Config(targets: seq<A>, concurrency: nat)

  /** `probed` lists the targets whose probe has started, `joined` what the join loop has received. */
  datatype State<T> = State(
    tasks: seq<TaskState<T>>, permits: nat, probed: seq<nat>, joined: seq<(nat, Outcome<T>)>)

  datatype Step<T> = Acquire(task: nat) | End(task: nat, outcome: Outcome<T>) | Join(task: nat)

  function Start<A, T>(c: Config<A>): State<T> {
    State(seq(|c.targets|, _ => Waiting), c.concurrency, [], [])
  }

  predicate Enabled<T(==)>(s: State<T>, step: Step<T>) {
    && step.task < |s.tasks|
    && match step
       case Acquire(i) => s.tasks[i].Waiting? && s.permits > 0
       case End(i, _) => s.tasks[i].Running?
       case Join(i) => s.tasks[i].Ended?
  }

  /** The permit is held from `Acquire` to `End`, whether the probe returns or panics. */
  function Apply<T>(s: State<T>, step: Step<T>): State<T>
    requires Enabled(s, step)
  {
    match step
    case Acquire(i) => s.(tasks := s.tasks[i := Running], permits := s.permits - 1, probed := s.probed + [i])
    case End(i, outcome) => s.(tasks := s.tasks[i := Ended(outcome)], permits := s.permits + 1)
    case Join(i) =>
      var outcome := s.tasks[i].outcome;
      s.(tasks := s.tasks[i := TaskState.Joined(outcome)], joined := s.joined + [(i, outcome)])
  }

  /** The state after a valid interleaving. */
  ghost predicate Reaches<T(!new)>(s: State<T>, steps: seq<Step<T>>, s': State<T>)
    decreases |steps|
  {
    if steps == [] then s' == s
    else Enabled(s, steps[0]) && Reaches(Apply(s, steps[0]), steps[1..], s')
  }

  function RunningCount<T>(tasks: seq<TaskState<T>>): nat {
    if tasks == [] then 0 else (if tasks[0].Running? then 1 else 0) + RunningCount(tasks[1..])
  }

  ghost predicate NoRepeat(s: seq<nat>) {
    forall i, j | 0 <= i < j < |s| :: s[i] != s[j]
  }

  function Indices<T>(joined: seq<(nat, Outcome<T>)>): (ids: seq<nat>)
    ensures |ids| == |joined|
  {
    seq(|joined|, k requires 0 <= k < |joined| => joined[k].0)
  }

  /** What every reachable state keeps. */
  ghost predicate Inv<A, T>(c: Config<A>, s: State<T>) {
    && |s.tasks| == |c.targets|
    && RunningCount(s.tasks) + s.permits == c.concurrency
    && NoRepeat(s.probed)
    && (forall i | 0 <= i < |s.tasks| :: i in s.probed <==> !s.tasks[i].Waiting?)
    && NoRepeat(Indices(s.joined))
    && (forall k | 0 <= k < |s.joined| ::
          s.joined[k].0 < |s.tasks| && s.tasks[s.joined[k].0] == TaskState.Joined(s.joined[k].1))
    && (forall i | 0 <= i < |s.tasks| && s.tasks[i].Joined? :: i in Indices(s.joined))
  }

  lemma {:induction false} RunningAfterUpdate<T>(tasks: seq<TaskState<T>>, i: nat, t: TaskState<T>)
    requires i < |tasks|
    ensures RunningCount(tasks[i := t]) ==
      RunningCount(tasks) - (if tasks[i].Running? then 1 else 0) + (if t.Running? then 1 else 0)
  {
    if i == 0 {
      assert tasks[0 := t][1..] == tasks[1..];
    } else {
      assert tasks[i := t][1..] == tasks[1..][i - 1 := t];
      RunningAfterUpdate(tasks[1..], i - 1, t);
    }
  }

  lemma {:induction false} StartInv<A, T>(c: Config<A>)
    ensures Inv(c, Start<A, T>(c))
  {
    NoneRunning(Start<A, T>(c).tasks);
  }

  lemma {:induction false} NoneRunning<T>(tasks: seq<TaskState<T>>)
    requires forall i | 0 <= i < |tasks| :: !tasks[i].Running?
    ensures RunningCount(tasks) == 0
  {
    if tasks != [] { NoneRunning(tasks[1..]); }
  }

  lemma StepKeepsInv<A, T>(c: Config<A>, s: State<T>, step: Step<T>)
    requires Inv(c, s) && Enabled(s, step)
    ensures Inv(c, Apply(s, step))
  {
    var s' := Apply(s, step);
    var i := step.task;
    RunningAfterUpdate(s.tasks, i, s'.tasks[i]);
    if step.Acquire? {
      assert i !in s.probed;
      assert forall k | 0 <= k < |s.probed| :: s'.probed[k] == s.probed[k];
    }
    if step.Join? {
      assert forall k | 0 <= k < |s.joined| :: Indices(s'.joined)[k] == Indices(s.joined)[k];
      assert Indices(s'.joined) == Indices(s.joined) + [i];
    }
  }

  /** In every interleaving: permits are conserved, no target is probed or joined twice. */
  lemma {:induction false} ReachableInv<A, T(!new)>(c: Config<A>, s: State<T>, steps: seq<Step<T>>, s': State<T>)
    requires Inv(c, s) && Reaches(s, steps, s')
    ensures Inv(c, s')
    decreases |steps|
  {
    if steps != [] {
      StepKeepsInv(c, s, steps[0]);
      ReachableInv(c, Apply(s, steps[0]), steps[1..], s');
    }
  }

  ghost predicate Complete<T>(s: State<T>) {
    forall i | 0 <= i < |s.tasks| :: s.tasks[i].Joined?
  }

  function StepsLeft<T>(t: TaskState<T>): nat {
    match t case Waiting => 3 case Running => 2 case Ended(_) => 1 case Joined(_) => 0
  }

  function Left<T>(tasks: seq<TaskState<T>>): nat {
    if tasks == [] then 0 else StepsLeft(tasks[0]) + Left(tasks[1..])
  }

  lemma {:induction false} LeftAfterUpdate<T>(tasks: seq<TaskState<T>>, i: nat, t: TaskState<T>)
    requires i < |tasks|
    ensures Left(tasks[i := t]) == Left(tasks) - StepsLeft(tasks[i]) + StepsLeft(t)
  {
    if i == 0 {
      assert tasks[0 := t][1..] == tasks[1..];
    } else {
      assert tasks[i := t][1..] == tasks[1..][i - 1 := t];
      LeftAfterUpdate(tasks[1..], i - 1, t);
    }
  }

  lemma {:induction false} LeftOfWaiting<T>(tasks: seq<TaskState<T>>)
    requires forall i | 0 <= i < |tasks| :: tasks[i].Waiting?
    ensures Left(tasks) == 3 * |tasks|
  {
    if tasks != [] { LeftOfWaiting(tasks[1..]); }
  }

  lemma {:induction false} NothingLeftIff<T>(tasks: seq<TaskState<T>>)
    ensures Left(tasks) == 0 <==> forall i | 0 <= i < |tasks| :: tasks[i].Joined?
  {
    if tasks != [] {
      NothingLeftIff(tasks[1..]);
      assert (forall i | 0 <= i < |tasks| :: tasks[i].Joined?) <==>
             tasks[0].Joined? && forall i | 0 <= i < |tasks[1..]| :: tasks[1..][i].Joined?;
    }
  }

  lemma {:induction false} StepsAreCounted<T(!new)>(s: State<T>, steps: seq<Step<T>>, s': State<T>)
    requires Reaches(s, steps, s')
    ensures Left(s'.tasks) + |steps| == Left(s.tasks)
    decreases |steps|
  {
    if steps != [] {
      var next := Apply(s, steps[0]);
      LeftAfterUpdate(s.tasks, steps[0].task, next.tasks[steps[0].task]);
      StepsAreCounted(next, steps[1..], s');
    }
  }

  /** Every interleaving ends: it is complete after exactly three steps per target, and no sooner. */
  lemma {:induction false} CompleteIffAllSteps<A, T(!new)>(c: Config<A>, steps: seq<Step<T>>, s: State<T>)
    requires Reaches(Start<A, T>(c), steps, s)
    ensures |steps| <= 3 * |c.targets|
    ensures Complete(s) <==> |steps| == 3 * |c.targets|
  {
    StepsAreCounted(Start<A, T>(c), steps, s);
    LeftOfWaiting(Start<A, T>(c).tasks);
    NothingLeftIff(s.tasks);
  }

  /** No deadlock: with at least one permit in the configuration some step is enabled until the end. */
  lemma NeverStuck<A, T>(c: Config<A>, s: State<T>) returns (step: Step<T>)
    requires Inv(c, s) && c.concurrency >= 1 && !Complete(s)
    ensures Enabled(s, step)
  {
    if i :| 0 <= i < |s.tasks| && s.tasks[i].Ended? {
      step := Join(i);
    } else if i :| 0 <= i < |s.tasks| && s.tasks[i].Running? {
      step := End(i, Panicked);
    } else {
      NoneRunning(s.tasks);
      var i :| 0 <= i < |s.tasks| && !s.tasks[i].Joined?;
      step := Acquire(i);
    }
  }

  // ---- The joined results -----------------------------------------------------------

  /** When all is joined, the indices of the join order are those of the targets, each once. */
  lemma JoinOrderIsPermutation<A, T>(c: Config<A>, s: State<T>)
    requires Inv(c, s) && Complete(s)
    ensures multiset(Indices(s.joined)) == multiset(seq(|c.targets|, i => i))
  {
    var ids: seq<nat>, all := Indices(s.joined), seq(|c.targets|, i => i);
    forall i: nat ensures multiset(ids)[i] == multiset(all)[i] {
      CountOf(ids, i);
      CountOf(all, i);
      assert i in all <==> i < |c.targets| by { if i < |c.targets| { assert all[i] == i; } }
      if i in ids { var k :| 0 <= k < |ids| && ids[k] == i; assert s.joined[k].0 == i; }
      if i < |c.targets| { assert s.tasks[i].Joined?; }
    }
  }

  lemma CountOf(s: seq<nat>, x: nat)
    requires NoRepeat(s)
    ensures multiset(s)[x] == if x in s then 1 else 0
  {
    if x in s {
      var k :| 0 <= k < |s| && s[k] == x;
      assert s == s[..k] + [x] + s[k + 1..];
      assert x !in s[..k] && x !in s[k + 1..];
    }
  }

  /**
   * The indexed fan-out: results are stored by index, whatever the order of
   * completion, and a task that cannot be joined ends the collection with an error.
   */
  method StoreByIndex<T(==)>(count: nat, joined: seq<Outcome<(nat, T)>>)
    returns (collected: Result<seq<Option<T>>, ()>)
    requires forall k | 0 <= k < |joined| && joined[k].Finished? :: joined[k].value.0 < count
    requires forall j, k | 0 <= j < k < |joined| && joined[j].Finished? && joined[k].Finished? ::
      joined[j].value.0 != joined[k].value.0
    ensures collected.Err? <==> Panicked in joined
    ensures collected.Ok? ==>
      && |collected.value| == count
      && forall i: nat, v: T | i < count :: collected.value[i] == Some(v) <==> Finished((i, v)) in joined
  {
    var results: seq<Option<T>> := seq(count, _ => None);
    for n := 0 to |joined|
      invariant |results| == count && Panicked !in joined[..n]
      invariant forall k | 0 <= k < n :: joined[k].Finished? && results[joined[k].value.0] == Some(joined[k].value.1)
      invariant forall i | 0 <= i < count && results[i].Some? :: Finished((i, results[i].value)) in joined[..n]
    {
      if joined[n].Panicked? {
        return Err(());
      }
      results := results[joined[n].value.0 := Some(joined[n].value.1)];
      assert joined[..n + 1] == joined[..n] + [joined[n]];
    }
    assert joined[..|joined|] == joined;
    return Ok(results);
  }
}
