/** The promise mutex: a flag, a queue of resolvers, and waiters that check the flag again
    after they are woken. A step is what runs between two awaits. */
module AsyncMutex {
  import opened Collections

  type Task = nat

  /** `Queued` awaits a promise whose resolver is in the queue; `Woken` has had it resolved
      and will run again; `Inside` is between acquiring and releasing. */
  datatype Phase = Outside | Queued | Woken | Inside | Done

  datatype State = State(locked: bool, waitQueue: seq<Task>, phase: map<Task, Phase>)

  datatype Step = Arrive(t: Task) | Recheck(t: Task) | Release(t: Task)

  predicate Enabled(s: State, step: Step) {
    match step
    case Arrive(t) => t in s.phase && s.phase[t] == Outside
    case Recheck(t) => t in s.phase && s.phase[t] == Woken
    case Release(t) => t in s.phase && s.phase[t] == Inside
  }

  /** One turn of `while (this.locked)`. */
  function Attempt(s: State, t: Task): State {
    if s.locked then State(true, s.waitQueue + [t], s.phase[t := Queued])
    else State(true, s.waitQueue, s.phase[t := Inside])
  }

  function Leave(s: State, t: Task): State {
    var phase := s.phase[t := Done];
    if s.waitQueue == [] then State(false, [], phase)
    else State(false, s.waitQueue[1..], phase[s.waitQueue[0] := Woken])
  }

  function Apply(s: State, step: Step): State {
    match step
    case Arrive(t) => Attempt(s, t)
    case Recheck(t) => Attempt(s, t)
    case Release(t) => Leave(s, t)
  }

  function In(s: State, p: Phase): set<Task> {
    set t | t in s.phase && s.phase[t] == p
  }

  predicate Is(s: State, t: Task, p: Phase) {
    t in s.phase && s.phase[t] == p
  }

  ghost predicate Inv(s: State) {
    && (forall a, b :: Is(s, a, Inside) && Is(s, b, Inside) ==> a == b)
    && (s.locked <==> exists t :: Is(s, t, Inside))
    && Distinct(s.waitQueue)
    && (forall t :: t in s.waitQueue <==> Is(s, t, Queued))
    && (s.waitQueue != [] ==> s.locked || exists t :: Is(s, t, Woken))
  }

  lemma StepInv(s: State, step: Step)
    requires Inv(s) && Enabled(s, step)
    ensures Inv(Apply(s, step))
  {
    var s' := Apply(s, step);
    match step
    case Arrive(t) => AttemptInv(s, t);
    case Recheck(t) => AttemptInv(s, t);
    case Release(t) =>
      assert Is(s, t, Inside);
      forall x ensures !Is(s', x, Inside) {
        assert Is(s', x, Inside) ==> Is(s, x, Inside);
      }
      if s.waitQueue != [] {
        var first := s.waitQueue[0];
        assert first in s.waitQueue;
        assert Is(s', first, Woken);
        assert forall x :: x in s.waitQueue <==> x == first || x in s.waitQueue[1..];
      }
  }

  lemma AttemptInv(s: State, t: Task)
    requires Inv(s) && t in s.phase && (s.phase[t] == Outside || s.phase[t] == Woken)
    ensures Inv(Attempt(s, t))
  {
    var s' := Attempt(s, t);
    if s.locked {
      forall x ensures Is(s', x, Inside) <==> Is(s, x, Inside) {
      }
      assert t !in s.waitQueue;
    } else {
      forall x ensures Is(s', x, Inside) <==> x == t {
        assert !Is(s, x, Inside);
      }
      assert Is(s', t, Inside);
    }
  }

  /** Tasks arriving at a free mutex, one `withLock` each. */
  function Start(tasks: set<Task>): State {
    State(false, [], map t | t in tasks :: Outside)
  }

  ghost predicate IsRun(tasks: set<Task>, trace: seq<State>, steps: seq<Step>) {
    && |trace| == |steps| + 1 && trace[0] == Start(tasks)
    && forall i :: 0 <= i < |steps| ==> Enabled(trace[i], steps[i]) && trace[i + 1] == Apply(trace[i], steps[i])
  }

  lemma {:induction false} RunInv(tasks: set<Task>, trace: seq<State>, steps: seq<Step>, n: nat)
    requires IsRun(tasks, trace, steps) && n <= |steps|
    ensures Inv(trace[n]) && trace[n].phase.Keys == tasks
  {
    if n > 0 {
      RunInv(tasks, trace, steps, n - 1);
      StepInv(trace[n - 1], steps[n - 1]);
      var s := trace[n - 1];
      assert s.waitQueue != [] ==> s.waitQueue[0] in s.waitQueue && Is(s, s.waitQueue[0], Queued);
    }
  }

  /** Mutual exclusion and no lost wakeup, in every reachable state: at most one task is
      inside, and when none is inside and none is on its way, none is waiting. */
  lemma SafeAndLive(tasks: set<Task>, trace: seq<State>, steps: seq<Step>, n: nat)
    requires IsRun(tasks, trace, steps) && n <= |steps|
    ensures |In(trace[n], Inside)| <= 1
    ensures In(trace[n], Inside) == {} && In(trace[n], Woken) == {} ==> In(trace[n], Queued) == {}
  {
    RunInv(tasks, trace, steps, n);
    var s := trace[n];
    if t :| t in In(s, Inside) {
      assert Is(s, t, Inside);
      forall x | x in In(s, Inside) ensures x == t {
        assert Is(s, x, Inside);
      }
      assert In(s, Inside) == {t};
    }
    if In(s, Inside) == {} && In(s, Woken) == {} {
      assert forall t :: Is(s, t, Inside) ==> t in In(s, Inside);
      assert forall t :: Is(s, t, Woken) ==> t in In(s, Woken);
      assert s.waitQueue == [];
      forall t ensures t !in In(s, Queued) {
        assert !Is(s, t, Queued);
      }
    }
  }

  /** Re-queuing cannot go on forever: every step uses up part of a finite budget. */
  function Budget(s: State): nat {
    5 * |In(s, Outside)| + 4 * (|In(s, Queued)| + |In(s, Woken)|) + 2 * |In(s, Inside)| + |In(s, Woken)|
  }

  lemma {:induction false} Moves(s: State, t: Task, p: Phase)
    requires t in s.phase && s.phase[t] != p
    ensures var s' := s.(phase := s.phase[t := p]);
      && |In(s', p)| == |In(s, p)| + 1
      && |In(s', s.phase[t])| == |In(s, s.phase[t])| - 1
      && (forall q :: q != p && q != s.phase[t] ==> In(s', q) == In(s, q))
  {
    var s', q := s.(phase := s.phase[t := p]), s.phase[t];
    MovesIn(s, t, p);
    MovesOut(s, t, p);
    forall r | r != p && r != q ensures In(s', r) == In(s, r) {
      MovesElsewhere(s, t, p, r);
    }
  }

  lemma MovesIn(s: State, t: Task, p: Phase)
    ensures In(s.(phase := s.phase[t := p]), p) == In(s, p) + {t}
  {
  }

  lemma MovesOut(s: State, t: Task, p: Phase)
    requires t in s.phase && s.phase[t] != p
    ensures In(s.(phase := s.phase[t := p]), s.phase[t]) == In(s, s.phase[t]) - {t}
  {
  }

  lemma MovesElsewhere(s: State, t: Task, p: Phase, q: Phase)
    requires t in s.phase && s.phase[t] != q && p != q
    ensures In(s.(phase := s.phase[t := p]), q) == In(s, q)
  {
  }

  lemma BudgetShrinks(s: State, step: Step)
    requires Inv(s) && Enabled(s, step)
    ensures Budget(Apply(s, step)) < Budget(s)
  {
    var t := step.t;
    match step
    case Arrive(_) => Moves(s, t, if s.locked then Queued else Inside);
    case Recheck(_) => Moves(s, t, if s.locked then Queued else Inside);
    case Release(_) =>
      Moves(s, t, Done);
      if s.waitQueue != [] {
        assert s.waitQueue[0] in s.waitQueue;
        Moves(s.(phase := s.phase[t := Done]), s.waitQueue[0], Woken);
      }
      var s1 := s.(phase := s.phase[t := Done]);
      assert Budget(s1) == Budget(s) - 2;
      SamePhases(Apply(s, step), if s.waitQueue == [] then s1 else s1.(phase := s1.phase[s.waitQueue[0] := Woken]));
  }

  lemma SamePhases(a: State, b: State)
    requires a.phase == b.phase
    ensures forall p :: In(a, p) == In(b, p)
  {
  }

  /** A run that cannot be extended has let every task through: nobody starves, although
      a newcomer may overtake a woken waiter. */
  lemma EveryoneGetsIn(tasks: set<Task>, trace: seq<State>, steps: seq<Step>)
    requires IsRun(tasks, trace, steps)
    requires forall step :: !Enabled(trace[|steps|], step)
    ensures In(trace[|steps|], Done) == tasks
  {
    var s := trace[|steps|];
    RunInv(tasks, trace, steps, |steps|);
    SafeAndLive(tasks, trace, steps, |steps|);
    forall t | t in tasks ensures s.phase[t] == Done {
      assert !Enabled(s, Arrive(t)) && !Enabled(s, Recheck(t)) && !Enabled(s, Release(t));
      assert In(s, Inside) == {} by {
        forall u ensures u !in In(s, Inside) {
          assert !Enabled(s, Release(u));
        }
      }
      assert In(s, Woken) == {} by {
        forall u ensures u !in In(s, Woken) {
          assert !Enabled(s, Recheck(u));
        }
      }
      assert t !in In(s, Queued);
    }
  }

  /** The mutex is not fair: task 2 arrives while task 1 is woken and goes in first; task 1
      has to queue again. */
  lemma NewcomerOvertakes() returns (trace: seq<State>, steps: seq<Step>)
    ensures IsRun({0, 1, 2}, trace, steps)
    ensures steps == [Arrive(0), Arrive(1), Release(0), Arrive(2), Recheck(1)]
    ensures trace[3] == Three(false, [], Done, Woken, Outside)
    ensures trace[5] == Three(true, [1], Done, Queued, Inside)
  {
    UpToTheRelease();
    AfterTheRelease();
    steps := [Arrive(0), Arrive(1), Release(0), Arrive(2), Recheck(1)];
    trace := [Three(false, [], Outside, Outside, Outside), Three(true, [], Inside, Outside, Outside),
              Three(true, [1], Inside, Queued, Outside), Three(false, [], Done, Woken, Outside),
              Three(true, [], Done, Woken, Inside), Three(true, [1], Done, Queued, Inside)];
  }

  function Three(locked: bool, waitQueue: seq<Task>, p0: Phase, p1: Phase, p2: Phase): State {
    State(locked, waitQueue, map[0 := p0, 1 := p1, 2 := p2])
  }

  predicate Follows(s: State, step: Step, s': State) {
    Enabled(s, step) && s' == Apply(s, step)
  }

  lemma UpToTheRelease()
    ensures Three(false, [], Outside, Outside, Outside) == Start({0, 1, 2})
    ensures Follows(Three(false, [], Outside, Outside, Outside), Arrive(0), Three(true, [], Inside, Outside, Outside))
    ensures Follows(Three(true, [], Inside, Outside, Outside), Arrive(1), Three(true, [1], Inside, Queued, Outside))
    ensures Follows(Three(true, [1], Inside, Queued, Outside), Release(0), Three(false, [], Done, Woken, Outside))
  {
  }

  lemma AfterTheRelease()
    ensures Follows(Three(false, [], Done, Woken, Outside), Arrive(2), Three(true, [], Done, Woken, Inside))
    ensures Follows(Three(true, [], Done, Woken, Inside), Recheck(1), Three(true, [1], Done, Queued, Inside))
  {
  }

  /** Who waits longer is woken earlier: of two in the queue the first stays before the second,
      or is the one that is woken. */
  lemma FirstComeFirstWoken(s: State, step: Step, i: nat, j: nat)
    requires Inv(s) && Enabled(s, step) && i < j < |s.waitQueue|
    ensures var s', a, b := Apply(s, step), s.waitQueue[i], s.waitQueue[j];
      && b in s'.waitQueue
      && (a in s'.waitQueue ==>
            exists k, l :: 0 <= k < l < |s'.waitQueue| && s'.waitQueue[k] == a && s'.waitQueue[l] == b)
      && (a !in s'.waitQueue ==> step.Release? && i == 0 && Is(s', a, Woken))
  {
    var s' := Apply(s, step);
    if step.Release? {
      assert s'.waitQueue[j - 1] == s.waitQueue[j];
      if i > 0 {
        assert s'.waitQueue[i - 1] == s.waitQueue[i];
      }
    } else {
      assert s'.waitQueue[i] == s.waitQueue[i] && s'.waitQueue[j] == s.waitQueue[j];
    }
  }

  /** A task that finds the lock taken goes to the end of the queue; one that finds it free
      goes in, whoever waits. */
  lemma AttemptExact(s: State, t: Task)
    requires Inv(s) && t in s.phase && (s.phase[t] == Outside || s.phase[t] == Woken)
    ensures var s' := Attempt(s, t);
      && s'.locked && (forall x :: x != t ==> (x in s'.phase <==> x in s.phase))
      && (forall x :: x in s.phase && x != t ==> s'.phase[x] == s.phase[x])
      && (s.locked ==> Is(s', t, Queued) && s'.waitQueue == s.waitQueue + [t])
      && (!s.locked ==> Is(s', t, Inside) && s'.waitQueue == s.waitQueue)
  {
  }

  /** The object itself: the phases are what its callers are doing. */
  class Mutex {
    var locked: bool
    var waitQueue: seq<Task>
    ghost var phase: map<Task, Phase>

    ghost function View(): State
      reads this
    {
      State(locked, waitQueue, phase)
    }

    constructor (tasks: set<Task>)
      ensures View() == Start(tasks) && Inv(View())
    {
      locked, waitQueue, phase := false, [], map t | t in tasks :: Outside;
    }

    /** `acquire` from its call, or from a wakeup, to its next await. */
    method TurnOfAcquire(t: Task) returns (acquired: bool)
      requires Inv(View()) && (Enabled(View(), Arrive(t)) || Enabled(View(), Recheck(t)))
      modifies this
      ensures View() == Attempt(old(View()), t) && Inv(View())
      ensures acquired <==> phase[t] == Inside
    {
      AttemptInv(View(), t);
      if locked {
        waitQueue := waitQueue + [t];
        phase := phase[t := Queued];
        return false;
      }
      locked := true;
      phase := phase[t := Inside];
      return true;
    }

    /** The release function handed out by `acquire`. */
    method Release(t: Task)
      requires Inv(View()) && Enabled(View(), Step.Release(t))
      modifies this
      ensures View() == Leave(old(View()), t) && Inv(View())
    {
      StepInv(View(), Step.Release(t));
      locked := false;
      phase := phase[t := Done];
      if waitQueue != [] {
        var next := waitQueue[0];
        waitQueue := waitQueue[1..];
        phase := phase[next := Woken];
      }
    }
  }
}
