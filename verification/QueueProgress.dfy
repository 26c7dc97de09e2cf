/** Deadlock freedom and bounded work: however the threads are scheduled, any set of calls finishes. */
module QueueProgress {
  import opened TwoLockMachine
  import opened QueueRefinement

  /** The most steps a thread at `pc` still has to take before its call has returned. */
  function Rank<A>(pc: Pc<A>): nat {
    match pc
    case Idle => 0
    case PushAcquire(_) => 10
    case PushPreClear(_) => 9
    case PushLoadTail(_) => 8
    case PushLink(_, _) => 7
    case PushTail(_) => 6
    case PushClear(_) => 5
    case PushLoadLen(_) => 4
    case PushStoreLen(_, _) => 3
    case PushRelease(_) => 2
    case PushDone => 1
    case PopAcquire(_) => 8
    case PopLoadHead(_) => 7
    case PopLoadNext(_, _) => 6
    case PopMoveHead(_, _) => 5
    case PopLoadLen(_) => 4
    case PopStoreLen(_, _) => 3
    case PopRelease(_) => 2
    case PopDone(_) => 1
  }

  function Work<A>(threads: seq<Pc<A>>): nat {
    if threads == [] then 0 else Rank(threads[0]) + Work(threads[1..])
  }

  lemma {:induction false} WorkUpdate<A>(threads: seq<Pc<A>>, t: nat, pc: Pc<A>)
    requires t < |threads|
    ensures Work(threads[t := pc]) == Work(threads) - Rank(threads[t]) + Rank(pc)
  {
    if t == 0 {
      assert threads[t := pc][1..] == threads[1..];
    } else {
      WorkUpdate(threads[1..], t - 1, pc);
      assert threads[t := pc][1..] == threads[1..][t - 1 := pc];
    }
  }

  lemma StepLowersRank<A>(s: State<A>, t: nat)
    requires Enabled(s, t)
    ensures var s' := ThreadStep(s, t).0;
      s'.threads == s.threads[t := s'.threads[t]] && Rank(s'.threads[t]) < Rank(s.threads[t])
  {
    hide ThreadStep;
    if s.threads[t].PushAcquire? || s.threads[t].InTail() || s.threads[t].PushDone? {
      PushLowersRank(s, t);
    } else {
      PopLowersRank(s, t);
    }
  }

  lemma PushLowersRank<A>(s: State<A>, t: nat)
    requires Enabled(s, t) && (s.threads[t].PushAcquire? || s.threads[t].InTail() || s.threads[t].PushDone?)
    ensures var s' := ThreadStep(s, t).0;
      s'.threads == s.threads[t := s'.threads[t]] && Rank(s'.threads[t]) < Rank(s.threads[t])
  {
  }

  lemma PopLowersRank<A>(s: State<A>, t: nat)
    requires Enabled(s, t) && (s.threads[t].PopAcquire? || s.threads[t].InHead() || s.threads[t].PopDone?)
    ensures var s' := ThreadStep(s, t).0;
      s'.threads == s.threads[t := s'.threads[t]] && Rank(s'.threads[t]) < Rank(s.threads[t])
  {
  }

  /** A thread inside a critical section is never blocked: its memory accesses hit live blocks. */
  lemma HolderIsEnabled<A>(s: State<A>, a: Fifo<A>, d: A, t: nat)
    requires Refines(s, a, d) && t < |s.threads| && (s.threads[t].InTail() || s.threads[t].InHead())
    ensures Enabled(s, t)
  {
    assert ThreadOk(s, Live(a, d), s.threads[t]);
  }

  /** If any thread is inside a call, some thread can take a step. */
  lemma SomeIsEnabled<A>(s: State<A>, a: Fifo<A>, d: A) returns (t: nat)
    requires Refines(s, a, d) && !s.Quiet()
    ensures Enabled(s, t)
  {
    var u :| 0 <= u < |s.threads| && !s.threads[u].Idle?;
    t := u;
    if s.threads[u].InTail() || s.threads[u].InHead() {
      HolderIsEnabled(s, a, d, u);
    } else if s.threads[u].PushAcquire? && s.tailLock {
      t :| 0 <= t < |s.threads| && s.threads[t].InTail();
      HolderIsEnabled(s, a, d, t);
    } else if s.threads[u].PopAcquire? && s.headLock {
      t :| 0 <= t < |s.threads| && s.threads[t].InHead();
      HolderIsEnabled(s, a, d, t);
    }
  }

  /** Whenever in a run some call is in progress, some thread can take a step. */
  lemma DeadlockFree<A>(states: seq<State<A>>, labels: seq<Label<A>>, k: nat) returns (t: nat)
    requires CleanRun(states, labels) && Init(states[0]) && k <= |labels| && !states[k].Quiet()
    ensures Enabled(states[k], t)
  {
    ReachableRefines(states, labels, k);
    t := SomeIsEnabled(states[k], FifoAt(states, labels, k), states[0].head);
  }

  /** The action is a thread's own: no call starts and the client does nothing. */
  predicate OfThread<A>(l: Label<A>) {
    !l.Invoke? && !l.Write? && !l.Alloc? && !l.Free?
  }

  lemma LabelledStep<A>(s: State<A>, l: Label<A>, s': State<A>)
    requires Step(s, l, s') && OfThread(l)
    ensures Enabled(s, l.t) && ThreadStep(s, l.t) == (s', l)
  {
  }

  /** A thread's step lowers the work by at least one, and a new call adds at most ten. */
  lemma WorkStep<A>(s: State<A>, l: Label<A>, s': State<A>)
    requires Step(s, l, s')
    ensures Work(s'.threads) + (if OfThread(l) then 1 else 0) <= Work(s.threads) + (if l.Invoke? then 10 else 0)
  {
    if OfThread(l) {
      LabelledStep(s, l, s');
      hide ThreadStep, Step;
      StepLowersRank(s, l.t);
      WorkUpdate(s.threads, l.t, s'.threads[l.t]);
    } else if l.Invoke? {
      WorkUpdate(s.threads, l.t, Start(l.op));
    }
  }

  lemma RunRest<A>(states: seq<State<A>>, labels: seq<Label<A>>)
    requires Run(states, labels) && labels != []
    ensures Step(states[0], labels[0], states[1])
    ensures Run(states[1..], labels[1..]) && states[1..][|labels| - 1] == states[|labels|]
  {
    hide Step;
    assert Step(states[0], labels[0], states[0 + 1]);
    forall i | 0 <= i < |labels| - 1 ensures Step(states[1..][i], labels[1..][i], states[1..][i + 1]) {
      assert Step(states[i + 1], labels[i + 1], states[i + 1 + 1]);
    }
  }

  /** How many steps the threads take in a run. */
  function Steps<A>(labels: seq<Label<A>>): nat {
    if labels == [] then 0 else (if OfThread(labels[0]) then 1 else 0) + Steps(labels[1..])
  }

  /** How many calls start in a run. */
  function Calls<A>(labels: seq<Label<A>>): nat {
    if labels == [] then 0 else (if labels[0].Invoke? then 1 else 0) + Calls(labels[1..])
  }

  /** Under every schedule, whenever calls start, whatever nodes they push and whatever the client does in
      between: the threads take at most ten steps for each call, besides what was under way at the start. */
  lemma {:induction false} BoundedWork<A>(states: seq<State<A>>, labels: seq<Label<A>>)
    requires Run(states, labels)
    ensures Steps(labels) + Work(states[|labels|].threads) <= Work(states[0].threads) + 10 * Calls(labels)
    decreases |labels|
  {
    if labels != [] {
      RunRest(states, labels);
      WorkStep(states[0], labels[0], states[1]);
      hide Step;
      BoundedWork(states[1..], labels[1..]);
    }
  }

  lemma {:induction false} OnlySteps<A>(labels: seq<Label<A>>)
    requires forall i :: 0 <= i < |labels| ==> OfThread(labels[i])
    ensures Steps(labels) == |labels| && Calls(labels) == 0
  {
    if labels != [] {
      OnlySteps(labels[1..]);
    }
  }

  lemma {:induction false} QuietIsDone<A>(threads: seq<Pc<A>>)
    requires forall t :: 0 <= t < |threads| ==> threads[t].Idle?
    ensures Work(threads) == 0
  {
    if threads != [] {
      QuietIsDone(threads[1..]);
    }
  }

  /** So a schedule without new calls ends within the work that is left, and from a quiet state the steps of
      any run are paid for by its calls. */
  lemma EveryScheduleEnds<A>(states: seq<State<A>>, labels: seq<Label<A>>)
    requires Run(states, labels)
    ensures (forall i :: 0 <= i < |labels| ==> OfThread(labels[i])) ==> |labels| <= Work(states[0].threads)
    ensures states[0].Quiet() ==> Steps(labels) <= 10 * Calls(labels)
  {
    BoundedWork(states, labels);
    if forall i :: 0 <= i < |labels| ==> OfThread(labels[i]) {
      OnlySteps(labels);
    }
    if states[0].Quiet() {
      QuietIsDone(states[0].threads);
    }
  }

  /** A run in which no thread can go on has returned from every call that was ever started. */
  lemma StuckMeansDone<A>(states: seq<State<A>>, labels: seq<Label<A>>, a: Fifo<A>, d: A)
    requires CleanRun(states, labels) && Refines(states[0], a, d)
    requires forall t :: 0 <= t < |states[|labels|].threads| ==> !Enabled(states[|labels|], t)
    ensures states[|labels|].Quiet()
  {
    RunRefines(states, labels, a, d);
    if !states[|labels|].Quiet() {
      var t := SomeIsEnabled(states[|labels|], After(a, labels), d);
    }
  }

  /** Some schedule returns from every call in progress, without starting any other. */
  lemma {:induction false} Finish<A>(s: State<A>, a: Fifo<A>, d: A)
    returns (states: seq<State<A>>, labels: seq<Label<A>>)
    requires Refines(s, a, d)
    ensures Run(states, labels) && states[0] == s && states[|labels|].Quiet()
    ensures forall i :: 0 <= i < |labels| ==> OfThread(labels[i])
    decreases Work(s.threads)
  {
    if s.Quiet() {
      states, labels := [s], [];
    } else {
      hide Step, ThreadStep, Enabled, Refines, Allows, Apply;
      var s', l, a' := NextStep(s, a, d);
      states, labels := Finish(s', a', d);
      states, labels := [s] + states, [l] + labels;
    }
  }

  /** While a call is in progress some thread can step, and its step leaves less to do. */
  lemma NextStep<A>(s: State<A>, a: Fifo<A>, d: A) returns (s': State<A>, l: Label<A>, a': Fifo<A>)
    requires Refines(s, a, d) && !s.Quiet()
    ensures Step(s, l, s') && OfThread(l) && Refines(s', a', d) && Work(s'.threads) < Work(s.threads)
  {
    hide Step, ThreadStep, Refines, Allows, Apply;
    var t := SomeIsEnabled(s, a, d);
    ThreadStepRefines(s, a, d, t);
    s', l := ThreadStep(s, t).0, ThreadStep(s, t).1;
    a' := Apply(a, l);
    StepIsLabelled(s, t);
    WorkStep(s, l, s');
  }

  lemma StepIsLabelled<A>(s: State<A>, t: nat)
    requires Enabled(s, t)
    ensures var (s', l) := ThreadStep(s, t); OfThread(l) && l.t == t && Step(s, l, s')
  {
  }
}
