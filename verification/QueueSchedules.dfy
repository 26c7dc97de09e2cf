/** Schedules that break what list.c does not promise: a push of a node whose `next` is not NULL,
    and counter updates of a push and a pop that overlap. Each is paired with the exact condition. */
module QueueSchedules {
  import opened Options
  import opened TwoLockMachine
  import opened QueueRefinement
  import opened QueueTheorems
  import opened QueueProgress
  import opened QueueLength

  // ---------- running one thread by itself ----------

  lemma JoinRuns<A>(ss: seq<State<A>>, ls: seq<Label<A>>, ss': seq<State<A>>, ls': seq<Label<A>>)
    requires Run(ss, ls) && Run(ss', ls') && ss[|ls|] == ss'[0]
    ensures var all := ss + ss'[1..];
      Run(all, ls + ls') && all[0] == ss[0] && all[|ls + ls'|] == ss'[|ls'|]
  {
    var all, labels := ss + ss'[1..], ls + ls';
    forall i | 0 <= i < |labels| ensures Step(all[i], labels[i], all[i + 1]) {
      if i < |ls| {
        assert Step(ss[i], ls[i], ss[i + 1]);
      } else {
        assert Step(ss'[i - |ls|], ls'[i - |ls|], ss'[i - |ls| + 1]);
      }
    }
  }

  predicate PopPart<A>(pc: Pc<A>) {
    pc.PopAcquire? || pc.InHead() || pc.PopDone?
  }

  /** How many nodes will have been taken once the pop at `pc` is over, if nobody else interferes. */
  function Settled<A>(a: Fifo<A>, pc: Pc<A>): nat
    requires a.Ok()
  {
    a.taken + if PopPart(pc) && Rank(pc) >= 5 && a.Queue() != [] then 1 else 0
  }

  /** Thread `t` can run alone: it waits for no lock that somebody else holds. */
  predicate Unblocked<A>(s: State<A>, t: nat) {
    && t < |s.threads| && !s.threads[t].Idle?
    && (s.threads[t].PushAcquire? ==> !s.tailLock)
    && (s.threads[t].PopAcquire? ==> !s.headLock)
  }

  /** What running `t` alone from `s` to `s'` leaves alone. */
  ghost predicate Alone<A>(s: State<A>, a: Fifo<A>, t: nat, s': State<A>, a': Fifo<A>)
    requires t < |s.threads| && a.Ok() && a'.Ok()
  {
    && OnlyThread(s, s', t) && s'.order == s.order
    && (s.threads[t].Idle? ==> s' == s && a' == a)
    && (PopPart(s.threads[t]) ==>
          && s'.tailLock == s.tailLock && s'.tail == s.tail && s'.next == s.next
          && a'.pushed == a.pushed && Settled(a', s'.threads[t]) == Settled(a, s.threads[t])
          && (PopPart(s'.threads[t]) || s'.threads[t].Idle?))
    && (!PopPart(s.threads[t]) ==> s'.headLock == s.headLock && !PopPart(s'.threads[t]))
  }

  lemma StepsAlone<A>(s: State<A>, a: Fifo<A>, d: A, t: nat)
    requires Refines(s, a, d) && Unblocked(s, t) && Rank(s.threads[t]) > 0
    ensures Enabled(s, t)
    ensures var (s', l) := ThreadStep(s, t);
      && Allows(a, l) && OfThread(l) && l.t == t
      && Refines(s', Apply(a, l), d) && Alone(s, a, t, s', Apply(a, l))
      && (s'.threads[t].Idle? || Unblocked(s', t))
  {
    assert ThreadOk(s, Live(a, d), s.threads[t]);
    ThreadStepRefines(s, a, d, t);
    if s.threads[t].Waiting() {
      WaitingPushAlone(s, a, t);
    } else if !PopPart(s.threads[t]) {
      if Rank(s.threads[t]) >= 4 {
        LinkedPushAlone(s, a, t);
      } else {
        PushLeavesAlone(s, a, t);
      }
    } else if s.threads[t].PopLoadNext? || s.threads[t].PopMoveHead? {
      PopDecidesAlone(s, a, t);
    } else if s.threads[t].PopAcquire? || s.threads[t].PopLoadHead? {
      PopEntersAlone(s, a, t);
    } else if Rank(s.threads[t]) >= 3 {
      PopCountsAlone(s, a, t);
    } else {
      PopLeavesAlone(s, a, t);
    }
  }

  /** The step of `t` as seen by the queue and the other threads. */
  ghost predicate StepIsAlone<A>(s: State<A>, a: Fifo<A>, t: nat)
    requires Enabled(s, t)
  {
    var (s', l) := ThreadStep(s, t);
    && Allows(a, l) && OfThread(l) && l.t == t
    && Alone(s, a, t, s', Apply(a, l))
    && (s'.threads[t].Idle? || Unblocked(s', t))
  }

  lemma PopEntersAlone<A>(s: State<A>, a: Fifo<A>, t: nat)
    requires Unblocked(s, t) && Enabled(s, t) && Allows(a, ThreadStep(s, t).1)
    requires s.threads[t].PopAcquire? || s.threads[t].PopLoadHead?
    ensures StepIsAlone(s, a, t)
  {
  }

  lemma PopCountsAlone<A>(s: State<A>, a: Fifo<A>, t: nat)
    requires Unblocked(s, t) && Enabled(s, t) && Allows(a, ThreadStep(s, t).1)
    requires s.threads[t].PopLoadLen? || s.threads[t].PopStoreLen?
    ensures StepIsAlone(s, a, t)
  {
  }

  lemma PopLeavesAlone<A>(s: State<A>, a: Fifo<A>, t: nat)
    requires Unblocked(s, t) && Enabled(s, t) && Allows(a, ThreadStep(s, t).1)
    requires s.threads[t].PopRelease? || s.threads[t].PopDone?
    ensures StepIsAlone(s, a, t)
  {
  }

  lemma PopDecidesAlone<A>(s: State<A>, a: Fifo<A>, t: nat)
    requires Unblocked(s, t) && Enabled(s, t) && Allows(a, ThreadStep(s, t).1)
    requires s.threads[t].PopLoadNext? || s.threads[t].PopMoveHead?
    ensures StepIsAlone(s, a, t)
  {
  }

  lemma WaitingPushAlone<A>(s: State<A>, a: Fifo<A>, t: nat)
    requires Unblocked(s, t) && Enabled(s, t) && Allows(a, ThreadStep(s, t).1)
    requires s.threads[t].Waiting()
    ensures StepIsAlone(s, a, t)
  {
  }

  lemma LinkedPushAlone<A>(s: State<A>, a: Fifo<A>, t: nat)
    requires Unblocked(s, t) && Enabled(s, t) && Allows(a, ThreadStep(s, t).1)
    requires s.threads[t].PushTail? || s.threads[t].PushClear? || s.threads[t].PushLoadLen?
    ensures StepIsAlone(s, a, t)
  {
  }

  lemma PushLeavesAlone<A>(s: State<A>, a: Fifo<A>, t: nat)
    requires Unblocked(s, t) && Enabled(s, t) && Allows(a, ThreadStep(s, t).1)
    requires s.threads[t].PushStoreLen? || s.threads[t].PushRelease? || s.threads[t].PushDone?
    ensures StepIsAlone(s, a, t)
  {
  }

  /** Only the store changes the counter, and it stores what the load just before it saw. */
  lemma CounterAlone<A>(s: State<A>, t: nat)
    requires Unblocked(s, t) && Enabled(s, t)
    ensures var (s', l) := ThreadStep(s, t);
      && (Rank(s.threads[t]) != 3 ==> s'.length == s.length && !l.Counted?)
      && (Rank(s.threads[t]) > 3 ==> Rank(s'.threads[t]) >= 3)
      && (Rank(s.threads[t]) > 3 && Rank(s'.threads[t]) == 3 ==>
            Storing(s'.threads[t]) && s'.threads[t].v == s.length)
  {
  }

  lemma AloneTwice<A>(s: State<A>, a: Fifo<A>, t: nat, s1: State<A>, a1: Fifo<A>, s2: State<A>, a2: Fifo<A>)
    requires t < |s.threads| == |s1.threads| && a.Ok() && a1.Ok() && a2.Ok()
    requires Alone(s, a, t, s1, a1) && Alone(s1, a1, t, s2, a2)
    ensures Alone(s, a, t, s2, a2) && |s2.threads| == |s.threads|
  {
  }

  /** One step of a thread that runs alone, with all that Advance keeps track of. */
  lemma AdvanceStep<A>(s: State<A>, a: Fifo<A>, d: A, t: nat)
    returns (s': State<A>, l: Label<A>, b: Fifo<A>)
    requires Refines(s, a, d) && Unblocked(s, t)
    ensures Step(s, l, s') && OfThread(l) && l.t == t && Allows(a, l) && b == Apply(a, l)
    ensures Refines(s', b, d) && b.Ok() && Alone(s, a, t, s', b)
    ensures t < |s'.threads| && (s'.threads[t].Idle? || Unblocked(s', t))
    ensures Rank(s'.threads[t]) < Rank(s.threads[t])
    ensures Rank(s.threads[t]) != 3 ==> s'.length == s.length && !l.Counted?
    ensures Rank(s.threads[t]) > 3 ==> Rank(s'.threads[t]) >= 3
    ensures Rank(s.threads[t]) > 3 && Rank(s'.threads[t]) == 3 ==>
              Storing(s'.threads[t]) && s'.threads[t].v == s.length
  {
    StepsAlone(s, a, d, t);
    s', l := ThreadStep(s, t).0, ThreadStep(s, t).1;
    b := Apply(a, l);
    StepLowersRank(s, t);
    CounterAlone(s, t);
    StepIsLabelled(s, t);
  }

  lemma RunCons<A>(s: State<A>, l: Label<A>, ss: seq<State<A>>, ls: seq<Label<A>>)
    requires Run(ss, ls) && Step(s, l, ss[0])
    ensures Run([s] + ss, [l] + ls) && ([s] + ss)[|ls| + 1] == ss[|ls|]
  {
    hide Step;
    var all, labels := [s] + ss, [l] + ls;
    forall i | 0 <= i < |labels| ensures Step(all[i], labels[i], all[i + 1]) {
      assert i > 0 ==> Step(ss[i - 1], ls[i - 1], ss[i - 1 + 1]);
    }
  }

  lemma AcceptsCons<A>(a: Fifo<A>, l: Label<A>, ls: seq<Label<A>>)
    requires Allows(a, l) && Accepts(Apply(a, l), ls)
    ensures Accepts(a, [l] + ls) && After(a, [l] + ls) == After(Apply(a, l), ls)
  {
    assert ([l] + ls)[1..] == ls;
  }

  /** Running `t` alone took it to rank `goal` without touching the counter. */
  ghost predicate Reached<A>(
    s: State<A>, a: Fifo<A>, d: A, t: nat, goal: nat, labels: seq<Label<A>>, s': State<A>, a': Fifo<A>)
    requires t < |s.threads| && a.Ok()
  {
    && Refines(s', a', d) && Alone(s, a, t, s', a')
    && Rank(s'.threads[t]) == goal && s'.length == s.length
    && (s'.threads[t].Idle? || Unblocked(s', t))
    && (goal == 3 && Rank(s.threads[t]) > 3 ==> Storing(s'.threads[t]) && s'.threads[t].v == s.length)
    && Net(labels) == 0 && (Rank(s.threads[t]) == goal ==> s' == s)
    && forall i :: 0 <= i < |labels| ==> OfThread(labels[i]) && labels[i].t == t
  }

  lemma ReachedCons<A>(
    s: State<A>, a: Fifo<A>, d: A, t: nat, goal: nat, l: Label<A>, s1: State<A>, a1: Fifo<A>,
    ls: seq<Label<A>>, s2: State<A>, a2: Fifo<A>)
    requires t < |s.threads| == |s1.threads| && a.Ok() && a1.Ok() && Alone(s, a, t, s1, a1)
    requires OfThread(l) && l.t == t && !l.Counted? && s1.length == s.length
    requires goal <= Rank(s1.threads[t]) < Rank(s.threads[t])
    requires goal == 3 && Rank(s1.threads[t]) == 3 ==> Storing(s1.threads[t]) && s1.threads[t].v == s.length
    requires Reached(s1, a1, d, t, goal, ls, s2, a2)
    ensures Reached(s, a, d, t, goal, [l] + ls, s2, a2)
  {
    AloneTwice(s, a, t, s1, a1, s2, a2);
    NetSplit([l], ls);
  }

  /** Run thread `t` by itself up to its counter store (`goal` 3) or until its call is over (`goal` 0). */
  lemma {:induction false} Advance<A>(s: State<A>, a: Fifo<A>, d: A, t: nat, goal: nat)
    returns (states: seq<State<A>>, labels: seq<Label<A>>, a': Fifo<A>)
    requires Refines(s, a, d) && t < |s.threads| && (s.threads[t].Idle? || Unblocked(s, t))
    requires (goal == 0 && Rank(s.threads[t]) <= 2) || (goal == 3 && Rank(s.threads[t]) >= 3)
    ensures Run(states, labels) && states[0] == s && Accepts(a, labels) && a' == After(a, labels)
    ensures Reached(s, a, d, t, goal, labels, states[|labels|], a')
    decreases Rank(s.threads[t])
  {
    if Rank(s.threads[t]) == goal {
      states, labels, a' := [s], [], a;
    } else {
      var s', l, b := AdvanceStep(s, a, d, t);
      hide Step, Allows, Apply, Accepts, After, Refines, Alone, Reached;
      var rest, ls, a2 := Advance(s', b, d, t, goal);
      states, labels, a' := [s] + rest, [l] + ls, a2;
      RunCons(s, l, rest, ls);
      ReachedCons(s, a, d, t, goal, l, s', b, ls, rest[|ls|], a2);
      AcceptsCons(a, l, ls);
    }
  }

  // ---------- torn counter updates ----------

  /** Two calls from a quiet state: the push of `n` by `t` and a pop by `u`. */
  ghost predicate TwoCalls<A>(labels: seq<Label<A>>, t: nat, n: A, u: nat, op: Op<A>) {
    && |labels| >= 2 && labels[0] == Invoke(t, Push(n)) && labels[1] == Invoke(u, op)
    && forall i :: 2 <= i < |labels| ==> OfThread(labels[i]) && (labels[i].t == t || labels[i].t == u)
  }

  lemma BothCalled<A>(s: State<A>, a: Fifo<A>, d: A, t: nat, n: A, u: nat, op: Op<A>)
    returns (states: seq<State<A>>, labels: seq<Label<A>>, a': Fifo<A>)
    requires Refines(s, a, d) && s.Quiet() && t < |s.threads| && u < |s.threads| && t != u
    requires Retired(s, n) && (s.order.LateClear? ==> s.next[n] == None) && !op.Push?
    ensures Run(states, labels) && states[0] == s && labels == [Invoke(t, Push(n)), Invoke(u, op)]
    ensures Net(labels) == 0
    ensures var s' := states[2];
      && Refines(s', a', d) && s'.length == s.length && Unblocked(s', t) && Unblocked(s', u)
      && s'.threads == s.threads[t := PushAcquire(n)][u := Start(op)]
  {
    var s1, s2 := s.At(t, PushAcquire(n)), s.At(t, PushAcquire(n)).At(u, Start(op));
    var l1, l2 := Invoke(t, Push(n)), Invoke(u, op);
    CallStep(s, a, d, t, Push(n));
    CallStep(s1, Apply(a, l1), d, u, op);
    QuietLocks(s);
    hide Step, Allows, Apply, Refines;
    states, labels, a' := [s, s1, s2], [l1, l2], Apply(Apply(a, l1), l2);
    NetSplit([l1], [l2]);
  }

  lemma CallStep<A>(s: State<A>, a: Fifo<A>, d: A, t: nat, op: Op<A>)
    requires Refines(s, a, d) && t < |s.threads| && s.threads[t].Idle?
    requires op.Push? ==> Retired(s, op.n) && (s.order.LateClear? ==> s.next[op.n] == None)
    ensures var l, s' := Invoke(t, op), s.At(t, Start(op));
      Step(s, l, s') && Allows(a, l) && Refines(s', Apply(a, l), d)
  {
    StepRefines(s, a, d, Invoke(t, op), s.At(t, Start(op)));
  }

  lemma QuietLocks<A>(s: State<A>)
    requires LocksOk(s) && s.Quiet()
    ensures !s.headLock && !s.tailLock
  {
  }

  /** `labels'` continues `labels` with steps of threads `t` and `u` only. */
  ghost predicate Continues<A>(labels: seq<Label<A>>, labels': seq<Label<A>>, t: nat, u: nat) {
    && labels <= labels'
    && forall i :: |labels| <= i < |labels'| ==> OfThread(labels'[i]) && (labels'[i].t == t || labels'[i].t == u)
  }

  /** Continue a run with thread `t` alone. */
  lemma ThenAdvance<A>(ss: seq<State<A>>, ls: seq<Label<A>>, a: Fifo<A>, d: A, t: nat, goal: nat)
    returns (states: seq<State<A>>, labels: seq<Label<A>>, a': Fifo<A>)
    requires Run(ss, ls)
    requires var s := ss[|ls|];
      && Refines(s, a, d) && t < |s.threads| && (s.threads[t].Idle? || Unblocked(s, t))
      && ((goal == 0 && Rank(s.threads[t]) <= 2) || (goal == 3 && Rank(s.threads[t]) >= 3))
    ensures Run(states, labels) && states[0] == ss[0] && Continues(ls, labels, t, t) && Net(labels) == Net(ls)
    ensures var s, s' := ss[|ls|], states[|labels|];
      && Refines(s', a', d) && Alone(s, a, t, s', a') && Rank(s'.threads[t]) == goal
      && s'.length == s.length
      && (goal == 3 && Rank(s.threads[t]) > 3 ==> Storing(s'.threads[t]) && s'.threads[t].v == s.length)
  {
    hide Step;
    var more, ml, b := Advance(ss[|ls|], a, d, t, goal);
    JoinRuns(ss, ls, more, ml);
    NetSplit(ls, ml);
    states, labels, a' := ss + more[1..], ls + ml, b;
  }

  /** Continue a run with the counter store thread `t` stands before. */
  lemma ThenStore<A>(ss: seq<State<A>>, ls: seq<Label<A>>, a: Fifo<A>, d: A, t: nat)
    returns (states: seq<State<A>>, labels: seq<Label<A>>, a': Fifo<A>)
    requires Run(ss, ls)
    requires var s := ss[|ls|]; Refines(s, a, d) && t < |s.threads| && Storing(s.threads[t])
    ensures Run(states, labels) && states[0] == ss[0] && Continues(ls, labels, t, t)
    ensures var s, s' := ss[|ls|], states[|labels|];
      var delta := if s.threads[t].PushStoreLen? then 1 else -1;
      && Refines(s', a', d) && OnlyThread(s, s', t) && Rank(s'.threads[t]) == 2 && Unblocked(s', t)
      && s'.length == (s.threads[t].v + delta) % LENGTH_LIMIT && Net(labels) == Net(ls) + delta
  {
    var s := ss[|ls|];
    var s', l := StoreStep(s, a, d, t);
    JoinRuns(ss, ls, [s, s'], [l]);
    NetSplit(ls, [l]);
    states, labels, a' := ss + [s, s'][1..], ls + [l], Apply(a, l);
  }

  lemma StoreStep<A>(s: State<A>, a: Fifo<A>, d: A, t: nat) returns (s': State<A>, l: Label<A>)
    requires Refines(s, a, d) && t < |s.threads| && Storing(s.threads[t])
    ensures l == Counted(t, s.threads[t].PushStoreLen?) && Step(s, l, s')
    ensures Allows(a, l) && Refines(s', Apply(a, l), d) && OnlyThread(s, s', t)
    ensures Rank(s'.threads[t]) == 2 && Unblocked(s', t)
    ensures s'.length == (s.threads[t].v + if s.threads[t].PushStoreLen? then 1 else -1) % LENGTH_LIMIT
  {
    hide ThreadStep, Step, Refines;
    StoreEffect(s, t);
    ThreadStepRefines(s, a, d, t);
    StepIsLabelled(s, t);
    s', l := ThreadStep(s, t).0, ThreadStep(s, t).1;
  }

  lemma StoreEffect<A>(s: State<A>, t: nat)
    requires t < |s.threads| && Storing(s.threads[t])
    ensures Enabled(s, t)
    ensures var (s', l) := ThreadStep(s, t);
      && l == Counted(t, s.threads[t].PushStoreLen?)
      && OnlyThread(s, s', t) && Rank(s'.threads[t]) == 2 && Unblocked(s', t)
      && s'.length == (s.threads[t].v + if s.threads[t].PushStoreLen? then 1 else -1) % LENGTH_LIMIT
  {
  }

  /** Both threads have loaded the same counter value and neither has stored yet. */
  lemma BothLoaded<A>(s: State<A>, a: Fifo<A>, d: A, t: nat, n: A, u: nat, op: Op<A>)
    returns (states: seq<State<A>>, labels: seq<Label<A>>, a': Fifo<A>)
    requires Refines(s, a, d) && s.Quiet() && t < |s.threads| && u < |s.threads| && t != u
    requires Retired(s, n) && (s.order.LateClear? ==> s.next[n] == None) && !op.Push?
    ensures Run(states, labels) && states[0] == s && TwoCalls(labels, t, n, u, op) && Net(labels) == 0
    ensures var s' := states[|labels|];
      && Refines(s', a', d) && |s'.threads| == |s.threads| && s'.threads[t].PushStoreLen? && s'.threads[u].PopStoreLen?
      && s'.threads[t].v == s.length == s'.threads[u].v
      && forall i :: 0 <= i < |s'.threads| && i != t && i != u ==> s'.threads[i].Idle?
  {
    hide Step, Refines, Allows;
    var s0, l0, a0 := BothCalled(s, a, d, t, n, u, op);
    var s1, l1, a1 := ThenAdvance(s0, l0, a0, d, t, 3);
    states, labels, a' := ThenAdvance(s1, l1, a1, d, u, 3);
  }

  /** From every quiet state, any push and any pop can be scheduled so that the counter comes out
      wrong: the pop's update is lost. */
  lemma MixedCallsCanTear<A>(s: State<A>, a: Fifo<A>, d: A, t: nat, n: A, u: nat, op: Op<A>)
    returns (states: seq<State<A>>, labels: seq<Label<A>>)
    requires Refines(s, a, d) && s.Quiet() && t < |s.threads| && u < |s.threads| && t != u
    requires Retired(s, n) && (s.order.LateClear? ==> s.next[n] == None) && !op.Push?
    ensures Run(states, labels) && states[0] == s && TwoCalls(labels, t, n, u, op)
    ensures states[|labels|].Quiet()
    ensures Net(labels) == 0 && states[|labels|].length == (s.length + 1) % LENGTH_LIMIT
    ensures states[|labels|].length != (s.length + Net(labels)) % LENGTH_LIMIT
  {
    hide Step, Refines, Allows;
    var s2, l2, a2 := BothLoaded(s, a, d, t, n, u, op);
    var s3, l3, a3 := ThenStore(s2, l2, a2, d, u);
    var s4, l4, a4 := ThenStore(s3, l3, a3, d, t);
    var s5, l5, a5 := ThenAdvance(s4, l4, a4, d, u, 0);
    var s6, l6, a6 := ThenAdvance(s5, l5, a5, d, t, 0);
    states, labels := s6, l6;
  }

  /** Calls `p` by `t` and `q` by `u`, started in either order, and nothing else. */
  ghost predicate JustCalls<A>(labels: seq<Label<A>>, t: nat, p: Op<A>, u: nat, q: Op<A>) {
    && |labels| >= 2
    && (labels[..2] == [Invoke(t, p), Invoke(u, q)] || labels[..2] == [Invoke(u, q), Invoke(t, p)])
    && forall i :: 2 <= i < |labels| ==> OfThread(labels[i])
  }

  lemma SameSideIsExact<A>(
    s: State<A>, a: Fifo<A>, d: A, t: nat, p: Op<A>, u: nat, q: Op<A>, states: seq<State<A>>, labels: seq<Label<A>>)
    requires Refines(s, a, d) && s.Quiet() && p.Push? == q.Push?
    requires Run(states, labels) && states[0] == s && JustCalls(labels, t, p, u, q)
    ensures states[|labels|].length == (s.length + Net(labels)) % LENGTH_LIMIT
  {
    hide Step, ThreadsOk, TailOk, ChainOk, StatusOk, LocksOk, Live, History;
    SameSideOnly(labels, t, p, u, q);
    hide JustCalls, PushesOnly, PopsOnly;
    OneSideIsExact(states, labels, p.Push?);
  }

  lemma SameSideOnly<A>(labels: seq<Label<A>>, t: nat, p: Op<A>, u: nat, q: Op<A>)
    requires JustCalls(labels, t, p, u, q) && p.Push? == q.Push?
    ensures if p.Push? then PushesOnly(labels) else PopsOnly(labels)
  {
    forall i | 0 <= i < |labels| && labels[i].Invoke? ensures labels[i].op.Push? == p.Push? {
      assert i < 2 ==> labels[i] == labels[..2][i];
    }
  }

  /** Two calls started from a quiet state keep the counter exact under every schedule exactly when
      they are two pushes or two pops. */
  lemma CounterIsExactIffSameSide<A(!new)>(s: State<A>, a: Fifo<A>, d: A, t: nat, p: Op<A>, u: nat, q: Op<A>)
    requires Refines(s, a, d) && s.Quiet() && t < |s.threads| && u < |s.threads| && t != u
    requires p.Push? ==> Retired(s, p.n) && (s.order.LateClear? ==> s.next[p.n] == None)
    requires q.Push? ==> Retired(s, q.n) && (s.order.LateClear? ==> s.next[q.n] == None)
    ensures (forall states: seq<State<A>>, labels: seq<Label<A>> ::
               Run(states, labels) && states[0] == s && JustCalls(labels, t, p, u, q)
               ==> states[|labels|].length == (s.length + Net(labels)) % LENGTH_LIMIT)
            <==> p.Push? == q.Push?
  {
    hide Step, Refines, JustCalls;
    if p.Push? == q.Push? {
      forall states: seq<State<A>>, labels: seq<Label<A>>
        | Run(states, labels) && states[0] == s && JustCalls(labels, t, p, u, q)
        ensures states[|labels|].length == (s.length + Net(labels)) % LENGTH_LIMIT
      {
        SameSideIsExact(s, a, d, t, p, u, q, states, labels);
      }
    } else {
      var states, labels := EitherMixedCanTear(s, a, d, t, p, u, q);
    }
  }

  lemma EitherMixedCanTear<A>(s: State<A>, a: Fifo<A>, d: A, t: nat, p: Op<A>, u: nat, q: Op<A>)
    returns (states: seq<State<A>>, labels: seq<Label<A>>)
    requires Refines(s, a, d) && s.Quiet() && t < |s.threads| && u < |s.threads| && t != u
    requires p.Push? ==> Retired(s, p.n) && (s.order.LateClear? ==> s.next[p.n] == None)
    requires q.Push? ==> Retired(s, q.n) && (s.order.LateClear? ==> s.next[q.n] == None)
    requires p.Push? != q.Push?
    ensures Run(states, labels) && states[0] == s && JustCalls(labels, t, p, u, q)
    ensures states[|labels|].length != (s.length + Net(labels)) % LENGTH_LIMIT
  {
    hide Step, Refines;
    if p.Push? {
      states, labels := MixedCallsCanTear(s, a, d, t, p.n, u, q);
      assert labels[..2] == [Invoke(t, p), Invoke(u, q)];
    } else {
      states, labels := MixedCallsCanTear(s, a, d, u, q.n, t, p);
      assert labels[..2] == [Invoke(u, q), Invoke(t, p)];
    }
  }

  // ---------- pushing a node whose `next` is not NULL ----------

  lemma {:induction false} EnqueuedSplit<A>(p: seq<Label<A>>, q: seq<Label<A>>)
    ensures Enqueued(p + q) == Enqueued(p) + Enqueued(q)
  {
    if p == [] {
      assert p + q == q;
    } else {
      var first := if p[0].Linked? then [p[0].n] else [];
      EnqueuedSplit(p[1..], q);
      assert (p + q)[0] == p[0] && (p + q)[1..] == p[1..] + q;
      assert Enqueued(p) == first + Enqueued(p[1..]) && Enqueued(p + q) == first + Enqueued(p[1..] + q);
      hide Enqueued;
    }
  }

  lemma {:induction false} DequeuedSplit<A>(p: seq<Label<A>>, q: seq<Label<A>>)
    ensures Dequeued(p + q) == Dequeued(p) + Dequeued(q)
  {
    if p == [] {
      assert p + q == q;
    } else {
      var first := if p[0].Took? then [p[0].n] else [];
      DequeuedSplit(p[1..], q);
      assert (p + q)[0] == p[0] && (p + q)[1..] == p[1..] + q;
      assert Dequeued(p) == first + Dequeued(p[1..]) && Dequeued(p + q) == first + Dequeued(p[1..] + q);
      hide Dequeued;
    }
  }

  lemma {:induction false} NoTraffic<A>(labels: seq<Label<A>>)
    requires forall i :: 0 <= i < |labels| ==> !labels[i].Linked? && !labels[i].Took?
    ensures Enqueued(labels) == [] && Dequeued(labels) == []
  {
    if labels != [] {
      NoTraffic(labels[1..]);
    }
  }

  /** No push starts, and the client does nothing. */
  predicate PopsAndSteps<A>(labels: seq<Label<A>>) {
    forall i :: 0 <= i < |labels| ==> OfThread(labels[i]) || (labels[i].Invoke? && !labels[i].op.Push?)
  }

  /** The states a blocking pop run alone goes through up to taking the node behind the dummy. */
  function Taking<A(==)>(s: State<A>, u: nat, x: A): seq<State<A>>
    requires u < |s.threads|
  {
    var held := s.(headLock := true);
    [s, s.At(u, PopAcquire(false)), held.At(u, PopLoadHead(false)), held.At(u, PopLoadNext(false, s.head)),
     held.At(u, PopMoveHead(false, x)), held.(head := x).At(u, PopLoadLen(Some(x)))]
  }

  lemma PopEnters<A>(s: State<A>, u: nat, x: A)
    requires u < |s.threads| && s.threads[u].Idle? && !s.headLock
    ensures var ss := Taking(s, u, x); Step(s, Invoke(u, BlockingPop), ss[1]) && Step(ss[1], Tau(u), ss[2])
  {
    assert s.threads[u := PopAcquire(false)][u := PopLoadHead(false)] == s.threads[u := PopLoadHead(false)];
  }

  lemma PopReads<A>(s: State<A>, u: nat, x: A)
    requires u < |s.threads| && s.head in s.next && s.next[s.head] == Some(x)
    ensures var ss := Taking(s, u, x); Step(ss[2], Tau(u), ss[3]) && Step(ss[3], Tau(u), ss[4])
  {
    var load := PopLoadNext(false, s.head);
    assert s.threads[u := PopLoadHead(false)][u := load] == s.threads[u := load];
    assert s.threads[u := load][u := PopMoveHead(false, x)] == s.threads[u := PopMoveHead(false, x)];
  }

  lemma PopMoves<A>(s: State<A>, u: nat, x: A)
    requires u < |s.threads|
    ensures var ss := Taking(s, u, x); Step(ss[4], Took(u, x), ss[5])
  {
    assert s.threads[u := PopMoveHead(false, x)][u := PopLoadLen(Some(x))] == s.threads[u := PopLoadLen(Some(x))];
  }

  /** The first half of a blocking pop run alone: up to taking the node behind the dummy. */
  lemma PopTakes<A>(s: State<A>, u: nat) returns (states: seq<State<A>>, labels: seq<Label<A>>)
    requires u < |s.threads| && s.threads[u].Idle? && !s.headLock
    requires s.head in s.next && s.next[s.head].Some?
    ensures var x := s.next[s.head].value;
      && Run(states, labels) && |labels| == 5 && PopsAndSteps(labels)
      && Enqueued(labels) == [] && Dequeued(labels) == [x]
      && states[0] == s && states[5] == s.(headLock := true, head := x).At(u, PopLoadLen(Some(x)))
  {
    hide Step;
    var x := s.next[s.head].value;
    PopEnters(s, u, x);
    PopReads(s, u, x);
    PopMoves(s, u, x);
    states := Taking(s, u, x);
    var quiet: seq<Label<A>> := [Invoke(u, BlockingPop), Tau(u), Tau(u), Tau(u)];
    labels := quiet + [Took(u, x)];
    NoTraffic(quiet);
    EnqueuedSplit(quiet, [Took(u, x)]);
    DequeuedSplit(quiet, [Took(u, x)]);
  }

  lemma ReturnSteps<A>(s: State<A>, u: nat, r: Option<A>) returns (s1: State<A>, s2: State<A>, s3: State<A>)
    requires u < |s.threads| && s.threads[u] == PopLoadLen(r)
    ensures Step(s, Tau(u), s1) && Step(s1, Counted(u, false), s2) && Step(s2, Tau(u), s3)
    ensures s3 == s.(headLock := false, length := (s.length + LENGTH_LIMIT - 1) % LENGTH_LIMIT).At(u, PopDone(r))
  {
    s1 := s.At(u, PopStoreLen(r, s.length));
    s2 := s1.(length := (s.length + LENGTH_LIMIT - 1) % LENGTH_LIMIT).At(u, PopRelease(r));
    s3 := s2.(headLock := false).At(u, PopDone(r));
  }

  lemma ReturnIsStep<A>(s: State<A>, u: nat, r: Option<A>)
    requires u < |s.threads| && s.threads[u] == PopDone(r)
    ensures Step(s, Return(u, r), s.At(u, Idle))
  {
  }

  /** The second half: counting, releasing and returning. */
  lemma PopReturns<A>(s: State<A>, u: nat, r: Option<A>) returns (states: seq<State<A>>, labels: seq<Label<A>>)
    requires u < |s.threads| && s.threads[u] == PopLoadLen(r)
    ensures Run(states, labels) && |labels| == 4 && PopsAndSteps(labels)
    ensures Enqueued(labels) == [] && Dequeued(labels) == []
    ensures states[0] == s
    ensures states[4] == s.(headLock := false, length := (s.length + LENGTH_LIMIT - 1) % LENGTH_LIMIT).At(u, Idle)
  {
    var s1, s2, s3 := ReturnSteps(s, u, r);
    var s4 := s3.At(u, Idle);
    ReturnIsStep(s3, u, r);
    hide Step;
    states := [s, s1, s2, s3, s4];
    labels := [Tau(u), Counted(u, false), Tau(u), Return(u, r)];
    NoTraffic(labels);
    assert s4.threads == s.threads[u := Idle];
  }

  /** One whole blocking pop run alone takes exactly the node behind the dummy. */
  lemma PopOnce<A>(s: State<A>, u: nat) returns (states: seq<State<A>>, labels: seq<Label<A>>)
    requires u < |s.threads| && s.threads[u].Idle? && !s.headLock
    requires s.head in s.next && s.next[s.head].Some?
    ensures Run(states, labels) && PopsAndSteps(labels) && states[0] == s
    ensures Enqueued(labels) == [] && Dequeued(labels) == [s.next[s.head].value]
    ensures var s' := states[|labels|]; s' == s.(head := s.next[s.head].value, length := s'.length)
  {
    hide Step;
    var ss, ls := PopTakes(s, u);
    var ss', ls' := PopReturns(ss[5], u, s.next[s.head]);
    JoinRuns(ss, ls, ss', ls');
    EnqueuedSplit(ls, ls');
    DequeuedSplit(ls, ls');
    states, labels := ss + ss'[1..], ls + ls';
    assert s.threads[u := PopLoadLen(s.next[s.head])][u := Idle] == s.threads;
  }
}
