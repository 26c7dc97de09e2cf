/** list.c publishes a node (line 26) before it clears the node's `next` (line 28). This module gives
    the exact condition under which that order is safe beside a concurrent popper. */
module DirtyPush {
  import opened Options
  import opened TwoLockMachine
  import opened QueueRefinement
  import opened QueueTheorems
  import opened QueueSchedules

  /** Thread `t` calls push with `n`; afterwards threads only step and start pops. */
  ghost predicate PushThenPops<A>(labels: seq<Label<A>>, t: nat, n: A) {
    labels != [] && labels[0] == Invoke(t, Push(n)) && PopsAndSteps(labels[1..])
  }

  lemma Join<A>(ss: seq<State<A>>, ls: seq<Label<A>>, ss': seq<State<A>>, ls': seq<Label<A>>)
    returns (states: seq<State<A>>, labels: seq<Label<A>>)
    requires Run(ss, ls) && Run(ss', ls') && ss[|ls|] == ss'[0]
    ensures Run(states, labels) && states[0] == ss[0] && states[|labels|] == ss'[|ls'|] && labels == ls + ls'
    ensures Enqueued(labels) == Enqueued(ls) + Enqueued(ls')
    ensures Dequeued(labels) == Dequeued(ls) + Dequeued(ls')
    ensures PopsAndSteps(ls) && PopsAndSteps(ls') ==> PopsAndSteps(labels)
  {
    hide Step;
    JoinRuns(ss, ls, ss', ls');
    EnqueuedSplit(ls, ls');
    DequeuedSplit(ls, ls');
    states, labels := ss + ss'[1..], ls + ls';
  }

  /** A popper left alone takes every queued node, in order. */
  lemma {:induction false} Drain<A>(s: State<A>, c: seq<A>, u: nat)
    returns (states: seq<State<A>>, labels: seq<Label<A>>)
    requires ChainOk(s, c) && u < |s.threads| && s.threads[u].Idle? && !s.headLock
    ensures Run(states, labels) && PopsAndSteps(labels) && states[0] == s
    ensures Enqueued(labels) == [] && Dequeued(labels) == c[1..]
    ensures var s' := states[|labels|]; s' == s.(head := c[|c| - 1], length := s'.length)
    decreases |c|
  {
    if |c| == 1 {
      states, labels := [s], [];
    } else {
      SecondIsNext(s, c);
      hide Step;
      var ss, ls := PopOnce(s, u);
      ChainMovesOn(s, ss[|ls|], c);
      var more, ml := Drain(ss[|ls|], c[1..], u);
      states, labels := Join(ss, ls, more, ml);
      assert [c[1]] + c[1..][1..] == c[1..];
    }
  }

  /** The pusher up to line 26, run alone. */
  lemma PublishNode<A>(s: State<A>, t: nat, n: A) returns (states: seq<State<A>>, labels: seq<Label<A>>)
    requires t < |s.threads| && s.threads[t] == PushAcquire(n) && !s.tailLock
    requires s.order.LateClear? && s.tail in s.next
    ensures Run(states, labels) && PopsAndSteps(labels) && states[0] == s
    ensures Enqueued(labels) == [n] && Dequeued(labels) == []
    ensures states[|labels|] == s.(tailLock := true, next := s.next[s.tail := Some(n)]).At(t, PushTail(n))
  {
    var s1 := s.(tailLock := true).At(t, PushLoadTail(n));
    var s2 := s1.At(t, PushLink(n, s.tail));
    var s3 := s2.(next := s.next[s.tail := Some(n)]).At(t, PushTail(n));
    assert Step(s, Tau(t), s1);
    assert Step(s1, Tau(t), s2);
    assert Step(s2, Linked(t, n), s3);
    hide Step;
    var quiet: seq<Label<A>> := [Tau(t), Tau(t)];
    states, labels := [s, s1, s2, s3], quiet + [Linked(t, n)];
    NoTraffic(quiet);
    EnqueuedSplit(quiet, [Linked(t, n)]);
    DequeuedSplit(quiet, [Linked(t, n)]);
    assert s3.threads == s.threads[t := PushTail(n)];
  }

  /** From any quiet state, pushing a node with a non-NULL `next` lets a popper that runs between
      lines 26 and 28 take one more node than the queue ever held. */
  lemma DirtyPushOverruns<A>(s: State<A>, a: Fifo<A>, d: A, t: nat, n: A, u: nat)
    returns (states: seq<State<A>>, labels: seq<Label<A>>)
    requires Refines(s, a, d) && s.Quiet() && s.order.LateClear?
    requires t < |s.threads| && u < |s.threads| && t != u && Retired(s, n) && s.next[n].Some?
    ensures Run(states, labels) && states[0] == s && PushThenPops(labels, t, n)
    ensures |Dequeued(labels)| == |a.Queue()| + |Enqueued(labels)| + 1
  {
    var c := Live(a, d);
    var s1 := s.At(t, PushAcquire(n));
    assert Step(s, Invoke(t, Push(n)), s1);
    RetiredIsOutside(s, c, n);
    QuietLocks(s);
    QueueIsRest(a, d);
    assert s.tail == c[|c| - 1] && ChainOk(s1, c);
    hide Step, Refines;
    var ss1, ls1 := Drain(s1, c, u);
    var s2 := ss1[|ls1|];
    var ss2, ls2 := PublishNode(s2, t, n);
    var s3 := ss2[|ls2|];
    var ss3, ls3 := PopOnce(s3, u);
    var s4 := ss3[|ls3|];
    var ss4, ls4 := PopOnce(s4, u);
    var l0 := Invoke(t, Push(n));
    hide PopsAndSteps;
    states, labels := Join(ss1, ls1, ss2, ls2);
    states, labels := Join(states, labels, ss3, ls3);
    states, labels := Join(states, labels, ss4, ls4);
    var rest := labels;
    states, labels := Join([s, s1], [l0], states, rest);
    assert labels[1..] == rest;
  }

  /** The atomic queue never hands out more than it got. */
  lemma NoOverrun<A>(a: Fifo<A>, labels: seq<Label<A>>)
    requires a.Ok() && Accepts(a, labels)
    ensures |Dequeued(labels)| <= |a.Queue()| + |Enqueued(labels)|
  {
    AfterIsHistory(a, labels);
  }

  lemma CleanPushIsSafe<A>(
    s: State<A>, a: Fifo<A>, d: A, t: nat, n: A, states: seq<State<A>>, labels: seq<Label<A>>)
    requires Refines(s, a, d) && n in s.next && s.next[n].None?
    requires Run(states, labels) && states[0] == s && PushThenPops(labels, t, n)
    ensures Accepts(a, labels)
  {
    forall i | 0 <= i < |labels| ensures Clean(states[i], labels[i]) {
      assert i > 0 ==> labels[i] == labels[1..][i - 1];
    }
    RunRefines(states, labels, a, d);
  }

  /** With a popper about, a list.c push from a quiet state is FIFO under every schedule exactly when
      the caller hands over a node whose `next` is NULL. */
  lemma PushIsSafeIffNextIsNull<A(!new)>(s: State<A>, a: Fifo<A>, d: A, t: nat, n: A, u: nat)
    requires Refines(s, a, d) && s.Quiet() && s.order.LateClear?
    requires t < |s.threads| && u < |s.threads| && t != u && Retired(s, n)
    ensures (forall states: seq<State<A>>, labels: seq<Label<A>> ::
               Run(states, labels) && states[0] == s && PushThenPops(labels, t, n) ==> Accepts(a, labels))
            <==> s.next[n].None?
  {
    if s.next[n].None? {
      forall states: seq<State<A>>, labels: seq<Label<A>>
        | Run(states, labels) && states[0] == s && PushThenPops(labels, t, n)
        ensures Accepts(a, labels)
      {
        CleanPushIsSafe(s, a, d, t, n, states, labels);
      }
    } else {
      var states, labels := DirtyPushOverruns(s, a, d, t, n, u);
      if Accepts(a, labels) {
        NoOverrun(a, labels);
      }
    }
  }
}
