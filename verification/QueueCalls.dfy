/** What every call of the queue answers, told from the actions of a run alone: each call has exactly one
    effect between its start and its return, and returns what that effect says. */
module QueueCalls {
  import opened Options
  import opened TwoLockMachine
  import opened QueueRefinement
  import opened QueueTheorems
  import opened QueueProgress

  /** The call thread `t` started last. */
  function LastCall<A>(labels: seq<Label<A>>, t: nat): Option<Op<A>> {
    if labels == [] then None
    else
      var k := |labels| - 1;
      if labels[k].Invoke? && labels[k].t == t then Some(labels[k].op) else LastCall(labels[..k], t)
  }

  /** The action is an effect that thread `t` has on the queue, or its finding that there is none to have. */
  predicate IsEffect<A>(l: Label<A>, t: nat) {
    (l.Linked? || l.Took? || l.FoundEmpty? || l.FoundBusy?) && l.t == t
  }

  /** The effects of thread `t` since it started its last call. */
  function Effects<A>(labels: seq<Label<A>>, t: nat): seq<Label<A>> {
    if labels == [] then []
    else
      var k := |labels| - 1;
      if labels[k].Invoke? && labels[k].t == t then []
      else Effects(labels[..k], t) + if IsEffect(labels[k], t) then [labels[k]] else []
  }

  /** How far thread `t` has come with `call`, and what it has found. */
  ghost predicate Tells<A>(call: Option<Op<A>>, effects: seq<Label<A>>, t: nat, pc: Pc<A>) {
    match pc
    case Idle => true
    case PushDone => call.Some? && call.value.Push? && effects == [Linked(t, call.value.n)]
    case PopAcquire(try) => PopBegun(call, effects, try)
    case PopLoadHead(try) => PopBegun(call, effects, try)
    case PopLoadNext(try, _) => PopBegun(call, effects, try)
    case PopMoveHead(try, _) => PopBegun(call, effects, try)
    case PopLoadLen(r) => PopFound(call, effects, t, r)
    case PopStoreLen(r, _) => PopFound(call, effects, t, r)
    case PopRelease(r) => PopFound(call, effects, t, r)
    case PopDone(r) => PopFound(call, effects, t, r) || BusyFound(call, effects, t, r)
    case _ => call == Some(Op.Push(pc.n)) && effects == if pc.Waiting() then [] else [Linked(t, pc.n)]
  }

  ghost predicate PopBegun<A>(call: Option<Op<A>>, effects: seq<Label<A>>, try: bool) {
    call == Some(if try then TryPop else BlockingPop) && effects == []
  }

  ghost predicate PopFound<A>(call: Option<Op<A>>, effects: seq<Label<A>>, t: nat, r: Option<A>) {
    && call.Some? && !call.value.Push?
    && effects == [if r.Some? then Took(t, r.value) else FoundEmpty(t)]
  }

  ghost predicate BusyFound<A>(call: Option<Op<A>>, effects: seq<Label<A>>, t: nat, r: Option<A>) {
    call == Some(TryPop) && effects == [FoundBusy(t)] && r == None
  }

  lemma CallBegins<A>(op: Op<A>, t: nat)
    ensures Tells(Some(op), [], t, Start(op))
  {
  }

  lemma StepTells<A>(s: State<A>, t: nat, call: Option<Op<A>>, effects: seq<Label<A>>)
    requires Enabled(s, t) && Tells(call, effects, t, s.threads[t])
    ensures var (s', l) := ThreadStep(s, t);
      && !l.Invoke? && l.t == t
      && Tells(call, effects + (if IsEffect(l, t) then [l] else []), t, s'.threads[t])
  {
    hide Tells;
    var pc := s.threads[t];
    if pc.PushAcquire? || pc.InTail() || pc.PushDone? {
      PushTells(s, t, call, effects);
    } else if pc.PopAcquire? || pc.PopLoadHead? || pc.PopLoadNext? || pc.PopMoveHead? {
      PopTells(s, t, call, effects);
    } else {
      FoundTells(s, t, call, effects);
      assert effects + [] == effects;
    }
  }

  lemma PushTells<A>(s: State<A>, t: nat, call: Option<Op<A>>, effects: seq<Label<A>>)
    requires Enabled(s, t) && Tells(call, effects, t, s.threads[t])
    requires s.threads[t].PushAcquire? || s.threads[t].InTail() || s.threads[t].PushDone?
    ensures var (s', l) := ThreadStep(s, t);
      && !l.Invoke? && l.t == t
      && Tells(call, effects + (if IsEffect(l, t) then [l] else []), t, s'.threads[t])
  {
    assert effects + [] == effects;
  }

  lemma PopTells<A>(s: State<A>, t: nat, call: Option<Op<A>>, effects: seq<Label<A>>)
    requires Enabled(s, t) && Tells(call, effects, t, s.threads[t])
    requires var pc := s.threads[t]; pc.PopAcquire? || pc.PopLoadHead? || pc.PopLoadNext? || pc.PopMoveHead?
    ensures var (s', l) := ThreadStep(s, t);
      && !l.Invoke? && l.t == t
      && Tells(call, effects + (if IsEffect(l, t) then [l] else []), t, s'.threads[t])
  {
  }

  lemma FoundTells<A>(s: State<A>, t: nat, call: Option<Op<A>>, effects: seq<Label<A>>)
    requires Enabled(s, t) && Tells(call, effects, t, s.threads[t])
    requires var pc := s.threads[t]; pc.PopLoadLen? || pc.PopStoreLen? || pc.PopRelease? || pc.PopDone?
    ensures var (s', l) := ThreadStep(s, t);
      && !l.Invoke? && !IsEffect(l, t) && l.t == t && Tells(call, effects, t, s'.threads[t])
  {
  }

  /** A step of anybody else, or of the client, leaves thread `t` where it is. */
  lemma OthersStay<A>(s: State<A>, l: Label<A>, s': State<A>, t: nat)
    requires Step(s, l, s') && t < |s.threads|
    ensures |s'.threads| == |s.threads|
    ensures if l.Invoke? && l.t == t then s'.threads[t] == Start(l.op)
            else if !l.Invoke? && !l.Write? && !l.Alloc? && !l.Free? && l.t == t then
              Enabled(s, t) && ThreadStep(s, t) == (s', l)
            else s'.threads[t] == s.threads[t] && !IsEffect(l, t)
  {
    hide Chain, Retired;
    if !l.Invoke? && !l.Write? && !l.Alloc? && !l.Free? {
      StepLowersRank(s, l.t);
    }
  }

  /** In every state of every run that starts between calls, each thread is where its actions say. */
  lemma {:induction false} TellsThroughout<A>(states: seq<State<A>>, labels: seq<Label<A>>, k: nat, t: nat)
    requires Run(states, labels) && states[0].Quiet() && k <= |labels| && t < |states[0].threads|
    ensures |states[k].threads| == |states[0].threads|
    ensures Tells(LastCall(labels[..k], t), Effects(labels[..k], t), t, states[k].threads[t])
  {
    hide Step, Tells, ThreadStep, Enabled;
    if k == 0 {
      IdleTells(LastCall(labels[..0], t), Effects(labels[..0], t), t);
    } else {
      var s, l, was := states[k - 1], labels[k - 1], labels[..k - 1];
      TellsThroughout(states, labels, k - 1, t);
      assert Step(s, l, states[k - 1 + 1]);
      OthersStay(s, l, states[k], t);
      assert labels[..k][..k - 1] == was;
      if l.Invoke? && l.t == t {
        CallBegins(l.op, t);
      } else if !l.Invoke? && !l.Write? && !l.Alloc? && !l.Free? && l.t == t {
        StepTells(s, t, LastCall(was, t), Effects(was, t));
      } else {
        assert Effects(was, t) + [] == Effects(was, t);
      }
    }
  }

  lemma IdleTells<A>(call: Option<Op<A>>, effects: seq<Label<A>>, t: nat)
    ensures Tells(call, effects, t, Idle)
  {
  }

  /** What each call returns, in every run that starts between calls, whatever nodes are pushed. A push has
      linked its node and returns nothing. A pop has had exactly one effect: it returns the node it took, or
      NULL when it found the queue empty, or, if it was a try, found the lock busy. */
  lemma ReturnsItsEffect<A>(states: seq<State<A>>, labels: seq<Label<A>>, i: nat)
    requires Run(states, labels) && states[0].Quiet() && i < |labels| && labels[i].Return?
    ensures var t, r := labels[i].t, labels[i].r;
      var call, effects := LastCall(labels[..i], t), Effects(labels[..i], t);
      && call.Some? && |effects| == 1
      && (call.value.Push? ==> r == None && effects == [Linked(t, call.value.n)])
      && (!call.value.Push? ==>
            && (forall n :: r == Some(n) <==> Took(t, n) in effects)
            && (r == None <==> FoundEmpty(t) in effects || FoundBusy(t) in effects)
            && (call.value.BlockingPop? ==> FoundBusy(t) !in effects))
  {
    var s, t := states[i], labels[i].t;
    assert Step(s, labels[i], states[i + 1]);
    ThreadsStay(states, labels, i);
    TellsThroughout(states, labels, i, t);
    DoneReturns(s, t);
  }

  lemma {:induction false} ThreadsStay<A>(states: seq<State<A>>, labels: seq<Label<A>>, k: nat)
    requires Run(states, labels) && k <= |labels|
    ensures |states[k].threads| == |states[0].threads|
  {
    if k > 0 {
      ThreadsStay(states, labels, k - 1);
      assert Step(states[k - 1], labels[k - 1], states[k - 1 + 1]);
      if |states[k - 1].threads| > 0 {
        OthersStay(states[k - 1], labels[k - 1], states[k], 0);
      }
    }
  }

  lemma DoneReturns<A>(s: State<A>, t: nat)
    requires Enabled(s, t) && ThreadStep(s, t).1.Return?
    ensures var r := ThreadStep(s, t).1.r;
      s.threads[t] == PopDone(r) || (s.threads[t] == PushDone && r == None)
  {
  }

  /** A blocking pop waits: only a try ever finds the lock busy, and then another thread is inside a pop. */
  lemma OnlyTriesGiveUp<A>(states: seq<State<A>>, labels: seq<Label<A>>, i: nat)
    requires Run(states, labels) && Init(states[0]) && i < |labels| && labels[i].FoundBusy?
    ensures LastCall(labels[..i], labels[i].t) == Some(TryPop)
    ensures exists u :: 0 <= u < |states[i].threads| && u != labels[i].t && states[i].threads[u].InHead()
  {
    var s, t := states[i], labels[i].t;
    assert Step(s, labels[i], states[i + 1]);
    ThreadsStay(states, labels, i);
    TellsThroughout(states, labels, i, t);
    MutualExclusion(states, labels, i);
    BusyIsTry(s, t);
  }

  lemma BusyIsTry<A>(s: State<A>, t: nat)
    requires Enabled(s, t) && ThreadStep(s, t).1.FoundBusy?
    ensures s.threads[t] == PopAcquire(true) && s.headLock
  {
  }

  /** A try never waits: in every clean run, a thread that is inside one can take its next step at once. */
  lemma TriesNeverWait<A>(states: seq<State<A>>, labels: seq<Label<A>>, k: nat, t: nat)
    requires CleanRun(states, labels) && Init(states[0]) && k <= |labels| && t < |states[k].threads|
    requires LastCall(labels[..k], t) == Some(TryPop) && !states[k].threads[t].Idle?
    ensures Enabled(states[k], t)
  {
    var s := states[k];
    ThreadsStay(states, labels, k);
    TellsThroughout(states, labels, k, t);
    ReachableRefines(states, labels, k);
    if s.threads[t].InHead() {
      HolderIsEnabled(s, FifoAt(states, labels, k), states[0].head, t);
    }
  }

  /** A pop finds the queue empty only when everything linked so far has been taken, and otherwise takes the
      first node that has not been. */
  lemma TakesTheNext<A>(states: seq<State<A>>, labels: seq<Label<A>>, i: nat)
    requires CleanRun(states, labels) && Init(states[0]) && i < |labels|
    ensures var k := |Dequeued(labels[..i])|;
      && k <= |Enqueued(labels[..i])|
      && (labels[i].FoundEmpty? ==> k == |Enqueued(labels[..i])|)
      && (labels[i].Took? ==> k < |Enqueued(labels[..i])| && labels[i].n == Enqueued(labels[..i])[k])
  {
    var s, a := states[i], EmptyFifo<A>(|states[0].threads|);
    assert Step(s, labels[i], states[i + 1]) && Clean(s, labels[i]);
    ReachableRefines(states, labels, i);
    WholeHistory(|states[0].threads|, labels[..i]);
    StepRefines(s, After(a, labels[..i]), states[0].head, labels[i], states[i + 1]);
  }
}
