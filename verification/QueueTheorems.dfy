/** What the refinement gives about whole runs of the two-lock queue: FIFO order, exactly-once
    delivery, producer order, and when a node is out of the queue's hands. */
module QueueTheorems {
  import opened Options
  import opened TwoLockMachine
  import opened QueueRefinement

  /** Every interleaving of any number of threads is a run of the atomic FIFO queue. */
  lemma EveryRunIsFifo<A>(states: seq<State<A>>, labels: seq<Label<A>>)
    requires CleanRun(states, labels) && Init(states[0])
    ensures var a := EmptyFifo(|states[0].threads|);
      Accepts(a, labels) && Refines(states[|labels|], After(a, labels), states[0].head)
  {
    InitRefines(states[0]);
    RunRefines(states, labels, EmptyFifo(|states[0].threads|), states[0].head);
  }

  /** queue.c's enqueue needs no NULL `next` from its callers. */
  lemma EnqueueOrderIsAlwaysFifo<A>(states: seq<State<A>>, labels: seq<Label<A>>)
    requires Run(states, labels) && Init(states[0]) && states[0].order.EarlyClear?
    ensures var a := EmptyFifo(|states[0].threads|);
      Accepts(a, labels) && Refines(states[|labels|], After(a, labels), states[0].head)
  {
    forall i | 0 <= i < |labels| ensures Clean(states[i], labels[i]) {
      OrderIsFixed(states, labels, i);
    }
    EveryRunIsFifo(states, labels);
  }

  lemma {:induction false} OrderIsFixed<A>(states: seq<State<A>>, labels: seq<Label<A>>, k: nat)
    requires Run(states, labels) && k <= |labels|
    ensures states[k].order == states[0].order
  {
    if k > 0 {
      OrderIsFixed(states, labels, k - 1);
      assert Step(states[k - 1], labels[k - 1], states[k - 1 + 1]);
      StepKeepsOrder(states[k - 1], labels[k - 1], states[k]);
    }
  }

  lemma StepKeepsOrder<A>(s: State<A>, l: Label<A>, s': State<A>)
    requires Step(s, l, s')
    ensures s'.order == s.order
  {
    hide ThreadStep, Retired, Chain;
    if !l.Invoke? && !l.Write? && !l.Alloc? && !l.Free? {
      ThreadKeepsOrder(s, l.t);
    }
  }

  lemma ThreadKeepsOrder<A>(s: State<A>, t: nat)
    requires Enabled(s, t)
    ensures ThreadStep(s, t).0.order == s.order
  {
  }

  // ---------- conservation ----------

  function Enqueued<A>(labels: seq<Label<A>>): seq<A> {
    if labels == [] then []
    else (if labels[0].Linked? then [labels[0].n] else []) + Enqueued(labels[1..])
  }

  function Dequeued<A>(labels: seq<Label<A>>): seq<A> {
    if labels == [] then []
    else (if labels[0].Took? then [labels[0].n] else []) + Dequeued(labels[1..])
  }

  /** The atomic queue remembers exactly what was enqueued, and hands it out in that order. */
  lemma {:induction false} AfterIsHistory<A>(a: Fifo<A>, labels: seq<Label<A>>)
    requires Accepts(a, labels) && a.Ok()
    ensures var b := After(a, labels);
      && b.Ok()
      && b.pushed == a.pushed + Enqueued(labels)
      && b.taken == a.taken + |Dequeued(labels)|
      && Dequeued(labels) == b.pushed[a.taken..b.taken]
    decreases |labels|
  {
    if labels != [] {
      ApplyHistory(a, labels[0]);
      AfterIsHistory(Apply(a, labels[0]), labels[1..]);
      hide Apply, Allows;
      var a1, b, rest := Apply(a, labels[0]), After(a, labels), labels[1..];
      assert b.pushed == a1.pushed + Enqueued(rest) == a.pushed + Enqueued(labels);
      if labels[0].Took? {
        SliceFirst(b.pushed, a.taken, b.taken);
      }
    }
  }

  lemma ApplyHistory<A>(a: Fifo<A>, l: Label<A>)
    requires Allows(a, l)
    ensures Apply(a, l).pushed == a.pushed + if l.Linked? then [l.n] else []
    ensures Apply(a, l).taken == a.taken + if l.Took? then 1 else 0
    ensures l.Took? ==> a.taken < |a.pushed| && l.n == a.pushed[a.taken]
  {
  }

  lemma SliceFirst<A>(s: seq<A>, i: nat, j: nat)
    requires i < j <= |s|
    ensures s[i..j] == [s[i]] + s[i + 1..j]
  {
  }

  lemma ChainHoldsTheRest<A>(s: State<A>, a: Fifo<A>, d: A)
    requires Refines(s, a, d)
    ensures var c := Chain(s);
      && c != [] && NoDup(c)
      && c[0] == (if a.taken == 0 then d else a.pushed[a.taken - 1])
      && c[1..] == a.pushed[a.taken..]
  {
    ChainIsLive(s, Live(a, d));
  }

  lemma WholeHistory<A>(threads: nat, labels: seq<Label<A>>)
    requires Accepts(EmptyFifo<A>(threads), labels)
    ensures var b := After(EmptyFifo<A>(threads), labels);
      b.Ok() && b.pushed == Enqueued(labels) && b.taken == |Dequeued(labels)|
      && Dequeued(labels) == b.pushed[..b.taken]
  {
    AfterIsHistory(EmptyFifo<A>(threads), labels);
  }

  /** No node is lost, invented, reordered or delivered twice: what has been dequeued is an initial
      segment of what was enqueued, and the chain in memory is the last dummy followed by the rest. */
  lemma Conservation<A>(states: seq<State<A>>, labels: seq<Label<A>>)
    requires CleanRun(states, labels) && Init(states[0])
    ensures var c, k := Chain(states[|labels|]), |Dequeued(labels)|;
      && k <= |Enqueued(labels)|
      && Dequeued(labels) == Enqueued(labels)[..k]
      && c != [] && NoDup(c)
      && c[0] == (if k == 0 then states[0].head else Enqueued(labels)[k - 1])
      && c[1..] == Enqueued(labels)[k..]
  {
    EveryRunIsFifo(states, labels);
    WholeHistory(|states[0].threads|, labels);
    ChainHoldsTheRest(states[|labels|], After(EmptyFifo(|states[0].threads|), labels), states[0].head);
  }

  /** In every state of every run the chain is duplicate-free and ends in NULL, and `tail` is its last node,
      unless a pusher stands between lines 26 and 27: then it is the node linked just before, which is behind
      `head`, as the dummy before the present one, exactly when the chain has shrunk to that pusher's node. */
  lemma TailOfReachable<A>(states: seq<State<A>>, labels: seq<Label<A>>, k: nat)
    requires CleanRun(states, labels) && Init(states[0]) && k <= |labels|
    ensures var s := states[k]; var c, taken := Chain(s), Dequeued(labels[..k]);
      && ChainOk(s, c)
      && ((forall t :: 0 <= t < |s.threads| ==> !s.threads[t].PushTail?) ==> s.tail == c[|c| - 1])
      && (forall t :: 0 <= t < |s.threads| && s.threads[t].PushTail? ==>
            && s.threads[t].n == c[|c| - 1]
            && (|c| >= 2 ==> s.tail == c[|c| - 2])
            && (|c| == 1 ==> taken != [] && s.tail == ([states[0].head] + taken)[|taken| - 1]))
  {
    var a := EmptyFifo<A>(|states[0].threads|);
    ReachableRefines(states, labels, k);
    WholeHistory(|states[0].threads|, labels[..k]);
    var s, c := states[k], Live(After(a, labels[..k]), states[0].head);
    ChainIsLive(s, c);
    forall t | 0 <= t < |s.threads| && s.threads[t].PushTail? ensures s.threads[t].n == c[|c| - 1] {
      assert ThreadOk(s, c, s.threads[t]);
    }
  }

  /** In every state of every run, whoever has popped it meanwhile, a pusher's node stays the last node of the
      chain until the pusher releases `tail_lock`; so the store of line 28 writes what is already there. */
  lemma LateClearIsHarmless<A>(states: seq<State<A>>, labels: seq<Label<A>>, k: nat, t: nat)
    requires CleanRun(states, labels) && Init(states[0]) && k <= |labels|
    requires t < |states[k].threads| && states[k].threads[t].Linking()
    ensures var s := states[k]; var c := Chain(s);
      c != [] && s.threads[t].n == c[|c| - 1] && s.threads[t].n in s.next && s.next[s.threads[t].n] == None
    ensures states[k].threads[t].PushClear? ==>
      Enabled(states[k], t) && ThreadStep(states[k], t).0.next == states[k].next
  {
    ReachableRefines(states, labels, k);
    var s, c := states[k], Live(FifoAt(states, labels, k), states[0].head);
    ChainIsLive(s, c);
    assert ThreadOk(s, c, s.threads[t]);
  }

  lemma StepLocks<A>(s: State<A>, l: Label<A>, s': State<A>)
    requires Step(s, l, s') && LocksOk(s)
    ensures LocksOk(s')
  {
    if l.Invoke? {
      LocksAfter(s, s', l.t);
    } else if !l.Write? && !l.Alloc? && !l.Free? {
      hide ThreadStep, LocksOk;
      var pc := s.threads[l.t];
      if pc.PushAcquire? || pc.InTail() || pc.PushDone? {
        PushLocks(s, l.t);
      } else {
        PopLocks(s, l.t);
      }
    }
  }

  lemma PushLocks<A>(s: State<A>, t: nat)
    requires Enabled(s, t) && LocksOk(s)
    requires s.threads[t].PushAcquire? || s.threads[t].InTail() || s.threads[t].PushDone?
    ensures LocksOk(ThreadStep(s, t).0)
  {
    hide LocksOk;
    LocksAfter(s, ThreadStep(s, t).0, t);
  }

  lemma PopLocks<A>(s: State<A>, t: nat)
    requires Enabled(s, t) && LocksOk(s)
    requires s.threads[t].PopAcquire? || s.threads[t].InHead() || s.threads[t].PopDone?
    ensures LocksOk(ThreadStep(s, t).0)
  {
    hide LocksOk;
    LocksAfter(s, ThreadStep(s, t).0, t);
  }

  lemma InitLocks<A>(s: State<A>)
    requires Init(s)
    ensures LocksOk(s)
  {
  }

  lemma {:induction false} LocksThroughout<A>(states: seq<State<A>>, labels: seq<Label<A>>, k: nat)
    requires Run(states, labels) && Init(states[0]) && k <= |labels|
    ensures LocksOk(states[k])
  {
    if k == 0 {
      InitLocks(states[0]);
    } else {
      LocksThroughout(states, labels, k - 1);
      assert Step(states[k - 1], labels[k - 1], states[k - 1 + 1]);
      StepLocks(states[k - 1], labels[k - 1], states[k]);
    }
  }

  /** In every state of every run, whatever nodes the callers push: a lock is taken exactly when some thread
      is inside its critical section, and then it is the only one there. */
  lemma MutualExclusion<A>(states: seq<State<A>>, labels: seq<Label<A>>, k: nat)
    requires Run(states, labels) && Init(states[0]) && k <= |labels|
    ensures var s := states[k];
      && (s.tailLock <==> exists t :: 0 <= t < |s.threads| && s.threads[t].InTail())
      && (s.headLock <==> exists t :: 0 <= t < |s.threads| && s.threads[t].InHead())
    ensures forall t, u :: 0 <= t < u < |states[k].threads| ==>
      && !(states[k].threads[t].InTail() && states[k].threads[u].InTail())
      && !(states[k].threads[t].InHead() && states[k].threads[u].InHead())
  {
    LocksThroughout(states, labels, k);
  }

  // ---------- each producer's order ----------

  /** The nodes thread `p` has linked, in order. */
  function LinkedBy<A>(labels: seq<Label<A>>, p: nat): seq<A> {
    if labels == [] then []
    else (if labels[0].Linked? && labels[0].t == p then [labels[0].n] else []) + LinkedBy(labels[1..], p)
  }

  /** The nodes thread `p` has called push with, in order. */
  function PushedBy<A>(labels: seq<Label<A>>, p: nat): seq<A> {
    if labels == [] then []
    else (if labels[0].Invoke? && labels[0].t == p && labels[0].op.Push? then [labels[0].op.n] else [])
         + PushedBy(labels[1..], p)
  }

  /** The call of thread `p` whose node is not linked yet. */
  function Pending<A>(a: Fifo<A>, p: nat): seq<A>
    requires p < |a.status|
  {
    if a.status[p].WantPush? then [a.status[p].n] else []
  }

  lemma {:induction false} LinkedInCallOrder<A>(a: Fifo<A>, labels: seq<Label<A>>, p: nat)
    requires Accepts(a, labels) && p < |a.status|
    ensures |After(a, labels).status| == |a.status|
    ensures Pending(a, p) + PushedBy(labels, p) == LinkedBy(labels, p) + Pending(After(a, labels), p)
    decreases |labels|
  {
    hide Allows, Apply, Pending;
    if labels != [] {
      var l, rest, a' := labels[0], labels[1..], Apply(a, labels[0]);
      PendingMoves(a, l, p);
      LinkedInCallOrder(a', rest, p);
      var push := if l.Invoke? && l.t == p && l.op.Push? then [l.op.n] else [];
      var link := if l.Linked? && l.t == p then [l.n] else [];
      PassAlong(Pending(a, p), push, PushedBy(rest, p), link, Pending(a', p), LinkedBy(rest, p),
              Pending(After(a', rest), p));
    }
  }

  lemma PassAlong<T>(a: seq<T>, x: seq<T>, xs: seq<T>, y: seq<T>, b: seq<T>, ys: seq<T>, c: seq<T>)
    requires a + x == y + b && b + xs == ys + c
    ensures a + (x + xs) == y + ys + c
  {
    assert a + (x + xs) == a + x + xs == y + (b + xs);
  }

  lemma PendingMoves<A>(a: Fifo<A>, l: Label<A>, p: nat)
    requires Allows(a, l) && p < |a.status|
    ensures Pending(a, p) + (if l.Invoke? && l.t == p && l.op.Push? then [l.op.n] else [])
         == (if l.Linked? && l.t == p then [l.n] else []) + Pending(Apply(a, l), p)
  {
  }

  /** Who enqueued what: one pair for each node of Enqueued. */
  function Tickets<A>(labels: seq<Label<A>>): seq<(nat, A)> {
    if labels == [] then []
    else (if labels[0].Linked? then [(labels[0].t, labels[0].n)] else []) + Tickets(labels[1..])
  }

  function Of<A>(tickets: seq<(nat, A)>, p: nat): seq<A> {
    if tickets == [] then []
    else (if tickets[0].0 == p then [tickets[0].1] else []) + Of(tickets[1..], p)
  }

  lemma {:induction false} TicketsAreEnqueued<A>(labels: seq<Label<A>>, p: nat)
    ensures |Tickets(labels)| == |Enqueued(labels)|
    ensures forall i :: 0 <= i < |Tickets(labels)| ==> Tickets(labels)[i].1 == Enqueued(labels)[i]
    ensures Of(Tickets(labels), p) == LinkedBy(labels, p)
  {
    if labels != [] {
      TicketsAreEnqueued(labels[1..], p);
      if labels[0].Linked? {
        assert Tickets(labels)[1..] == Tickets(labels[1..]);
      } else {
        assert Tickets(labels) == Tickets(labels[1..]);
      }
    }
  }

  lemma {:induction false} OfPrefix<A>(tickets: seq<(nat, A)>, k: nat, p: nat)
    requires k <= |tickets|
    ensures Of(tickets[..k], p) <= Of(tickets, p)
  {
    if k > 0 {
      OfPrefix(tickets[1..], k - 1, p);
      assert tickets[..k][1..] == tickets[1..][..k - 1];
    }
  }

  /** The dequeued nodes that came from producer `p` are the first ones `p` called push with, in order. */
  lemma ProducerOrder<A>(states: seq<State<A>>, labels: seq<Label<A>>, p: nat)
    requires CleanRun(states, labels) && Init(states[0]) && p < |states[0].threads|
    ensures var k := |Dequeued(labels)|;
      && k <= |Tickets(labels)|
      && (forall i :: 0 <= i < k ==> Dequeued(labels)[i] == Tickets(labels)[i].1)
      && Of(Tickets(labels)[..k], p) <= PushedBy(labels, p)
  {
    var a := EmptyFifo(|states[0].threads|);
    EveryRunIsFifo(states, labels);
    Conservation(states, labels);
    TicketsAreEnqueued(labels, p);
    OfPrefix(Tickets(labels), |Dequeued(labels)|, p);
    LinkedInCallOrder(a, labels, p);
    assert Pending(a, p) == [];
    assert PushedBy(labels, p) == LinkedBy(labels, p) + Pending(After(a, labels), p);
  }

  // ---------- nodes the queue has let go of ----------

  /** When `head` moves on, the old dummy is out of the queue's hands, even if `tail` still names it. */
  lemma OldDummyRetires<A>(s: State<A>, a: Fifo<A>, d: A, t: nat)
    requires Refines(s, a, d) && Enabled(s, t) && s.threads[t].PopMoveHead?
    ensures Retired(ThreadStep(s, t).0, s.head)
  {
    var c := Live(a, d);
    var s' := ThreadStep(s, t).0;
    assert ThreadOk(s, c, s.threads[t]);
    ChainMovesOn(s, s', c);
    ChainIsLive(s', c[1..]);
    forall u | 0 <= u < |s'.threads| && s'.threads[u].Waiting() ensures s'.threads[u].n != s.head {
      assert ThreadOk(s, c, s.threads[u]);
    }
  }

  /** A retired node stays retired until somebody pushes it again or frees it. */
  lemma RetiredStays<A>(s: State<A>, a: Fifo<A>, d: A, l: Label<A>, s': State<A>, n: A)
    requires Refines(s, a, d) && Step(s, l, s') && Clean(s, l) && Retired(s, n)
    requires l != Free(n) && !(l.Invoke? && l.op == Push(n))
    ensures Retired(s', n)
  {
    StepRefines(s, a, d, l, s');
    var a' := Apply(a, l);
    ChainIsLive(s, Live(a, d));
    ChainIsLive(s', Live(a', d));
    LiveGrowsByLink(a, d, l);
    StepOnBlocks(s, l, s', n);
    assert n !in Live(a, d);
  }

  /** Nobody frees `n` or hands it to a push. */
  predicate LeavesAlone<A(==)>(labels: seq<Label<A>>, n: A) {
    forall l :: l in labels ==> l != Free(n) && !(l.Invoke? && l.op == Push(n))
  }

  lemma {:induction false} RetiredThrough<A>(states: seq<State<A>>, labels: seq<Label<A>>, a: Fifo<A>, d: A, n: A)
    requires CleanRun(states, labels) && Refines(states[0], a, d) && Retired(states[0], n) && LeavesAlone(labels, n)
    ensures Retired(states[|labels|], n)
    decreases |labels|
  {
    if labels != [] {
      RunTail(states, labels);
      hide Step, Clean, Refines, Retired, Allows, Apply;
      StepRefines(states[0], a, d, labels[0], states[1]);
      RetiredStays(states[0], a, d, labels[0], states[1], n);
      RetiredThrough(states[1..], labels[1..], Apply(a, labels[0]), d, n);
    }
  }

  /** Only a pop that takes a node moves `head`, and then the old dummy retires. */
  lemma HeadMoves<A>(s: State<A>, a: Fifo<A>, d: A, l: Label<A>, s': State<A>)
    requires Refines(s, a, d) && Step(s, l, s')
    ensures if l.Took? then s'.head == l.n && Retired(s', s.head) else s'.head == s.head
  {
    hide Refines, Retired;
    HeadIsMoved(s, l, s');
    if l.Took? {
      hide Step;
      OldDummyRetires(s, a, d, l.t);
    }
  }

  lemma HeadIsMoved<A>(s: State<A>, l: Label<A>, s': State<A>)
    requires Step(s, l, s')
    ensures if l.Took? then s'.head == l.n else s'.head == s.head
    ensures l.Took? ==> Enabled(s, l.t) && s.threads[l.t].PopMoveHead? && ThreadStep(s, l.t).0 == s'
  {
  }

  lemma DummyIsInUse<A>(s: State<A>, a: Fifo<A>, d: A)
    requires Refines(s, a, d)
    ensures !Retired(s, s.head)
  {
    ChainIsLive(s, Live(a, d));
    assert s.head == Chain(s)[0];
  }

  /** Over any run in which nobody frees or pushes it, the dummy is let go of exactly when a pop takes a node,
      and until then it stays the dummy. */
  lemma {:induction false} DummyRetiresIff<A>(states: seq<State<A>>, labels: seq<Label<A>>, a: Fifo<A>, d: A)
    requires CleanRun(states, labels) && Refines(states[0], a, d) && LeavesAlone(labels, states[0].head)
    ensures Retired(states[|labels|], states[0].head) <==> Dequeued(labels) != []
    ensures Dequeued(labels) == [] ==> states[|labels|].head == states[0].head
    decreases |labels|
  {
    if labels == [] {
      DummyIsInUse(states[0], a, d);
    } else {
      RunTail(states, labels);
      LeavesRestAlone(labels, states[0].head);
      hide Step, Clean, CleanRun, Refines, Retired, Allows, Apply, LeavesAlone;
      StepRefines(states[0], a, d, labels[0], states[1]);
      HeadMoves(states[0], a, d, labels[0], states[1]);
      if labels[0].Took? {
        RetiredThrough(states[1..], labels[1..], Apply(a, labels[0]), d, states[0].head);
      } else {
        DummyRetiresIff(states[1..], labels[1..], Apply(a, labels[0]), d);
      }
    }
  }

  lemma LeavesRestAlone<A>(labels: seq<Label<A>>, n: A)
    requires labels != [] && LeavesAlone(labels, n)
    ensures LeavesAlone(labels[1..], n)
  {
    assert forall l :: l in labels[1..] ==> l in labels;
  }

  /** The rule for callers: a node just popped may be written, freed or pushed again exactly from the moment
      a later pop has taken another node. */
  lemma PoppedIsReusableIff<A>(states: seq<State<A>>, labels: seq<Label<A>>, i: nat, j: nat)
    requires CleanRun(states, labels) && Init(states[0]) && i < j <= |labels|
    requires labels[i].Took? && LeavesAlone(labels[i + 1..j], labels[i].n)
    ensures Retired(states[j], labels[i].n) <==> exists k :: i + 1 <= k < j && labels[k].Took?
  {
    hide Step, Clean, Refines, Retired, ThreadStep;
    var a := NextDummy(states, labels, i);
    Segment(states, labels, i + 1, j);
    DummyRetiresIff(states[i + 1..j + 1], labels[i + 1..j], a, states[0].head);
    DequeuedIff(labels, i + 1, j);
  }

  /** The node a pop has taken is the dummy when it has taken it. */
  lemma NextDummy<A>(states: seq<State<A>>, labels: seq<Label<A>>, i: nat) returns (a: Fifo<A>)
    requires CleanRun(states, labels) && Init(states[0]) && i < |labels| && labels[i].Took?
    ensures Refines(states[i + 1], a, states[0].head) && states[i + 1].head == labels[i].n
  {
    hide Clean, Refines, Retired, ThreadStep, Init;
    assert Step(states[i], labels[i], states[i + 1]);
    hide Step;
    ReachableRefines(states, labels, i);
    ReachableRefines(states, labels, i + 1);
    HeadMoves(states[i], FifoAt(states, labels, i), states[0].head, labels[i], states[i + 1]);
    a := FifoAt(states, labels, i + 1);
  }

  lemma {:induction false} DequeuedIff<A>(labels: seq<Label<A>>, i: nat, j: nat)
    requires i <= j <= |labels|
    ensures Dequeued(labels[i..j]) != [] <==> exists k :: i <= k < j && labels[k].Took?
    decreases j - i
  {
    if i < j {
      DequeuedIff(labels, i + 1, j);
      assert labels[i..j][1..] == labels[i + 1..j];
    }
  }

  /** A step frees only what it says, and only an Invoke lets a push own a new node. */
  lemma StepOnBlocks<A>(s: State<A>, l: Label<A>, s': State<A>, n: A)
    requires Step(s, l, s') && Retired(s, n)
    requires l != Free(n) && !(l.Invoke? && l.op == Push(n))
    ensures n in s'.next
    ensures l.Linked? ==> l.n != n
    ensures forall u :: 0 <= u < |s'.threads| && s'.threads[u].Waiting() ==> s'.threads[u].n != n
  {
    if !l.Invoke? && !l.Write? && !l.Alloc? && !l.Free? {
      ThreadOnBlocks(s, l.t, n);
    }
  }

  lemma ThreadOnBlocks<A>(s: State<A>, t: nat, n: A)
    requires Enabled(s, t) && Retired(s, n)
    ensures var (s', l) := ThreadStep(s, t);
      && n in s'.next
      && (l.Linked? ==> l.n != n)
      && forall u :: 0 <= u < |s'.threads| && s'.threads[u].Waiting() ==> s'.threads[u].n != n
  {
    assert s.threads[t].Waiting() ==> s.threads[t].n != n;
  }

  lemma LiveGrowsByLink<A>(a: Fifo<A>, d: A, l: Label<A>)
    requires Allows(a, l)
    ensures forall x :: x in Live(Apply(a, l), d) ==> x in Live(a, d) || (l.Linked? && x == l.n)
  {
    var a' := Apply(a, l);
    if l.Took? {
      assert Live(a', d) == Live(a, d)[1..];
    } else if l.Linked? {
      assert Live(a', d) == Live(a, d) + [l.n];
    }
  }

  /** `m` agrees with memory everywhere except on retired and unallocated blocks. */
  ghost predicate SameInside<A>(s: State<A>, next: map<A, Option<A>>, m: map<A, Option<A>>) {
    forall x :: x in s.next && !Retired(s, x) ==> x in next && x in m && m[x] == next[x]
  }

  ghost predicate SameOutside<A>(s: State<A>, m: map<A, Option<A>>, m': map<A, Option<A>>) {
    forall x :: x in m && (x !in s.next || Retired(s, x)) ==> x in m' && m'[x] == m[x]
  }

  /** No thread step reads or writes a retired node: replace what retired and unknown blocks hold by
      anything at all, and every thread does the same step and leaves those blocks as it found them. */
  lemma RetiredIsForgotten<A>(s: State<A>, a: Fifo<A>, d: A, t: nat, m: map<A, Option<A>>)
    requires Refines(s, a, d) && Enabled(s, t) && SameInside(s, s.next, m)
    ensures var s2 := s.(next := m);
      && Enabled(s2, t)
      && var (r, l) := ThreadStep(s, t); var (r2, l2) := ThreadStep(s2, t);
      && l2 == l && r2 == r.(next := r2.next)
      && SameInside(s, r.next, r2.next)
      && SameOutside(s, m, r2.next)
  {
    var pc, c := s.threads[t], Live(a, d);
    assert ThreadOk(s, c, pc);
    ChainIsLive(s, c);
    if pc.PushPreClear? || pc.PushLink? || pc.PushClear? {
      ForgottenByPush(s, c, t, m);
    } else if pc.PopLoadNext? {
      ForgottenByPop(s, c, t, m);
    } else {
      hide Refines;
      NoAccess(s, t, m);
    }
  }

  /** The other program points do not touch node memory at all. */
  lemma NoAccess<A>(s: State<A>, t: nat, m: map<A, Option<A>>)
    requires Enabled(s, t)
    requires !s.threads[t].PushPreClear? && !s.threads[t].PushLink? && !s.threads[t].PushClear?
        && !s.threads[t].PopLoadNext?
    ensures var s2 := s.(next := m);
      && Enabled(s2, t)
      && var (r, l) := ThreadStep(s, t); var (r2, l2) := ThreadStep(s2, t);
      l2 == l && r2 == r.(next := m) && r.next == s.next
  {
  }

  lemma ForgottenByPop<A>(s: State<A>, c: seq<A>, t: nat, m: map<A, Option<A>>)
    requires ChainOk(s, c) && c == Chain(s) && Enabled(s, t) && SameInside(s, s.next, m)
    requires s.threads[t].PopLoadNext? && ThreadOk(s, c, s.threads[t])
    ensures var s2 := s.(next := m);
      && Enabled(s2, t)
      && var (r, l) := ThreadStep(s, t); var (r2, l2) := ThreadStep(s2, t);
      l2 == l && r2 == r.(next := m) && r.next == s.next
  {
    assert !Retired(s, c[0]);
  }

  lemma ForgottenByPush<A>(s: State<A>, c: seq<A>, t: nat, m: map<A, Option<A>>)
    requires ChainOk(s, c) && c == Chain(s) && Enabled(s, t) && SameInside(s, s.next, m)
    requires s.threads[t].PushPreClear? || s.threads[t].PushLink? || s.threads[t].PushClear?
    requires ThreadOk(s, c, s.threads[t])
    ensures var s2 := s.(next := m);
      && Enabled(s2, t)
      && var (r, l) := ThreadStep(s, t); var (r2, l2) := ThreadStep(s2, t);
      && l2 == l && r2 == r.(next := r2.next)
      && SameInside(s, r.next, r2.next)
      && SameOutside(s, m, r2.next)
  {
    var pc := s.threads[t];
    if pc.PushLink? {
      assert !Retired(s, pc.last);
    } else {
      assert !Retired(s, pc.n);
    }
  }
}
