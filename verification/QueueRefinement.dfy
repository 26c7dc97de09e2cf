/** The atomic FIFO queue every client of list.c is promised, and the proof that each
    step of the two-lock queue is a step of it. */
module QueueRefinement {
  import opened Options
  import opened TwoLockMachine

  /** What one thread's call has reached, seen from outside. */
  datatype Status<A> =
    | Ready
    | WantPush(n: A)
    | Pushed
    | WantPop(try: bool)
    | Got(r: Option<A>)

  /** The specification: all nodes ever enqueued, and how many of them have been dequeued. */
  datatype Fifo<A> = Fifo(pushed: seq<A>, taken: nat, status: seq<Status<A>>) {
    predicate Ok() { taken <= |pushed| }

    function Queue(): seq<A>
      requires Ok()
    {
      pushed[taken..]
    }

    function Set(t: nat, st: Status<A>): Fifo<A>
      requires t < |status|
    {
      this.(status := status[t := st])
    }
  }

  function Want<A>(op: Op<A>): Status<A> {
    match op
    case Push(n) => WantPush(n)
    case TryPop => WantPop(true)
    case BlockingPop => WantPop(false)
  }

  /** The atomic queue allows the visible action `l`. */
  predicate Allows<A(==)>(a: Fifo<A>, l: Label<A>) {
    && a.Ok()
    && match l {
         case Invoke(t, op) => t < |a.status| && a.status[t] == Ready
         case Linked(t, n) => t < |a.status| && a.status[t] == WantPush(n)
         case Took(t, n) =>
           t < |a.status| && a.status[t].WantPop? && a.Queue() != [] && n == a.Queue()[0]
         case FoundEmpty(t) => t < |a.status| && a.status[t].WantPop? && a.Queue() == []
         case FoundBusy(t) =>
           && t < |a.status| && a.status[t] == WantPop(true)
           && exists u :: 0 <= u < |a.status| && u != t && (a.status[u].WantPop? || a.status[u].Got?)
         case Return(t, r) =>
           t < |a.status| && (a.status[t] == Got(r) || (a.status[t] == Pushed && r == None))
         case _ => true
       }
  }

  /** The effect of `l` on the atomic queue; actions it does not mention leave it alone. */
  function Apply<A(==)>(a: Fifo<A>, l: Label<A>): (a': Fifo<A>)
    requires Allows(a, l)
    ensures a'.Ok() && |a'.status| == |a.status|
  {
    match l
    case Invoke(t, op) => a.Set(t, Want(op))
    case Linked(t, n) => a.(pushed := a.pushed + [n]).Set(t, Pushed)
    case Took(t, n) => a.(taken := a.taken + 1).Set(t, Got(Some(n)))
    case FoundEmpty(t) => a.Set(t, Got(None))
    case FoundBusy(t) => a.Set(t, Got(None))
    case Return(t, _) => a.Set(t, Ready)
    case _ => a
  }

  function StatusOf<A>(pc: Pc<A>): Status<A> {
    match pc
    case Idle => Ready
    case PushAcquire(n) => WantPush(n)
    case PushPreClear(n) => WantPush(n)
    case PushLoadTail(n) => WantPush(n)
    case PushLink(n, _) => WantPush(n)
    case PopAcquire(try) => WantPop(try)
    case PopLoadHead(try) => WantPop(try)
    case PopLoadNext(try, _) => WantPop(try)
    case PopMoveHead(try, _) => WantPop(try)
    case PopLoadLen(r) => Got(r)
    case PopStoreLen(r, _) => Got(r)
    case PopRelease(r) => Got(r)
    case PopDone(r) => Got(r)
    case _ => Pushed
  }

  /** The first dummy followed by every node linked so far. */
  function History<A>(a: Fifo<A>, d: A): seq<A> {
    [d] + a.pushed
  }

  /** The dummy `head` names and the queued nodes behind it. */
  function Live<A>(a: Fifo<A>, d: A): seq<A>
    requires a.Ok()
  {
    History(a, d)[a.taken..]
  }

  ghost predicate NoDup<A>(c: seq<A>) {
    forall i, j :: 0 <= i < j < |c| ==> c[i] != c[j]
  }

  /** `c` is the whole chain from `head`: duplicate-free, allocated, linked in order, ending in NULL. */
  ghost predicate ChainOk<A>(s: State<A>, c: seq<A>) {
    && |c| > 0 && c[0] == s.head
    && NoDup(c)
    && (forall i :: 0 <= i < |c| ==> c[i] in s.next)
    && (forall i :: 0 <= i < |c| - 1 ==> s.next[c[i]] == Some(c[i + 1]))
    && s.next[c[|c| - 1]] == None
  }

  /** `tail` is the last linked node, except that it is exactly one node behind while a pusher
      stands between lines 26 and 27; it may then be behind `head` too. */
  ghost predicate TailOk<A>(s: State<A>, h: seq<A>)
    requires |h| > 0
  {
    && (forall t :: 0 <= t < |s.threads| && s.threads[t].PushTail? ==> |h| >= 2 && s.tail == h[|h| - 2])
    && ((forall t :: 0 <= t < |s.threads| ==> !s.threads[t].PushTail?) ==> s.tail == h[|h| - 1])
  }

  ghost predicate LocksOk<A>(s: State<A>) {
    && (forall t :: 0 <= t < |s.threads| && s.threads[t].InTail() ==> s.tailLock)
    && (forall t :: 0 <= t < |s.threads| && s.threads[t].InHead() ==> s.headLock)
    && (forall t, u :: 0 <= t < |s.threads| && 0 <= u < |s.threads| && t != u ==>
        !(s.threads[t].InTail() && s.threads[u].InTail()))
    && (forall t, u :: 0 <= t < |s.threads| && 0 <= u < |s.threads| && t != u ==>
        !(s.threads[t].InHead() && s.threads[u].InHead()))
    && (s.tailLock ==> exists t :: 0 <= t < |s.threads| && s.threads[t].InTail())
    && (s.headLock ==> exists t :: 0 <= t < |s.threads| && s.threads[t].InHead())
  }

  /** The node of a waiting push is known to have a NULL `next`: always in list.c, once cleared in queue.c. */
  predicate Cleared<A>(s: State<A>, pc: Pc<A>) {
    s.order.LateClear? || pc.PushLoadTail? || pc.PushLink?
  }

  /** What a single thread's registers say about the shared state; `c` is the live chain. */
  predicate ThreadOk<A(==)>(s: State<A>, c: seq<A>, pc: Pc<A>)
    requires |c| > 0
  {
    && (pc.Waiting() ==> pc.n in s.next && pc.n !in c && (Cleared(s, pc) ==> s.next[pc.n] == None))
    && (pc.PushLink? ==> pc.last == c[|c| - 1])
    && (pc.Linking() ==> pc.n == c[|c| - 1])
    && (pc.PopLoadNext? ==> pc.first == s.head)
    && (pc.PopMoveHead? ==> |c| >= 2 && pc.got == c[1])
  }

  ghost predicate ThreadsOk<A>(s: State<A>, c: seq<A>)
    requires |c| > 0
  {
    && (forall t :: 0 <= t < |s.threads| ==> ThreadOk(s, c, s.threads[t]))
    && (forall t, u :: 0 <= t < |s.threads| && 0 <= u < |s.threads| && t != u ==>
          s.threads[t].Waiting() && s.threads[u].Waiting() ==> s.threads[t].n != s.threads[u].n)
  }

  ghost predicate StatusOk<A>(s: State<A>, a: Fifo<A>) {
    && |a.status| == |s.threads|
    && forall t :: 0 <= t < |s.threads| ==> a.status[t] == StatusOf(s.threads[t])
  }

  /** The concrete state `s` implements the atomic queue `a`; `d` was the first dummy. */
  ghost predicate Refines<A>(s: State<A>, a: Fifo<A>, d: A) {
    && a.Ok()
    && ChainOk(s, Live(a, d))
    && TailOk(s, History(a, d))
    && LocksOk(s)
    && ThreadsOk(s, Live(a, d))
    && StatusOk(s, a)
    && s.length < LENGTH_LIMIT
  }

  // ---------- the chain and what is outside it ----------

  lemma NoDupInMap<A>(c: seq<A>, m: map<A, Option<A>>)
    requires NoDup(c) && forall i :: 0 <= i < |c| ==> c[i] in m
    ensures |c| <= |m|
  {
    var sub := set i | 0 <= i < |c| :: c[i];
    CountNoDup(c);
    assert sub <= m.Keys;
    CardinalitySubset(sub, m.Keys);
  }

  lemma CardinalitySubset<A>(a: set<A>, b: set<A>)
    requires a <= b
    ensures |a| <= |b|
  {
    assert b == a + (b - a);
  }

  lemma {:induction false} CountNoDup<A>(c: seq<A>)
    requires NoDup(c)
    ensures |set i | 0 <= i < |c| :: c[i]| == |c|
  {
    if c != [] {
      var k := |c| - 1;
      CountNoDup(c[..k]);
      assert (set i | 0 <= i < |c| :: c[i]) == (set i | 0 <= i < k :: c[..k][i]) + {c[k]};
    }
  }

  lemma {:induction false} WalkIs<A>(next: map<A, Option<A>>, c: seq<A>, fuel: nat)
    requires 0 < |c| <= fuel
    requires forall i :: 0 <= i < |c| ==> c[i] in next
    requires forall i :: 0 <= i < |c| - 1 ==> next[c[i]] == Some(c[i + 1])
    requires next[c[|c| - 1]] == None
    ensures Walk(next, Some(c[0]), fuel) == c
  {
    if |c| > 1 {
      WalkIs(next, c[1..], fuel - 1);
    }
    assert c == [c[0]] + c[1..];
  }

  /** Following `next` from `head` meets exactly the live nodes. */
  lemma ChainIsLive<A>(s: State<A>, c: seq<A>)
    requires ChainOk(s, c)
    ensures Chain(s) == c
  {
    NoDupInMap(c, s.next);
    WalkIs(s.next, c, |s.next|);
  }

  /** A node the client may touch is outside the live chain and no waiting push owns it. */
  lemma RetiredIsOutside<A>(s: State<A>, c: seq<A>, n: A)
    requires ChainOk(s, c) && Retired(s, n)
    ensures n in s.next && n !in c
  {
    ChainIsLive(s, c);
  }

  // ---------- one step of a thread ----------

  ghost predicate OnlyThread<A>(s: State<A>, s': State<A>, t: nat) {
    t < |s.threads| == |s'.threads| && forall u :: 0 <= u < |s.threads| && u != t ==> s'.threads[u] == s.threads[u]
  }

  /** Entering a critical section takes its free lock, leaving frees it, and nothing else touches it. */
  ghost predicate LockMove(before: bool, lock: bool, after: bool, lock': bool) {
    if before == after then lock' == lock
    else if after then !lock && lock'
    else !lock'
  }

  lemma LocksAfter<A>(s: State<A>, s': State<A>, t: nat)
    requires LocksOk(s) && OnlyThread(s, s', t)
    requires LockMove(s.threads[t].InTail(), s.tailLock, s'.threads[t].InTail(), s'.tailLock)
    requires LockMove(s.threads[t].InHead(), s.headLock, s'.threads[t].InHead(), s'.headLock)
    ensures LocksOk(s')
  {
    if s'.tailLock && !s'.threads[t].InTail() {
      var u :| 0 <= u < |s.threads| && s.threads[u].InTail();
      assert s'.threads[u].InTail();
    }
    if s'.headLock && !s'.threads[t].InHead() {
      var u :| 0 <= u < |s.threads| && s.threads[u].InHead();
      assert s'.threads[u].InHead();
    }
  }

  lemma TailKept<A>(s: State<A>, s': State<A>, h: seq<A>, t: nat)
    requires |h| > 0 && TailOk(s, h) && OnlyThread(s, s', t) && s'.tail == s.tail
    requires !s.threads[t].PushTail? && !s'.threads[t].PushTail?
    ensures TailOk(s', h)
  {
    if forall u :: 0 <= u < |s'.threads| ==> !s'.threads[u].PushTail? {
      forall u | 0 <= u < |s.threads| ensures !s.threads[u].PushTail? {
        assert u != t ==> !s'.threads[u].PushTail?;
      }
    }
  }

  lemma ThreadsKept<A>(s: State<A>, s': State<A>, c: seq<A>, t: nat)
    requires |c| > 0 && ThreadsOk(s, c) && OnlyThread(s, s', t)
    requires s'.order == s.order && s'.next == s.next && s'.head == s.head && ThreadOk(s', c, s'.threads[t])
    requires s'.threads[t].Waiting() ==> s.threads[t].Waiting() && s.threads[t].n == s'.threads[t].n
    ensures ThreadsOk(s', c)
  {
    forall u | 0 <= u < |s'.threads| ensures ThreadOk(s', c, s'.threads[u]) {
      assert ThreadOk(s, c, s.threads[u]);
    }
  }

  lemma StatusAfter<A>(s: State<A>, s': State<A>, a: Fifo<A>, a': Fifo<A>, t: nat)
    requires StatusOk(s, a) && OnlyThread(s, s', t)
    requires a'.status == a.status[t := StatusOf(s'.threads[t])]
    ensures StatusOk(s', a')
  {
  }

  lemma QueueIsRest<A>(a: Fifo<A>, d: A)
    requires a.Ok()
    ensures a.Queue() == Live(a, d)[1..]
  {
  }

  /** What one thread's step needs to know of the refinement. */
  lemma ThreadIs<A>(s: State<A>, a: Fifo<A>, d: A, t: nat)
    requires Refines(s, a, d) && t < |s.threads|
    ensures a.Ok() && |a.status| == |s.threads| && a.status[t] == StatusOf(s.threads[t]) && s.length < LENGTH_LIMIT
    ensures (s.threads[t].InTail() ==> s.tailLock) && (s.threads[t].InHead() ==> s.headLock)
    ensures ThreadOk(s, Live(a, d), s.threads[t])
  {
  }

  /** A step that leaves memory, `head` and `tail` alone and keeps the locks honest. */
  lemma RegisterStep<A>(s: State<A>, s': State<A>, a: Fifo<A>, l: Label<A>, d: A, t: nat)
    requires Refines(s, a, d) && OnlyThread(s, s', t)
    requires s'.order == s.order && s'.next == s.next && s'.head == s.head && s'.tail == s.tail
        && s'.length < LENGTH_LIMIT
    requires LockMove(s.threads[t].InTail(), s.tailLock, s'.threads[t].InTail(), s'.tailLock)
    requires LockMove(s.threads[t].InHead(), s.headLock, s'.threads[t].InHead(), s'.headLock)
    requires ThreadOk(s', Live(a, d), s'.threads[t])
    requires s'.threads[t].Waiting() ==> s.threads[t].Waiting() && s.threads[t].n == s'.threads[t].n
    requires !s.threads[t].PushTail? && !s'.threads[t].PushTail?
    requires Allows(a, l) && Apply(a, l) == a.Set(t, StatusOf(s'.threads[t]))
    ensures Refines(s', Apply(a, l), d)
  {
    LocksAfter(s, s', t);
    TailKept(s, s', History(a, d), t);
    ThreadsKept(s, s', Live(a, d), t);
    StatusAfter(s, s', a, Apply(a, l), t);
    assert ChainOk(s', Live(a, d));
  }

  /** While `t` holds `tail_lock` no other thread stands between lines 26 and 27. */
  lemma TailIsLast<A>(s: State<A>, a: Fifo<A>, d: A, t: nat)
    requires Refines(s, a, d) && t < |s.threads| && s.threads[t].InTail() && !s.threads[t].PushTail?
    ensures s.tail == History(a, d)[|a.pushed|] == Live(a, d)[|Live(a, d)| - 1]
  {
    forall u | 0 <= u < |s.threads| ensures !s.threads[u].PushTail? {
      assert u != t ==> !(s.threads[t].InTail() && s.threads[u].InTail());
    }
  }

  /** queue.c's early clear only writes a node the pusher still owns. */
  lemma PreClear<A>(s: State<A>, a: Fifo<A>, d: A, t: nat)
    requires Refines(s, a, d) && Enabled(s, t) && s.threads[t].PushPreClear?
    ensures var (s', l) := ThreadStep(s, t); Allows(a, l) && Refines(s', Apply(a, l), d)
  {
    var (s', l) := ThreadStep(s, t);
    var c := Live(a, d);
    assert ThreadOk(s, c, s.threads[t]);
    LocksAfter(s, s', t);
    TailKept(s, s', History(a, d), t);
    StatusAfter(s, s', a, a, t);
    forall u | 0 <= u < |s'.threads| ensures ThreadOk(s', c, s'.threads[u]) {
      assert ThreadOk(s, c, s.threads[u]);
    }
    assert ChainOk(s', c);
  }

  lemma LinkNode<A>(s: State<A>, a: Fifo<A>, d: A, t: nat)
    requires Refines(s, a, d) && Enabled(s, t) && s.threads[t].PushLink?
    ensures var (s', l) := ThreadStep(s, t); Allows(a, l) && Refines(s', Apply(a, l), d)
  {
    var (s', l) := ThreadStep(s, t);
    assert s' == s.(next := s.next[s.threads[t].last := Some(s.threads[t].n)]).At(t, PushTail(s.threads[t].n));
    assert l == Linked(t, s.threads[t].n);
    hide ThreadStep;
    var a' := Apply(a, l);
    var c, c' := Live(a, d), Live(a', d);
    var n := s.threads[t].n;
    TailIsLast(s, a, d, t);
    assert ThreadOk(s, c, s.threads[t]);
    assert c' == c + [n];
    assert ChainOk(s', c');
    LocksAfter(s, s', t);
    assert TailOk(s', History(a', d)) by {
      assert History(a', d) == History(a, d) + [n];
    }
    LinkKeepsThreads(s, s', c, t);
    StatusAfter(s, s', a, a', t);
  }

  lemma LinkKeepsThreads<A>(s: State<A>, s': State<A>, c: seq<A>, t: nat)
    requires ChainOk(s, c) && ThreadsOk(s, c) && LocksOk(s) && Enabled(s, t) && s.threads[t].PushLink?
    requires s' == ThreadStep(s, t).0
    ensures ThreadsOk(s', c + [s.threads[t].n])
  {
    var c' := c + [s.threads[t].n];
    assert ThreadOk(s, c, s.threads[t]);
    forall u | 0 <= u < |s'.threads| ensures ThreadOk(s', c', s'.threads[u]) {
      assert ThreadOk(s, c, s.threads[u]);
    }
  }

  lemma MoveTail<A>(s: State<A>, a: Fifo<A>, d: A, t: nat)
    requires Refines(s, a, d) && Enabled(s, t) && s.threads[t].PushTail?
    ensures var (s', l) := ThreadStep(s, t); Allows(a, l) && Refines(s', Apply(a, l), d)
  {
    var (s', l) := ThreadStep(s, t);
    LocksAfter(s, s', t);
    ThreadsKept(s, s', Live(a, d), t);
    assert ThreadOk(s, Live(a, d), s.threads[t]);
    forall u | 0 <= u < |s'.threads| ensures !s'.threads[u].PushTail? {
      assert u != t ==> !(s.threads[t].InTail() && s.threads[u].InTail());
    }
    assert ChainOk(s', Live(a, d));
  }

  /** The late write of line 28 never cuts the chain: its node is still the last one. */
  lemma ClearNext<A>(s: State<A>, a: Fifo<A>, d: A, t: nat)
    requires Refines(s, a, d) && Enabled(s, t) && s.threads[t].PushClear?
    ensures var (s', l) := ThreadStep(s, t);
      Allows(a, l) && Refines(s', Apply(a, l), d) && s'.next == s.next
  {
    ThreadIs(s, a, d, t);
    var (s', l) := ThreadStep(s, t);
    assert s'.next == s.next;
    hide Refines, Live, Chain, Retired;
    assert a.Set(t, a.status[t]) == a;
    RegisterStep(s, s', a, l, d, t);
  }

  lemma PopFindsBusy<A>(s: State<A>, a: Fifo<A>, d: A, t: nat)
    requires Refines(s, a, d) && Enabled(s, t) && s.threads[t].PopAcquire? && s.headLock
    ensures var (s', l) := ThreadStep(s, t); Allows(a, l) && Refines(s', Apply(a, l), d)
  {
    hide Refines, Live, Chain, Retired, Allows;
    BusyIsAllowed(s, a, d, t);
    ThreadIs(s, a, d, t);
    var (s', l) := ThreadStep(s, t);
    assert s' == s.At(t, PopDone(None)) && l == FoundBusy(t);
    hide ThreadStep, Enabled;
    RegisterStep(s, s', a, l, d, t);
  }

  lemma BusyIsAllowed<A>(s: State<A>, a: Fifo<A>, d: A, t: nat)
    requires Refines(s, a, d) && t < |s.threads| && s.threads[t] == PopAcquire(true) && s.headLock
    ensures Allows(a, FoundBusy(t))
  {
    var u :| 0 <= u < |s.threads| && s.threads[u].InHead();
    assert a.status[u].WantPop? || a.status[u].Got?;
  }

  lemma SecondIsNext<A>(s: State<A>, c: seq<A>)
    requires ChainOk(s, c) && |c| >= 2
    ensures s.next[s.head] == Some(c[1])
  {
    assert s.next[c[0]] == Some(c[0 + 1]);
  }

  lemma ReadsNode<A>(s: State<A>, a: Fifo<A>, d: A, t: nat)
    requires Refines(s, a, d) && Enabled(s, t)
    requires s.threads[t].PopLoadNext? && s.next[s.threads[t].first].Some?
    ensures var (s', l) := ThreadStep(s, t); Allows(a, l) && Refines(s', Apply(a, l), d)
  {
    var (s', l) := ThreadStep(s, t);
    var c := Live(a, d);
    assert ThreadOk(s, c, s.threads[t]);
    SecondIsNext(s, c);
    assert a.Set(t, a.status[t]) == a;
    RegisterStep(s, s', a, l, d, t);
  }

  lemma ReadsNull<A>(s: State<A>, a: Fifo<A>, d: A, t: nat)
    requires Refines(s, a, d) && Enabled(s, t)
    requires s.threads[t].PopLoadNext? && s.next[s.threads[t].first].None?
    ensures var (s', l) := ThreadStep(s, t); Allows(a, l) && Refines(s', Apply(a, l), d)
  {
    var (s', l) := ThreadStep(s, t);
    var c := Live(a, d);
    assert ThreadOk(s, c, s.threads[t]);
    QueueIsRest(a, d);
    if |c| >= 2 {
      SecondIsNext(s, c);
      assert false;
    }
    RegisterStep(s, s', a, l, d, t);
  }

  lemma TakeFirst<A>(a: Fifo<A>, d: A, t: nat)
    requires a.Ok() && t < |a.status| && a.status[t].WantPop? && |Live(a, d)| >= 2
    ensures var n := Live(a, d)[1]; Allows(a, Took(t, n)) && Live(Apply(a, Took(t, n)), d) == Live(a, d)[1..]
  {
    QueueIsRest(a, d);
  }

  lemma ChainMovesOn<A>(s: State<A>, s': State<A>, c: seq<A>)
    requires ChainOk(s, c) && |c| >= 2 && s'.next == s.next && s'.head == c[1]
    ensures ChainOk(s', c[1..])
  {
    forall i | 0 <= i < |c| - 2 ensures s'.next[c[1..][i]] == Some(c[1..][i + 1]) {
      assert s.next[c[i + 1]] == Some(c[i + 1 + 1]);
    }
  }

  lemma MoveHead<A>(s: State<A>, a: Fifo<A>, d: A, t: nat)
    requires Refines(s, a, d) && Enabled(s, t) && s.threads[t].PopMoveHead?
    ensures var (s', l) := ThreadStep(s, t); Allows(a, l) && Refines(s', Apply(a, l), d)
  {
    var (s', l) := ThreadStep(s, t);
    assert s' == s.(head := s.threads[t].got).At(t, PopLoadLen(Some(s.threads[t].got))) && l == Took(t, s'.head);
    hide ThreadStep, Enabled;
    var c := Live(a, d);
    assert ThreadOk(s, c, s.threads[t]);
    TakeFirst(a, d, t);
    StatusAfter(s, s', a, Apply(a, l), t);
    LocksAfter(s, s', t);
    TailKept(s, s', History(a, d), t);
    MoveHeadKeepsThreads(s, s', c, t);
    ChainMovesOn(s, s', c);
    assert s'.tail == s.tail && History(Apply(a, l), d) == History(a, d);
  }

  lemma MoveHeadKeepsThreads<A>(s: State<A>, s': State<A>, c: seq<A>, t: nat)
    requires ChainOk(s, c) && ThreadsOk(s, c) && LocksOk(s) && Enabled(s, t) && s.threads[t].PopMoveHead?
    requires s' == ThreadStep(s, t).0 && |c| >= 2
    ensures ThreadsOk(s', c[1..])
  {
    forall u | 0 <= u < |s'.threads| ensures ThreadOk(s', c[1..], s'.threads[u]) {
      assert ThreadOk(s, c, s.threads[u]);
    }
  }

  lemma LoadsTail<A>(s: State<A>, a: Fifo<A>, d: A, t: nat)
    requires Refines(s, a, d) && Enabled(s, t) && s.threads[t].PushLoadTail?
    ensures var (s', l) := ThreadStep(s, t); Allows(a, l) && Refines(s', Apply(a, l), d)
  {
    hide Refines, Chain, Retired;
    TailIsLast(s, a, d, t);
    ThreadIs(s, a, d, t);
    var (s', l) := ThreadStep(s, t);
    assert a.Set(t, a.status[t]) == a;
    RegisterStep(s, s', a, l, d, t);
  }

  /** The other points of a push take or free `tail_lock` or update the counter. */
  lemma PushStep<A>(s: State<A>, a: Fifo<A>, d: A, t: nat)
    requires Refines(s, a, d) && Enabled(s, t)
    requires var pc := s.threads[t]; pc.PushAcquire? || pc.PushLoadLen? || pc.PushStoreLen? || pc.PushRelease?
    ensures var (s', l) := ThreadStep(s, t); Allows(a, l) && Refines(s', Apply(a, l), d)
  {
    hide Refines, Live, Chain, Retired;
    ThreadIs(s, a, d, t);
    var (s', l) := ThreadStep(s, t);
    assert a.Set(t, a.status[t]) == a;
    RegisterStep(s, s', a, l, d, t);
  }

  /** The other points of a pop take or free `head_lock`, load `head` or update the counter. */
  lemma PopStep<A>(s: State<A>, a: Fifo<A>, d: A, t: nat)
    requires Refines(s, a, d) && Enabled(s, t)
    requires var pc := s.threads[t];
      || (pc.PopAcquire? && !s.headLock) || pc.PopLoadHead? || pc.PopLoadLen? || pc.PopStoreLen? || pc.PopRelease?
    ensures var (s', l) := ThreadStep(s, t); Allows(a, l) && Refines(s', Apply(a, l), d)
  {
    hide Refines, Live, Chain, Retired;
    ThreadIs(s, a, d, t);
    var (s', l) := ThreadStep(s, t);
    assert a.Set(t, a.status[t]) == a;
    RegisterStep(s, s', a, l, d, t);
  }

  lemma ReturnStep<A>(s: State<A>, a: Fifo<A>, d: A, t: nat)
    requires Refines(s, a, d) && Enabled(s, t)
    requires s.threads[t].PushDone? || s.threads[t].PopDone?
    ensures var (s', l) := ThreadStep(s, t); Allows(a, l) && Refines(s', Apply(a, l), d)
  {
    hide Refines, Live, Chain, Retired;
    ThreadIs(s, a, d, t);
    var (s', l) := ThreadStep(s, t);
    RegisterStep(s, s', a, l, d, t);
  }

  /** Any enabled thread step is the atomic queue's step of the same label. */
  lemma ThreadStepRefines<A>(s: State<A>, a: Fifo<A>, d: A, t: nat)
    requires Refines(s, a, d) && Enabled(s, t)
    ensures var (s', l) := ThreadStep(s, t); Allows(a, l) && Refines(s', Apply(a, l), d)
  {
    var pc := s.threads[t];
    if pc.PushPreClear? {
      PreClear(s, a, d, t);
    } else if pc.PushLoadTail? {
      LoadsTail(s, a, d, t);
    } else if pc.PushLink? {
      LinkNode(s, a, d, t);
    } else if pc.PushTail? {
      MoveTail(s, a, d, t);
    } else if pc.PushClear? {
      ClearNext(s, a, d, t);
    } else if pc.PushDone? || pc.PopDone? {
      ReturnStep(s, a, d, t);
    } else if pc.PushAcquire? || pc.InTail() {
      PushStep(s, a, d, t);
    } else if pc.PopAcquire? && s.headLock {
      PopFindsBusy(s, a, d, t);
    } else if pc.PopLoadNext? {
      if s.next[pc.first].Some? {
        ReadsNode(s, a, d, t);
      } else {
        ReadsNull(s, a, d, t);
      }
    } else if pc.PopMoveHead? {
      MoveHead(s, a, d, t);
    } else {
      PopStep(s, a, d, t);
    }
  }

  // ---------- calls, and the client's own use of retired nodes ----------

  lemma InvokeRefines<A>(s: State<A>, a: Fifo<A>, d: A, l: Label<A>, s': State<A>)
    requires Refines(s, a, d) && l.Invoke? && Step(s, l, s') && Clean(s, l)
    ensures Allows(a, l) && Refines(s', Apply(a, l), d)
  {
    InvokeKeepsThreads(s, s', Live(a, d), l);
    CallStarts(s, a, d, l.t, l.op);
  }

  lemma SameChain<A>(s: State<A>, s': State<A>, c: seq<A>)
    requires ChainOk(s, c) && s'.next == s.next && s'.head == s.head
    ensures ChainOk(s', c)
  {
  }

  lemma CallStarts<A>(s: State<A>, a: Fifo<A>, d: A, t: nat, op: Op<A>)
    requires Refines(s, a, d) && t < |s.threads| && s.threads[t].Idle? && ThreadsOk(s.At(t, Start(op)), Live(a, d))
    ensures Allows(a, Invoke(t, op)) && Refines(s.At(t, Start(op)), Apply(a, Invoke(t, op)), d)
  {
    hide ChainOk, TailOk, LocksOk, ThreadsOk, StatusOk;
    var s' := s.At(t, Start(op));
    ThreadIs(s, a, d, t);
    LocksAfter(s, s', t);
    TailKept(s, s', History(a, d), t);
    StatusAfter(s, s', a, Apply(a, Invoke(t, op)), t);
    SameChain(s, s', Live(a, d));
  }

  lemma InvokeKeepsThreads<A>(s: State<A>, s': State<A>, c: seq<A>, l: Label<A>)
    requires ChainOk(s, c) && ThreadsOk(s, c) && l.Invoke? && Step(s, l, s') && Clean(s, l)
    ensures ThreadsOk(s', c)
  {
    if l.op.Push? {
      RetiredIsOutside(s, c, l.op.n);
    }
    forall u | 0 <= u < |s'.threads| ensures ThreadOk(s', c, s'.threads[u]) {
      assert ThreadOk(s, c, s.threads[u]);
    }
  }

  lemma ClientRefines<A>(s: State<A>, a: Fifo<A>, d: A, l: Label<A>, s': State<A>)
    requires Refines(s, a, d) && (l.Write? || l.Alloc? || l.Free?) && Step(s, l, s')
    ensures Allows(a, l) && Refines(s', Apply(a, l), d)
  {
    ClientKeepsMemory(s, s', Live(a, d), l);
    assert LocksOk(s');
    assert TailOk(s', History(a, d));
  }

  lemma ClientKeepsMemory<A>(s: State<A>, s': State<A>, c: seq<A>, l: Label<A>)
    requires ChainOk(s, c) && ThreadsOk(s, c) && (l.Write? || l.Alloc? || l.Free?) && Step(s, l, s')
    ensures ChainOk(s', c) && ThreadsOk(s', c)
  {
    if !l.Alloc? {
      RetiredIsOutside(s, c, l.n);
    }
    forall u | 0 <= u < |s'.threads| ensures ThreadOk(s', c, s'.threads[u]) {
      assert ThreadOk(s, c, s.threads[u]);
    }
  }

  lemma StepRefines<A>(s: State<A>, a: Fifo<A>, d: A, l: Label<A>, s': State<A>)
    requires Refines(s, a, d) && Step(s, l, s') && Clean(s, l)
    ensures Allows(a, l) && Refines(s', Apply(a, l), d)
  {
    if l.Invoke? {
      InvokeRefines(s, a, d, l, s');
    } else if l.Write? || l.Alloc? || l.Free? {
      ClientRefines(s, a, d, l, s');
    } else {
      ThreadStepRefines(s, a, d, l.t);
    }
  }

  // ---------- whole runs ----------

  /** The atomic queue allows the whole sequence of actions. */
  predicate Accepts<A(==)>(a: Fifo<A>, labels: seq<Label<A>>)
    decreases |labels|
  {
    labels == [] || (Allows(a, labels[0]) && Accepts(Apply(a, labels[0]), labels[1..]))
  }

  function After<A(==)>(a: Fifo<A>, labels: seq<Label<A>>): Fifo<A>
    requires Accepts(a, labels)
    decreases |labels|
  {
    if labels == [] then a else After(Apply(a, labels[0]), labels[1..])
  }

  function EmptyFifo<A>(threads: nat): Fifo<A> {
    Fifo([], 0, seq(threads, _ => Ready))
  }

  lemma InitRefines<A>(s: State<A>)
    requires Init(s)
    ensures Refines(s, EmptyFifo(|s.threads|), s.head)
  {
    assert Live(EmptyFifo(|s.threads|), s.head) == [s.head];
  }

  lemma RunTail<A>(states: seq<State<A>>, labels: seq<Label<A>>)
    requires CleanRun(states, labels) && labels != []
    ensures Step(states[0], labels[0], states[1]) && Clean(states[0], labels[0])
    ensures CleanRun(states[1..], labels[1..])
  {
    assert Step(states[0], labels[0], states[0 + 1]) && Clean(states[0], labels[0]);
    forall i | 0 <= i < |labels| - 1
      ensures Step(states[1..][i], labels[1..][i], states[1..][i + 1]) && Clean(states[1..][i], labels[1..][i])
    {
      assert Step(states[i + 1], labels[i + 1], states[i + 1 + 1]) && Clean(states[i + 1], labels[i + 1]);
    }
  }

  lemma {:induction false} RunRefines<A>(states: seq<State<A>>, labels: seq<Label<A>>, a: Fifo<A>, d: A)
    requires CleanRun(states, labels) && Refines(states[0], a, d)
    ensures Accepts(a, labels) && Refines(states[|labels|], After(a, labels), d)
    decreases |labels|
  {
    if labels != [] {
      RunTail(states, labels);
      StepRefines(states[0], a, d, labels[0], states[1]);
      RunRefines(states[1..], labels[1..], Apply(a, labels[0]), d);
    }
  }

  /** The part of a run from its `i`-th to its `j`-th state. */
  lemma Segment<A>(states: seq<State<A>>, labels: seq<Label<A>>, i: nat, j: nat)
    requires CleanRun(states, labels) && i <= j <= |labels|
    ensures CleanRun(states[i..j + 1], labels[i..j])
  {
    hide Step, Clean;
    var ss, ls := states[i..j + 1], labels[i..j];
    forall k | 0 <= k < |ls| ensures Step(ss[k], ls[k], ss[k + 1]) && Clean(ss[k], ls[k]) {
      assert Step(states[i + k], labels[i + k], states[i + k + 1]) && Clean(states[i + k], labels[i + k]);
    }
  }

  /** The atomic queue after the first `k` actions of a run of a list that started empty. */
  function FifoAt<A(==)>(states: seq<State<A>>, labels: seq<Label<A>>, k: nat): Fifo<A>
    requires states != [] && k <= |labels| && Accepts(EmptyFifo(|states[0].threads|), labels[..k])
  {
    After(EmptyFifo(|states[0].threads|), labels[..k])
  }

  /** Every state of every clean run refines what the atomic queue has become. */
  lemma ReachableRefines<A>(states: seq<State<A>>, labels: seq<Label<A>>, k: nat)
    requires CleanRun(states, labels) && Init(states[0]) && k <= |labels|
    ensures Accepts(EmptyFifo(|states[0].threads|), labels[..k])
    ensures Refines(states[k], FifoAt(states, labels, k), states[0].head)
  {
    Segment(states, labels, 0, k);
    InitRefines(states[0]);
    RunRefines(states[..k + 1], labels[..k], EmptyFifo(|states[0].threads|), states[0].head);
  }
}
