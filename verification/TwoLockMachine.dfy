/** The two-lock queues of list.c and queue.c as one transition system over any number of threads.
    Each step of a thread is one shared read, one shared write or one lock operation.
    The two files differ in when a push clears the new node's `next`. */
module TwoLockMachine {
  import opened Options

  /** `length` is a uint32_t. */
  const LENGTH_LIMIT: nat := 0x1_0000_0000

  /** list.c clears `node->next` after publishing the node, queue.c before. */
  datatype Order = LateClear | EarlyClear

  datatype Op<A> =
    | Push(n: A)
    | TryPop
    | BlockingPop

  /** Where a thread stands inside a call; `A` is the type of node addresses. */
  datatype Pc<A> =
    | Idle
    // list_tail_push_node and enqueue; PushClear is list.c's, PushPreClear is queue.c's
    | PushAcquire(n: A)
    | PushPreClear(n: A)
    | PushLoadTail(n: A)
    | PushLink(n: A, last: A)
    | PushTail(n: A)
    | PushClear(n: A)
    | PushLoadLen(n: A)
    | PushStoreLen(n: A, v: nat)
    | PushRelease(n: A)
    | PushDone
    // list_head_pop_node and dequeue (`try`), list_head_pop_node_blocking and dequeue_blocking
    | PopAcquire(try: bool)
    | PopLoadHead(try: bool)
    | PopLoadNext(try: bool, first: A)
    | PopMoveHead(try: bool, got: A)
    | PopLoadLen(r: Option<A>)
    | PopStoreLen(r: Option<A>, v: nat)
    | PopRelease(r: Option<A>)
    | PopDone(r: Option<A>)
  {
    predicate InTail() {
      PushPreClear? || PushLoadTail? || PushLink? || PushTail? || PushClear? || PushLoadLen? || PushStoreLen?
          || PushRelease?
    }

    predicate InHead() {
      PopLoadHead? || PopLoadNext? || PopMoveHead? || PopLoadLen? || PopStoreLen? || PopRelease?
    }

    /** A push that has not linked its node yet still owns it. */
    predicate Waiting() {
      PushAcquire? || PushPreClear? || PushLoadTail? || PushLink?
    }

    /** A push that has linked its node and still holds `tail_lock`. */
    predicate Linking() {
      PushTail? || PushClear? || PushLoadLen? || PushStoreLen? || PushRelease?
    }
  }

  datatype Label<A> =
    | Tau(t: nat)
    | Invoke(t: nat, op: Op<A>)
    | Linked(t: nat, n: A)
    | Took(t: nat, n: A)
    | FoundEmpty(t: nat)
    | FoundBusy(t: nat)
    | Counted(t: nat, up: bool)
    | Return(t: nat, r: Option<A>)
    // the client using nodes the queue has let go of
    | Write(n: A, v: Option<A>)
    | Alloc(n: A, v: Option<A>)
    | Free(n: A)

  datatype State<A(==)> = State(
    order: Order, next: map<A, Option<A>>, head: A, tail: A, length: nat,
    headLock: bool, tailLock: bool, threads: seq<Pc<A>>)
  {
    function At(t: nat, pc: Pc<A>): State<A>
      requires t < |threads|
    {
      this.(threads := threads[t := pc])
    }

    predicate Quiet() {
      forall t :: 0 <= t < |threads| ==> threads[t].Idle?
    }
  }

  /** The nodes met by following `next` from `from`, at most `fuel` of them. */
  function Walk<A(==)>(next: map<A, Option<A>>, from: Option<A>, fuel: nat): seq<A>
    decreases fuel
  {
    if fuel == 0 || from.None? || from.value !in next then []
    else [from.value] + Walk(next, next[from.value], fuel - 1)
  }

  function Chain<A(==)>(s: State<A>): seq<A> {
    Walk(s.next, Some(s.head), |s.next|)
  }

  /** The client may touch `n`: it is allocated, not reachable from `head`, and not being pushed. */
  predicate Retired<A(==)>(s: State<A>, n: A) {
    && n in s.next
    && n !in Chain(s)
    && forall t :: 0 <= t < |s.threads| && s.threads[t].Waiting() ==> s.threads[t].n != n
  }

  predicate CallOk<A(==)>(s: State<A>, op: Op<A>) {
    op.Push? ==> Retired(s, op.n)
  }

  function Start<A>(op: Op<A>): Pc<A> {
    match op
    case Push(n) => PushAcquire(n)
    case TryPop => PopAcquire(true)
    case BlockingPop => PopAcquire(false)
  }

  /** A waiting lock acquisition is disabled while the lock is taken; a memory access needs a live block. */
  predicate Enabled<A(==)>(s: State<A>, t: nat) {
    && t < |s.threads|
    && match s.threads[t] {
         case Idle => false
         case PushAcquire(_) => !s.tailLock
         case PushLink(_, last) => last in s.next
         case PushPreClear(n) => n in s.next
         case PushClear(n) => n in s.next
         case PopAcquire(try) => try || !s.headLock
         case PopLoadNext(_, first) => first in s.next
         case _ => true
       }
  }

  function ThreadStep<A(==)>(s: State<A>, t: nat): (State<A>, Label<A>)
    requires Enabled(s, t)
  {
    match s.threads[t]
    case PushAcquire(n) =>
      (s.(tailLock := true).At(t, if s.order.EarlyClear? then PushPreClear(n) else PushLoadTail(n)), Tau(t))
    case PushPreClear(n) => (s.(next := s.next[n := None]).At(t, PushLoadTail(n)), Tau(t))
    case PushLoadTail(n) => (s.At(t, PushLink(n, s.tail)), Tau(t))
    case PushLink(n, last) => (s.(next := s.next[last := Some(n)]).At(t, PushTail(n)), Linked(t, n))
    case PushTail(n) =>
      (s.(tail := n).At(t, if s.order.LateClear? then PushClear(n) else PushLoadLen(n)), Tau(t))
    case PushClear(n) => (s.(next := s.next[n := None]).At(t, PushLoadLen(n)), Tau(t))
    case PushLoadLen(n) => (s.At(t, PushStoreLen(n, s.length)), Tau(t))
    case PushStoreLen(n, v) =>
      (s.(length := (v + 1) % LENGTH_LIMIT).At(t, PushRelease(n)), Counted(t, true))
    case PushRelease(n) => (s.(tailLock := false).At(t, PushDone), Tau(t))
    case PushDone => (s.At(t, Idle), Return(t, None))
    case PopAcquire(try) =>
      if s.headLock then (s.At(t, PopDone(None)), FoundBusy(t))
      else (s.(headLock := true).At(t, PopLoadHead(try)), Tau(t))
    case PopLoadHead(try) => (s.At(t, PopLoadNext(try, s.head)), Tau(t))
    case PopLoadNext(try, first) =>
      if s.next[first].Some? then (s.At(t, PopMoveHead(try, s.next[first].value)), Tau(t))
      else (s.At(t, PopLoadLen(None)), FoundEmpty(t))
    case PopMoveHead(_, got) => (s.(head := got).At(t, PopLoadLen(Some(got))), Took(t, got))
    case PopLoadLen(r) => (s.At(t, PopStoreLen(r, s.length)), Tau(t))
    case PopStoreLen(r, v) =>
      (s.(length := (v + LENGTH_LIMIT - 1) % LENGTH_LIMIT).At(t, PopRelease(r)), Counted(t, false))
    case PopRelease(r) => (s.(headLock := false).At(t, PopDone(r)), Tau(t))
    case PopDone(r) => (s.At(t, Idle), Return(t, r))
  }

  predicate Step<A(==)>(s: State<A>, l: Label<A>, s': State<A>) {
    match l
    case Invoke(t, op) =>
      t < |s.threads| && s.threads[t].Idle? && CallOk(s, op) && s' == s.At(t, Start(op))
    case Write(n, v) => Retired(s, n) && s' == s.(next := s.next[n := v])
    case Alloc(n, v) => n !in s.next && s' == s.(next := s.next[n := v])
    case Free(n) => Retired(s, n) && s' == s.(next := s.next - {n})
    case _ => Enabled(s, l.t) && ThreadStep(s, l.t) == (s', l)
  }

  /** The part of the caller's duty that list.c never checks and queue.c does not need:
      a pushed node starts with a NULL `next`. */
  predicate Clean<A(==)>(s: State<A>, l: Label<A>) {
    s.order.LateClear? && l.Invoke? && l.op.Push? && l.op.n in s.next ==> s.next[l.op.n].None?
  }

  /** The state list_init leaves: a dummy node, a zero length and free locks. */
  predicate Init<A(==)>(s: State<A>) {
    && s.head in s.next && s.next[s.head].None?
    && s.tail == s.head && s.length == 0
    && !s.headLock && !s.tailLock && s.Quiet()
  }

  predicate Run<A(==)>(states: seq<State<A>>, labels: seq<Label<A>>) {
    && |states| == |labels| + 1
    && forall i :: 0 <= i < |labels| ==> Step(states[i], labels[i], states[i + 1])
  }

  predicate CleanRun<A(==)>(states: seq<State<A>>, labels: seq<Label<A>>) {
    && Run(states, labels)
    && forall i :: 0 <= i < |labels| ==> Clean(states[i], labels[i])
  }
}
