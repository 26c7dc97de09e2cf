/** list.c in its own form: nodes and lists on the heap, updated in place by one caller at a time.
    Each method is tied to the two-lock machine: it does what one thread running alone does. */
module SequentialList {
  import opened Options
  import opened TwoLockMachine
  import opened QueueRefinement
  import opened QueueProgress

  const LIST_OK: nat := 0
  const LIST_ERR: nat := 1

  class Node {
    var next: Node?

    constructor ()
      ensures next == null
    {
      next := null;
    }
  }

  function Pointer(n: Node?): Option<Node> {
    if n == null then None else Some(n)
  }

  class List {
    var head: Node
    var tail: Node
    var length: nat
    var headLock: bool
    var tailLock: bool

    /** The dummy and the queued nodes behind it. */
    ghost var chain: seq<Node>

    ghost predicate Valid()
      reads this, chain
    {
      && chain != [] && head == chain[0] && tail == chain[|chain| - 1]
      && (forall i, j :: 0 <= i < j < |chain| ==> chain[i] != chain[j])
      && (forall i :: 0 <= i < |chain| - 1 ==> chain[i].next == chain[i + 1])
      && chain[|chain| - 1].next == null
      && length < LENGTH_LIMIT
    }

    /** The machine state this list and the nodes of `world` stand for, with one idle thread. */
    ghost function View(world: set<Node>): State<Node>
      reads this, world
    {
      var heap := if world == {} then map[] else map n | n in world :: Pointer(n.next);
      State(LateClear, heap, head, tail, length, headLock, tailLock, [Idle])
    }

    /** A list whose fields are not set up yet, around an arbitrary node. */
    constructor Raw(n: Node)
      ensures fresh(this)
    {
      head, tail, length, headLock, tailLock, chain := n, n, 0, false, false, [];
    }

    /** list_init; `block` is what mem_pool_alloc returned. */
    method Init(block: Node?) returns (rc: nat)
      modifies this, block
      ensures rc == if block == null then 1 else 0
      ensures block == null ==> unchanged(this)
      ensures block != null ==>
                Valid() && chain == [block] && length == 0 && !headLock && !tailLock
                && forall world: set<Node> :: block in world ==> TwoLockMachine.Init(View(world))
    {
      if block == null {
        return LIST_ERR;
      }
      block.next := null;
      head := block;
      tail := block;
      length := 0;
      headLock := false;
      tailLock := false;
      chain := [block];
      return LIST_OK;
    }

    /** list_tail_push_node. Alone, it does not care what `node.next` was. */
    method Push(node: Node, ghost world: set<Node>)
      requires Valid() && !tailLock && node !in chain && node in world && tail in world
      modifies this, tail, node
      ensures Valid() && chain == old(chain) + [node]
      ensures length == (old(length) + 1) % 0x1_0000_0000
      ensures headLock == old(headLock) && !tailLock
      ensures View(world) == RunToEnd(old(View(world)).At(0, Start(Op.Push(node))), 0)
      ensures SaidToEnd(old(View(world)).At(0, Start(Op.Push(node))), 0) == [Linked(0, node), Return(0, None)]
    {
      hide RunToEnd, SaidToEnd;
      ghost var s := View(world);
      tailLock := true;
      tail.next := node;
      tail := node;
      node.next := null;
      length := (length + 1) % LENGTH_LIMIT;
      tailLock := false;
      chain := chain + [node];
      PushToEnd(s, node);
    }

    /** list_head_pop_node: gives up when the lock is busy. */
    method TryPop(ghost world: set<Node>) returns (node: Node?)
      requires Valid() && head in world
      modifies this
      ensures old(headLock) ==> node == null && unchanged(this)
      ensures !old(headLock) ==> Popped(node, old(chain), old(length))
      ensures Valid() && tail == old(tail) && tailLock == old(tailLock) && headLock == old(headLock)
      ensures View(world) == RunToEnd(old(View(world)).At(0, Start(Op.TryPop)), 0)
      ensures var r := Pointer(node);
        SaidToEnd(old(View(world)).At(0, Start(Op.TryPop)), 0) ==
          [if r.Some? then Took(0, r.value) else if old(headLock) then FoundBusy(0) else FoundEmpty(0), Return(0, r)]
    {
      hide RunToEnd, SaidToEnd;
      ghost var s := View(world);
      if headLock {
        BusyToEnd(s);
        return null;
      }
      headLock := true;
      assert |chain| >= 2 ==> chain[0].next == chain[0 + 1];
      node := head.next;
      if node != null {
        head := node;
        chain := chain[1..];
      }
      length := (length + LENGTH_LIMIT - 1) % LENGTH_LIMIT;
      headLock := false;
      PopToEnd(s, true);
    }

    /** list_head_pop_node_blocking. */
    method BlockingPop(ghost world: set<Node>) returns (node: Node?)
      requires Valid() && !headLock && head in world
      modifies this
      ensures Popped(node, old(chain), old(length))
      ensures Valid() && tail == old(tail) && tailLock == old(tailLock) && !headLock
      ensures View(world) == RunToEnd(old(View(world)).At(0, Start(Op.BlockingPop)), 0)
      ensures var r := Pointer(node);
        SaidToEnd(old(View(world)).At(0, Start(Op.BlockingPop)), 0) ==
          [if r.Some? then Took(0, r.value) else FoundEmpty(0), Return(0, r)]
    {
      hide RunToEnd, SaidToEnd;
      ghost var s := View(world);
      headLock := true;
      assert |chain| >= 2 ==> chain[0].next == chain[0 + 1];
      node := head.next;
      if node != null {
        head := node;
        chain := chain[1..];
      }
      length := (length + LENGTH_LIMIT - 1) % LENGTH_LIMIT;
      headLock := false;
      PopToEnd(s, false);
    }

    /** The first queued node leaves and becomes the dummy; with nothing queued the chain stays
        and NULL comes back. Either way the counter goes down, through zero if need be. */
    ghost predicate Popped(node: Node?, was: seq<Node>, len: nat)
      requires was != []
      reads this
    {
      && (if |was| == 1 then node == null && chain == was
          else node == was[1] && chain == was[1..])
      && length == if len == 0 then 0xFFFF_FFFF else len - 1
    }
  }

  // ---------- one thread of the machine, run alone ----------

  /** Thread `t` takes every step it can; the others do nothing. */
  ghost function RunToEnd<A>(s: State<A>, t: nat): State<A>
    requires t < |s.threads|
    decreases Rank(s.threads[t])
  {
    if Enabled(s, t) then
      StepLowersRank(s, t);
      RunToEnd(ThreadStep(s, t).0, t)
    else s
  }

  /** What the queue is told meanwhile: the actions other than loads, stores and lock operations. */
  ghost function SaidToEnd<A>(s: State<A>, t: nat): seq<Label<A>>
    requires t < |s.threads|
    decreases Rank(s.threads[t])
  {
    if Enabled(s, t) then
      StepLowersRank(s, t);
      Said(ThreadStep(s, t).1) + SaidToEnd(ThreadStep(s, t).0, t)
    else []
  }

  function Said<A>(l: Label<A>): seq<Label<A>> {
    if l.Tau? || l.Counted? then [] else [l]
  }

  lemma EndAfter<A>(s: State<A>, t: nat, s': State<A>)
    requires Enabled(s, t) && s' == ThreadStep(s, t).0
    ensures t < |s'.threads| && RunToEnd(s, t) == RunToEnd(s', t)
    ensures SaidToEnd(s, t) == Said(ThreadStep(s, t).1) + SaidToEnd(s', t)
  {
    StepLowersRank(s, t);
  }

  lemma PushToEnd<A>(s: State<A>, n: A)
    requires s.threads == [Idle] && s.order.LateClear? && !s.tailLock && s.tail in s.next && n in s.next
    ensures RunToEnd(s.At(0, PushAcquire(n)), 0)
         == s.(next := s.next[s.tail := Some(n)][n := None], tail := n, length := (s.length + 1) % LENGTH_LIMIT)
    ensures SaidToEnd(s.At(0, PushAcquire(n)), 0) == [Linked(0, n), Return(0, None)]
  {
    hide RunToEnd, SaidToEnd;
    var s1 := s.(tailLock := true, threads := [PushLoadTail(n)]);
    var s2 := s1.(threads := [PushLink(n, s.tail)]);
    var s3 := s2.(next := s.next[s.tail := Some(n)], threads := [PushTail(n)]);
    var s4 := s3.(tail := n, threads := [PushClear(n)]);
    EndAfter(s.At(0, PushAcquire(n)), 0, s1);
    EndAfter(s1, 0, s2);
    EndAfter(s2, 0, s3);
    EndAfter(s3, 0, s4);
    ClearToEnd(s4, n);
  }

  /** Pushing the node just popped, which is still the dummy, loses every queued node and the pushed one:
      the chain that is left is that dummy alone, and the next pop finds nothing. */
  lemma PushedDummyLosesAll<A>(s: State<A>, c: seq<A>, try: bool)
    requires s.threads == [Idle] && s.order.LateClear? && !s.tailLock && !s.headLock
    requires ChainOk(s, c) && s.tail == c[|c| - 1]
    ensures var e := RunToEnd(s.At(0, PushAcquire(s.head)), 0);
      && Chain(e) == [s.head] && e.tail == s.head && e.threads == [Idle]
      && RunToEnd(e.At(0, PopAcquire(try)), 0).head == s.head
  {
    PushToEnd(s, s.head);
    var e := RunToEnd(s.At(0, PushAcquire(s.head)), 0);
    assert e.next.Keys == s.next.Keys && s.head in e.next && e.next[s.head] == None;
    assert |e.next| == |e.next.Keys| > 0;
    assert Walk(e.next, None, |e.next| - 1) == [];
    PopToEnd(e, try);
  }

  lemma ClearToEnd<A>(s: State<A>, n: A)
    requires s.threads == [PushClear(n)] && n in s.next
    ensures RunToEnd(s, 0) == s.(next := s.next[n := None], length := (s.length + 1) % LENGTH_LIMIT,
                                 tailLock := false, threads := [Idle])
    ensures SaidToEnd(s, 0) == [Return(0, None)]
  {
    hide RunToEnd, SaidToEnd;
    var s1 := s.(next := s.next[n := None], threads := [PushLoadLen(n)]);
    EndAfter(s, 0, s1);
    CountUpToEnd(s1, n);
  }

  lemma CountUpToEnd<A>(s: State<A>, n: A)
    requires s.threads == [PushLoadLen(n)]
    ensures RunToEnd(s, 0) == s.(length := (s.length + 1) % LENGTH_LIMIT, tailLock := false, threads := [Idle])
    ensures SaidToEnd(s, 0) == [Return(0, None)]
  {
    hide RunToEnd, SaidToEnd;
    var s1 := s.(threads := [PushStoreLen(n, s.length)]);
    EndAfter(s, 0, s1);
    StoreUpToEnd(s1, n, s.length);
  }

  lemma StoreUpToEnd<A>(s: State<A>, n: A, v: nat)
    requires s.threads == [PushStoreLen(n, v)]
    ensures RunToEnd(s, 0) == s.(length := (v + 1) % LENGTH_LIMIT, tailLock := false, threads := [Idle])
    ensures SaidToEnd(s, 0) == [Return(0, None)]
  {
    hide RunToEnd, SaidToEnd;
    var s1 := s.(length := (v + 1) % LENGTH_LIMIT, threads := [PushRelease(n)]);
    EndAfter(s, 0, s1);
    ReleaseToEnd(s1);
  }

  lemma ReleaseToEnd<A>(s: State<A>)
    requires |s.threads| == 1 && (s.threads[0].PushRelease? || s.threads[0].PopRelease?)
    ensures RunToEnd(s, 0) == (if s.threads[0].PushRelease? then s.(tailLock := false) else s.(headLock := false))
                              .(threads := [Idle])
    ensures SaidToEnd(s, 0) == [Return(0, if s.threads[0].PopRelease? then s.threads[0].r else None)]
  {
    var s1 := ThreadStep(s, 0).0;
    var s2 := ThreadStep(s1, 0).0;
    EndAfter(s, 0, s1);
    EndAfter(s1, 0, s2);
    IdleIsEnd(s2);
  }

  lemma IdleIsEnd<A>(s: State<A>)
    requires s.threads == [Idle]
    ensures RunToEnd(s, 0) == s && SaidToEnd(s, 0) == []
  {
  }

  lemma BusyToEnd<A>(s: State<A>)
    requires s.threads == [Idle] && s.headLock
    ensures RunToEnd(s.At(0, PopAcquire(true)), 0) == s
    ensures SaidToEnd(s.At(0, PopAcquire(true)), 0) == [FoundBusy(0), Return(0, None)]
  {
    var s1 := s.(threads := [PopDone(None)]);
    EndAfter(s.At(0, PopAcquire(true)), 0, s1);
    EndAfter(s1, 0, s);
    IdleIsEnd(s);
  }

  lemma PopToEnd<A>(s: State<A>, try: bool)
    requires s.threads == [Idle] && !s.headLock && s.head in s.next
    ensures RunToEnd(s.At(0, PopAcquire(try)), 0)
         == s.(head := if s.next[s.head].Some? then s.next[s.head].value else s.head,
               length := (s.length + LENGTH_LIMIT - 1) % LENGTH_LIMIT)
    ensures var r := s.next[s.head];
      SaidToEnd(s.At(0, PopAcquire(try)), 0) == [if r.Some? then Took(0, r.value) else FoundEmpty(0), Return(0, r)]
  {
    hide RunToEnd, SaidToEnd;
    var s1 := s.(headLock := true, threads := [PopLoadHead(try)]);
    var s2 := s1.(threads := [PopLoadNext(try, s.head)]);
    EndAfter(s.At(0, PopAcquire(try)), 0, s1);
    EndAfter(s1, 0, s2);
    ReadToEnd(s2, try);
  }

  lemma ReadToEnd<A>(s: State<A>, try: bool)
    requires s.threads == [PopLoadNext(try, s.head)] && s.head in s.next
    ensures RunToEnd(s, 0)
         == s.(head := if s.next[s.head].Some? then s.next[s.head].value else s.head,
               length := (s.length + LENGTH_LIMIT - 1) % LENGTH_LIMIT, headLock := false, threads := [Idle])
    ensures var r := s.next[s.head];
      SaidToEnd(s, 0) == [if r.Some? then Took(0, r.value) else FoundEmpty(0), Return(0, r)]
  {
    hide RunToEnd, SaidToEnd;
    var r := s.next[s.head];
    if r.Some? {
      var s1 := s.(threads := [PopMoveHead(try, r.value)]);
      EndAfter(s, 0, s1);
      TakeToEnd(s1, try, r.value);
    } else {
      var s1 := s.(threads := [PopLoadLen(r)]);
      EndAfter(s, 0, s1);
      CountDownToEnd(s1, r);
    }
  }

  lemma TakeToEnd<A>(s: State<A>, try: bool, n: A)
    requires s.threads == [PopMoveHead(try, n)]
    ensures RunToEnd(s, 0) == s.(head := n, length := (s.length + LENGTH_LIMIT - 1) % LENGTH_LIMIT,
                                 headLock := false, threads := [Idle])
    ensures SaidToEnd(s, 0) == [Took(0, n), Return(0, Some(n))]
  {
    hide RunToEnd, SaidToEnd;
    var s1 := s.(head := n, threads := [PopLoadLen(Some(n))]);
    EndAfter(s, 0, s1);
    CountDownToEnd(s1, Some(n));
  }

  lemma CountDownToEnd<A>(s: State<A>, r: Option<A>)
    requires s.threads == [PopLoadLen(r)]
    ensures RunToEnd(s, 0) == s.(length := (s.length + LENGTH_LIMIT - 1) % LENGTH_LIMIT,
                                 headLock := false, threads := [Idle])
    ensures SaidToEnd(s, 0) == [Return(0, r)]
  {
    hide RunToEnd, SaidToEnd;
    var s1 := s.(threads := [PopStoreLen(r, s.length)]);
    var s2 := s1.(length := (s.length + LENGTH_LIMIT - 1) % LENGTH_LIMIT, threads := [PopRelease(r)]);
    EndAfter(s, 0, s1);
    EndAfter(s1, 0, s2);
    ReleaseToEnd(s2);
  }
}
