/** old/mplist.c: a doubly linked list in a memory pool, with a 32-bit length that drives its loops. */
module MpList {
  const LEN_LIMIT: nat := 0x1_0000_0000

  // ---------- what the two adds do to the nodes ----------

  datatype End = Head | Tail

  /** The chain after an add; `len` is what decides whether the list counts as empty. */
  function Added<T>(s: seq<T>, end: End, x: T): seq<T> {
    if |s| % LEN_LIMIT == 0 then [x]
    else if end.Head? then [x] + s
    else s + [x]
  }

  lemma AddedSize<T>(s: seq<T>, end: End, x: T)
    requires |s| <= LEN_LIMIT
    ensures |Added(s, end, x)| <= LEN_LIMIT
    ensures |Added(s, end, x)| % LEN_LIMIT == (|s| % LEN_LIMIT + 1) % LEN_LIMIT
  {
  }

  datatype Add<T> = Add(end: End, x: T)

  /** The chain a run of adds leaves behind. */
  function Stored<T>(adds: seq<Add<T>>): seq<T> {
    if adds == [] then []
    else var a := adds[|adds| - 1]; Added(Stored(adds[..|adds| - 1]), a.end, a.x)
  }

  /** The adds for which the pool had room. */
  function Granted<T>(adds: seq<Add<T>>, full: seq<bool>): seq<Add<T>>
    requires |full| == |adds|
  {
    if adds == [] then []
    else
      var k := |adds| - 1;
      Granted(adds[..k], full[..k]) + if full[k] then [] else [adds[k]]
  }

  /** What a double-ended queue would hold. */
  function Deque<T>(adds: seq<Add<T>>): seq<T> {
    if adds == [] then []
    else
      var a, was := adds[|adds| - 1], Deque(adds[..|adds| - 1]);
      if a.end.Head? then [a.x] + was else was + [a.x]
  }

  lemma {:induction false} StoredSize<T>(adds: seq<Add<T>>)
    ensures |Deque(adds)| == |adds|
    ensures |Stored(adds)| == if adds == [] then 0 else (|adds| - 1) % LEN_LIMIT + 1
  {
    if adds != [] {
      var was := adds[..|adds| - 1];
      StoredSize(was);
      if was != [] {
        WrapStep(|was|);
      }
    }
  }

  lemma Below(n: nat)
    requires n < LEN_LIMIT
    ensures n % LEN_LIMIT == n
  {
  }

  lemma WrapStep(n: nat)
    requires 0 < n
    ensures var k := (n - 1) % LEN_LIMIT + 1; n % LEN_LIMIT == if k % LEN_LIMIT == 0 then 0 else k
  {
    var q, r := (n - 1) / LEN_LIMIT, (n - 1) % LEN_LIMIT;
    assert n == q * LEN_LIMIT + r + 1;
    if r + 1 == LEN_LIMIT {
      assert n == (q + 1) * LEN_LIMIT;
    }
  }

  /** The list is a double-ended queue exactly as long as at most 2^32 values were added: one more, and the
      wrapped length makes the add drop everything before it. */
  lemma {:induction false} StoredIsDequeIff<T>(adds: seq<Add<T>>)
    ensures Stored(adds) == Deque(adds) <==> |adds| <= 0x1_0000_0000
  {
    StoredSize(adds);
    if 0 < |adds| <= LEN_LIMIT {
      var was := adds[..|adds| - 1];
      StoredIsDequeIff(was);
      StoredSize(was);
    }
  }

  // ---------- the heap ----------

  class MpListNode {
    var next: MpListNode?
    var prev: MpListNode?
    var value: int

    constructor Raw()
    {
      next, prev, value := null, null, 0;
    }
  }

  /** What mplist_destroy does to the world outside, in order. */
  datatype Event = Destroyed(value: int) | Freed(block: object)

  /** The memory pool: which blocks are handed out. The destructor calls share its log. */
  class MemPool {
    ghost var live: set<object>
    ghost var log: seq<Event>

    constructor ()
      ensures live == {} && log == []
    {
      live, log := {}, [];
    }

    /** mem_pool_alloc: a new block, or NULL. */
    method AllocNode(full: bool) returns (n: MpListNode?)
      modifies this`live
      ensures full ==> n == null && live == old(live)
      ensures !full ==> n != null && fresh(n) && live == old(live) + {n}
    {
      if full {
        return null;
      }
      n := new MpListNode.Raw();
      live := live + {n};
    }

    /** mem_pool_free, of a block that is in use. */
    ghost method Free(block: object)
      requires block in live
      modifies this`live, this`log
      ensures live == old(live) - {block} && log == old(log) + [Freed(block)]
    {
      live := live - {block};
      log := log + [Freed(block)];
    }

    /** The next pointer of a block that is in use. */
    method Next(n: MpListNode) returns (next: MpListNode?)
      requires n in live
      ensures next == n.next
    {
      next := n.next;
    }

    /** The list's free callback, on the value of a block that is in use. */
    ghost method Destroy(n: MpListNode)
      requires n in live
      modifies this`log
      ensures log == old(log) + [Destroyed(n.value)]
    {
      log := log + [Destroyed(n.value)];
    }
  }

  /** The node at position `i` of the chain, or NULL past either end. */
  ghost function At(s: seq<MpListNode>, i: int): MpListNode? {
    if 0 <= i < |s| then s[i] else null
  }

  /** The nodes met by following next (or prev) `k` times at most, inside `world`. */
  ghost function Walk(n: MpListNode?, forward: bool, k: nat, world: set<MpListNode>): seq<MpListNode>
    reads world
  {
    if n == null || k == 0 || n !in world then []
    else [n] + Walk(if forward then n.next else n.prev, forward, k - 1, world)
  }

  function Reversed<T>(s: seq<T>): (r: seq<T>)
    ensures |r| == |s| && forall i :: 0 <= i < |s| ==> r[i] == s[|s| - 1 - i]
  {
    if s == [] then [] else [s[|s| - 1]] + Reversed(s[..|s| - 1])
  }

  ghost function ValuesOf(s: seq<MpListNode>): (vs: seq<int>)
    reads s
    ensures |vs| == |s| && forall i :: 0 <= i < |s| ==> vs[i] == s[i].value
  {
    if s == [] then [] else [s[0].value] + ValuesOf(s[1..])
  }

  lemma AddedValues(s: seq<MpListNode>, end: End, n: MpListNode)
    ensures ValuesOf(Added(s, end, n)) == Added(ValuesOf(s), end, n.value)
  {
  }

  lemma StoredNext<T>(adds: seq<Add<T>>, a: Add<T>)
    ensures Stored(adds + [a]) == Added(Stored(adds), a.end, a.x)
  {
    assert (adds + [a])[..|adds|] == adds;
  }

  lemma GrantedNext<T>(adds: seq<Add<T>>, full: seq<bool>, i: nat)
    requires |full| == |adds| && i < |adds|
    ensures var was := Granted(adds[..i], full[..i]);
      Granted(adds[..i + 1], full[..i + 1]) == if full[i] then was else was + [adds[i]]
  {
    assert adds[..i + 1][..i] == adds[..i] && full[..i + 1][..i] == full[..i];
  }

  ghost function BlocksOf(s: seq<MpListNode>): set<object> {
    set n: object | n in s
  }

  /** mplist_create; NULL when the pool has no room for the header. */
  method Create(pool: MemPool, full: bool) returns (list: MpList?)
    modifies pool`live
    ensures full ==> list == null && pool.live == old(pool.live)
    ensures !full ==>
      && list != null && fresh(list) && pool.live == old(pool.live) + {list}
      && list.Valid() && list.nodes == [] && list.len == 0 && !list.free && list.head == null && list.tail == null
  {
    if full {
      return null;
    }
    list := new MpList();
    pool.live := pool.live + {list};
  }

  class MpList {
    var head: MpListNode?
    var tail: MpListNode?
    var len: nat
    var free: bool
    ghost var nodes: seq<MpListNode>

    ghost predicate Chained()
      reads this, nodes
    {
      && (forall i, j :: 0 <= i < j < |nodes| ==> nodes[i] != nodes[j])
      && (forall i, j :: 0 <= i < j < |nodes| && j == i + 1 ==> nodes[i].next == nodes[j] && nodes[j].prev == nodes[i])
      && if nodes == [] then head == null && tail == null
         else
           && head == nodes[0] && nodes[0].prev == null
           && tail == nodes[|nodes| - 1] && nodes[|nodes| - 1].next == null
    }

    /** The length is the number of nodes as long as that fits in 32 bits. */
    ghost predicate Valid()
      reads this, nodes
    {
      Chained() && |nodes| <= LEN_LIMIT && len == |nodes| % LEN_LIMIT
    }

    ghost function Blocks(): set<object>
      reads this
    {
      BlocksOf(nodes) + {this}
    }

    constructor ()
      ensures Valid() && nodes == [] && len == 0 && !free && head == null && tail == null
    {
      head, tail, len, free, nodes := null, null, 0, false, [];
    }

    /** Lines 54-64: the node takes its place and the length goes up. */
    method LinkHead(node: MpListNode)
      requires Valid() && node !in nodes
      modifies this`head, this`tail, this`len, this`nodes, nodes`prev, node`next, node`prev
      ensures Valid() && nodes == Added(old(nodes), Head, node) && head == node
    {
      if len == 0 {
        head := node;
        tail := node;
        node.prev := null;
        node.next := null;
      } else {
        node.prev := null;
        node.next := head;
        head.prev := node;
        head := node;
      }
      AddedSize(nodes, Head, node);
      nodes := Added(nodes, Head, node);
      len := (len + 1) % LEN_LIMIT;
    }

    /** mplist_add_node_head; false is its NULL. */
    method AddHead(pool: MemPool, value: int, full: bool) returns (ok: bool)
      requires Valid() && Blocks() <= pool.live
      modifies this`head, this`tail, this`len, this`nodes, nodes`prev, pool`live
      ensures Valid() && Blocks() <= pool.live && ok == !full
      ensures !ok ==> unchanged(this) && unchanged(old(nodes)) && pool.live == old(pool.live)
      ensures ok ==> head != null && fresh(head) && head.value == value
      ensures ok ==> nodes == Added(old(nodes), Head, head) && pool.live == old(pool.live) + {head}
    {
      var node := pool.AllocNode(full);
      if node == null {
        return false;
      }
      node.value := value;
      LinkHead(node);
      return true;
    }

    /** Lines 81-91: the node takes its place and the length goes up. */
    method LinkTail(node: MpListNode)
      requires Valid() && node !in nodes
      modifies this`head, this`tail, this`len, this`nodes, nodes`next, node`next, node`prev
      ensures Valid() && nodes == Added(old(nodes), Tail, node) && tail == node
    {
      if len == 0 {
        head := node;
        tail := node;
        node.prev := null;
        node.next := null;
      } else {
        node.next := null;
        node.prev := tail;
        tail.next := node;
        tail := node;
      }
      AddedSize(nodes, Tail, node);
      nodes := Added(nodes, Tail, node);
      len := (len + 1) % LEN_LIMIT;
    }

    /** mplist_add_node_tail. */
    method AddTail(pool: MemPool, value: int, full: bool) returns (ok: bool)
      requires Valid() && Blocks() <= pool.live
      modifies this`head, this`tail, this`len, this`nodes, nodes`next, pool`live
      ensures Valid() && Blocks() <= pool.live && ok == !full
      ensures !ok ==> unchanged(this) && unchanged(old(nodes)) && pool.live == old(pool.live)
      ensures ok ==> tail != null && fresh(tail) && tail.value == value
      ensures ok ==> nodes == Added(old(nodes), Tail, tail) && pool.live == old(pool.live) + {tail}
    {
      var node := pool.AllocNode(full);
      if node == null {
        return false;
      }
      node.value := value;
      LinkTail(node);
      return true;
    }

    /** Either add, in terms of the values. */
    method AddOne(pool: MemPool, a: Add<int>, full: bool)
      requires Valid() && Blocks() <= pool.live
      modifies this`head, this`tail, this`len, this`nodes, nodes`prev, nodes`next, pool`live
      ensures Valid() && Blocks() <= pool.live
      ensures ValuesOf(nodes) == if full then old(ValuesOf(nodes)) else Added(old(ValuesOf(nodes)), a.end, a.x)
      ensures forall k :: 0 <= k < |nodes| ==> nodes[k] in old(nodes) || fresh(nodes[k])
    {
      hide Valid, Chained, Blocks, ValuesOf;
      ghost var was := nodes;
      var ok;
      if a.end.Head? {
        ok := AddHead(pool, a.x, full);
      } else {
        ok := AddTail(pool, a.x, full);
      }
      if ok {
        AddedValues(was, a.end, if a.end.Head? then head else tail);
      }
    }

    lemma NothingStored(adds: seq<Add<int>>, full: seq<bool>)
      requires nodes == [] && |full| == |adds|
      ensures ValuesOf(nodes) == Stored(Granted(adds[..0], full[..0]))
    {
    }

    lemma HoldsTheDeque(adds: seq<Add<int>>)
      requires Valid() && ValuesOf(nodes) == Stored(adds)
      ensures |adds| <= 0x1_0000_0000 ==> ValuesOf(nodes) == Deque(adds)
      ensures |adds| < 0x1_0000_0000 ==> len == |adds|
    {
      hide Stored, Deque, Chained, ValuesOf;
      StoredSize(adds);
      StoredIsDequeIff(adds);
      if 0 < |adds| < 0x1_0000_0000 {
        Below(|adds| - 1);
        Below(|adds|);
      }
    }

    /** A run of adds on an empty list, some of which may find the pool full: the list then holds what Stored
        says of the others. That is a double-ended queue of them, up to 2^32, and below that the length is
        their number. */
    method AddAll(pool: MemPool, adds: seq<Add<int>>, full: seq<bool>)
      requires Valid() && Blocks() <= pool.live && nodes == [] && |full| == |adds|
      modifies this`head, this`tail, this`len, this`nodes, pool`live
      ensures Valid() && Blocks() <= pool.live
      ensures ValuesOf(nodes) == Stored(Granted(adds, full))
      ensures |Granted(adds, full)| <= 0x1_0000_0000 ==> ValuesOf(nodes) == Deque(Granted(adds, full))
      ensures |Granted(adds, full)| < 0x1_0000_0000 ==> len == |Granted(adds, full)|
    {
      hide *;
      var i := 0;
      NothingStored(adds, full);
      while i < |adds|
        invariant 0 <= i <= |adds|
        invariant Valid() && Blocks() <= pool.live && forall k :: 0 <= k < |nodes| ==> fresh(nodes[k])
        invariant ValuesOf(nodes) == Stored(Granted(adds[..i], full[..i]))
      {
        GrantedNext(adds, full, i);
        StoredNext(Granted(adds[..i], full[..i]), adds[i]);
        AddOne(pool, adds[i], full[i]);
        i := i + 1;
      }
      assert adds[..i] == adds && full[..i] == full;
      HoldsTheDeque(Granted(adds, full));
    }

    ghost function Mine(): set<MpListNode>
      reads this
    {
      set n | n in nodes
    }

    /** Following next from any position meets the rest of the chain, then NULL. */
    lemma {:induction false} WalkOn(i: nat, k: nat)
      requires Chained() && i <= |nodes| <= i + k
      ensures Walk(At(nodes, i), true, k, Mine()) == nodes[i..]
      decreases k
    {
      if i < |nodes| {
        WalkOn(i + 1, k - 1);
        assert nodes[i].next == At(nodes, i + 1);
      }
    }

    /** Following prev from any position meets what stands before it, last first, then NULL. */
    lemma {:induction false} WalkBack(i: nat, k: nat)
      requires Chained() && i <= |nodes| && i <= k
      ensures Walk(At(nodes, i - 1), false, k, Mine()) == Reversed(nodes[..i])
      decreases k
    {
      if i > 0 {
        WalkBack(i - 1, k - 1);
        assert nodes[i - 1].prev == At(nodes, i - 2);
        assert nodes[..i][..i - 1] == nodes[..i - 1];
      }
    }

    /** From the two ends, both ways round. */
    lemma Traversals(k: nat)
      requires Chained() && |nodes| <= k
      ensures Walk(head, true, k, Mine()) == nodes
      ensures Walk(tail, false, k, Mine()) == Reversed(nodes)
    {
      WalkOn(0, k);
      WalkBack(|nodes|, k);
      assert nodes[..|nodes|] == nodes;
    }

    lemma NoneKept(live: set<object>)
      requires Valid() && Blocks() <= live && len <= |nodes|
      ensures live - BlocksOf(nodes[..len]) - {this} == live - Blocks() <==> BlocksOf(nodes[..len]) == BlocksOf(nodes)
    {
      var some, all := BlocksOf(nodes[..len]), BlocksOf(nodes);
      assert some <= all && all <= live && this !in all;
      if live - some - {this} == live - Blocks() {
        assert forall x :: x in all ==> x in live && x !in live - Blocks();
        assert all <= some;
      }
    }

    lemma TeardownStart(pool: MemPool)
      requires Valid() && Blocks() <= pool.live
      ensures Chained() && len <= |nodes| && head == At(nodes, 0)
      ensures Teardown(nodes[..0], free) == [] && BlocksOf(nodes[..0]) == {}
      ensures this in pool.live && this !in BlocksOf(nodes) && BlocksOf(nodes) <= pool.live
    {
      LenFits(|nodes|);
    }

    /** One round of the teardown. */
    lemma TeardownStep(k: nat)
      requires Chained() && k < |nodes|
      ensures At(nodes, k) == nodes[k] && nodes[k].next == At(nodes, k + 1)
      ensures Teardown(nodes[..k + 1], free) == Teardown(nodes[..k], free) + Round(nodes[k], free)
      ensures BlocksOf(nodes[..k + 1]) == BlocksOf(nodes[..k]) + {nodes[k]}
      ensures nodes[k] in BlocksOf(nodes) && nodes[k] !in BlocksOf(nodes[..k])
          && BlocksOf(nodes[..k + 1]) <= BlocksOf(nodes)
    {
      assert nodes[..k + 1][..k] == nodes[..k];
    }

    /** Lines 33-37: the next pointer is saved before the node goes. */
    method DestroyNode(pool: MemPool, current: MpListNode) returns (next: MpListNode?)
      requires current in pool.live
      modifies pool`live, pool`log
      ensures next == current.next
      ensures pool.log == old(pool.log) + Round(current, free) && pool.live == old(pool.live) - {current}
    {
      next := pool.Next(current);
      if free {
        pool.Destroy(current);
      }
      pool.Free(current);
    }

    /** At 2^32 nodes the wrapped length is zero, and only the header would go. */
    lemma LengthReachesAll()
      requires Valid()
      ensures len <= |nodes| && (BlocksOf(nodes[..len]) == BlocksOf(nodes) <==> |nodes| < 0x1_0000_0000)
    {
      LenFits(|nodes|);
      if |nodes| < LEN_LIMIT {
        assert nodes[..len] == nodes;
      } else {
        assert nodes[0] in BlocksOf(nodes);
      }
    }

    /** mplist_destroy: each value goes to the destructor, if there is one, just before its node is freed; the
        header is freed last. */
    method Destroy(pool: MemPool)
      requires Valid() && Blocks() <= pool.live
      modifies pool`live, pool`log
      ensures old(pool.log) <= pool.log && len <= |nodes|
      ensures var events := pool.log[|old(pool.log)|..];
        && |events| == (if free then 2 * len else len) + 1 && events[|events| - 1] == Freed(this)
        && (free ==> forall i :: 0 <= i < len ==>
              events[2 * i] == Destroyed(nodes[i].value) && events[2 * i + 1] == Freed(nodes[i]))
        && (!free ==> forall i :: 0 <= i < len ==> events[i] == Freed(nodes[i]))
      ensures pool.live == old(pool.live) - BlocksOf(nodes[..len]) - {this}
      ensures pool.live == old(pool.live) - Blocks() <==> |nodes| < 0x1_0000_0000
    {
      hide Valid, Chained, At, Teardown, BlocksOf, Blocks, Round;
      LengthReachesAll();
      NoneKept(pool.live);
      TeardownStart(pool);
      var current := head;
      var left := len;
      ghost var k := 0;
      ghost var live, log := pool.live, pool.log;
      while left > 0
        invariant k + left == len && current == At(nodes, k)
        invariant pool.log == log + Teardown(nodes[..k], free)
        invariant pool.live == live - BlocksOf(nodes[..k]) && BlocksOf(nodes[..k]) <= BlocksOf(nodes)
      {
        left := left - 1;
        TeardownStep(k);
        Regroup(log, Teardown(nodes[..k], free), Round(current, free));
        DropMore(live, BlocksOf(nodes[..k]), current);
        current := DestroyNode(pool, current);
        k := k + 1;
      }
      pool.Free(this);
      TeardownIs(nodes[..len], free);
      assert pool.log[|log|..] == Teardown(nodes[..len], free) + [Freed(this)];
    }
  }

  ghost function Round(n: MpListNode, free: bool): seq<Event>
    reads n`value
  {
    (if free then [Destroyed(n.value)] else []) + [Freed(n)]
  }

  /** Every value destroyed (when a destructor is set) just before its node is freed, in list order. */
  ghost function Teardown(s: seq<MpListNode>, free: bool): seq<Event>
    reads s
  {
    if s == [] then [] else Teardown(s[..|s| - 1], free) + Round(s[|s| - 1], free)
  }

  lemma {:induction false} TeardownIs(s: seq<MpListNode>, free: bool)
    ensures var events := Teardown(s, free);
      && |events| == (if free then 2 * |s| else |s|)
      && (free ==> forall i :: 0 <= i < |s| ==>
            events[2 * i] == Destroyed(s[i].value) && events[2 * i + 1] == Freed(s[i]))
      && (!free ==> forall i :: 0 <= i < |s| ==> events[i] == Freed(s[i]))
  {
    if s != [] {
      TeardownIs(s[..|s| - 1], free);
    }
  }

  lemma Regroup<T>(a: seq<T>, b: seq<T>, c: seq<T>)
    ensures a + (b + c) == a + b + c
  {
  }

  lemma DropMore<T>(s: set<T>, a: set<T>, x: T)
    ensures s - (a + {x}) == s - a - {x}
  {
  }

  lemma LenFits(n: nat)
    ensures n % LEN_LIMIT <= n
  {
  }
}
