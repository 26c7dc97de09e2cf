/** Runs of rbtree_insert and rbtree_delete on the heap, and what the lookups return after them. */
module RbRuns {
  import opened Options
  import opened Records
  import opened RbShape
  import opened RbOrder
  import opened RbMemory
  import opened RbDescent
  import opened RbDelete
  import opened RbSearch
  import opened RbHistory
  import opened RbTeardown
  import T = RbTree

  /** The tree is what the run `calls` leaves behind. */
  ghost predicate LeftBy(t: T.RbTree, calls: seq<Call>)
    reads t, Nodes(t.shape)`key, Nodes(t.shape)`len, Nodes(t.shape)`data
  {
    && TreeRun(t.policy, calls)
    && XsAfter(calls) == Inorder(t.shape) && LabAfter(calls) == LabelsOf(Nodes(t.shape))
  }

  /** Every tree starts with rbtree_init, after no calls at all. */
  method Start(s: RbNode, o: Policy) returns (t: T.RbTree)
    modifies s`color
    ensures fresh(t) && t.Valid() && t.shape == Leaf && t.sentinel == s && t.policy == o && LeftBy(t, [])
  {
    t := new T.RbTree(s, o);
  }

  /** rbtree_insert continues any run. */
  method Insert(t: T.RbTree, node: RbNode, leftover: Option<seq<byte>>, ghost calls: seq<Call>)
    returns (ret: Option<seq<byte>>, ghost c: Call)
    requires t.Insertable() && LeftBy(t, calls)
    requires node !in Nodes(t.shape) && node != t.sentinel && Comparable(t.policy, node.Rec())
    modifies t`root, t`shape
    modifies node`left, node`right, node`parent, node`color
    modifies Nodes(t.shape)`left, Nodes(t.shape)`right, Nodes(t.shape)`parent, Nodes(t.shape)`color
    modifies Nodes(t.shape)`len, Nodes(t.shape)`data
    ensures c.Insertion? && c.n == node && c.rec == node.Rec() && (c.displaced.Some? ==> t.policy.KeyValue?)
    ensures t.Insertable() && LeftBy(t, calls + [c])
    ensures old(t.Valid()) && (t.policy.KeyValue? || ret.None?) ==> t.Valid()
    ensures ret == if t.policy.KeyValue? then c.displaced else if old(t.shape.Leaf?) then None else leftover
    ensures Nodes(t.shape) == old(Nodes(t.shape)) + (if c.displaced.None? then {node} else {})
    ensures t.shape.Node? && t.root.parent == old(if t.shape.Leaf? then null else t.root.parent)
  {
    hide *;
    ghost var rec, was, lab := node.Rec(), Inorder(t.shape), LabelsOf(Nodes(t.shape));
    T.LabelsAdd(Nodes(t.shape), node);
    LeftByMeans(t, calls);
    ValidIsRedBlack(t);
    ghost var displaced, k;
    ret, displaced, k := t.Insert(node, leftover);
    c := Insertion(node, rec, k, displaced, Inorder(t.shape), LabelsOf(Nodes(t.shape)));
    InsertionIsStep(t.policy, was, lab, c);
    NotEmpty(t.shape);
    Continues(t, calls, c);
  }

  lemma ValidIsRedBlack(t: T.RbTree)
    ensures t.Valid() ==> RedBlack(t.shape)
  {
  }

  lemma InsertionIsStep(o: Policy, xs: seq<RbNode>, lab: Labels, c: Call)
    requires c.Insertion? && Comparable(o, c.rec) && c.n !in lab
    requires InsertStep(o, xs, lab, c.n, c.rec, c.k, c.displaced, c.xs, c.lab)
    ensures CallStep(o, xs, lab, c) && c.xs != [] && (c.displaced.Some? ==> o.KeyValue?)
  {
  }

  lemma NotEmpty(t: Tree<RbNode>)
    ensures Inorder(t) != [] ==> t.Node?
  {
  }

  /** rbtree_delete continues any run. */
  method Delete(t: T.RbTree, node: RbNode, ghost calls: seq<Call>) returns (ghost c: Call)
    requires t.Valid() && LeftBy(t, calls) && node in Nodes(t.shape)
    modifies t`root, t`shape, t.sentinel`parent, t.sentinel`color, node`key
    modifies Nodes(t.shape)`left, Nodes(t.shape)`right, Nodes(t.shape)`parent, Nodes(t.shape)`color
    ensures c.Deletion? && c.n == node && c.rec == old(node.Rec())
    ensures t.Valid() && LeftBy(t, calls + [c]) && Nodes(t.shape) == old(Nodes(t.shape)) - {node}
  {
    hide Nodes, Inorder, LabelsOf, Without, TreeRun, CallStep, XsAfter, LabAfter, LeftBy, T.RbTree.Valid;
    ghost var rec, ns := node.Rec(), Nodes(t.shape);
    ghost var was, lab, rest := Inorder(t.shape), LabelsOf(ns), LabelsOf(ns - {node});
    LabelsMinus(ns, node);
    LeftByMeans(t, calls);
    ghost var k := t.Delete(node);
    NodesAreInorder(t.shape);
    c := Deletion(node, rec, k, Inorder(t.shape), rest);
    Deleted(t.policy, was, lab, c);
    Continues(t, calls, c);
  }

  lemma LeftByMeans(t: T.RbTree, calls: seq<Call>)
    requires LeftBy(t, calls)
    ensures TreeRun(t.policy, calls)
    ensures XsAfter(calls) == Inorder(t.shape) && LabAfter(calls) == LabelsOf(Nodes(t.shape))
  {
  }

  lemma Continues(t: T.RbTree, calls: seq<Call>, c: Call)
    requires TreeRun(t.policy, calls) && CallStep(t.policy, XsAfter(calls), LabAfter(calls), c)
    requires c.xs == Inorder(t.shape) && c.lab == LabelsOf(Nodes(t.shape))
    ensures LeftBy(t, calls + [c])
  {
    RunExtends(t.policy, calls, c);
  }

  lemma Deleted(o: Policy, xs: seq<RbNode>, lab: Labels, c: Call)
    requires c.Deletion? && Without(xs, c.k, c.xs) && xs[c.k] == c.n && c.n !in c.xs
    requires c.n in lab && lab[c.n] == c.rec && c.lab == lab - {c.n}
    ensures CallStep(o, xs, lab, c)
  {
  }

  /** str_unit_rbtree_lookup after any run of insertions and deletions. */
  method Lookup(t: T.RbTree, val: Record, hash: nat, ghost calls: seq<Call>) returns (found: RbNode?)
    requires t.Searchable() && LeftBy(t, calls) && t.policy.StrUnits? && val.Readable()
    ensures found == null <==> Balance(StrUnits, calls, Record(hash, val.len, val.data)) == 0
    ensures InsertsOnly(calls) ==> (found == null <==> NeverInserted(StrUnits, calls, Record(hash, val.len, val.data)))
    ensures found != null ==> found.Rec().Readable() && Same(found.Rec(), Record(hash, val.len, val.data))
  {
    ghost var probe := Record(hash, val.len, val.data);
    CountsBalance(StrUnits, calls, probe);
    if InsertsOnly(calls) {
      RoundTrip(StrUnits, calls, probe);
    }
    found := t.Lookup(val, hash);
  }

  /** key_value_get after any run of insertions and deletions. */
  method Get(t: T.RbTree, key: nat, ghost calls: seq<Call>) returns (found: RbNode?)
    requires t.Searchable() && LeftBy(t, calls) && t.policy.KeyValue?
    ensures found == null <==> Latest(calls, key) == None
    ensures found != null ==> Latest(calls, key) == Some(found.Rec())
  {
    hide *;
    ghost var ns := Nodes(t.shape);
    ghost var lab := LabelsOf(ns);
    TreeHoldsLatest(t, calls);
    found := t.Get(key);
    assert LabelsOf(ns) == lab;
    if found != null {
      T.LabelsAdd(ns, found);
    }
  }

  lemma TreeHoldsLatest(t: T.RbTree, calls: seq<Call>)
    requires LeftBy(t, calls) && t.policy.KeyValue?
    ensures var lab := LabelsOf(Nodes(t.shape));
      && (forall n :: n in Nodes(t.shape) ==> n in lab && Latest(calls, n.key) == Some(lab[n]))
      && (forall key :: Latest(calls, key).Some? ==> exists n :: n in Nodes(t.shape) && n.key == key)
  {
    LastWriteWins(calls);
    LatestIsHeld(calls, t.shape);
  }

  /** `calls` are the insertions of the first `i` nodes, with these records. */
  ghost predicate Inserted(nodes: seq<RbNode>, recs: seq<Record>, i: nat, calls: seq<Call>) {
    && |recs| == |nodes| && |calls| == i <= |nodes| && InsertsOnly(calls)
    && forall j :: 0 <= j < i ==> calls[j].n == nodes[j] && calls[j].rec == recs[j]
  }

  lemma InsertedNext(nodes: seq<RbNode>, recs: seq<Record>, i: nat, calls: seq<Call>, c: Call)
    requires Inserted(nodes, recs, i, calls) && i < |nodes| && c.Insertion? && c.n == nodes[i] && c.rec == recs[i]
    ensures Inserted(nodes, recs, i + 1, calls + [c])
  {
  }

  /** The other nodes still have their records and are not in the tree; without duplicate keys to overwrite,
      all the earlier ones are. */
  ghost predicate Waiting(t: T.RbTree, nodes: seq<RbNode>, recs: seq<Record>, i: nat)
    reads t`shape, t`policy, nodes`key, nodes`len, nodes`data
  {
    && |recs| == |nodes| && i <= |nodes|
    && (forall j :: i <= j < |nodes| ==> nodes[j].Rec() == recs[j] && nodes[j] !in Nodes(t.shape))
    && (forall n :: n in Nodes(t.shape) ==> n in nodes)
    && (!t.policy.KeyValue? ==> forall j :: 0 <= j < i ==> nodes[j] in Nodes(t.shape))
  }

  /** The loop returns early from no insertion: what the callbacks leave behind is NULL, or is not tested. */
  predicate NothingLeft(o: Policy, leftovers: seq<Option<seq<byte>>>) {
    o.KeyValue? || forall i :: 0 <= i < |leftovers| ==> leftovers[i] == None
  }

  method InsertNext(t: T.RbTree, nodes: seq<RbNode>, i: nat, leftover: Option<seq<byte>>,
                    ghost recs: seq<Record>, ghost calls: seq<Call>)
    returns (ghost c: Call)
    requires t.Insertable() && LeftBy(t, calls) && i < |nodes| && Waiting(t, nodes, recs, i)
    requires forall j, k :: 0 <= j < k < |nodes| ==> nodes[j] != nodes[k]
    requires nodes[i] != t.sentinel && Comparable(t.policy, nodes[i].Rec())
    modifies t`root, t`shape, nodes
    ensures t.Insertable() && LeftBy(t, calls + [c]) && Waiting(t, nodes, recs, i + 1)
    ensures old(t.Valid()) && (t.policy.KeyValue? || leftover.None?) ==> t.Valid()
    ensures c.Insertion? && c.n == nodes[i] && c.rec == recs[i]
    ensures t.shape.Node? && t.root.parent == old(if t.shape.Leaf? then null else t.root.parent)
  {
    hide LeftBy, Nodes, LabelsOf, Comparable, T.RbTree.Valid, T.RbTree.Insertable;
    var ret;
    ret, c := Insert(t, nodes[i], leftover, calls);
  }

  lemma InsertableIsSearchable(t: T.RbTree)
    requires t.Insertable()
    ensures t.Searchable()
  {
  }

  /** A run of insertions into a new tree, as in the main function of test/test_rbtree.c; `leftovers` are what
      the calls find after the callbacks that return nothing. */
  method InsertAll(s: RbNode, o: Policy, nodes: seq<RbNode>, leftovers: seq<Option<seq<byte>>>, ghost recs: seq<Record>)
    returns (t: T.RbTree, ghost calls: seq<Call>)
    requires |recs| == |nodes| && forall i :: 0 <= i < |nodes| ==>
      nodes[i] != s && nodes[i].Rec() == recs[i] && Comparable(o, recs[i])
    requires |leftovers| == |nodes| && forall i, j :: 0 <= i < j < |nodes| ==> nodes[i] != nodes[j]
    modifies s`color, nodes
    ensures fresh(t) && t.Insertable() && t.policy == o && t.sentinel == s
    ensures LeftBy(t, calls) && Inserted(nodes, recs, |nodes|, calls)
    ensures NothingLeft(o, leftovers) ==> t.Valid()
    ensures if nodes == [] then t.shape == Leaf else t.shape.Node? && t.root.parent == null
    ensures Waiting(t, nodes, recs, |nodes|)
  {
    hide *;
    t := Start(s, o);
    calls := [];
    NoneInserted(t, nodes, recs);
    for i := 0 to |nodes|
      invariant fresh(t) && t.Insertable() && t.policy == o && t.sentinel == s && LeftBy(t, calls)
      invariant NothingLeft(o, leftovers) ==> t.Valid()
      invariant if i == 0 then t.shape == Leaf else t.shape.Node? && t.root.parent == null
      invariant Inserted(nodes, recs, i, calls) && Waiting(t, nodes, recs, i)
    {
      WaitingHas(t, nodes, recs, i);
      NoneLeft(o, leftovers, i);
      ghost var c := InsertNext(t, nodes, i, leftovers[i], recs, calls);
      InsertedNext(nodes, recs, i, calls, c);
      calls := calls + [c];
    }
  }

  lemma NoneLeft(o: Policy, leftovers: seq<Option<seq<byte>>>, i: nat)
    requires i < |leftovers|
    ensures NothingLeft(o, leftovers) ==> o.KeyValue? || leftovers[i] == None
  {
  }

  lemma NoneInserted(t: T.RbTree, nodes: seq<RbNode>, recs: seq<Record>)
    requires t.Valid() && t.shape == Leaf && |recs| == |nodes|
    requires forall i :: 0 <= i < |nodes| ==> nodes[i].Rec() == recs[i]
    ensures t.Insertable() && Waiting(t, nodes, recs, 0) && Inserted(nodes, recs, 0, [])
  {
  }

  lemma WaitingHas(t: T.RbTree, nodes: seq<RbNode>, recs: seq<Record>, i: nat)
    requires Waiting(t, nodes, recs, i) && i < |nodes|
    ensures nodes[i].Rec() == recs[i]
  {
  }

  /** Insertions and then rbtree_destroy: no parent pointer is stale, so the walk stops with the tree, after
      each node that was put into it and no other. */
  method InsertAllThenDestroy(s: RbNode, o: Policy, nodes: seq<RbNode>, leftovers: seq<Option<seq<byte>>>,
                              ghost recs: seq<Record>)
    returns (freed: seq<RbNode>, ending: T.Ending)
    requires |recs| == |nodes| && forall i :: 0 <= i < |nodes| ==>
      nodes[i] != s && nodes[i].Rec() == recs[i] && Comparable(o, recs[i])
    requires |leftovers| == |nodes| && forall i, j :: 0 <= i < j < |nodes| ==> nodes[i] != nodes[j]
    requires nodes != []
    modifies s`color, nodes
    ensures ending == T.Stopped
    ensures forall i, j :: 0 <= i < j < |freed| ==> freed[i] != freed[j]
    ensures forall n :: n in freed ==> n in nodes
    ensures !o.KeyValue? ==> forall i :: 0 <= i < |nodes| ==> nodes[i] in freed
  {
    var t;
    ghost var calls;
    hide *;
    t, calls := InsertAll(s, o, nodes, leftovers, recs);
    AllAreFreed(t, nodes, recs);
    freed, ending := t.Destroy();
  }

  lemma AllAreFreed(t: T.RbTree, nodes: seq<RbNode>, recs: seq<Record>)
    requires t.Insertable() && Waiting(t, nodes, recs, |nodes|) && t.shape.Node? && t.root.parent == null
    ensures t.Searchable() && t.EndingOf() == T.Stopped && t.Above(t.root) == {}
    ensures forall n :: n in Nodes(t.shape) ==> n in nodes
    ensures var freed := Postorder(t.shape);
      && (forall i, j :: 0 <= i < j < |freed| ==> freed[i] != freed[j])
      && (forall n :: n in freed ==> n in nodes)
      && (!t.policy.KeyValue? ==> forall i :: 0 <= i < |nodes| ==> nodes[i] in freed)
  {
    T.PostorderNodes(t.shape);
    PostorderOnce(t.shape);
  }

  lemma {:induction false} PostorderOnce(t: Tree<RbNode>)
    requires Sep(t)
    ensures forall i, j :: 0 <= i < j < |Postorder(t)| ==> Postorder(t)[i] != Postorder(t)[j]
  {
    if t.Node? {
      PostorderOnce(t.left);
      PostorderOnce(t.right);
      T.PostorderNodes(t.left);
      T.PostorderNodes(t.right);
      OnceJoins(Postorder(t.left), Postorder(t.right), t.item);
    }
  }

  lemma OnceJoins(l: seq<RbNode>, r: seq<RbNode>, x: RbNode)
    requires forall i, j :: 0 <= i < j < |l| ==> l[i] != l[j]
    requires forall i, j :: 0 <= i < j < |r| ==> r[i] != r[j]
    requires x !in l && x !in r && forall n :: n in l ==> n !in r
    ensures var s := l + r + [x]; forall i, j :: 0 <= i < j < |s| ==> s[i] != s[j]
  {
    var s := l + r + [x];
    forall i, j | 0 <= i < j < |s| ensures s[i] != s[j] {
      assert i < |l| ==> s[i] in l;
      assert |l| <= i < |s| - 1 ==> s[i] == r[i - |l|] && s[i] in r;
      assert |l| <= j < |s| - 1 ==> s[j] == r[j - |l|] && s[j] in r;
    }
  }

  // ---------- the minimum ----------

  /** No record must come before that of `m`. */
  ghost predicate IsSmallest(o: Policy, lab: Labels, m: RbNode) {
    m in lab && forall n :: n in lab ==> Comparable(o, lab[n]) && Comparable(o, lab[m]) && !Precedes(o, lab[n], lab[m])
  }

  /** rbtree_min on the whole tree: the first node in order, which nothing in the tree must precede. */
  method Smallest(t: T.RbTree) returns (min: RbNode)
    requires t.Searchable() && t.shape.Node?
    ensures Inorder(t.shape) != [] && min == Inorder(t.shape)[0] && min in Nodes(t.shape)
    ensures IsSmallest(t.policy, LabelsOf(Nodes(t.shape)), min)
    ensures !t.policy.Timers? ==> forall n :: n in Nodes(t.shape) ==> min.key <= n.key
    ensures old(t.Insertable()) ==> t.Insertable()
  {
    ghost var ns := Nodes(t.shape);
    ghost var m, lab := Snap(ns), LabelsOf(ns);
    T.WholeRegion(t.shape, t.root);
    FirstIsSmallest(t.policy, t.shape);
    hide Holds, Nodes, Inorder, LabelsOf, Snap, Ordered, IsSmallest;
    ghost var r;
    min, r := T.Min(t.root, t.sentinel, T.Whole(t.shape, t.root), ns);
    assert LabelsOf(ns) == lab && Snap(ns) == m;
    SmallestHasLeastKey(t.policy, ns, min);
  }

  lemma SmallestHasLeastKey(o: Policy, ns: set<RbNode>, min: RbNode)
    requires IsSmallest(o, LabelsOf(ns), min)
    ensures !o.Timers? ==> forall n :: n in ns ==> min.key <= n.key
  {
    T.LabelsAdd(ns, min);
    forall n | n in ns && !o.Timers? ensures min.key <= n.key {
      T.LabelsAdd(ns, n);
    }
  }

  lemma FirstIsSmallest(o: Policy, t: Tree<RbNode>)
    requires Ordered(o, Inorder(t), LabelsOf(Nodes(t))) && t.Node?
    ensures Inorder(t) != [] && Inorder(t)[0] in Nodes(t)
    ensures IsSmallest(o, LabelsOf(Nodes(t)), Inorder(t)[0])
  {
    var xs, lab := Inorder(t), LabelsOf(Nodes(t));
    NodesAreInorder(t);
    assert t.item in Nodes(t);
    AllComparable(o, xs, lab);
    NotBeforeItself(o, lab[xs[0]]);
    hide Precedes, Comparable;
    forall n | n in lab
      ensures Comparable(o, lab[n]) && Comparable(o, lab[xs[0]]) && !Precedes(o, lab[n], lab[xs[0]])
    {
      var i :| 0 <= i < |xs| && xs[i] == n;
      assert RecordsOf(xs, lab)[i] == lab[n] && RecordsOf(xs, lab)[0] == lab[xs[0]];
    }
  }

  lemma NotBeforeItself(o: Policy, r: Record)
    requires Comparable(o, r)
    ensures !Precedes(o, r, r)
  {
    if o.StrUnits? {
      LessIsStrictTotal(r, r, r);
    }
  }

  /** The old minimum, unless the callback passes it on the left. */
  ghost function FirstAfter(o: Policy, xs: seq<RbNode>, lab: Labels, n: RbNode, rec: Record): RbNode {
    if xs == [] then n
    else if xs[0] in lab && Comparable(o, rec) && Comparable(o, lab[xs[0]])
        && InsertTurn(o, rec, lab[xs[0]]) == Left then n
    else xs[0]
  }

  /** Which node an insertion puts first: the new one exactly when the callback passes the old minimum on the
      left, and otherwise the old minimum. */
  method InsertFindsFirst(t: T.RbTree, node: RbNode, leftover: Option<seq<byte>>)
    requires t.Insertable() && node !in Nodes(t.shape) && node != t.sentinel && Comparable(t.policy, node.Rec())
    modifies t`root, t`shape
    modifies node`left, node`right, node`parent, node`color
    modifies Nodes(t.shape)`left, Nodes(t.shape)`right, Nodes(t.shape)`parent, Nodes(t.shape)`color
    modifies Nodes(t.shape)`len, Nodes(t.shape)`data
    ensures t.Insertable() && t.shape.Node? && Inorder(t.shape) != []
    ensures Inorder(t.shape)[0] ==
      FirstAfter(t.policy, old(Inorder(t.shape)), old(LabelsOf(Nodes(t.shape))), node, node.Rec())
  {
    ghost var xs, lab := Inorder(t.shape), LabelsOf(Nodes(t.shape));
    InsertableIsSearchable(t);
    SearchableIsOrdered(t);
    hide *;
    var ret;
    ghost var displaced, k;
    ret, displaced, k := t.Insert(node, leftover);
    MinAfterStep(t.policy, xs, lab, node, node.Rec(), k, displaced, Inorder(t.shape), LabelsOf(Nodes(t.shape)));
    InsertableIsSearchable(t);
    SearchableIsOrdered(t);
  }

  /** An insertion and then the walk to the minimum, as in test/test_rbtree.c. */
  method InsertThenMin(t: T.RbTree, node: RbNode, leftover: Option<seq<byte>>) returns (min: RbNode)
    requires t.Insertable() && node !in Nodes(t.shape) && node != t.sentinel && Comparable(t.policy, node.Rec())
    modifies t`root, t`shape
    modifies node`left, node`right, node`parent, node`color
    modifies Nodes(t.shape)`left, Nodes(t.shape)`right, Nodes(t.shape)`parent, Nodes(t.shape)`color
    modifies Nodes(t.shape)`len, Nodes(t.shape)`data
    ensures t.Insertable() && min in Nodes(t.shape)
    ensures !t.policy.Timers? ==> forall n :: n in Nodes(t.shape) ==> min.key <= n.key
    ensures min == FirstAfter(t.policy, old(Inorder(t.shape)), old(LabelsOf(Nodes(t.shape))), node, node.Rec())
    ensures IsSmallest(t.policy, LabelsOf(Nodes(t.shape)), min)
  {
    hide *;
    InsertFindsFirst(t, node, leftover);
    InsertableIsSearchable(t);
    min := Smallest(t);
  }

  lemma SearchableIsOrdered(t: T.RbTree)
    requires t.Searchable()
    ensures Ordered(t.policy, Inorder(t.shape), LabelsOf(Nodes(t.shape)))
    ensures t.shape.Leaf? <==> Inorder(t.shape) == []
  {
  }

  lemma MinAfterStep(o: Policy, xs: seq<RbNode>, lab: Labels, n: RbNode, rec: Record, k: nat,
                     displaced: Option<seq<byte>>, now: seq<RbNode>, lab': Labels)
    requires Ordered(o, xs, lab) && InsertStep(o, xs, lab, n, rec, k, displaced, now, lab') && Comparable(o, rec)
    ensures now != [] && now[0] == FirstAfter(o, xs, lab, n, rec)
  {
    if xs != [] && displaced.None? {
      MinAfterInsert(o, xs, lab, n, rec, k, now);
    } else if xs != [] {
      AllComparable(o, xs, lab);
      assert RecordsOf(xs, lab)[0] == lab[xs[0]] && RecordsOf(xs, lab)[k] == lab[xs[k]];
    }
  }

  /** The key-value tree holds the latest record of every key, and no other. */
  lemma LatestIsHeld(calls: seq<Call>, t: Tree<RbNode>)
    requires IsLatest(calls, Inorder(t), LabelsOf(Nodes(t)))
    ensures forall n :: n in Nodes(t) ==> Latest(calls, n.key) == Some(n.Rec())
    ensures forall key :: Latest(calls, key).Some? ==> exists n :: n in Nodes(t) && n.key == key
  {
    hide Latest;
    var lab := LabelsOf(Nodes(t));
    NodesAreInorder(t);
    forall n | n in Nodes(t) ensures Latest(calls, n.key) == Some(n.Rec()) {
      assert n in Inorder(t) && lab[n] == n.Rec();
    }
    forall key | Latest(calls, key).Some? ensures exists n :: n in Nodes(t) && n.key == key {
      assert HasKey(Inorder(t), lab, key);
      var x :| x in Inorder(t) && x in lab && lab[x].key == key;
      assert x in Nodes(t) && x.key == key;
    }
  }

  lemma LabelsMinus(ns: set<RbNode>, n: RbNode)
    requires n in ns
    ensures LabelsOf(ns - {n}) == LabelsOf(ns) - {n} && n in LabelsOf(ns) && LabelsOf(ns)[n] == n.Rec()
  {
  }

  // ---------- a parent pointer that outlives its node ----------

  lemma RootIsIn(t: T.RbTree)
    requires t.Searchable() && Nodes(t.shape) != {}
    ensures t.shape.Node? && t.root in Nodes(t.shape) && t.root != t.sentinel && Sep(t.shape)
  {
  }

  lemma OneNode(t: Tree<RbNode>, n: RbNode)
    requires Sep(t) && Nodes(t) == {n}
    ensures t.Node? && t.left.Leaf? && t.right.Leaf? && Postorder(t) == [n]
  {
    assert t.item in Nodes(t) && Nodes(t.left) <= Nodes(t) && Nodes(t.right) <= Nodes(t);
  }

  lemma TwoNodes(t: Tree<RbNode>, a: RbNode, b: RbNode)
    requires Sep(t) && Nodes(t) == {a, b} && a != b
    ensures t.Node? && (t.left.Leaf? || t.right.Leaf?)
    ensures |Postorder(t)| == 2 && a in Postorder(t) && b in Postorder(t)
  {
    var other := if t.item == a then b else a;
    assert t.left.Node? ==> t.left.item in Nodes(t) && t.left.item == other;
    assert t.right.Node? ==> t.right.item in Nodes(t) && t.right.item == other;
    var k := if t.left.Leaf? then t.right else t.left;
    assert Nodes(k) == {other};
    OneNode(k, other);
  }

  method TwoInserted(s: RbNode, a: RbNode, b: RbNode) returns (t: T.RbTree)
    requires s != a && s != b && a != b
    modifies s`color, a, b
    ensures fresh(t) && t.Valid() && t.policy == KeysOnly && t.sentinel == s && Nodes(t.shape) == {a, b}
  {
    t := new T.RbTree(s, KeysOnly);
    assert Nodes(t.shape) == {};
    hide Nodes, Inorder, LabelsOf, Snap;
    var ret;
    ghost var displaced, k;
    ret, displaced, k := t.Insert(a, None);
    ret, displaced, k := t.Insert(b, None);
  }

  /** Two insertions and the deletion of the root: a valid tree whose root names a node outside it. */
  method DeleteRoot(s: RbNode, a: RbNode, b: RbNode) returns (t: T.RbTree, x: RbNode)
    requires s != a && s != b && a != b
    modifies s`color, s`parent, a, b
    ensures fresh(t) && t.Valid() && t.policy == KeysOnly && t.sentinel == s && t.shape.Node?
    ensures x in {a, b} && Nodes(t.shape) == {a, b} - {x}
    ensures t.root.parent == x && x.left == null && x.right == null
  {
    hide Nodes, Inorder, Without;
    t := TwoInserted(s, a, b);
    RootIsIn(t);
    TwoNodes(t.shape, a, b);
    x := t.root;
    ghost var k := t.Delete(x);
    assert (if x == a then b else a) in Nodes(t.shape);
    RootIsIn(t);
  }

  /** rbtree_destroy still frees exactly that tree, because the deletion cleared the node's child pointers. */
  method DestroyAfterDelete(s: RbNode, a: RbNode, b: RbNode) returns (freed: seq<RbNode>, ending: T.Ending)
    requires s != a && s != b && a != b
    modifies s`color, s`parent, a, b
    ensures freed == [a] || freed == [b]
    ensures ending == T.Stopped
  {
    var t, x := DeleteRoot(s, a, b);
    RootIsIn(t);
    OneNode(t.shape, if x == a then b else a);
    freed, ending := t.Destroy();
  }

  /** Put the deleted node back, and rbtree_destroy frees both nodes and then goes on with one of them. */
  method DestroyAfterReinsert(s: RbNode, a: RbNode, b: RbNode) returns (freed: seq<RbNode>, ending: T.Ending)
    requires s != a && s != b && a != b
    modifies s`color, s`parent, a, b
    ensures |freed| == 2 && a in freed && b in freed
    ensures ending.Reuses? && ending.n in freed
  {
    hide Nodes, Inorder, LabelsOf, Snap, InsertStep, Postorder;
    var t, x := DeleteRoot(s, a, b);
    var ret;
    ghost var displaced, k;
    ret, displaced, k := t.Insert(x, None);
    RootIsIn(t);
    TwoNodes(t.shape, a, b);
    freed, ending := t.Destroy();
  }
}
