/** Whole runs of insertions and deletions: what can be found afterwards. */
module RbHistory {
  import opened Options
  import opened Records
  import opened RbOrder
  import opened RbMemory
  import opened RbDescent
  import opened RbDelete
  import opened RbSearch

  /** A call of rbtree_insert or rbtree_delete as seen from outside, with the record its node had when it
      was made, and the in-order sequence and the records it left. */
  datatype Call =
    | Insertion(n: RbNode, rec: Record, k: nat, displaced: Option<seq<byte>>, xs: seq<RbNode>, lab: Labels)
    | Deletion(n: RbNode, rec: Record, k: nat, xs: seq<RbNode>, lab: Labels)

  ghost function XsAfter(calls: seq<Call>): seq<RbNode> {
    if calls == [] then [] else calls[|calls| - 1].xs
  }

  ghost function LabAfter(calls: seq<Call>): Labels {
    if calls == [] then map[] else calls[|calls| - 1].lab
  }

  /** One call on a tree with in-order sequence `xs`; see RbTree.Insert and RbTree.Delete. */
  ghost predicate CallStep(o: Policy, xs: seq<RbNode>, lab: Labels, c: Call) {
    match c
    case Insertion(n, rec, k, displaced, now, lab') =>
      Comparable(o, rec) && n !in lab && InsertStep(o, xs, lab, n, rec, k, displaced, now, lab')
    case Deletion(n, rec, k, now, lab') =>
      && Without(xs, k, now) && xs[k] == n && n !in now && n in lab && lab[n] == rec && lab' == lab - {n}
  }

  /** The calls form a run that starts from the empty tree. */
  ghost predicate TreeRun(o: Policy, calls: seq<Call>) {
    calls == [] ||
    var was, c := calls[..|calls| - 1], calls[|calls| - 1];
    TreeRun(o, was) && CallStep(o, XsAfter(was), LabAfter(was), c)
  }

  ghost predicate InsertsOnly(calls: seq<Call>) {
    forall c :: c in calls ==> c.Insertion?
  }

  lemma RunExtends(o: Policy, calls: seq<Call>, c: Call)
    requires TreeRun(o, calls) && CallStep(o, XsAfter(calls), LabAfter(calls), c)
    ensures TreeRun(o, calls + [c]) && XsAfter(calls + [c]) == c.xs && LabAfter(calls + [c]) == c.lab
  {
    assert (calls + [c])[..|calls|] == calls;
  }

  lemma CallKeepsOrder(o: Policy, xs: seq<RbNode>, lab: Labels, c: Call)
    requires CallStep(o, xs, lab, c) && Ordered(o, xs, lab)
    ensures Ordered(o, c.xs, c.lab)
  {
    if c.Insertion? {
      StepKeepsOrder(o, xs, lab, c.n, c.rec, c.k, c.displaced, c.xs, c.lab);
    } else {
      RestLabelled(o, xs, lab, c);
      WithoutKeepsOrder(o, xs, lab, c.k, c.xs, c.lab);
    }
  }

  lemma RestLabelled(o: Policy, xs: seq<RbNode>, lab: Labels, c: Call)
    requires CallStep(o, xs, lab, c) && c.Deletion? && Ordered(o, xs, lab)
    ensures forall x :: x in c.xs ==> x in lab && x in c.lab && c.lab[x] == lab[x]
  {
    hide Sorted, Comparable, RecordsOf;
    forall x | x in c.xs ensures x in lab {
      var i :| 0 <= i < |c.xs| && c.xs[i] == x;
      assert xs[if i < c.k then i else i + 1] == x;
    }
  }

  lemma {:induction false} RunIsOrdered(o: Policy, calls: seq<Call>)
    requires TreeRun(o, calls)
    ensures Ordered(o, XsAfter(calls), LabAfter(calls))
  {
    if calls != [] {
      var was, c := calls[..|calls| - 1], calls[|calls| - 1];
      RunIsOrdered(o, was);
      CallKeepsOrder(o, XsAfter(was), LabAfter(was), c);
    }
  }

  // ---------- insertions only ----------

  lemma NothingMissing(o: Policy, probe: Record)
    ensures Missing(o, probe, [], map[])
  {
  }

  ghost predicate NeverInserted(o: Policy, calls: seq<Call>, probe: Record) {
    forall c :: c in calls ==> !Hits(o, c.rec, probe)
  }

  /** The search for `probe` would stop at a node with this record. */
  predicate Hits(o: Policy, rec: Record, probe: Record) {
    Comparable(o, rec) && Comparable(o, probe) && Matches(o, rec, probe)
  }

  /** After any run of insertions a search fails exactly for records that were never inserted. */
  lemma {:induction false} RoundTrip(o: Policy, calls: seq<Call>, probe: Record)
    requires TreeRun(o, calls) && InsertsOnly(calls) && Comparable(o, probe)
    ensures Missing(o, probe, XsAfter(calls), LabAfter(calls)) <==> NeverInserted(o, calls, probe)
  {
    hide Ordered, Missing, InsertStep, Comparable, Matches;
    if calls == [] {
      NothingMissing(o, probe);
    } else {
      var was, c := calls[..|calls| - 1], calls[|calls| - 1];
      assert c in calls && forall d :: d in calls <==> d in was || d == c;
      RoundTrip(o, was, probe);
      RunIsOrdered(o, was);
      StepAddsOne(o, XsAfter(was), LabAfter(was), c.n, c.rec, c.k, c.displaced, c.xs, c.lab, probe);
    }
  }

  // ---------- insertions and deletions ----------

  /** How many nodes the search for `probe` could stop at. */
  ghost function Findable(o: Policy, probe: Record, xs: seq<RbNode>, lab: Labels): nat {
    if xs == [] then 0
    else
      var k := |xs| - 1;
      Findable(o, probe, xs[..k], lab) + if xs[k] in lab && Hits(o, lab[xs[k]], probe) then 1 else 0
  }

  /** How many matching records were put in and not taken out again. */
  ghost function Balance(o: Policy, calls: seq<Call>, probe: Record): int {
    if calls == [] then 0
    else
      var c := calls[|calls| - 1];
      Balance(o, calls[..|calls| - 1], probe) +
      if !Hits(o, c.rec, probe) then 0 else if c.Deletion? then -1 else if c.displaced.None? then 1 else 0
  }

  lemma {:induction false} FindableJoin(o: Policy, probe: Record, xs: seq<RbNode>, ys: seq<RbNode>, lab: Labels)
    ensures Findable(o, probe, xs + ys, lab) == Findable(o, probe, xs, lab) + Findable(o, probe, ys, lab)
  {
    hide Hits;
    if ys == [] {
      assert xs + ys == xs;
    } else {
      var k := |ys| - 1;
      FindableJoin(o, probe, xs, ys[..k], lab);
      assert (xs + ys)[..|xs| + k] == xs + ys[..k];
    }
  }

  lemma {:induction false} FindableSame(o: Policy, probe: Record, xs: seq<RbNode>, lab: Labels, lab': Labels)
    requires forall x :: x in xs ==> x in lab && x in lab' && Hits(o, lab[x], probe) == Hits(o, lab'[x], probe)
    ensures Findable(o, probe, xs, lab) == Findable(o, probe, xs, lab')
  {
    hide Hits;
    if xs != [] {
      assert xs[|xs| - 1] in xs && forall x :: x in xs[..|xs| - 1] ==> x in xs;
      FindableSame(o, probe, xs[..|xs| - 1], lab, lab');
    }
  }

  lemma FindableOne(o: Policy, probe: Record, x: RbNode, lab: Labels)
    requires x in lab
    ensures Findable(o, probe, [x], lab) == if Hits(o, lab[x], probe) then 1 else 0
  {
    assert [x][..0] == [];
  }

  lemma FindableSplice(o: Policy, probe: Record, xs: seq<RbNode>, k: nat, n: RbNode, lab: Labels)
    requires k <= |xs| && n in lab
    ensures Findable(o, probe, xs[..k] + [n] + xs[k..], lab)
         == Findable(o, probe, xs, lab) + if Hits(o, lab[n], probe) then 1 else 0
  {
    hide Hits, Findable;
    FindableJoin(o, probe, xs[..k] + [n], xs[k..], lab);
    FindableJoin(o, probe, xs[..k], [n], lab);
    FindableJoin(o, probe, xs[..k], xs[k..], lab);
    FindableOne(o, probe, n, lab);
    assert xs == xs[..k] + xs[k..];
  }

  lemma FindableIsNotMissing(o: Policy, probe: Record, xs: seq<RbNode>, lab: Labels)
    requires Ordered(o, xs, lab) && Comparable(o, probe)
    ensures Findable(o, probe, xs, lab) == 0 <==> Missing(o, probe, xs, lab)
  {
    AllComparable(o, xs, lab);
    FindableIsNone(o, probe, xs, lab);
  }

  lemma AllComparable(o: Policy, xs: seq<RbNode>, lab: Labels)
    requires Ordered(o, xs, lab)
    ensures forall x :: x in xs ==> x in lab && Comparable(o, lab[x])
  {
    forall x | x in xs ensures x in lab && Comparable(o, lab[x]) {
      var i :| 0 <= i < |xs| && xs[i] == x;
      assert RecordsOf(xs, lab)[i] == lab[x];
    }
  }

  lemma {:induction false} FindableIsNone(o: Policy, probe: Record, xs: seq<RbNode>, lab: Labels)
    requires Comparable(o, probe) && forall x :: x in xs ==> x in lab && Comparable(o, lab[x])
    ensures Findable(o, probe, xs, lab) == 0 <==> Missing(o, probe, xs, lab)
  {
    if xs != [] {
      var k := |xs| - 1;
      assert xs == xs[..k] + [xs[k]];
      FindableIsNone(o, probe, xs[..k], lab);
      MissingJoin(o, probe, xs[..k], [xs[k]], lab);
      assert xs[k] in [xs[k]] && (Missing(o, probe, [xs[k]], lab) <==> Misses(o, probe, xs[k], lab));
    }
  }

  lemma DeletionCounts(o: Policy, xs: seq<RbNode>, lab: Labels, c: Call, probe: Record)
    requires CallStep(o, xs, lab, c) && c.Deletion? && Ordered(o, xs, lab)
    ensures Findable(o, probe, c.xs, c.lab) == Findable(o, probe, xs, lab) - if Hits(o, c.rec, probe) then 1 else 0
  {
    RestLabelled(o, xs, lab, c);
    assert xs == c.xs[..c.k] + [c.n] + c.xs[c.k..];
    hide Ordered, Findable, Hits, Without;
    FindableSame(o, probe, c.xs, lab, c.lab);
    FindableSplice(o, probe, c.xs, c.k, c.n, lab);
  }

  lemma InsertionCounts(o: Policy, xs: seq<RbNode>, lab: Labels, c: Call, probe: Record)
    requires CallStep(o, xs, lab, c) && c.Insertion? && Ordered(o, xs, lab)
    ensures Findable(o, probe, c.xs, c.lab) == Findable(o, probe, xs, lab) +
              if c.displaced.None? && Hits(o, c.rec, probe) then 1 else 0
  {
    AllComparable(o, xs, lab);
    assert forall x :: x in xs ==> x in c.lab && Hits(o, lab[x], probe) == Hits(o, c.lab[x], probe);
    hide Ordered, Findable, Hits, AllTurn;
    FindableSame(o, probe, xs, lab, c.lab);
    if c.displaced.None? {
      FindableSplice(o, probe, xs, c.k, c.n, c.lab);
    }
  }

  /** After any run of insertions and deletions, exactly as many nodes match a record as matching ones were
      inserted and not deleted; so a search fails exactly when none is left. */
  lemma {:induction false} CountsBalance(o: Policy, calls: seq<Call>, probe: Record)
    requires TreeRun(o, calls) && Comparable(o, probe)
    ensures Findable(o, probe, XsAfter(calls), LabAfter(calls)) == Balance(o, calls, probe)
    ensures Missing(o, probe, XsAfter(calls), LabAfter(calls)) <==> Balance(o, calls, probe) == 0
  {
    hide Ordered, Missing, CallStep, Comparable, Hits;
    RunIsOrdered(o, calls);
    if calls != [] {
      var was, c := calls[..|calls| - 1], calls[|calls| - 1];
      CountsBalance(o, was, probe);
      RunIsOrdered(o, was);
      if c.Deletion? {
        DeletionCounts(o, XsAfter(was), LabAfter(was), c, probe);
      } else {
        InsertionCounts(o, XsAfter(was), LabAfter(was), c, probe);
      }
    }
    FindableIsNotMissing(o, probe, XsAfter(calls), LabAfter(calls));
  }

  // ---------- the key-value tree as a map ----------

  /** The record most recently inserted under `key`, unless it has been deleted since. */
  ghost function Latest(calls: seq<Call>, key: nat): Option<Record> {
    if calls == [] then None
    else
      var c := calls[|calls| - 1];
      if c.rec.key != key then Latest(calls[..|calls| - 1], key)
      else if c.Insertion? then Some(c.rec)
      else None
  }

  /** Every node carries the latest record of its key, and the other keys have no node. */
  ghost predicate IsLatest(calls: seq<Call>, xs: seq<RbNode>, lab: Labels) {
    && (forall x :: x in xs ==> x in lab && Latest(calls, lab[x].key) == Some(lab[x]))
    && (forall key :: Latest(calls, key).Some? ==> HasKey(xs, lab, key))
  }

  ghost predicate HasKey(xs: seq<RbNode>, lab: Labels, key: nat) {
    exists x :: x in xs && x in lab && lab[x].key == key
  }

  /** Which nodes a call leaves, and that no other node has its key. */
  lemma OthersDiffer(xs: seq<RbNode>, lab: Labels, c: Call)
    requires CallStep(KeyValue, xs, lab, c) && Ordered(KeyValue, xs, lab)
    ensures forall x :: x in xs ==>
      x in lab && (lab[x].key != c.rec.key || (c.Deletion? && x == c.n)
          || (c.Insertion? && c.displaced.Some? && x == xs[c.k]))
    ensures c.Insertion? ==> forall x :: x in c.xs <==> x in xs || (c.displaced.None? && x == c.n)
    ensures c.Deletion? ==> forall x :: x in c.xs <==> x in xs && x != c.n
  {
    if c.Insertion? && c.displaced.None? {
      assert xs == xs[..c.k] + xs[c.k..];
    } else {
      KeysDiffer(xs, lab, c.k);
      if c.Deletion? {
        assert xs == c.xs[..c.k] + [c.n] + c.xs[c.k..];
        assert c.xs == c.xs[..c.k] + c.xs[c.k..];
      }
    }
  }

  lemma HasKeyStep(xs: seq<RbNode>, lab: Labels, c: Call, key: nat)
    requires CallStep(KeyValue, xs, lab, c) && Ordered(KeyValue, xs, lab)
    requires if key == c.rec.key then c.Insertion? else HasKey(xs, lab, key)
    ensures HasKey(c.xs, c.lab, key)
  {
    OthersDiffer(xs, lab, c);
    if key == c.rec.key {
      var x := if c.displaced.None? then c.n else xs[c.k];
      assert x in c.xs && c.lab[x].key == key;
    } else {
      var x :| x in xs && x in lab && lab[x].key == key;
      assert x in c.xs && c.lab[x] == lab[x];
    }
  }

  lemma NoneLatest(calls: seq<Call>)
    requires calls == []
    ensures IsLatest(calls, [], map[])
  {
  }

  lemma LatestAppend(was: seq<Call>, c: Call, key: nat)
    ensures Latest(was + [c], key) ==
      if c.rec.key != key then Latest(was, key) else if c.Insertion? then Some(c.rec) else None
  {
    assert (was + [c])[..|was|] == was;
  }

  lemma LatestOfNodes(xs: seq<RbNode>, lab: Labels, was: seq<Call>, c: Call)
    requires CallStep(KeyValue, xs, lab, c) && Ordered(KeyValue, xs, lab) && IsLatest(was, xs, lab)
    ensures forall x :: x in c.xs ==> x in c.lab && Latest(was + [c], c.lab[x].key) == Some(c.lab[x])
  {
    OthersDiffer(xs, lab, c);
    hide Ordered, Spliced, Latest, HasKey;
    forall x | x in c.xs ensures x in c.lab && Latest(was + [c], c.lab[x].key) == Some(c.lab[x]) {
      LatestAppend(was, c, c.lab[x].key);
    }
  }

  lemma KeysOfLatest(xs: seq<RbNode>, lab: Labels, was: seq<Call>, c: Call)
    requires CallStep(KeyValue, xs, lab, c) && Ordered(KeyValue, xs, lab) && IsLatest(was, xs, lab)
    ensures forall key :: Latest(was + [c], key).Some? ==> HasKey(c.xs, c.lab, key)
  {
    hide Ordered, CallStep, Latest, HasKey;
    forall key | Latest(was + [c], key).Some? ensures HasKey(c.xs, c.lab, key) {
      LatestAppend(was, c, key);
      HasKeyStep(xs, lab, c, key);
    }
  }

  lemma LatestStep(xs: seq<RbNode>, lab: Labels, was: seq<Call>, c: Call)
    requires CallStep(KeyValue, xs, lab, c) && Ordered(KeyValue, xs, lab) && IsLatest(was, xs, lab)
    ensures IsLatest(was + [c], c.xs, c.lab)
  {
    LatestOfNodes(xs, lab, was, c);
    KeysOfLatest(xs, lab, was, c);
    hide CallStep, Ordered, Latest, HasKey;
  }

  lemma LatestReturned(xs: seq<RbNode>, lab: Labels, was: seq<Call>, c: Call)
    requires CallStep(KeyValue, xs, lab, c) && c.Insertion? && Ordered(KeyValue, xs, lab) && IsLatest(was, xs, lab)
    ensures c.displaced == (match Latest(was, c.rec.key) case None => None case Some(r) => Some(r.data))
  {
    OthersDiffer(xs, lab, c);
    assert c.displaced.None? ==> !HasKey(xs, lab, c.rec.key);
  }

  /** Under KeyValue the tree is a map: each key holds its last write unless that was deleted, and each
      insertion returns exactly the data it displaced. */
  lemma {:induction false} LastWriteWins(calls: seq<Call>)
    requires TreeRun(KeyValue, calls)
    ensures IsLatest(calls, XsAfter(calls), LabAfter(calls))
    ensures calls != [] && calls[|calls| - 1].Insertion? ==> var was, c := calls[..|calls| - 1], calls[|calls| - 1];
      c.displaced == (match Latest(was, c.rec.key) case None => None case Some(r) => Some(r.data))
  {
    hide Ordered, CallStep, IsLatest;
    if calls == [] {
      NoneLatest(calls);
    } else {
      var was, c := calls[..|calls| - 1], calls[|calls| - 1];
      var xs, lab := XsAfter(was), LabAfter(was);
      LastWriteWins(was);
      RunIsOrdered(KeyValue, was);
      assert calls == was + [c];
      LatestStep(xs, lab, was, c);
      if c.Insertion? {
        LatestReturned(xs, lab, was, c);
      }
    }
  }
}
