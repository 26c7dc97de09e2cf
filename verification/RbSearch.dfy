/** What the lookups find, and what insertions do to what they find. */
module RbSearch {
  import opened Options
  import opened Records
  import opened RbShape
  import opened RbOrder
  import opened RbMemory
  import opened RbDescent
  import opened RbDelete

  /** `x` is not a node the lookup is after. */
  ghost predicate Misses(o: Policy, probe: Record, x: RbNode, lab: Labels) {
    x in lab && Comparable(o, probe) && Comparable(o, lab[x]) && !Matches(o, lab[x], probe)
  }

  /** A linear search of `xs` would find nothing. */
  ghost predicate Missing(o: Policy, probe: Record, xs: seq<RbNode>, lab: Labels) {
    forall x :: x in xs ==> Misses(o, probe, x, lab)
  }

  /** Neither side of the hole holds what the lookup is after. */
  ghost predicate MissedAround(o: Policy, probe: Record, p: Path<RbNode>, lab: Labels) {
    Missing(o, probe, Before(p), lab) && Missing(o, probe, After(p), lab)
  }

  lemma MissesBefore(o: Policy, probe: Record, a: seq<RbNode>, l: seq<RbNode>, x: RbNode, c: seq<RbNode>, lab: Labels)
    requires Ordered(o, a + l + [x] + c, lab) && Comparable(o, probe) && !o.Timers?
    ensures x in lab && Comparable(o, lab[x])
    ensures SearchTurn(o, lab[x], probe) == Right ==> Missing(o, probe, l + [x], lab)
  {
    var all, k := a + l + [x] + c, |a| + |l|;
    assert all[k] == x;
    if SearchTurn(o, lab[x], probe) == Right {
      SearchTurnsAgree(o, lab[x], probe);
      forall i | 0 <= i < |l|
        ensures Misses(o, probe, l[i], lab)
      {
        assert all[|a| + i] == l[i];
        assert RecordsOf(all, lab)[|a| + i] == lab[l[i]] && RecordsOf(all, lab)[k] == lab[x];
        TurnsRuleOut(o, lab[l[i]], lab[x], probe);
      }
    }
  }

  lemma MissesAfter(o: Policy, probe: Record, a: seq<RbNode>, x: RbNode, r: seq<RbNode>, c: seq<RbNode>, lab: Labels)
    requires Ordered(o, a + [x] + r + c, lab) && Comparable(o, probe) && !o.Timers?
    ensures x in lab && Comparable(o, lab[x])
    ensures SearchTurn(o, lab[x], probe) == Left ==> Missing(o, probe, [x] + r, lab)
  {
    var all, k := a + [x] + r + c, |a|;
    assert all[k] == x;
    if SearchTurn(o, lab[x], probe) == Left {
      SearchTurnsAgree(o, lab[x], probe);
      forall i | 0 <= i < |r|
        ensures Misses(o, probe, r[i], lab)
      {
        assert all[k + 1 + i] == r[i];
        assert RecordsOf(all, lab)[k + 1 + i] == lab[r[i]] && RecordsOf(all, lab)[k] == lab[x];
        TurnsRuleOut(o, lab[x], lab[r[i]], probe);
      }
    }
  }

  lemma MissingJoin(o: Policy, probe: Record, xs: seq<RbNode>, ys: seq<RbNode>, lab: Labels)
    ensures Missing(o, probe, xs + ys, lab) <==> Missing(o, probe, xs, lab) && Missing(o, probe, ys, lab)
  {
    assert forall x :: x in xs + ys <==> x in xs || x in ys;
  }

  /** One turn of a lookup: the side it turns away from, and the node itself, hold nothing it is after. */
  lemma SearchOn(o: Policy, probe: Record, t: Tree<RbNode>, p: Path<RbNode>, lab: Labels)
    requires t.Node? && Comparable(o, probe) && !o.Timers?
    requires MissedAround(o, probe, p, lab) && Ordered(o, Inorder(Plug(t, p)), lab)
    ensures t.item in lab && Comparable(o, lab[t.item])
    ensures SearchTurn(o, lab[t.item], probe) == Right ==> MissedAround(o, probe, Below(t, p, false), lab)
    ensures SearchTurn(o, lab[t.item], probe) == Left ==> MissedAround(o, probe, Below(t, p, true), lab)
    ensures SearchTurn(o, lab[t.item], probe) == Here ==> Matches(o, lab[t.item], probe)
  {
    hide Ordered, Missing, Comparable;
    var b, l, x, r, c := Before(p), Inorder(t.left), t.item, Inorder(t.right), After(p);
    PlugInorder(t, p);
    assert Inorder(Plug(t, p)) == b + l + [x] + (r + c) == (b + l) + [x] + r + c;
    MissesBefore(o, probe, b, l, x, r + c, lab);
    MissesAfter(o, probe, b + l, x, r, c, lab);
    SearchTurnsAgree(o, lab[x], probe);
    MissingJoin(o, probe, b, l + [x], lab);
    MissingJoin(o, probe, [x] + r, c, lab);
    assert Before(Below(t, p, false)) == b + (l + [x]);
    assert After(Below(t, p, true)) == [x] + r + c;
  }

  /** The lookup stops at a node it is after, so a linear search would have stopped too. */
  lemma FoundHere(o: Policy, probe: Record, t: Tree<RbNode>, p: Path<RbNode>, lab: Labels)
    requires t.Node? && t.item in lab && Comparable(o, probe) && Comparable(o, lab[t.item])
        && Matches(o, lab[t.item], probe)
    ensures !Missing(o, probe, Inorder(Plug(t, p)), lab)
  {
    ItemAt(t, p, Plug(t, p));
    assert t.item in Inorder(Plug(t, p)) && !Misses(o, probe, t.item, lab);
  }

  /** The descent has run into the sentinel: the lookup's answer is no, and rightly so. */
  lemma NowhereLeft(o: Policy, probe: Record, p: Path<RbNode>, lab: Labels)
    requires MissedAround(o, probe, p, lab)
    ensures Missing(o, probe, Inorder(Plug(Leaf, p)), lab)
  {
    PlugInorder(Leaf, p);
    MissingJoin(o, probe, Before(p), After(p), lab);
    assert Before(p) + Inorder<RbNode>(Leaf) + After(p) == Before(p) + After(p);
  }

  // ---------- one insertion ----------

  /** One rbtree_insert, in terms of the in-order sequence and the fields of its nodes; see RbTree.Insert. */
  ghost predicate InsertStep(
    o: Policy, xs: seq<RbNode>, lab: Labels, n: RbNode, rec: Record, k: nat, ret: Option<seq<byte>>,
    xs': seq<RbNode>, lab': Labels)
  {
    if ret.None? then Spliced(o, xs, lab, n, rec, k, xs') && lab' == lab[n := rec]
    else
      && o.KeyValue? && xs' == xs && k < |xs| && xs[k] in lab && lab[xs[k]].key == rec.key
      && ret == Some(lab[xs[k]].data) && lab' == lab[xs[k] := rec]
  }

  lemma SplicedStep(o: Policy, xs: seq<RbNode>, lab: Labels, n: RbNode, rec: Record, k: nat, now: seq<RbNode>)
    requires Spliced(o, xs, lab, n, rec, k, now)
    ensures InsertStep(o, xs, lab, n, rec, k, None, now, lab[n := rec])
  {
  }

  lemma OverwriteStep(o: Policy, xs: seq<RbNode>, lab: Labels, n: RbNode, rec: Record, k: nat)
    requires Ordered(o, xs, lab) && o.KeyValue? && k < |xs| && xs[k] in lab && lab[xs[k]].key == rec.key
    ensures InsertStep(o, xs, lab, n, rec, k, Some(lab[xs[k]].data), xs, lab[xs[k] := rec])
    ensures Ordered(o, xs, lab[xs[k] := rec])
  {
    OverwriteKeepsOrder(o, xs, lab, xs[k], rec);
  }

  lemma StepKeepsOrder(
    o: Policy, xs: seq<RbNode>, lab: Labels, n: RbNode, rec: Record, k: nat, ret: Option<seq<byte>>,
    xs': seq<RbNode>, lab': Labels)
    requires InsertStep(o, xs, lab, n, rec, k, ret, xs', lab') && n !in lab && Comparable(o, rec) && Ordered(o, xs, lab)
    ensures Ordered(o, xs', lab')
  {
    if ret.None? {
      assert xs == xs[..k] + xs[k..];
      ExtendsKeeps(o, rec, xs, lab, lab', Left);
      ExtendsKeeps(o, rec, xs[..k], lab, lab', Right);
      ExtendsKeeps(o, rec, xs[k..], lab, lab', Left);
      SpliceAt(o, xs[..k], n, xs[k..], lab');
    } else {
      OverwriteKeepsOrder(o, xs, lab, xs[k], rec);
    }
  }

  /** An insertion adds its own record to what can be found, and takes nothing away. */
  lemma StepAddsOne(
    o: Policy, xs: seq<RbNode>, lab: Labels, n: RbNode, rec: Record, k: nat, ret: Option<seq<byte>>,
    xs': seq<RbNode>, lab': Labels, probe: Record)
    requires InsertStep(o, xs, lab, n, rec, k, ret, xs', lab') && n !in lab && Comparable(o, rec) && Ordered(o, xs, lab)
    requires Comparable(o, probe)
    ensures Missing(o, probe, xs', lab') <==> Missing(o, probe, xs, lab) && !Matches(o, rec, probe)
  {
    if ret.None? {
      MissingKept(o, probe, xs, lab, n, rec);
      MissingSplice(o, probe, xs, k, n, lab');
    } else {
      OverwriteMisses(o, xs, lab, xs[k], rec, probe);
    }
  }

  lemma MissingSplice(o: Policy, probe: Record, xs: seq<RbNode>, k: nat, n: RbNode, lab: Labels)
    requires k <= |xs|
    ensures Missing(o, probe, xs[..k] + [n] + xs[k..], lab) <==> Missing(o, probe, xs, lab) && Misses(o, probe, n, lab)
  {
    hide Misses;
    var xs' := xs[..k] + [n] + xs[k..];
    assert xs == xs[..k] + xs[k..];
    assert forall x :: x in xs' <==> x in xs || x == n;
  }

  lemma MissingKept(o: Policy, probe: Record, xs: seq<RbNode>, lab: Labels, n: RbNode, rec: Record)
    requires Labelled(xs, lab) && n !in lab
    ensures Missing(o, probe, xs, lab) <==> Missing(o, probe, xs, lab[n := rec])
  {
    forall x | x in xs ensures Misses(o, probe, x, lab) <==> Misses(o, probe, x, lab[n := rec]) {
    }
  }

  lemma OverwriteMisses(o: Policy, xs: seq<RbNode>, lab: Labels, x: RbNode, rec: Record, probe: Record)
    requires Labelled(xs, lab) && x in xs && o.KeyValue? && lab[x].key == rec.key
    ensures Missing(o, probe, xs, lab) <==> Missing(o, probe, xs, lab[x := rec])
    ensures Missing(o, probe, xs, lab) ==> !Matches(o, rec, probe)
  {
    forall y | y in xs ensures Misses(o, probe, y, lab) <==> Misses(o, probe, y, lab[x := rec]) {
    }
  }

  // ---------- deletion ----------

  /** What a deletion makes unfindable is the deleted node, and nothing else. */
  lemma DeleteTakesOne(o: Policy, xs: seq<RbNode>, lab: Labels, k: nat, now: seq<RbNode>, lab': Labels, probe: Record)
    requires Without(xs, k, now) && Comparable(o, probe)
    requires forall x :: x in now ==> x in lab && x in lab' && lab'[x] == lab[x]
    ensures Missing(o, probe, xs, lab) <==> Missing(o, probe, now, lab') && Misses(o, probe, xs[k], lab)
  {
    MissingSplice(o, probe, now, k, xs[k], lab);
    assert xs == now[..k] + [xs[k]] + now[k..];
    forall x | x in now ensures Misses(o, probe, x, lab) <==> Misses(o, probe, x, lab') {
    }
  }

  /** Keys are unique under KeyValue, so after the deletion of a node a search for its key fails. */
  lemma DeletedKeyIsGone(xs: seq<RbNode>, lab: Labels, k: nat, now: seq<RbNode>, lab': Labels)
    requires Ordered(KeyValue, xs, lab) && Without(xs, k, now)
    requires forall x :: x in now ==> x in lab && x in lab' && lab'[x] == lab[x]
    ensures xs[k] in lab && Missing(KeyValue, lab[xs[k]], now, lab')
  {
    KeysDiffer(xs, lab, k);
    hide Ordered;
    forall x | x in now ensures Misses(KeyValue, lab[xs[k]], x, lab') {
      var i :| 0 <= i < |now| && now[i] == x;
      assert xs[if i < k then i else i + 1] == x;
    }
  }

  lemma KeysDiffer(xs: seq<RbNode>, lab: Labels, k: nat)
    requires Ordered(KeyValue, xs, lab) && k < |xs|
    ensures Labelled(xs, lab) && forall j :: 0 <= j < |xs| && j != k ==> lab[xs[j]].key != lab[xs[k]].key
  {
    var rs := RecordsOf(xs, lab);
    forall j | 0 <= j < |xs| && j != k ensures lab[xs[j]].key != lab[xs[k]].key {
      assert rs[j] == lab[xs[j]] && rs[k] == lab[xs[k]];
    }
  }

  /** Deleting the node just inserted brings the in-order sequence back. */
  lemma DeleteUndoesInsert(
    o: Policy, xs: seq<RbNode>, lab: Labels, n: RbNode, rec: Record, k: nat, between: seq<RbNode>, j: nat,
    now: seq<RbNode>)
    requires Spliced(o, xs, lab, n, rec, k, between) && n !in xs
    requires Without(between, j, now) && between[j] == n
    ensures j == k && now == xs
  {
    assert forall i :: 0 <= i < |between| && i != k ==> between[i] == xs[if i < k then i else i - 1];
    assert between[k + 1..] == xs[k..];
  }

  // ---------- the minimum ----------

  /** rbtree_min after an insertion: the new node exactly when the callback passes the old minimum on the left. */
  lemma MinAfterInsert(o: Policy, xs: seq<RbNode>, lab: Labels, n: RbNode, rec: Record, k: nat, xs': seq<RbNode>)
    requires Ordered(o, xs, lab) && Spliced(o, xs, lab, n, rec, k, xs') && xs != []
    ensures Comparable(o, lab[xs[0]]) && Comparable(o, rec)
    ensures xs'[0] == if InsertTurn(o, rec, lab[xs[0]]) == Left then n else xs[0]
    ensures o.StrUnits? ==> (xs'[0] == n <==> n == xs[0] || !Less(lab[xs[0]], rec))
  {
    assert RecordsOf(xs, lab)[0] == lab[xs[0]];
    if k == 0 {
      assert xs[k..][0] == xs[0];
    } else {
      assert xs[..k][0] == xs[0];
    }
    SplicePlace(o, rec, lab[xs[0]]);
  }
}