/** Why a descent that compares one node at a time finds the right place in the whole in-order sequence. */
module RbDescent {
  import opened Records
  import opened RbOrder
  import opened RbShape
  import opened RbMemory
  import opened RbDelete

  /** The fields the callbacks compare. */
  type Labels = map<RbNode, Record>

  ghost function LabelsOf(ns: set<RbNode>): Labels
    reads ns`key, ns`len, ns`data
  {
    if ns == {} then map[] else map n | n in ns :: n.Rec()
  }

  ghost predicate Labelled(xs: seq<RbNode>, lab: Labels) {
    forall i :: 0 <= i < |xs| ==> xs[i] in lab
  }

  ghost function RecordsOf(xs: seq<RbNode>, lab: Labels): (rs: seq<Record>)
    requires Labelled(xs, lab)
    ensures |rs| == |xs| && forall i :: 0 <= i < |xs| ==> rs[i] == lab[xs[i]]
  {
    if xs == [] then [] else [lab[xs[0]]] + RecordsOf(xs[1..], lab)
  }

  ghost predicate Ordered(o: Policy, xs: seq<RbNode>, lab: Labels) {
    Labelled(xs, lab) && Sorted(o, RecordsOf(xs, lab))
  }

  /** The callback turns `turn` at every node of `xs`. */
  ghost predicate AllTurn(o: Policy, n: Record, xs: seq<RbNode>, lab: Labels, turn: Turn) {
    forall i :: 0 <= i < |xs| ==>
      xs[i] in lab && Comparable(o, n) && Comparable(o, lab[xs[i]]) && InsertTurn(o, n, lab[xs[i]]) == turn
  }

  /** The callback went right at every node before the hole and left at every node after it. */
  ghost predicate Passed(o: Policy, n: Record, p: Path<RbNode>, lab: Labels) {
    AllTurn(o, n, Before(p), lab, Right) && AllTurn(o, n, After(p), lab, Left)
  }

  lemma TurnsBefore(o: Policy, n: Record, a: seq<RbNode>, l: seq<RbNode>, x: RbNode, c: seq<RbNode>, lab: Labels)
    requires Ordered(o, a + l + [x] + c, lab) && Comparable(o, n)
    ensures x in lab && Comparable(o, lab[x])
    ensures InsertTurn(o, n, lab[x]) == Right ==> AllTurn(o, n, l + [x], lab, Right)
  {
    var all, k := a + l + [x] + c, |a| + |l|;
    assert all[k] == x;
    if InsertTurn(o, n, lab[x]) == Right {
      forall i | 0 <= i < |l|
        ensures l[i] in lab && Comparable(o, lab[l[i]]) && InsertTurn(o, n, lab[l[i]]) == Right
      {
        assert all[|a| + i] == l[i];
        assert RecordsOf(all, lab)[|a| + i] == lab[l[i]] && RecordsOf(all, lab)[k] == lab[x];
        TurnsAreMonotone(o, n, lab[l[i]], lab[x]);
      }
    }
  }

  lemma TurnsAfter(o: Policy, n: Record, a: seq<RbNode>, x: RbNode, r: seq<RbNode>, c: seq<RbNode>, lab: Labels)
    requires Ordered(o, a + [x] + r + c, lab) && Comparable(o, n)
    ensures x in lab && Comparable(o, lab[x])
    ensures InsertTurn(o, n, lab[x]) == Left ==> AllTurn(o, n, [x] + r, lab, Left)
  {
    var all, k := a + [x] + r + c, |a|;
    assert all[k] == x;
    if InsertTurn(o, n, lab[x]) == Left {
      forall i | 0 <= i < |r|
        ensures r[i] in lab && Comparable(o, lab[r[i]]) && InsertTurn(o, n, lab[r[i]]) == Left
      {
        assert all[k + 1 + i] == r[i];
        assert RecordsOf(all, lab)[k + 1 + i] == lab[r[i]] && RecordsOf(all, lab)[k] == lab[x];
        TurnsAreMonotone(o, n, lab[x], lab[r[i]]);
      }
    }
  }

  lemma AllTurnJoin(o: Policy, n: Record, xs: seq<RbNode>, ys: seq<RbNode>, lab: Labels, turn: Turn)
    requires AllTurn(o, n, xs, lab, turn) && AllTurn(o, n, ys, lab, turn)
    ensures AllTurn(o, n, xs + ys, lab, turn)
  {
  }

  /** One more turn of the descent: the other subtree, and the node, are passed too. */
  lemma PassOn(o: Policy, n: Record, t: Tree<RbNode>, p: Path<RbNode>, lab: Labels)
    requires t.Node? && Comparable(o, n) && Passed(o, n, p, lab) && Ordered(o, Inorder(Plug(t, p)), lab)
    ensures t.item in lab && Comparable(o, lab[t.item])
    ensures InsertTurn(o, n, lab[t.item]) == Right ==> Passed(o, n, Below(t, p, false), lab)
    ensures InsertTurn(o, n, lab[t.item]) == Left ==> Passed(o, n, Below(t, p, true), lab)
  {
    hide Ordered, AllTurn, Comparable;
    var b, l, x, r, c := Before(p), Inorder(t.left), t.item, Inorder(t.right), After(p);
    PlugInorder(t, p);
    assert Inorder(Plug(t, p)) == b + l + [x] + (r + c) == (b + l) + [x] + r + c;
    TurnsBefore(o, n, b, l, x, r + c, lab);
    TurnsAfter(o, n, b + l, x, r, c, lab);
    if InsertTurn(o, n, lab[x]) == Right {
      AllTurnJoin(o, n, b, l + [x], lab, Right);
      assert Before(Below(t, p, false)) == b + (l + [x]);
    } else if InsertTurn(o, n, lab[x]) == Left {
      AllTurnJoin(o, n, [x] + r, c, lab, Left);
    }
  }

  /** The new node where the descent ended keeps the order. */
  lemma SpliceOrdered(o: Policy, p: Path<RbNode>, n: RbNode, lab: Labels)
    requires Ordered(o, Inorder(Plug(Leaf, p)), lab) && n in lab && Comparable(o, lab[n]) && Passed(o, lab[n], p, lab)
    ensures Inorder(Plug(Leaf, p)) == Before(p) + After(p)
    ensures Inorder(Plug(RedLeaf(n), p)) == Before(p) + [n] + After(p)
    ensures Ordered(o, Inorder(Plug(RedLeaf(n), p)), lab)
  {
    PlugInorder(Leaf, p);
    PlugInorder(RedLeaf(n), p);
    var b, c := Before(p), After(p);
    assert Inorder(Plug(Leaf, p)) == b + c;
    assert Inorder(Plug(RedLeaf(n), p)) == b + [n] + c;
    SpliceAt(o, b, n, c, lab);
  }

  lemma SpliceAt(o: Policy, b: seq<RbNode>, n: RbNode, c: seq<RbNode>, lab: Labels)
    requires Ordered(o, b + c, lab) && n in lab && Comparable(o, lab[n])
    requires AllTurn(o, lab[n], b, lab, Right) && AllTurn(o, lab[n], c, lab, Left)
    ensures Ordered(o, b + [n] + c, lab)
  {
    assert Labelled(b, lab) && Labelled(c, lab) && Labelled([n], lab);
    var rb, rc := RecordsOf(b, lab), RecordsOf(c, lab);
    RecordsJoin(b, c, lab);
    RecordsJoin(b + [n], c, lab);
    RecordsJoin(b, [n], lab);
    assert RecordsOf([n], lab) == [lab[n]];
    hide RecordsOf, Sorted, Labelled;
    SpliceKeepsSorted(o, rb, lab[n], rc);
  }

  lemma RecordsJoin(xs: seq<RbNode>, ys: seq<RbNode>, lab: Labels)
    requires Labelled(xs, lab) && Labelled(ys, lab)
    ensures Labelled(xs + ys, lab) && RecordsOf(xs + ys, lab) == RecordsOf(xs, lab) + RecordsOf(ys, lab)
  {
  }

  ghost predicate Extends(lab: Labels, lab': Labels) {
    forall n :: n in lab ==> n in lab' && lab'[n] == lab[n]
  }

  lemma ExtendsKeeps(o: Policy, n: Record, xs: seq<RbNode>, lab: Labels, lab': Labels, turn: Turn)
    requires Extends(lab, lab')
    ensures Ordered(o, xs, lab) ==> Ordered(o, xs, lab')
    ensures AllTurn(o, n, xs, lab, turn) ==> AllTurn(o, n, xs, lab', turn)
  {
    if Labelled(xs, lab) {
      assert RecordsOf(xs, lab) == RecordsOf(xs, lab');
    }
  }

  /** What an insertion does to the in-order sequence `was`. */
  ghost predicate Spliced(o: Policy, was: seq<RbNode>, lab: Labels, n: RbNode, rec: Record, k: nat, now: seq<RbNode>) {
    && k <= |was| && now == was[..k] + [n] + was[k..]
    && AllTurn(o, rec, was[..k], lab, Right) && AllTurn(o, rec, was[k..], lab, Left)
  }

  lemma InsertedInOrder(o: Policy, p: Path<RbNode>, n: RbNode, rec: Record, lab: Labels, now: seq<RbNode>)
    requires Ordered(o, Inorder(Plug(Leaf, p)), lab) && n !in lab && Comparable(o, rec) && Passed(o, rec, p, lab)
    requires now == Inorder(Plug(RedLeaf(n), p))
    ensures Ordered(o, now, lab[n := rec])
    ensures Spliced(o, Inorder(Plug(Leaf, p)), lab, n, rec, |Before(p)|, now)
  {
    var lab' := lab[n := rec];
    ExtendsKeeps(o, rec, Inorder(Plug(Leaf, p)), lab, lab', Left);
    ExtendsKeeps(o, rec, Before(p), lab, lab', Right);
    ExtendsKeeps(o, rec, After(p), lab, lab', Left);
    hide Ordered, AllTurn;
    SpliceOrdered(o, p, n, lab');
  }

  /** Overwriting length and bytes of a KeyValue node keeps the order, which is by key alone. */
  lemma OverwriteKeepsOrder(o: Policy, xs: seq<RbNode>, lab: Labels, x: RbNode, rec: Record)
    requires Ordered(o, xs, lab) && o.KeyValue? && x in lab && lab[x].key == rec.key
    ensures Ordered(o, xs, lab[x := rec])
  {
    var rs, rs' := RecordsOf(xs, lab), RecordsOf(xs, lab[x := rec]);
    assert forall i :: 0 <= i < |xs| ==> rs'[i].key == rs[i].key;
    hide RecordsOf, Labelled;
    SameKeysSorted(o, rs, rs');
  }

  /** Taking a node out keeps the order, whatever is written into the node afterwards. */
  lemma WithoutKeepsOrder(o: Policy, xs: seq<RbNode>, lab: Labels, k: nat, now: seq<RbNode>, lab': Labels)
    requires Ordered(o, xs, lab) && Without(xs, k, now)
    requires forall x :: x in now ==> x in lab && x in lab' && lab'[x] == lab[x]
    ensures Ordered(o, now, lab')
  {
    var rs, rs' := RecordsOf(xs, lab), RecordsOf(now, lab');
    forall i | 0 <= i < |now| ensures rs'[i] == rs[if i < k then i else i + 1] {
      assert now[i] == xs[if i < k then i else i + 1];
    }
    hide RecordsOf, Labelled;
    SortedWithout(o, rs, k, rs');
  }
}
