/** The stores of rbtree_delete on memory: unlinking a node, and putting another in a node's place. */
module RbSurgery {
  import opened RbShape
  import opened RbMemory
  import opened RbDelete

  lemma HoldsFrame(m: Memory, m': Memory, z: Site, s: RbNode)
    requires Holds(m, z, s) && SameOn(Region(z), m, m')
    ensures Holds(m', z, s)
  {
    LinkedFrame(z.t, z.ptr, z.parent, s, m, m');
    PathFrame(z.p, z.ptr, z.parent, z.root, s, m, m');
  }

  /** `k` is the only child subtree of `t`. */
  predicate OnlyChild(t: Tree<RbNode>, k: Tree<RbNode>) {
    t.Node? && ((t.left.Leaf? && k == t.right) || (t.right.Leaf? && k == t.left))
  }

  ghost function Reparented(m: Memory, t: Tree<RbNode>, parent: RbNode?): Memory
    requires t.Node? ==> t.item in m
  {
    if t.Leaf? then m else m[t.item := m[t.item].(parent := parent)]
  }

  /** The slot above `t` and the parent pointer of `k` now skip `t.item`. */
  ghost function UnlinkStores(m: Memory, k: Tree<RbNode>, p: Path<RbNode>, parent: RbNode?, s: RbNode): Memory
    requires !p.Top? ==> p.item in m
    requires k.Node? ==> k.item in m
  {
    Reparented(Relink(m, p, PtrTo(k, s)), k, parent)
  }

  lemma UnlinkHolds(m: Memory, z: Site, s: RbNode, k: Tree<RbNode>)
    requires Holds(m, z, s) && OnlyChild(z.t, k) && (k.Node? ==> k.item in m) && (!z.p.Top? ==> z.p.item in m)
    ensures Holds(UnlinkStores(m, k, z.p, z.parent, s),
                  Site(k, z.p, PtrTo(k, s), z.parent, NewRoot(z.p, PtrTo(k, s), z.root)), s)
    ensures Region(Site(k, z.p, PtrTo(k, s), z.parent, NewRoot(z.p, PtrTo(k, s), z.root))) == Region(z) - {z.t.item}
  {
    var m' := UnlinkStores(m, k, z.p, z.parent, s);
    var left := k == z.t.left && z.t.right.Leaf?;
    assert Linked(k, Kid(m[z.t.item], left), z.t.item, s, m);
    assert Sep(k) && Nodes(k) <= Nodes(z.t) && z.t.item !in Nodes(k);
    Adopted(k, Kid(m[z.t.item], left), z.t.item, z.parent, s, m, m');
    RelinkedPath(z.p, z.ptr, z.parent, z.root, s, m, PtrTo(k, s), m');
  }

  /** When the root goes, nothing but the root pointer changes. */
  lemma RootUnlinkHolds(m: Memory, z: Site, s: RbNode, k: Tree<RbNode>)
    requires Holds(m, z, s) && OnlyChild(z.t, k) && z.p.Top?
    ensures Holds(m, Site(k, Top, PtrTo(k, s), z.t.item, PtrTo(k, s)), s)
  {
    var left := k == z.t.left && z.t.right.Leaf?;
    assert Linked(k, Kid(m[z.t.item], left), z.t.item, s, m);
  }

  /** `y` takes the fields of `t.item`, the slot above it, and the parent pointers of its children. */
  ghost function ReplaceStores(m: Memory, t: Tree<RbNode>, p: Path<RbNode>, y: RbNode): Memory
    requires t.Node? && t.item in m && (!p.Top? ==> p.item in m)
    requires (t.left.Node? ==> t.left.item in m) && (t.right.Node? ==> t.right.item in m)
  {
    var m1 := m[y := m[t.item]];
    Reparented(Reparented(Relink(m1, p, y), t.left, y), t.right, y)
  }

  lemma ReplaceHolds(m: Memory, z: Site, s: RbNode, y: RbNode)
    requires Holds(m, z, s) && z.t.Node? && y !in Region(z) && y != s
    requires z.t.item in m && (!z.p.Top? ==> z.p.item in m)
    requires (z.t.left.Node? ==> z.t.left.item in m) && (z.t.right.Node? ==> z.t.right.item in m)
    ensures var z' := Site(z.t.(item := y), z.p, y, z.parent, NewRoot(z.p, y, z.root));
      Holds(ReplaceStores(m, z.t, z.p, y), z', s) && Region(z') == Region(z) - {z.t.item} + {y}
  {
    var t, m' := z.t, ReplaceStores(m, z.t, z.p, y);
    assert Sep(t.left) && Sep(t.right);
    ReplaceSpares(m, z, s, y);
    ReplacedDisjoint(t, z.p, s, y);
    hide ReplaceStores, SameOn, Sep, SepPath, Disjoint, Nodes, PathNodes;
    Adopted(t.left, m[t.item].left, t.item, y, s, m, m');
    Adopted(t.right, m[t.item].right, t.item, y, s, m, m');
    RelinkedPath(z.p, z.ptr, z.parent, z.root, s, m, y, m');
  }

  lemma ReplacedDisjoint(t: Tree<RbNode>, p: Path<RbNode>, s: RbNode, y: RbNode)
    requires Disjoint(t, p, s) && t.Node? && y !in Nodes(t) && y !in PathNodes(p) && y != s
    ensures Disjoint(t.(item := y), p, s) && Nodes(t.(item := y)) == Nodes(t) - {t.item} + {y}
        && t.item !in PathNodes(p)
  {
  }

  /** Taking a place touches five nodes at most. */
  lemma ReplaceSpares(m: Memory, z: Site, s: RbNode, y: RbNode)
    requires Disjoint(z.t, z.p, s) && z.t.Node? && y !in Region(z)
    requires z.t.item in m && (!z.p.Top? ==> z.p.item in m)
    requires (z.t.left.Node? ==> z.t.left.item in m) && (z.t.right.Node? ==> z.t.right.item in m)
    ensures var t, m' := z.t, ReplaceStores(m, z.t, z.p, y);
      && m'.Keys == m.Keys + {y} && m'[y] == m[t.item]
      && (t.left.Node? ==> SameOn(Nodes(t.left.left), m, m') && SameOn(Nodes(t.left.right), m, m')
                           && m'[t.left.item] == m[t.left.item].(parent := y))
      && (t.right.Node? ==> SameOn(Nodes(t.right.left), m, m') && SameOn(Nodes(t.right.right), m, m')
                            && m'[t.right.item] == m[t.right.item].(parent := y))
      && SameOn(PathNodes(z.p), Relink(m, z.p, y), m')
  {
    assert Sep(z.t.left) && Sep(z.t.right);
    assert z.t.left.Node? ==> z.t.left.item in Nodes(z.t.left);
    assert z.t.right.Node? ==> z.t.right.item in Nodes(z.t.right);
  }

  /** What taking a place reads before it writes. */
  lemma ReplaceSees(m: Memory, z: Site, s: RbNode, y: RbNode)
    requires Holds(m, z, s) && z.t.Node? && y in m && y !in Region(z) && y != s
    ensures var t, p, x := z.t, z.p, z.t.item;
      && x in m && x != y && x != s && m[x].parent == z.parent
      && (t.left.Node? ==> t.left.item in m && t.left.item != s && t.left.item != x && t.left.item != y)
      && (t.right.Node? ==> t.right.item in m && t.right.item != s && t.right.item != x && t.right.item != y)
      && m[x].left == PtrTo(t.left, s) && m[x].right == PtrTo(t.right, s)
      && (z.root == x <==> p.Top?)
      && (!p.Top? ==>
            && p.item in m && p.item != y && p.item != x && z.parent == p.item
            && (t.left.Node? ==> p.item != t.left.item) && (t.right.Node? ==> p.item != t.right.item)
            && (p.InLeft? <==> m[p.item].left == x) && (p.InRight? <==> m[p.item].right == x))
  {
    RootIsTop(m, z, s);
    assert Linked(z.t.left, m[z.t.item].left, z.t.item, s, m) && Linked(z.t.right, m[z.t.item].right, z.t.item, s, m);
    assert z.t.left.Node? ==> z.t.left.item in Nodes(z.t);
    assert z.t.right.Node? ==> z.t.right.item in Nodes(z.t);
  }

  /** The two memories differ at most in the parent pointer of one node. */
  ghost predicate SameButParent(m: Memory, h: Memory, k: Tree<RbNode>) {
    && m.Keys == h.Keys
    && forall n :: n in m ==> h[n] == m[n] || (k.Node? && n == k.item && h[n] == m[n].(parent := h[n].parent))
  }

  /** That pointer is overwritten. */
  lemma ReplaceForgets(m: Memory, h: Memory, z: Site, s: RbNode, y: RbNode)
    requires Holds(m, z, s) && z.t.Node? && y in m && y !in Region(z) && y != s && SameButParent(m, h, z.t.right)
    ensures z.t.item in m && (!z.p.Top? ==> z.p.item in m)
    ensures (z.t.left.Node? ==> z.t.left.item in m) && (z.t.right.Node? ==> z.t.right.item in m)
    ensures ReplaceStores(h, z.t, z.p, y) == ReplaceStores(m, z.t, z.p, y)
    ensures h[z.t.item] == m[z.t.item] && (!z.p.Top? ==> h[z.p.item] == m[z.p.item])
  {
    ReplaceSees(m, z, s, y);
    hide Holds, Region;
    var t, p, k := z.t, z.p, z.t.right;
    var m1, h1 := m[y := m[t.item]], h[y := h[t.item]];
    assert SameButParent(m1, h1, k);
    var m2, h2 := Relink(m1, p, y), Relink(h1, p, y);
    assert SameButParent(m2, h2, k);
    ReparentSame(m2, h2, t.left, k, y);
    ReparentForgets(Reparented(m2, t.left, y), Reparented(h2, t.left, y), k, y);
  }

  lemma ReparentSame(m: Memory, h: Memory, t: Tree<RbNode>, k: Tree<RbNode>, y: RbNode)
    requires SameButParent(m, h, k) && (t.Node? ==> t.item in m)
    ensures SameButParent(Reparented(m, t, y), Reparented(h, t, y), k)
  {
  }

  lemma ReparentForgets(m: Memory, h: Memory, k: Tree<RbNode>, y: RbNode)
    requires SameButParent(m, h, k) && (k.Node? ==> k.item in m)
    ensures Reparented(m, k, y) == Reparented(h, k, y)
  {
  }

  /** The root is above every node that has a parent. */
  lemma RootIsNotBelow(m: Memory, y: Site, k: Tree<RbNode>, s: RbNode)
    requires Holds(m, y, s) && OnlyChild(y.t, k) && !y.p.Top?
    ensures y.root != null && y.root != s && y.root != PtrTo(k, s)
  {
    RootInPath(y.p, y.ptr, y.parent, y.root, s, m);
    assert Nodes(k) <= Nodes(y.t);
  }

  /** Taking a place keeps the parent pointer of the root, whichever node the root is. */
  lemma RootKept(m: Memory, h: Memory, z: Site, s: RbNode, y: RbNode)
    requires Holds(m, z, s) && z.t.Node? && y in m && y !in Region(z) && y != s && SameButParent(m, h, z.t.right)
    ensures z.t.item in m && (!z.p.Top? ==> z.p.item in m)
    ensures (z.t.left.Node? ==> z.t.left.item in m) && (z.t.right.Node? ==> z.t.right.item in m)
    ensures z.root != null && z.root in m
    ensures var r := NewRoot(z.p, y, z.root);
      r != null && r in m && ReplaceStores(m, z.t, z.p, y)[r].parent == h[z.root].parent
  {
    ReplaceSees(m, z, s, y);
    if !z.p.Top? {
      RootInPath(z.p, z.ptr, z.parent, z.root, s, m);
      assert z.t.left.Node? ==> z.t.left.item in Nodes(z.t);
      assert z.t.right.Node? ==> z.t.right.item in Nodes(z.t);
    }
    hide Holds, Region, Nodes, PathNodes;
  }

  // ---------- along the left spine ----------

  /** From the hole the first node left, up to the subtree it was the first node of. */
  lemma {:induction false} SpineUp(m: Memory, t: Tree<RbNode>, q: Path<RbNode>, z: Site, s: RbNode) returns (z': Site)
    requires t.Node? && Holds(m, z, s) && z.t == LeftSpine(t, q).0.right && z.p == LeftSpine(t, q).1
    ensures z'.t == WithoutFirst(t) && z'.p == q && z'.root == z.root && Holds(m, z', s) && Region(z') == Region(z)
    decreases t
  {
    if t.left.Leaf? {
      z' := z;
    } else {
      var z1 := SpineUp(m, t.left, InLeft(t.color, t.item, t.right, q), z, s);
      FocusUp(m, z1, s);
      z' := UpSite(z1, m[z1.p.item].parent);
    }
  }

  /** And back down. */
  lemma {:induction false} SpineDown(m: Memory, t: Tree<RbNode>, z: Site, s: RbNode) returns (z': Site)
    requires t.Node? && Holds(m, z, s) && z.t == WithoutFirst(t)
    ensures z'.t == LeftSpine(t, z.p).0.right && z'.p == LeftSpine(t, z.p).1
    ensures z'.root == z.root && Holds(m, z', s) && Region(z') == Region(z)
    decreases t
  {
    if t.left.Leaf? {
      z' := z;
    } else {
      FocusDown(m, z, s, true);
      z' := SpineDown(m, t.left, DownSite(z, true, Kid(m[z.t.item], true)), s);
    }
  }

  /** Every node of a held tree has a site of its own. */
  lemma {:induction false} Locate(m: Memory, z: Site, s: RbNode, n: RbNode) returns (r: Site)
    requires Holds(m, z, s) && n in Nodes(z.t)
    ensures r.t.Node? && r.t.item == n && Holds(m, r, s) && Plug(r.t, r.p) == Plug(z.t, z.p)
    ensures Region(r) == Region(z) && r.root == z.root
    decreases z.t
  {
    if n == z.t.item {
      r := z;
    } else {
      var left := n in Nodes(z.t.left);
      FocusDown(m, z, s, left);
      r := Locate(m, DownSite(z, left, Kid(m[z.t.item], left)), s, n);
    }
  }

  /** The path down to the first node of `t`, itself a node of `t` when there is a step to take. */
  lemma {:induction false} SpineParent(t: Tree<RbNode>, q: Path<RbNode>)
    requires t.Node?
    ensures t.left.Leaf? ==> LeftSpine(t, q).1 == q
    ensures t.left.Node? ==> !LeftSpine(t, q).1.Top? && LeftSpine(t, q).1.item in Nodes(t)
  {
    if t.left.Node? {
      SpineParent(t.left, InLeft(t.color, t.item, t.right, q));
    }
  }

  lemma {:induction false} SpineParentSame(t: Tree<RbNode>, p: Path<RbNode>, q: Path<RbNode>)
    requires t.Node? && t.left.Node?
    ensures !LeftSpine(t, p).1.Top? && !LeftSpine(t, q).1.Top? && LeftSpine(t, p).1.item == LeftSpine(t, q).1.item
  {
    if t.left.left.Node? {
      SpineParentSame(t.left, InLeft(t.color, t.item, t.right, p), InLeft(t.color, t.item, t.right, q));
    }
  }

  /** The site of the first node to the right of `z`, which is the one to unlink. */
  ghost predicate IsNext(y: Site, z: Site) {
    && z.t.Node? && z.t.left.Node? && z.t.right.Node?
    && (y.t, y.p) == LeftSpine(z.t.right, InRight(z.t.color, z.t.left, z.t.item, z.p))
  }

  /** Memory once the next node is unlinked, and the site of the node it will replace. */
  lemma NextUnlinked(m: Memory, y: Site, z: Site, s: RbNode) returns (x: Site)
    requires Holds(m, y, s) && Region(y) == Region(z) && IsNext(y, z)
    requires !y.p.Top? && y.p.item in m
    requires y.t.right.Node? ==> y.t.right.item in m
    ensures var m' := UnlinkStores(m, y.t.right, y.p, y.parent, s);
      Holds(m', x, s) && Region(x) == Region(z) - {y.t.item}
    ensures x.t == z.t.(right := WithoutFirst(z.t.right)) && x.p == z.p && x.root == y.root && x.ptr == z.t.item
  {
    var q := InRight(z.t.color, z.t.left, z.t.item, z.p);
    SpineParent(z.t.right, q);
    var m' := UnlinkStores(m, y.t.right, y.p, y.parent, s);
    UnlinkHolds(m, y, s, y.t.right);
    var u := SpineUp(m', z.t.right, q, Site(y.t.right, y.p, PtrTo(y.t.right, s), y.parent, y.root), s);
    FocusUp(m', u, s);
    x := UpSite(u, m'[u.p.item].parent);
  }

  /** Once the next node has taken its place: the site of the hole it left. */
  lemma NextPlaced(m: Memory, x: Site, z: Site, y: RbNode, s: RbNode) returns (r: Site)
    requires z.t.Node? && z.t.left.Node? && z.t.right.Node? && y == LeftSpine(z.t.right, z.p).0.item
    requires Holds(m, x, s) && x.p == z.p && x.t == z.t.(item := y, right := WithoutFirst(z.t.right))
    ensures (r.t, r.p) == Unlinked(z.t, z.p) && Holds(m, r, s) && Region(r) == Region(x) && r.root == x.root
    ensures !r.p.Top? && r.ptr == PtrTo(r.t, s) && r.parent == r.p.item
    ensures r.t.Node? ==> r.t.item in m && m[r.t.item].parent == r.parent
    ensures if z.t.right.left.Leaf? then r.p.item == y
            else !LeftSpine(z.t.right, z.p).1.Top? && r.p.item == LeftSpine(z.t.right, z.p).1.item
  {
    FocusDown(m, x, s, false);
    var d := DownSite(x, false, Kid(m[x.t.item], false));
    r := SpineDown(m, z.t.right, d, s);
    SpineSameItem(z.t.right, z.p, d.p);
    SpineParent(z.t.right, d.p);
    if z.t.right.left.Node? {
      SpineParentSame(z.t.right, z.p, d.p);
    }
    assert Linked(r.t, r.ptr, r.parent, s, m);
  }
}
