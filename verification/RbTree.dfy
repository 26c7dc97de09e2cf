/** rbtree.c, rbtree.h and the str_unit_t callbacks of test/test_rbtree.c on the heap. */
module RbTree {
  import opened Options
  import opened Records
  import opened RbShape
  import opened RbOrder
  import opened RbMemory
  import opened RbDescent
  import opened RbSearch
  import opened RbDelete
  import opened RbSurgery
  import opened RbTeardown

  /** The whole tree as a site: nothing is above its root. */
  ghost function Whole(t: Tree<RbNode>, root: RbNode): Site
    reads Nodes(t)`parent
  {
    Site(t, Top, root, if t.Leaf? then null else t.item.parent, root)
  }

  /** rbtree_min: the first node in order below `start`. */
  method Min(start: RbNode, sentinel: RbNode, ghost z: Site, ghost ns: set<RbNode>)
    returns (node: RbNode, ghost r: Site)
    requires Region(z) <= ns && Holds(Snap(ns), z, sentinel) && z.t.Node? && z.ptr == start && z.parent == start.parent
    ensures Inorder(z.t) != [] && node == Inorder(z.t)[0]
    ensures (r.t, r.p) == LeftSpine(z.t, z.p) && r == Site(r.t, r.p, node, node.parent, z.root)
    ensures Holds(Snap(ns), r, sentinel) && Region(r) == Region(z)
  {
    node, r := start, z;
    hide Holds, Nodes, PathNodes, Region, Inorder;
    Hangs(ns, r, sentinel);
    GoDown(ns, r, sentinel, true);
    while node.left != sentinel
      invariant r.t.Node? && r.ptr == node && r.parent == node.parent && r.root == z.root
      invariant Holds(Snap(ns), r, sentinel) && Region(r) == Region(z)
      invariant LeftSpine(r.t, r.p) == LeftSpine(z.t, z.p)
      invariant node == r.t.item && node.left != null && (r.t.left.Leaf? <==> node.left == sentinel)
      decreases r.t
    {
      GoDown(ns, r, sentinel, true);
      r := DownSite(r, true, node.left);
      node := node.left;
      Hangs(ns, r, sentinel);
      GoDown(ns, r, sentinel, true);
    }
    LeftSpineIsFirst(z.t, z.p);
  }

  class RbTree {
    var root: RbNode
    var sentinel: RbNode
    var policy: Policy
    ghost var shape: Tree<RbNode>

    /** Memory holds the shape, whatever shape that is, and its in-order sequence is sorted. The parent
        pointer of the root is not constrained. */
    ghost predicate Searchable()
      reads this
      reads Nodes(shape)`left, Nodes(shape)`right, Nodes(shape)`parent, Nodes(shape)`color
      reads Nodes(shape)`key, Nodes(shape)`len, Nodes(shape)`data
    {
      && Holds(Snap(Nodes(shape)), Whole(shape, root), sentinel)
      && Ordered(policy, Inorder(shape), LabelsOf(Nodes(shape)))
    }

    /** What rbtree_insert needs: in addition the root and the shared sentinel are black. */
    ghost predicate Insertable()
      reads this, sentinel`color
      reads Nodes(shape)`left, Nodes(shape)`right, Nodes(shape)`parent, Nodes(shape)`color
      reads Nodes(shape)`key, Nodes(shape)`len, Nodes(shape)`data
    {
      Searchable() && sentinel.color.Black? && ColorOf(shape).Black?
    }

    /** In addition the shape is red-black. */
    ghost predicate Valid()
      reads this, sentinel`color
      reads Nodes(shape)`left, Nodes(shape)`right, Nodes(shape)`parent, Nodes(shape)`color
      reads Nodes(shape)`key, Nodes(shape)`len, Nodes(shape)`data
    {
      Insertable() && RedBlack(shape)
    }

    /** rbtree_init. */
    constructor (s: RbNode, i: Policy)
      modifies s`color
      ensures Valid() && shape == Leaf && sentinel == s && policy == i
    {
      root, sentinel, policy := s, s, i;
      shape := Leaf;
      new;
      s.color := Black;
    }

    /** `temp` takes the place of `node` in the root pointer or in the child slot that holds it. (The right
        rotation tests the two slots in the other order; only one of them holds `node`.) */
    method ReplaceChild(node: RbNode, temp: RbNode, ghost p: Path<RbNode>)
      requires node == root <==> p.Top?
      requires !p.Top? ==>
        && node.parent == p.item && (p.InLeft? <==> p.item.left == node)
        && (p.InRight? <==> p.item.right == node)
      modifies this`root, (if p.InLeft? then {p.item} else {})`left, (if p.InRight? then {p.item} else {})`right
      ensures root == if p.Top? then temp else old(root)
      ensures p.InLeft? ==> p.item.left == temp
      ensures p.InRight? ==> p.item.right == temp
    {
      if node == root {
        root := temp;
      } else if node == node.parent.left {
        node.parent.left := temp;
      } else {
        node.parent.right := temp;
      }
    }

    /** rbtree_left_rotate. */
    method RotateLeft(node: RbNode, ghost z: Site, ghost ns: set<RbNode>)
      requires Region(z) <= ns && Holds(Snap(ns), z, sentinel) && CanRotate(z.t, true)
      requires z.ptr == node && z.parent == node.parent && z.root == root
      modifies this`root, ns`left, ns`right, ns`parent
      ensures Touches(old(Snap(ns)), z.t, z.p, true) && Snap(ns) == RotationStores(old(Snap(ns)), z.t, z.p, true)
      ensures root == NewRoot(z.p, Side(z.t, !true).item, old(root))
    {
      hide *;
      ghost var m', y, b, above := RotationPlan(ns, z, sentinel, true);
      var temp := node.right;
      node.right := temp.left;
      if temp.left != sentinel {
        temp.left.parent := node;
      }
      temp.parent := node.parent;
      ReplaceChild(node, temp, z.p);
      temp.left := node;
      node.parent := temp;
      forall n | n in ns ensures m'[n] == Cell(n.left, n.right, n.parent, n.color) {
        if n == node {
        } else if n == temp {
        } else if n in b {
        } else if n in above {
        }
      }
      SnapIs(ns, m');
    }

    /** rbtree_right_rotate. */
    method RotateRight(node: RbNode, ghost z: Site, ghost ns: set<RbNode>)
      requires Region(z) <= ns && Holds(Snap(ns), z, sentinel) && CanRotate(z.t, false)
      requires z.ptr == node && z.parent == node.parent && z.root == root
      modifies this`root, ns`left, ns`right, ns`parent
      ensures Touches(old(Snap(ns)), z.t, z.p, false) && Snap(ns) == RotationStores(old(Snap(ns)), z.t, z.p, false)
      ensures root == NewRoot(z.p, Side(z.t, !false).item, old(root))
    {
      hide *;
      ghost var m', y, b, above := RotationPlan(ns, z, sentinel, false);
      var temp := node.left;
      node.left := temp.right;
      if temp.right != sentinel {
        temp.right.parent := node;
      }
      temp.parent := node.parent;
      ReplaceChild(node, temp, z.p);
      temp.right := node;
      node.parent := temp;
      forall n | n in ns ensures m'[n] == Cell(n.left, n.right, n.parent, n.color) {
        if n == node {
        } else if n == temp {
        } else if n in b {
        } else if n in above {
        }
      }
      SnapIs(ns, m');
    }

    /** rbt_red and rbt_black. */
    method SetColor(n: RbNode, c: Color, ghost z: Site, ghost ns: set<RbNode>)
      requires Region(z) <= ns && Holds(Snap(ns), z, sentinel) && z.t.Node? && z.t.item == n
      modifies n`color
      ensures n.color == c
      ensures Holds(Snap(ns), z.(t := Paint(z.t, c)), sentinel) && Region(z.(t := Paint(z.t, c))) == Region(z)
    {
      ghost var m := Snap(ns);
      assert n in Nodes(z.t);
      RepaintHolds(m, z, sentinel, c);
      n.color := c;
      SnapIs(ns, m[n := m[n].(color := c)]);
    }

    /** Lines 40-43 and 62-65: the uncle is red, so the colours move up two levels. */
    method Recolor(node: RbNode, uncle: RbNode, ghost z: Site, ghost ns: set<RbNode>) returns (up: RbNode)
      requires Region(z) <= ns && Holds(Snap(ns), z, sentinel)
      requires z.ptr == node && z.parent == node.parent
      requires !z.p.Top? && !z.p.up.Top? && z.p.up.sibling.Node?
      requires node.parent == z.p.item && node.parent.parent == z.p.up.item
      requires uncle == z.p.up.sibling.item
      modifies ns`color
      ensures up == z.p.up.item
      ensures var z' := Site(Recolored(z.t, z.p), z.p.up.up, up, up.parent, z.root);
        Holds(Snap(ns), z', sentinel) && Region(z') == Region(z)
      ensures root.parent == old(root.parent)
    {
      hide Holds, Linked, PathLinked, Sep, SepPath, Region, Nodes, PathNodes, Snap;
      ghost var left := z.p.up.InLeft?;
      GoUp(ns, z, sentinel);
      ghost var z1 := UpSite(z, z.p.item.parent);
      SetColor(node.parent, Black, z1, ns);
      ghost var z2 := z1.(t := Paint(z1.t, Black));
      GoUp(ns, z2, sentinel);
      ghost var z3 := UpSite(z2, z2.p.item.parent);
      GoDown(ns, z3, sentinel, !left);
      ghost var z4 := DownSite(z3, !left, if left then z3.t.item.right else z3.t.item.left);
      SetColor(uncle, Black, z4, ns);
      ghost var z5 := z4.(t := Paint(z4.t, Black));
      GoUp(ns, z5, sentinel);
      ghost var z6 := UpSite(z5, z5.p.item.parent);
      SetColor(node.parent.parent, Red, z6, ns);
      up := node.parent.parent;
      assert Paint(z6.t, Red) == Recolored(z.t, z.p);
    }

    /** Either rotation: memory holds the rotated tree. */
    method Rotate(node: RbNode, left: bool, ghost z: Site, ghost ns: set<RbNode>)
      requires Region(z) <= ns && Holds(Snap(ns), z, sentinel) && CanRotate(z.t, left)
      requires z.ptr == node && z.parent == node.parent && z.root == root
      modifies this`root, ns`left, ns`right, ns`parent
      ensures var r := Rotated(z.t, left);
        && root == NewRoot(z.p, r.item, old(root)) && r.item.parent == z.parent && Nodes(r) == Nodes(z.t)
        && Holds(Snap(ns), Site(r, z.p, r.item, z.parent, root), sentinel)
      ensures root.parent == old(root.parent)
    {
      ghost var m := Snap(ns);
      RotationSees(m, z, sentinel, left);
      RotationHolds(m, z, sentinel, left);
      RotationCells(m, z, sentinel, left);
      RotationKeepsTop(m, RotationStores(m, z.t, z.p, left), z, sentinel, left);
      RotatedDisjoint(z.t, z.p, sentinel, left);
      SnapReads(ns, root);
      hide Holds, Linked, PathLinked, Nodes, PathNodes, Sep, SepPath, Region, Snap, RotationStores;
      if left {
        RotateLeft(node, z, ns);
      } else {
        RotateRight(node, z, ns);
      }
      SnapReads(ns, root);
      SnapReads(ns, Rotated(z.t, left).item);
    }

    /** Lines 47-50 and 69-72: an inner grandchild is turned into an outer one. `left` is the side of the parent. */
    method TurnOut(node: RbNode, left: bool, ghost z: Site, ghost ns: set<RbNode>) returns (out: RbNode, ghost r: Site)
      requires Region(z) <= ns && Holds(Snap(ns), z, sentinel) && z.t.Node?
      requires z.ptr == node && z.parent == node.parent && z.root == root
      requires !z.p.Top? && !z.p.up.Top? && left == z.p.up.InLeft?
      modifies this`root, ns`left, ns`right, ns`parent
      ensures root == old(root)
      ensures r == Site(Outer(z.t, z.p).0, Outer(z.t, z.p).1, out, out.parent, root) && r.t.Node? && r.t.item == out
      ensures Holds(Snap(ns), r, sentinel) && Region(r) == Region(z)
      ensures root.parent == old(root.parent)
    {
      hide Holds, Linked, PathLinked, Sep, SepPath, Nodes, PathNodes, Snap;
      out, r := node, z;
      Hangs(ns, z, sentinel);
      if out == (if left then out.parent.right else out.parent.left) {
        out := out.parent;
        GoUp(ns, z, sentinel);
        r := UpSite(z, z.p.item.parent);
        Rotate(out, left, r, ns);
        r := Site(Rotated(r.t, left), r.p, Rotated(r.t, left).item, r.parent, root);
        GoDown(ns, r, sentinel, left);
        r := DownSite(r, left, if left then r.t.item.left else r.t.item.right);
      }
    }

    /** Lines 47-54 and 69-76: the uncle is black. */
    method Settle(node: RbNode, left: bool, ghost z: Site, ghost ns: set<RbNode>) returns (out: RbNode, ghost r: Site)
      requires Region(z) <= ns && Holds(Snap(ns), z, sentinel) && z.t.Node?
      requires z.ptr == node && z.parent == node.parent && z.root == root
      requires !z.p.Top? && !z.p.up.Top? && left == z.p.up.InLeft?
      modifies this`root, ns`left, ns`right, ns`parent, ns`color
      ensures r == Site(Outer(z.t, z.p).0, Settled(Outer(z.t, z.p).1), out, out.parent, root) && r.t.Node?
          && r.t.item == out
      ensures Holds(Snap(ns), r, sentinel) && Region(r) == Region(z)
      ensures root.parent == old(root.parent)
    {
      hide Holds, Linked, PathLinked, Sep, SepPath, Nodes, PathNodes, Snap;
      out, r := TurnOut(node, left, z, ns);
      SettledIsRotation(r.t, r.p);
      GoUp(ns, r, sentinel);
      r := UpSite(r, r.p.item.parent);
      SetColor(out.parent, Black, r, ns);
      r := r.(t := Paint(r.t, Black));
      GoUp(ns, r, sentinel);
      r := UpSite(r, r.p.item.parent);
      SetColor(out.parent.parent, Red, r, ns);
      r := r.(t := Paint(r.t, Red));
      Rotate(out.parent.parent, !left, r, ns);
      r := Site(Rotated(r.t, !left), r.p, Rotated(r.t, !left).item, r.parent, root);
      GoDown(ns, r, sentinel, left);
      r := DownSite(r, left, if left then r.t.item.left else r.t.item.right);
    }

    /** Lines 36-78: one round of the loop. */
    method RebalanceStep(node: RbNode, ghost z: Site, ghost ns: set<RbNode>) returns (up: RbNode, ghost r: Site)
      requires Region(z) == ns && Holds(Snap(ns), z, sentinel) && CanRise(z.t, z.p)
      requires z.ptr == node && z.parent == node.parent && z.root == root
      requires sentinel.color.Black? && PathColor(z.p).Red?
      modifies this`root, ns`left, ns`right, ns`parent, ns`color
      ensures Holds(Snap(ns), r, sentinel) && Region(r) == ns && r.ptr == up && r.parent == up.parent && r.root == root
      ensures CanRise(r.t, r.p) && Size(r.p) < Size(z.p) && (AlmostRedBlack(z.t, z.p) ==> AlmostRedBlack(r.t, r.p))
      ensures Inorder(Plug(r.t, r.p)) == Inorder(Plug(z.t, z.p))
      ensures sentinel.color.Black?
      ensures root.parent == old(root.parent)
    {
      GrandparentExists(z.t, z.p);
      Hangs(ns, z, sentinel);
      SeesUncle(ns, z, sentinel);
      StepKeeps(z.t, z.p);
      hide Holds, Linked, PathLinked, Sep, SepPath, Nodes, PathNodes, Snap, AlmostRedBlack, CanRise, Inorder, Plug;
      var left := node.parent == node.parent.parent.left;
      var temp := if left then node.parent.parent.right else node.parent.parent.left;
      if temp.color.Red? {
        up := Recolor(node, temp, z, ns);
        r := Site(Recolored(z.t, z.p), z.p.up.up, up, up.parent, root);
      } else {
        up, r := Settle(node, left, z, ns);
      }
    }

    /** Lines 35-79: move the focus up until its parent is black. */
    method Rebalance(start: RbNode, ghost z: Site, ghost ns: set<RbNode>) returns (ghost r: Site)
      requires Region(z) == ns && Holds(Snap(ns), z, sentinel) && CanRise(z.t, z.p)
      requires z.ptr == start && z.parent == start.parent && z.root == root
      requires sentinel.color.Black?
      modifies this`root, ns`left, ns`right, ns`parent, ns`color
      ensures Holds(Snap(ns), r, sentinel) && Region(r) == ns && r.root == root
      ensures CanRise(r.t, r.p) && PathColor(r.p).Black? && sentinel.color.Black?
      ensures AlmostRedBlack(z.t, z.p) ==> AlmostRedBlack(r.t, r.p)
      ensures Inorder(Plug(r.t, r.p)) == Inorder(Plug(z.t, z.p))
      ensures root.parent == old(root.parent)
    {
      var node := start;
      r := z;
      while node != root && node.parent.color.Red?
        invariant Region(r) == ns && Holds(Snap(ns), r, sentinel) && CanRise(r.t, r.p)
        invariant AlmostRedBlack(z.t, z.p) ==> AlmostRedBlack(r.t, r.p)
        invariant r.ptr == node && r.parent == node.parent && r.root == root
        invariant sentinel.color.Black? && root.parent == old(root.parent)
        invariant Inorder(Plug(r.t, r.p)) == Inorder(Plug(z.t, z.p))
        decreases Size(r.p)
      {
        Hangs(ns, r, sentinel);
        node, r := RebalanceStep(node, r, ns);
      }
      Hangs(ns, r, sentinel);
    }

    /** str_unit_rbtree_lookup: a search of one path decides what a linear search would, on every sorted tree. */
    method Lookup(val: Record, hash: nat) returns (found: RbNode?)
      requires Searchable() && policy.StrUnits? && val.Readable()
      ensures found == null <==> Missing(policy, Record(hash, val.len, val.data), Inorder(shape),
          LabelsOf(Nodes(shape)))
      ensures found != null ==>
        && found in Nodes(shape) && found.Rec().Readable()
        && Same(found.Rec(), Record(hash, val.len, val.data))
    {
      ghost var ns, lab, probe := Nodes(shape), LabelsOf(Nodes(shape)), Record(hash, val.len, val.data);
      var node: RbNode := root;
      ghost var r := Whole(shape, root);
      WholeRegion(shape, root);
      assert MissedAround(policy, probe, r.p, lab) && (shape.Leaf? <==> root == sentinel);
      hide Holds, Nodes, PathNodes, Ordered, Missing, MissedAround, Region, LabelsOf;
      while node != sentinel
        invariant Holds(Snap(ns), r, sentinel) && Region(r) == ns
        invariant r.ptr == node && r.root == root && (r.t.Leaf? <==> node == sentinel)
        invariant Plug(r.t, r.p) == shape && MissedAround(policy, probe, r.p, lab)
        decreases r.t
      {
        Hangs(ns, r, sentinel);
        LabelsAdd(ns, node);
        SearchOn(policy, probe, r.t, r.p, lab);
        GoDown(ns, r, sentinel, true);
        GoDown(ns, r, sentinel, false);
        ghost var left := SearchTurn(policy, node.Rec(), probe) == Left;
        var child;
        if hash != node.key {
          child := if hash > node.key then node.right else node.left;
        } else if node.len != val.len {
          child := if val.len > node.len then node.right else node.left;
        } else {
          var rc := MemCmp(node.data, val.data, val.len);
          if rc > 0 {
            child := node.left;
          } else if rc < 0 {
            child := node.right;
          } else {
            FoundHere(policy, probe, r.t, r.p, lab);
            return node;
          }
        }
        r := DownSite(r, left, child);
        node := child;
      }
      NowhereLeft(policy, probe, r.p, lab);
      return null;
    }

    /** The loop of key_value_get: the same, by key alone. */
    method Get(key: nat) returns (found: RbNode?)
      requires Searchable() && (policy.KeysOnly? || policy.KeyValue?)
      ensures found == null <==> forall n :: n in Nodes(shape) ==> n.key != key
      ensures found != null ==> found in Nodes(shape) && found.key == key
    {
      ghost var ns, lab, probe := Nodes(shape), LabelsOf(Nodes(shape)), Record(key, 0, []);
      var node: RbNode := root;
      ghost var r := Whole(shape, root);
      WholeRegion(shape, root);
      assert MissedAround(policy, probe, r.p, lab) && (shape.Leaf? <==> root == sentinel) && Comparable(policy, probe);
      hide Holds, Nodes, PathNodes, Ordered, MissedAround, Missing, Region, LabelsOf, Comparable, Matches;
      while node != sentinel
        invariant Holds(Snap(ns), r, sentinel) && Region(r) == ns
        invariant r.ptr == node && r.root == root && (r.t.Leaf? <==> node == sentinel)
        invariant Plug(r.t, r.p) == shape && MissedAround(policy, probe, r.p, lab)
        decreases r.t
      {
        Hangs(ns, r, sentinel);
        LabelsAdd(ns, node);
        SearchOn(policy, probe, r.t, r.p, lab);
        if key == node.key {
          return node;
        }
        GoDown(ns, r, sentinel, true);
        GoDown(ns, r, sentinel, false);
        ghost var left := SearchTurn(policy, node.Rec(), probe) == Left;
        var child := if key > node.key then node.right else node.left;
        r := DownSite(r, left, child);
        node := child;
      }
      NowhereLeft(policy, probe, r.p, lab);
      NoSuchKey(policy, key, shape);
      return null;
    }

    /** The loop of the insertion callbacks: walk down to a duplicate, or to the sentinel slot `node` belongs in. */
    method Descend(node: RbNode) returns (temp: RbNode, turn: Turn, ghost r: Site)
      requires Searchable() && shape.Node? && Comparable(policy, node.Rec())
      ensures r.root == root && Plug(r.t, r.p) == shape && Region(r) == Nodes(shape)
      ensures Holds(Snap(Nodes(shape)), r, sentinel)
      ensures Passed(policy, node.Rec(), r.p, LabelsOf(Nodes(shape)))
      ensures temp in Nodes(shape)
      ensures turn == Here ==> r.t.Node? && r.t.item == temp && Comparable(policy, temp.Rec())
                               && InsertTurn(policy, node.Rec(), temp.Rec()) == Here
      ensures turn != Here ==> r.t.Leaf? && !r.p.Top? && r.p.item == temp && (turn == Right <==> r.p.InRight?)
    {
      ghost var ns, lab := Nodes(shape), LabelsOf(Nodes(shape));
      temp, turn, r := root, Here, Whole(shape, root);
      assert Region(r) == ns;
      hide Holds, Nodes, PathNodes, Ordered, RedBlack, InsertTurn;
      while true
        invariant Holds(Snap(ns), r, sentinel) && Region(r) == ns
        invariant r.t.Node? && r.ptr == temp && r.root == root
        invariant Plug(r.t, r.p) == shape && Passed(policy, node.Rec(), r.p, lab)
        decreases r.t
      {
        Hangs(ns, r, sentinel);
        PassOn(policy, node.Rec(), r.t, r.p, lab);
        turn := InsertTurn(policy, node.Rec(), temp.Rec());
        if turn == Here {
          return;
        }
        GoDown(ns, r, sentinel, turn == Left);
        var child := if turn == Right then temp.right else temp.left;
        r := DownSite(r, turn == Left, child);
        if child == sentinel {
          return;
        }
        temp := child;
      }
    }

    lemma RootIsNode()
      requires Searchable() && shape.Node?
      ensures root in Nodes(shape) && Ordered(policy, Inorder(shape), LabelsOf(Nodes(shape)))
    {
    }

    /** The insertion callbacks: the walk down, the overwrite of a KeyValue duplicate, and the five stores
        that hang the node in the sentinel slot the walk ended at; nothing else in memory changes. */
    method InsertValue(node: RbNode, ghost ns: set<RbNode>) returns (ret: Option<seq<byte>>, ghost r: Site)
      requires Searchable() && shape.Node? && node !in Nodes(shape) && node != sentinel
      requires Comparable(policy, node.Rec()) && ns == Nodes(shape) + {node}
      modifies ns`left, ns`right, node`parent, node`color, Nodes(shape)`len, Nodes(shape)`data
      ensures r.root == root && Plug(if ret.None? then Leaf else r.t, r.p) == shape
      ensures ret.None? ==>
        && r == Site(RedLeaf(node), r.p, node, node.parent, root)
        && Holds(Snap(ns), r, sentinel) && Region(r) == ns
        && Passed(policy, node.Rec(), r.p, old(LabelsOf(Nodes(shape))))
        && !r.p.Top? && r.p.item in old(Snap(Nodes(shape)))
        && Snap(ns) == Relink(old(Snap(Nodes(shape))), r.p, node)[node := Cell(sentinel, sentinel, r.p.item, Red)]
        && LabelsOf(ns) == old(LabelsOf(Nodes(shape)))[node := node.Rec()]
        && var now := Inorder(Plug(r.t, r.p));
        && Spliced(policy, Inorder(shape), old(LabelsOf(Nodes(shape))), node, node.Rec(), |Before(r.p)|, now)
        && Ordered(policy, now, LabelsOf(ns))
      ensures ret.Some? ==> var lab := old(LabelsOf(Nodes(shape)));
        && r.t.Node? && r.t.item in lab && policy.KeyValue?
        && r.t.item.key == node.key && lab[r.t.item].key == node.key && ret == Some(lab[r.t.item].data)
        && LabelsOf(Nodes(shape)) == lab[r.t.item := node.Rec()]
        && Snap(Nodes(shape)) == old(Snap(Nodes(shape))) && Whole(shape, root) == old(Whole(shape, root))
      ensures root.parent == old(root.parent)
    {
      ghost var lab := LabelsOf(Nodes(shape));
      hide Searchable, Holds, Nodes, PathNodes, Region, Ordered, Passed, Spliced, Inorder, Plug, LabelsOf, Snap;
      RootIsNode();
      var temp, turn;
      temp, turn, r := Descend(node);
      LabelsAdd(Nodes(shape), node);
      LabelsAdd(Nodes(shape), temp);
      if turn == Here {
        ret := Overwrite(temp, node, Nodes(shape));
      } else {
        assert ns - {node} == Nodes(shape);
        AttachNode(node, temp, turn == Right, r, ns);
        InsertedInOrder(policy, r.p, node, node.Rec(), lab, Inorder(Plug(RedLeaf(node), r.p)));
        r := Site(RedLeaf(node), r.p, node, temp, root);
        ret := None;
      }
    }

    /** keyvalue.c:22-28. */
    method Overwrite(t: RbNode, n: RbNode, ghost ns: set<RbNode>) returns (ret: Option<seq<byte>>)
      requires t in ns && t.key == n.key && t != n
      modifies t`len, t`data
      ensures t in old(LabelsOf(ns)) && ret == Some(old(LabelsOf(ns))[t].data)
      ensures LabelsOf(ns) == old(LabelsOf(ns))[t := n.Rec()]
    {
      t.len := n.len;
      ret := Some(t.data);
      t.data := n.data;
    }

    /** `*p = node` and the stores after it. */
    method AttachNode(node: RbNode, temp: RbNode, goRight: bool, ghost r: Site, ghost ns: set<RbNode>)
      requires Holds(Snap(ns - {node}), r, sentinel) && Region(r) <= ns - {node} && node in ns && node != sentinel
      requires r.t.Leaf? && !r.p.Top? && r.p.item == temp && (goRight <==> r.p.InRight?)
      modifies temp`left, temp`right, node`left, node`right, node`parent, node`color
      ensures var r' := Site(RedLeaf(node), r.p, node, temp, r.root);
        Holds(Snap(ns), r', sentinel) && Region(r') == Region(r) + {node}
      ensures node.parent == temp && temp in old(Snap(ns - {node}))
      ensures Snap(ns) == Relink(old(Snap(ns - {node})), r.p, node)[node := Cell(sentinel, sentinel, temp, Red)]
    {
      ghost var m := Snap(ns - {node});
      assert temp in m.Keys;
      AttachHolds(m, r, sentinel, node);
      ghost var m' := Relink(m, r.p, node)[node := Cell(sentinel, sentinel, temp, Red)];
      hide Holds, Linked, PathLinked, Nodes, PathNodes;
      if goRight {
        temp.right := node;
      } else {
        temp.left := node;
      }
      node.parent := temp;
      node.left := sentinel;
      node.right := sentinel;
      node.color := Red;
      SnapIs(ns, m');
    }

    /** Lines 18-26: the first node becomes a black root with no parent. */
    method InsertFirst(node: RbNode)
      requires Insertable() && shape.Leaf? && node != sentinel && Comparable(policy, node.Rec())
      modifies this`root, this`shape, node`left, node`right, node`parent, node`color
      ensures Valid() && Inorder(shape) == [node] && Nodes(shape) == {node} && root == node && node.parent == null
    {
      node.parent := null;
      node.left := sentinel;
      node.right := sentinel;
      node.color := Black;
      root := node;
      shape := Node(Black, Leaf, node, Leaf);
      assert Inorder(shape) == [node] && Nodes(shape) == {node};
      assert Linked(Leaf, sentinel, node, sentinel, Snap({node}));
      assert Linked(shape, node, null, sentinel, Snap({node}));
      assert Balanced(shape) && NoRedRed(shape);
    }

    /** Lines 35-81: rebalance, then blacken the root. */
    method RebalanceAll(node: RbNode, ghost r: Site, ghost ns: set<RbNode>)
      requires Region(r) == ns && Holds(Snap(ns), r, sentinel) && CanRise(r.t, r.p)
      requires r.ptr == node && r.parent == node.parent && r.root == root && sentinel.color.Black?
      modifies this`root, this`shape, ns`left, ns`right, ns`parent, ns`color
      ensures Nodes(shape) == ns && Holds(Snap(ns), Whole(shape, root), sentinel) && sentinel.color.Black?
      ensures ColorOf(shape).Black? && Inorder(shape) == Inorder(Plug(r.t, r.p))
      ensures AlmostRedBlack(r.t, r.p) ==> RedBlack(shape)
      ensures root.parent == old(root.parent)
    {
      hide Holds, Linked, PathLinked, AlmostRedBlack, CanRise, Nodes, PathNodes;
      ghost var z := Rebalance(node, r, ns);
      SettledTree(z.t, z.p);
      PlugWhole(ns, z, root, sentinel);
      ghost var t := Plug(z.t, z.p);
      assert t.item == root;
      SetColor(root, Black, Whole(t, root), ns);
      shape := Paint(t, Black);
      WholeRegion(shape, root);
    }

    /** rbtree_insert. The callback either overwrites a duplicate and returns the data it displaced, or splices
        the node into the in-order sequence at `k`, after everything it passes on the right and before
        everything it passes on the left. Only the KeyValue callback returns anything; what line 30 finds after
        the others is `leftover`. If that is NULL the tree is rebalanced; if not, the insertion ends at once. */
    method Insert(node: RbNode, leftover: Option<seq<byte>>)
      returns (ret: Option<seq<byte>>, ghost displaced: Option<seq<byte>>, ghost k: nat)
      requires Insertable() && node !in Nodes(shape) && node != sentinel && Comparable(policy, node.Rec())
      modifies this`root, this`shape
      modifies node`left, node`right, node`parent, node`color
      modifies Nodes(shape)`left, Nodes(shape)`right, Nodes(shape)`parent, Nodes(shape)`color
      modifies Nodes(shape)`len, Nodes(shape)`data
      ensures Insertable() && Nodes(shape) == old(Nodes(shape)) + (if displaced.None? then {node} else {})
      ensures InsertStep(policy, old(Inorder(shape)), old(LabelsOf(Nodes(shape))), node, node.Rec(), k, displaced,
                         Inorder(shape), LabelsOf(Nodes(shape)))
      ensures ret == if policy.KeyValue? then displaced else if old(shape.Leaf?) then None else leftover
      ensures displaced.Some? ==>
        && shape == old(shape) && root == old(root)
        && Snap(Nodes(shape)) == old(Snap(Nodes(shape)))
      ensures old(RedBlack(shape)) && (policy.KeyValue? || ret.None?) ==> Valid()
      ensures old(RedBlack(shape)) && !policy.KeyValue? && ret.Some? ==>
        node.parent != null && (Valid() <==> node.parent.color.Black?)
      ensures root.parent == old(if shape.Leaf? then null else root.parent)
    {
      if root == sentinel {
        InsertFirst(node);
        ret, displaced, k := None, None, 0;
        return;
      }
      ret, displaced, k := InsertBelow(node, leftover);
    }

    /** Lines 28-82. */
    method InsertBelow(node: RbNode, leftover: Option<seq<byte>>)
      returns (ret: Option<seq<byte>>, ghost displaced: Option<seq<byte>>, ghost k: nat)
      requires Insertable() && shape.Node? && node !in Nodes(shape) && node != sentinel
          && Comparable(policy, node.Rec())
      modifies this`root, this`shape
      modifies node`left, node`right, node`parent, node`color
      modifies Nodes(shape)`left, Nodes(shape)`right, Nodes(shape)`parent, Nodes(shape)`color
      modifies Nodes(shape)`len, Nodes(shape)`data
      ensures Insertable() && Nodes(shape) == old(Nodes(shape)) + (if displaced.None? then {node} else {})
      ensures InsertStep(policy, old(Inorder(shape)), old(LabelsOf(Nodes(shape))), node, node.Rec(), k, displaced,
                         Inorder(shape), LabelsOf(Nodes(shape)))
      ensures ret == if policy.KeyValue? then displaced else leftover
      ensures displaced.Some? ==>
        && shape == old(shape) && root == old(root)
        && Snap(Nodes(shape)) == old(Snap(Nodes(shape)))
      ensures old(RedBlack(shape)) && (policy.KeyValue? || ret.None?) ==> RedBlack(shape)
      ensures old(RedBlack(shape)) && !policy.KeyValue? && ret.Some? ==>
        node.parent != null && (RedBlack(shape) <==> node.parent.color.Black?)
      ensures root.parent == old(root.parent)
    {
      ghost var ns, lab, was := Nodes(shape) + {node}, LabelsOf(Nodes(shape)), Inorder(shape);
      hide Holds, Linked, PathLinked, Ordered, AllTurn, Nodes, PathNodes, RedBlack, Balanced, NoRedRed;
      hide Inorder, Plug, Region;
      hide Passed, Spliced, AlmostRedBlack, CanRise, ColorOf, LabelsOf, Snap, Comparable, Whole, Rank, InsertStep;
      ghost var r;
      ret, r := InsertValue(node, ns);
      displaced, k := ret, if ret.Some? then Rank(r.t, r.p) else |Before(r.p)|;
      if ret.Some? {
        ItemAt(r.t, r.p, shape);
        OverwriteStep(policy, was, lab, node, node.Rec(), k);
      } else {
        SplicedStep(policy, was, lab, node, node.Rec(), k, Inorder(Plug(r.t, r.p)));
        LeafRises(r.p, node, shape);
        Hangs(ns, r, sentinel);
      }
      if !policy.KeyValue? {
        ret := leftover;
      }
      if ret.Some? {
        if displaced.None? {
          AboveHole(ns, r, sentinel);
          shape := Plug(r.t, r.p);
        }
        return;
      }
      RebalanceAll(node, r, ns);
    }

    // ---------- rbtree_delete ----------

    /** `temp` is the focus: a node of the tree, or the sentinel with its parent pointer set. */
    ghost predicate Focused(temp: RbNode, z: Site, ns: set<RbNode>)
      reads this`root, this`sentinel, temp`parent, ns`left, ns`right, ns`parent, ns`color
    {
      && Region(z) == ns && Holds(Snap(ns), z, sentinel)
      && z.ptr == temp && z.parent == temp.parent && z.root == root
    }

    lemma FocusedIs(temp: RbNode, z: Site, ns: set<RbNode>)
      requires Focused(temp, z, ns)
      ensures sentinel !in ns && Region(z) == ns && Holds(Snap(ns), z, sentinel)
      ensures z.ptr == temp && z.parent == temp.parent && z.root == root
      ensures z.t.Node? ==> temp in ns && temp.color == z.t.color && temp == z.t.item
      ensures temp == root <==> z.p.Top?
      ensures temp == PtrTo(z.t, sentinel)
    {
      FocusIs(ns, z, sentinel);
    }

    /** Lines 253-255 and 284-286: a red sibling turns black and is rotated above the parent. `left` is the
        side of `temp`. */
    method Sink(temp: RbNode, w: RbNode, left: bool, ghost z: Site, ghost ns: set<RbNode>) returns (ghost r: Site)
      requires Focused(temp, z, ns) && CanSink(z.p) && left == z.p.InLeft? && w == z.p.sibling.item
      modifies this`root, ns`left, ns`right, ns`parent, ns`color
      ensures Focused(temp, r, ns) && r.t == z.t && r.p == Sunk(z.p)
      ensures root.parent == old(root.parent)
    {
      hide Holds, Linked, PathLinked, Sep, SepPath, Nodes, PathNodes, Snap;
      FocusIs(ns, z, sentinel);
      GoUp(ns, z, sentinel);
      r := UpSite(z, z.p.item.parent);
      GoDown(ns, r, sentinel, !left);
      r := DownSite(r, !left, if left then r.t.item.right else r.t.item.left);
      SetColor(w, Black, r, ns);
      r := r.(t := Paint(r.t, Black));
      GoUp(ns, r, sentinel);
      r := UpSite(r, r.p.item.parent);
      SetColor(temp.parent, Red, r, ns);
      r := r.(t := Paint(r.t, Red));
      Rotate(temp.parent, left, r, ns);
      r := Site(Rotated(r.t, left), r.p, Rotated(r.t, left).item, r.parent, root);
      GoDown(ns, r, sentinel, left);
      r := DownSite(r, left, if left then r.t.item.left else r.t.item.right);
      GoDown(ns, r, sentinel, left);
      r := DownSite(r, left, if left then r.t.item.left else r.t.item.right);
    }

    /** Lines 260-261 and 291-292: a black sibling with black children turns red, and the parent is the focus. */
    method Bleed(temp: RbNode, w: RbNode, ghost z: Site, ghost ns: set<RbNode>) returns (up: RbNode, ghost r: Site)
      requires Focused(temp, z, ns) && CanSink(z.p) && w == z.p.sibling.item
      modifies ns`color
      ensures Focused(up, r, ns) && r.t == Bled(z.t, z.p) && r.p == z.p.up
    {
      hide Holds, Linked, PathLinked, Sep, SepPath, Nodes, PathNodes, Snap;
      FocusIs(ns, z, sentinel);
      ghost var left := z.p.InLeft?;
      GoUp(ns, z, sentinel);
      r := UpSite(z, z.p.item.parent);
      GoDown(ns, r, sentinel, !left);
      r := DownSite(r, !left, if left then r.t.item.right else r.t.item.left);
      SetColor(w, Red, r, ns);
      r := r.(t := Paint(r.t, Red));
      GoUp(ns, r, sentinel);
      r := UpSite(r, r.p.item.parent);
      up := temp.parent;
    }

    /** Lines 266-268 and 297-299: the red near child of the sibling is rotated above it. */
    method Straighten(temp: RbNode, w: RbNode, left: bool, ghost z: Site, ghost ns: set<RbNode>) returns (ghost r: Site)
      requires Focused(temp, z, ns) && CanStraighten(z.p) && left == z.p.InLeft? && w == z.p.sibling.item
      modifies this`root, ns`left, ns`right, ns`parent, ns`color
      ensures Focused(temp, r, ns) && r.t == z.t && r.p == Straightened(z.p)
      ensures root.parent == old(root.parent)
    {
      hide Holds, Linked, PathLinked, Sep, SepPath, Nodes, PathNodes, Snap;
      FocusIs(ns, z, sentinel);
      GoUp(ns, z, sentinel);
      r := UpSite(z, z.p.item.parent);
      GoDown(ns, r, sentinel, !left);
      r := DownSite(r, !left, if left then r.t.item.right else r.t.item.left);
      GoDown(ns, r, sentinel, left);
      r := DownSite(r, left, if left then r.t.item.left else r.t.item.right);
      SetColor(if left then w.left else w.right, Black, r, ns);
      r := r.(t := Paint(r.t, Black));
      GoUp(ns, r, sentinel);
      r := UpSite(r, r.p.item.parent);
      SetColor(w, Red, r, ns);
      r := r.(t := Paint(r.t, Red));
      Rotate(w, !left, r, ns);
      r := Site(Rotated(r.t, !left), r.p, Rotated(r.t, !left).item, r.parent, root);
      GoUp(ns, r, sentinel);
      r := UpSite(r, r.p.item.parent);
      GoDown(ns, r, sentinel, left);
      r := DownSite(r, left, if left then r.t.item.left else r.t.item.right);
    }

    /** Lines 272-276 and 303-307: the sibling takes the parent's place and colour, and the loop is over. */
    method Fix(temp: RbNode, w: RbNode, left: bool, ghost z: Site, ghost ns: set<RbNode>)
      returns (top: RbNode, ghost r: Site)
      requires Focused(temp, z, ns) && CanSink(z.p) && left == z.p.InLeft? && w == z.p.sibling.item
      requires Side(z.p.sibling, !left).Node?
      modifies this`root, ns`left, ns`right, ns`parent, ns`color
      ensures Focused(top, r, ns) && r.t == Plug(Fixed(z.t, z.p), z.p.up) && r.p == Top
      ensures root.parent == old(root.parent)
    {
      hide Holds, Linked, PathLinked, Sep, SepPath, Nodes, PathNodes, Snap, Plug;
      FocusIs(ns, z, sentinel);
      GoUp(ns, z, sentinel);
      r := UpSite(z, z.p.item.parent);
      FocusIs(ns, r, sentinel);
      GoDown(ns, r, sentinel, !left);
      r := DownSite(r, !left, if left then r.t.item.right else r.t.item.left);
      SetColor(w, temp.parent.color, r, ns);
      r := r.(t := Paint(r.t, z.p.color));
      GoUp(ns, r, sentinel);
      r := UpSite(r, r.p.item.parent);
      SetColor(temp.parent, Black, r, ns);
      r := r.(t := Paint(r.t, Black));
      GoDown(ns, r, sentinel, !left);
      r := DownSite(r, !left, if left then r.t.item.right else r.t.item.left);
      GoDown(ns, r, sentinel, !left);
      r := DownSite(r, !left, if left then r.t.item.right else r.t.item.left);
      SetColor(if left then w.right else w.left, Black, r, ns);
      r := r.(t := Paint(r.t, Black));
      GoUp(ns, r, sentinel);
      r := UpSite(r, r.p.item.parent);
      GoUp(ns, r, sentinel);
      r := UpSite(r, r.p.item.parent);
      Rotate(temp.parent, left, r, ns);
      r := Site(Rotated(r.t, left), r.p, Rotated(r.t, left).item, r.parent, root);
      assert r.t == Fixed(z.t, z.p);
      PlugWhole(ns, r, root, sentinel);
      r := Whole(Plug(r.t, r.p), root);
      top := root;
    }

    /** Lines 249-309: one round of the fix-up, for either side `temp` may be on. */
    method FixRound(temp: RbNode, ghost z: Site, ghost ns: set<RbNode>) returns (next: RbNode, ghost r: Site)
      requires Focused(temp, z, ns) && Deficit(z.t, z.p) && !z.p.Top? && ColorOf(z.t).Black? && sentinel.color.Black?
      modifies this`root, ns`left, ns`right, ns`parent, ns`color
      ensures Focused(next, r, ns) && Deficit(r.t, r.p) && sentinel.color.Black?
      ensures Size(r.p) < Size(z.p) || (Size(r.p) == Size(z.p) && ColorOf(r.t).Red?)
      ensures Inorder(Plug(r.t, r.p)) == Inorder(Plug(z.t, z.p))
      ensures root.parent == old(root.parent)
    {
      HasSibling(z.t, z.p);
      FocusIs(ns, z, sentinel);
      SeesSibling(ns, z, sentinel);
      hide Holds, Linked, PathLinked, Sep, SepPath, Nodes, PathNodes, Region, Snap, Deficit, Inorder, Plug, Sunk;
      r := z;
      var left := temp == temp.parent.left;
      var w := if left then temp.parent.right else temp.parent.left;
      if w.color.Red? {
        SunkKeeps(z.t, z.p);
        r := Sink(temp, w, left, z, ns);
        SeesSibling(ns, r, sentinel);
        w := if left then temp.parent.right else temp.parent.left;
      }
      next, r := FixBlack(temp, w, left, r, ns);
    }

    /** Lines 259-277 and 290-308: the sibling is black. */
    method FixBlack(temp: RbNode, sibling: RbNode, left: bool, ghost z: Site, ghost ns: set<RbNode>)
      returns (next: RbNode, ghost r: Site)
      requires Focused(temp, z, ns) && Deficit(z.t, z.p) && CanSink(z.p) && ColorOf(z.t).Black? && sentinel.color.Black?
      requires left == z.p.InLeft? && sibling == z.p.sibling.item && z.p.sibling.color.Black?
      modifies this`root, ns`left, ns`right, ns`parent, ns`color
      ensures Focused(next, r, ns) && Deficit(r.t, r.p) && sentinel.color.Black?
      ensures r.p.Top? || (Size(r.p) + 1 == Size(z.p) && ColorOf(r.t) == z.p.color)
      ensures Inorder(Plug(r.t, r.p)) == Inorder(Plug(z.t, z.p))
      ensures root.parent == old(root.parent)
    {
      FixKeeps(z.t, z.p);
      FocusIs(ns, z, sentinel);
      SeesSibling(ns, z, sentinel);
      hide Holds, Linked, PathLinked, Sep, SepPath, Nodes, PathNodes, Region, Snap, Deficit, Inorder, Plug;
      hide Bled, Straightened, Fixed;
      r := z;
      var w := sibling;
      if w.left.color.Black? && w.right.color.Black? {
        next, r := Bleed(temp, w, r, ns);
      } else {
        if (if left then w.right else w.left).color.Black? {
          r := Straighten(temp, w, left, r, ns);
          SeesSibling(ns, r, sentinel);
          w := if left then temp.parent.right else temp.parent.left;
        }
        next, r := Fix(temp, w, left, r, ns);
      }
    }

    /** Line 312: rbt_black(temp), which may be the sentinel. */
    method Blacken(temp: RbNode, ghost z: Site, ghost ns: set<RbNode>) returns (ghost r: Site)
      requires Focused(temp, z, ns) && sentinel.color.Black?
      modifies temp`color
      ensures sentinel.color.Black? && Focused(temp, r, ns) && r == if z.t.Node? then z.(t := Paint(z.t, Black)) else z
    {
      hide Holds, Nodes, PathNodes;
      FocusedIs(temp, z, ns);
      ghost var m := Snap(ns);
      r := z;
      if z.t.Node? {
        RepaintHolds(m, z, sentinel, Black);
        r := z.(t := Paint(z.t, Black));
        m := m[temp := m[temp].(color := Black)];
      }
      temp.color := Black;
      SnapIs(ns, m);
    }

    /** Line 312 as the end of the fix-up. */
    method PayOff(temp: RbNode, ghost z: Site, ghost ns: set<RbNode>)
      requires Focused(temp, z, ns) && Deficit(z.t, z.p) && (z.p.Top? || ColorOf(z.t).Red?) && sentinel.color.Black?
      modifies this`shape, temp`color
      ensures Nodes(shape) == ns && Holds(Snap(ns), Whole(shape, root), sentinel) && sentinel.color.Black?
      ensures RedBlack(shape) && Inorder(shape) == Inorder(Plug(z.t, z.p))
    {
      hide Focused, Holds, Deficit, Inorder;
      PaidOff(z.t, z.p);
      ghost var r := Blacken(temp, z, ns);
      FocusedIs(temp, r, ns);
      if z.t.Node? {
        PlugWhole(ns, r, root, sentinel);
        shape := Plug(r.t, r.p);
      } else {
        shape := Leaf;
        LeafHolds(Snap(ns), z, Whole(shape, root), sentinel);
      }
    }

    /** Lines 247-312: the fix-up loop, and rbt_black(temp). */
    method Fixup(start: RbNode, ghost z: Site, ghost ns: set<RbNode>)
      requires Focused(start, z, ns) && Deficit(z.t, z.p) && sentinel.color.Black?
      modifies this`root, this`shape, ns`left, ns`right, ns`parent, ns`color, sentinel`color
      ensures Nodes(shape) == ns && Holds(Snap(ns), Whole(shape, root), sentinel) && sentinel.color.Black?
      ensures RedBlack(shape) && Inorder(shape) == Inorder(Plug(z.t, z.p))
      ensures root.parent == old(root.parent)
    {
      var temp := start;
      ghost var r := z;
      FocusIs(ns, r, sentinel);
      hide Holds, Linked, PathLinked, Sep, SepPath, Nodes, PathNodes, Region, Snap, Deficit, Inorder, Plug;
      while temp != root && temp.color.Black?
        invariant Focused(temp, r, ns) && Deficit(r.t, r.p) && sentinel.color.Black? && root.parent == old(root.parent)
        invariant Inorder(Plug(r.t, r.p)) == Inorder(Plug(z.t, z.p))
        decreases Size(r.p), Weight(ColorOf(r.t))
      {
        FocusIs(ns, r, sentinel);
        temp, r := FixRound(temp, r, ns);
      }
      FocusIs(ns, r, sentinel);
      PayOff(temp, r, ns);
    }

    /** Lines 151-169: the node to unlink, which has one child at most, and that child. */
    method Choose(node: RbNode, ghost z: Site, ghost ns: set<RbNode>)
      returns (subst: RbNode, temp: RbNode, ghost y: Site)
      requires Focused(node, z, ns) && z.t.Node?
      ensures Focused(subst, y, ns) && OnlyChild(y.t, Unlinked(z.t, z.p).0)
      ensures temp == PtrTo(Unlinked(z.t, z.p).0, sentinel) && y.t.color == LostColor(z.t)
      ensures if z.t.left.Leaf? || z.t.right.Leaf? then y == z
              else (y.t, y.p) == LeftSpine(z.t.right, InRight(z.t.color, z.t.left, z.t.item, z.p))
    {
      hide Holds, Linked, PathLinked, Sep, SepPath, Nodes, PathNodes, Region, Snap;
      FocusIs(ns, z, sentinel);
      GoDown(ns, z, sentinel, true);
      GoDown(ns, z, sentinel, false);
      y := z;
      if node.left == sentinel {
        temp := node.right;
        subst := node;
      } else if node.right == sentinel {
        temp := node.left;
        subst := node;
      } else {
        subst, y := Min(node.right, sentinel, DownSite(z, false, node.right), ns);
        SpineSameItem(z.t.right, z.p, y.p);
        SpineSameItem(z.t.right, z.p, InRight(z.t.color, z.t.left, node, z.p));
        SpineSameItem(z.t.right, z.p, Top);
        FocusIs(ns, y, sentinel);
        GoDown(ns, y, sentinel, true);
        GoDown(ns, y, sentinel, false);
        assert subst.left == sentinel; // so line 165 is never reached
        temp := subst.right;
      }
    }

    /** Lines 186-192 (and keyvalue.c:116-119), on memory: the slot that holds `subst` now holds `temp`. */
    method CutAbove(subst: RbNode, temp: RbNode, ghost p: Path<RbNode>, ghost ns: set<RbNode>)
      requires !p.Top? && p.item in ns && subst.parent == p.item && (p.InLeft? <==> p.item.left == subst)
      modifies p.item`left, p.item`right
      ensures p.item in old(Snap(ns)) && Snap(ns) == Relink(old(Snap(ns)), p, temp)
    {
      ghost var m := Snap(ns);
      if subst == subst.parent.left {
        subst.parent.left := temp;
      } else {
        subst.parent.right := temp;
      }
      SnapIs(ns, Relink(m, p, temp));
    }

    /** Lines 194-206, on memory. */
    method SetParent(temp: RbNode, up: RbNode, ghost k: Tree<RbNode>, ghost ns: set<RbNode>)
      requires temp == PtrTo(k, sentinel) && sentinel !in ns && (k.Node? ==> k.item in ns)
      modifies temp`parent
      ensures temp.parent == up && (k.Node? ==> k.item in old(Snap(ns)))
      ensures Snap(ns) == Reparented(old(Snap(ns)), k, up)
    {
      ghost var m := Snap(ns);
      temp.parent := up;
      SnapIs(ns, Reparented(m, k, up));
    }

    /** Lines 186-206: the slot above `subst` and the parent pointer of `temp`, be it the sentinel's. */
    method UnlinkNode(subst: RbNode, temp: RbNode, up: RbNode, ghost y: Site, ghost k: Tree<RbNode>,
                      ghost ns: set<RbNode>)
      requires Focused(subst, y, ns) && !y.p.Top? && OnlyChild(y.t, k) && temp == PtrTo(k, sentinel)
      modifies ns`left, ns`right, temp`parent
      ensures temp.parent == up && root.parent == old(root.parent)
      ensures y.p.item in old(Snap(ns)) && (k.Node? ==> k.item in old(Snap(ns)))
      ensures Snap(ns) == Reparented(Relink(old(Snap(ns)), y.p, temp), k, up)
    {
      Hangs(ns, y, sentinel);
      FocusIs(ns, y, sentinel);
      ChildIsIn(ns, y, k);
      RootIsNotBelow(Snap(ns), y, k, sentinel);
      hide Holds, Linked, PathLinked, Sep, SepPath, Nodes, PathNodes, Region, Snap;
      CutAbove(subst, temp, y.p, ns);
      SetParent(temp, up, k, ns);
    }

    /** Lines 208-211. */
    method CopyLinks(node: RbNode, subst: RbNode, ghost ns: set<RbNode>)
      requires node in ns && subst in ns
      modifies subst`left, subst`right, subst`parent, subst`color
      ensures node in old(Snap(ns)) && Snap(ns) == old(Snap(ns))[subst := old(Snap(ns))[node]]
    {
      ghost var m := Snap(ns);
      subst.left := node.left;
      subst.right := node.right;
      subst.parent := node.parent;
      subst.color := node.color;
      SnapIs(ns, m[subst := m[node]]);
    }

    /** Lines 213-224, on memory. */
    method Relinked(node: RbNode, subst: RbNode, ghost z: Site, ghost ns: set<RbNode>)
      requires node == root <==> z.p.Top?
      requires !z.p.Top? ==> z.p.item in ns && node.parent == z.p.item
                             && (z.p.InLeft? <==> z.p.item.left == node) && (z.p.InRight? <==> z.p.item.right == node)
      modifies this`root, ns`left, ns`right
      ensures root == NewRoot(z.p, subst, old(root)) && (!z.p.Top? ==> z.p.item in old(Snap(ns)))
      ensures Snap(ns) == Relink(old(Snap(ns)), z.p, subst)
    {
      ghost var m := Snap(ns);
      ReplaceChild(node, subst, z.p);
      SnapIs(ns, Relink(m, z.p, subst));
    }

    /** Lines 226-232. */
    method AdoptChildren(subst: RbNode, ghost t: Tree<RbNode>, ghost ns: set<RbNode>)
      requires t.Node? && subst.left == PtrTo(t.left, sentinel) && subst.right == PtrTo(t.right, sentinel)
      requires t.left.Node? ==> t.left.item in ns && t.left.item != sentinel
      requires t.right.Node? ==> t.right.item in ns && t.right.item != sentinel
      modifies ns`parent
      ensures (t.left.Node? ==> t.left.item in old(Snap(ns))) && (t.right.Node? ==> t.right.item in old(Snap(ns)))
      ensures Snap(ns) == Reparented(Reparented(old(Snap(ns)), t.left, subst), t.right, subst)
    {
      ghost var m := Snap(ns);
      if subst.left != sentinel {
        subst.left.parent := subst;
      }
      if subst.right != sentinel {
        subst.right.parent := subst;
      }
      SnapIs(ns, Reparented(Reparented(m, t.left, subst), t.right, subst));
    }

    /** Lines 208-232: `subst` takes the place, the children and the colour of `node`. `m` is memory as it
        was, but for the parent pointer of the right child, which is overwritten. */
    method TakePlace(node: RbNode, subst: RbNode, ghost m: Memory, ghost z: Site, ghost ns: set<RbNode>)
      requires Holds(m, z, sentinel) && z.t.Node? && z.t.item == node && z.root == root
      requires subst in m && subst !in Region(z) && subst != sentinel && m.Keys == ns
      requires SameButParent(m, Snap(ns), z.t.right)
      modifies this`root, ns`left, ns`right, ns`parent, subst`color
      ensures node in m && (!z.p.Top? ==> z.p.item in m)
      ensures (z.t.left.Node? ==> z.t.left.item in m) && (z.t.right.Node? ==> z.t.right.item in m)
      ensures Snap(ns) == ReplaceStores(m, z.t, z.p, subst) && root == NewRoot(z.p, subst, old(root))
      ensures root.parent == old(root.parent)
    {
      hide Holds, Linked, PathLinked, Sep, SepPath, Nodes, PathNodes, Region, Snap, SameButParent;
      PlaceSees(ns, m, z, sentinel, subst);
      SnapReads(ns, node);
      CopyLinks(node, subst, ns);
      Relinked(node, subst, z, ns);
      SnapReads(ns, subst);
      AdoptChildren(subst, z.t, ns);
      SnapReads(ns, root);
    }

    /** Lines 186-196 when the node itself is unlinked. */
    method SpliceSelf(node: RbNode, temp: RbNode, ghost z: Site, ghost k: Tree<RbNode>, ghost ns: set<RbNode>)
      returns (ghost r: Site)
      requires Focused(node, z, ns) && !z.p.Top? && OnlyChild(z.t, k) && temp == PtrTo(k, sentinel)
      modifies ns`left, ns`right, temp`parent
      ensures r == Site(k, z.p, temp, z.parent, root) && temp.parent == z.parent
      ensures Holds(Snap(ns), r, sentinel) && Region(r) == ns - {node}
      ensures root.parent == old(root.parent)
    {
      FocusIs(ns, z, sentinel);
      ghost var m := Snap(ns);
      hide Holds, Linked, PathLinked, Sep, SepPath, Nodes, PathNodes, Region, Snap;
      UnlinkNode(node, temp, node.parent, z, k, ns);
      UnlinkHolds(m, z, sentinel, k);
      r := Site(k, z.p, temp, z.parent, root);
    }

    /** Lines 186-206 when the next node in order is unlinked. Memory is then as in `m`, which holds the rest
        of the tree, but for a parent pointer that is about to be overwritten. */
    method UnlinkNext(node: RbNode, subst: RbNode, temp: RbNode, ghost z: Site, ghost y: Site, ghost ns: set<RbNode>)
      returns (ghost m: Memory, ghost x: Site)
      requires Focused(node, z, ns) && Focused(subst, y, ns) && IsNext(y, z) && temp == PtrTo(y.t.right, sentinel)
      modifies ns`left, ns`right, temp`parent
      ensures Holds(m, x, sentinel) && m.Keys == ns && Region(x) == ns - {subst} && subst in ns - {node, sentinel}
      ensures x.t == z.t.(right := WithoutFirst(z.t.right)) && x.t.item == node && x.p == z.p && x.root == root
      ensures SameButParent(m, Snap(ns), x.t.right)
      ensures subst == LeftSpine(z.t.right, z.p).0.item && Unlinked(z.t, z.p).0 == y.t.right && sentinel !in ns
      ensures if z.t.right.left.Leaf? then temp.parent == subst
              else !LeftSpine(z.t.right, z.p).1.Top? && temp.parent == LeftSpine(z.t.right, z.p).1.item
      ensures root.parent == old(root.parent)
    {
      FocusIs(ns, z, sentinel);
      FocusIs(ns, y, sentinel);
      NextReads(ns, z, y, sentinel);
      ghost var was, k := Snap(ns), y.t.right;
      assert was.Keys == ns;
      hide Holds, Linked, PathLinked, Sep, SepPath, Nodes, PathNodes, Snap, Unlinked, LeftSpine;
      hide UnlinkStores, Relink, Reparented, SameButParent, WithoutFirst;
      var up := if subst.parent == node then subst else subst.parent;
      UnlinkNode(subst, temp, up, y, k, ns);
      m := UnlinkStores(was, k, y.p, y.parent, sentinel);
      x := NextUnlinked(was, y, z, sentinel);
      UpOrDown(was, Snap(ns), k, y, up, z.t.right, sentinel);
    }

    /** Lines 186-232 when the next node in order is unlinked and takes the place of `node`. */
    method SpliceNext(node: RbNode, subst: RbNode, temp: RbNode, ghost z: Site, ghost y: Site, ghost ns: set<RbNode>)
      returns (ghost r: Site)
      requires Focused(node, z, ns) && Focused(subst, y, ns) && IsNext(y, z) && temp == PtrTo(y.t.right, sentinel)
      modifies this`root, ns`left, ns`right, ns`parent, temp`parent, subst`color
      ensures (r.t, r.p) == Unlinked(z.t, z.p) && !r.p.Top? && r.ptr == temp && r.root == root
          && temp.parent == r.parent
      ensures Holds(Snap(ns), r, sentinel) && Region(r) == ns - {node}
      ensures root.parent == old(root.parent)
    {
      hide Holds, Linked, PathLinked, Sep, SepPath, Nodes, PathNodes, Snap, Unlinked, LeftSpine, Region;
      hide ReplaceStores, SameButParent, WithoutFirst;
      ghost var m, x := UnlinkNext(node, subst, temp, z, y, ns);
      TakePlace(node, subst, m, x, ns);
      ReplaceHolds(m, x, sentinel, subst);
      r := NextPlaced(Snap(ns), Site(x.t.(item := subst), x.p, subst, x.parent, root), z, subst, sentinel);
      assert ns - {subst} - {node} + {subst} == ns - {node};
      if r.t.Node? {
        SnapReads(ns, temp);
      }
    }

    /** Lines 235-239: the fields of the deleted node are cleared. */
    method Forget(node: RbNode, ghost z: Site, ghost ns: set<RbNode>)
      requires Holds(Snap(ns), z, sentinel) && node !in ns
      modifies node`left, node`right, node`parent, node`key
      ensures node.left == null && node.right == null && node.parent == null && node.key == 0
      ensures Holds(Snap(ns), z, sentinel)
    {
      node.left := null;
      node.right := null;
      node.parent := null;
      node.key := 0;
    }

    /** Lines 171-182: the root has one child at most, which becomes the black root. Its parent pointer is
        left as it was. */
    method DeleteRoot(node: RbNode, temp: RbNode, ghost z: Site, ghost k: Tree<RbNode>, ghost ns: set<RbNode>)
      requires Focused(node, z, ns) && z.p.Top? && OnlyChild(z.t, k) && temp == PtrTo(k, sentinel)
      requires Deficit(k, Top) && sentinel.color.Black?
      modifies this`root, this`shape, temp`color, node`left, node`right, node`parent, node`key
      ensures Nodes(shape) == ns - {node} && Holds(Snap(ns - {node}), Whole(shape, root), sentinel)
          && sentinel.color.Black?
      ensures RedBlack(shape) && Inorder(shape) == Inorder(k)
      ensures node.left == null && node.right == null && node.parent == null && node.key == 0
      ensures root != sentinel ==> root.parent == node
    {
      ghost var r := RootGone(ns, z, sentinel, k, temp.parent);
      root := temp;
      hide Holds, Linked, PathLinked, Sep, SepPath, PathNodes, Deficit, Inorder, Snap;
      PayOff(temp, r, ns - {node});
      Forget(node, Whole(shape, root), ns - {node});
      assert Nodes(shape) == ns - {node};
    }

    /** Lines 186-239: the node leaves the tree, and its fields are cleared. */
    method Splice(node: RbNode, subst: RbNode, temp: RbNode, ghost z: Site, ghost y: Site, ghost ns: set<RbNode>)
      returns (ghost r: Site)
      requires Focused(node, z, ns) && Focused(subst, y, ns) && !y.p.Top?
      requires z.t.Node? && temp == PtrTo(Unlinked(z.t, z.p).0, sentinel) && OnlyChild(y.t, Unlinked(z.t, z.p).0)
      requires if z.t.left.Leaf? || z.t.right.Leaf? then y == z else IsNext(y, z)
      modifies this`root, ns`left, ns`right, ns`parent, temp`parent, subst`color, node`key
      ensures Focused(temp, r, ns - {node}) && (r.t, r.p) == Unlinked(z.t, z.p) && !r.p.Top?
      ensures node.left == null && node.right == null && node.parent == null && node.key == 0
      ensures root.parent == old(root.parent)
    {
      FocusIs(ns, z, sentinel);
      if y != z {
        NextReads(ns, z, y, sentinel);
      }
      hide Holds, Linked, PathLinked, Sep, SepPath, Nodes, PathNodes, Snap, Region, LeftSpine;
      if subst == node {
        r := SpliceSelf(node, temp, z, Unlinked(z.t, z.p).0, ns);
      } else {
        r := SpliceNext(node, subst, temp, z, y, ns);
      }
      Shrinks(ns, node, r, sentinel);
      Forget(node, r, ns - {node});
    }

    /** Lines 241-312: a red node leaves nothing to repair. */
    method Repair(red: bool, temp: RbNode, ghost r: Site, ghost ns: set<RbNode>)
      requires Focused(temp, r, ns) && !r.p.Top? && sentinel.color.Black?
      requires if red then RedBlack(Plug(r.t, r.p)) else Deficit(r.t, r.p)
      modifies this`root, this`shape, ns`left, ns`right, ns`parent, ns`color, sentinel`color
      ensures Nodes(shape) == ns && Holds(Snap(ns), Whole(shape, root), sentinel) && sentinel.color.Black?
      ensures RedBlack(shape) && Inorder(shape) == Inorder(Plug(r.t, r.p))
      ensures root.parent == old(root.parent)
    {
      hide Holds, Linked, PathLinked, Sep, SepPath, Nodes, PathNodes, Snap, Deficit, Inorder, RedBlack, Region;
      if red {
        AboveHole(ns, r, sentinel);
        shape := Plug(r.t, r.p);
        return;
      }
      Fixup(temp, r, ns);
    }

    /** Lines 184-312: all but the case of the root. */
    method DeleteBelow(node: RbNode, subst: RbNode, temp: RbNode, ghost z: Site, ghost y: Site, ghost ns: set<RbNode>)
      requires Focused(node, z, ns) && Focused(subst, y, ns) && !y.p.Top?
      requires z.t.Node? && temp == PtrTo(Unlinked(z.t, z.p).0, sentinel) && OnlyChild(y.t, Unlinked(z.t, z.p).0)
      requires if z.t.left.Leaf? || z.t.right.Leaf? then y == z else IsNext(y, z)
      requires var (k, q) := Unlinked(z.t, z.p); if y.t.color.Red? then RedBlack(Plug(k, q)) else Deficit(k, q)
      requires sentinel.color.Black?
      modifies this`root, this`shape, ns`left, ns`right, ns`parent, ns`color, sentinel`parent, sentinel`color, node`key
      ensures Nodes(shape) == ns - {node} && Holds(Snap(ns - {node}), Whole(shape, root), sentinel)
          && sentinel.color.Black?
      ensures RedBlack(shape) && Inorder(shape) == Inorder(Plug(Unlinked(z.t, z.p).0, Unlinked(z.t, z.p).1))
      ensures node.left == null && node.right == null && node.parent == null && node.key == 0
      ensures root.parent == old(root.parent)
    {
      hide Focused, Holds, Linked, PathLinked, Nodes, PathNodes, Snap, Deficit, Inorder, RedBlack, Region, Unlinked;
      hide Plug, IsNext, OnlyChild, Whole;
      FocusedIs(subst, y, ns);
      ChildIsIn(ns, y, Unlinked(z.t, z.p).0);
      var red := subst.color.Red?;
      ghost var r := Splice(node, subst, temp, z, y, ns);
      Repair(red, temp, r, ns - {node});
    }

    /** rbtree_delete. The node leaves the in-order sequence, nothing else moves in it, the tree is red-black
        again, and the node's own fields are cleared. */
    method Delete(node: RbNode) returns (ghost k: nat)
      requires Valid() && node in Nodes(shape)
      modifies this`root, this`shape, sentinel`parent, sentinel`color, node`key
      modifies Nodes(shape)`left, Nodes(shape)`right, Nodes(shape)`parent, Nodes(shape)`color
      ensures Valid() && Nodes(shape) == old(Nodes(shape)) - {node}
      ensures Without(old(Inorder(shape)), k, Inorder(shape)) && old(Inorder(shape))[k] == node
      ensures node.left == null && node.right == null && node.parent == null && node.key == 0
      ensures root != sentinel ==>
        root.parent == old(if node == root && (shape.left.Leaf? || shape.right.Leaf?) then node else root.parent)
    {
      ghost var ns, was, lab := Nodes(shape), Inorder(shape), LabelsOf(Nodes(shape));
      ghost var rest := LabelsOf(ns - {node});
      LabelsDrop(ns, node);
      hide Holds, Whole, Snap, Balanced, NoRedRed, Ordered, Without, Nodes, LabelsOf;
      k := DeleteNode(node);
      NodesAreInorder(shape);
      assert forall x :: x in Inorder(shape) ==> x in ns - {node};
      WithoutKeepsOrder(policy, was, lab, k, Inorder(shape), rest);
    }

    /** The same, without the order. */
    method DeleteNode(node: RbNode) returns (ghost k: nat)
      requires node in Nodes(shape) && Holds(Snap(Nodes(shape)), Whole(shape, root), sentinel)
      requires RedBlack(shape) && sentinel.color.Black?
      modifies this`root, this`shape, sentinel`parent, sentinel`color, node`key
      modifies Nodes(shape)`left, Nodes(shape)`right, Nodes(shape)`parent, Nodes(shape)`color
      ensures Nodes(shape) == old(Nodes(shape)) - {node} && Holds(Snap(Nodes(shape)), Whole(shape, root), sentinel)
      ensures RedBlack(shape) && sentinel.color.Black?
      ensures Without(old(Inorder(shape)), k, Inorder(shape)) && old(Inorder(shape))[k] == node
      ensures node.left == null && node.right == null && node.parent == null && node.key == 0
      ensures root != sentinel ==>
        root.parent == old(if node == root && (shape.left.Leaf? || shape.right.Leaf?) then node else root.parent)
    {
      ghost var ns := Nodes(shape);
      WholeRegion(shape, root);
      ghost var z := Locate(Snap(ns), Whole(shape, root), sentinel, node);
      k := Rank(z.t, z.p);
      ItemAt(z.t, z.p, shape);
      UnlinkedKeeps(z.t, z.p);
      FocusIs(ns, z, sentinel);
      assert z.p.Top? ==> z.t == shape;
      hide *;
      DeleteAt(node, z, ns);
    }

    /** Lines 151-312 at the place of the node. */
    method DeleteAt(node: RbNode, ghost z: Site, ghost ns: set<RbNode>)
      requires Focused(node, z, ns) && z.t.Node? && node in ns && (node == root <==> z.p.Top?)
      requires RedBlack(Plug(z.t, z.p)) && sentinel.color.Black?
      requires var (k, q) := Unlinked(z.t, z.p);
        (LostColor(z.t).Red? ==> RedBlack(Plug(k, q))) && (LostColor(z.t).Black? ==> Deficit(k, q))
      modifies this`root, this`shape, sentinel`parent, sentinel`color, node`key
      modifies ns`left, ns`right, ns`parent, ns`color
      ensures Nodes(shape) == ns - {node} && Holds(Snap(Nodes(shape)), Whole(shape, root), sentinel)
      ensures RedBlack(shape) && sentinel.color.Black?
      ensures Inorder(shape) == Inorder(Plug(Unlinked(z.t, z.p).0, Unlinked(z.t, z.p).1))
      ensures node.left == null && node.right == null && node.parent == null && node.key == 0
      ensures root != sentinel ==>
        root.parent == old(if node == root && (z.t.left.Leaf? || z.t.right.Leaf?) then node else root.parent)
    {
      hide Holds, Linked, PathLinked, Sep, SepPath, Nodes, PathNodes, Snap, Region, Deficit, Inorder, RedBlack, Whole;
      var subst, temp;
      ghost var y;
      subst, temp, y := Choose(node, z, ns);
      FocusIs(ns, y, sentinel);
      ChildIsIn(ns, y, Unlinked(z.t, z.p).0);
      RootIsChosen(z, y);
      if subst == root {
        DeleteRoot(node, temp, z, Unlinked(z.t, z.p).0, ns);
      } else {
        DeleteBelow(node, subst, temp, z, y, ns);
      }
    }

    // ---------- rbtree_destroy ----------

    /** Loads from a block that has not been freed. */
    method Children(n: RbNode, ghost live: set<RbNode>) returns (left: RbNode?, right: RbNode?)
      requires n in live
      ensures left == n.left && right == n.right
    {
      return n.left, n.right;
    }

    method Parent(n: RbNode, ghost live: set<RbNode>) returns (parent: RbNode?)
      requires n in live
      ensures parent == n.parent
    {
      return n.parent;
    }

    /** keyvalue.c:97-110 inside the tree, whose blocks are `live`: down to a childless node, left first. */
    method DownToLeaf(start: RbNode, ghost z: Site, ghost live: set<RbNode>) returns (leaf: RbNode, ghost r: Site)
      requires Region(z) == live && Holds(Snap(live), z, sentinel) && z.t.Node? && z.ptr == start && LeftsGone(z.p)
      ensures leaf in live && leaf.left == sentinel && leaf.right == sentinel
      ensures Holds(Snap(live), r, sentinel) && Region(r) == live && r.ptr == leaf && r.root == z.root
      ensures r.t.Node? && r.t.left.Leaf? && r.t.right.Leaf? && LeftsGone(r.p)
      ensures Remaining(r.t, r.p) == Remaining(z.t, z.p)
    {
      leaf, r := start, z;
      hide Holds, Nodes, PathNodes, Region, Remaining, LeftsGone;
      Hangs(live, r, sentinel);
      GoDown(live, r, sentinel, true);
      GoDown(live, r, sentinel, false);
      var left, right := Children(leaf, live);
      while left != sentinel || right != sentinel
        invariant Holds(Snap(live), r, sentinel) && Region(r) == live && r.ptr == leaf && r.root == z.root
        invariant r.t.Node? && leaf == r.t.item && leaf in live && LeftsGone(r.p)
        invariant Remaining(r.t, r.p) == Remaining(z.t, z.p)
        invariant left == leaf.left && left != null && (r.t.left.Leaf? <==> left == sentinel)
        invariant right == leaf.right && right != null && (r.t.right.Leaf? <==> right == sentinel)
        decreases r.t
      {
        GoDown(live, r, sentinel, true);
        GoDown(live, r, sentinel, false);
        if left != sentinel {
          WalkLeft(r.t, r.p);
          r := DownSite(r, true, left);
          leaf := left;
        } else {
          WalkRight(r.t, r.p);
          r := DownSite(r, false, right);
          leaf := right;
        }
        Hangs(live, r, sentinel);
        GoDown(live, r, sentinel, true);
        GoDown(live, r, sentinel, false);
        left, right := Children(leaf, live);
      }
    }

    /** keyvalue.c:116-119: whatever block `parent` is. */
    method ClearSlot(parent: RbNode, temp: RbNode)
      modifies parent`left, parent`right
      ensures parent.left == if old(parent.left) == temp then sentinel else old(parent.left)
      ensures parent.right == if old(parent.left) == temp then old(parent.right) else sentinel
    {
      if parent.left == temp {
        parent.left := sentinel;
      } else {
        parent.right := sentinel;
      }
    }

    /** keyvalue.c:114-124: the slot above the node is cleared, so that nothing names it when it is freed.
        Above the root that is a slot of whatever its parent pointer names. */
    method CutLeaf(temp: RbNode, ghost z: Site, ghost live: set<RbNode>) returns (parent: RbNode?, ghost r: Site)
      requires Region(z) == live && Holds(Snap(live), z, sentinel) && z.ptr == temp && z.root == root
      requires z.t.Node? && z.t.left.Leaf? && z.t.right.Leaf? && LeftsGone(z.p)
      modifies Above(temp)`left, Above(temp)`right
      ensures temp in live && parent == temp.parent && (temp == root <==> z.p.Top?) && sentinel !in live
      ensures temp == root ==> Remaining(z.t, z.p) == [temp] && live == {temp}
      ensures temp == root && parent != null ==>
        && parent.left == (if old(temp.parent.left) == temp then sentinel else old(temp.parent.left))
        && parent.right == (if old(temp.parent.left) == temp then old(temp.parent.right) else sentinel)
      ensures temp != root ==>
        && parent != null && parent in live - {temp}
        && Holds(Snap(live - {temp}), r, sentinel) && Region(r) == live - {temp} && r.t.Node? && r.ptr == parent
            && r.root == root
        && LeftsGone(r.p) && Remaining(z.t, z.p) == [temp] + Remaining(r.t, r.p)
    {
      FocusIs(live, z, sentinel);
      Hangs(live, z, sentinel);
      FreeLeaf(z.t, z.p);
      ghost var m := Snap(live);
      parent := Parent(temp, live);
      r := z;
      if parent != null {
        if !z.p.Top? {
          UnlinkHolds(m, z, sentinel, Leaf);
        }
        hide Holds, Linked, PathLinked, Nodes, PathNodes;
        ClearSlot(parent, temp);
        if !z.p.Top? {
          SnapIs(live, Relink(m, z.p, sentinel));
          r := Site(Leaf, z.p, sentinel, z.parent, root);
          GoUp(live, r, sentinel);
          r := UpSite(r, z.p.item.parent);
          Shrinks(live, temp, r, sentinel);
        }
      }
    }

    /** The block whose slot is cleared. */
    ghost function Above(n: RbNode): set<RbNode>
      reads n`parent
    {
      if n.parent == null then {} else {n.parent}
    }

    /** keyvalue.c:97-124: one round inside the tree. */
    method FreeRound(temp: RbNode, ghost z: Site, ghost live: set<RbNode>)
      returns (leaf: RbNode, parent: RbNode?, ghost r: Site)
      requires Region(z) == live && Holds(Snap(live), z, sentinel) && z.t.Node? && z.ptr == temp && z.root == root
      requires LeftsGone(z.p)
      modifies live`left, live`right, Above(root)`left, Above(root)`right
      ensures leaf in live && (leaf == root ==> Remaining(z.t, z.p) == [leaf] && parent == root.parent)
      ensures leaf == root && parent != null ==>
        && parent.left == (if old(root.parent.left) == root then sentinel else old(root.parent.left))
        && parent.right == (if old(root.parent.left) == root then old(root.parent.right) else sentinel)
      ensures leaf != root ==>
        && parent != null && parent in live - {leaf}
        && Holds(Snap(live - {leaf}), r, sentinel) && Region(r) == live - {leaf} && r.t.Node? && r.ptr == parent
            && r.root == root
        && LeftsGone(r.p) && Remaining(z.t, z.p) == [leaf] + Remaining(r.t, r.p)
      ensures leaf != root && root.parent != null && root.parent !in live ==>
        root.parent.left == old(root.parent.left) && root.parent.right == old(root.parent.right)
    {
      hide Holds, Linked, PathLinked, Nodes, PathNodes, Region, Remaining, LeftsGone, Snap;
      leaf, r := DownToLeaf(temp, z, live);
      LeafIsBelow(live, r, sentinel);
      parent, r := CutLeaf(leaf, r, live);
    }

    /** At the start everything is left to free. */
    lemma WholeIsLeft()
      requires Searchable() && shape.Node?
      ensures var r := Whole(shape, root);
        && LeftsGone(r.p) && Remaining(r.t, r.p) == Postorder(shape)
        && Holds(Snap(Nodes(shape)), r, sentinel) && Region(r) == Nodes(shape)
        && r.t.Node? && r.ptr == root && r.root == root
    {
      WholeRegion(shape, root);
    }

    /** The rounds of rbtree_destroy from the root of the tree until that root has been freed: each node once,
        children before parents. `temp` is what the walk goes on with. */
    method FreeTree() returns (freed: seq<RbNode>, temp: RbNode?)
      requires Searchable() && shape.Node?
      modifies Nodes(shape)`left, Nodes(shape)`right, Above(root)`left, Above(root)`right
      ensures freed == Postorder(shape) && temp == root.parent
      ensures temp != null && temp !in Nodes(shape) ==>
        && temp.left == (if old(root.parent.left) == root then sentinel else old(root.parent.left))
        && temp.right == (if old(root.parent.left) == root then old(root.parent.right) else sentinel)
    {
      hide Holds, Linked, PathLinked, Nodes, PathNodes, Region, Remaining, LeftsGone, Snap, Searchable, Postorder;
      hide Whole, Ordered, Inorder, LabelsOf;
      ghost var r, live, all := Whole(shape, root), Nodes(shape), Nodes(shape);
      WholeIsLeft();
      temp, freed := root, [];
      assert freed + Remaining(r.t, r.p) == Postorder(shape);
      var leaf := root;
      while true
        invariant temp != null && live <= all && Nodes(shape) == all
        invariant Holds(Snap(live), r, sentinel) && Region(r) == live && r.t.Node? && r.ptr == temp && r.root == root
        invariant LeftsGone(r.p) && freed + Remaining(r.t, r.p) == Postorder(shape)
        invariant root.parent != null && root.parent !in all ==>
          root.parent.left == old(root.parent.left) && root.parent.right == old(root.parent.right)
        decreases live
      {
        leaf, temp, r := FreeRound(temp, r, live);
        freed := freed + [leaf];
        live := live - {leaf};
        if leaf == root {
          return;
        }
      }
    }

    /** keyvalue.c:96-112 for a block that is not a live node of the tree: the walk stops at a NULL, or it goes on. */
    method Leave(temp: RbNode?, freed: seq<RbNode>) returns (ending: Ending)
      ensures temp == null ==> ending == Stopped
      ensures temp != null && temp in freed ==> ending == Reuses(temp)
      ensures temp != null && temp !in freed ==> ending == Outside(temp, temp.left, temp.right, sentinel)
    {
      if temp == null {
        return Stopped;
      }
      if temp in freed {
        return Reuses(temp);
      }
      if temp.left != sentinel {
        return if temp.left == null then Stopped else Follows(temp.left);
      }
      if temp.right != sentinel {
        return if temp.right == null then Stopped else Follows(temp.right);
      }
      return Frees(temp);
    }

    /** What rbtree_destroy does once the tree's own nodes are freed. */
    ghost function EndingOf(): Ending
      reads this, sentinel`left, sentinel`right, root`parent
      reads Above(root)`left, Above(root)`right
    {
      var e := root.parent;
      if shape.Leaf? then Outside(sentinel, sentinel.left, sentinel.right, sentinel)
      else if e == null then Stopped
      else if e in Nodes(shape) then Reuses(e)
      else if e.left == root then Outside(e, sentinel, e.right, sentinel)
      else Outside(e, e.left, sentinel, sentinel)
    }

    /** Where the walk ends: with the tree exactly when the root's parent is NULL, or is outside the tree and has
        a NULL where the walk looks; and for an empty tree when the sentinel has. In all other cases it goes on
        with a block that is not, or no longer, a node of the tree. What such a walk then does, and whether it
        frees anything more, depends on blocks outside the tree: a block it follows may lead to a NULL. */
    lemma EndsWithTreeIff()
      requires Searchable()
      ensures EndingOf().Stopped? <==>
        if shape.Leaf? then sentinel.left == null || (sentinel.left == sentinel && sentinel.right == null)
        else
          var e := root.parent;
          e == null || (e !in Nodes(shape) && (e.left == null || (e.left == root && e.right == null)))
      ensures match EndingOf()
        case Stopped => true
        case Reuses(n) => n in Nodes(shape) && n == root.parent
        case Frees(n) => n !in Nodes(shape) && n == if shape.Leaf? then sentinel else root.parent
        case Follows(n) =>
          n == if shape.Leaf? then (if sentinel.left == sentinel then sentinel.right else sentinel.left)
               else if root.parent.left == root then root.parent.right else root.parent.left
      ensures EndingOf().Frees? <==>
        if shape.Leaf? then sentinel.left == sentinel && sentinel.right == sentinel
        else
          var e := root.parent;
          e != null && e !in Nodes(shape) && sentinel == if e.left == root then e.right else e.left
    {
    }

    /** rbtree_destroy (keyvalue.c:92-128): the tree's nodes, each with its data, are freed one by one, children
        before parents; `ending` says what comes after them. The model stops where the walk leaves the tree. */
    method Destroy() returns (freed: seq<RbNode>, ending: Ending)
      requires Searchable()
      modifies Nodes(shape)`left, Nodes(shape)`right, Above(root)`left, Above(root)`right
      ensures freed == Postorder(shape)
      ensures ending == old(EndingOf())
    {
      PostorderNodes(shape);
      if root == sentinel {
        freed := [];
        ending := Leave(root, freed);
        return;
      }
      var temp;
      freed, temp := FreeTree();
      ending := Leave(temp, freed);
    }
  }

  /** After the tree: the end, a block outside it that is looked at or freed, or a freed block looked at again. */
  datatype Ending = Stopped | Follows(n: RbNode) | Frees(n: RbNode) | Reuses(n: RbNode)

  /** One round of the walk at a block `e` with these child pointers. */
  function Outside(e: RbNode, left: RbNode?, right: RbNode?, s: RbNode): Ending {
    var next := if left != s then left else right;
    if next == s then Frees(e) else if next == null then Stopped else Follows(next)
  }

  lemma LeafIsBelow(live: set<RbNode>, r: Site, s: RbNode)
    requires Region(r) == live && Holds(Snap(live), r, s) && r.t.Node?
    ensures r.t.item == r.ptr && r.ptr in live
    ensures if r.ptr == r.root then r.p.Top? else r.t.item.parent != null && r.t.item.parent in live
  {
    Hangs(live, r, s);
    RootIsTop(Snap(live), r, s);
  }

  lemma PostorderNodes(t: Tree<RbNode>)
    ensures forall n :: n in Postorder(t) ==> n in Nodes(t)
    ensures forall n :: n in Nodes(t) ==> n in Postorder(t)
  {
    PostorderIsInorder(t);
    NodesAreInorder(t);
    assert forall n :: n in Postorder(t) <==> n in multiset(Postorder(t));
    assert forall n :: n in Inorder(t) <==> n in multiset(Inorder(t));
  }

  /** The root is unlinked only when it is the node to delete, and then it is black. */
  lemma RootIsChosen(z: Site, y: Site)
    requires z.t.Node? && RedBlack(Plug(z.t, z.p))
    requires if z.t.left.Leaf? || z.t.right.Leaf? then y == z else IsNext(y, z)
    ensures y.p.Top? ==> y == z && z.t.color.Black? && Unlinked(z.t, z.p).1 == Top
    ensures y.p.Top? <==> z.p.Top? && (z.t.left.Leaf? || z.t.right.Leaf?)
    ensures z.p.Top? ==> z.t == Plug(z.t, z.p)
  {
    if z.t.left.Node? && z.t.right.Node? {
      SpineParent(z.t.right, InRight(z.t.color, z.t.left, z.t.item, z.p));
    }
  }

  lemma LabelsDrop(ns: set<RbNode>, n: RbNode)
    ensures var lab, rest := LabelsOf(ns), LabelsOf(ns - {n});
      forall x :: x in ns - {n} ==> x in lab && x in rest && rest[x] == lab[x]
  {
    assert forall x :: x in ns ==> LabelsOf(ns)[x] == x.Rec();
    assert forall x :: x in ns - {n} ==> LabelsOf(ns - {n})[x] == x.Rec();
  }

  /** What the splice of the next node reads before it writes. */
  lemma NextReads(ns: set<RbNode>, z: Site, y: Site, s: RbNode)
    requires Region(z) == ns && Holds(Snap(ns), z, s) && Region(y) == ns && Holds(Snap(ns), y, s) && IsNext(y, z)
    ensures y.t.Node? && OnlyChild(y.t, y.t.right) && !y.p.Top? && y.p.item in ns && y.parent == y.p.item
    ensures y.t.item in ns && y.t.item != s && y.t.item != z.t.item && y.t.item == LeftSpine(z.t.right, z.p).0.item
    ensures y.t == LeftSpine(z.t.right, z.p).0 && Unlinked(z.t, z.p).0 == y.t.right
    ensures y.t.right.Node? ==> y.t.right.item in ns
    ensures y.parent == z.t.item <==> z.t.right.left.Leaf?
    ensures z.t.right.left.Leaf? ==> WithoutFirst(z.t.right) == y.t.right
    ensures z.t.right.left.Node? ==> !LeftSpine(z.t.right, z.p).1.Top? && LeftSpine(z.t.right, z.p).1.item == y.p.item
  {
    var q := InRight(z.t.color, z.t.left, z.t.item, z.p);
    SpineParent(z.t.right, q);
    SpineSameItem(z.t.right, z.p, q);
    LeftSpineIsFirst(z.t.right, q);
    NodesAreInorder(z.t.right);
    assert y.t.item in Inorder(z.t.right);
    if z.t.right.left.Node? {
      SpineParentSame(z.t.right, z.p, q);
    }
  }

  lemma ChildIsIn(ns: set<RbNode>, y: Site, k: Tree<RbNode>)
    requires Region(y) == ns && OnlyChild(y.t, k)
    ensures y.t.Node? && (k.Node? ==> k.item in ns)
  {
    assert Nodes(k) <= Nodes(y.t);
  }

  /** The whole tree, seen from a hole below its root. */
  lemma AboveHole(ns: set<RbNode>, r: Site, s: RbNode)
    requires Region(r) == ns && Holds(Snap(ns), r, s) && !r.p.Top? && r.root != null
    ensures Nodes(Plug(r.t, r.p)) == ns && Holds(Snap(ns), Whole(Plug(r.t, r.p), r.root), s)
  {
    hide Holds, Nodes, PathNodes, Region;
    GoUp(ns, r, s);
    PlugWhole(ns, UpSite(r, r.p.item.parent), r.root, s);
  }

  lemma Shrinks(ns: set<RbNode>, n: RbNode, z: Site, s: RbNode)
    requires Holds(Snap(ns), z, s) && Region(z) == ns - {n}
    ensures Holds(Snap(ns - {n}), z, s) && (z.t.Node? ==> z.t.item in ns - {n})
    ensures !z.p.Top? ==> z.root != n
  {
    if !z.p.Top? {
      RootInPath(z.p, z.ptr, z.parent, z.root, s, Snap(ns));
    }
    HoldsFrame(Snap(ns), Snap(ns - {n}), z, s);
  }

  /** What taking a place reads on the heap, and that it does not matter which of the two memories it starts from. */
  lemma PlaceSees(ns: set<RbNode>, m: Memory, z: Site, s: RbNode, y: RbNode)
    requires Holds(m, z, s) && z.t.Node? && y in m && y !in Region(z) && y != s
    requires m.Keys == ns && SameButParent(m, Snap(ns), z.t.right)
    ensures var x := z.t.item; x in ns && x != y && x.left == PtrTo(z.t.left, s) && x.right == PtrTo(z.t.right, s)
    ensures z.t.left.Node? ==> z.t.left.item in ns && z.t.left.item != s
    ensures z.t.right.Node? ==> z.t.right.item in ns && z.t.right.item != s
    ensures z.root == z.t.item <==> z.p.Top?
    ensures !z.p.Top? ==>
      && z.p.item in ns && z.p.item != y && z.t.item.parent == z.p.item
      && (z.p.InLeft? <==> z.p.item.left == z.t.item) && (z.p.InRight? <==> z.p.item.right == z.t.item)
    ensures ReplaceStores(Snap(ns), z.t, z.p, y) == ReplaceStores(m, z.t, z.p, y)
    ensures z.root != null && z.root in ns
    ensures var r := NewRoot(z.p, y, z.root);
      r != null && r in m && ReplaceStores(m, z.t, z.p, y)[r].parent == z.root.parent
  {
    ReplaceSees(m, z, s, y);
    ReplaceForgets(m, Snap(ns), z, s, y);
    RootKept(m, Snap(ns), z, s, y);
    hide Holds, Region, ReplaceStores;
  }

  /** The parent pointer of `k` that the splice stores is the one it needs, or one about to be overwritten. */
  lemma UpOrDown(m: Memory, h: Memory, k: Tree<RbNode>, y: Site, up: RbNode?, right: Tree<RbNode>, s: RbNode)
    requires right.Node? && (k.Node? ==> k.item in m) && (!y.p.Top? ==> y.p.item in m)
    requires h == Reparented(Relink(m, y.p, PtrTo(k, s)), k, up)
    requires up == y.parent || WithoutFirst(right) == k
    ensures UnlinkStores(m, k, y.p, y.parent, s).Keys == m.Keys
    ensures SameButParent(UnlinkStores(m, k, y.p, y.parent, s), h, WithoutFirst(right))
  {
  }

  /** The site of the only child of the root, once the root pointer names it. */
  lemma RootGone(ns: set<RbNode>, z: Site, s: RbNode, k: Tree<RbNode>, parent: RbNode?) returns (r: Site)
    requires Region(z) == ns && Holds(Snap(ns), z, s) && z.p.Top? && OnlyChild(z.t, k)
    requires parent == PtrTo(k, s).parent
    ensures r == Site(k, Top, PtrTo(k, s), parent, PtrTo(k, s)) && Region(r) == ns - {z.t.item}
    ensures Holds(Snap(ns - {z.t.item}), r, s) && PtrTo(k, s) != z.t.item && z.t.item == z.ptr
    ensures if k.Node? then k.item.parent == z.t.item else PtrTo(k, s) == s
  {
    RootUnlinkHolds(Snap(ns), z, s, k);
    r := Site(k, Top, PtrTo(k, s), parent, PtrTo(k, s));
    var left := k == z.t.left && z.t.right.Leaf?;
    assert Linked(k, Kid(Snap(ns)[z.t.item], left), z.t.item, s, Snap(ns));
    assert Sep(k) && z.t.item !in Nodes(k) && Nodes(k) == ns - {z.t.item};
    HoldsFrame(Snap(ns), Snap(ns - {z.t.item}), r, s);
  }

  lemma LeafHolds(m: Memory, z: Site, z': Site, s: RbNode)
    requires Holds(m, z, s) && z.t.Leaf? && z.p.Top? && z' == z.(parent := z'.parent)
    ensures Holds(m, z', s)
  {
  }

  lemma NoSuchKey(o: Policy, key: nat, t: Tree<RbNode>)
    requires (o.KeysOnly? || o.KeyValue?) && Missing(o, Record(key, 0, []), Inorder(t), LabelsOf(Nodes(t)))
    ensures forall n :: n in Nodes(t) ==> n.key != key
  {
    NodesAreInorder(t);
    forall n | n in Nodes(t) ensures n.key != key {
      assert Misses(o, Record(key, 0, []), n, LabelsOf(Nodes(t)));
    }
  }

  lemma LabelsAdd(ns: set<RbNode>, n: RbNode)
    ensures LabelsOf(ns + {n}) == LabelsOf(ns)[n := n.Rec()]
    ensures if n in ns then n in LabelsOf(ns) && LabelsOf(ns)[n] == n.Rec() else n !in LabelsOf(ns)
  {
  }

  lemma WholeRegion(t: Tree<RbNode>, root: RbNode)
    ensures Region(Whole(t, root)) == Nodes(t)
  {
  }

  lemma PlugWhole(ns: set<RbNode>, z: Site, root: RbNode, s: RbNode)
    requires Region(z) == ns && Holds(Snap(ns), z, s) && z.t.Node? && z.root == root
    ensures var t := Plug(z.t, z.p);
      && t.Node? && t.item == root && t.item in ns && root != s && Holds(Snap(ns), Whole(t, root), s)
      && Region(Whole(t, root)) == ns && Nodes(t) == ns
  {
    PlugHolds(Snap(ns), z, s);
    PlugIsNode(z.t, z.p);
  }
}
