/** Node memory as a value, and what it means for memory to hold a tree with a hole. The heap methods
    of rbtree.c are proved against snapshots of this form. */
module RbMemory {
  import opened Records
  import opened RbShape

  /** rbtree_node_t, with the str_unit_t fields behind it. */
  class RbNode {
    var key: nat
    var left: RbNode?
    var right: RbNode?
    var parent: RbNode?
    var color: Color
    var len: nat
    var data: seq<byte>

    constructor (key: nat, len: nat, data: seq<byte>)
      ensures Rec() == Record(key, len, data)
    {
      this.key, this.len, this.data := key, len, data;
      left, right, parent, color := null, null, null, Black;
    }

    function Rec(): Record
      reads this`key, this`len, this`data
    {
      Record(key, len, data)
    }
  }

  /** The fields that make up the shape. */
  datatype Cell = Cell(left: RbNode?, right: RbNode?, parent: RbNode?, color: Color)

  type Memory = map<RbNode, Cell>

  ghost function Snap(ns: set<RbNode>): Memory
    reads ns`left, ns`right, ns`parent, ns`color
  {
    if ns == {} then map[] else map n | n in ns :: Cell(n.left, n.right, n.parent, n.color)
  }

  ghost function Nodes(t: Tree<RbNode>): set<RbNode> {
    if t.Leaf? then {} else Nodes(t.left) + {t.item} + Nodes(t.right)
  }

  ghost function PathNodes(p: Path<RbNode>): set<RbNode> {
    if p.Top? then {} else Nodes(p.sibling) + {p.item} + PathNodes(p.up)
  }

  /** No node occurs twice. */
  ghost predicate Sep(t: Tree<RbNode>) {
    t.Leaf? || (
      && t.item !in Nodes(t.left) && t.item !in Nodes(t.right) && Nodes(t.left) !! Nodes(t.right)
      && Sep(t.left) && Sep(t.right))
  }

  ghost predicate SepPath(p: Path<RbNode>) {
    p.Top? || (
      && p.item !in Nodes(p.sibling) && p.item !in PathNodes(p.up) && Nodes(p.sibling) !! PathNodes(p.up)
      && Sep(p.sibling) && SepPath(p.up))
  }

  /** The memory below `ptr` holds exactly the tree `t`; leaves are the sentinel `s`. */
  ghost predicate Linked(t: Tree<RbNode>, ptr: RbNode?, parent: RbNode?, s: RbNode, m: Memory) {
    if t.Leaf? then ptr == s
    else
      && ptr == t.item && ptr != s && t.item in m
      && m[t.item].parent == parent && m[t.item].color == t.color
      && Linked(t.left, m[t.item].left, t.item, s, m) && Linked(t.right, m[t.item].right, t.item, s, m)
  }

  function Kid(c: Cell, left: bool): RbNode? {
    if left then c.left else c.right
  }

  /** The memory above `ptr`, up to `root`, holds exactly the path `p`. */
  ghost predicate PathLinked(p: Path<RbNode>, ptr: RbNode?, parent: RbNode?, root: RbNode?, s: RbNode, m: Memory)
    decreases p
  {
    if p.Top? then ptr == root
    else
      && parent == p.item && p.item != s && p.item in m && m[p.item].color == p.color
      && Kid(m[p.item], p.InLeft?) == ptr
      && Linked(p.sibling, Kid(m[p.item], !p.InLeft?), p.item, s, m)
      && PathLinked(p.up, p.item, m[p.item].parent, root, s, m)
  }

  /** The pointer to a subtree. */
  function PtrTo(t: Tree<RbNode>, s: RbNode): RbNode {
    if t.Leaf? then s else t.item
  }

  /** A tree in the hole of a path, with the pointers that enter it. */
  datatype Site = Site(t: Tree<RbNode>, p: Path<RbNode>, ptr: RbNode?, parent: RbNode?, root: RbNode?)

  ghost predicate Disjoint(t: Tree<RbNode>, p: Path<RbNode>, s: RbNode) {
    Sep(t) && SepPath(p) && Nodes(t) !! PathNodes(p) && s !in Nodes(t) && s !in PathNodes(p)
  }

  ghost predicate Holds(m: Memory, z: Site, s: RbNode) {
    && Linked(z.t, z.ptr, z.parent, s, m) && PathLinked(z.p, z.ptr, z.parent, z.root, s, m)
    && Disjoint(z.t, z.p, s)
  }

  ghost function Region(z: Site): set<RbNode> {
    Nodes(z.t) + PathNodes(z.p)
  }

  // ---------- frames ----------

  ghost predicate SameOn(ns: set<RbNode>, m: Memory, m': Memory) {
    forall n :: n in ns && n in m ==> n in m' && m'[n] == m[n]
  }

  lemma {:induction false} LinkedFrame(t: Tree<RbNode>, ptr: RbNode?, parent: RbNode?, s: RbNode, m: Memory, m': Memory)
    requires Linked(t, ptr, parent, s, m) && SameOn(Nodes(t), m, m')
    ensures Linked(t, ptr, parent, s, m')
  {
    if t.Node? {
      LinkedFrame(t.left, m[t.item].left, t.item, s, m, m');
      LinkedFrame(t.right, m[t.item].right, t.item, s, m, m');
    }
  }

  lemma {:induction false} PathFrame(
    p: Path<RbNode>, ptr: RbNode?, parent: RbNode?, root: RbNode?, s: RbNode, m: Memory, m': Memory)
    requires PathLinked(p, ptr, parent, root, s, m) && SameOn(PathNodes(p), m, m')
    ensures PathLinked(p, ptr, parent, root, s, m')
    decreases p
  {
    if !p.Top? {
      LinkedFrame(p.sibling, Kid(m[p.item], !p.InLeft?), p.item, s, m, m');
      PathFrame(p.up, p.item, m[p.item].parent, root, s, m, m');
    }
  }

  /** A subtree whose root only got a new parent (and colour). */
  lemma Adopted(t: Tree<RbNode>, ptr: RbNode?, was: RbNode?, parent: RbNode?, s: RbNode, m: Memory, m': Memory)
    requires Linked(t, ptr, was, s, m) && Sep(t)
    requires t.Node? ==>
               && SameOn(Nodes(t.left), m, m') && SameOn(Nodes(t.right), m, m')
               && t.item in m' && m'[t.item] == m[t.item].(parent := parent)
    ensures Linked(t, ptr, parent, s, m')
  {
    if t.Node? {
      LinkedFrame(t.left, m[t.item].left, t.item, s, m, m');
      LinkedFrame(t.right, m[t.item].right, t.item, s, m, m');
    }
  }

  /** The slot that held `ptr` now holds `temp`. */
  ghost function Relink(m: Memory, p: Path<RbNode>, temp: RbNode?): Memory
    requires !p.Top? ==> p.item in m
  {
    if p.Top? then m
    else if p.InLeft? then m[p.item := m[p.item].(left := temp)]
    else m[p.item := m[p.item].(right := temp)]
  }

  ghost function NewRoot(p: Path<RbNode>, temp: RbNode?, root: RbNode?): RbNode? {
    if p.Top? then temp else root
  }

  lemma RelinkedPath(
    p: Path<RbNode>, ptr: RbNode?, parent: RbNode?, root: RbNode?, s: RbNode, m: Memory, temp: RbNode?, m': Memory)
    requires PathLinked(p, ptr, parent, root, s, m) && SepPath(p)
    requires SameOn(PathNodes(p), Relink(m, p, temp), m')
    ensures PathLinked(p, temp, parent, NewRoot(p, temp, root), s, m')
  {
    if !p.Top? {
      LinkedFrame(p.sibling, Kid(m[p.item], !p.InLeft?), p.item, s, m, m');
      PathFrame(p.up, p.item, m[p.item].parent, root, s, m, m');
    }
  }

  // ---------- moving the focus ----------

  /** The site one level up; `above` is the parent pointer of the node there. */
  function UpSite(z: Site, above: RbNode?): Site
    requires !z.p.Top?
  {
    Site(Lift(z.t, z.p), z.p.up, z.p.item, above, z.root)
  }

  /** The parent becomes the focus. */
  lemma FocusUp(m: Memory, z: Site, s: RbNode)
    requires Holds(m, z, s) && !z.p.Top?
    ensures z.parent == z.p.item && z.p.item in m && z.p.item != s
    ensures Holds(m, UpSite(z, m[z.p.item].parent), s)
    ensures Region(UpSite(z, m[z.p.item].parent)) == Region(z)
  {
  }

  /** The frame for going down one side of `t`. */
  function Below(t: Tree<RbNode>, p: Path<RbNode>, left: bool): Path<RbNode>
    requires t.Node?
  {
    if left then InLeft(t.color, t.item, t.right, p) else InRight(t.color, t.left, t.item, p)
  }

  /** The site one level down; `child` is the pointer found there. */
  function DownSite(z: Site, left: bool, child: RbNode?): Site
    requires z.t.Node?
  {
    Site(Side(z.t, left), Below(z.t, z.p, left), child, z.t.item, z.root)
  }

  lemma FocusDown(m: Memory, z: Site, s: RbNode, left: bool)
    requires Holds(m, z, s) && z.t.Node?
    ensures var z' := DownSite(z, left, Kid(m[z.t.item], left));
      Holds(m, z', s) && Region(z') == Region(z) && Lift(z'.t, z'.p) == z.t
  {
  }

  /** The same moves, with the pointers as the heap holds them. */
  lemma GoUp(ns: set<RbNode>, z: Site, s: RbNode)
    requires Region(z) <= ns && Holds(Snap(ns), z, s) && !z.p.Top?
    ensures z.parent == z.p.item && z.p.item in ns && z.p.item != s
    ensures var z' := UpSite(z, z.p.item.parent);
      Holds(Snap(ns), z', s) && Region(z') == Region(z) && z'.t.Node? && z'.t.item == z.p.item
  {
    FocusUp(Snap(ns), z, s);
  }

  lemma GoDown(ns: set<RbNode>, z: Site, s: RbNode, left: bool)
    requires Region(z) <= ns && Holds(Snap(ns), z, s) && z.t.Node?
    ensures var z' := DownSite(z, left, if left then z.t.item.left else z.t.item.right);
      && Holds(Snap(ns), z', s) && Region(z') == Region(z) && Lift(z'.t, z'.p) == z.t
      && z'.ptr != null && (z'.t.Leaf? <==> z'.ptr == s)
      && (z'.t.Node? ==> z'.t.item == z'.ptr && z'.t.item in ns && z'.t.item.parent == z.t.item)
  {
    FocusDown(Snap(ns), z, s, left);
    assert Linked(Side(z.t, left), Kid(Snap(ns)[z.t.item], left), z.t.item, s, Snap(ns));
  }

  lemma RootInPath(p: Path<RbNode>, ptr: RbNode?, parent: RbNode?, root: RbNode?, s: RbNode, m: Memory)
    requires PathLinked(p, ptr, parent, root, s, m) && !p.Top?
    ensures root != null && root in PathNodes(p) && root in m
    decreases p
  {
    if !p.up.Top? {
      RootInPath(p.up, p.item, m[p.item].parent, root, s, m);
    }
  }

  /** `ptr` is the root exactly when nothing is above it. */
  lemma RootIsTop(m: Memory, z: Site, s: RbNode)
    requires Holds(m, z, s)
    ensures z.ptr == z.root <==> z.p.Top?
  {
    if !z.p.Top? {
      RootInPath(z.p, z.ptr, z.parent, z.root, s, m);
    }
  }

  /** Exactly one place holds the focus: the root pointer, or one slot of its parent. */
  lemma Hangs(ns: set<RbNode>, z: Site, s: RbNode)
    requires Region(z) <= ns && Holds(Snap(ns), z, s) && z.t.Node?
    ensures z.t.item == z.ptr && z.ptr in ns && z.ptr != s && z.ptr.parent == z.parent && z.ptr.color == z.t.color
    ensures z.ptr == z.root <==> z.p.Top?
    ensures s !in Region(z)
    ensures !z.p.Top? ==> z.parent == z.p.item && z.p.item in ns && z.p.item.color == z.p.color
    ensures z.p.InLeft? ==> z.p.item.left == z.ptr && z.p.item.right != z.ptr
    ensures z.p.InRight? ==> z.p.item.right == z.ptr && z.p.item.left != z.ptr
  {
    RootIsTop(Snap(ns), z, s);
  }

  /** The grandparent, and the uncle as line 37 or 59 loads it. */
  lemma SeesUncle(ns: set<RbNode>, z: Site, s: RbNode)
    requires Region(z) <= ns && Holds(Snap(ns), z, s) && z.t.Node? && !z.p.Top? && !z.p.up.Top?
    requires s.color.Black?
    ensures var g := z.p.up;
      && z.parent == z.p.item && z.p.item in ns && z.p.item.parent == g.item && g.item in ns
      && (g.InLeft? <==> g.item.left == z.p.item)
      && var uncle := if g.InLeft? then g.item.right else g.item.left;
      && uncle != null && uncle.color == ColorOf(g.sibling)
      && (g.sibling.Node? ==> uncle == g.sibling.item && uncle in ns)
  {
    hide Holds, Linked, PathLinked, Sep, SepPath, Nodes, PathNodes, Snap;
    Hangs(ns, z, s);
    GoUp(ns, z, s);
    var z1 := UpSite(z, z.p.item.parent);
    Hangs(ns, z1, s);
    GoUp(ns, z1, s);
    var z2 := UpSite(z1, z1.p.item.parent);
    var left := z.p.up.InLeft?;
    GoDown(ns, z2, s, !left);
    var u := DownSite(z2, !left, if left then z2.t.item.right else z2.t.item.left);
    if u.t.Node? {
      Hangs(ns, u, s);
    }
  }

  /** What the focus points at. */
  lemma FocusIs(ns: set<RbNode>, z: Site, s: RbNode)
    requires Region(z) == ns && Holds(Snap(ns), z, s)
    ensures s !in ns && z.ptr == PtrTo(z.t, s)
    ensures z.t.Node? ==> z.ptr in ns && z.ptr.parent == z.parent && z.ptr.color == z.t.color
    ensures !z.p.Top? ==> z.parent == z.p.item && z.p.item in ns
    ensures z.ptr == z.root <==> z.p.Top?
  {
    RootIsTop(Snap(ns), z, s);
  }

  /** The sibling of the focus and the colours of its children, as the fix-up of rbtree_delete loads them. */
  lemma SeesSibling(ns: set<RbNode>, z: Site, s: RbNode)
    requires Region(z) <= ns && Holds(Snap(ns), z, s) && !z.p.Top? && z.p.sibling.Node? && s.color.Black?
    ensures z.parent == z.p.item && z.p.item in ns && z.p.item != s && z.p.item.color == z.p.color
    ensures z.p.InLeft? <==> z.ptr == z.p.item.left
    ensures var w := if z.p.InLeft? then z.p.item.right else z.p.item.left;
      && w == z.p.sibling.item && w in ns && w != s && w.color == z.p.sibling.color
      && w.left != null && w.left.color == ColorOf(z.p.sibling.left)
      && w.right != null && w.right.color == ColorOf(z.p.sibling.right)
  {
    var w := z.p.sibling;
    var m := Snap(ns);
    assert Linked(w, Kid(m[z.p.item], !z.p.InLeft?), z.p.item, s, m);
    assert Linked(w.left, m[w.item].left, w.item, s, m) && Linked(w.right, m[w.item].right, w.item, s, m);
    if z.t.Node? {
      assert z.ptr in Nodes(z.t) && w.item in PathNodes(z.p);
    }
  }

  // ---------- single stores ----------

  /** rbt_red and rbt_black on the focus. */
  lemma RepaintHolds(m: Memory, z: Site, s: RbNode, c: Color)
    requires Holds(m, z, s) && z.t.Node? && z.t.item in m
    ensures Holds(m[z.t.item := m[z.t.item].(color := c)], z.(t := Paint(z.t, c)), s)
    ensures Region(z.(t := Paint(z.t, c))) == Region(z)
  {
    var m' := m[z.t.item := m[z.t.item].(color := c)];
    LinkedFrame(z.t.left, m[z.t.item].left, z.t.item, s, m, m');
    LinkedFrame(z.t.right, m[z.t.item].right, z.t.item, s, m, m');
    PathFrame(z.p, z.ptr, z.parent, z.root, s, m, m');
  }

  function RedLeaf(n: RbNode): Tree<RbNode> {
    Node(Red, Leaf, n, Leaf)
  }

  /** The five stores that hang a new node in a sentinel slot. */
  lemma AttachHolds(m: Memory, z: Site, s: RbNode, n: RbNode)
    requires Holds(m, z, s) && z.t.Leaf? && !z.p.Top? && z.p.item in m
    requires n !in PathNodes(z.p) && n != s
    ensures var m' := Relink(m, z.p, n)[n := Cell(s, s, z.p.item, Red)];
      Holds(m', Site(RedLeaf(n), z.p, n, z.p.item, z.root), s)
  {
    var m' := Relink(m, z.p, n)[n := Cell(s, s, z.p.item, Red)];
    RelinkedPath(z.p, z.ptr, z.parent, z.root, s, m, n, m');
  }

  lemma {:induction false} NodesAreInorder(t: Tree<RbNode>)
    ensures forall n :: n in Nodes(t) ==> n in Inorder(t)
    ensures forall n :: n in Inorder(t) ==> n in Nodes(t)
  {
    if t.Node? {
      NodesAreInorder(t.left);
      NodesAreInorder(t.right);
    }
  }

  lemma {:induction false} PathNodesAreInorder(p: Path<RbNode>)
    ensures forall n :: n in PathNodes(p) <==> n in Before(p) || n in After(p)
    decreases p
  {
    if !p.Top? {
      NodesAreInorder(p.sibling);
      PathNodesAreInorder(p.up);
    }
  }

  lemma {:induction false} PlugHolds(m: Memory, z: Site, s: RbNode)
    requires Holds(m, z, s)
    ensures var t := Plug(z.t, z.p); var parent := if t.Node? && t.item in m then m[t.item].parent else null;
      && Holds(m, Site(t, Top, z.root, if z.p.Top? then z.parent else parent, z.root), s)
      && Nodes(t) == Region(z)
    decreases z.p
  {
    if !z.p.Top? {
      FocusUp(m, z, s);
      PlugHolds(m, UpSite(z, m[z.p.item].parent), s);
    }
  }

  // ---------- rotations ----------

  predicate CanRotate(t: Tree<RbNode>, left: bool) {
    if left then CanRotateLeft(t) else CanRotateRight(t)
  }

  function Rotated(t: Tree<RbNode>, left: bool): Tree<RbNode>
    requires CanRotate(t, left)
  {
    if left then RotatedLeft(t) else RotatedRight(t)
  }

  function WithKid(c: Cell, left: bool, k: RbNode?): Cell {
    if left then c.(left := k) else c.(right := k)
  }

  /** The subtree a rotation moves across. */
  function InnerOf(t: Tree<RbNode>, left: bool): Tree<RbNode>
    requires CanRotate(t, left)
  {
    Side(Side(t, !left), left)
  }

  /** The nodes a rotation writes are all there. */
  ghost predicate Touches(m: Memory, t: Tree<RbNode>, p: Path<RbNode>, left: bool) {
    && CanRotate(t, left) && t.item in m && Side(t, !left).item in m
    && (InnerOf(t, left).Node? ==> InnerOf(t, left).item in m)
    && (!p.Top? ==> p.item in m)
  }

  /** The stores of rbtree_left_rotate (`left`) or rbtree_right_rotate, in order. */
  ghost function RotationStores(m: Memory, t: Tree<RbNode>, p: Path<RbNode>, left: bool): Memory
    requires Touches(m, t, p, left)
  {
    var node, temp, inner := t.item, Side(t, !left).item, InnerOf(t, left);
    var m1 := m[node := WithKid(m[node], !left, Kid(m[temp], left))];
    var m2 := if inner.Node? then m1[inner.item := m1[inner.item].(parent := node)] else m1;
    var m3 := m2[temp := m2[temp].(parent := m2[node].parent)];
    var m4 := Relink(m3, p, temp);
    var m5 := m4[temp := WithKid(m4[temp], left, node)];
    m5[node := m5[node].(parent := temp)]
  }

  /** What a rotation reads before it writes. */
  lemma RotationSees(m: Memory, z: Site, s: RbNode, left: bool)
    requires Holds(m, z, s) && CanRotate(z.t, left)
    ensures var node, y, inner := z.t.item, Side(z.t, !left), InnerOf(z.t, left);
      && Touches(m, z.t, z.p, left)
      && Kid(m[node], !left) == y.item && y.item != s && y.item != node
      && (if inner.Leaf? then Kid(m[y.item], left) == s
          else Kid(m[y.item], left) == inner.item && inner.item != s && inner.item != node && inner.item != y.item)
      && (z.ptr == z.root <==> z.p.Top?)
      && (!z.p.Top? ==> z.parent == z.p.item && z.p.item != node && z.p.item != y.item
                        && (inner.Node? ==> z.p.item != inner.item)
                        && Kid(m[z.p.item], z.p.InLeft?) == node && Kid(m[z.p.item], !z.p.InLeft?) != node)
  {
    var y := Side(z.t, !left);
    RootIsTop(m, z, s);
    assert Linked(y, Kid(m[z.t.item], !left), z.t.item, s, m) && Sep(y);
    assert Linked(InnerOf(z.t, left), Kid(m[y.item], left), y.item, s, m);
  }

  /** The cells a rotation leaves behind. */
  lemma RotationCells(m: Memory, z: Site, s: RbNode, left: bool)
    requires Holds(m, z, s) && Touches(m, z.t, z.p, left)
    ensures var node, temp, inner, p, m' :=
        z.t.item, Side(z.t, !left).item, InnerOf(z.t, left), z.p, RotationStores(m, z.t, z.p, left);
      && m'.Keys == m.Keys
      && m'[node] == WithKid(m[node], !left, Kid(m[temp], left)).(parent := temp)
      && m'[temp] == WithKid(m[temp], left, node).(parent := z.parent)
      && (inner.Node? ==> m'[inner.item] == m[inner.item].(parent := node))
      && (!p.Top? ==> m'[p.item] == WithKid(m[p.item], p.InLeft?, temp))
      && forall n :: n in m && n != node && n != temp && (inner.Node? ==> n != inner.item) && (!p.Top? ==> n != p.item)
           ==> m'[n] == m[n]
  {
    RotationSees(m, z, s, left);
    hide Holds, Linked, PathLinked;
  }

  /** A rotation about to happen on the heap: what it will read, and the cells it must leave. */
  lemma RotationPlan(ns: set<RbNode>, z: Site, s: RbNode, left: bool)
    returns (m': Memory, y: RbNode, b: set<RbNode>, p: set<RbNode>)
    requires Region(z) <= ns && Holds(Snap(ns), z, s) && CanRotate(z.t, left) && z.ptr != null
    ensures z.t.item == z.ptr && z.ptr in ns && y == Side(z.t, !left).item && y in ns && y != s && y != z.ptr
    ensures (if left then z.t.item.right else z.t.item.left) == y
    ensures var k := if left then y.left else y.right;
      if b == {} then k == s
      else k != null && b == {k} && k in ns && k != s && k != z.ptr && k != y && (z.p.Top? || k != z.p.item)
    ensures p == if z.p.Top? then {} else {z.p.item}
    ensures NewRoot(z.p, y, z.root) == if z.p.Top? then y else z.root
    ensures z.ptr == z.root <==> z.p.Top?
    ensures !z.p.Top? ==>
      && z.p.item in ns && z.parent == z.p.item && z.p.item != z.ptr && z.p.item != y
      && (z.p.InLeft? <==> z.p.item.left == z.ptr) && (z.p.InRight? <==> z.p.item.right == z.ptr)
    ensures Touches(Snap(ns), z.t, z.p, left) && m' == RotationStores(Snap(ns), z.t, z.p, left) && m'.Keys == ns
    ensures forall n :: n in ns ==> (m'[n] ==
              if n == z.ptr then Cell(if left then n.left else y.right, if left then y.left else n.right, y, n.color)
              else if n == y then
                Cell(if left then z.ptr else n.left, if left then n.right else z.ptr, z.parent, n.color)
              else if n in b then Cell(n.left, n.right, z.ptr, n.color)
              else if n in p then
                Cell(if z.p.InLeft? then y else n.left, if z.p.InLeft? then n.right else y, n.parent, n.color)
              else Cell(n.left, n.right, n.parent, n.color))
  {
    var m, inner := Snap(ns), InnerOf(z.t, left);
    RotationSees(m, z, s, left);
    RotationCells(m, z, s, left);
    m', y := RotationStores(m, z.t, z.p, left), Side(z.t, !left).item;
    b, p := if inner.Node? then {inner.item} else {}, if z.p.Top? then {} else {z.p.item};
    hide Holds, RotationStores, Region, Nodes, PathNodes;
  }

  /** A rotation keeps the parent pointer of the root, whichever node that is afterwards. */
  lemma RotationKeepsTop(m: Memory, m': Memory, z: Site, s: RbNode, left: bool)
    requires Holds(m, z, s) && Touches(m, z.t, z.p, left)
    requires m' == RotationStores(m, z.t, z.p, left)
    ensures z.root != null && z.root in m
    ensures var top := NewRoot(z.p, Side(z.t, !left).item, z.root);
      top != null && top in m' && m'[top].parent == m[z.root].parent
  {
    RotationCells(m, z, s, left);
    RotationSees(m, z, s, left);
    if !z.p.Top? {
      RootInPath(z.p, z.ptr, z.parent, z.root, s, m);
      assert Nodes(InnerOf(z.t, left)) <= Nodes(Side(z.t, !left)) <= Nodes(z.t);
    }
    hide RotationStores;
  }

  lemma SnapIs(ns: set<RbNode>, m: Memory)
    requires m.Keys == ns && forall n :: n in ns ==> m[n] == Cell(n.left, n.right, n.parent, n.color)
    ensures Snap(ns) == m
  {
  }

  lemma SnapReads(ns: set<RbNode>, n: RbNode)
    requires n in ns || n in Snap(ns)
    ensures n in Snap(ns) && Snap(ns)[n] == Cell(n.left, n.right, n.parent, n.color)
  {
  }

  lemma RotatedDisjoint(t: Tree<RbNode>, p: Path<RbNode>, s: RbNode, left: bool)
    requires Disjoint(t, p, s) && CanRotate(t, left)
    ensures Disjoint(Rotated(t, left), p, s) && Nodes(Rotated(t, left)) == Nodes(t)
  {
    var y := Side(t, !left);
    assert Sep(y) && Nodes(y) == Nodes(y.left) + {y.item} + Nodes(y.right);
    assert Sep(if left then t.(right := y.left) else t.(left := y.right));
  }

  /** A rotation's stores turn memory holding `t` into memory holding the rotated tree. */
  lemma RotationHolds(m: Memory, z: Site, s: RbNode, left: bool)
    requires Holds(m, z, s) && Touches(m, z.t, z.p, left)
    ensures var r := Rotated(z.t, left);
      Holds(RotationStores(m, z.t, z.p, left), Site(r, z.p, r.item, z.parent, NewRoot(z.p, r.item, z.root)), s)
  {
    var t, p, node := z.t, z.p, z.t.item;
    var y, inner := Side(t, !left), InnerOf(t, left);
    var m' := RotationStores(m, t, p, left);
    RotationSees(m, z, s, left);
    RotatedDisjoint(t, p, s, left);
    RotationSpares(m, z, s, left);
    assert Linked(y, Kid(m[node], !left), node, s, m);
    assert Linked(inner, Kid(m[y.item], left), y.item, s, m);
    assert Sep(y) && Sep(inner);
    LinkedFrame(Side(t, left), Kid(m[node], left), node, s, m, m');
    LinkedFrame(Side(y, !left), Kid(m[y.item], !left), y.item, s, m, m');
    Adopted(inner, Kid(m[y.item], left), y.item, node, s, m, m');
    RelinkedPath(p, z.ptr, z.parent, z.root, s, m, y.item, m');
  }

  /** A rotation touches four nodes at most. */
  lemma RotationSpares(m: Memory, z: Site, s: RbNode, left: bool)
    requires Holds(m, z, s) && Touches(m, z.t, z.p, left)
    ensures var y, inner, m' := Side(z.t, !left), InnerOf(z.t, left), RotationStores(m, z.t, z.p, left);
      && SameOn(Nodes(Side(z.t, left)), m, m') && SameOn(Nodes(Side(y, !left)), m, m')
      && (inner.Node? ==> SameOn(Nodes(inner.left), m, m') && SameOn(Nodes(inner.right), m, m'))
      && SameOn(PathNodes(z.p), Relink(m, z.p, y.item), m')
  {
    var y, inner := Side(z.t, !left), InnerOf(z.t, left);
    RotationCells(m, z, s, left);
    assert Sep(y) && Sep(inner);
    assert Nodes(y) == Nodes(y.left) + {y.item} + Nodes(y.right) && Nodes(inner) <= Nodes(y);
    hide Holds, RotationStores, Linked, PathLinked;
  }
}
