/** Red-black trees as values, and trees with a hole: what the pointer code of rbtree.c moves around. */
module RbShape {
  datatype Color = Red | Black

  datatype Tree<E> =
    | Leaf
    | Node(color: Color, left: Tree<E>, item: E, right: Tree<E>)

  /** A tree with one subtree missing, read from the hole up to the root. */
  datatype Path<E> =
    | Top
    | InLeft(color: Color, item: E, sibling: Tree<E>, up: Path<E>)   // the hole is item's left child
    | InRight(color: Color, sibling: Tree<E>, item: E, up: Path<E>)  // the hole is item's right child

  function Inorder<E>(t: Tree<E>): seq<E> {
    match t
    case Leaf => []
    case Node(_, l, x, r) => Inorder(l) + [x] + Inorder(r)
  }

  /** The tree with `t` at the child position of the lowest frame of `p`. */
  function Lift<E>(t: Tree<E>, p: Path<E>): Tree<E>
    requires !p.Top?
  {
    match p
    case InLeft(c, x, r, _) => Node(c, t, x, r)
    case InRight(c, l, x, _) => Node(c, l, x, t)
  }

  function Plug<E>(t: Tree<E>, p: Path<E>): Tree<E>
    decreases p
  {
    if p.Top? then t else Plug(Lift(t, p), p.up)
  }

  function Before<E>(p: Path<E>): seq<E> {
    match p
    case Top => []
    case InLeft(_, _, _, up) => Before(up)
    case InRight(_, l, x, up) => Before(up) + Inorder(l) + [x]
  }

  function After<E>(p: Path<E>): seq<E> {
    match p
    case Top => []
    case InLeft(_, x, r, up) => [x] + Inorder(r) + After(up)
    case InRight(_, _, _, up) => After(up)
  }

  lemma LiftInorder<E>(t: Tree<E>, p: Path<E>)
    requires !p.Top?
    ensures Before(p.up) + Inorder(Lift(t, p)) + After(p.up) == Before(p) + Inorder(t) + After(p)
  {
    match p
    case InLeft(_, x, r, up) =>
      Regroup(Before(up), Inorder(t), [x] + Inorder(r), After(up));
      assert Inorder(t) + [x] + Inorder(r) == Inorder(t) + ([x] + Inorder(r));
    case InRight(_, l, x, up) =>
      Regroup(Before(up), Inorder(l) + [x], Inorder(t), After(up));
      assert Before(up) + Inorder(l) + [x] == Before(up) + (Inorder(l) + [x]);
  }

  lemma Regroup<E>(a: seq<E>, b: seq<E>, c: seq<E>, d: seq<E>)
    ensures a + (b + c) + d == (a + b) + c + d == a + b + (c + d)
  {
  }

  lemma {:induction false} PlugInorder<E>(t: Tree<E>, p: Path<E>)
    ensures Inorder(Plug(t, p)) == Before(p) + Inorder(t) + After(p)
    decreases p
  {
    if !p.Top? {
      PlugInorder(Lift(t, p), p.up);
      LiftInorder(t, p);
    }
  }

  /** How many elements stand before the focus. */
  function Rank<E>(t: Tree<E>, p: Path<E>): nat
    requires t.Node?
  {
    |Before(p)| + |Inorder(t.left)|
  }

  /** Where the focus stands in the in-order sequence. */
  lemma ItemAt<E>(t: Tree<E>, p: Path<E>, whole: Tree<E>)
    requires t.Node? && Plug(t, p) == whole
    ensures Rank(t, p) < |Inorder(whole)| && Inorder(whole)[Rank(t, p)] == t.item
  {
    PlugInorder(t, p);
  }

  /** The lowest node of the left spine, with the path down to it. */
  function LeftSpine<E>(t: Tree<E>, p: Path<E>): (r: (Tree<E>, Path<E>))
    requires t.Node?
    ensures r.0.Node? && r.0.left.Leaf?
  {
    if t.left.Leaf? then (t, p) else LeftSpine(t.left, InLeft(t.color, t.item, t.right, p))
  }

  lemma {:induction false} LeftSpineIsFirst<E>(t: Tree<E>, p: Path<E>)
    requires t.Node?
    ensures var (t', p') := LeftSpine(t, p);
      && t'.Node? && t'.left.Leaf? && Plug(t', p') == Plug(t, p) && Before(p') == Before(p)
      && Inorder(t) != [] && t'.item == Inorder(t)[0]
  {
    if t.left.Node? {
      LeftSpineIsFirst(t.left, InLeft(t.color, t.item, t.right, p));
    }
  }

  // ---------- colours ----------

  function ColorOf<E>(t: Tree<E>): Color {
    if t.Leaf? then Black else t.color
  }

  /** The colour above the hole; above the root there is nothing red. */
  function PathColor<E>(p: Path<E>): Color {
    if p.Top? then Black else p.color
  }

  function Side<E>(t: Tree<E>, left: bool): Tree<E>
    requires t.Node?
  {
    if left then t.left else t.right
  }

  function Paint<E>(t: Tree<E>, c: Color): Tree<E>
    requires t.Node?
  {
    t.(color := c)
  }

  function Weight(c: Color): nat {
    if c.Black? then 1 else 0
  }

  /** Black nodes from the root down the left spine. */
  function BlackHeight<E>(t: Tree<E>): nat {
    match t
    case Leaf => 0
    case Node(c, l, _, _) => BlackHeight(l) + Weight(c)
  }

  /** Every path down to a sentinel meets the same number of black nodes. */
  predicate Balanced<E>(t: Tree<E>) {
    match t
    case Leaf => true
    case Node(_, l, _, r) => Balanced(l) && Balanced(r) && BlackHeight(l) == BlackHeight(r)
  }

  predicate NoRedRed<E>(t: Tree<E>) {
    match t
    case Leaf => true
    case Node(c, l, _, r) =>
      NoRedRed(l) && NoRedRed(r) && (c.Red? ==> ColorOf(l).Black? && ColorOf(r).Black?)
  }

  predicate RedBlack<E>(t: Tree<E>) {
    Balanced(t) && NoRedRed(t) && ColorOf(t).Black?
  }

  /** The rest of the tree is balanced around a hole of black height `h`. */
  predicate PathBalanced<E>(p: Path<E>, h: nat)
    decreases p
  {
    p.Top? || (Balanced(p.sibling) && BlackHeight(p.sibling) == h && PathBalanced(p.up, h + Weight(p.color)))
  }

  predicate PathNoRedRed<E>(p: Path<E>) {
    p.Top? || (
      && NoRedRed(p.sibling)
      && (p.color.Red? ==> ColorOf(p.sibling).Black? && PathColor(p.up).Black?)
      && PathNoRedRed(p.up))
  }

  predicate RootBlack<E>(p: Path<E>) {
    p.Top? || (if p.up.Top? then p.color.Black? else RootBlack(p.up))
  }

  lemma {:induction false} PlugBalanced<E>(t: Tree<E>, p: Path<E>)
    ensures Balanced(Plug(t, p)) <==> Balanced(t) && PathBalanced(p, BlackHeight(t))
    decreases p
  {
    if !p.Top? {
      PlugBalanced(Lift(t, p), p.up);
    }
  }

  lemma {:induction false} PlugNoRedRed<E>(t: Tree<E>, p: Path<E>)
    ensures NoRedRed(Plug(t, p))
       <==> NoRedRed(t) && PathNoRedRed(p) && !(ColorOf(t).Red? && PathColor(p).Red?)
    decreases p
  {
    if !p.Top? {
      PlugNoRedRed(Lift(t, p), p.up);
    }
  }

  lemma {:induction false} PlugRoot<E>(t: Tree<E>, p: Path<E>)
    ensures ColorOf(Plug(t, p)).Black? <==> (if p.Top? then ColorOf(t).Black? else RootBlack(p))
    decreases p
  {
    if !p.Top? {
      PlugRoot(Lift(t, p), p.up);
    }
  }

  /** Nodes on the longest way down. */
  function Height<E>(t: Tree<E>): nat {
    match t
    case Leaf => 0
    case Node(_, l, _, r) => 1 + if Height(l) < Height(r) then Height(r) else Height(l)
  }

  function Pow2(n: nat): nat {
    if n == 0 then 1 else 2 * Pow2(n - 1)
  }

  lemma {:induction false} ColorsBoundHeight<E>(t: Tree<E>)
    requires Balanced(t) && NoRedRed(t)
    ensures Height(t) <= 2 * BlackHeight(t) + if ColorOf(t).Red? then 1 else 0
    ensures Pow2(BlackHeight(t)) <= |Inorder(t)| + 1
  {
    if t.Node? {
      ColorsBoundHeight(t.left);
      ColorsBoundHeight(t.right);
    }
  }

  /** What the colours are for: n elements lie at most twice the logarithm of n + 1 deep. */
  lemma HeightIsLogarithmic<E>(t: Tree<E>)
    requires RedBlack(t)
    ensures Pow2((Height(t) + 1) / 2) <= |Inorder(t)| + 1
  {
    ColorsBoundHeight(t);
    PowGrows((Height(t) + 1) / 2, BlackHeight(t));
  }

  lemma {:induction false} PowGrows(m: nat, n: nat)
    requires m <= n
    ensures Pow2(m) <= Pow2(n)
  {
    if m < n {
      PowGrows(m, n - 1);
    }
  }

  function Size<E>(p: Path<E>): nat {
    if p.Top? then 0 else 1 + Size(p.up)
  }

  // ---------- insertion ----------

  /** The insert loop's state: all of red-black holds, except that the red focus may sit under a red parent. */
  predicate AlmostRedBlack<E>(t: Tree<E>, p: Path<E>) {
    && t.Node? && t.color.Red? && Balanced(t) && NoRedRed(t)
    && PathBalanced(p, BlackHeight(t)) && PathNoRedRed(p) && RootBlack(p)
  }

  /** All the insert loop needs to run: whatever the colours below, the root is black. */
  predicate CanRise<E>(t: Tree<E>, p: Path<E>) {
    t.Node? && RootBlack(p)
  }

  /** A red leaf in place of a sentinel keeps every black count, and the only red-red edge it can make
      is the one to its own parent. */
  lemma RedLeafKeeps<E>(p: Path<E>, x: E)
    requires RedBlack(Plug(Leaf, p))
    ensures var t := Node(Red, Leaf, x, Leaf);
      && Balanced(Plug(t, p))
      && AlmostRedBlack(t, p)
      && (NoRedRed(Plug(t, p)) <==> PathColor(p).Black?)
  {
    var t := Node(Red, Leaf, x, Leaf);
    PlugBalanced(Leaf, p);
    PlugNoRedRed(Leaf, p);
    PlugRoot(Leaf, p);
    PlugBalanced(t, p);
    PlugNoRedRed(t, p);
  }

  /** The red leaf under a black root: the loop can run, the root stays black, and the tree is red-black with
      no repair at all exactly when the leaf's parent is black. */
  lemma LeafRises<E>(p: Path<E>, x: E, was: Tree<E>)
    requires !p.Top? && Plug(Leaf, p) == was && ColorOf(was).Black?
    ensures var t := Node(Red, Leaf, x, Leaf);
      && CanRise(t, p) && ColorOf(Plug(t, p)).Black?
      && (RedBlack(was) ==> AlmostRedBlack(t, p) && (RedBlack(Plug(t, p)) <==> PathColor(p).Black?))
  {
    var t := Node(Red, Leaf, x, Leaf);
    PlugRoot(Leaf, p);
    PlugRoot(t, p);
    if RedBlack(was) {
      RedLeafKeeps(p, x);
    }
  }

  /** A red parent is never the root, so there is a black grandparent. */
  lemma GrandparentExists<E>(t: Tree<E>, p: Path<E>)
    requires CanRise(t, p) && PathColor(p).Red?
    ensures !p.Top? && !p.up.Top?
    ensures AlmostRedBlack(t, p) ==> p.up.color.Black?
  {
  }

  /** Lines 39-43 and 61-65: parent and uncle turn black, the grandparent red and becomes the focus. */
  function Recolored<E>(t: Tree<E>, p: Path<E>): Tree<E>
    requires !p.Top? && !p.up.Top? && p.up.sibling.Node?
  {
    Lift(Lift(t, p.(color := Black)), p.up.(color := Red, sibling := Paint(p.up.sibling, Black)))
  }

  lemma RecoloredKeeps<E>(t: Tree<E>, p: Path<E>)
    requires AlmostRedBlack(t, p) && PathColor(p).Red? && !p.up.Top? && ColorOf(p.up.sibling).Red?
    ensures AlmostRedBlack(Recolored(t, p), p.up.up)
  {
    var p' := p.up.up;
    assert PathBalanced(p.up, BlackHeight(t)) && PathNoRedRed(p.up) && PathBalanced(p', BlackHeight(t) + 1);
    assert RootBlack(p.up);
    var parent, uncle := Lift(t, p.(color := Black)), Paint(p.up.sibling, Black);
    assert Balanced(parent) && NoRedRed(parent) && BlackHeight(parent) == BlackHeight(t) + 1;
    assert Balanced(uncle) && NoRedRed(uncle) && BlackHeight(uncle) == BlackHeight(p.up.sibling) + 1;
  }

  lemma RecoloredInorder<E>(t: Tree<E>, p: Path<E>)
    requires !p.Top? && !p.up.Top? && p.up.sibling.Node?
    ensures Inorder(Plug(Recolored(t, p), p.up.up)) == Inorder(Plug(t, p))
  {
    assert Inorder(Lift(t, p.(color := Black))) == Inorder(Lift(t, p));
    assert Inorder(Recolored(t, p)) == Inorder(Lift(Lift(t, p), p.up));
    PlugInorder(Recolored(t, p), p.up.up);
    PlugInorder(Lift(Lift(t, p), p.up), p.up.up);
  }

  // ---------- rotations ----------

  predicate CanRotateLeft<E>(t: Tree<E>) {
    t.Node? && t.right.Node?
  }

  predicate CanRotateRight<E>(t: Tree<E>) {
    t.Node? && t.left.Node?
  }

  function RotatedLeft<E>(t: Tree<E>): Tree<E>
    requires CanRotateLeft(t)
  {
    t.right.(left := t.(right := t.right.left))
  }

  function RotatedRight<E>(t: Tree<E>): Tree<E>
    requires CanRotateRight(t)
  {
    t.left.(right := t.(left := t.left.right))
  }

  /** Rotations never move an element, and they undo each other. */
  lemma RotationsKeepOrder<E>(t: Tree<E>, p: Path<E>)
    ensures CanRotateLeft(t) ==> Inorder(Plug(RotatedLeft(t), p)) == Inorder(Plug(t, p))
                                 && RotatedRight(RotatedLeft(t)) == t
    ensures CanRotateRight(t) ==> Inorder(Plug(RotatedRight(t), p)) == Inorder(Plug(t, p))
                                  && RotatedLeft(RotatedRight(t)) == t
  {
    hide Inorder;
    RotationsKeepInorder(t);
    PlugInorder(t, p);
    if CanRotateLeft(t) {
      PlugInorder(RotatedLeft(t), p);
    }
    if CanRotateRight(t) {
      PlugInorder(RotatedRight(t), p);
    }
  }

  lemma RotationsKeepInorder<E>(t: Tree<E>)
    ensures CanRotateLeft(t) ==> Inorder(RotatedLeft(t)) == Inorder(t)
    ensures CanRotateRight(t) ==> Inorder(RotatedRight(t)) == Inorder(t)
  {
  }

  /** The focus is an inner grandchild: its parent and grandparent frames turn different ways. */
  predicate Inner<E>(p: Path<E>)
    requires !p.Top? && !p.up.Top?
  {
    p.InRight? == p.up.InLeft?
  }

  /** Lines 47-50 and 69-72: rotating the parent makes it the focus, now an outer grandchild. */
  function Turned<E>(t: Tree<E>, p: Path<E>): (Tree<E>, Path<E>)
    requires t.Node? && !p.Top?
  {
    if p.InRight? then
      var r := RotatedLeft(Lift(t, p));
      (r.left, InLeft(r.color, r.item, r.right, p.up))
    else
      var r := RotatedRight(Lift(t, p));
      (r.right, InRight(r.color, r.left, r.item, p.up))
  }

  /** The focus as an outer grandchild, turned if need be. */
  function Outer<E>(t: Tree<E>, p: Path<E>): (Tree<E>, Path<E>)
    requires t.Node? && !p.Top? && !p.up.Top?
  {
    if Inner(p) then Turned(t, p) else (t, p)
  }

  lemma TurnedKeeps<E>(t: Tree<E>, p: Path<E>)
    requires CanRise(t, p) && PathColor(p).Red? && !p.up.Top? && Inner(p)
    ensures var (t', p') := Turned(t, p);
      && CanRise(t', p') && !p'.Top? && p'.up == p.up && !Inner(p')
      && Inorder(Plug(t', p')) == Inorder(Plug(t, p))
      && (AlmostRedBlack(t, p) ==> AlmostRedBlack(t', p') && PathColor(p').Red?)
  {
    hide AlmostRedBlack, Inorder;
    RotationsKeepOrder(Lift(t, p), p.up);
    if AlmostRedBlack(t, p) {
      TurnedIsAlmost(t, p);
    }
  }

  lemma TurnedIsAlmost<E>(t: Tree<E>, p: Path<E>)
    requires AlmostRedBlack(t, p) && PathColor(p).Red? && !p.up.Top? && Inner(p)
    ensures var (t', p') := Turned(t, p); AlmostRedBlack(t', p') && PathColor(p').Red?
  {
  }

  /** Lines 52-54 and 74-76: parent black, grandparent red, and the grandparent rotated away. */
  function Settled<E>(p: Path<E>): Path<E>
    requires !p.Top? && !p.up.Top?
  {
    match p
    case InLeft(_, parent, sib, g) => InLeft(Black, parent, Node(Red, sib, g.item, g.sibling), g.up)
    case InRight(_, sib, parent, g) => InRight(Black, Node(Red, g.sibling, g.item, sib), parent, g.up)
  }

  lemma SettledIsRotation<E>(t: Tree<E>, p: Path<E>)
    requires !p.Top? && !p.up.Top? && !Inner(p)
    ensures var g := Lift(Lift(t, p.(color := Black)), p.up.(color := Red));
      if p.InLeft? then CanRotateRight(g) && RotatedRight(g) == Lift(t, Settled(p))
      else CanRotateLeft(g) && RotatedLeft(g) == Lift(t, Settled(p))
  {
  }

  lemma SettledKeeps<E>(t: Tree<E>, p: Path<E>)
    requires AlmostRedBlack(t, p) && PathColor(p).Red? && !p.up.Top? && !Inner(p) && ColorOf(p.up.sibling).Black?
    ensures AlmostRedBlack(t, Settled(p)) && PathColor(Settled(p)).Black?
  {
    assert PathBalanced(p.up, BlackHeight(t)) && PathNoRedRed(p.up) && PathBalanced(p.up.up, BlackHeight(t) + 1);
    assert RootBlack(p.up);
  }

  lemma SettledInorder<E>(t: Tree<E>, p: Path<E>)
    requires !p.Top? && !p.up.Top? && !Inner(p)
    ensures Inorder(Plug(t, Settled(p))) == Inorder(Plug(t, p))
    ensures CanRise(t, p) ==> CanRise(t, Settled(p))
  {
    assert CanRise(t, p) ==> RootBlack(p.up);
    assert Inorder(Lift(t, Settled(p))) == Inorder(Lift(Lift(t, p), p.up));
    PlugInorder(Lift(t, Settled(p)), p.up.up);
    PlugInorder(Lift(Lift(t, p), p.up), p.up.up);
  }

  /** Where one round takes the focus: up two levels under a red uncle, else into place. */
  function Risen<E>(t: Tree<E>, p: Path<E>): (Tree<E>, Path<E>)
    requires CanRise(t, p) && !p.Top? && !p.up.Top?
  {
    if ColorOf(p.up.sibling).Red? then (Recolored(t, p), p.up.up)
    else
      var (t', p') := Outer(t, p);
      (t', Settled(p'))
  }

  /** Whatever the colours, one round keeps the order and a black root and shortens the path; and it keeps
      a tree with one red-red edge at most, at the focus, such a tree. */
  lemma StepKeeps<E>(t: Tree<E>, p: Path<E>)
    requires CanRise(t, p) && PathColor(p).Red? && !p.up.Top?
    ensures var (t', p') := Risen(t, p);
      && CanRise(t', p') && Size(p') < Size(p) && Inorder(Plug(t', p')) == Inorder(Plug(t, p))
      && (AlmostRedBlack(t, p) ==> AlmostRedBlack(t', p'))
  {
    assert RootBlack(p.up);
    if ColorOf(p.up.sibling).Red? {
      if AlmostRedBlack(t, p) {
        RecoloredKeeps(t, p);
      }
      RecoloredInorder(t, p);
    } else {
      if Inner(p) {
        TurnedKeeps(t, p);
      }
      var (t', p') := Outer(t, p);
      if AlmostRedBlack(t, p) {
        SettledKeeps(t', p');
      }
      SettledInorder(t', p');
    }
  }

  /** The loop has stopped; blackening the root (line 81) keeps the order, and makes a tree that was to be
      repaired red-black. */
  lemma SettledTree<E>(t: Tree<E>, p: Path<E>)
    requires CanRise(t, p) && PathColor(p).Black?
    ensures var whole := Plug(t, p);
      && whole.Node? && Inorder(Paint(whole, Black)) == Inorder(whole)
      && (AlmostRedBlack(t, p) ==> RedBlack(Paint(whole, Black)))
  {
    PlugBalanced(t, p);
    PlugNoRedRed(t, p);
    PlugIsNode(t, p);
    if AlmostRedBlack(t, p) {
      BlackenRoot(Plug(t, p));
    }
  }

  lemma {:induction false} PlugIsNode<E>(t: Tree<E>, p: Path<E>)
    requires t.Node?
    ensures Plug(t, p).Node?
    decreases p
  {
    if !p.Top? {
      PlugIsNode(Lift(t, p), p.up);
    }
  }

  /** Colour of the root after the final rbt_black(*root) (line 81). */
  lemma BlackenRoot<E>(t: Tree<E>)
    requires t.Node? && Balanced(t) && NoRedRed(t)
    ensures RedBlack(Paint(t, Black)) && Inorder(Paint(t, Black)) == Inorder(t)
  {
  }
}
