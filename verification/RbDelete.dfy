/** What rbtree_delete does to the shape: the splice, and the fix-up loop. */
module RbDelete {
  import opened RbShape

  // ---------- the two sides at once ----------

  function Hole<E>(left: bool, c: Color, x: E, sibling: Tree<E>, up: Path<E>): Path<E> {
    if left then InLeft(c, x, sibling, up) else InRight(c, sibling, x, up)
  }

  /** `near` is on the side named by `left`. */
  function Join<E>(left: bool, c: Color, near: Tree<E>, x: E, far: Tree<E>): Tree<E> {
    if left then Node(c, near, x, far) else Node(c, far, x, near)
  }

  // ---------- the fix-up loop ----------

  /** The loop's state: the focus is one black node short, and may stand under a red parent and over
      red children; all else is red-black. */
  predicate Deficit<E>(t: Tree<E>, p: Path<E>) {
    && Balanced(t) && (t.Node? ==> NoRedRed(t.left) && NoRedRed(t.right))
    && PathBalanced(p, BlackHeight(t) + 1) && PathNoRedRed(p) && RootBlack(p)
  }

  /** The loop stops at a red focus or at the root; rbt_black(temp) pays the debt. */
  lemma PaidOff<E>(t: Tree<E>, p: Path<E>)
    requires Deficit(t, p) && (p.Top? || ColorOf(t).Red?)
    ensures t.Node? ==> RedBlack(Plug(Paint(t, Black), p)) && Inorder(Plug(Paint(t, Black), p)) == Inorder(Plug(t, p))
    ensures t.Leaf? ==> p.Top? && RedBlack(Plug(t, p))
  {
    if t.Node? {
      var b := Paint(t, Black);
      PlugBalanced(b, p);
      PlugNoRedRed(b, p);
      PlugRoot(b, p);
      PlugInorder(b, p);
      PlugInorder(t, p);
    }
  }

  /** Short of a black node below the root, the focus has a real sibling. */
  lemma HasSibling<E>(t: Tree<E>, p: Path<E>)
    requires Deficit(t, p) && !p.Top?
    ensures p.sibling.Node? && BlackHeight(p.sibling) == BlackHeight(t) + 1
    ensures ColorOf(p.sibling).Red? ==> p.sibling.left.Node? && p.sibling.right.Node?
  {
  }

  predicate CanSink<E>(p: Path<E>) {
    !p.Top? && p.sibling.Node?
  }

  /** A red sibling: it turns black, the parent red, and the parent is rotated down. */
  function Sunk<E>(p: Path<E>): Path<E>
    requires CanSink(p)
  {
    var left, w := p.InLeft?, p.sibling;
    Hole(left, Red, p.item, Side(w, left), Hole(left, Black, w.item, Side(w, !left), p.up))
  }

  /** A black sibling with black children: it turns red, and the parent is the new focus. */
  function Bled<E>(t: Tree<E>, p: Path<E>): Tree<E>
    requires CanSink(p)
  {
    Lift(t, p.(sibling := Paint(p.sibling, Red)))
  }

  predicate CanStraighten<E>(p: Path<E>) {
    CanSink(p) && Side(p.sibling, p.InLeft?).Node?
  }

  /** Only the near child of the sibling is red: it takes the sibling's place. */
  function Straightened<E>(p: Path<E>): Path<E>
    requires CanStraighten(p)
  {
    var left, w := p.InLeft?, p.sibling;
    var near := Side(w, left);
    p.(sibling := Join(left, Black, Side(near, left), near.item,
        Join(left, Red, Side(near, !left), w.item, Side(w, !left))))
  }

  /** The far child of the sibling is red: the sibling takes the parent's place and colour. */
  function Fixed<E>(t: Tree<E>, p: Path<E>): Tree<E>
    requires CanSink(p) && Side(p.sibling, !p.InLeft?).Node?
  {
    var left, w := p.InLeft?, p.sibling;
    Join(left, p.color, Join(left, Black, t, p.item, Side(w, left)), w.item, Paint(Side(w, !left), Black))
  }

  lemma SunkKeeps<E>(t: Tree<E>, p: Path<E>)
    requires Deficit(t, p) && CanSink(p) && ColorOf(p.sibling).Red?
    ensures Deficit(t, Sunk(p)) && CanSink(Sunk(p)) && ColorOf(Sunk(p).sibling).Black? && Sunk(p).color.Red?
    ensures Size(Sunk(p).up) == Size(p) && Inorder(Plug(t, Sunk(p))) == Inorder(Plug(t, p))
  {
    var w, left := p.sibling, p.InLeft?;
    HasSibling(t, p);
    assert BlackHeight(w.left) == BlackHeight(w.right) == BlackHeight(t) + 1;
    assert Inorder(Lift(Lift(t, Sunk(p)), Sunk(p).up)) == Inorder(Lift(t, p));
    PlugInorder(Lift(t, p), p.up);
    PlugInorder(Lift(Lift(t, Sunk(p)), Sunk(p).up), p.up);
  }

  lemma BledKeeps<E>(t: Tree<E>, p: Path<E>)
    requires Deficit(t, p) && CanSink(p) && ColorOf(t).Black? && p.sibling.color.Black?
    requires ColorOf(p.sibling.left).Black? && ColorOf(p.sibling.right).Black?
    ensures Deficit(Bled(t, p), p.up) && ColorOf(Bled(t, p)) == p.color
    ensures Inorder(Plug(Bled(t, p), p.up)) == Inorder(Plug(t, p))
  {
    assert Inorder(Bled(t, p)) == Inorder(Lift(t, p));
    PlugInorder(Bled(t, p), p.up);
    PlugInorder(Lift(t, p), p.up);
  }

  lemma StraightSibling<E>(p: Path<E>)
    requires CanStraighten(p) && p.sibling.color.Black? && Balanced(p.sibling) && NoRedRed(p.sibling)
    requires ColorOf(Side(p.sibling, p.InLeft?)).Red? && ColorOf(Side(p.sibling, !p.InLeft?)).Black?
    ensures var w := Straightened(p).sibling;
      && w.Node? && w.color.Black? && Balanced(w) && NoRedRed(w) && BlackHeight(w) == BlackHeight(p.sibling)
      && ColorOf(Side(w, !p.InLeft?)).Red? && Inorder(w) == Inorder(p.sibling)
  {
    var w, left := p.sibling, p.InLeft?;
    var near, far, w' := Side(w, left), Side(w, !left), Straightened(p).sibling;
    var inner := Side(w', !left);
    assert BlackHeight(near.left) == BlackHeight(near.right) == BlackHeight(near) == BlackHeight(far);
    assert Balanced(inner) && NoRedRed(inner) && BlackHeight(inner) == BlackHeight(near);
    assert Inorder(near) == Inorder(near.left) + [near.item] + Inorder(near.right);
  }

  lemma StraightenedKeeps<E>(t: Tree<E>, p: Path<E>)
    requires Deficit(t, p) && CanStraighten(p) && p.sibling.color.Black?
    requires ColorOf(Side(p.sibling, p.InLeft?)).Red? && ColorOf(Side(p.sibling, !p.InLeft?)).Black?
    ensures Deficit(t, Straightened(p)) && ColorOf(Straightened(p).sibling).Black?
    ensures ColorOf(Side(Straightened(p).sibling, !p.InLeft?)).Red?
    ensures Inorder(Plug(t, Straightened(p))) == Inorder(Plug(t, p))
  {
    StraightSibling(p);
    hide Inorder;
    SwapSibling(t, p, Straightened(p).sibling);
  }

  lemma SwapSibling<E>(t: Tree<E>, p: Path<E>, w: Tree<E>)
    requires !p.Top? && Inorder(w) == Inorder(p.sibling)
    ensures Inorder(Plug(t, p.(sibling := w))) == Inorder(Plug(t, p))
  {
    PlugInorder(Lift(t, p), p.up);
    PlugInorder(Lift(t, p.(sibling := w)), p.up);
  }

  /** The rotation around the parent, with its colours. */
  lemma FixedTree<E>(t: Tree<E>, p: Path<E>)
    requires Deficit(t, p) && CanSink(p) && ColorOf(t).Black? && p.sibling.color.Black?
    requires ColorOf(Side(p.sibling, !p.InLeft?)).Red?
    ensures var f := Fixed(t, p);
      && f.Node? && f.color == p.color && Balanced(f) && NoRedRed(f)
          && BlackHeight(f) == BlackHeight(t) + 1 + Weight(p.color)
  {
    var f, w, left := Fixed(t, p), p.sibling, p.InLeft?;
    var near, far, inner := Side(w, left), Side(w, !left), Side(f, left);
    assert Balanced(near) && NoRedRed(near) && Balanced(far) && NoRedRed(far) && NoRedRed(t);
    assert BlackHeight(near) == BlackHeight(far) == BlackHeight(t);
    assert Balanced(inner) && NoRedRed(inner) && BlackHeight(inner) == BlackHeight(t) + 1;
    assert Balanced(Side(f, !left)) && NoRedRed(Side(f, !left)) && BlackHeight(Side(f, !left)) == BlackHeight(t) + 1;
  }

  lemma FixedInorder<E>(t: Tree<E>, p: Path<E>)
    requires CanSink(p) && Side(p.sibling, !p.InLeft?).Node?
    ensures Inorder(Fixed(t, p)) == Inorder(Lift(t, p))
  {
    var w := p.sibling;
    if p.InLeft? {
      Chain5(Inorder(t), [p.item], Inorder(w.left), [w.item], Inorder(w.right));
    } else {
      Chain5(Inorder(w.left), [w.item], Inorder(w.right), [p.item], Inorder(t));
    }
  }

  lemma Chain5<E>(a: seq<E>, b: seq<E>, c: seq<E>, d: seq<E>, e: seq<E>)
    ensures (a + b + c) + d + e == a + b + c + d + e == a + b + (c + d + e)
  {
  }

  lemma FixedKeeps<E>(t: Tree<E>, p: Path<E>)
    requires Deficit(t, p) && CanSink(p) && ColorOf(t).Black? && p.sibling.color.Black?
    requires ColorOf(Side(p.sibling, !p.InLeft?)).Red?
    ensures Deficit(Plug(Fixed(t, p), p.up), Top)
    ensures Inorder(Plug(Fixed(t, p), p.up)) == Inorder(Plug(t, p))
  {
    var f := Fixed(t, p);
    FixedTree(t, p);
    FixedInorder(t, p);
    PlugBalanced(f, p.up);
    PlugNoRedRed(f, p.up);
    PlugInorder(f, p.up);
    PlugInorder(Lift(t, p), p.up);
    assert NoRedRed(Plug(f, p.up));
  }

  predicate BothBlack<E>(w: Tree<E>)
    requires w.Node?
  {
    ColorOf(w.left).Black? && ColorOf(w.right).Black?
  }

  /** The path once the far child of the black sibling is red. */
  function RedFar<E>(p: Path<E>): Path<E>
    requires CanSink(p)
  {
    if ColorOf(Side(p.sibling, !p.InLeft?)).Black? && CanStraighten(p) then Straightened(p) else p
  }

  /** With a black sibling, one round moves the debt up one level, or pays it. */
  lemma FixKeeps<E>(t: Tree<E>, p: Path<E>)
    requires Deficit(t, p) && CanSink(p) && ColorOf(t).Black? && p.sibling.color.Black?
    ensures BothBlack(p.sibling) ==>
      && Deficit(Bled(t, p), p.up) && ColorOf(Bled(t, p)) == p.color && Size(p.up) + 1 == Size(p)
      && Inorder(Plug(Bled(t, p), p.up)) == Inorder(Plug(t, p))
    ensures !BothBlack(p.sibling) ==> var q := RedFar(p);
      && (ColorOf(Side(p.sibling, !p.InLeft?)).Black? ==> CanStraighten(p) && q == Straightened(p))
      && (ColorOf(Side(p.sibling, !p.InLeft?)).Red? ==> q == p)
      && CanSink(q) && Side(q.sibling, !q.InLeft?).Node? && q.InLeft? == p.InLeft?
      && Deficit(Plug(Fixed(t, q), q.up), Top) && Inorder(Plug(Fixed(t, q), q.up)) == Inorder(Plug(t, p))
  {
    if BothBlack(p.sibling) {
      BledKeeps(t, p);
    } else {
      if ColorOf(Side(p.sibling, !p.InLeft?)).Black? {
        StraightenedKeeps(t, p);
      }
      FixedKeeps(t, RedFar(p));
    }
  }

  // ---------- taking the node out ----------

  /** The tree without its first node. */
  function WithoutFirst<E>(t: Tree<E>): Tree<E>
    requires t.Node?
  {
    if t.left.Leaf? then t.right else t.(left := WithoutFirst(t.left))
  }

  /** Same colours and same subtrees beside the path; the items on it may differ. */
  ghost predicate SameColors<E>(p: Path<E>, q: Path<E>)
    decreases p
  {
    if p.Top? then q.Top?
    else
      && !q.Top? && p.InLeft? == q.InLeft? && p.color == q.color && p.sibling == q.sibling
      && SameColors(p.up, q.up)
  }

  lemma {:induction false} SameColorsKeep<E>(p: Path<E>, q: Path<E>, h: nat)
    requires SameColors(p, q)
    ensures PathBalanced(p, h) <==> PathBalanced(q, h)
    ensures PathNoRedRed(p) <==> PathNoRedRed(q)
    ensures (RootBlack(p) <==> RootBlack(q)) && PathColor(p) == PathColor(q)
    decreases p
  {
    if !p.Top? {
      SameColorsKeep(p.up, q.up, h + Weight(p.color));
    }
  }

  lemma {:induction false} SpineSameColors<E>(t: Tree<E>, p: Path<E>, q: Path<E>)
    requires t.Node? && SameColors(p, q)
    ensures SameColors(LeftSpine(t, p).1, LeftSpine(t, q).1) && LeftSpine(t, p).0 == LeftSpine(t, q).0
  {
    if t.left.Node? {
      SpineSameColors(t.left, InLeft(t.color, t.item, t.right, p), InLeft(t.color, t.item, t.right, q));
    }
  }

  lemma {:induction false} SpineRejoins<E>(t: Tree<E>, p: Path<E>)
    requires t.Node?
    ensures var (t', p') := LeftSpine(t, p);
      && t'.Node? && t'.left.Leaf? && Plug(t'.right, p') == Plug(WithoutFirst(t), p)
      && Inorder(t) == [t'.item] + Inorder(WithoutFirst(t))
  {
    if t.left.Node? {
      SpineRejoins(t.left, InLeft(t.color, t.item, t.right, p));
    }
  }

  /** Where the hole ends up, and what fills it: the subtree that replaces the unlinked node. */
  function Unlinked<E>(t: Tree<E>, p: Path<E>): (Tree<E>, Path<E>)
    requires t.Node?
  {
    if t.left.Leaf? then (t.right, p)
    else if t.right.Leaf? then (t.left, p)
    else
      var y := LeftSpine(t.right, p).0;
      LeftSpineIsFirst(t.right, p);
      (y.right, LeftSpine(t.right, InRight(t.color, t.left, y.item, p)).1)
  }

  /** The colour of the node that leaves its place. */
  function LostColor<E>(t: Tree<E>): Color
    requires t.Node?
  {
    if t.left.Leaf? || t.right.Leaf? then t.color else ColorOf(LeftSpine(t.right, Top).0)
  }

  ghost predicate Without<E>(was: seq<E>, k: nat, now: seq<E>) {
    k < |was| && now == was[..k] + was[k + 1..]
  }

  /** The splice takes exactly one element out of the in-order sequence. A black one leaves a debt of one
      black node behind; a red one leaves nothing to repair. */
  lemma UnlinkedKeeps<E>(t: Tree<E>, p: Path<E>)
    requires t.Node? && RedBlack(Plug(t, p))
    ensures var (k, q) := Unlinked(t, p);
      && Without(Inorder(Plug(t, p)), Rank(t, p), Inorder(Plug(k, q)))
      && (LostColor(t).Red? ==> RedBlack(Plug(k, q)))
      && (LostColor(t).Black? ==> Deficit(k, q))
  {
    UnlinkedOrder(t, p);
    var (k, q) := Unlinked(t, p);
    if t.left.Node? && t.right.Node? {
      var above := InRight(t.color, t.left, t.item, p);
      var (y, under) := LeftSpine(t.right, above);
      var base := InRight(t.color, t.left, y.item, p);
      LeftSpineIsFirst(t.right, above);
      SpineSameItem(t.right, p, above);
      SpineSameItem(t.right, Top, above);
      SameColorsRefl(p);
      SpineSameColors(t.right, above, base);
      SpliceOut(y, k, under, q);
    } else {
      SameColorsRefl(p);
      SpliceOut(t, k, p, p);
    }
  }

  lemma {:induction false} SameColorsRefl<E>(p: Path<E>)
    ensures SameColors(p, p)
    decreases p
  {
    if !p.Top? {
      SameColorsRefl(p.up);
    }
  }

  /** Replacing a node by its only child. */
  lemma SpliceOut<E>(t: Tree<E>, k: Tree<E>, p: Path<E>, q: Path<E>)
    requires t.Node? && RedBlack(Plug(t, p)) && SameColors(p, q)
    requires (t.left.Leaf? && k == t.right) || (t.right.Leaf? && k == t.left)
    ensures t.color.Red? ==> RedBlack(Plug(k, q))
    ensures t.color.Black? ==> Deficit(k, q)
  {
    PlugBalanced(t, p);
    PlugNoRedRed(t, p);
    PlugRoot(t, p);
    SameColorsKeep(p, q, BlackHeight(t));
    PlugBalanced(k, q);
    PlugNoRedRed(k, q);
    PlugRoot(k, q);
  }

  lemma UnlinkedOrder<E>(t: Tree<E>, p: Path<E>)
    requires t.Node?
    ensures var (k, q) := Unlinked(t, p); Without(Inorder(Plug(t, p)), Rank(t, p), Inorder(Plug(k, q)))
  {
    hide Unlinked, Plug, Before, After, Without;
    PlugInorder(t, p);
    DropOne(Before(p), Inorder(t.left), t.item, Inorder(t.right), After(p));
    UnlinkedInorder(t, p);
  }

  lemma UnlinkedInorder<E>(t: Tree<E>, p: Path<E>)
    requires t.Node?
    ensures var (k, q) := Unlinked(t, p);
      Inorder(Plug(k, q)) == Before(p) + (Inorder(t.left) + Inorder(t.right)) + After(p)
  {
    if t.left.Node? && t.right.Node? {
      var joined := Rejoined(t, p);
      hide Unlinked, Plug, Inorder, Before, After;
      PlugInorder(joined, p);
    } else {
      hide Plug, Before, After;
      PlugInorder(Unlinked(t, p).0, p);
      assert Inorder(Unlinked(t, p).0) == Inorder(t.left) + Inorder(t.right);
    }
  }

  /** With the first of the right side moved into its place. */
  lemma Rejoined<E>(t: Tree<E>, p: Path<E>) returns (joined: Tree<E>)
    requires t.Node? && t.left.Node? && t.right.Node?
    ensures Plug(Unlinked(t, p).0, Unlinked(t, p).1) == Plug(joined, p)
    ensures Inorder(joined) == Inorder(t.left) + Inorder(t.right)
  {
    var y := LeftSpine(t.right, p).0.item;
    var base := InRight(t.color, t.left, y, p);
    SpineSameItem(t.right, p, base);
    SpineRejoins(t.right, base);
    joined := Node(t.color, t.left, y, WithoutFirst(t.right));
    assert Inorder(joined) == Inorder(t.left) + Inorder(t.right);
  }

  lemma DropOne<E>(b: seq<E>, l: seq<E>, x: E, r: seq<E>, c: seq<E>)
    ensures Without(b + (l + [x] + r) + c, |b| + |l|, b + (l + r) + c)
  {
    var was := b + (l + [x] + r) + c;
    assert was[..|b| + |l|] == b + l;
    assert was[|b| + |l| + 1..] == r + c;
  }

  lemma {:induction false} SpineSameItem<E>(t: Tree<E>, p: Path<E>, q: Path<E>)
    requires t.Node?
    ensures LeftSpine(t, p).0 == LeftSpine(t, q).0
  {
    if t.left.Node? {
      SpineSameItem(t.left, InLeft(t.color, t.item, t.right, p), InLeft(t.color, t.item, t.right, q));
    }
  }
}
