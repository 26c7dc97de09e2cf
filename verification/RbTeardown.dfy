/** The order in which rbtree_destroy (keyvalue.c) takes a tree apart: children before parents. */
module RbTeardown {
  import opened RbShape

  function Postorder<E>(t: Tree<E>): seq<E> {
    match t
    case Leaf => []
    case Node(_, l, x, r) => Postorder(l) + Postorder(r) + [x]
  }

  /** The walk goes right only when the left side is gone. */
  predicate LeftsGone<E>(p: Path<E>) {
    p.Top? || ((p.InRight? ==> p.sibling.Leaf?) && LeftsGone(p.up))
  }

  /** What is left to free once the subtree in the hole is gone. */
  function Owing<E>(p: Path<E>): seq<E> {
    match p
    case Top => []
    case InLeft(_, x, r, up) => Postorder(r) + [x] + Owing(up)
    case InRight(_, _, x, up) => [x] + Owing(up)
  }

  /** What is left to free, the subtree in the hole first. */
  function Remaining<E>(t: Tree<E>, p: Path<E>): seq<E> {
    Postorder(t) + Owing(p)
  }

  lemma WalkLeft<E>(t: Tree<E>, p: Path<E>)
    requires t.Node? && LeftsGone(p)
    ensures Remaining(t.left, InLeft(t.color, t.item, t.right, p)) == Remaining(t, p)
    ensures LeftsGone(InLeft(t.color, t.item, t.right, p))
  {
  }

  lemma WalkRight<E>(t: Tree<E>, p: Path<E>)
    requires t.Node? && t.left.Leaf? && LeftsGone(p)
    ensures Remaining(t.right, InRight(t.color, t.left, t.item, p)) == Remaining(t, p)
    ensures LeftsGone(InRight(t.color, t.left, t.item, p))
  {
    assert Postorder(t) == Postorder(t.right) + [t.item];
  }

  /** A childless node goes, and its parent is next to be looked at. */
  lemma FreeLeaf<E>(t: Tree<E>, p: Path<E>)
    requires t.Node? && t.left.Leaf? && t.right.Leaf? && LeftsGone(p)
    ensures p.Top? ==> Remaining(t, p) == [t.item]
    ensures !p.Top? ==> Remaining(t, p) == [t.item] + Remaining(Lift(Leaf, p), p.up) && LeftsGone(p.up)
  {
    assert Postorder(t) == [t.item];
    if p.InLeft? {
      assert Postorder(Lift(Leaf, p)) == Postorder(p.sibling) + [p.item];
    } else if p.InRight? {
      assert Postorder(Lift(Leaf, p)) == [p.item];
    }
  }

  /** Every element is freed, and as often as it occurs. */
  lemma {:induction false} PostorderIsInorder<E>(t: Tree<E>)
    ensures multiset(Postorder(t)) == multiset(Inorder(t))
  {
    if t.Node? {
      PostorderIsInorder(t.left);
      PostorderIsInorder(t.right);
    }
  }
}
