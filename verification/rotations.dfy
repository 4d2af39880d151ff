/** The two rotation primitives, on the subtree rooted at the rotated node.
    Relinking the rotated subtree into its parent (or making it the root) is
    the zipper's job: see Zippers.RotateLeft / Zippers.RotateRight. */
module Rotations {
  import opened Trees

  /** Promotes the right child: Node(c, a, k, Node(rc, b, rk, d)) becomes
      Node(rc, Node(c, a, k, b), rk, d). The right child must exist. */
  function LeftRotate(t: Tree): (r: Tree)
    requires t.Node? && t.right.Node?
    ensures r.Node? && r.left.Node?
    ensures InOrder(r) == InOrder(t)
    ensures InOrderEntries(r) == InOrderEntries(t)
    ensures Keys(r) == Keys(t)
    ensures RightRotate(r) == t
  {
    var rc := t.right;
    Node(rc.color, Node(t.color, t.left, t.key, rc.left), rc.key, rc.right)
  }

  /** Promotes the left child: Node(c, Node(lc, a, lk, b), k, d) becomes
      Node(lc, a, lk, Node(c, b, k, d)). The left child must exist. */
  function RightRotate(t: Tree): (r: Tree)
    requires t.Node? && t.left.Node?
    ensures r.Node? && r.right.Node?
    ensures InOrder(r) == InOrder(t)
    ensures InOrderEntries(r) == InOrderEntries(t)
    ensures Keys(r) == Keys(t)
  {
    var lc := t.left;
    Node(lc.color, lc.left, lc.key, Node(t.color, lc.right, t.key, t.right))
  }

  /** A rotation keeps search order. */
  lemma RotationsKeepBst(t: Tree)
    requires t.Node?
    ensures t.right.Node? ==> (Bst(LeftRotate(t)) <==> Bst(t))
    ensures t.left.Node? ==> (Bst(RightRotate(t)) <==> Bst(t))
  {
    if t.right.Node? {
      SameInOrder(LeftRotate(t), t);
    }
    if t.left.Node? {
      SameInOrder(RightRotate(t), t);
    }
  }
}
