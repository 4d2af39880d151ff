/** BasicInsert: the plain search-tree descent that attaches the new red
    leaf, leaving the current node of the fix-up at that leaf. */
module Insertion {
  import opened Trees
  import opened Zippers
  import opened FixUp

  /** Reference definition: insertion into an unbalanced search tree, the new
      node red. Keys that are not smaller go right. */
  function BstInsert(t: Tree, key: int): (r: Tree)
    ensures Keys(r) == Keys(t) + {key}
    ensures Bst(t) && key !in Keys(t) ==> Bst(r)
    decreases t
  {
    match t
    case Nil => Node(Red, Nil, key, Nil)
    case Node(c, l, k, rt) =>
      if key < k then Node(c, BstInsert(l, key), k, rt)
      else Node(c, l, k, BstInsert(rt, key))
  }

  /** The descent loop from z's focus: step left while the key is smaller,
      otherwise right, and attach the red leaf at the Nil reached. */
  function Descend(z: Zipper, key: int): (r: Zipper)
    ensures r.focus == Node(Red, Nil, key, Nil)
    ensures Plug(r) == Plug(Zipper(BstInsert(z.focus, key), z.path))
    ensures RedBlackZipper(z) ==> AlmostRedBlack(r)
    decreases z.focus
  {
    match z.focus
    case Nil =>
      RelaxHole(0, z.path);
      Zipper(Node(Red, Nil, key, Nil), z.path)
    case Node(_, _, k, _) =>
      DownKeepsRedBlack(z);
      if key < k then Descend(DownLeft(z), key) else Descend(DownRight(z), key)
  }

  /** Attaches a red leaf holding key below the root of a non-empty tree.
      The resulting zipper is focused on the new leaf; the tree it describes
      is the reference insertion, and it satisfies the fix-up invariant when
      the tree was red-black. */
  function BasicInsert(root: Tree, key: int): (z: Zipper)
    requires root.Node?
    ensures z.focus == Node(Red, Nil, key, Nil)
    ensures Plug(z) == BstInsert(root, key)
    ensures IsRedBlack(root) ==> AlmostRedBlack(z)
  {
    Descend(Zipper(root, []), key)
  }
}
