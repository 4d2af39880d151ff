/** Parent links as a zipper: the subtree at the current node (the focus)
    together with the way back up to the root. Moving the current node up,
    asking which child it is, finding its uncle, recolouring its relatives and
    rotating at it are the pointer manipulations of the source, stated on
    values. */
module Zippers {
  import opened Trees
  import opened Rotations

  /** One step of the way from the root down to the focus: the parent's
      colour and key and the child the path did not take. LeftOf means the
      path went to the parent's left child. */
  datatype Frame =
    | LeftOf(color: Color, key: int, right: Tree)
    | RightOf(color: Color, left: Tree, key: int)
  {
    /** The parent's other child. */
    function Sibling(): Tree {
      match this
      case LeftOf(_, _, r) => r
      case RightOf(_, l, _) => l
    }

    function WithSibling(s: Tree): Frame {
      match this
      case LeftOf(c, k, _) => LeftOf(c, k, s)
      case RightOf(c, _, k) => RightOf(c, s, k)
    }
  }

  /** path[0] describes the parent of the focus, the last frame the root. */
  type Path = seq<Frame>

  datatype Zipper = Zipper(focus: Tree, path: Path)

  /** The parent's subtree, rebuilt around the child t. */
  function Attach(f: Frame, t: Tree): Tree {
    match f
    case LeftOf(c, k, r) => Node(c, t, k, r)
    case RightOf(c, l, k) => Node(c, l, k, t)
  }

  /** The whole tree the zipper describes. */
  function Plug(z: Zipper): Tree
    decreases |z.path|
  {
    if z.path == [] then z.focus
    else Plug(Zipper(Attach(z.path[0], z.focus), z.path[1..]))
  }

  /** Moves the current node up to its parent. */
  function Up(z: Zipper): (u: Zipper)
    requires z.path != []
    ensures Plug(u) == Plug(z)
    ensures |u.path| == |z.path| - 1
  {
    Zipper(Attach(z.path[0], z.focus), z.path[1..])
  }

  /** Moves the current node down to its left child. */
  function DownLeft(z: Zipper): (d: Zipper)
    requires z.focus.Node?
    ensures d.path != [] && d.path[0].LeftOf?
    ensures Up(d) == z
  {
    Zipper(z.focus.left, [LeftOf(z.focus.color, z.focus.key, z.focus.right)] + z.path)
  }

  /** Moves the current node down to its right child. */
  function DownRight(z: Zipper): (d: Zipper)
    requires z.focus.Node?
    ensures d.path != [] && d.path[0].RightOf?
    ensures Up(d) == z
  {
    Zipper(z.focus.right, [RightOf(z.focus.color, z.focus.left, z.focus.key)] + z.path)
  }

  /** The focus is its parent's left child; false at the root. */
  function IsLeftChild(z: Zipper): (b: bool)
    ensures b ==> z.path != [] && Up(z).focus.left == z.focus
    ensures z.path == [] ==> !b
  {
    z.path != [] && z.path[0].LeftOf?
  }

  /** The focus is its parent's right child; false at the root. Every other
      node is exactly one of a left child and a right child. */
  function IsRightChild(z: Zipper): (b: bool)
    ensures b ==> z.path != [] && Up(z).focus.right == z.focus
    ensures z.path == [] ==> !b
    ensures z.path != [] ==> (b <==> !IsLeftChild(z))
  {
    z.path != [] && z.path[0].RightOf?
  }

  /** The other child of the grandparent, or Nil when the focus has no
      grandparent. */
  function GetUncle(z: Zipper): (u: Tree)
    ensures |z.path| < 2 ==> u == Nil
    ensures |z.path| >= 2 ==>
      var parent := Up(z).focus;
      var grandparent := Up(Up(z)).focus;
      if IsLeftChild(Up(z)) then grandparent.left == parent && grandparent.right == u
      else grandparent.left == u && grandparent.right == parent
  {
    // The grandparent's frame already holds the child the path did not take,
    // whichever side the parent is on.
    if |z.path| < 2 then Nil else z.path[1].Sibling()
  }

  /** Paints the parent c. Nothing else changes: the parent keeps its key,
      its side and its other child, and every frame above it is kept. */
  function SetParentColor(z: Zipper, c: Color): (r: Zipper)
    requires z.path != []
    ensures r.focus == z.focus && |r.path| == |z.path|
    ensures r.path[0] == z.path[0].(color := c) && r.path[1..] == z.path[1..]
    ensures Up(r).focus.color == c
    ensures GetUncle(r) == GetUncle(z)
    ensures InOrder(Plug(r)) == InOrder(Plug(z))
  {
    var r := z.(path := z.path[0 := z.path[0].(color := c)]);
    assert Up(r).path == Up(z).path;
    PlugSameInOrder(Up(r).focus, Up(z).focus, Up(z).path);
    r
  }

  /** Paints the grandparent c. Nothing else changes: the parent's frame,
      the grandparent's key, side and other child, and every frame above the
      grandparent are kept. */
  function SetGrandparentColor(z: Zipper, c: Color): (r: Zipper)
    requires |z.path| >= 2
    ensures r.focus == z.focus && |r.path| == |z.path|
    ensures r.path[0] == z.path[0] && r.path[2..] == z.path[2..]
    ensures r.path[1] == z.path[1].(color := c)
    ensures Up(Up(r)).focus.color == c
    ensures InOrder(Plug(r)) == InOrder(Plug(z))
  {
    var r := z.(path := z.path[1 := z.path[1].(color := c)]);
    assert Up(Up(r)).path == Up(Up(z)).path;
    PlugSameInOrder(Up(Up(r)).focus, Up(Up(z)).focus, Up(Up(z)).path);
    r
  }

  /** Paints the uncle c; the uncle must exist. Nothing else changes: the
      uncle keeps its key and children, the grandparent its colour, key and
      side, and the parent's frame and every frame above the grandparent are
      kept. */
  function SetUncleColor(z: Zipper, c: Color): (r: Zipper)
    requires |z.path| >= 2 && GetUncle(z).Node?
    ensures r.focus == z.focus && |r.path| == |z.path|
    ensures r.path[0] == z.path[0] && r.path[2..] == z.path[2..]
    ensures r.path[1].WithSibling(GetUncle(z)) == z.path[1]
    ensures GetUncle(r) == GetUncle(z).(color := c)
    ensures GetUncle(r).Node? && GetUncle(r).color == c
    ensures InOrder(Plug(r)) == InOrder(Plug(z))
  {
    var g := z.path[1];
    var r := z.(path := z.path[1 := g.WithSibling(Paint(g.Sibling(), c))]);
    assert Up(Up(r)).path == Up(Up(z)).path;
    PlugSameInOrder(Up(Up(r)).focus, Up(Up(z)).focus, Up(Up(z)).path);
    r
  }

  /** Rotates left at the current node: its right child takes its place
      under its parent, or becomes the root. */
  function RotateLeft(z: Zipper): (r: Zipper)
    requires z.focus.Node? && z.focus.right.Node?
    ensures r.path == z.path && r.focus == LeftRotate(z.focus)
    ensures r.focus.left.Node? && RightRotate(r.focus) == z.focus
    ensures InOrder(Plug(r)) == InOrder(Plug(z))
    ensures InOrderEntries(Plug(r)) == InOrderEntries(Plug(z))
    ensures z.path == [] ==> Plug(r) == LeftRotate(Plug(z))
  {
    PlugSameInOrder(LeftRotate(z.focus), z.focus, z.path);
    PlugSameEntries(LeftRotate(z.focus), z.focus, z.path);
    z.(focus := LeftRotate(z.focus))
  }

  /** Rotates right at the current node, the mirror image of RotateLeft. */
  function RotateRight(z: Zipper): (r: Zipper)
    requires z.focus.Node? && z.focus.left.Node?
    ensures r.path == z.path && r.focus == RightRotate(z.focus)
    ensures r.focus.right.Node? && LeftRotate(r.focus) == z.focus
    ensures InOrder(Plug(r)) == InOrder(Plug(z))
    ensures InOrderEntries(Plug(r)) == InOrderEntries(Plug(z))
    ensures z.path == [] ==> Plug(r) == RightRotate(Plug(z))
  {
    PlugSameInOrder(RightRotate(z.focus), z.focus, z.path);
    PlugSameEntries(RightRotate(z.focus), z.focus, z.path);
    z.(focus := RightRotate(z.focus))
  }

  /** Replacing the focus by a subtree with the same in-order keys keeps the
      in-order keys of the whole tree. */
  lemma {:induction false} PlugSameInOrder(a: Tree, b: Tree, p: Path)
    requires InOrder(a) == InOrder(b)
    ensures InOrder(Plug(Zipper(a, p))) == InOrder(Plug(Zipper(b, p)))
    decreases |p|
  {
    if p != [] {
      PlugSameInOrder(Attach(p[0], a), Attach(p[0], b), p[1..]);
    }
  }

  /** Likewise for the in-order sequence of colours and keys. */
  lemma {:induction false} PlugSameEntries(a: Tree, b: Tree, p: Path)
    requires InOrderEntries(a) == InOrderEntries(b)
    ensures InOrderEntries(Plug(Zipper(a, p))) == InOrderEntries(Plug(Zipper(b, p)))
    decreases |p|
  {
    if p != [] {
      PlugSameEntries(Attach(p[0], a), Attach(p[0], b), p[1..]);
    }
  }

  /** The root of a tree seen from below has the colour of the last frame. */
  lemma {:induction false} PlugRoot(z: Zipper)
    requires z.path != []
    ensures Plug(z).Node? && Plug(z).color == z.path[|z.path| - 1].color
    decreases |z.path|
  {
    if |z.path| > 1 {
      PlugRoot(Up(z));
    }
  }
}
