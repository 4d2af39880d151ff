/** InsertFixUp: the loop that restores the red-black colouring after a red
    leaf has been attached. The current node is the focus of a zipper; each
    iteration either recolours and moves two levels up (the uncle is red) or
    rotates once or twice and leaves the parent black (the uncle is black or
    absent). */
module FixUp {
  import opened Trees
  import opened Rotations
  import opened Zippers

  /** The colouring of the frames above a hole whose subtree has black height
      h and a red root iff holeRed: each sibling is a red-black subtree of the
      right black height, no red frame has a red sibling or a red frame below
      it, except that allowRedRed admits a red parent over a red hole. */
  ghost predicate RedBlackAbove(holeRed: bool, h: nat, p: Path, allowRedRed: bool)
    decreases |p|
  {
    p == [] ||
    var f := p[0];
    var s := f.Sibling();
    && NoRedRed(s) && BlackBalanced(s) && BlackHeight(s) == h
    && (f.color == Red ==> !IsRed(s))
    && (f.color == Red && holeRed ==> allowRedRed)
    && RedBlackAbove(f.color == Red, h + BlackOf(f.color), p[1..], false)
  }

  ghost predicate RootFrameBlack(p: Path) {
    p != [] ==> p[|p| - 1].color == Black
  }

  /** A position in a red-black tree (colours only; search order is tracked
      through the in-order key sequence). */
  ghost predicate RedBlackZipper(z: Zipper) {
    && NoRedRed(z.focus) && BlackBalanced(z.focus)
    && RedBlackAbove(IsRed(z.focus), BlackHeight(z.focus), z.path, false)
    && RootFrameBlack(z.path)
    && (z.path == [] ==> !IsRed(z.focus))
  }

  /** The loop invariant of the fix-up: the tree is red-black except that the
      red current node may have a red parent. Black heights are uniform
      throughout, and the root is black unless it is the current node. */
  ghost predicate AlmostRedBlack(z: Zipper) {
    && IsRed(z.focus) && NoRedRed(z.focus) && BlackBalanced(z.focus)
    && RedBlackAbove(true, BlackHeight(z.focus), z.path, true)
    && RootFrameBlack(z.path)
  }

  /** Plugging a red-black subtree into a red-black context yields a tree
      without red-red pairs and with uniform black height. */
  lemma {:induction false} PlugRedBlack(z: Zipper)
    requires NoRedRed(z.focus) && BlackBalanced(z.focus)
    requires RedBlackAbove(IsRed(z.focus), BlackHeight(z.focus), z.path, false)
    ensures NoRedRed(Plug(z)) && BlackBalanced(Plug(z))
    decreases |z.path|
  {
    if z.path != [] {
      PlugRedBlack(Up(z));
    }
  }

  /** Stepping down from a position in a red-black tree reaches a position
      in the same red-black tree. */
  lemma DownKeepsRedBlack(z: Zipper)
    requires z.focus.Node?
    ensures RedBlackZipper(z) ==> RedBlackZipper(DownLeft(z)) && RedBlackZipper(DownRight(z))
  {
    var l := DownLeft(z);
    var r := DownRight(z);
    assert l.path[1..] == z.path;
    assert r.path[1..] == z.path;
    if z.path != [] {
      assert l.path[|l.path| - 1] == z.path[|z.path| - 1];
      assert r.path[|r.path| - 1] == z.path[|z.path| - 1];
    }
  }

  /** The hole's colour and permission matter only at the first frame. */
  lemma RelaxHole(h: nat, p: Path)
    ensures RedBlackAbove(false, h, p, false) ==> RedBlackAbove(true, h, p, true)
  {
  }

  /** Leaving the loop: either the current node is the root or its parent is
      black, and in both cases no red-red pair is left. */
  lemma LoopExit(z: Zipper)
    requires AlmostRedBlack(z)
    requires z.path == [] || z.path[0].color == Black
    ensures Plug(z).Node? && NoRedRed(Plug(z)) && BlackBalanced(Plug(z))
  {
    PlugRedBlack(z);
    if z.path != [] {
      PlugRoot(z);
    }
  }

  /** A red parent is never the root, so the grandparent exists. */
  lemma GrandparentExists(z: Zipper)
    requires AlmostRedBlack(z) && z.path != [] && z.path[0].color == Red
    ensures |z.path| >= 2
  {
  }

  /** Case 1 (uncle red): the parent and the uncle turn black, the
      grandparent red, and the grandparent becomes the current node. */
  function Recolor(z: Zipper): (r: Zipper)
    requires |z.path| >= 2 && GetUncle(z).Node?
    ensures |r.path| == |z.path| - 2
    ensures InOrder(Plug(r)) == InOrder(Plug(z))
  {
    var z1 := SetParentColor(z, Black);
    var z2 := SetUncleColor(z1, Black);
    var z3 := SetGrandparentColor(z2, Red);
    Up(Up(z3))
  }

  /** Case 2, parent a left child and node a right child: the parent
      becomes the current node and is rotated left, so that it ends up the
      left child of its former child. */
  function InnerLeft(z: Zipper): (r: Zipper)
    requires z.path != [] && z.path[0].RightOf? && z.focus.Node?
    ensures |r.path| == |z.path| && r.path[0].LeftOf?
    ensures r.path[1..] == z.path[1..]
    ensures InOrder(Plug(r)) == InOrder(Plug(z))
  {
    DownLeft(RotateLeft(Up(z)))
  }

  /** Case 2, mirror image: parent a right child and node a left child. */
  function InnerRight(z: Zipper): (r: Zipper)
    requires z.path != [] && z.path[0].LeftOf? && z.focus.Node?
    ensures |r.path| == |z.path| && r.path[0].RightOf?
    ensures r.path[1..] == z.path[1..]
    ensures InOrder(Plug(r)) == InOrder(Plug(z))
  {
    DownRight(RotateRight(Up(z)))
  }

  /** Case 3, node the left child of a left child: the parent turns black,
      the grandparent red, and the grandparent is rotated right. The current
      node stays the left child of its (now black) parent. */
  function OuterLeft(z: Zipper): (r: Zipper)
    requires |z.path| >= 2 && z.path[0].LeftOf? && z.path[1].LeftOf?
    ensures |r.path| == |z.path| - 1
    ensures r.focus == z.focus
    ensures r.path[0].LeftOf? && r.path[0].key == z.path[0].key && r.path[0].color == Black
    ensures InOrder(Plug(r)) == InOrder(Plug(z))
  {
    var z1 := SetParentColor(z, Black);
    var z2 := SetGrandparentColor(z1, Red);
    DownLeft(RotateRight(Up(Up(z2))))
  }

  /** Case 3, mirror image: node the right child of a right child. */
  function OuterRight(z: Zipper): (r: Zipper)
    requires |z.path| >= 2 && z.path[0].RightOf? && z.path[1].RightOf?
    ensures |r.path| == |z.path| - 1
    ensures r.focus == z.focus
    ensures r.path[0].RightOf? && r.path[0].key == z.path[0].key && r.path[0].color == Black
    ensures InOrder(Plug(r)) == InOrder(Plug(z))
  {
    var z1 := SetParentColor(z, Black);
    var z2 := SetGrandparentColor(z1, Red);
    DownRight(RotateLeft(Up(Up(z2))))
  }

  lemma RecolorKeepsInvariant(z: Zipper)
    requires AlmostRedBlack(z) && |z.path| >= 2 && z.path[0].color == Red
    requires IsRed(GetUncle(z))
    ensures AlmostRedBlack(Recolor(z))
  {
    var t := z.focus;
    var p := z.path;
    var h := BlackHeight(t);
    var pf, gf, rest := p[0], p[1], p[2..];
    var u := gf.Sibling();
    assert p[1..][0] == gf && p[1..][1..] == rest;
    assert RedBlackAbove(true, h, p[1..], false);
    assert gf.color == Black;
    assert RedBlackAbove(false, h + 1, rest, false);
    var pt := Attach(pf.(color := Black), t);
    var gt := Attach(gf.WithSibling(Paint(u, Black)).(color := Red), pt);
    var r := Recolor(z);
    assert r.focus == gt;
    assert r.path == rest;
    assert BlackHeight(pt) == h + 1;
    assert BlackHeight(Paint(u, Black)) == h + 1;
    RelaxHole(h + 1, rest);
    if rest != [] {
      assert rest[|rest| - 1] == p[|p| - 1];
    }
  }

  lemma InnerLeftKeepsInvariant(z: Zipper)
    requires AlmostRedBlack(z) && |z.path| >= 2 && z.path[0].color == Red
    requires z.path[0].RightOf?
    ensures AlmostRedBlack(InnerLeft(z)) && InnerLeft(z).path[0].color == Red
  {
    var t := z.focus;
    var p := z.path;
    var h := BlackHeight(t);
    var pf, rest := p[0], p[1..];
    var n := Node(Red, pf.Sibling(), pf.key, t.left);
    var r := InnerLeft(z);
    assert r.focus == n;
    assert r.path == [LeftOf(Red, t.key, t.right)] + rest;
    assert r.path[1..] == rest;
    assert BlackHeight(n) == h;
    assert r.path[|r.path| - 1] == p[|p| - 1];
  }

  lemma InnerRightKeepsInvariant(z: Zipper)
    requires AlmostRedBlack(z) && |z.path| >= 2 && z.path[0].color == Red
    requires z.path[0].LeftOf?
    ensures AlmostRedBlack(InnerRight(z)) && InnerRight(z).path[0].color == Red
  {
    var t := z.focus;
    var p := z.path;
    var h := BlackHeight(t);
    var pf, rest := p[0], p[1..];
    var n := Node(Red, t.right, pf.key, pf.Sibling());
    var r := InnerRight(z);
    assert r.focus == n;
    assert r.path == [RightOf(Red, t.left, t.key)] + rest;
    assert r.path[1..] == rest;
    assert BlackHeight(n) == h;
    assert r.path[|r.path| - 1] == p[|p| - 1];
  }

  lemma OuterLeftKeepsInvariant(z: Zipper)
    requires AlmostRedBlack(z) && |z.path| >= 2 && z.path[0].color == Red
    requires z.path[0].LeftOf? && z.path[1].LeftOf? && !IsRed(GetUncle(z))
    ensures AlmostRedBlack(OuterLeft(z)) && OuterLeft(z).path[0].color == Black
  {
    var t := z.focus;
    var p := z.path;
    var h := BlackHeight(t);
    var pf, gf, rest := p[0], p[1], p[2..];
    assert p[1..][0] == gf && p[1..][1..] == rest;
    assert RedBlackAbove(true, h, p[1..], false);
    assert gf.color == Black;
    assert RedBlackAbove(false, h + 1, rest, false);
    var s := Node(Red, pf.Sibling(), gf.key, gf.Sibling());
    var r := OuterLeft(z);
    assert r.focus == t;
    assert r.path == [LeftOf(Black, pf.key, s)] + rest;
    assert r.path[1..] == rest;
    assert BlackHeight(s) == h;
    assert r.path[|r.path| - 1].color == Black by {
      if rest != [] {
        assert r.path[|r.path| - 1] == p[|p| - 1];
      }
    }
  }

  lemma OuterRightKeepsInvariant(z: Zipper)
    requires AlmostRedBlack(z) && |z.path| >= 2 && z.path[0].color == Red
    requires z.path[0].RightOf? && z.path[1].RightOf? && !IsRed(GetUncle(z))
    ensures AlmostRedBlack(OuterRight(z)) && OuterRight(z).path[0].color == Black
  {
    var t := z.focus;
    var p := z.path;
    var h := BlackHeight(t);
    var pf, gf, rest := p[0], p[1], p[2..];
    assert p[1..][0] == gf && p[1..][1..] == rest;
    assert RedBlackAbove(true, h, p[1..], false);
    assert gf.color == Black;
    assert RedBlackAbove(false, h + 1, rest, false);
    var s := Node(Red, gf.Sibling(), gf.key, pf.Sibling());
    var r := OuterRight(z);
    assert r.focus == t;
    assert r.path == [RightOf(Black, s, pf.key)] + rest;
    assert r.path[1..] == rest;
    assert BlackHeight(s) == h;
    assert r.path[|r.path| - 1].color == Black by {
      if rest != [] {
        assert r.path[|r.path| - 1] == p[|p| - 1];
      }
    }
  }

  /** One iteration of the loop body, with the two mirror-image branches of
      the source: the parent is a left child, or it is a right child. */
  function FixUpStep(z: Zipper): (r: Zipper)
    requires AlmostRedBlack(z) && z.path != [] && z.path[0].color == Red
    ensures AlmostRedBlack(r)
    ensures |r.path| < |z.path|
    ensures InOrder(Plug(r)) == InOrder(Plug(z))
  {
    GrandparentExists(z);
    if IsLeftChild(Up(z)) then
      if IsRed(GetUncle(z)) then
        RecolorKeepsInvariant(z);
        Recolor(z)
      else
        var n := if IsRightChild(z) then (InnerLeftKeepsInvariant(z); InnerLeft(z)) else z;
        OuterLeftKeepsInvariant(n);
        OuterLeft(n)
    else
      if IsRed(GetUncle(z)) then
        RecolorKeepsInvariant(z);
        Recolor(z)
      else
        var n := if IsLeftChild(z) then (InnerRightKeepsInvariant(z); InnerRight(z)) else z;
        OuterRightKeepsInvariant(n);
        OuterRight(n)
  }

  /** The whole loop, then the final painting of the root black. The result
      is a red-black colouring of the same keys in the same order. */
  function InsertFixUp(z: Zipper): (root: Tree)
    requires AlmostRedBlack(z)
    ensures InOrder(root) == InOrder(Plug(z))
    ensures root.Node? && !IsRed(root) && NoRedRed(root) && BlackBalanced(root)
    decreases |z.path|
  {
    if z.path != [] && z.path[0].color == Red then
      InsertFixUp(FixUpStep(z))
    else
      LoopExit(z);
      Blacken(Plug(z))
  }
}
