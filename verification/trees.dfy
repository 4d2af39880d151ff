/** Nodes of the red-black tree as immutable values, and the structural
    invariants a red-black tree keeps: search order, no red node with a red
    child, and one black height on every path. */
module Trees {

  datatype Color = Red | Black

  /** A node holding a key, its colour and two children; Nil stands for an
      absent child (a null pointer). Parent links are not stored: a Zipper
      (module Zippers) records the way back up. */
  datatype Tree = Nil | Node(color: Color, left: Tree, key: int, right: Tree)

  /** One node as a traversal sees it. */
  datatype Entry = Entry(color: Color, key: int)

  predicate IsRed(t: Tree) {
    t.Node? && t.color == Red
  }

  /** 1 for a black node, 0 for a red one. */
  function BlackOf(c: Color): nat {
    if c == Black then 1 else 0
  }

  function Keys(t: Tree): set<int> {
    match t
    case Nil => {}
    case Node(_, l, k, r) => Keys(l) + {k} + Keys(r)
  }

  /** The keys in in-order (left, node, right). */
  function InOrder(t: Tree): seq<int> {
    match t
    case Nil => []
    case Node(_, l, k, r) => InOrder(l) + [k] + InOrder(r)
  }

  function InOrderEntries(t: Tree): seq<Entry> {
    match t
    case Nil => []
    case Node(c, l, k, r) => InOrderEntries(l) + [Entry(c, k)] + InOrderEntries(r)
  }

  function PreOrderEntries(t: Tree): seq<Entry> {
    match t
    case Nil => []
    case Node(c, l, k, r) => [Entry(c, k)] + PreOrderEntries(l) + PreOrderEntries(r)
  }

  function PostOrderEntries(t: Tree): seq<Entry> {
    match t
    case Nil => []
    case Node(c, l, k, r) => PostOrderEntries(l) + PostOrderEntries(r) + [Entry(c, k)]
  }

  /** Search order: every key of a left subtree is smaller than the node's
      key, every key of a right subtree is larger. Keys are therefore unique. */
  ghost predicate Bst(t: Tree) {
    match t
    case Nil => true
    case Node(_, l, k, r) =>
      && Bst(l) && Bst(r)
      && (forall x :: x in Keys(l) ==> x < k)
      && (forall x :: x in Keys(r) ==> k < x)
  }

  ghost predicate StrictlyIncreasing(s: seq<int>) {
    forall i, j :: 0 <= i < j < |s| ==> s[i] < s[j]
  }

  /** No red node has a red child. */
  ghost predicate NoRedRed(t: Tree) {
    match t
    case Nil => true
    case Node(c, l, _, r) =>
      && NoRedRed(l) && NoRedRed(r)
      && (c == Red ==> !IsRed(l) && !IsRed(r))
  }

  /** The number of black nodes on the leftmost path down to Nil. */
  function BlackHeight(t: Tree): nat {
    match t
    case Nil => 0
    case Node(c, l, _, _) => BlackHeight(l) + BlackOf(c)
  }

  /** Both children of every node have the same black height. */
  ghost predicate BlackBalanced(t: Tree) {
    match t
    case Nil => true
    case Node(_, l, _, r) =>
      BlackBalanced(l) && BlackBalanced(r) && BlackHeight(l) == BlackHeight(r)
  }

  /** The numbers of black nodes met on all the paths from t down to a Nil. */
  function BlackCounts(t: Tree): set<nat> {
    match t
    case Nil => {0}
    case Node(c, l, _, r) =>
      set n | n in BlackCounts(l) + BlackCounts(r) :: n + BlackOf(c)
  }

  /** The invariants that hold after every public operation. */
  ghost predicate IsRedBlack(t: Tree) {
    Bst(t) && !IsRed(t) && NoRedRed(t) && BlackBalanced(t)
  }

  /** The same node with another colour. */
  function Paint(t: Tree, c: Color): (r: Tree)
    requires t.Node?
    ensures r.Node? && r.color == c
    ensures InOrder(r) == InOrder(t) && Keys(r) == Keys(t)
    ensures NoRedRed(t) && (c == Black || (!IsRed(t.left) && !IsRed(t.right))) ==> NoRedRed(r)
    ensures BlackBalanced(r) == BlackBalanced(t)
    ensures BlackHeight(r) + BlackOf(t.color) == BlackHeight(t) + BlackOf(c)
  {
    t.(color := c)
  }

  /** Forces the root black, as the source does after every insertion. */
  function Blacken(t: Tree): (r: Tree)
    ensures !IsRed(r)
    ensures InOrder(r) == InOrder(t) && Keys(r) == Keys(t)
    ensures NoRedRed(t) ==> NoRedRed(r)
    ensures BlackBalanced(t) ==> BlackBalanced(r)
    ensures Bst(t) ==> Bst(r)
  {
    if t == Nil then Nil else Paint(t, Black)
  }

  lemma {:induction false} InOrderHasKeys(t: Tree)
    ensures forall x :: x in InOrder(t) <==> x in Keys(t)
  {
    match t
    case Nil =>
    case Node(_, l, _, r) =>
      InOrderHasKeys(l);
      InOrderHasKeys(r);
  }

  /** Where the parts of a + [k] + b sit in the whole. */
  lemma ConcatIndices(a: seq<int>, k: int, b: seq<int>)
    ensures var s := a + [k] + b;
      && |s| == |a| + 1 + |b| && s[|a|] == k
      && (forall i :: 0 <= i < |a| ==> s[i] == a[i])
      && (forall i :: |a| < i < |s| ==> s[i] == b[i - |a| - 1])
  {
  }

  lemma SplitSorted(a: seq<int>, k: int, b: seq<int>)
    requires StrictlyIncreasing(a + [k] + b)
    ensures StrictlyIncreasing(a) && StrictlyIncreasing(b)
    ensures forall x :: x in a ==> x < k
    ensures forall x :: x in b ==> k < x
  {
    var s := a + [k] + b;
    ConcatIndices(a, k, b);
    forall i, j | 0 <= i < j < |b| ensures b[i] < b[j] {
      assert s[|a| + 1 + i] < s[|a| + 1 + j];
    }
    forall x | x in a ensures x < k {
      var i :| 0 <= i < |a| && a[i] == x;
      assert s[i] < s[|a|];
    }
    forall x | x in b ensures k < x {
      var i :| 0 <= i < |b| && b[i] == x;
      assert s[|a|] < s[|a| + 1 + i];
    }
  }

  lemma JoinSorted(a: seq<int>, k: int, b: seq<int>)
    requires StrictlyIncreasing(a) && StrictlyIncreasing(b)
    requires forall x :: x in a ==> x < k
    requires forall x :: x in b ==> k < x
    ensures StrictlyIncreasing(a + [k] + b)
  {
    var s := a + [k] + b;
    ConcatIndices(a, k, b);
    forall i, j | 0 <= i < j < |s| ensures s[i] < s[j] {
      if j < |a| {
      } else if i < |a| {
        assert s[i] in a;
        assert s[j] == k || s[j] in b;
      } else if i == |a| {
        assert s[j] in b;
      } else {
        assert s[i] == b[i - |a| - 1] && s[j] == b[j - |a| - 1];
      }
    }
  }

  lemma SortedAround(a: seq<int>, k: int, b: seq<int>)
    ensures StrictlyIncreasing(a + [k] + b) <==>
              && StrictlyIncreasing(a) && StrictlyIncreasing(b)
              && (forall x :: x in a ==> x < k)
              && (forall x :: x in b ==> k < x)
  {
    if StrictlyIncreasing(a + [k] + b) {
      SplitSorted(a, k, b);
    }
    if && StrictlyIncreasing(a) && StrictlyIncreasing(b)
       && (forall x :: x in a ==> x < k) && (forall x :: x in b ==> k < x)
    {
      JoinSorted(a, k, b);
    }
  }

  /** Search order is exactly a strictly increasing in-order key sequence. */
  lemma {:induction false} BstIffSortedInOrder(t: Tree)
    ensures Bst(t) <==> StrictlyIncreasing(InOrder(t))
  {
    match t
    case Nil =>
    case Node(_, l, k, r) =>
      BstIffSortedInOrder(l);
      BstIffSortedInOrder(r);
      InOrderHasKeys(l);
      InOrderHasKeys(r);
      SortedAround(InOrder(l), k, InOrder(r));
  }

  /** Two trees with the same in-order key sequence hold the same keys and
      are search trees alike. */
  lemma SameInOrder(a: Tree, b: Tree)
    requires InOrder(a) == InOrder(b)
    ensures Keys(a) == Keys(b)
    ensures Bst(a) <==> Bst(b)
  {
    InOrderHasKeys(a);
    InOrderHasKeys(b);
    BstIffSortedInOrder(a);
    BstIffSortedInOrder(b);
    forall x ensures x in Keys(a) <==> x in Keys(b) {
      assert x in InOrder(a) <==> x in InOrder(b);
    }
  }

  lemma {:induction false} BlackHeightIsOnAPath(t: Tree)
    ensures BlackHeight(t) in BlackCounts(t)
  {
    match t
    case Nil =>
    case Node(c, l, _, r) =>
      BlackHeightIsOnAPath(l);
      assert BlackHeight(l) in BlackCounts(l) + BlackCounts(r);
  }

  /** BlackBalanced is the same as: every path from the node down to a Nil
      passes through the same number of black nodes. */
  lemma {:induction false} BlackBalancedIffOneCount(t: Tree)
    ensures BlackBalanced(t) <==> BlackCounts(t) == {BlackHeight(t)}
  {
    match t
    case Nil =>
    case Node(c, l, _, r) =>
      BlackBalancedIffOneCount(l);
      BlackBalancedIffOneCount(r);
      BlackHeightIsOnAPath(l);
      BlackHeightIsOnAPath(r);
      var b := BlackOf(c);
      var h := BlackHeight(l);
      if BlackBalanced(t) {
        assert BlackCounts(l) + BlackCounts(r) == {h};
        assert BlackCounts(t) == {h + b};
      }
      if BlackCounts(t) == {BlackHeight(t)} {
        forall n | n in BlackCounts(l) + BlackCounts(r) ensures n == h {
          assert n + b in BlackCounts(t);
        }
        assert BlackHeight(r) == h;
        assert BlackCounts(l) == {h};
        assert BlackCounts(r) == {h};
      }
  }
}
