/** The read-only descents: Get, Contains, GetMin and GetMax. */
module Queries {
  import opened Trees
  import opened Outcomes

  /** The search descent from t: the subtree whose root holds key, or Nil
      when the descent falls off the tree. */
  function Get(t: Tree, key: int): (r: Tree)
    ensures r.Node? ==> r.key == key && key in Keys(t) && Keys(r) <= Keys(t)
    ensures Bst(t) && key in Keys(t) ==> r.Node?
    decreases t
  {
    if t == Nil then Nil
    else if key == t.key then t
    else if key < t.key then
      assert Bst(t) ==> key !in Keys(t.right);
      Get(t.left, key)
    else
      assert Bst(t) ==> key !in Keys(t.left);
      Get(t.right, key)
  }

  /** On a search tree, Contains is membership of the key set. */
  function Contains(t: Tree, key: int): (b: bool)
    ensures b ==> key in Keys(t)
    ensures Bst(t) ==> (b <==> key in Keys(t))
  {
    Get(t, key).Node?
  }

  /** The key of the leftmost node; EmptyTree when there is no root. On a
      search tree that is the least key. */
  method GetMin(t: Tree) returns (r: Result<int>)
    ensures t == Nil <==> r == Err(EmptyTree)
    ensures t != Nil ==> r.Ok?
    ensures r.Ok? ==> r.value in Keys(t)
    ensures r.Ok? && Bst(t) ==> forall x :: x in Keys(t) ==> r.value <= x
  {
    if t == Nil {
      return Err(EmptyTree);
    }
    var curr := t;
    while curr.left != Nil
      invariant curr.Node? && Keys(curr) <= Keys(t)
      invariant Bst(t) ==> Bst(curr)
      invariant Bst(t) ==> forall x :: x in Keys(t) && x !in Keys(curr) ==> curr.key < x
      decreases curr
    {
      curr := curr.left;
    }
    return Ok(curr.key);
  }

  /** The key of the rightmost node; EmptyTree when there is no root. On a
      search tree that is the greatest key. */
  method GetMax(t: Tree) returns (r: Result<int>)
    ensures t == Nil <==> r == Err(EmptyTree)
    ensures t != Nil ==> r.Ok?
    ensures r.Ok? ==> r.value in Keys(t)
    ensures r.Ok? && Bst(t) ==> forall x :: x in Keys(t) ==> x <= r.value
  {
    if t == Nil {
      return Err(EmptyTree);
    }
    var curr := t;
    while curr.right != Nil
      invariant curr.Node? && Keys(curr) <= Keys(t)
      invariant Bst(t) ==> Bst(curr)
      invariant Bst(t) ==> forall x :: x in Keys(t) && x !in Keys(curr) ==> x < curr.key
      decreases curr
    {
      curr := curr.right;
    }
    return Ok(curr.key);
  }
}
