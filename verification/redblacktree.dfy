/** The tree object: its root and its item count, the constructors, the
    public Insert and the deep copy. */
module RedBlackTree {
  import opened Outcomes
  import opened Trees
  import opened Zippers
  import opened FixUp
  import opened Insertion
  import opened Queries

  datatype RBTree = RBTree(root: Tree, numItems: nat)

  /** What every public operation keeps: the root is a red-black search tree
      and the count is the number of keys stored. */
  ghost predicate Valid(tree: RBTree) {
    IsRedBlack(tree.root) && tree.numItems == |Keys(tree.root)|
  }

  /** The default constructor. */
  function Empty(): (tree: RBTree)
    ensures Valid(tree) && Keys(tree.root) == {} && tree.numItems == 0
  {
    RBTree(Nil, 0)
  }

  /** The one-argument constructor: a single black root. It builds the same
      tree as inserting the key into an empty tree. */
  function Singleton(key: int): (tree: RBTree)
    ensures Valid(tree) && Keys(tree.root) == {key} && tree.numItems == 1
    ensures tree.root.Node? && tree.root.color == Black
    ensures Insert(Empty(), key) == Ok(tree)
  {
    assert Keys(Node(Black, Nil, key, Nil)) == {key};
    assert Bst(Node(Black, Nil, key, Nil));
    assert NoRedRed(Node(Black, Nil, key, Nil));
    assert BlackBalanced(Node(Black, Nil, key, Nil));
    RBTree(Node(Black, Nil, key, Nil), 1)
  }

  /** Insert: an empty tree gets a black root; a key already present is
      refused before anything changes; otherwise the red leaf is attached,
      the colouring repaired and the root forced black. The result holds
      exactly one key more and is again a red-black search tree. */
  function Insert(tree: RBTree, key: int): (r: Result<RBTree>)
    requires Valid(tree)
    ensures tree.root == Nil ==> r == Ok(RBTree(Node(Black, Nil, key, Nil), tree.numItems + 1))
    ensures r.Err? <==> key in Keys(tree.root)
    ensures r.Err? ==> r.error == DuplicateValue
    ensures r.Ok? ==> && Valid(r.value)
                      && Keys(r.value.root) == Keys(tree.root) + {key}
                      && r.value.numItems == tree.numItems + 1
  {
    if tree.root == Nil then
      Ok(RBTree(Node(Black, Nil, key, Nil), tree.numItems + 1))
    else if Contains(tree.root, key) then
      Err(DuplicateValue)
    else
      var z := BasicInsert(tree.root, key);
      var root := Blacken(InsertFixUp(z));
      SameInOrder(root, BstInsert(tree.root, key));
      Ok(RBTree(root, tree.numItems + 1))
  }

  /** The recursive deep copy: same shape, keys and colours. */
  function CopyOf(t: Tree): (r: Tree)
    ensures r == t
  {
    match t
    case Nil => Nil
    case Node(c, l, k, rt) => Node(c, CopyOf(l), k, CopyOf(rt))
  }

  /** The copy constructor. */
  function Copy(other: RBTree): (tree: RBTree)
    ensures tree == other
  {
    RBTree(CopyOf(other.root), other.numItems)
  }
}
