# Red-black tree of unique integer keys, in Dafny

This project models `RedBlackTree.cpp`, an in-memory red-black tree holding
unique `int` keys, and proves the properties its design promises. The tree
supports insertion with red-black rebalancing, search, minimum and maximum,
three traversal strings, and a deep copy. Deletion does not exist in the
source.

The model is functional:

- A node is the value `Tree = Nil | Node(color, left, key, right)`. `Nil`
  stands for a null child pointer.
- The tree object is `RBTree(root, numItems)`.
- Parent pointers become a zipper, `Zipper(focus, path)`. The focus is the
  subtree at the current node. `path[0]` records the parent: its colour, its
  key, the child the path did not take, and which side the focus is on. The
  last frame records the root.
- `node = node->parent` is `Up`, and `LeftRotate(node)` is `RotateLeft` on
  the focus. Recolouring a parent, uncle or grandparent rewrites one frame.
- `Plug` rebuilds the whole tree from a zipper.
- The fix-up `while` loop is the tail-recursive `FixUp.InsertFixUp`. Each
  pass of the loop is one `FixUpStep`.
- `GetMin` and `GetMax` keep the source's `while` loops as methods.
- Failures are returned as values: `Err(DuplicateValue)` and `Err(EmptyTree)`
  replace the thrown `invalid_argument`.

The invariants (module `Trees`):

- `Bst`: keys in a left subtree are smaller than the node's key, and keys in
  a right subtree are larger.
- The root is not red.
- `NoRedRed`: no red node has a red child.
- `BlackBalanced`: black heights are uniform. `BlackBalancedIffOneCount`
  proves this equals "every root-to-Nil path meets the same number of black
  nodes".

`Valid(tree)` adds `numItems == |Keys(root)|`. Every constructor establishes
it and `Insert` keeps it.

The fix-up loop invariant is `FixUp.AlmostRedBlack`:

- the current node is red;
- the tree is red-black everywhere, except that the current node's parent
  may also be red;
- black heights are uniform;
- the root is black unless it is the current node.

Search order is tracked through the in-order key sequence. Every step
preserves that sequence.

As in the code, the outer rotation cases `OuterLeft` and `OuterRight` do not
leave the loop early. They keep the tracked node and leave its parent black,
so the loop guard fails on its next test. `GetUncle` returns `Nil` when there
is no grandparent.

Modules, one per file: `Outcomes`, `Trees`, `Rotations`, `Zippers`, `FixUp`,
`Insertion`, `Queries`, `Traversals`, `RedBlackTree` and `Scenarios`.

## Model

| member | source | states |
|---|---|---|
| RedBlackTree.Empty | RedBlackTree.cpp:8-11 | The default constructor gives a valid tree with no keys and a count of 0. |
| RedBlackTree.Singleton | RedBlackTree.cpp:14-19 | The one-key constructor gives a valid tree: a single black root and a count of 1. It equals inserting the key into an empty tree. |
| RedBlackTree.Copy | RedBlackTree.cpp:22-25 | The copy constructor gives a tree equal to the original: same root and same count. |
| RedBlackTree.CopyOf | RedBlackTree.cpp:239-250 | The recursive copy has the same shape, keys and colours as its source. So all three traversal strings agree. |
| RedBlackTree.Insert | RedBlackTree.cpp:28-57 | An empty tree gets a single black root and the count goes up by 1. A key already present gives `DuplicateValue`, and only then. Otherwise the result is valid (search order, black root, no red-red, uniform black height). Its key set is the old set plus the new key, and the count is one higher. |
| Insertion.BasicInsert | RedBlackTree.cpp:60-79 | Attaching the red leaf builds exactly the reference search-tree insertion. When the tree was red-black, the leaf's position meets the fix-up loop invariant. |
| Insertion.Descend | RedBlackTree.cpp:64-78 | The descent (left when smaller, else right) ends at the Nil where the red leaf is attached. It keeps the plugged tree equal to the reference insertion and establishes the loop invariant. |
| Insertion.BstInsert | RedBlackTree.cpp:60-79 | Reference insertion: the key set grows by exactly the new key. Search order is kept when the key was absent. |
| FixUp.InsertFixUp | RedBlackTree.cpp:82-123 | From any state meeting the loop invariant, the loop ends. After the final blackening the tree has a black root, no red-red pair and uniform black height. Its in-order key sequence is unchanged. |
| FixUp.FixUpStep | RedBlackTree.cpp:84-120 | One loop pass, in both mirror branches, keeps the "almost red-black" invariant and the in-order keys. It strictly shortens the path to the root, so the loop terminates. |
| FixUp.LoopExit | RedBlackTree.cpp:83 | When the guard fails (the node is the root, or its parent is black), no red-red pair is left anywhere and black heights are uniform. |
| FixUp.GrandparentExists | RedBlackTree.cpp:83-90 | While the loop runs the parent is red, so it is not the root and the grandparent exists. The `node->parent->parent` dereferences are therefore safe. |
| FixUp.Recolor | RedBlackTree.cpp:86-91 | The red-uncle recolour moves the current node two levels up and keeps the in-order keys. |
| FixUp.RecolorKeepsInvariant | RedBlackTree.cpp:86-91 | The red-uncle recolour keeps the loop invariant. Only the new current node (the grandparent) may now have a red parent. |
| FixUp.InnerLeft | RedBlackTree.cpp:93-97 | With the parent a left child and the node a right child, rotating left at the parent makes the tracked node a left child. The grandparent frame and the in-order keys stay the same. |
| FixUp.InnerLeftKeepsInvariant | RedBlackTree.cpp:93-97 | That rotation keeps the loop invariant. The new node's parent is still red. |
| FixUp.OuterLeft | RedBlackTree.cpp:99-101 | Blackening the parent, reddening the grandparent and rotating right at it keeps the tracked node, still the left child of its old parent, now black. The node moves one level up and the in-order keys stay the same. |
| FixUp.OuterLeftKeepsInvariant | RedBlackTree.cpp:99-101 | That step keeps the loop invariant and leaves the node's parent black, so the loop stops. |
| FixUp.InnerRight | RedBlackTree.cpp:112-115 | Mirror of InnerLeft: rotating right at the parent makes the tracked node a right child. |
| FixUp.InnerRightKeepsInvariant | RedBlackTree.cpp:112-115 | Mirror of InnerLeftKeepsInvariant. |
| FixUp.OuterRight | RedBlackTree.cpp:116-118 | Mirror of OuterLeft: rotating left at the grandparent keeps the tracked node, still the right child of its old parent, now black. It moves one level up and the in-order keys stay the same. |
| FixUp.OuterRightKeepsInvariant | RedBlackTree.cpp:116-118 | Mirror of OuterLeftKeepsInvariant: the invariant holds and the parent ends black. |
| FixUp.DownKeepsRedBlack | RedBlackTree.cpp:64-71 | Each step of the descent in a red-black tree reaches a position of the same red-black tree. |
| Zippers.Up | RedBlackTree.cpp:95 | Moving to the parent leaves the described tree unchanged. |
| Zippers.DownLeft | RedBlackTree.cpp:67 | Moving to the left child is undone by moving up. |
| Zippers.DownRight | RedBlackTree.cpp:69 | Moving to the right child is undone by moving up. |
| Zippers.IsLeftChild | RedBlackTree.cpp:191-193 | When true, the parent's left child is the node. It is false at the root. |
| Zippers.IsRightChild | RedBlackTree.cpp:196-198 | When true, the parent's right child is the node. It is false at the root. Every other node is exactly one of a left and a right child. |
| Zippers.GetUncle | RedBlackTree.cpp:181-188 | The result is Nil when there is no grandparent. Otherwise it is the grandparent's child on the side opposite the parent. |
| Zippers.SetParentColor | RedBlackTree.cpp:88 | The parent takes the given colour and nothing else changes: the node, the parent's key, side and other child, and every frame above the parent (so the grandparent and the uncle) are kept, as are the in-order keys. |
| Zippers.SetUncleColor | RedBlackTree.cpp:89 | The uncle takes the given colour and nothing else changes: the uncle keeps its key and children, the grandparent its colour, key and side, and the node, the parent's frame and every frame above the grandparent are kept, as are the in-order keys. |
| Zippers.SetGrandparentColor | RedBlackTree.cpp:90 | The grandparent takes the given colour and nothing else changes: the node, the parent's frame, the grandparent's key, side and other child, and every frame above the grandparent are kept, as are the in-order keys. |
| Zippers.RotateLeft | RedBlackTree.cpp:207-214 | At any depth, the left-rotated subtree takes the node's place under its old parent (or as the root), with every frame above kept. A right rotation there undoes it. The whole tree's in-order nodes, keys and colours are kept. At the root the result is exactly `LeftRotate` of the tree. |
| Zippers.RotateRight | RedBlackTree.cpp:226-233 | Mirror of RotateLeft: the right-rotated subtree takes the node's place under its old parent, and a left rotation there undoes it. |
| Rotations.LeftRotate | RedBlackTree.cpp:201-217 | A left rotation keeps the in-order sequence of nodes, with their keys and colours, and the key set. A right rotation undoes it. |
| Rotations.RightRotate | RedBlackTree.cpp:220-236 | A right rotation keeps the in-order sequence of nodes, with their keys and colours, and the key set. |
| Rotations.RotationsKeepBst | RedBlackTree.cpp:201-236 | Either rotation keeps search order, in both directions. |
| Trees.Blacken | RedBlackTree.cpp:54 | Forcing the root black gives a non-red root. It keeps the keys, search order, the absence of red-red pairs and uniform black height. |
| Trees.BstIffSortedInOrder | RedBlackTree.cpp:150-154 | A tree is in search order exactly when its in-order key sequence is strictly increasing. |
| Trees.BlackBalancedIffOneCount | RedBlackTree.cpp:81-82 | Equal black heights of siblings everywhere is the same as one black count on every path from the root to a Nil. |
| Queries.Get | RedBlackTree.cpp:253-261 | A node found holds the key, and the key is in the tree. On a search tree the descent never misses a present key. |
| Queries.Contains | RedBlackTree.cpp:126-128 | True means the key is present. On a search tree it is true exactly when the key is in the key set. |
| Queries.GetMin | RedBlackTree.cpp:131-138 | An empty tree gives `EmptyTree`, and only an empty tree does. A non-empty tree always gives `Ok` with a key of the tree, and on a search tree it is the least key. |
| Queries.GetMax | RedBlackTree.cpp:141-148 | An empty tree gives `EmptyTree`, and only an empty tree does. A non-empty tree always gives `Ok` with a key of the tree, and on a search tree it is the greatest key. |
| Traversals.ToInfixString | RedBlackTree.cpp:151-154 | The string is the nodes' tokens in in-order. |
| Traversals.ToPrefixString | RedBlackTree.cpp:157-160 | The string is the nodes' tokens in pre-order. |
| Traversals.ToPostfixString | RedBlackTree.cpp:163-166 | The string is the nodes' tokens in post-order. |
| Traversals.InfixStringIsSorted | RedBlackTree.cpp:150-154 | On a search tree the in-order tokens appear in strictly increasing key order. |
| Traversals.TraversalsVisitSameNodes | RedBlackTree.cpp:151-166 | Pre-order, in-order and post-order list the same nodes, each exactly once. |
| Traversals.GetColorString | RedBlackTree.cpp:169-172 | The result is "" for an absent node, "R" exactly for a red node and "B" exactly for a black node. |
| Traversals.GetNodeString | RedBlackTree.cpp:175-178 | The result is "" exactly for an absent node. Otherwise it is the token " " + colour letter + decimal key + " ". |
| Traversals.IntToString | RedBlackTree.cpp:177 | The decimal text is non-empty, has no space, and starts with '-' exactly for negative numbers. |
| Scenarios.AscendingSecond | RedBlackTree.cpp:43-56 | Inserting 20 into the one-key tree holding 10 attaches a red right child and needs no repair. |
| Scenarios.AscendingThirdDescent | RedBlackTree.cpp:64-78 | Inserting 30 next descends right twice and attaches a red leaf under red 20. |
| Scenarios.AscendingThirdRotation | RedBlackTree.cpp:116-118 | With the parent and the node both right children and no uncle, one pass blackens 20, reddens 10 and rotates left at 10. |
| Scenarios.AscendingThirdExit | RedBlackTree.cpp:83 | After that the parent is black, so the loop ends with black 20 over red 10 and red 30. |
| Scenarios.AscendingThird | RedBlackTree.cpp:28-57 | Inserting 10, 20, 30 in turn gives black 20 over red 10 and red 30, with a count of 3. |
| Scenarios.DescendingSecond | RedBlackTree.cpp:43-56 | Inserting 5 into the one-key tree holding 10 attaches a red left child and needs no repair. |
| Scenarios.DescendingThirdDescent | RedBlackTree.cpp:64-78 | Inserting 1 next descends left twice and attaches a red leaf under red 5. |
| Scenarios.DescendingThirdRotation | RedBlackTree.cpp:99-101 | With the parent and the node both left children and no uncle, one pass blackens 5, reddens 10 and rotates right at 10. |
| Scenarios.DescendingThirdExit | RedBlackTree.cpp:83 | After that the parent is black, so the loop ends with black 5 over red 1 and red 10. |
| Scenarios.DescendingThird | RedBlackTree.cpp:28-57 | Inserting 10, 5, 1 in turn gives black 5 over red 1 and red 10, with a count of 3. |
| Scenarios.TwoDigits | RedBlackTree.cpp:177 | A two-digit key prints as its two decimal digits. |
| Scenarios.RedLeafTen | RedBlackTree.cpp:175-178 | A red leaf holding 10 prints as the token " R10 ". |
| Scenarios.DuplicateIsRefused | RedBlackTree.cpp:38-40 | Inserting 10 into the one-key tree holding 10 gives `DuplicateValue`. |

## Left out

- Heap allocation, ownership, the destructor and pointer identity are not modelled: nodes are immutable values. So the copy's independence from its source holds by construction.
- The parent back-pointers are not stored. The zipper's path carries the same information: the parent, its side, and the way to the root.
- `RBTNode`'s `IsNullNode` flag is not modelled. `CopyOf` reads it only to copy it, and nothing else uses it.
- `RedBlackTree.h` is not part of this model. The public `ToInfixString()`-style wrappers that pass the root are assumed; the model states the node-level functions. New nodes are assumed to start with null links, as `Insert` relies on.
- The exceptions are not thrown. `Result` values carry `DuplicateValue` and `EmptyTree` instead.
- `int` is unbounded: key and count overflow are not modelled. `numItems` is a `nat`.
- Traversals.IntToString: modelled as the decimal text `std::to_string` produces for an `int`. The contract states only its shape (non-empty, no space, sign), not the digits.
- RedBlackTree.Insert: requires `Valid`. Every tree the public operations build is `Valid`: `Empty`, `Singleton` and `Copy` establish it and `Insert` keeps it. The source does not check it. On a tree with a red root, for example a single red 10, inserting 5 makes line 117 paint the null grandparent. Some other invalid trees the source handles without fault, but the model promises nothing for them.
- Deletion does not exist in the source and is not modelled.
