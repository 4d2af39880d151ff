/** Concrete insertion sequences and the trees and strings they produce. */
module Scenarios {
  import opened Outcomes
  import opened Trees
  import opened Zippers
  import opened FixUp
  import opened Insertion
  import opened Queries
  import opened Traversals
  import opened RedBlackTree

  function Leaf(c: Color, k: int): Tree {
    Node(c, Nil, k, Nil)
  }

  /** Inserting 20 after 10: a red right child, no repair needed. */
  lemma AscendingSecond()
    ensures Insert(Singleton(10), 20) == Ok(RBTree(Node(Black, Nil, 10, Leaf(Red, 20)), 2))
  {
    var z := BasicInsert(Node(Black, Nil, 10, Nil), 20);
    assert z == Zipper(Leaf(Red, 20), [RightOf(Black, Nil, 10)]);
  }

  /** Inserting 30 next: the descent attaches a red leaf right of red 20. */
  lemma AscendingThirdDescent()
    ensures BasicInsert(Node(Black, Nil, 10, Leaf(Red, 20)), 30)
            == Zipper(Leaf(Red, 30), [RightOf(Red, Nil, 20), RightOf(Black, Nil, 10)])
  {
    var z := Zipper(Node(Black, Nil, 10, Leaf(Red, 20)), []);
    assert DownRight(z) == Zipper(Leaf(Red, 20), [RightOf(Black, Nil, 10)]);
  }

  /** Parent 20 and node 30 are both right children and the uncle is
      absent, so the outer case recolours and rotates left at 10. */
  lemma AscendingThirdRotation()
    ensures var z := Zipper(Leaf(Red, 30), [RightOf(Red, Nil, 20), RightOf(Black, Nil, 10)]);
      && AlmostRedBlack(z)
      && FixUpStep(z) == Zipper(Leaf(Red, 30), [RightOf(Black, Leaf(Red, 10), 20)])
  {
    var z := Zipper(Leaf(Red, 30), [RightOf(Red, Nil, 20), RightOf(Black, Nil, 10)]);
    AscendingThirdDescent();
    var g := SetGrandparentColor(SetParentColor(z, Black), Red);
    assert g == Zipper(Leaf(Red, 30), [RightOf(Black, Nil, 20), RightOf(Red, Nil, 10)]);
    assert Up(Up(g)) == Zipper(Node(Red, Nil, 10, Node(Black, Nil, 20, Leaf(Red, 30))), []);
  }

  /** After the rotation the parent is black: the loop stops and the root
      stays black. */
  lemma AscendingThirdExit()
    ensures var z := Zipper(Leaf(Red, 30), [RightOf(Black, Leaf(Red, 10), 20)]);
      && AlmostRedBlack(z)
      && InsertFixUp(z) == Node(Black, Leaf(Red, 10), 20, Leaf(Red, 30))
  {
    AscendingThirdRotation();
  }

  /** So inserting 10, 20, 30 gives black 20 over red 10 and red 30. */
  lemma AscendingThird()
    ensures Insert(Singleton(10), 20) == Ok(RBTree(Node(Black, Nil, 10, Leaf(Red, 20)), 2))
    ensures Insert(RBTree(Node(Black, Nil, 10, Leaf(Red, 20)), 2), 30)
            == Ok(RBTree(Node(Black, Leaf(Red, 10), 20, Leaf(Red, 30)), 3))
  {
    AscendingSecond();
    AscendingThirdDescent();
    AscendingThirdRotation();
    AscendingThirdExit();
  }

  /** The decimal text of a two-digit number. */
  lemma TwoDigits(n: int)
    requires 10 <= n < 100
    ensures IntToString(n) == [DigitChar(n / 10), DigitChar(n % 10)]
  {
    assert NatToString(n / 10) == [DigitChar(n / 10)];
  }

  /** A red leaf holding 10 prints as the token " R10 ". */
  lemma RedLeafTen()
    ensures ToInfixString(Leaf(Red, 10)) == " R10 "
  {
    TwoDigits(10);
  }

  /** Inserting 5 after 10: a red left child, no repair needed. */
  lemma DescendingSecond()
    ensures Insert(Singleton(10), 5) == Ok(RBTree(Node(Black, Leaf(Red, 5), 10, Nil), 2))
  {
    var z := BasicInsert(Node(Black, Nil, 10, Nil), 5);
    assert z == Zipper(Leaf(Red, 5), [LeftOf(Black, 10, Nil)]);
  }

  /** Inserting 1 next: the descent attaches a red leaf left of red 5. */
  lemma DescendingThirdDescent()
    ensures BasicInsert(Node(Black, Leaf(Red, 5), 10, Nil), 1)
            == Zipper(Leaf(Red, 1), [LeftOf(Red, 5, Nil), LeftOf(Black, 10, Nil)])
  {
    var z := Zipper(Node(Black, Leaf(Red, 5), 10, Nil), []);
    assert DownLeft(z) == Zipper(Leaf(Red, 5), [LeftOf(Black, 10, Nil)]);
  }

  /** Parent 5 and node 1 are both left children and the uncle is absent,
      so the outer case recolours and rotates right at 10. */
  lemma DescendingThirdRotation()
    ensures var z := Zipper(Leaf(Red, 1), [LeftOf(Red, 5, Nil), LeftOf(Black, 10, Nil)]);
      && AlmostRedBlack(z)
      && FixUpStep(z) == Zipper(Leaf(Red, 1), [LeftOf(Black, 5, Leaf(Red, 10))])
  {
    var z := Zipper(Leaf(Red, 1), [LeftOf(Red, 5, Nil), LeftOf(Black, 10, Nil)]);
    DescendingThirdDescent();
    var g := SetGrandparentColor(SetParentColor(z, Black), Red);
    assert g == Zipper(Leaf(Red, 1), [LeftOf(Black, 5, Nil), LeftOf(Red, 10, Nil)]);
    assert Up(Up(g)) == Zipper(Node(Red, Node(Black, Leaf(Red, 1), 5, Nil), 10, Nil), []);
  }

  /** After the rotation the parent is black and the loop stops. */
  lemma DescendingThirdExit()
    ensures var z := Zipper(Leaf(Red, 1), [LeftOf(Black, 5, Leaf(Red, 10))]);
      && AlmostRedBlack(z)
      && InsertFixUp(z) == Node(Black, Leaf(Red, 1), 5, Leaf(Red, 10))
  {
    DescendingThirdRotation();
  }

  /** So inserting 10, 5, 1 gives black 5 over red 1 and red 10. */
  lemma DescendingThird()
    ensures Insert(Singleton(10), 5) == Ok(RBTree(Node(Black, Leaf(Red, 5), 10, Nil), 2))
    ensures Insert(RBTree(Node(Black, Leaf(Red, 5), 10, Nil), 2), 1)
            == Ok(RBTree(Node(Black, Leaf(Red, 1), 5, Leaf(Red, 10)), 3))
  {
    DescendingSecond();
    DescendingThirdDescent();
    DescendingThirdRotation();
    DescendingThirdExit();
  }

  /** A second insert of the same key is refused. */
  lemma DuplicateIsRefused()
    ensures Insert(Singleton(10), 10) == Err(DuplicateValue)
  {
  }
}
