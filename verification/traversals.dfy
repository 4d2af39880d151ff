/** The traversal strings: one token " " + colour letter + key + " " per
    node, in in-order, pre-order or post-order. */
module Traversals {
  import opened Trees

  function DigitChar(d: nat): (c: char)
    requires d < 10
    ensures '0' <= c <= '9'
  {
    "0123456789"[d]
  }

  /** Decimal digits of n, most significant first, without leading zeros. */
  function NatToString(n: nat): (s: string)
    ensures |s| > 0
    ensures forall i :: 0 <= i < |s| ==> '0' <= s[i] <= '9'
    ensures |s| > 1 ==> s[0] != '0'
    decreases n
  {
    if n < 10 then [DigitChar(n)]
    else NatToString(n / 10) + [DigitChar(n % 10)]
  }

  /** The decimal text of an integer, with a leading '-' when negative. */
  function IntToString(n: int): (s: string)
    ensures |s| > 0 && ' ' !in s
    ensures s[0] == '-' <==> n < 0
  {
    if n < 0 then "-" + NatToString(-n) else NatToString(n)
  }

  function ColorLetter(c: Color): string {
    if c == Red then "R" else "B"
  }

  /** "R" for a red node, "B" for a black one, "" for an absent one. */
  function GetColorString(t: Tree): (s: string)
    ensures s == "" <==> t == Nil
    ensures s == "R" <==> IsRed(t)
    ensures s == "B" <==> t.Node? && t.color == Black
  {
    if t == Nil then "" else ColorLetter(t.color)
  }

  /** The token of one node as traversals print it. */
  function EntryString(e: Entry): string {
    " " + ColorLetter(e.color) + IntToString(e.key) + " "
  }

  function GetNodeString(t: Tree): (s: string)
    ensures s == "" <==> t == Nil
    ensures t.Node? ==> s == EntryString(Entry(t.color, t.key))
  {
    if t == Nil then "" else " " + GetColorString(t) + IntToString(t.key) + " "
  }

  /** The tokens of a sequence of nodes, one after the other. */
  function Tokens(es: seq<Entry>): string {
    if es == [] then "" else EntryString(es[0]) + Tokens(es[1..])
  }

  lemma {:induction false} TokensAppend(a: seq<Entry>, b: seq<Entry>)
    ensures Tokens(a + b) == Tokens(a) + Tokens(b)
    decreases |a|
  {
    if a == [] {
      assert a + b == b;
    } else {
      assert (a + b)[0] == a[0];
      assert (a + b)[1..] == a[1..] + b;
      TokensAppend(a[1..], b);
    }
  }

  lemma TokensOne(e: Entry)
    ensures Tokens([e]) == EntryString(e)
  {
    assert [e][1..] == [];
  }

  /** The in-order string is the tokens of the nodes in in-order. */
  function ToInfixString(t: Tree): (s: string)
    ensures s == Tokens(InOrderEntries(t))
  {
    match t
    case Nil => ""
    case Node(c, l, k, r) =>
      TokensAppend(InOrderEntries(l) + [Entry(c, k)], InOrderEntries(r));
      TokensAppend(InOrderEntries(l), [Entry(c, k)]);
      TokensOne(Entry(c, k));
      ToInfixString(l) + GetNodeString(t) + ToInfixString(r)
  }

  /** The pre-order string is the tokens of the nodes in pre-order. */
  function ToPrefixString(t: Tree): (s: string)
    ensures s == Tokens(PreOrderEntries(t))
  {
    match t
    case Nil => ""
    case Node(c, l, k, r) =>
      TokensAppend([Entry(c, k)] + PreOrderEntries(l), PreOrderEntries(r));
      TokensAppend([Entry(c, k)], PreOrderEntries(l));
      TokensOne(Entry(c, k));
      GetNodeString(t) + ToPrefixString(l) + ToPrefixString(r)
  }

  /** The post-order string is the tokens of the nodes in post-order. */
  function ToPostfixString(t: Tree): (s: string)
    ensures s == Tokens(PostOrderEntries(t))
  {
    match t
    case Nil => ""
    case Node(c, l, k, r) =>
      TokensAppend(PostOrderEntries(l) + PostOrderEntries(r), [Entry(c, k)]);
      TokensAppend(PostOrderEntries(l), PostOrderEntries(r));
      TokensOne(Entry(c, k));
      ToPostfixString(l) + ToPostfixString(r) + GetNodeString(t)
  }

  /** The in-order entries carry the in-order keys. */
  lemma {:induction false} InOrderEntriesKeys(t: Tree)
    ensures |InOrderEntries(t)| == |InOrder(t)|
    ensures forall i :: 0 <= i < |InOrder(t)| ==> InOrderEntries(t)[i].key == InOrder(t)[i]
  {
    match t
    case Nil =>
    case Node(c, l, k, r) =>
      InOrderEntriesKeys(l);
      InOrderEntriesKeys(r);
  }

  /** On a search tree the in-order string, whose tokens are those of
      InOrderEntries, lists them in strictly increasing key order. */
  lemma InfixStringIsSorted(t: Tree)
    requires Bst(t)
    ensures forall i, j :: 0 <= i < j < |InOrderEntries(t)| ==>
              InOrderEntries(t)[i].key < InOrderEntries(t)[j].key
  {
    BstIffSortedInOrder(t);
    InOrderEntriesKeys(t);
  }

  /** The three traversals visit the same nodes, each exactly once. */
  lemma {:induction false} TraversalsVisitSameNodes(t: Tree)
    ensures multiset(PreOrderEntries(t)) == multiset(InOrderEntries(t))
    ensures multiset(PostOrderEntries(t)) == multiset(InOrderEntries(t))
  {
    match t
    case Nil =>
    case Node(_, l, _, r) =>
      TraversalsVisitSameNodes(l);
      TraversalsVisitSameNodes(r);
  }
}
