/**
  A worked example of the whole table construction on the counts
  {a: 2, b: 3}, the counts of "aabbb". The merge loop has no tie to resolve
  here, so the tree, the table and the sorted table are all determined: the
  less common 'a' is taken out first, goes left and gets the code "0", and
  `sorted_table` lists it before the more common 'b'.
 */
module HuffmanExamples {
  import opened Wrappers
  import opened HuffmanTree
  import opened HuffmanBuild
  import opened HuffmanSort

  /** The counts of "aabbb". */
  function TwoCounts(): map<char, nat> {
    map['a' := 2, 'b' := 3]
  }

  /** A queue of leaves for {a: 2, b: 3} holds exactly the two leaves, in one order or the other. */
  lemma TwoLeafQueue(q: seq<Tree>)
    requires LeafQueue(q, TwoCounts())
    ensures |q| == 2
    ensures q == [Leaf('a', 2), Leaf('b', 3)] || q == [Leaf('b', 3), Leaf('a', 2)]
  {
    var freq := TwoCounts();
    assert q[0] in q && q[1] in q;
    var a, b := q[0], q[1];
    ForestLeavesTwo(q);
    CharPair(a.symbol, b.symbol);
    assert a == Leaf(a.symbol, freq[a.symbol]) && b == Leaf(b.symbol, freq[b.symbol]);
    TwoElems(q);
  }

  /** The leaves of a queue of two leaves are their two symbols. */
  lemma ForestLeavesTwo(q: seq<Tree>)
    requires |q| == 2 && q[0].Leaf? && q[1].Leaf?
    ensures ForestLeaves(q) == multiset{q[0].symbol, q[1].symbol}
  {
    var front := q[..1];
    assert q[..|q| - 1] == front;
    assert ForestLeaves(q) == ForestLeaves(front) + Leaves(q[1]);
    assert front[..0] == [] && front[0] == q[0];
    assert ForestLeaves(front) == ForestLeaves(front[..0]) + Leaves(q[0]);
    assert Leaves(q[0]) == multiset{q[0].symbol} && Leaves(q[1]) == multiset{q[1].symbol};
  }

  /** Two characters making up {a, b} are 'a' and 'b' in one order or the other. */
  lemma CharPair(x: char, y: char)
    requires multiset{x, y} == multiset{'a', 'b'}
    ensures (x == 'a' && y == 'b') || (x == 'b' && y == 'a')
  {
    assert x in multiset{'a', 'b'} && y in multiset{'a', 'b'};
  }

  /** A sequence of two elements is the display of its two elements. */
  lemma TwoElems<T>(q: seq<T>)
    requires |q| == 2
    ensures q == [q[0], q[1]]
  {
  }

  /** The merge loop can build exactly one tree from {a: 2, b: 3}: 'a' on the left, 'b' on the right. */
  lemma TwoCountsTree(root: Tree)
    requires HuffmanTreeOf(TwoCounts(), root)
    ensures root == Node(5, Leaf('a', 2), Leaf('b', 3))
  {
    var q :| LeafQueue(q, TwoCounts()) && GreedyFrom(q, root);
    TwoQueueTree(q, root);
  }

  /** The loop run on a queue of the two leaves for {a: 2, b: 3}, in either order. */
  lemma TwoQueueTree(q: seq<Tree>, root: Tree)
    requires LeafQueue(q, TwoCounts()) && GreedyFrom(q, root)
    ensures root == Node(5, Leaf('a', 2), Leaf('b', 3))
  {
    TwoLeafQueue(q);
    GreedyTwo(q, root);
    TwoQueueRoot(q, root);
  }

  /** The root of one round on the two leaves for {a: 2, b: 3}, in either order. */
  lemma TwoQueueRoot(q: seq<Tree>, root: Tree)
    requires q == [Leaf('a', 2), Leaf('b', 3)] || q == [Leaf('b', 3), Leaf('a', 2)]
    requires root.Node? && root == MergedNode(root.left, root.right)
    requires multiset{root.left, root.right} == multiset(q)
    requires forall u :: u in q ==> Priority(root.left) <= Priority(u)
    ensures root == Node(5, Leaf('a', 2), Leaf('b', 3))
  {
    var la, lb := Leaf('a', 2), Leaf('b', 3);
    PairMultiset(q, la, lb);
    assert la in q;
    TwoRoot(root, la, lb);
  }

  /** A node joining two trees of different priority, the lesser one on the left. */
  lemma TwoRoot(root: Tree, a: Tree, b: Tree)
    requires root.Node? && root == MergedNode(root.left, root.right)
    requires multiset{root.left, root.right} == multiset{a, b}
    requires Priority(root.left) <= Priority(a) < Priority(b)
    ensures root == MergedNode(a, b)
  {
    PairPick(root.left, root.right, a, b);
  }

  /** On a queue of two trees the loop runs one round: the root joins the two, the lesser one on the left. */
  lemma GreedyTwo(q: seq<Tree>, root: Tree)
    requires |q| == 2 && GreedyFrom(q, root)
    ensures root.Node? && root == MergedNode(root.left, root.right)
    ensures multiset{root.left, root.right} == multiset(q)
    ensures forall u :: u in q ==> Priority(root.left) <= Priority(u)
  {
    var left, right, rest :| MergeStep(q, left, right, rest)
      && GreedyFrom(rest + [MergedNode(left, right)], root);
    EmptyAppend(rest, MergedNode(left, right));
    GreedyFromOne(MergedNode(left, right), root);
    assert multiset(rest) == multiset{};
  }

  /** Two elements in either order make the same multiset. */
  lemma PairMultiset<T>(q: seq<T>, a: T, b: T)
    requires q == [a, b] || q == [b, a]
    ensures multiset(q) == multiset{a, b}
  {
  }

  /** Appending to an empty sequence gives the one-element sequence. */
  lemma EmptyAppend<T>(s: seq<T>, x: T)
    requires |s| == 0
    ensures s + [x] == [x]
  {
  }

  /** A queue of one tree ends the loop with that tree. */
  lemma GreedyFromOne(t: Tree, root: Tree)
    requires GreedyFrom([t], root)
    ensures root == t
  {
  }

  /** Of two trees of different priority, the one of no greater priority than the smaller is the smaller. */
  lemma PairPick(left: Tree, right: Tree, a: Tree, b: Tree)
    requires multiset{left, right} == multiset{a, b}
    requires Priority(left) <= Priority(a) < Priority(b)
    ensures left == a && right == b
  {
    assert left in multiset{a, b};
    if left == b {
      assert false;
    }
    assert multiset{right} == multiset{left, right} - multiset{left};
  }

  /**
    `Huffman_Coding` on {a: 2, b: 3} can only return {a: "0", b: "1"}: the
    table of every tree the merge loop can build for these counts.
   */
  lemma TwoCountsTable(root: Tree, table: map<char, string>)
    requires HuffmanTable(TwoCounts(), root, table)
    ensures table == map['a' := "0", 'b' := "1"]
  {
    TwoCountsCodings(root);
  }

  /** The table read off the one tree for {a: 2, b: 3}. */
  lemma TwoCountsCodings(root: Tree)
    requires HuffmanTreeOf(TwoCounts(), root)
    ensures GetCodings(root) == Success(map['a' := "0", 'b' := "1"])
  {
    TwoCountsTree(root);
    TwoLeavesCodings();
  }

  /** `get_codings` on the tree with 'a' left and 'b' right. */
  lemma TwoLeavesCodings()
    ensures GetCodings(Node(5, Leaf('a', 2), Leaf('b', 3))) == Success(map['a' := "0", 'b' := "1"])
  {
    assert map['a' := "0"] + map['b' := "1"] == map['a' := "0", 'b' := "1"];
  }

  /**
    `sorted_table` on {a: "0", b: "1"} can only list 'a' first: its code has
    the smaller key. So on the counts {a: 2, b: 3} the less common character
    comes first.
   */
  lemma LessCommonListedFirst(pairs: seq<(string, char)>)
    requires |pairs| == 2
    requires forall i :: 0 <= i < |pairs| ==> IsEntry(map['a' := "0", 'b' := "1"], pairs[i])
    requires DistinctChars(pairs)
    requires SortedByKey(pairs)
    ensures pairs == [("0", 'a'), ("1", 'b')]
  {
    assert IsEntry(map['a' := "0", 'b' := "1"], pairs[0]);
    assert IsEntry(map['a' := "0", 'b' := "1"], pairs[1]);
    assert SortKey("0") == 1 && SortKey("1") == 2;
    assert SortKey(pairs[0].0) <= SortKey(pairs[1].0);
  }
}
