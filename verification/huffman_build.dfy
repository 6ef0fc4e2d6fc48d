/**
  Building the code table: the character count of `get_table` and the merge
  loop of `Huffman_Coding` in huffman_coding.py.

  The `queue.PriorityQueue` of the source is modelled as a sequence of trees
  from which `ExtractMin` removes some element of least priority. `Node.__lt__`
  compares priorities only, so which of several equal-priority nodes comes
  out first is left open here, and no particular tree shape is promised.
 */
module HuffmanBuild {
  import opened Wrappers
  import opened HuffmanTree

  /** The set of distinct characters of a text. */
  function Symbols(text: string): set<char> {
    set c | c in text
  }

  /** A text has at most as many distinct characters as characters. */
  lemma {:induction false} SymbolsAtMostLength(text: string)
    ensures |Symbols(text)| <= |text|
  {
    if |text| > 0 {
      assert Symbols(text) == Symbols(text[1..]) + {text[0]} by {
        assert text == [text[0]] + text[1..];
      }
      SymbolsAtMostLength(text[1..]);
    }
  }

  /**
    `Counter().update(text)`: the number of occurrences of every character of
    the text, counting from the first character to the last.
   */
  function Count(text: string): (freq: map<char, nat>)
    ensures freq.Keys == Symbols(text)
    ensures forall c :: c in freq ==> freq[c] == multiset(text)[c] && freq[c] >= 1
  {
    if |text| == 0 then map[]
    else
      var prefix, c := text[..|text| - 1], text[|text| - 1];
      assert text == prefix + [c];
      var rest := Count(prefix);
      rest[c := (if c in rest then rest[c] else 0) + 1]
  }

  /** Every leaf of `t` holds a symbol of `freq` with that symbol's frequency. */
  predicate Carries(t: Tree, freq: map<char, nat>) {
    match t
    case Leaf(c, w) => c in freq && w == freq[c]
    case Node(_, l, r) => Carries(l, freq) && Carries(r, freq)
  }

  /** The leaf symbols of all trees in the queue. */
  function ForestLeaves(q: seq<Tree>): multiset<char> {
    if |q| == 0 then multiset{} else ForestLeaves(q[..|q| - 1]) + Leaves(q[|q| - 1])
  }

  lemma {:induction false} ForestLeavesConcat(a: seq<Tree>, b: seq<Tree>)
    ensures ForestLeaves(a + b) == ForestLeaves(a) + ForestLeaves(b)
    decreases |b|
  {
    if |b| == 0 {
      assert a + b == a;
    } else {
      assert (a + b)[..|a + b| - 1] == a + b[..|b| - 1];
      ForestLeavesConcat(a, b[..|b| - 1]);
    }
  }

  /** Position `i` holds a tree of least priority in the queue. */
  predicate IsMinAt(q: seq<Tree>, i: int) {
    0 <= i < |q| && forall j :: 0 <= j < |q| ==> Priority(q[i]) <= Priority(q[j])
  }

  /** The first position of least priority, a witness that some minimum exists. */
  function FirstMin(q: seq<Tree>): (i: nat)
    requires |q| > 0
    ensures IsMinAt(q, i)
  {
    if |q| == 1 then 0
    else
      var k := FirstMin(q[1..]);
      if Priority(q[0]) <= Priority(q[1..][k]) then 0 else k + 1
  }

  /**
    `heap.get()` on a non-empty queue: removes and returns one tree of least
    priority. Ties are resolved in an unspecified way.
   */
  method ExtractMin(q: seq<Tree>) returns (t: Tree, rest: seq<Tree>)
    requires |q| > 0
    ensures t in q
    ensures forall u :: u in q ==> Priority(t) <= Priority(u)
    ensures |rest| == |q| - 1
    ensures multiset(rest) + multiset{t} == multiset(q)
    ensures forall u :: u in rest ==> u in q && Priority(t) <= Priority(u)
    ensures ForestLeaves(q) == Leaves(t) + ForestLeaves(rest)
  {
    assert IsMinAt(q, FirstMin(q));
    var i :| 0 <= i < |q| && IsMinAt(q, i);
    t, rest := q[i], q[..i] + q[i + 1..];
    RemoveAt(q, i);
    RemoveAtLeaves(q, i);
    forall u | u in q
      ensures Priority(t) <= Priority(u)
    {
      var j :| 0 <= j < |q| && q[j] == u;
      assert IsMinAt(q, i);
      assert Priority(q[i]) <= Priority(q[j]);
    }
  }

  /** Taking out position `i` keeps every other tree. */
  lemma RemoveAt(q: seq<Tree>, i: nat)
    requires i < |q|
    ensures multiset(q[..i] + q[i + 1..]) + multiset{q[i]} == multiset(q)
    ensures forall u :: u in q[..i] + q[i + 1..] ==> u in q
  {
    SplitAt(q, i);
  }

  /** A sequence is the part before position `i`, the element there and the part after. */
  lemma SplitAt<T>(q: seq<T>, i: nat)
    requires i < |q|
    ensures q == (q[..i] + [q[i]]) + q[i + 1..]
  {
  }

  /** Taking out position `i` takes out the leaves of the tree there. */
  lemma RemoveAtLeaves(q: seq<Tree>, i: nat)
    requires i < |q|
    ensures ForestLeaves(q) == Leaves(q[i]) + ForestLeaves(q[..i] + q[i + 1..])
  {
    var t, front, back := q[i], q[..i], q[i + 1..];
    SplitAt(q, i);
    AppendLeaf(front, t);
    ForestLeavesConcat(front + [t], back);
    ForestLeavesConcat(front, back);
    MoveToFront(ForestLeaves(front), Leaves(t), ForestLeaves(back));
  }

  lemma MoveToFront(a: multiset<char>, b: multiset<char>, c: multiset<char>)
    ensures (a + b) + c == b + (a + c)
  {
  }

  /** The queue filled before the merge loop: one leaf per symbol carrying its count, in some order. */
  method InitialQueue(freq: map<char, nat>) returns (q: seq<Tree>)
    ensures |q| == |freq|
    ensures ForestLeaves(q) == multiset(freq.Keys)
    ensures forall t :: t in q ==> t.Leaf? && Carries(t, freq)
  {
    q := [];
    var keys := freq.Keys;
    while keys != {}
      invariant keys <= freq.Keys
      invariant |q| + |keys| == |freq|
      invariant ForestLeaves(q) + multiset(keys) == multiset(freq.Keys)
      invariant forall t :: t in q ==> t.Leaf? && Carries(t, freq)
      decreases keys
    {
      var c :| c in keys;
      var leaf := Leaf(c, freq[c]);
      ForestLeavesConcat(q, [leaf]);
      assert [leaf][..0] == [];
      q := q + [leaf];
      keys := keys - {c};
    }
  }

  /**
    One round of the merge loop: `left`, a tree of least priority, and then
    `right`, a tree of least priority among the rest, are taken out, and the
    node with `left` on its left, `right` on its right and the sum of their
    priorities is put at the back. The trees not taken stay, in their order.
   */
  method MergeTwo(q: seq<Tree>, freq: map<char, nat>) returns (q': seq<Tree>, left: Tree, right: Tree)
    requires |q| >= 2
    requires forall t :: t in q ==> Merged(t) && Carries(t, freq)
    ensures |q'| == |q| - 1
    ensures forall u :: u in q ==> Priority(left) <= Priority(u)
    ensures forall u :: u in q'[..|q'| - 1] ==> Priority(right) <= Priority(u)
    ensures multiset(q'[..|q'| - 1]) + multiset{left, right} == multiset(q)
    ensures q'[|q'| - 1] == MergedNode(left, right)
    ensures ForestLeaves(q') == ForestLeaves(q)
    ensures forall t :: t in q' ==> Merged(t) && Carries(t, freq)
  {
    var rest, rest';
    left, rest := ExtractMin(q);
    right, rest' := ExtractMin(rest);
    RemoveTwo(q, rest, rest', left, right);
    var node := MergedNode(left, right);
    assert Merged(node) && Carries(node, freq);
    assert forall t :: t in rest' ==> t in q;
    AppendLeaf(rest', node);
    AppendKeepsMerged(rest', node, freq);
    q' := rest' + [node];
    assert q'[..|q'| - 1] == rest' && q'[|q'| - 1] == node;
  }

  /** The internal node the merge loop builds from the two trees it took out. */
  function MergedNode(left: Tree, right: Tree): Tree {
    Node(Priority(left) + Priority(right), left, right)
  }

  /**
    One greedy round on `q`: `left` has least priority in `q`, `right` has
    least priority among the rest, and `rest` holds the other trees.
   */
  ghost predicate MergeStep(q: seq<Tree>, left: Tree, right: Tree, rest: seq<Tree>) {
    && |rest| + 2 == |q|
    && (forall u :: u in q ==> Priority(left) <= Priority(u))
    && (forall u :: u in rest ==> Priority(right) <= Priority(u))
    && multiset(rest) + multiset{left, right} == multiset(q)
  }

  /**
    `root` is a tree the merge loop can end with when started on the queue
    `q`: a single tree is the result itself; otherwise some greedy round is
    taken and the loop goes on with the merged node put back. Ties between
    equal priorities may go either way.
   */
  ghost predicate GreedyFrom(q: seq<Tree>, root: Tree)
    decreases |q|
  {
    if |q| <= 1 then q == [root]
    else exists left, right, rest ::
      && MergeStep(q, left, right, rest)
      && GreedyFrom(rest + [MergedNode(left, right)], root)
  }

  /**
    A round as `MergeTwo` takes it is a greedy round: every result of the loop
    after it is one from before it, and so one from the starting queue `q0`.
   */
  lemma StepBack(q0: seq<Tree>, q: seq<Tree>, q': seq<Tree>, left: Tree, right: Tree)
    requires forall t :: GreedyFrom(q, t) ==> GreedyFrom(q0, t)
    requires |q| >= 2 && |q'| == |q| - 1
    requires forall u :: u in q ==> Priority(left) <= Priority(u)
    requires forall u :: u in q'[..|q'| - 1] ==> Priority(right) <= Priority(u)
    requires multiset(q'[..|q'| - 1]) + multiset{left, right} == multiset(q)
    requires q'[|q'| - 1] == MergedNode(left, right)
    ensures forall t :: GreedyFrom(q', t) ==> GreedyFrom(q, t)
    ensures forall t :: GreedyFrom(q', t) ==> GreedyFrom(q0, t)
  {
    var rest := q'[..|q'| - 1];
    assert q' == rest + [MergedNode(left, right)];
    assert MergeStep(q, left, right, rest);
    forall t | GreedyFrom(q', t)
      ensures GreedyFrom(q, t)
    {
    }
  }

  /** Taking out one tree and then another from what remains takes out both. */
  lemma RemoveTwo(q: seq<Tree>, rest: seq<Tree>, rest': seq<Tree>, left: Tree, right: Tree)
    requires multiset(rest) + multiset{left} == multiset(q)
    requires multiset(rest') + multiset{right} == multiset(rest)
    ensures multiset(rest') + multiset{left, right} == multiset(q)
  {
  }

  /** Putting a tree at the back of the queue adds its leaves. */
  lemma AppendLeaf(q: seq<Tree>, t: Tree)
    ensures ForestLeaves(q + [t]) == ForestLeaves(q) + Leaves(t)
  {
    ForestLeavesConcat(q, [t]);
    assert [t][..0] == [];
  }

  /** Putting a merged tree at the back of a queue of merged trees keeps them all merged. */
  lemma AppendKeepsMerged(q: seq<Tree>, t: Tree, freq: map<char, nat>)
    requires forall u :: u in q ==> Merged(u) && Carries(u, freq)
    requires Merged(t) && Carries(t, freq)
    ensures forall u :: u in q + [t] ==> Merged(u) && Carries(u, freq)
  {
  }

  /**
    The merge loop: while more than one tree remains, two trees are merged
    into one. Each round removes two trees and inserts one, so the loop ends
    with a single tree holding all leaves.
   */
  method MergeAll(q0: seq<Tree>, freq: map<char, nat>) returns (root: Tree)
    requires |q0| >= 1
    requires forall t :: t in q0 ==> Merged(t) && Carries(t, freq)
    ensures Leaves(root) == ForestLeaves(q0)
    ensures Merged(root) && Carries(root, freq)
    ensures |q0| == 1 ==> root == q0[0]
    ensures |q0| >= 2 ==> root.Node?
    ensures GreedyFrom(q0, root)
  {
    var q := q0;
    while |q| > 1
      invariant |q| >= 1
      invariant ForestLeaves(q) == ForestLeaves(q0)
      invariant forall t :: t in q ==> Merged(t) && Carries(t, freq)
      invariant |q| <= |q0|
      invariant |q| == |q0| ==> q == q0
      invariant |q| < |q0| ==> q[|q| - 1].Node?
      invariant forall t :: GreedyFrom(q, t) ==> GreedyFrom(q0, t)
      decreases |q|
    {
      var q1, left, right := q, Tree.Leaf(' ', 0), Tree.Leaf(' ', 0);
      q, left, right := MergeTwo(q1, freq);
      StepBack(q0, q1, q, left, right);
    }
    root := q[0];
    LastTree(q0, q);
  }

  /** When the loop stops, its one tree holds the queue's leaves and is a result of the loop. */
  lemma LastTree(q0: seq<Tree>, q: seq<Tree>)
    requires |q| == 1
    requires forall t :: GreedyFrom(q, t) ==> GreedyFrom(q0, t)
    ensures ForestLeaves(q) == Leaves(q[0])
    ensures GreedyFrom(q0, q[0])
  {
    assert q[..0] == [];
    assert q == [q[0]];
    assert GreedyFrom(q, q[0]);
  }

  /** The queue before the merge loop: one leaf per symbol of `freq`, carrying its count, in some order. */
  ghost predicate LeafQueue(q: seq<Tree>, freq: map<char, nat>) {
    && |q| == |freq|
    && ForestLeaves(q) == multiset(freq.Keys)
    && forall t :: t in q ==> t.Leaf? && Carries(t, freq)
  }

  /** `root` is a tree the merge loop can build from the counts `freq`. */
  ghost predicate HuffmanTreeOf(freq: map<char, nat>, root: Tree) {
    exists q :: LeafQueue(q, freq) && GreedyFrom(q, root)
  }

  /**
    `table` is what `get_codings` reads off a tree the merge loop can build
    from `freq`, a tree holding every symbol once with its count.
   */
  ghost predicate HuffmanTable(freq: map<char, nat>, root: Tree, table: map<char, string>) {
    && HuffmanTreeOf(freq, root)
    && Merged(root)
    && Carries(root, freq)
    && Leaves(root) == multiset(freq.Keys)
    && GetCodings(root) == Success(table)
  }

  /**
    The tree building part of `Huffman_Coding`: the initial queue of leaves is
    merged into one tree. An empty queue blocks the first `heap.get()` forever.
   */
  method Build(freq: map<char, nat>) returns (r: Result<Tree, HuffmanError>)
    ensures |freq| == 0 <==> r == Failure(NeverReturns)
    ensures r.Failure? ==> r.error == NeverReturns
    ensures r.Success? ==>
      && Leaves(r.value) == multiset(freq.Keys)
      && Merged(r.value)
      && Carries(r.value, freq)
      && Priority(r.value) == LeafWeight(r.value)
      && (r.value.Leaf? <==> |freq| == 1)
      && HuffmanTreeOf(freq, r.value)
  {
    var q := InitialQueue(freq);
    if |q| == 0 {
      return Failure(NeverReturns);
    }
    var root := MergeAll(q, freq);
    assert LeafQueue(q, freq);
    MergedPriority(root);
    if |q| == 1 {
      assert q[..0] == [];
    }
    r := Success(root);
  }

  /**
    `Huffman_Coding(freq)`: the code table of the frequency map. It is defined
    only when the map has at least two symbols; with one symbol the root is a
    leaf and `get_codings` fails, with none the queue blocks.
   */
  method HuffmanCoding(freq: map<char, nat>) returns (r: Result<map<char, string>, HuffmanError>)
    ensures |freq| == 0 ==> r == Failure(NeverReturns)
    ensures |freq| == 1 ==> r == Failure(NoneHasNoData)
    ensures |freq| >= 2 ==> r.Success?
    ensures r.Success? ==>
      && r.value.Keys == freq.Keys
      && NonEmptyBitCodes(r.value)
      && PrefixFree(r.value)
    ensures r.Success? ==> exists root :: HuffmanTable(freq, root, r.value)
  {
    var tree := Build(freq);
    match tree {
      case Failure(e) =>
        r := Failure(e);
      case Success(root) =>
        CodingsOfBuild(freq, root);
        r := GetCodings(root);
    }
  }

  /** The table read off a built tree: a failure for one symbol, otherwise a prefix-free code over the symbols. */
  lemma CodingsOfBuild(freq: map<char, nat>, root: Tree)
    requires |freq| >= 1
    requires Leaves(root) == multiset(freq.Keys)
    requires Merged(root) && Carries(root, freq)
    requires root.Leaf? <==> |freq| == 1
    requires HuffmanTreeOf(freq, root)
    ensures |freq| == 1 ==> GetCodings(root) == Failure(NoneHasNoData)
    ensures |freq| >= 2 ==>
      && GetCodings(root).Success?
      && GetCodings(root).value.Keys == freq.Keys
      && NonEmptyBitCodes(GetCodings(root).value)
      && PrefixFree(GetCodings(root).value)
      && HuffmanTable(freq, root, GetCodings(root).value)
  {
    CodingsCoverage(root);
    if |freq| >= 2 {
      var table := GetCodings(root).value;
      assert forall c :: c in table <==> c in Leaves(root);
      assert table.Keys == freq.Keys;
    }
  }

  /**
    `get_table` on a text: the code table built from the text's character
    counts. It succeeds exactly when the text has two or more distinct
    characters, and then covers exactly those characters.
   */
  method GetTable(text: string) returns (r: Result<map<char, string>, HuffmanError>)
    ensures |Symbols(text)| == 0 ==> r == Failure(NeverReturns)
    ensures |Symbols(text)| == 1 ==> r == Failure(NoneHasNoData)
    ensures r.Success? <==> |Symbols(text)| >= 2
    ensures r.Success? ==>
      && r.value.Keys == Symbols(text)
      && NonEmptyBitCodes(r.value)
      && PrefixFree(r.value)
    ensures r.Success? ==> exists root :: HuffmanTable(Count(text), root, r.value)
  {
    r := HuffmanCoding(Count(text));
  }
}
