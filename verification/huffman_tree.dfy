/**
  The Huffman tree and the code table read off it (`Node` and the inner
  `get_codings` of `Huffman_Coding` in huffman_coding.py).

  The source marks internal nodes by storing `0` in `data` and tests
  `if left.data:` to tell a leaf from an internal node; a leaf holds a
  one-character string, which is always truthy. Here the two kinds of node are
  two constructors, so that test becomes a pattern match.
 */
module HuffmanTree {
  import opened BitStrings
  import opened Wrappers

  /** A leaf holds a symbol and its frequency; an internal node its priority and two children. */
  datatype Tree = Leaf(symbol: char, weight: nat) | Node(priority: nat, left: Tree, right: Tree)

  /** The errors the Huffman construction can end in. */
  datatype HuffmanError =
    | NeverReturns   // `heap.get()` on an empty queue blocks forever
    | NoneHasNoData  // `get_codings` on a leaf root reads `None.data`

  /** The `priority` field, the only thing `Node.__lt__` compares. */
  function Priority(t: Tree): nat {
    match t
    case Leaf(_, w) => w
    case Node(p, _, _) => p
  }

  /** The symbols stored at the leaves, with multiplicity. */
  function Leaves(t: Tree): multiset<char> {
    match t
    case Leaf(c, _) => multiset{c}
    case Node(_, l, r) => Leaves(l) + Leaves(r)
  }

  /** The sum of the leaf frequencies. */
  function LeafWeight(t: Tree): nat {
    match t
    case Leaf(_, w) => w
    case Node(_, l, r) => LeafWeight(l) + LeafWeight(r)
  }

  /**
    The shape the merge loop produces: every internal node's priority is the
    sum of its children's, and its left child, popped first from the queue,
    has no larger priority than its right child.
   */
  predicate Merged(t: Tree) {
    match t
    case Leaf(_, _) => true
    case Node(p, l, r) =>
      && p == Priority(l) + Priority(r)
      && Priority(l) <= Priority(r)
      && Merged(l) && Merged(r)
  }

  /** A merged tree's priority is the total frequency of its leaves. */
  lemma {:induction false} MergedPriority(t: Tree)
    requires Merged(t)
    ensures Priority(t) == LeafWeight(t)
  {
    if t.Node? {
      MergedPriority(t.left);
      MergedPriority(t.right);
    }
  }

  /**
    The table entries contributed by `child` when it is reached along `path`:
    a leaf child records `path` for its symbol, an internal child is walked
    recursively with '0' appended for its left and '1' for its right subtree.
    Entries of the right subtree are written after, and so win over, those of
    the left.
   */
  function ChildCodings(path: string, child: Tree): (m: map<char, string>)
    ensures child.Leaf? ==> m == map[child.symbol := path]
    decreases child
  {
    match child
    case Leaf(c, _) => map[c := path]
    case Node(_, l, r) => ChildCodings(path + "0", l) + ChildCodings(path + "1", r)
  }

  /**
    `get_codings(coding, '', root)`: the code table of the tree. A leaf root has
    no children, so reading `parent.left.data` fails.
   */
  function GetCodings(root: Tree): (r: Result<map<char, string>, HuffmanError>)
    ensures r.Failure? <==> root.Leaf?
    ensures r.Failure? ==> r.error == NoneHasNoData
  {
    match root
    case Leaf(_, _) => Failure(NoneHasNoData)
    case Node(_, l, r) => Success(ChildCodings("0", l) + ChildCodings("1", r))
  }

  /** No code of the table is a prefix of (or equal to) the code of another symbol. */
  predicate PrefixFree(table: map<char, string>) {
    forall a, b :: a in table && b in table && a != b ==> !IsPrefix(table[a], table[b])
  }

  /** Every code is a non-empty string over {'0', '1'}. */
  predicate NonEmptyBitCodes(table: map<char, string>) {
    forall c :: c in table ==> |table[c]| > 0 && BitString(table[c])
  }

  /** The keys of a subtree's entries are exactly its leaf symbols. */
  lemma {:induction false} ChildCodingsKeys(path: string, t: Tree)
    ensures forall c :: c in ChildCodings(path, t) <==> c in Leaves(t)
    decreases t
  {
    if t.Node? {
      ChildCodingsKeys(path + "0", t.left);
      ChildCodingsKeys(path + "1", t.right);
    }
  }

  /**
    Every code of a subtree extends the path that leads to the subtree, by at
    least one bit when the subtree is internal, and consists of bits when the
    path does.
   */
  lemma {:induction false} ChildCodingsExtendPath(path: string, t: Tree)
    ensures forall c :: c in ChildCodings(path, t) ==>
      && IsPrefix(path, ChildCodings(path, t)[c])
      && (t.Node? ==> |ChildCodings(path, t)[c]| > |path|)
      && (BitString(path) ==> BitString(ChildCodings(path, t)[c]))
    decreases t
  {
    if t.Node? {
      var p0, p1 := path + "0", path + "1";
      ChildCodingsExtendPath(p0, t.left);
      ChildCodingsExtendPath(p1, t.right);
      var m := ChildCodings(path, t);
      forall c | c in m
        ensures IsPrefix(path, m[c]) && |m[c]| > |path|
        ensures BitString(path) ==> BitString(m[c])
      {
        var q := if c in ChildCodings(p1, t.right) then p1 else p0;
        assert IsPrefix(q, m[c]);
        assert m[c][..|path|] == q[..|path|];
      }
    }
  }

  /** Two strings that differ at a position both reach are not prefixes of one another. */
  lemma DifferAt(u: string, v: string, k: nat)
    requires k < |u| && k < |v| && u[k] != v[k]
    ensures !IsPrefix(u, v)
  {
  }

  /** A string extending `path + [x]` carries `x` right after `path`. */
  lemma BranchBit(path: string, x: char, s: string)
    requires IsPrefix(path + [x], s)
    ensures |s| > |path| && s[|path|] == x
  {
    assert s[..|path| + 1][|path|] == x;
  }

  /** The entries of one subtree are prefix-free: symbols sit only at leaves. */
  lemma {:induction false} ChildCodingsPrefixFree(path: string, t: Tree)
    ensures PrefixFree(ChildCodings(path, t))
    decreases t
  {
    if t.Node? {
      var p0, p1 := path + "0", path + "1";
      var left, right := ChildCodings(p0, t.left), ChildCodings(p1, t.right);
      ChildCodingsPrefixFree(p0, t.left);
      ChildCodingsPrefixFree(p1, t.right);
      ChildCodingsExtendPath(p0, t.left);
      ChildCodingsExtendPath(p1, t.right);
      var m := left + right;
      forall a, b | a in m && b in m && a != b
        ensures !IsPrefix(m[a], m[b])
      {
        if a in right && b in right {
          assert m[a] == right[a] && m[b] == right[b];
        } else if a !in right && b !in right {
          assert m[a] == left[a] && m[b] == left[b];
        } else if a in right {
          BranchBit(path, '1', right[a]);
          BranchBit(path, '0', left[b]);
          DifferAt(m[a], m[b], |path|);
        } else {
          BranchBit(path, '0', left[a]);
          BranchBit(path, '1', right[b]);
          DifferAt(m[a], m[b], |path|);
        }
      }
    }
  }

  /**
    For a tree with at least one internal node the table has one entry per
    leaf symbol, every code is a non-empty bit string, and no code is a prefix
    of another; a single-leaf tree fails.
   */
  lemma CodingsCoverage(root: Tree)
    ensures root.Leaf? <==> GetCodings(root) == Failure(NoneHasNoData)
    ensures GetCodings(root).Success? ==>
      var table := GetCodings(root).value;
      && (forall c :: c in table <==> c in Leaves(root))
      && NonEmptyBitCodes(table)
      && PrefixFree(table)
  {
    if root.Node? {
      NodeCodings(root);
      ChildCodingsKeys("", root);
      ChildCodingsExtendPath("", root);
      ChildCodingsPrefixFree("", root);
      assert BitString("");
    }
  }

  /** The table of an internal root is what the root contributes when reached along the empty path. */
  lemma NodeCodings(root: Tree)
    requires root.Node?
    ensures GetCodings(root) == Success(ChildCodings("", root))
  {
    assert "" + "0" == "0" && "" + "1" == "1";
  }

  /**
    The independent reading of a code: walk down from `t`, '0' to the left and
    anything else to the right, and report the symbol of the leaf where the
    walk ends exactly.
   */
  function Follow(t: Tree, code: string): Option<char>
    decreases |code|
  {
    if |code| == 0 then
      (if t.Leaf? then Some(t.symbol) else None)
    else match t
      case Leaf(_, _) => None
      case Node(_, l, r) => Follow(if code[0] == '0' then l else r, code[1..])
  }

  /**
    Each recorded code is a path to a leaf holding its symbol: after the path
    to the subtree, the rest of the code walks from the subtree down to such a
    leaf. This holds even when a symbol sits at two leaves, where the entry
    written last wins.
   */
  lemma {:induction false} ChildCodingsFollow(path: string, t: Tree, c: char)
    requires c in ChildCodings(path, t)
    ensures |path| <= |ChildCodings(path, t)[c]|
    ensures Follow(t, ChildCodings(path, t)[c][|path|..]) == Some(c)
    decreases t
  {
    if t.Leaf? {
      assert ChildCodings(path, t)[c][|path|..] == "";
    } else {
      var b := if c in ChildCodings(path + "1", t.right) then '1' else '0';
      var child := if b == '1' then t.right else t.left;
      var p := path + [b];
      var code := ChildCodings(p, child)[c];
      UnionLookup(ChildCodings(path + "0", t.left), ChildCodings(path + "1", t.right), c);
      ChildCodingsFollow(p, child, c);
      ChildCodingsExtendPath(p, child);
      FollowThrough(t, path, b, code, c);
    }
  }

  /** A walk that reaches `c` from the child on side `b` reaches it from the node, one bit earlier. */
  lemma FollowThrough(t: Tree, path: string, b: char, code: string, c: char)
    requires t.Node? && (b == '0' || b == '1')
    requires IsPrefix(path + [b], code)
    requires Follow(if b == '1' then t.right else t.left, code[|path| + 1..]) == Some(c)
    ensures |path| <= |code| && Follow(t, code[|path|..]) == Some(c)
  {
    BranchBit(path, b, code);
    FollowStep(t, code, |path|);
  }

  /** A key of a map union is looked up in the right operand when it is there, else in the left. */
  lemma UnionLookup<K, V>(m1: map<K, V>, m2: map<K, V>, k: K)
    requires k in m1 + m2
    ensures k in m2 ==> (m1 + m2)[k] == m2[k]
    ensures k !in m2 ==> k in m1 && (m1 + m2)[k] == m1[k]
  {
  }

  /** One step of `Follow` on an internal node, stated on a suffix of `code`. */
  lemma FollowStep(t: Tree, code: string, k: nat)
    requires t.Node? && k < |code|
    ensures Follow(t, code[k..]) ==
      Follow(if code[k] == '0' then t.left else t.right, code[k + 1..])
  {
    assert code[k..][0] == code[k];
    assert code[k..][1..] == code[k + 1..];
  }

  /** Following a table's code from the root leads to the leaf of its symbol. */
  lemma CodingsFollow(root: Tree)
    ensures GetCodings(root).Success? ==>
      forall c :: c in GetCodings(root).value ==> Follow(root, GetCodings(root).value[c]) == Some(c)
  {
    if root.Node? {
      assert "" + "0" == "0" && "" + "1" == "1";
      var m := GetCodings(root).value;
      forall c | c in m ensures Follow(root, m[c]) == Some(c) {
        ChildCodingsFollow("", root, c);
        assert m[c][0..] == m[c];
      }
    }
  }
}
