/**
  `sorted_table` of huffman_coding.py: the code table as a list of
  (code, character) pairs, sorted by a key that rewrites each code digit-wise
  ('0' becomes '1', anything else '2') and reads the result as a decimal
  integer. On codes over {'0', '1'} the key is injective and orders shorter
  codes first and codes of equal length lexicographically, '0' before '1'.
 */
module HuffmanSort {
  import opened BitStrings
  import opened Wrappers

  /** `int('')` raises ValueError: an empty code has no sort key. */
  datatype SortError = EmptyCodeKey

  function Pow10(n: nat): (p: nat)
    ensures p >= 1
  {
    if n == 0 then 1 else 10 * Pow10(n - 1)
  }

  /** The decimal digit a code character is rewritten to. */
  function KeyDigit(c: char): nat {
    if c == '0' then 1 else 2
  }

  /**
    `coding_sort_key`: the value of the decimal numeral whose digits are the
    rewritten code characters, most significant first.
   */
  function SortKey(code: string): (k: nat)
    ensures |code| > 0 ==> Pow10(|code| - 1) <= k < Pow10(|code|)
    ensures |code| == 0 ==> k == 0
  {
    if |code| == 0 then 0 else KeyDigit(code[0]) * Pow10(|code| - 1) + SortKey(code[1..])
  }

  /** The numeral 11…1 of `n` digits: the smallest key of a code of length `n`. */
  function Ones(n: nat): nat {
    if n == 0 then 0 else Pow10(n - 1) + Ones(n - 1)
  }

  lemma {:induction false} OnesBelowPow10(n: nat)
    ensures 2 * Ones(n) < Pow10(n)
  {
    if n > 0 {
      OnesBelowPow10(n - 1);
    }
  }

  lemma {:induction false} OnesMonotone(m: nat, n: nat)
    requires m <= n
    ensures Ones(m) <= Ones(n)
    decreases n
  {
    if m < n {
      OnesMonotone(m, n - 1);
    }
  }

  /** A key of a code of length `n` lies between 11…1 and 22…2. */
  lemma {:induction false} SortKeyBounds(code: string)
    ensures Ones(|code|) <= SortKey(code) <= 2 * Ones(|code|)
  {
    if |code| > 0 {
      SortKeyBounds(code[1..]);
    }
  }

  /** Lexicographic order on strings of equal length. */
  predicate LexLess(a: string, b: string)
    requires |a| == |b|
  {
    |a| > 0 && (if a[0] != b[0] then a[0] < b[0] else LexLess(a[1..], b[1..]))
  }

  /** Shorter codes first; codes of equal length in lexicographic order. */
  predicate CodeLess(a: string, b: string) {
    |a| < |b| || (|a| == |b| && LexLess(a, b))
  }

  /** Distinct strings of equal length are ordered one way or the other. */
  lemma {:induction false} LexTrichotomy(a: string, b: string)
    requires |a| == |b| && a != b
    ensures LexLess(a, b) || LexLess(b, a)
  {
    if a[0] == b[0] {
      assert a[1..] != b[1..] by {
        assert a == [a[0]] + a[1..] && b == [b[0]] + b[1..];
      }
      LexTrichotomy(a[1..], b[1..]);
    }
  }

  /** On bit strings of equal length, lexicographic order is key order. */
  lemma {:induction false} LexLessKey(a: string, b: string)
    requires BitString(a) && BitString(b) && |a| == |b|
    requires LexLess(a, b)
    ensures SortKey(a) < SortKey(b)
  {
    var p := Pow10(|a| - 1);
    if a[0] != b[0] {
      assert a[0] == '0' && b[0] == '1';
      SortKeyBounds(a[1..]);
      OnesBelowPow10(|a| - 1);
      assert SortKey(a) == p + SortKey(a[1..]);
      assert SortKey(b) == 2 * p + SortKey(b[1..]);
    } else {
      LexLessKey(a[1..], b[1..]);
    }
  }

  /** `CodeLess` implies a smaller key. */
  lemma CodeLessKey(a: string, b: string)
    requires BitString(a) && BitString(b)
    requires CodeLess(a, b)
    ensures SortKey(a) < SortKey(b)
  {
    if |a| < |b| {
      SortKeyBounds(a);
      SortKeyBounds(b);
      OnesBelowPow10(|a|);
      OnesMonotone(|a| + 1, |b|);
    } else {
      LexLessKey(a, b);
    }
  }

  /**
    On codes over {'0', '1'} the sort key is injective, and comparing keys is
    comparing codes by length first and then lexicographically.
   */
  lemma SortKeyOrder(a: string, b: string)
    requires BitString(a) && BitString(b)
    ensures SortKey(a) == SortKey(b) <==> a == b
    ensures SortKey(a) < SortKey(b) <==> CodeLess(a, b)
  {
    if a != b {
      if |a| == |b| {
        LexTrichotomy(a, b);
      }
      if CodeLess(a, b) {
        CodeLessKey(a, b);
      } else {
        assert CodeLess(b, a);
        CodeLessKey(b, a);
      }
    }
  }

  /** The pairs are in non-decreasing key order. */
  predicate SortedByKey(pairs: seq<(string, char)>) {
    forall i, j :: 0 <= i < j < |pairs| ==> SortKey(pairs[i].0) <= SortKey(pairs[j].0)
  }

  /** No character appears in two pairs. */
  predicate DistinctChars(pairs: seq<(string, char)>) {
    forall i, j :: 0 <= i < j < |pairs| ==> pairs[i].1 != pairs[j].1
  }

  /** Putting a pair of no greater key in front of a sorted list keeps it sorted. */
  lemma SortedCons(x: (string, char), pairs: seq<(string, char)>)
    requires SortedByKey(pairs)
    requires forall y :: y in pairs ==> SortKey(x.0) <= SortKey(y.0)
    ensures SortedByKey([x] + pairs)
  {
    var r := [x] + pairs;
    forall i, j | 0 <= i < j < |r|
      ensures SortKey(r[i].0) <= SortKey(r[j].0)
    {
      if i > 0 {
        assert r[i] == pairs[i - 1] && r[j] == pairs[j - 1];
      } else {
        assert r[j] in pairs;
      }
    }
  }

  /** Putting a pair with a new character in front of a list keeps the characters distinct. */
  lemma DistinctCons(x: (string, char), pairs: seq<(string, char)>)
    requires DistinctChars(pairs)
    requires forall y :: y in pairs ==> y.1 != x.1
    ensures DistinctChars([x] + pairs)
  {
    var r := [x] + pairs;
    forall i, j | 0 <= i < j < |r|
      ensures r[i].1 != r[j].1
    {
      if i > 0 {
        assert r[i] == pairs[i - 1] && r[j] == pairs[j - 1];
      } else {
        assert r[j] in pairs;
      }
    }
  }

  /** Inserts `p` into a key-sorted list, before the first pair of greater key. */
  function Insert(pairs: seq<(string, char)>, p: (string, char)): (r: seq<(string, char)>)
    requires SortedByKey(pairs)
    ensures SortedByKey(r)
    ensures |r| == |pairs| + 1
    ensures multiset(r) == multiset(pairs) + multiset{p}
    ensures forall x :: x in r <==> x in pairs || x == p
  {
    if |pairs| == 0 then [p]
    else if SortKey(p.0) < SortKey(pairs[0].0) then
      SortedCons(p, pairs);
      [p] + pairs
    else
      var tail := Insert(pairs[1..], p);
      ConsInsert(pairs, tail, p);
      [pairs[0]] + tail
  }

  /** Putting the head back in front of the tail with `p` inserted gives the list with `p` inserted. */
  lemma ConsInsert(pairs: seq<(string, char)>, tail: seq<(string, char)>, p: (string, char))
    requires |pairs| > 0 && SortedByKey(pairs)
    requires SortKey(pairs[0].0) <= SortKey(p.0)
    requires SortedByKey(tail)
    requires multiset(tail) == multiset(pairs[1..]) + multiset{p}
    requires forall x :: x in tail <==> x in pairs[1..] || x == p
    ensures SortedByKey([pairs[0]] + tail)
    ensures multiset([pairs[0]] + tail) == multiset(pairs) + multiset{p}
    ensures forall x :: x in [pairs[0]] + tail <==> x in pairs || x == p
  {
    assert pairs == [pairs[0]] + pairs[1..];
    SortedCons(pairs[0], tail);
  }

  /** The tail of a list of distinct characters has distinct characters, none of them the head's. */
  lemma DistinctTail(pairs: seq<(string, char)>)
    requires |pairs| > 0 && DistinctChars(pairs)
    ensures DistinctChars(pairs[1..])
    ensures forall y :: y in pairs[1..] ==> y in pairs && y.1 != pairs[0].1
  {
    var rest := pairs[1..];
    forall i, j | 0 <= i < j < |rest| ensures rest[i].1 != rest[j].1 {
      assert rest[i] == pairs[i + 1] && rest[j] == pairs[j + 1];
    }
    forall y | y in rest ensures y in pairs && y.1 != pairs[0].1 {
      var k :| 0 <= k < |rest| && rest[k] == y;
      assert pairs[k + 1] == y;
    }
  }

  /** Inserting a pair whose character is new keeps the characters distinct. */
  lemma {:induction false} InsertDistinct(pairs: seq<(string, char)>, p: (string, char))
    requires SortedByKey(pairs) && DistinctChars(pairs)
    requires forall x :: x in pairs ==> x.1 != p.1
    ensures DistinctChars(Insert(pairs, p))
  {
    if |pairs| > 0 && SortKey(p.0) >= SortKey(pairs[0].0) {
      var head, rest := pairs[0], pairs[1..];
      DistinctTail(pairs);
      InsertDistinct(rest, p);
      DistinctCons(head, Insert(rest, p));
    } else if |pairs| > 0 {
      DistinctCons(p, pairs);
    }
  }

  /** The entry `(coding[c], c)` of character `c`, as `sorted_table` lists it. */
  predicate IsEntry(coding: map<char, string>, p: (string, char)) {
    p.1 in coding && coding[p.1] == p.0
  }

  /**
    `sorted_table(coding)`: the (code, character) pairs of the table in key
    order. It fails when a code is empty. Otherwise the result lists every entry
    of the table exactly once, with its code unchanged.
   */
  method SortedTable(coding: map<char, string>) returns (r: Result<seq<(string, char)>, SortError>)
    ensures r.Failure? <==> exists c :: c in coding && coding[c] == ""
    ensures r.Success? ==>
      && |r.value| == |coding|
      && (forall i :: 0 <= i < |r.value| ==> IsEntry(coding, r.value[i]))
      && (forall c :: c in coding ==> (coding[c], c) in r.value)
      && DistinctChars(r.value)
      && SortedByKey(r.value)
  {
    if exists c :: c in coding && coding[c] == "" {
      return Failure(EmptyCodeKey);
    }
    var pairs: seq<(string, char)> := [];
    var keys := coding.Keys;
    while keys != {}
      invariant keys <= coding.Keys
      invariant |pairs| + |keys| == |coding|
      invariant forall x :: x in pairs ==> IsEntry(coding, x) && x.1 !in keys
      invariant forall c :: c in coding && c !in keys ==> (coding[c], c) in pairs
      invariant DistinctChars(pairs)
      invariant SortedByKey(pairs)
      decreases keys
    {
      var c :| c in keys;
      InsertDistinct(pairs, (coding[c], c));
      pairs := Insert(pairs, (coding[c], c));
      keys := keys - {c};
    }
    r := Success(pairs);
  }

  /**
    For a table whose codes are distinct bit strings, the list is in strict
    code order: shorter codes first, then lexicographic.
   */
  lemma SortedTableOrder(coding: map<char, string>, pairs: seq<(string, char)>)
    requires forall c :: c in coding ==> BitString(coding[c])
    requires forall a, b :: a in coding && b in coding && a != b ==> coding[a] != coding[b]
    requires forall i :: 0 <= i < |pairs| ==> IsEntry(coding, pairs[i])
    requires DistinctChars(pairs)
    requires SortedByKey(pairs)
    ensures forall i, j :: 0 <= i < j < |pairs| ==> CodeLess(pairs[i].0, pairs[j].0)
  {
    forall i, j | 0 <= i < j < |pairs|
      ensures CodeLess(pairs[i].0, pairs[j].0)
    {
      assert IsEntry(coding, pairs[i]) && IsEntry(coding, pairs[j]);
      SortKeyOrder(pairs[i].0, pairs[j].0);
    }
  }
}
