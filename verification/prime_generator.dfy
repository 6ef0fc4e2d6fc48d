/**
  The prime generator and the summing driver of p010_dan_generator.rs.

  The generator closure is modelled as an explicit state: `Fresh` before its
  first resumption, then `Suspended(primes, i)` with the primes yielded so far
  and the next candidate `i` (the source increments `i` right after resuming
  from `yield i`, so the state keeps the incremented value). `Resume` is one
  resumption: trial division of candidates against the stored primes until one
  has no stored divisor.
 */
module PrimeGenerator {

  /** `n` is a prime: at least 2 and divisible by no number strictly between 1 and itself. */
  predicate IsPrime(n: int) {
    n >= 2 && forall d :: 2 <= d < n ==> n % d != 0
  }

  /** The primes below `n`, in increasing order. */
  function PrimesBelow(n: nat): seq<nat> {
    if n == 0 then [] else PrimesBelow(n - 1) + (if IsPrime(n - 1) then [n - 1] else [])
  }

  function Sum(s: seq<nat>): nat {
    if |s| == 0 then 0 else Sum(s[..|s| - 1]) + s[|s| - 1]
  }

  function Product(s: seq<nat>): nat {
    if |s| == 0 then 1 else Product(s[..|s| - 1]) * s[|s| - 1]
  }

  /** `PrimesBelow(n)` lists exactly the primes below `n`, in strictly increasing order. */
  lemma {:induction false} PrimesBelowMembers(n: nat)
    ensures forall k :: 0 <= k < |PrimesBelow(n)| ==> IsPrime(PrimesBelow(n)[k]) && PrimesBelow(n)[k] < n
    ensures forall p :: IsPrime(p) && p < n ==> p in PrimesBelow(n)
    ensures forall j, k :: 0 <= j < k < |PrimesBelow(n)| ==> PrimesBelow(n)[j] < PrimesBelow(n)[k]
  {
    if n > 0 {
      PrimesBelowMembers(n - 1);
    }
  }

  /** Every listed prime is at least 2. */
  lemma PrimesAtLeastTwo(n: nat)
    ensures forall k :: 0 <= k < |PrimesBelow(n)| ==> PrimesBelow(n)[k] >= 2
  {
    PrimesBelowMembers(n);
  }

  /** Without primes in `[a, b)`, no new prime is listed between `a` and `b`. */
  lemma {:induction false} PrimesBelowGap(a: nat, b: nat)
    requires a <= b
    requires forall k :: a <= k < b ==> !IsPrime(k)
    ensures PrimesBelow(b) == PrimesBelow(a)
    decreases b - a
  {
    if a < b {
      PrimesBelowGap(a, b - 1);
    }
  }

  lemma MulAtLeast(d: int, c: int)
    requires d >= 1 && c > 0
    ensures d * c >= c
  {
    if d > 1 {
      MulAtLeast(d - 1, c);
      assert d * c == (d - 1) * c + c;
    }
  }

  /** Euclidean division is unique: `q * c + r` with `0 <= r < c` leaves remainder `r`. */
  lemma ModUnique(x: int, c: int, q: int, r: int)
    requires c > 0 && 0 <= r < c && x == q * c + r
    ensures x % c == r
  {
    var q', r' := x / c, x % c;
    assert x == q' * c + r';
    var d := q - q';
    assert d * c == r' - r by {
      assert q * c - q' * c == (q - q') * c;
    }
    if d > 0 {
      MulAtLeast(d, c);
    } else if d < 0 {
      MulAtLeast(-d, c);
    }
  }

  /** An exact division leaves a quotient that multiplies back. */
  lemma DivExact(a: int, b: int)
    requires b > 0 && a % b == 0
    ensures a == (a / b) * b
  {
  }

  /** Divisibility is transitive. */
  lemma DivTransitive(a: nat, b: nat, c: nat)
    requires b > 0 && c > 0
    requires a % b == 0 && b % c == 0
    ensures a % c == 0
  {
    var x, y := a / b, b / c;
    DivExact(a, b);
    DivExact(b, c);
    assert a == (x * y) * c by {
      assert x * b == x * (y * c);
    }
    ModUnique(a, c, x * y, 0);
  }

  /** Every number from 2 on has a prime divisor no larger than itself. */
  lemma {:induction false} PrimeDivisor(n: nat) returns (q: nat)
    requires n >= 2
    ensures 2 <= q <= n && IsPrime(q) && n % q == 0
    decreases n
  {
    if IsPrime(n) {
      q := n;
      ModUnique(n, n, 1, 0);
    } else {
      var d :| 2 <= d < n && n % d == 0;
      q := PrimeDivisor(d);
      DivTransitive(n, d, q);
    }
  }

  /** The inner `for p in &primes` loop: whether some stored prime divides `i`. */
  function HasDivisor(primes: seq<nat>, i: nat): (r: bool)
    requires forall k :: 0 <= k < |primes| ==> primes[k] > 0
    ensures r <==> exists k :: 0 <= k < |primes| && i % primes[k] == 0
  {
    if |primes| == 0 then false
    else i % primes[0] == 0 || HasDivisor(primes[1..], i)
  }

  /** A composite candidate has a stored prime divisor. */
  lemma CompositeHasDivisor(i: nat, primes: seq<nat>)
    requires i >= 2 && !IsPrime(i)
    requires forall p :: IsPrime(p) && p < i ==> p in primes
    requires forall k :: 0 <= k < |primes| ==> primes[k] > 0
    ensures exists k :: 0 <= k < |primes| && i % primes[k] == 0
  {
    var q := PrimeDivisor(i);
    var k :| 0 <= k < |primes| && primes[k] == q;
    assert i % primes[k] == 0;
  }

  /** No prime below a prime divides it. */
  lemma PrimeHasNoDivisor(i: nat, primes: seq<nat>)
    requires IsPrime(i)
    requires forall k :: 0 <= k < |primes| ==> IsPrime(primes[k]) && primes[k] < i
    ensures forall k :: 0 <= k < |primes| ==> primes[k] > 0 && i % primes[k] != 0
  {
    forall k | 0 <= k < |primes|
      ensures primes[k] > 0 && i % primes[k] != 0
    {
      var d := primes[k];
      assert 2 <= d < i;
    }
  }

  /** With all primes below `i` stored, a stored prime divides `i` exactly when `i` is not prime. */
  lemma TrialDivision(i: nat)
    requires i >= 2
    ensures forall k :: 0 <= k < |PrimesBelow(i)| ==> PrimesBelow(i)[k] > 0
    ensures HasDivisor(PrimesBelow(i), i) <==> !IsPrime(i)
  {
    var primes := PrimesBelow(i);
    PrimesBelowMembers(i);
    if IsPrime(i) {
      PrimeHasNoDivisor(i, primes);
    } else {
      CompositeHasDivisor(i, primes);
    }
  }

  /** The product of stored primes is divisible by each of them. */
  lemma {:induction false} ProductDivisible(s: seq<nat>, k: nat)
    requires k < |s|
    requires forall j :: 0 <= j < |s| ==> s[j] > 0
    ensures Product(s) % s[k] == 0
  {
    var init, last := s[..|s| - 1], s[|s| - 1];
    assert Product(s) == Product(init) * last;
    if k == |s| - 1 {
      ModUnique(Product(s), last, Product(init), 0);
    } else {
      ProductDivisible(init, k);
      assert init[k] == s[k];
      var y := Product(init) / s[k];
      DivExact(Product(init), s[k]);
      assert Product(s) == (y * last) * s[k] by {
        assert Product(init) * last == (y * s[k]) * last;
      }
      ModUnique(Product(s), s[k], y * last, 0);
    }
  }

  /** The product of positive numbers is at least each of them. */
  lemma {:induction false} ProductAtLeastLast(s: seq<nat>)
    requires |s| > 0
    requires forall j :: 0 <= j < |s| ==> s[j] > 0
    ensures Product(s) >= s[|s| - 1]
    ensures Product(s) >= 1
  {
    var init := s[..|s| - 1];
    if |init| > 0 {
      ProductAtLeastLast(init);
    }
    assert Product(s) == Product(init) * s[|s| - 1];
    MulAtLeast(Product(init), s[|s| - 1]);
  }

  /** No stored prime divides their product plus one, so the candidate search stops there at the latest. */
  lemma ProductPlusOne(primes: seq<nat>)
    requires forall j :: 0 <= j < |primes| ==> primes[j] >= 2
    ensures !HasDivisor(primes, Product(primes) + 1)
  {
    if HasDivisor(primes, Product(primes) + 1) {
      var k :| 0 <= k < |primes| && (Product(primes) + 1) % primes[k] == 0;
      ProductDivisible(primes, k);
      var p := primes[k];
      var y := Product(primes) / p;
      DivExact(Product(primes), p);
      ModUnique(Product(primes) + 1, p, y, 1);
    }
  }

  /** The generator closure between resumptions. */
  datatype Generator =
    | Fresh                                   // not resumed yet
    | Suspended(primes: seq<nat>, i: nat)     // after a `yield`: stored primes and next candidate

  /** The values yielded so far, which are the stored primes. */
  function Yielded(g: Generator): seq<nat> {
    match g
    case Fresh => []
    case Suspended(primes, _) => primes
  }

  /** The first candidate the next resumption examines. */
  function NextCandidate(g: Generator): nat {
    match g
    case Fresh => 0
    case Suspended(_, i) => i
  }

  /**
    The generator invariant: after a yield, `primes` is exactly the list of all
    primes below the candidate `i`, and `i` is one past the last of them.
   */
  predicate Valid(g: Generator) {
    match g
    case Fresh => true
    case Suspended(primes, i) =>
      |primes| > 0 && primes == PrimesBelow(i) && i == primes[|primes| - 1] + 1
  }

  /** The first resumption: 2 is the least prime, and the only one below 3. */
  lemma FirstPrime()
    ensures IsPrime(2) && !IsPrime(0) && !IsPrime(1)
    ensures PrimesBelow(3) == [2]
  {
    assert PrimesBelow(2) == [];
  }

  /** A candidate some stored prime divides is composite, and skipping it stores nothing. */
  lemma SkipCandidate(primes: seq<nat>, i: nat)
    requires i >= 2 && primes == PrimesBelow(i)
    requires forall k :: 0 <= k < |primes| ==> primes[k] > 0
    ensures HasDivisor(primes, i) ==> !IsPrime(i) && PrimesBelow(i + 1) == primes
    ensures !HasDivisor(primes, i) ==> IsPrime(i) && PrimesBelow(i + 1) == primes + [i]
  {
    TrialDivision(i);
  }

  /**
    The candidate loop of a later resumption: starting at `i0`, skip every
    candidate some stored prime divides. It stops at the least prime from `i0`
    on, at the latest at the product of the stored primes plus one.
   */
  method NextPrime(primes: seq<nat>, i0: nat) returns (x: nat)
    requires Valid(Suspended(primes, i0))
    ensures IsPrime(x) && x >= i0
    ensures forall k :: i0 <= k < x ==> !IsPrime(k)
    ensures PrimesBelow(x + 1) == primes + [x]
  {
    PrimesAtLeastTwo(i0);
    ProductAtLeastLast(primes);
    ProductPlusOne(primes);
    x := i0;
    while HasDivisor(primes, x)
      invariant i0 <= x <= Product(primes) + 1
      invariant primes == PrimesBelow(x)
      invariant forall k :: i0 <= k < x ==> !IsPrime(k)
      decreases Product(primes) + 1 - x
    {
      SkipCandidate(primes, x);
      x := x + 1;
    }
    SkipCandidate(primes, x);
  }

  /**
    One `resume()`: the first call stores and yields 2; later calls skip every
    candidate some stored prime divides and store and yield the first one none
    divides. The yielded value is the least prime at or after the candidate,
    larger than everything yielded before, and the stored primes grow by it.
   */
  method Resume(g: Generator) returns (x: nat, g': Generator)
    requires Valid(g)
    ensures Valid(g') && g'.Suspended?
    ensures g.Fresh? ==> x == 2 && g'.primes == [2]
    ensures g'.primes == Yielded(g) + [x]
    ensures IsPrime(x) && x >= NextCandidate(g)
    ensures forall y :: y in Yielded(g) ==> y < x
    ensures forall k :: NextCandidate(g) <= k < x ==> !IsPrime(k)
  {
    match g {
      case Fresh =>
        FirstPrime();
        x := 2;
        g' := Suspended([2], 3);
      case Suspended(primes, i0) =>
        PrimesBelowMembers(i0);
        x := NextPrime(primes, i0);
        g' := Suspended(primes + [x], x + 1);
    }
  }

  /**
    The driver loop of `main`: starting from `p = 0`, add `p` to the sum and
    resume the generator while `p < m`. The first yielded value not below `m`
    is not added, so the sum is the sum of the primes below `m`.
   */
  method SumPrimesBelow(m: nat) returns (sum: nat)
    ensures sum == Sum(PrimesBelow(m))
  {
    var g := Fresh;
    var p: nat := 0;
    sum := 0;
    while p < m
      invariant Valid(g)
      invariant g.Fresh? ==> p == 0
      invariant g.Suspended? ==> IsPrime(p) && g.i == p + 1
      invariant sum == Sum(PrimesBelow(p))
      invariant p >= m ==> PrimesBelow(p) == PrimesBelow(m)
      decreases m - p
    {
      if g.Suspended? {
        assert PrimesBelow(p + 1) == PrimesBelow(p) + [p];
      } else {
        assert PrimesBelow(0) == [];
      }
      sum := sum + p;
      var start := NextCandidate(g);
      assert sum == Sum(PrimesBelow(start)) by {
        if g.Fresh? {
          assert PrimesBelow(0) == [];
        }
      }
      p, g := Resume(g);
      PrimesBelowGap(start, p);
      if p >= m {
        PrimesBelowGap(start, m);
      }
    }
  }

  /** The bound `main` uses. */
  const Limit: nat := 2000000

  /** `main`: the sum of all primes below two million. */
  method MainSum() returns (sum: nat)
    ensures sum == Sum(PrimesBelow(Limit))
  {
    sum := SumPrimesBelow(Limit);
  }
}
