// The prime tables of googletest's samples (prime_tables.h, sample8_unittest.cc): trial division, a sieve, and the two together.
module PrimeTables {

  ghost predicate Prime(n: int) {
    n > 1 && NoDivisorBelow(n, n)
  }

  ghost predicate NoDivisorBelow(n: int, bound: int) {
    forall d :: 2 <= d < bound && d < n ==> !Divides(d, n)
  }

  ghost predicate Divides(d: int, n: int) {
    d > 0 && n % d == 0
  }

  ghost predicate LeastPrimeAbove(q: int, p: int) {
    p < q && Prime(q) && forall m :: p < m < q ==> !Prime(m)
  }

  // ---- divisors ----

  lemma Multiple(d: int, k: int)
    requires d > 0
    ensures Divides(d, d * k)
  {
    var q, r := (d * k) / d, (d * k) % d;
    assert d * (k - q) == r;
    if k != q {
      Magnitude(d, k - q);
    }
  }

  lemma Magnitude(d: int, m: int)
    requires d > 0
    ensures m > 0 ==> d * m >= d
    ensures m < 0 ==> d * m <= -d
  {
  }

  lemma Quotient(n: int, d: int) returns (k: int)
    requires Divides(d, n)
    ensures n == d * k
  {
    k := n / d;
  }

  lemma DividesOn(q: int, d: int, n: int)
    requires Divides(q, d) && Divides(d, n)
    ensures Divides(q, n)
  {
    hide Divides;
    var j := Quotient(d, q);
    var k := Quotient(n, d);
    assert n == q * (j * k);
    assert q > 0 by { Positive(q, d); }
    Multiple(q, j * k);
  }

  lemma Positive(d: int, n: int)
    requires Divides(d, n)
    ensures d > 0
  {
  }

  /** The other factor of n when d is one of at least its square root. */
  lemma Cofactor(n: int, d: int, i: int) returns (k: int)
    requires 2 <= d < n && 2 <= i <= d && n < i * i && Divides(d, n)
    ensures 2 <= k < i && Divides(k, n)
  {
    k := Quotient(n, d);
    hide Divides;
    Magnitude(d, k);
    if k >= i {
      Product(i, d, i, k);
    }
    assert n == k * d;
    Multiple(k, d);
  }

  lemma Product(a: int, c: int, b: int, d: int)
    requires 0 <= a <= c && 0 <= b <= d
    ensures a * b <= c * d
  {
    assert a * b <= c * b <= c * d;
  }

  /** A composite number has a divisor no larger than its square root. */
  lemma SmallDivisor(n: int, i: int)
    requires n > 1 && i >= 2 && i * i > n
    ensures Prime(n) <==> NoDivisorBelow(n, i)
  {
    hide Divides;
    if NoDivisorBelow(n, i) && !Prime(n) {
      var d :| 2 <= d < n && Divides(d, n);
      var k := Cofactor(n, d, i);
    }
  }

  // ---- there is always another prime ----

  function Factorial(n: nat): (f: nat)
    ensures f > 0
  {
    if n == 0 then 1 else n * Factorial(n - 1)
  }

  lemma {:induction false} DividesFactorial(d: nat, n: nat)
    requires 1 <= d <= n
    ensures Divides(d, Factorial(n))
  {
    hide Divides;
    if d == n {
      Multiple(n, Factorial(n - 1));
    } else {
      DividesFactorial(d, n - 1);
      var k := Quotient(Factorial(n - 1), d);
      assert Factorial(n) == d * (n * k);
      Multiple(d, n * k);
    }
  }

  lemma {:induction false} PrimeDivisor(n: int) returns (q: int)
    requires n > 1
    ensures Prime(q) && Divides(q, n)
  {
    if Prime(n) {
      Multiple(n, 1);
    }
    hide Divides;
    if Prime(n) {
      q := n;
    } else {
      var d :| 2 <= d < n && Divides(d, n);
      q := PrimeDivisor(d);
      DividesOn(q, d, n);
    }
  }

  /** Euclid's theorem. */
  lemma PrimeAbove(p: nat) returns (q: int)
    ensures q > p && Prime(q)
  {
    hide Divides;
    var n := Factorial(p) + 1;
    q := PrimeDivisor(n);
    if q <= p {
      DividesFactorial(q, p);
      NoCommonDivisor(q, n);
    }
  }

  lemma NoCommonDivisor(q: int, n: int)
    requires q > 1 && Divides(q, n - 1)
    ensures !Divides(q, n)
  {
    if Divides(q, n) {
      var j := Quotient(n, q);
      var k := Quotient(n - 1, q);
      hide Divides;
      assert q * (j - k) == 1;
      Magnitude(q, j - k);
      if j == k { assert false; }
    }
  }

  // ---- trial division ----

  class OnTheFlyPrimeTable {
    constructor () {
    }

    method IsPrime(n: int) returns (r: bool)
      ensures r <==> Prime(n)
    {
      if n <= 1 {
        return false;
      }
      var i := 2;
      while i * i <= n
        invariant i >= 2 && NoDivisorBelow(n, i)
        decreases n - i
      {
        assert i <= i * i;
        assert Divides(i, n) <==> n % i == 0;
        if n % i == 0 {
          assert i < n by { Product(2, i, i, i); }
          return false;
        }
        i := i + 1;
      }
      SmallDivisor(n, i);
      return true;
    }

    method GetNextPrime(p: int) returns (r: int)
      ensures if p < 0 then r == -1 else LeastPrimeAbove(r, p)
    {
      if p < 0 {
        return -1;
      }
      ghost var q := PrimeAbove(p);
      var n := p + 1;
      while true
        invariant p < n <= q
        invariant forall m :: p < m < n ==> !Prime(m)
        decreases q - n
      {
        var found := IsPrime(n);
        if found {
          return n;
        }
        n := n + 1;
      }
    }
  }

  // ---- the sieve ----

  class PreCalculatedPrimeTable {
    const isPrime: array<bool>

    ghost predicate Valid()
      reads isPrime
    {
      isPrime.Length >= 2 && forall n :: 0 <= n < isPrime.Length ==> (isPrime[n] <==> Prime(n))
    }

    constructor (max: nat)
      requires max >= 1
      ensures Valid() && fresh(isPrime) && isPrime.Length == max + 1
    {
      isPrime := new bool[max + 1];
      new;
      CalculatePrimesUpTo(max);
    }

    method IsPrime(n: int) returns (r: bool)
      requires Valid()
      ensures r <==> n < isPrime.Length && Prime(n)
    {
      return 0 <= n < isPrime.Length && isPrime[n];
    }

    method GetNextPrime(p: int) returns (r: int)
      requires Valid() && p >= -1
      ensures r == -1 || (r < isPrime.Length && LeastPrimeAbove(r, p))
      ensures r == -1 <==> forall m :: p < m < isPrime.Length ==> !Prime(m)
    {
      var n := p + 1;
      while n < isPrime.Length
        invariant p < n
        invariant forall m :: p < m < n && m < isPrime.Length ==> !Prime(m)
      {
        if isPrime[n] {
          return n;
        }
        n := n + 1;
      }
      return -1;
    }

    method CalculatePrimesUpTo(max: nat)
      requires max >= 1 && isPrime.Length == max + 1
      modifies isPrime
      ensures Valid()
    {
      var k := 0;
      while k < isPrime.Length
        invariant 0 <= k <= isPrime.Length
        invariant forall n :: 0 <= n < k ==> isPrime[n]
      {
        isPrime[k] := true;
        k := k + 1;
      }
      isPrime[0] := false;
      isPrime[1] := false;

      hide Divides, NoDivisorBelow, SievedBelow, Crossing;
      var i := 2;
      NothingSieved(isPrime[..]);
      while i * i <= max
        invariant i == 2 || (i > 2 && i % 2 == 1)
        invariant SievedBelow(isPrime[..], i)
        decreases max - i
      {
        BelowSquare(i, max);
        if !isPrime[i] {
          CompositeSkipped(isPrime[..], i);
        } else {
          CrossOutMultiples(i, max);
        }
        ghost var next := EvenSkipped(isPrime[..], i);
        i := i + (i % 2 + 1);
        assert i == next;
      }
      Sieved(isPrime[..], i);
      assert forall n :: 0 <= n <= max ==> isPrime[..][n] == isPrime[n];
    }

    method CrossOutMultiples(i: int, max: nat)
      requires 2 <= i && isPrime.Length == max + 1 && SievedBelow(isPrime[..], i)
      modifies isPrime
      ensures SievedBelow(isPrime[..], i + 1)
    {
      hide Divides, SievedBelow, Crossing;
      SquareFirst(isPrime[..], i);
      var j := i * i;
      ghost var square := j;
      while j <= max
        invariant square <= j && Divides(i, j)
        invariant Crossing(isPrime[..], i, j)
        decreases max - j
      {
        CrossOut(isPrime[..], i, j);
        ghost var before := isPrime[..];
        isPrime[j] := false;
        assert isPrime[..] == before[j := false];
        j := j + i;
      }
      Crossed(isPrime[..], i, j);
    }
  }

  /** What the sieve has crossed out once the candidates below i are dealt with. */
  ghost predicate SievedBelow(isPrime: seq<bool>, i: int) {
    forall n :: 0 <= n < |isPrime| ==> (isPrime[n] <==> n > 1 && NoDivisorBelow(n, i))
  }

  /** The same, with the multiples of i from i * i to below j crossed out as well. */
  ghost predicate Crossing(isPrime: seq<bool>, i: int, j: int)
    requires i > 0
  {
    forall n :: 0 <= n < |isPrime| ==>
      (isPrime[n] <==> n > 1 && NoDivisorBelow(n, i) && !(Divides(i, n) && i * i <= n < j))
  }

  lemma BelowSquare(i: int, max: int)
    requires 2 <= i && i * i <= max
    ensures i < max
  {
    Product(2, i, i, i);
  }

  lemma NothingSieved(isPrime: seq<bool>)
    requires forall n :: 0 <= n < |isPrime| ==> isPrime[n] == (n > 1)
    ensures SievedBelow(isPrime, 2)
  {
  }

  /** The square root of the size is far enough. */
  lemma Sieved(isPrime: seq<bool>, i: int)
    requires i >= 2 && i * i >= |isPrime| && SievedBelow(isPrime, i)
    ensures forall n :: 0 <= n < |isPrime| ==> (isPrime[n] <==> Prime(n))
  {
    hide Divides;
    forall n | 0 <= n < |isPrime| ensures isPrime[n] <==> Prime(n) {
      if n > 1 {
        SmallDivisor(n, i);
      }
    }
  }

  /** A candidate that is crossed out has a smaller divisor, whose multiples include its own. */
  lemma CompositeSkipped(isPrime: seq<bool>, i: int)
    requires 2 <= i < |isPrime| && SievedBelow(isPrime, i) && !isPrime[i]
    ensures SievedBelow(isPrime, i + 1)
  {
    hide Divides;
    var d :| 2 <= d < i && Divides(d, i);
    forall n | i < n < |isPrime| && Divides(i, n) ensures !NoDivisorBelow(n, i) {
      DividesOn(d, i, n);
    }
  }

  lemma SquareFirst(isPrime: seq<bool>, i: int)
    requires 2 <= i && SievedBelow(isPrime, i)
    ensures Divides(i, i * i) && Crossing(isPrime, i, i * i)
  {
    Multiple(i, i);
  }

  lemma CrossOut(isPrime: seq<bool>, i: int, j: int)
    requires 2 <= i && i * i <= j < |isPrime| && Divides(i, j) && Crossing(isPrime, i, j)
    ensures Divides(i, j + i) && Crossing(isPrime[j := false], i, j + i)
  {
    NextMultiple(i, j);
    var square := i * i;
    hide Divides, NoDivisorBelow;
    forall n | 0 <= n < |isPrime|
      ensures isPrime[j := false][n] <==> n > 1 && NoDivisorBelow(n, i) && !(Divides(i, n) && square <= n < j + i)
    {
      if j <= n < j + i && Divides(i, n) {
        SameMultiple(i, j, n);
      }
    }
  }

  lemma NextMultiple(i: int, j: int)
    requires Divides(i, j)
    ensures Divides(i, j + i)
  {
    var k := Quotient(j, i);
    assert j + i == i * (k + 1);
    Multiple(i, k + 1);
  }

  lemma SameMultiple(i: int, j: int, n: int)
    requires Divides(i, j) && Divides(i, n) && j <= n < j + i
    ensures n == j
  {
    var k := Quotient(j, i);
    var m := Quotient(n, i);
    Positive(i, j);
    hide Divides;
    assert n - j == i * (m - k);
    Magnitude(i, m - k);
  }

  /** Starting at i * i is enough: smaller multiples of i have a smaller divisor. */
  lemma Crossed(isPrime: seq<bool>, i: int, j: int)
    requires 2 <= i && j >= |isPrime| && Crossing(isPrime, i, j)
    ensures SievedBelow(isPrime, i + 1)
  {
    hide Divides;
    var square := i * i;
    forall n | i < n < |isPrime| && n < square && Divides(i, n) ensures !NoDivisorBelow(n, i) {
      SmallerDivisor(n, i);
    }
    forall n | 0 <= n < |isPrime|
      ensures isPrime[n] <==> n > 1 && NoDivisorBelow(n, i + 1)
    {
      assert NoDivisorBelow(n, i + 1) <==> NoDivisorBelow(n, i) && !(i < n && Divides(i, n));
      assert i <= square by { Product(1, i, i, i); }
    }
  }

  lemma SmallerDivisor(n: int, i: int)
    requires 2 <= i < n < i * i && Divides(i, n)
    ensures !NoDivisorBelow(n, i)
  {
    var k := Quotient(n, i);
    hide Divides;
    Magnitude(i, k);
    if k >= i {
      Product(i, i, i, k);
    }
    assert k != 1;
    assert n == k * i;
    Multiple(k, i);
  }

  /** After an odd candidate the next, even one is left out: multiples of 2 are gone. */
  lemma EvenSkipped(isPrime: seq<bool>, i: int) returns (next: int)
    requires SievedBelow(isPrime, i + 1) && (i == 2 || (i > 2 && i % 2 == 1))
    ensures next == i + (i % 2 + 1) && next > 2 && next % 2 == 1 && SievedBelow(isPrime, next)
  {
    next := i + (i % 2 + 1);
    if i > 2 {
      var even := i + 1;
      assert Divides(2, even);
      hide Divides;
      forall n | even < n < |isPrime| && Divides(even, n) ensures !NoDivisorBelow(n, even) {
        DividesOn(2, even, n);
      }
      forall n | 0 <= n < |isPrime|
        ensures isPrime[n] <==> n > 1 && NoDivisorBelow(n, even + 1)
      {
        assert NoDivisorBelow(n, even + 1) <==> NoDivisorBelow(n, even) && !(even < n && Divides(even, n));
      }
    }
  }

  // ---- both together ----

  class HybridPrimeTable {
    const onTheFly: OnTheFlyPrimeTable
    const precalculated: PreCalculatedPrimeTable?
    const maxPrecalculated: int

    ghost predicate Valid()
      reads if precalculated == null then {} else {precalculated.isPrime}
    {
      precalculated != null ==> precalculated.Valid() && precalculated.isPrime.Length == maxPrecalculated + 1
    }

    constructor (forceOnTheFly: bool, max: int)
      requires forceOnTheFly || max >= 1
      ensures Valid() && (precalculated == null <==> forceOnTheFly) && maxPrecalculated == max
    {
      onTheFly := new OnTheFlyPrimeTable();
      if forceOnTheFly {
        precalculated := null;
      } else {
        precalculated := new PreCalculatedPrimeTable(max);
      }
      maxPrecalculated := max;
    }

    method IsPrime(n: int) returns (r: bool)
      requires Valid()
      ensures r <==> Prime(n)
    {
      if precalculated != null && n < maxPrecalculated {
        r := precalculated.IsPrime(n);
      } else {
        r := onTheFly.IsPrime(n);
      }
    }

    method GetNextPrime(p: int) returns (r: int)
      requires Valid() && (p >= -1 || precalculated == null)
      ensures p >= 0 ==> LeastPrimeAbove(r, p)
      ensures p < 0 ==> r == if p == -1 && precalculated != null && maxPrecalculated >= 2 then 2 else -1
    {
      r := -1;
      if precalculated != null && p < maxPrecalculated {
        r := precalculated.GetNextPrime(p);
      }
      if r == -1 {
        r := onTheFly.GetNextPrime(p);
      }
      if p == -1 {
        TwoIsFirst();
      }
    }
  }

  lemma TwoIsFirst()
    ensures LeastPrimeAbove(2, -1)
  {
  }

  lemma LeastPrimeIsUnique(p: int, q: int, r: int)
    requires LeastPrimeAbove(q, p) && LeastPrimeAbove(r, p)
    ensures q == r
  {
  }
}
