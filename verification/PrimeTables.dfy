/** googletest's sample prime tables: on the fly, precalculated by a sieve, and the hybrid of both. */
module PrimeTables {
  import opened Arithmetic

  ghost predicate Prime(n: int) {
    n >= 2 && forall d :: 2 <= d < n ==> n % d != 0
  }

  /** r is the least prime above p. */
  ghost predicate IsNextPrime(p: int, r: int) {
    r > p && Prime(r) && forall n :: p < n < r ==> !Prime(n)
  }

  // ----- Divisibility -----

  lemma SquareMonotone(x: int, y: int)
    requires 0 <= x <= y
    ensures x * x <= y * y
  {
    MulMonotone(x, y, x);
    MulMonotone(x, y, y);
  }

  lemma MultipleDivides(d: int, k: int)
    requires d > 0
    ensures (k * d) % d == 0
  {
    QuotientUnique(k * d, d, k, 0);
  }

  lemma DivisionExact(n: int, d: int)
    requires d > 0 && n % d == 0
    ensures n == (n / d) * d
  {
  }

  lemma DividesTransitive(n: int, d: int, e: int)
    requires d > 0 && e > 0 && n % d == 0 && d % e == 0
    ensures n % e == 0
  {
    var k, m := n / d, d / e;
    assert n == (k * m) * e by {
      DivisionExact(n, d);
      DivisionExact(d, e);
      assert k * (m * e) == (k * m) * e;
    }
    MultipleDivides(e, k * m);
  }

  lemma DividesSum(a: int, b: int, d: int)
    requires d > 0 && a % d == 0 && b % d == 0
    ensures (a + b) % d == 0 && (a - b) % d == 0
  {
    DivisionExact(a, d);
    DivisionExact(b, d);
    assert a + b == (a / d + b / d) * d && a - b == (a / d - b / d) * d;
    MultipleDivides(d, a / d + b / d);
    MultipleDivides(d, a / d - b / d);
  }

  /** Of two factors, the smaller is at most the square root of the product. */
  lemma SmallerFactor(k: int, d: int) returns (e: int)
    requires k >= 2 && d >= 2
    ensures 2 <= e <= d && e * e <= k * d && (k * d) % e == 0
  {
    if d <= k {
      e := d;
      MulMonotone(d, k, d);
      MultipleDivides(d, k);
    } else {
      e := k;
      MulMonotone(k, d, k);
      MultipleDivides(k, d);
      assert d * k == k * d;
    }
  }

  /** A number with a proper divisor has one that is at most its square root. */
  lemma SmallDivisor(n: int, d: int) returns (e: int)
    requires 2 <= d < n && n % d == 0
    ensures 2 <= e <= d && e * e <= n && n % e == 0
  {
    var k := n / d;
    DivisionExact(n, d);
    AtLeastTwo(n, k, d);
    e := SmallerFactor(k, d);
  }

  lemma AtLeastTwo(n: int, k: int, d: int)
    requires n == k * d && 1 <= d < n
    ensures k >= 2
  {
    if k <= 1 {
      MulMonotone(k, 1, d);
    }
  }

  // ----- There is always a next prime -----

  lemma {:induction false} PrimeDivisor(n: int) returns (q: int)
    requires n >= 2
    ensures Prime(q) && n % q == 0
  {
    if Prime(n) {
      q := n;
    } else {
      var d :| 2 <= d < n && n % d == 0;
      q := PrimeDivisor(d);
      DividesTransitive(n, d, q);
    }
  }

  ghost function Factorial(n: nat): (f: nat)
    ensures f >= 1
  {
    if n == 0 then 1 else n * Factorial(n - 1)
  }

  lemma {:induction false} DividesFactorial(n: nat, d: nat)
    requires 1 <= d <= n
    ensures Factorial(n) % d == 0
  {
    if d == n {
      assert Factorial(n) == Factorial(n - 1) * n;
      MultipleDivides(n, Factorial(n - 1));
    } else {
      DividesFactorial(n - 1, d);
      MultipleDivides(Factorial(n - 1), n);
      DividesTransitive(Factorial(n), Factorial(n - 1), d);
    }
  }

  /** Euclid: some prime exceeds p. */
  lemma PrimeAbove(p: nat) returns (q: int)
    ensures q > p && Prime(q)
  {
    q := PrimeDivisor(Factorial(p) + 1);
    if q <= p {
      DividesFactorial(p, q);
      DividesSum(Factorial(p) + 1, Factorial(p), q);
    }
  }

  // ----- Implementation 1 -----

  /** Trial division may stop at the square root. */
  lemma PrimeByTrial(n: int, i: int)
    requires n >= 2 && i >= 2 && n < i * i && forall d :: 2 <= d < i ==> n % d != 0
    ensures Prime(n)
  {
    if !Prime(n) {
      var d :| 2 <= d < n && n % d == 0;
      var e := SmallDivisor(n, d);
      SquareMonotone(i, e);
    }
  }

  /** What the on-the-fly table answers: -1 below zero, else the least prime above p. */
  ghost predicate OnTheFlyAnswer(p: int, r: int) {
    if p < 0 then r == -1 else IsNextPrime(p, r)
  }

  class OnTheFlyPrimeTable {

    constructor () {
    }

    method IsPrime(n: int) returns (prime: bool)
      ensures prime <==> Prime(n)
    {
      if n <= 1 {
        return false;
      }
      var i := 2;
      while i * i <= n
        invariant 2 <= i <= n && forall d :: 2 <= d < i ==> n % d != 0
        decreases n - i
      {
        MulMonotone(2, i, i);
        if n % i == 0 {
          return false;
        }
        i := i + 1;
      }
      PrimeByTrial(n, i);
      return true;
    }

    method GetNextPrime(p: int) returns (r: int)
      ensures OnTheFlyAnswer(p, r)
    {
      if p < 0 {
        return -1;
      }
      ghost var bound := PrimeAbove(p);
      var n := p + 1;
      while true
        invariant p < n <= bound && forall m :: p < m < n ==> !Prime(m)
        decreases bound - n
      {
        var prime := IsPrime(n);
        if prime {
          return n;
        }
        n := n + 1;
      }
    }
  }

  // ----- Implementation 2 -----

  /** n has a divisor below i, other than 1, that is at most its square root. */
  ghost predicate Crossed(n: int, i: int) {
    exists d :: 2 <= d < i && d * d <= n && n % d == 0
  }

  lemma CrossedIsComposite(n: int, d: int)
    requires 2 <= d && d * d <= n && n % d == 0
    ensures !Prime(n)
  {
    assert 2 * d <= d * d;
    assert d < n;
  }

  /** Once i exceeds the square root of the bound, what is not crossed out is prime. */
  lemma CrossedWhenComposite(n: int, i: int)
    requires n >= 2 && n < i * i && i >= 0 && !Prime(n)
    ensures Crossed(n, i)
  {
    var d :| 2 <= d < n && n % d == 0;
    var e := SmallDivisor(n, d);
    if e >= i {
      SquareMonotone(i, e);
      assert false;
    }
  }

  /** A composite i adds nothing: its multiples are crossed out already. */
  lemma CompositeAddsNothing(n: int, i: int)
    requires i >= 2 && !Prime(i) && i * i <= n && n % i == 0
    ensures Crossed(n, i)
  {
    var d :| 2 <= d < i && i % d == 0;
    DividesTransitive(n, i, d);
    assert d * d <= i * i;
  }

  /** The even numbers skipped after 2 add nothing either. */
  lemma EvenAddsNothing(n: int, i: int)
    requires i >= 3 && i % 2 == 0 && i * i <= n && n % i == 0
    ensures Crossed(n, 3)
  {
    DividesTransitive(n, i, 2);
    assert 3 * 3 <= i * i;
  }

  /** Between two consecutive multiples of i there is no other. */
  lemma NoMultipleBetween(j: int, n: int, i: int)
    requires i > 0 && j % i == 0 && j < n < j + i
    ensures n % i != 0
  {
    DivisionExact(j, i);
    QuotientUnique(n, i, j / i, n - j);
  }

  /** The sieve before candidate i: only composites are marked, and among them all that are crossed out. */
  ghost predicate Sieved(t: seq<bool>, i: int) {
    |t| >= 2 && !t[0] && !t[1]
    && (forall n :: 2 <= n < |t| && !t[n] ==> !Prime(n))
    && (forall n :: 2 <= n < |t| && Crossed(n, i) ==> !t[n])
  }

  /** t' is t with the multiples of i from its square on marked. */
  ghost predicate Marked(t: seq<bool>, t': seq<bool>, i: int)
    requires i > 0
  {
    |t'| == |t| && forall n :: 0 <= n < |t| ==> t'[n] == (t[n] && !(i * i <= n && n % i == 0))
  }

  /** Whatever divisor crosses n out before the candidate after i, n is marked once i is done. */
  lemma StillMarked(t: seq<bool>, t': seq<bool>, i: int, n: int)
    requires i >= 2 && (i > 2 ==> i % 2 == 1) && i < |t| && Sieved(t, i)
    requires if t[i] then Marked(t, t', i) else t' == t
    requires 2 <= n < |t| && Crossed(n, i + i % 2 + 1)
    ensures !t'[n]
  {
    var d :| 2 <= d < i + i % 2 + 1 && d * d <= n && n % d == 0;
    if d > i {
      EvenAddsNothing(n, d);
      var e :| 2 <= e < 3 && e * e <= n && n % e == 0;
      assert Crossed(n, i);
    } else if d < i {
      assert Crossed(n, i);
    } else if !t[i] {
      CompositeAddsNothing(n, i);
    }
  }

  lemma SieveStep(t: seq<bool>, t': seq<bool>, i: int)
    requires i >= 2 && (i > 2 ==> i % 2 == 1) && i < |t| && Sieved(t, i)
    requires if t[i] then Marked(t, t', i) else t' == t
    ensures Sieved(t', i + i % 2 + 1)
  {
    forall n | 2 <= n < |t'| && !t'[n] ensures !Prime(n) {
      if t[n] {
        CrossedIsComposite(n, i);
      }
    }
    var next := i + i % 2 + 1;
    forall n | 2 <= n < |t'| && Crossed(n, next) ensures !t'[n] {
      StillMarked(t, t', i, n);
    }
  }

  lemma SieveDone(t: seq<bool>, i: int)
    requires Sieved(t, i) && i >= 2 && |t| <= i * i
    ensures forall n :: 0 <= n < |t| ==> (t[n] <==> Prime(n))
  {
    forall n | 2 <= n < |t| && !Prime(n) ensures !t[n] {
      CrossedWhenComposite(n, i);
    }
  }

  class PreCalculatedPrimeTable {
    const isPrime: array<bool>

    /** Entry n says whether n is prime. */
    ghost predicate Valid()
      reads this, isPrime
    {
      isPrime.Length >= 2 && forall n :: 0 <= n < isPrime.Length ==> (isPrime[n] <==> Prime(n))
    }

    /** For a bound below 1 the source writes past the end of its one-entry table. */
    constructor (max: int)
      requires max >= 1
      ensures Valid() && isPrime.Length == max + 1
    {
      isPrime := new bool[max + 1](_ => true);
      new;
      CalculatePrimesUpTo(isPrime, max);
    }

    static method CalculatePrimesUpTo(table: array<bool>, max: int)
      requires max >= 1 && table.Length == max + 1 && forall n :: 0 <= n <= max ==> table[n]
      modifies table
      ensures forall n :: 0 <= n <= max ==> (table[n] <==> Prime(n))
    {
      table[0], table[1] := false, false;
      var i := 2;
      while i * i <= max
        invariant i >= 2 && (i > 2 ==> i % 2 == 1) && Sieved(table[..], i)
        decreases max - i
      {
        MulMonotone(2, i, i);
        ghost var before := table[..];
        if table[i] {
          MarkMultiples(table, max, i);
        }
        SieveStep(before, table[..], i);
        i := i + i % 2 + 1;
      }
      SieveDone(table[..], i);
    }

    /** The inner loop: every multiple from the square of i on is marked, and nothing else. */
    static method MarkMultiples(table: array<bool>, max: int, i: int)
      requires 2 <= i && i * i <= max && table.Length == max + 1
      modifies table
      ensures Marked(old(table[..]), table[..], i)
    {
      var j := i * i;
      MultipleDivides(i, i);
      while j <= max
        invariant i * i <= j && j % i == 0
        invariant forall n :: 0 <= n <= max ==> table[n] == (old(table[n]) && !(i * i <= n < j && n % i == 0))
        decreases max - j
      {
        table[j] := false;
        forall n | j < n < j + i ensures n % i != 0 {
          NoMultipleBetween(j, n, i);
        }
        DividesSum(j, i, i);
        j := j + i;
      }
    }

    method IsPrime(n: int) returns (prime: bool)
      requires Valid()
      ensures prime <==> n < isPrime.Length && Prime(n)
    {
      prime := 0 <= n && n < isPrime.Length && isPrime[n];
    }

    /** Below -1 the source would read before its table. */
    method GetNextPrime(p: int) returns (r: int)
      requires Valid() && p >= -1
      ensures r == -1 ==> forall n :: p < n < isPrime.Length ==> !Prime(n)
      ensures r != -1 ==> r < isPrime.Length && IsNextPrime(p, r)
    {
      var n := p + 1;
      while n < isPrime.Length
        invariant p < n && forall m :: p < m < n && m < isPrime.Length ==> !Prime(m)
      {
        if isPrime[n] {
          return n;
        }
        n := n + 1;
      }
      return -1;
    }
  }

  // ----- The hybrid -----

  class HybridPrimeTable {
    const onTheFly: OnTheFlyPrimeTable
    const precalculated: PreCalculatedPrimeTable?
    const maxPrecalculated: int

    ghost predicate Valid()
      reads this, precalculated, if precalculated == null then {} else {precalculated.isPrime}
    {
      precalculated != null ==> precalculated.Valid() && precalculated.isPrime.Length == maxPrecalculated + 1
    }

    constructor (forceOnTheFly: bool, max: int)
      requires !forceOnTheFly ==> max >= 1
      ensures Valid() && maxPrecalculated == max && (precalculated == null <==> forceOnTheFly)
    {
      onTheFly := new OnTheFlyPrimeTable();
      if forceOnTheFly {
        precalculated := null;
      } else {
        precalculated := new PreCalculatedPrimeTable(max);
      }
      maxPrecalculated := max;
    }

    method IsPrime(n: int) returns (prime: bool)
      requires Valid()
      ensures prime <==> Prime(n)
    {
      if precalculated != null && n < maxPrecalculated {
        prime := precalculated.IsPrime(n);
      } else {
        prime := onTheFly.IsPrime(n);
      }
    }

    /** The hybrid answers what the on-the-fly table answers, except that with a table that holds a
        prime it finds 2 above -1, where the on-the-fly table gives up. */
    method GetNextPrime(p: int) returns (r: int)
      requires Valid() && (precalculated != null ==> p >= -1)
      ensures OnTheFlyAnswer(p, r) <==> p >= 0 || precalculated == null || maxPrecalculated < 2
      ensures !OnTheFlyAnswer(p, r) ==> IsNextPrime(p, r)
    {
      r := -1;
      if precalculated != null && p < maxPrecalculated {
        r := precalculated.GetNextPrime(p);
        assert maxPrecalculated >= 2 && p == -1 ==> r != -1 by {
          assert Prime(2);
        }
      }
      if r == -1 {
        r := onTheFly.GetNextPrime(p);
      }
    }
  }
}
