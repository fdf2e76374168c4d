/** Prime numbers and the sieve of Eratosthenes that fills the hash
    table's cache of table sizes. */
module Primes {

  /** p is prime: at least 2, with no divisor in [2, p). */
  predicate IsPrime(p: nat)
  {
    p >= 2 && forall d :: 2 <= d < p ==> p % d != 0
  }

  /** The primes below `limit`, in increasing order. */
  function PrimesBelow(limit: nat): seq<nat>
  {
    if limit == 0 then []
    else PrimesBelow(limit - 1) + (if IsPrime(limit - 1) then [limit - 1] else [])
  }

  predicate StrictlyAscending(s: seq<nat>)
  {
    forall i, j :: 0 <= i < j < |s| ==> s[i] < s[j]
  }

  /** The cache the sieve builds is strictly ascending and holds exactly
      the primes below its limit. */
  lemma {:induction false} PrimesBelowSpec(limit: nat)
    ensures StrictlyAscending(PrimesBelow(limit))
    ensures forall p: nat :: p in PrimesBelow(limit) <==> p < limit && IsPrime(p)
  {
    if limit > 0 {
      PrimesBelowSpec(limit - 1);
      var prev := PrimesBelow(limit - 1);
      assert forall i :: 0 <= i < |prev| ==> prev[i] < limit - 1 by {
        forall i | 0 <= i < |prev|
          ensures prev[i] < limit - 1
        {
          assert prev[i] in prev;
        }
      }
    }
  }

  // ---------------------------------------------------------------------------
  // Arithmetic facts the sieve needs

  lemma MulMonotone(m: nat, a: int, b: int)
    requires a <= b
    ensures m * a <= m * b
  {
    assert m * b - m * a == m * (b - a);
  }

  /** Division with remainder is unique. */
  lemma DivModUnique(x: nat, m: nat, q: int, r: int)
    requires m > 0 && 0 <= r < m && x == m * q + r
    ensures x / m == q && x % m == r
  {
    var q', r' := x / m, x % m;
    assert x == m * q' + r';
    if q > q' {
      MulMonotone(m, q' + 1, q);
    } else if q < q' {
      MulMonotone(m, q + 1, q');
    }
  }

  lemma MultipleMod(m: nat, k: nat)
    requires m > 0
    ensures (m * k) % m == 0
  {
    DivModUnique(m * k, m, k, 0);
  }

  /** A divisor of a divisor divides. */
  lemma DividesTrans(a: nat, b: nat, c: nat)
    requires b > 0 && c > 0 && a % b == 0 && b % c == 0
    ensures a % c == 0
  {
    var k := a / b;
    var l := b / c;
    assert a == b * k;
    assert b == c * l;
    assert a == c * (l * k);
    MultipleMod(c, l * k);
  }

  /** The least divisor of j that is at least d (j itself at the latest). */
  function LeastDivisorFrom(j: nat, d: nat): (s: nat)
    requires 2 <= d <= j
    ensures d <= s <= j && j % s == 0
    ensures forall e :: d <= e < s ==> j % e != 0
    decreases j - d
  {
    if j % d == 0 then d else LeastDivisorFrom(j, d + 1)
  }

  /** The least divisor of j from 2 on is prime. */
  lemma LeastDivisorIsPrime(j: nat, s: nat)
    requires 2 <= s <= j && j % s == 0
    requires forall e :: 2 <= e < s ==> j % e != 0
    ensures IsPrime(s)
  {
    forall e | 2 <= e < s
      ensures s % e != 0
    {
      if s % e == 0 {
        DividesTrans(j, s, e);
      }
    }
  }

  /** The least divisor of a number that is not prime is at most its
      square root, since its cofactor is a divisor as well. */
  lemma LeastDivisorSquare(j: nat, s: nat)
    requires 2 <= s < j && j % s == 0
    requires forall e :: 2 <= e < s ==> j % e != 0
    ensures s * s <= j
  {
    var q := j / s;
    assert j == s * q by {
      DivModUnique(j, s, q, 0);
    }
    assert q >= 2;
    assert j % q == 0 by {
      DivModUnique(j, q, s, 0);
    }
    MulMonotone(s, s, q);
  }

  /** A number that is not prime has a prime factor no larger than its
      square root. */
  lemma SmallPrimeFactor(j: nat)
    requires j >= 2 && !IsPrime(j)
    ensures exists d: nat :: IsPrime(d) && d * d <= j && j % d == 0
  {
    var s := LeastDivisorFrom(j, 2);
    LeastDivisorIsPrime(j, s);
    if s == j {
      assert false;
    }
    LeastDivisorSquare(j, s);
  }

  // ---------------------------------------------------------------------------
  // The sieve

  /** After crossing out the multiples of every prime below `bound`, from
      its square on: j is still marked. */
  ghost predicate Survives(j: nat, bound: nat)
  {
    j >= 2 && forall d :: 2 <= d < bound && IsPrime(d) && d * d <= j ==> j % d != 0
  }

  /** Once every prime up to the square root of j was used, j survives
      exactly when it is prime. */
  lemma SurvivesIffPrime(j: nat, bound: nat)
    requires j < bound * bound
    ensures Survives(j, bound) <==> IsPrime(j)
  {
    if j >= 2 && !IsPrime(j) {
      SmallPrimeFactor(j);
      var d: nat :| IsPrime(d) && d * d <= j && j % d == 0;
      if d >= bound {
        MulMonotone(d, bound, d);
        MulMonotone(bound, bound, d);
      }
    } else if IsPrime(j) {
      forall d | 2 <= d < bound && IsPrime(d) && d * d <= j
        ensures j % d != 0
      {
        MulMonotone(d, 2, d);
      }
    }
  }

  /** Between two consecutive multiples of i there is none. */
  lemma NextMultiple(i: nat, k: nat, x: nat)
    requires i > 0 && i * k < x < i * k + i
    ensures x % i != 0
  {
    DivModUnique(x, i, k, x - i * k);
  }

  /** The inner loop of the sieve: marks false every multiple of i from
      i * i on. */
  method CrossOut(isPrime: array<bool>, i: nat)
    requires 2 <= i && i * i <= isPrime.Length
    requires forall x :: 0 <= x < isPrime.Length ==> (isPrime[x] <==> Survives(x, i))
    requires IsPrime(i)
    modifies isPrime
    ensures forall x :: 0 <= x < isPrime.Length ==> (isPrime[x] <==> Survives(x, i + 1))
  {
    var j := i * i;
    ghost var k := i;
    while j < isPrime.Length
      invariant j == i * k && k >= i
      invariant forall x :: 0 <= x < isPrime.Length ==>
                  (isPrime[x] <==> Survives(x, i) && !(i * i <= x < j && x % i == 0))
      decreases isPrime.Length - j
    {
      MultipleMod(i, k);
      isPrime[j] := false;
      forall x | j < x < j + i
        ensures x % i != 0
      {
        NextMultiple(i, k, x);
      }
      j := j + i;
      k := k + 1;
    }
  }

  /** The sieve over [0, limit): isPrime[x] ends up true exactly for the
      primes. */
  method Sieve(limit: nat) returns (isPrime: array<bool>)
    requires limit >= 2
    ensures fresh(isPrime) && isPrime.Length == limit
    ensures forall x :: 0 <= x < limit ==> (isPrime[x] <==> IsPrime(x))
  {
    isPrime := new bool[limit](_ => true);
    isPrime[0], isPrime[1] := false, false;
    var i := 2;
    while i * i <= limit
      invariant 2 <= i && (i - 1) * (i - 1) <= limit
      invariant forall x :: 0 <= x < limit ==> (isPrime[x] <==> Survives(x, i))
      decreases limit - i
    {
      SurvivesIffPrime(i, i);
      if isPrime[i] {
        CrossOut(isPrime, i);
      }
      i := i + 1;
    }
    forall x | 0 <= x < limit
      ensures isPrime[x] <==> IsPrime(x)
    {
      SurvivesIffPrime(x, i);
    }
  }

  /** The collection pass of preCalPrimes: the marked indices of a sieved
      array, in increasing order, are the primes below its length. */
  method CollectPrimes(isPrime: array<bool>) returns (primes: seq<nat>)
    requires isPrime.Length >= 2
    requires forall x :: 0 <= x < isPrime.Length ==> (isPrime[x] <==> IsPrime(x))
    ensures primes == PrimesBelow(isPrime.Length)
  {
    primes := [];
    assert PrimesBelow(2) == [];
    for x := 2 to isPrime.Length
      invariant primes == PrimesBelow(x)
    {
      if isPrime[x] {
        primes := primes + [x];
      }
    }
  }
}
