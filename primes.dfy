/** Model of SimpleParallelForEachLoop: trial-division primality, the
    sequential LINQ filter, and the Parallel.ForEach variant that adds every
    prime it meets to a shared bag. The parallel runtime is modelled by a
    schedule: the order in which Parallel.ForEach hands the elements to the
    loop body. Any order is allowed, but every element is handed over
    exactly once. */
module Primes {

  /** The mathematical definition: at least 2 and no divisor in [2, n-1]. */
  ghost predicate IsPrimeNumber(n: int) {
    n >= 2 && forall d :: 2 <= d < n ==> n % d != 0
  }

  /** What IsPrime checks: at least 2 and no divisor d with 2 <= d and
      d * d <= n (the integer form of the bound divisor <= Math.Sqrt(n)). */
  ghost predicate PassesTrialDivision(n: int) {
    n >= 2 && forall d :: 2 <= d && d * d <= n ==> n % d != 0
  }

  /** d * d <= n for 2 <= d forces d < n. */
  lemma SquareBelowMeansSmaller(n: int, d: int)
    requires 2 <= d && d * d <= n
    ensures d < n
  {
  }

  /** If d * d > n, then every e >= d has e * e > n. */
  lemma SquareMonotone(n: int, d: int, e: int)
    requires 0 <= d <= e && d * d > n
    ensures e * e > n
  {
  }

  /** 0 <= a and b <= c give a * b <= a * c. */
  lemma MulMonotone(a: int, b: int, c: int)
    requires 0 <= a && b <= c
    ensures a * b <= a * c
  {
  }

  /** n == q * d with q > 0 makes q a divisor of n. */
  lemma MultipleHasZeroRemainder(n: int, q: int, d: int)
    requires q > 0 && n == q * d
    ensures n % q == 0
  {
    var k, r := n / q, n % q;
    assert n == q * k + r && 0 <= r < q;
    assert q * (d - k) == r;
    if d - k >= 1 {
      MulMonotone(q, 1, d - k);
    } else if d - k <= -1 {
      MulMonotone(q, d - k, -1);
    }
  }

  /** A divisor d of n with d * d > n has its cofactor n / d below the square
      root, and that cofactor divides n too. */
  lemma CofactorIsSmall(n: int, d: int)
    requires 2 <= d < n && n % d == 0 && d * d > n
    ensures 2 <= n / d && (n / d) * (n / d) <= n && n % (n / d) == 0
  {
    var q := n / d;
    assert n == d * q;
    if q <= 1 {
      MulMonotone(d, q, 1);
      assert false;
    }
    if q >= d {
      MulMonotone(d, d, q);
      assert false;
    }
    MulMonotone(q, q, d);
    assert q * d == n;
    MultipleHasZeroRemainder(n, q, d);
  }

  /** Trial division up to the square root decides primality. */
  lemma {:induction false} TrialDivisionIsPrimality(n: int)
    ensures PassesTrialDivision(n) <==> IsPrimeNumber(n)
  {
    if PassesTrialDivision(n) {
      forall d | 2 <= d < n
        ensures n % d != 0
      {
        if n % d == 0 {
          if d * d <= n {
            assert false;
          } else {
            CofactorIsSmall(n, d);
            assert false;
          }
        }
      }
    }
    if IsPrimeNumber(n) {
      forall d | 2 <= d && d * d <= n
        ensures n % d != 0
      {
        SquareBelowMeansSmaller(n, d);
      }
    }
  }

  /** IsPrime: false below 2; otherwise tries divisor = 2, 3, ... while
      divisor * divisor <= number and answers false at the first divisor
      that divides number, true when the loop ends. */
  method IsPrime(number: int) returns (prime: bool)
    ensures number < 2 ==> !prime
    ensures prime <==> PassesTrialDivision(number)
    ensures prime <==> IsPrimeNumber(number)
  {
    TrialDivisionIsPrimality(number);
    if number < 2 {
      return false;
    }
    var divisor := 2;
    while divisor * divisor <= number
      invariant 2 <= divisor
      invariant forall d :: 2 <= d < divisor ==> number % d != 0
      decreases number - divisor
    {
      SquareBelowMeansSmaller(number, divisor);
      if number % divisor == 0 {
        return false;
      }
      divisor := divisor + 1;
    }
    forall d | 2 <= d && d * d <= number
      ensures number % d != 0
    {
      if d >= divisor {
        SquareMonotone(number, divisor, d);
      }
    }
    return true;
  }

  /** GetPrimeList: numbers.Where(IsPrime).ToList(), the primes of the
      input in input order. */
  ghost function GetPrimeList(numbers: seq<int>): (primes: seq<int>)
    ensures |primes| <= |numbers|
  {
    if numbers == [] then []
    else
      (if IsPrimeNumber(numbers[0]) then [numbers[0]] else []) + GetPrimeList(numbers[1..])
  }

  /** The result holds every prime of the input as often as the input
      does, and nothing else. */
  lemma {:induction false} GetPrimeListCounts(numbers: seq<int>, x: int)
    ensures multiset(GetPrimeList(numbers))[x] == if IsPrimeNumber(x) then multiset(numbers)[x] else 0
  {
    if numbers != [] {
      assert numbers == [numbers[0]] + numbers[1..];
      GetPrimeListCounts(numbers[1..], x);
    }
  }

  /** Every element of the result is an input element and prime. */
  lemma {:induction false} GetPrimeListSound(numbers: seq<int>, x: int)
    requires x in GetPrimeList(numbers)
    ensures x in numbers && IsPrimeNumber(x)
  {
    GetPrimeListCounts(numbers, x);
  }

  /** The filter keeps input order: filtering a concatenation is the
      concatenation of the filtered parts. */
  lemma {:induction false} GetPrimeListConcat(a: seq<int>, b: seq<int>)
    ensures GetPrimeList(a + b) == GetPrimeList(a) + GetPrimeList(b)
  {
    if a != [] {
      var ab := a + b;
      assert ab[0] == a[0];
      assert ab[1..] == a[1..] + b;
      GetPrimeListConcat(a[1..], b);
      assert GetPrimeList(ab) == (if IsPrimeNumber(a[0]) then [a[0]] else []) + GetPrimeList(ab[1..]);
    } else {
      assert a + b == b;
    }
  }

  /** Filtering two rearrangements of the same elements yields the same
      multiset of primes. */
  lemma GetPrimeListPermutation(a: seq<int>, b: seq<int>)
    requires multiset(a) == multiset(b)
    ensures multiset(GetPrimeList(a)) == multiset(GetPrimeList(b))
  {
    forall x
      ensures multiset(GetPrimeList(a))[x] == multiset(GetPrimeList(b))[x]
    {
      GetPrimeListCounts(a, x);
      GetPrimeListCounts(b, x);
    }
  }

  /** GetPrimeListWithParallel: Parallel.ForEach visits the numbers in the
      order given by schedule (every element exactly once) and adds each
      one that IsPrime accepts to the bag; the bag is returned as a list. */
  method GetPrimeListWithParallel(numbers: seq<int>, schedule: seq<int>) returns (primeNumbers: seq<int>)
    requires multiset(schedule) == multiset(numbers)
    ensures primeNumbers == GetPrimeList(schedule)
    ensures multiset(primeNumbers) == multiset(GetPrimeList(numbers))
    ensures |primeNumbers| == |GetPrimeList(numbers)|
  {
    primeNumbers := [];
    for i := 0 to |schedule|
      invariant primeNumbers == GetPrimeList(schedule[..i])
    {
      var number := schedule[i];
      var prime := IsPrime(number);
      if prime {
        primeNumbers := primeNumbers + [number];
      }
      assert schedule[..i + 1] == schedule[..i] + [number];
      GetPrimeListConcat(schedule[..i], [number]);
    }
    assert schedule[..|schedule|] == schedule;
    GetPrimeListPermutation(schedule, numbers);
    assert |primeNumbers| == |multiset(primeNumbers)|;
  }
}
