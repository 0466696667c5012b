/** The primality oracle: the trial-division test (with its "1 is prime" quirk),
    the memo cache filled by a range precomputation, and factorisation into prime powers. */
module Primes {

  import Arith

  /** d is a divisor of n. The test `n % d === 0` of the source does not depend on the
      signs of its operands, so Dafny's Euclidean remainder gives the same answer. */
  predicate Divides(d: int, n: int)
  {
    d != 0 && n % d == 0
  }

  /** What the source reports as prime: 1 is reported prime, anything below 1 is not,
      and n >= 2 is prime when no i with 2 <= i and i*i <= n divides it. */
  ghost predicate ReportedPrime(n: int)
  {
    if n < 2 then n == 1 else forall i :: 2 <= i && i * i <= n ==> !Divides(i, n)
  }

  /** Primality in the textbook sense, as an independent reference. */
  ghost predicate IsPrimeNumber(n: int)
  {
    n >= 2 && forall d :: 2 <= d < n ==> !Divides(d, n)
  }

  /** A divisor of a divisor of n divides n. */
  lemma DividesTransitive(a: int, b: int, c: int)
    requires Divides(a, b) && Divides(b, c)
    ensures Divides(a, c)
  {
    Arith.DivMod(a, b);
    Arith.DivMod(b, c);
    Arith.Assoc(a, b / a, c / b);
    Arith.MulMod(a, (b / a) * (c / b));
  }

  /** Both factors of a product divide it. */
  lemma FactorsDivide(a: int, b: int, n: int)
    requires n == a * b && a != 0 && b != 0
    ensures Divides(a, n) && Divides(b, n)
  {
    Arith.MulMod(a, b);
    Arith.MulMod(b, a);
  }

  /** Dividing out a divisor d >= 2 of a non-zero m leaves a non-zero quotient, smaller when m > 0. */
  lemma DivideOut(m: int, d: int)
    requires d >= 2 && m != 0 && Divides(d, m)
    ensures m == d * (m / d) && m / d != 0
    ensures m > 0 ==> 1 <= m / d < m
  {
    Arith.DivMod(d, m);
    Arith.MulGrows(d, m / d);
  }

  /** The source's test is primality in the textbook sense, except that it also accepts 1. */
  lemma ReportedPrimeIsPrimality(n: int)
    ensures ReportedPrime(n) <==> (n == 1 || IsPrimeNumber(n))
  {
    if n >= 2 {
      if IsPrimeNumber(n) {
        forall i | 2 <= i && i * i <= n
          ensures !Divides(i, n)
        {
          Arith.SquareBelow(i, n);
        }
      }
      if ReportedPrime(n) {
        forall d | 2 <= d < n
          ensures !Divides(d, n)
        {
          if Divides(d, n) {
            var e := n / d;
            Arith.DivMod(d, n);
            assert e >= 2 by {
              if e <= 0 {
                Arith.MulMonotone(e, 0, d);
              }
            }
            FactorsDivide(d, e, n);
            if d <= e {
              Arith.MulMonotone(d, e, d);
            } else {
              Arith.MulMonotone(e, d, e);
            }
            assert false;
          }
        }
      }
    }
  }

  /** isPrime / _isPrime: trial division by every i with i*i <= num, returning at the first divisor. */
  method IsPrime(num: int) returns (r: bool)
    ensures r == ReportedPrime(num)
  {
    if num < 2 {
      return num == 1;
    }
    var i := 2;
    while i * i <= num
      invariant 2 <= i
      invariant forall d :: 2 <= d < i ==> !Divides(d, num)
      decreases num - i
    {
      Arith.SquareBelow(i, num);
      if num % i == 0 {
        assert Divides(i, num);
        return false;
      }
      i := i + 1;
    }
    forall d | 2 <= d && d * d <= num
      ensures !Divides(d, num)
    {
      if d >= i {
        Arith.SquareMonotone(i, d);
      }
    }
    return true;
  }

  /** The module-level memo map of the source, from integers to their primality. */
  class PrimeCache {
    var cache: map<int, bool>

    /** Every cached answer is the one the primality test gives. */
    ghost predicate Valid()
      reads this
    {
      forall k :: k in cache ==> cache[k] == ReportedPrime(k)
    }

    constructor ()
      ensures Valid() && cache == map[]
    {
      cache := map[];
    }

    /** precomputePrimes: every integer of [start, end] that is not yet cached gets cached. */
    method PrecomputePrimes(start: int, end: int)
      modifies this
      ensures forall k :: start <= k <= end ==> k in cache
      ensures forall k :: k in old(cache) ==> k in cache && cache[k] == old(cache)[k]
      ensures forall k :: k in cache && k !in old(cache) ==> start <= k <= end && cache[k] == ReportedPrime(k)
      ensures old(Valid()) ==> Valid()
    {
      var i := start;
      while i <= end
        invariant start <= i
        invariant i == start || i <= end + 1
        invariant forall k :: start <= k < i ==> k in cache
        invariant forall k :: k in old(cache) ==> k in cache && cache[k] == old(cache)[k]
        invariant forall k :: k in cache && k !in old(cache) ==> start <= k < i && cache[k] == ReportedPrime(k)
      {
        if i !in cache {
          var p := IsPrime(i);
          cache := cache[i := p];
        }
        i := i + 1;
      }
    }

    /** checkIsPrime: the cached answer, or false for an integer never cached. */
    function CheckIsPrime(n: int): (r: bool)
      reads this
      ensures n !in cache ==> !r
      ensures n in cache ==> r == cache[n]
      ensures Valid() ==> (r <==> n in cache && ReportedPrime(n))
    {
      n in cache && cache[n]
    }
  }

  /** One entry {value, power} of a factorisation. */
  datatype Factor = Factor(value: int, power: nat)

  function Pow(b: int, e: nat): int
  {
    if e == 0 then 1 else b * Pow(b, e - 1)
  }

  /** The number a list of factors stands for: the product of value^power. */
  function Product(fs: seq<Factor>): int
  {
    if fs == [] then 1 else Product(fs[..|fs| - 1]) * Pow(fs[|fs| - 1].value, fs[|fs| - 1].power)
  }

  lemma ProductAppend(fs: seq<Factor>, f: Factor)
    ensures Product(fs + [f]) == Product(fs) * Pow(f.value, f.power)
  {
    assert (fs + [f])[..|fs|] == fs;
  }

  /** The `while (n % d === 0)` loops of getPrimesFactors: divide d out of m as often as it goes,
      counting how often. */
  method DivideOutAll(m: int, d: int) returns (power: nat, rest: int)
    requires d >= 2 && m != 0
    ensures rest != 0 && !Divides(d, rest)
    ensures Pow(d, power) * rest == m
    ensures power == 0 <==> !Divides(d, m)
    ensures Divides(rest, m)
    ensures m > 0 ==> 1 <= rest <= m
    ensures m < 0 ==> rest < 0
  {
    power, rest := 0, m;
    while rest % d == 0
      invariant rest != 0
      invariant Pow(d, power) * rest == m
      invariant power == 0 ==> rest == m
      invariant power > 0 ==> Divides(d, m)
      invariant m > 0 ==> 1 <= rest <= m
      invariant m < 0 ==> rest < 0
      decreases if rest < 0 then -rest else rest
    {
      DivideOut(rest, d);
      Arith.Assoc(Pow(d, power), d, rest / d);
      Arith.MulGrows(d, rest / d);
      if power == 0 {
        assert Divides(d, m);
      }
      power, rest := power + 1, rest / d;
    }
    PowAtLeastBase(d, power);
    FactorsDivide(Pow(d, power), rest, m);
  }

  /** A positive base has positive powers, and every power from the first on is at least the
      base. */
  lemma {:induction false} PowAtLeastBase(b: int, e: nat)
    requires b >= 1
    ensures Pow(b, e) >= 1
    ensures e >= 1 ==> Pow(b, e) >= b
  {
    if e > 0 {
      PowAtLeastBase(b, e - 1);
      Arith.MulMonotone(1, b, Pow(b, e - 1));
      Arith.MulMonotone(1, Pow(b, e - 1), b);
    }
  }

  /** Every factor is a prime (as the source reports primes) with a positive power. */
  ghost predicate PrimeFactors(fs: seq<Factor>)
  {
    forall k :: 0 <= k < |fs| ==> 2 <= fs[k].value && ReportedPrime(fs[k].value) && fs[k].power >= 1
  }

  predicate AllBelow(fs: seq<Factor>, bound: int)
  {
    forall k :: 0 <= k < |fs| ==> fs[k].value < bound
  }

  /** The values of the factors strictly increase. */
  predicate Increasing(fs: seq<Factor>)
  {
    forall j, k :: 0 <= j < k < |fs| ==> fs[j].value < fs[k].value
  }

  /** Every factor after the first has an odd value. */
  predicate OddAfterFirst(fs: seq<Factor>)
  {
    forall k :: 0 < k < |fs| ==> fs[k].value % 2 == 1
  }

  /** Only the last factor may have a value whose square exceeds n, and then its power is 1. */
  predicate OnlyLastExceedsRoot(fs: seq<Factor>, n: int)
  {
    forall k :: 0 <= k < |fs| && fs[k].value * fs[k].value > n ==> k == |fs| - 1 && fs[k].power == 1
  }

  /** No factor has a value whose square exceeds n. */
  predicate WithinRoot(fs: seq<Factor>, n: int)
  {
    forall k :: 0 <= k < |fs| ==> fs[k].value * fs[k].value <= n
  }

  /** 2 is the first factor exactly when n is even. */
  predicate TwoFirstIffEven(fs: seq<Factor>, n: int)
  {
    (n % 2 == 0) <==> (fs != [] && fs[0].value == 2)
  }

  ghost predicate NoDivisorBelow(m: int, bound: int)
  {
    forall d :: 2 <= d < bound ==> !Divides(d, m)
  }

  /** What holds before each round of the odd trial-division loop, with m what is left of n. */
  ghost predicate TrialInvariant(n: int, fs: seq<Factor>, m: int, i: int)
  {
    i >= 3 && i % 2 == 1 && m != 0 &&
    Product(fs) * m == n &&
    (n >= 2 ==> 1 <= m <= n) &&
    NoDivisorBelow(m, i) &&
    PrimeFactors(fs) && AllBelow(fs, i) && Increasing(fs) && OddAfterFirst(fs) && TwoFirstIffEven(fs, n) &&
    (n >= 2 ==> OnlyLastExceedsRoot(fs, n) && (m != 1 ==> WithinRoot(fs, n)))
  }

  /** Appending a factor that is larger than all others and odd keeps the shape properties. */
  lemma PushFactor(fs: seq<Factor>, f: Factor, bound: int, n: int)
    requires PrimeFactors(fs) && AllBelow(fs, bound) && Increasing(fs) && OddAfterFirst(fs) && TwoFirstIffEven(fs, n)
    requires 2 <= bound <= f.value && f.value % 2 == 1 && ReportedPrime(f.value) && f.power >= 1
    ensures PrimeFactors(fs + [f]) && AllBelow(fs + [f], f.value + 1) && Increasing(fs + [f]) && OddAfterFirst(fs + [f])
    ensures TwoFirstIffEven(fs + [f], n)
  {
    var gs := fs + [f];
    assert forall k :: 0 <= k < |fs| ==> gs[k] == fs[k];
  }

  /** Dividing the largest divisor of m that is a power of an odd i out of m leaves no divisor below i + 2. */
  lemma NoDivisorStep(m: int, i: int, q: int)
    requires NoDivisorBelow(m, i) && i >= 3 && i % 2 == 1
    requires q != 0 && !Divides(i, q) && Divides(q, m)
    ensures NoDivisorBelow(q, i + 2)
  {
    forall d | 2 <= d < i + 2
      ensures !Divides(d, q)
    {
      if d < i && Divides(d, q) {
        DividesTransitive(d, q, m);
      } else if d == i + 1 && Divides(d, q) {
        assert Divides(2, d);
        DividesTransitive(2, d, q);
        DividesTransitive(2, q, m);
      }
    }
  }

  /** The smallest divisor >= 2 of m is prime. */
  lemma SmallestDivisorIsPrime(m: int, i: int)
    requires NoDivisorBelow(m, i) && i >= 2 && Divides(i, m)
    ensures ReportedPrime(i)
  {
    forall d | 2 <= d && d * d <= i
      ensures !Divides(d, i)
    {
      Arith.SquareBelow(d, i);
      if Divides(d, i) {
        DividesTransitive(d, i, m);
      }
    }
  }

  lemma ProductStep(fs: seq<Factor>, f: Factor, m: int, q: int, n: int)
    requires Product(fs) * m == n && Pow(f.value, f.power) * q == m
    ensures Product(fs + [f]) * q == n
  {
    ProductAppend(fs, f);
    Arith.Assoc(Product(fs), Pow(f.value, f.power), q);
  }

  lemma WithinRootStep(fs: seq<Factor>, f: Factor, n: int)
    requires WithinRoot(fs, n) && f.value * f.value <= n
    ensures WithinRoot(fs + [f], n) && OnlyLastExceedsRoot(fs + [f], n)
  {
    var gs := fs + [f];
    assert forall k :: 0 <= k < |fs| ==> gs[k] == fs[k];
  }

  /** One round of the odd trial-division loop keeps the loop invariant. */
  lemma TrialStep(n: int, fs: seq<Factor>, m: int, i: int, power: nat, q: int)
    requires TrialInvariant(n, fs, m, i) && i * i <= m
    requires q != 0 && !Divides(i, q) && Pow(i, power) * q == m && (power == 0 <==> !Divides(i, m))
    requires Divides(q, m) && 1 <= q <= m
    ensures TrialInvariant(n, if power > 0 then fs + [Factor(i, power)] else fs, q, i + 2)
  {
    NoDivisorStep(m, i, q);
    if power > 0 {
      TrialFound(n, fs, m, i, power, q);
    } else {
      assert q == m;
    }
  }

  /** The round in which i divides what is left appends {i, power}. */
  lemma TrialFound(n: int, fs: seq<Factor>, m: int, i: int, power: nat, q: int)
    requires TrialInvariant(n, fs, m, i) && i * i <= m && power > 0
    requires Pow(i, power) * q == m && Divides(i, m) && 1 <= q <= m
    requires NoDivisorBelow(q, i + 2)
    ensures TrialInvariant(n, fs + [Factor(i, power)], q, i + 2)
  {
    var f := Factor(i, power);
    ProductStep(fs, f, m, q, n);
    SmallestDivisorIsPrime(m, i);
    PushFactor(fs, f, i, n);
    if n >= 2 {
      WithinRootStep(fs, f, n);
    }
    assert AllBelow(fs + [f], i + 2);
  }

  /** After the twos are divided out of n, the odd trial-division loop can start at 3. */
  lemma TrialStart(n: int, powerOfTwo: nat, m: int)
    requires n != 0 && n != 1
    requires m != 0 && !Divides(2, m) && Pow(2, powerOfTwo) * m == n && (powerOfTwo == 0 <==> !Divides(2, n))
    requires n > 0 ==> 1 <= m <= n
    ensures TrialInvariant(n, if powerOfTwo > 0 then [Factor(2, powerOfTwo)] else [], m, 3)
  {
    var fs: seq<Factor> := if powerOfTwo > 0 then [Factor(2, powerOfTwo)] else [];
    ProductAppend([], Factor(2, powerOfTwo));
    if powerOfTwo > 0 {
      assert ReportedPrime(2);
      if n >= 2 && 2 * 2 > n {
        TwoOnly(n, powerOfTwo, m);
      }
    }
    assert Product(fs) * m == n;
  }

  /** When the odd loop stops with m > 2 left over, m is a prime no smaller than the loop bound. */
  lemma LeftoverIsPrime(m: int, i: int)
    requires NoDivisorBelow(m, i) && i >= 2 && i * i > m && m >= 2
    ensures ReportedPrime(m) && m >= i
  {
    Arith.MulMod(m, 1);
    assert Divides(m, m);
    forall d | 2 <= d && d * d <= m
      ensures !Divides(d, m)
    {
      if d >= i {
        Arith.SquareMonotone(i, d);
      }
    }
  }

  lemma PushLast(fs: seq<Factor>, f: Factor, n: int)
    requires WithinRoot(fs, n) && f.power == 1
    ensures OnlyLastExceedsRoot(fs + [f], n)
  {
    var gs := fs + [f];
    assert forall k :: 0 <= k < |fs| ==> gs[k] == fs[k];
  }

  /** When the odd loop stops, what is left is 1 or a prime larger than every factor found, and the
      list (with that last factor when it exceeds 2) is a factorisation of n. */
  lemma TrialEnd(n: int, fs: seq<Factor>, m: int, i: int)
    requires TrialInvariant(n, fs, m, i) && i * i > m && n >= 2
    ensures var r := if m > 2 then fs + [Factor(m, 1)] else fs;
      Product(r) == n && r != [] && PrimeFactors(r) && Increasing(r) && OddAfterFirst(r) &&
      TwoFirstIffEven(r, n) && OnlyLastExceedsRoot(r, n)
  {
    assert !Divides(2, m);
    if m > 2 {
      LeftoverIsPrime(m, i);
      var f := Factor(m, 1);
      ProductStep(fs, f, m, 1, n);
      PushFactor(fs, f, i, n);
      PushLast(fs, f, n);
    } else {
      assert m == 1;
      assert fs != [];
    }
  }

  /** getPrimesFactors: 0 and 1 get the sentinel lists [{0,1}] and [{1,1}]; any other n has its
      factors of 2 divided out, then every odd i with i*i <= (what is left), and what is finally
      left is a last factor when it exceeds 2. */
  method GetPrimesFactors(n: int) returns (fs: seq<Factor>)
    ensures n == 0 ==> fs == [Factor(0, 1)]
    ensures n == 1 ==> fs == [Factor(1, 1)]
    ensures n >= 2 ==> Product(fs) == n && fs != [] && PrimeFactors(fs)
    ensures n >= 2 ==> Increasing(fs) && TwoFirstIffEven(fs, n) && OddAfterFirst(fs) && OnlyLastExceedsRoot(fs, n)
    ensures n < 0 ==> |fs| <= 1 && (fs != [] <==> n % 2 == 0) && forall k :: 0 <= k < |fs| ==> fs[k].value == 2 && fs[k].power >= 1
  {
    if n == 0 {
      return [Factor(0, 1)];
    }
    if n == 1 {
      return [Factor(1, 1)];
    }
    fs := [];
    var powerOfTwo, m := DivideOutAll(n, 2);
    if powerOfTwo > 0 {
      fs := fs + [Factor(2, powerOfTwo)];
    }
    TrialStart(n, powerOfTwo, m);

    var i;
    fs, m, i := OddTrials(n, fs, m);
    ghost var found := fs;
    if m > 2 {
      fs := fs + [Factor(m, 1)];
    }
    TrialResult(n, found, m, i, fs);
  }

  /** The odd trial-division loop of getPrimesFactors: i runs over 3, 5, 7, ... while i * i is at
      most what is left of n, and each i that divides it is divided out with its power. */
  method OddTrials(n: int, fs0: seq<Factor>, m0: int) returns (fs: seq<Factor>, m: int, i: int)
    requires TrialInvariant(n, fs0, m0, 3)
    ensures TrialInvariant(n, fs, m, i) && i * i > m
    ensures m0 < 0 ==> fs == fs0 && m == m0
  {
    fs, m, i := fs0, m0, 3;
    while i * i <= m
      invariant TrialInvariant(n, fs, m, i)
      invariant m0 < 0 ==> fs == fs0 && m == m0
      decreases m - i
    {
      Arith.SquareBelow(i, m);
      var power, q := DivideOutAll(m, i);
      TrialStep(n, fs, m, i, power, q);
      if power > 0 {
        fs := fs + [Factor(i, power)];
      }
      i, m := i + 2, q;
    }
  }

  /** What the odd loop leaves, with the last factor appended when more than 2 is left, is the
      result getPrimesFactors promises for n other than 0 and 1. */
  lemma TrialResult(n: int, found: seq<Factor>, m: int, i: int, fs: seq<Factor>)
    requires n != 0 && n != 1 && TrialInvariant(n, found, m, i) && i * i > m
    requires n < 0 ==> m < 0 && |found| <= 1 && forall k :: 0 <= k < |found| ==> found[k].value == 2
    requires fs == if m > 2 then found + [Factor(m, 1)] else found
    ensures n >= 2 ==> Product(fs) == n && fs != [] && PrimeFactors(fs)
    ensures n >= 2 ==> Increasing(fs) && TwoFirstIffEven(fs, n) && OddAfterFirst(fs) && OnlyLastExceedsRoot(fs, n)
    ensures n < 0 ==> |fs| <= 1 && (fs != [] <==> n % 2 == 0) && forall k :: 0 <= k < |fs| ==> fs[k].value == 2 && fs[k].power >= 1
  {
    if n >= 2 {
      TrialEnd(n, found, m, i);
    } else {
      assert fs == found;
      assert found != [] ==> found[0].value == 2;
    }
  }

  /** When n is 2 or 3 and even, dividing out the twos leaves exactly one 2 and nothing else. */
  lemma TwoOnly(n: int, p: nat, m: int)
    requires 2 <= n < 4 && p >= 1 && m >= 1 && Pow(2, p) * m == n
    ensures p == 1 && m == 1
  {
    PowAtLeastBase(2, p);
    Arith.MulMonotone(2, Pow(2, p), m);
    PowAtLeastBase(2, p - 1);
  }
}
