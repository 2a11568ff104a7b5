/**
 utils/src/prime.rs: trial division by the numbers of the form 6k - 1 and 6k + 1, and the
 search for the next prime, in 32-bit arithmetic that aborts on overflow.
 */
module Primes {
  import opened Wrappers
  import opened Bits

  const TWO_TO_THE_32: nat := 0x1_0000_0000

  /** Trial division squares this number last before its square would need more than 32 bits. */
  const LAST_TRIAL: nat := 65531

  predicate Divides(d: nat, n: nat)
    requires d > 0
  {
    n % d == 0
  }

  ghost predicate Prime(n: nat) {
    n >= 2 && NoDivisorBelow(n, n)
  }

  /** Nothing from 2 up to `limit` divides `n`. */
  ghost predicate NoDivisorBelow(limit: nat, n: nat) {
    forall d: nat :: 2 <= d < limit ==> !Divides(d, n)
  }

  // ---------------------------------------------------------------------------
  // Divisors
  // ---------------------------------------------------------------------------

  lemma DividesProduct(d: nat, q: nat)
    requires d > 0
    ensures Divides(d, q * d)
  {
    DivUnique(q * d, d, q, 0);
  }

  lemma Quotient(d: nat, n: nat)
    requires d > 0 && Divides(d, n)
    ensures n == (n / d) * d
  {
  }

  lemma DividesTrans(a: nat, b: nat, n: nat)
    requires a > 0 && b > 0 && Divides(a, b) && Divides(b, n)
    ensures Divides(a, n)
  {
    Quotient(a, b);
    Quotient(b, n);
    MulAssoc(n / b, b / a, a);
    DividesProduct(a, (n / b) * (b / a));
  }

  /** What divides two neighbours divides 1. */
  lemma DividesNeighbours(d: nat, n: nat)
    requires d > 0 && Divides(d, n) && Divides(d, n + 1)
    ensures d == 1
  {
    if d > 1 {
      Quotient(d, n);
      DivUnique(n + 1, d, n / d, 1);
    }
  }

  /** The cofactor of a proper divisor is a proper divisor. */
  lemma Cofactor(d: nat, n: nat)
    requires 2 <= d < n && Divides(d, n)
    ensures 2 <= n / d < n && Divides(n / d, n) && n == (n / d) * d
  {
    var q := n / d;
    Quotient(d, n);
    assert q != 0 && q != 1;
    DividesProduct(q, d);
    ProductGrows(q, d);
  }

  lemma ProductGrows(q: nat, d: nat)
    requires q >= 1 && d >= 2
    ensures q < q * d
  {
    MulAtLeast(q, 1);
    assert q * d == q + q * (d - 1);
    MulAtLeast(d - 1, q);
  }

  lemma ProductMonotone(q: nat, i: nat, d: nat)
    requires i <= q && i <= d
    ensures i * i <= q * d
  {
    assert q * d == q * i + q * (d - i);
    assert q * i == i * i + (q - i) * i;
  }

  function Square(i: nat): nat {
    i * i
  }

  /** Trial division up to the square root suffices. */
  lemma RootSuffices(i: nat, n: nat)
    requires n >= 2 && i >= 2 && Square(i) > n && NoDivisorBelow(i, n)
    ensures Prime(n)
  {
    forall d: nat | 2 <= d < n
      ensures !Divides(d, n)
    {
      if Divides(d, n) {
        Cofactor(d, n);
        if d >= i && n / d >= i { ProductMonotone(n / d, i, d); }
      }
    }
  }

  /** A multiple of 2 or 3 does not divide a number that neither 2 nor 3 divides. */
  lemma MultipleDoesNot(a: nat, q: nat, n: nat)
    requires a > 0 && q > 0 && !Divides(a, n)
    ensures q * a > 0 && !Divides(q * a, n)
  {
    MulAtLeast(q, a);
    DividesProduct(a, q);
    if Divides(q * a, n) { DividesTrans(a, q * a, n); }
  }

  /** Of six numbers in a row only two need to be tried: the others are multiples of 2 or 3. */
  lemma SixMore(k: nat, n: nat)
    requires !Divides(2, n) && !Divides(3, n)
    requires NoDivisorBelow(6 * k + 5, n) && !Divides(6 * k + 5, n) && !Divides(6 * k + 7, n)
    ensures NoDivisorBelow(6 * k + 11, n)
  {
    hide Divides;
    MultipleDoesNot(2, 3 * k + 3, n);
    MultipleDoesNot(2, 3 * k + 4, n);
    MultipleDoesNot(3, 2 * k + 3, n);
    MultipleDoesNot(2, 3 * k + 5, n);
    forall d: nat | 6 * k + 5 <= d < 6 * k + 11
      ensures !Divides(d, n)
    {
      assert d == 6 * k + 5 || d == (3 * k + 3) * 2 || d == 6 * k + 7 || d == (3 * k + 4) * 2 || d == (2 * k + 3) * 3 ||
             d == (3 * k + 5) * 2;
    }
  }

  /** Every prime above 3 has the form 6k - 1 or 6k + 1. */
  lemma SixForm(n: nat)
    requires n > 3 && Prime(n)
    ensures n % 6 == 1 || n % 6 == 5
  {
    assert !Divides(2, n) && !Divides(3, n);
  }

  // ---------------------------------------------------------------------------
  // Euclid's theorem
  // ---------------------------------------------------------------------------

  ghost function Factorial(n: nat): (f: nat)
    ensures f >= 1
  {
    if n == 0 then 1 else Times(n, Factorial(n - 1))
  }

  ghost function Times(a: nat, b: nat): (p: nat)
    requires a >= 1 && b >= 1
    ensures p == a * b && p >= 1
  {
    MulAtLeast(a, b);
    a * b
  }

  lemma {:induction false} DividesFactorial(d: nat, n: nat)
    requires 1 <= d <= n
    ensures Divides(d, Factorial(n))
  {
    if d == n {
      assert Factorial(n) == Factorial(n - 1) * n;
      DividesProduct(n, Factorial(n - 1));
    } else {
      DividesFactorial(d, n - 1);
      DividesProduct(Factorial(n - 1), n);
      DividesTrans(d, Factorial(n - 1), Factorial(n));
    }
  }

  /** The least divisor from `d` on; it is prime when nothing smaller divides. */
  ghost function LeastDivisor(n: nat, d: nat): (p: nat)
    requires 2 <= d <= n && NoDivisorBelow(d, n)
    ensures d <= p <= n && Divides(p, n) && NoDivisorBelow(p, n)
    decreases n - d
  {
    if Divides(d, n) then d else assert d < n by { DividesProduct(n, 1); } LeastDivisor(n, d + 1)
  }

  /** The least divisor above 1 is prime. */
  lemma LeastDivisorIsPrime(n: nat)
    requires n >= 2
    ensures Prime(LeastDivisor(n, 2))
  {
    var p := LeastDivisor(n, 2);
    forall d: nat | 2 <= d < p
      ensures !Divides(d, p)
    {
      if Divides(d, p) { DividesTrans(d, p, n); }
    }
  }

  /** Euclid: there is a prime above every number. */
  ghost function PrimeAbove(n: nat): (p: nat)
    ensures p > n && Prime(p)
  {
    var m := Factorial(n) + 1;
    var p := LeastDivisor(m, 2);
    LeastDivisorIsPrime(m);
    assert p > n by {
      if p <= n {
        DividesFactorial(p, n);
        DividesNeighbours(p, Factorial(n));
      }
    }
    p
  }

  /** The least prime that is at least `n`. */
  ghost function NextPrime(n: nat): (p: nat)
    ensures p >= n && Prime(p)
    ensures forall q: nat :: n <= q < p ==> !Prime(q)
  {
    LeastPrime(n, PrimeAbove(n))
  }

  ghost function LeastPrime(n: nat, bound: nat): (p: nat)
    requires n <= bound && Prime(bound)
    ensures n <= p <= bound && Prime(p)
    ensures forall q: nat :: n <= q < p ==> !Prime(q)
    decreases bound - n
  {
    if Prime(n) then n else LeastPrime(n + 1, bound)
  }

  lemma NextPrimeUnique(n: nat, p: nat)
    requires n <= p && Prime(p) && forall q: nat :: n <= q < p ==> !Prime(q)
    ensures NextPrime(n) == p
  {
  }

  // ---------------------------------------------------------------------------
  // The algorithms
  // ---------------------------------------------------------------------------

  lemma SquareMonotone(i: nat, j: nat)
    requires i <= j
    ensures Square(i) <= Square(j)
  {
    ProductMonotone(j, i, j);
  }

  /** The first trial divisor of the form 6k + 5 whose square does not fit into 32 bits. */
  lemma FirstOverflow(k: nat)
    requires 6 * k + 5 <= LAST_TRIAL + 6
    ensures Square(6 * k + 5) >= TWO_TO_THE_32 <==> 6 * k + 5 == LAST_TRIAL + 6
    ensures 6 * k + 5 <= LAST_TRIAL ==> Square(6 * k + 5) <= Square(LAST_TRIAL)
    ensures 6 * k + 7 < Square(6 * k + 5)
  {
    if 6 * k + 5 <= LAST_TRIAL { SquareMonotone(6 * k + 5, LAST_TRIAL); }
    assert 6 * k + 5 < LAST_TRIAL + 6 ==> 6 * k + 5 <= LAST_TRIAL;
    ProductMonotone(6 * k + 5, 5, 6 * k + 5);
    MulAtLeast(6 * k + 5, 5);
    assert Square(6 * k + 5) == 5 * (6 * k + 5) + 6 * k * (6 * k + 5);
  }

  /** Exact on all 32-bit numbers, except that it overflows (`None`) on the primes from 65531 squared on. */
  method IsPrime(n: nat) returns (r: Option<bool>)
    requires n < TWO_TO_THE_32
    ensures r.None? <==> n >= Square(LAST_TRIAL) && Prime(n)
    ensures r.Some? ==> r.value == Prime(n)
  {
    if n <= 1 {
      return Some(false);
    }
    if n <= 3 {
      assert NoDivisorBelow(n, n);
      return Some(true);
    }
    if Divides(2, n) || Divides(3, n) {
      return Some(false);
    }
    r := TrialDivision(n);
  }

  /** The loop of `is_prime`: tries 6k + 5 and 6k + 7 until the square of 6k + 5 exceeds `n`. */
  method TrialDivision(n: nat) returns (r: Option<bool>)
    requires 3 < n < TWO_TO_THE_32 && !Divides(2, n) && !Divides(3, n)
    ensures r.None? <==> n >= Square(LAST_TRIAL) && Prime(n)
    ensures r.Some? ==> r.value == Prime(n)
  {
    hide Divides, Square;
    MultipleDoesNot(2, 2, n);
    var i := 5;
    ghost var k := 0;
    while true
      invariant i == 6 * k + 5 <= LAST_TRIAL + 6 && NoDivisorBelow(i, n)
      invariant i == LAST_TRIAL + 6 ==> Square(LAST_TRIAL) <= n
      decreases LAST_TRIAL + 6 - i
    {
      FirstOverflow(k);
      if Square(i) >= TWO_TO_THE_32 {
        RootSuffices(i, n);
        return None;
      }
      if Square(i) > n {
        RootSuffices(i, n);
        return Some(true);
      }
      if Divides(i, n) || Divides(i + 2, n) {
        return Some(false);
      }
      SixMore(k, n);
      i, k := i + 6, k + 1;
    }
  }

  /** No prime from `start` up to but excluding `c`. */
  ghost predicate Searched(start: nat, c: nat) {
    start <= c && forall q: nat :: start <= q < c ==> !Prime(q)
  }

  /** What the search returns: the next prime, unless `is_prime` cannot decide that it is one. */
  ghost predicate Found(start: nat, r: Option<nat>) {
    r == if NextPrime(start) < Square(LAST_TRIAL) then Some(NextPrime(start)) else None
  }

  /** Primality of the next candidate: either the search ends here, or it goes on behind the candidate. */
  method Try(start: nat, candidate: nat) returns (done: bool, r: Option<nat>)
    requires Searched(start, candidate)
    ensures done ==> Found(start, r)
    ensures !done ==> Searched(start, candidate + 1) && candidate < TWO_TO_THE_32
  {
    hide Prime;
    if candidate >= TWO_TO_THE_32 {
      return true, None;
    }
    var prime := IsPrime(candidate);
    if prime != Some(false) {
      NextPrimeUnique(start, candidate);
    }
    match prime {
      case None => return true, None;
      case Some(p) => return p, if p then Some(candidate) else None;
    }
  }

  /** Multiples of 2 or 3 are no primes, so the search may pass over them. */
  lemma PassOver(start: nat, a: nat, q: nat)
    requires (a == 2 || a == 3) && q >= 2 && Searched(start, a * q)
    ensures Searched(start, a * q + 1)
  {
    DividesProduct(a, q);
    assert a * q == q * a;
    assert !Prime(a * q);
  }

  /** The search cannot succeed any more close to the end of the 32-bit range. */
  lemma NothingLeft(start: nat, c: nat)
    requires Searched(start, c) && c + 6 >= TWO_TO_THE_32
    ensures Found(start, None)
  {
  }

  /** The loop of `find_next_prime`, from a multiple of 6 on. */
  method SearchFrom(start: nat, from: nat, ghost k0: nat) returns (r: Option<nat>)
    requires from == 6 * k0 && k0 > 0 && Searched(start, from) && from < TWO_TO_THE_32
    ensures Found(start, r)
  {
    hide Searched, Found;
    var n, done := from, false;
    ghost var k := k0;
    while true
      invariant n == 6 * k && k > 0 && n < TWO_TO_THE_32 && Searched(start, n)
      decreases TWO_TO_THE_32 - n
    {
      PassOver(start, 2, 3 * k);
      done, r := Try(start, n + 1);
      if done {
        return;
      }
      PassOver(start, 2, 3 * k + 1);
      PassOver(start, 3, 2 * k + 1);
      PassOver(start, 2, 3 * k + 2);
      done, r := Try(start, n + 5);
      if done {
        return;
      }
      // This addition cannot overflow: n + 5 fits, and n + 6 is a multiple of 6, which 2^32 is not.
      n, k := n + 6, k + 1;
    }
  }

  /** From a number that is no prime of the form 6k + 1 up to the next number of the form 6k + 5. */
  lemma PassOverTo(start: nat, c: nat)
    requires 3 < start <= c <= start + 4 && c % 6 == 5 && (start % 6 == 1 ==> !Prime(start))
    ensures Searched(start, c)
  {
    forall q: nat | start <= q < c
      ensures !Prime(q)
    {
      if Prime(q) && (q != start || start % 6 != 1) { SixForm(q); }
    }
  }

  /**
   The least prime that is at least `start`; 32-bit overflow (`None`) occurs exactly if that
   prime is at least 65531 squared.
   */
  method FindNextPrime(start: nat) returns (r: Option<nat>)
    requires start < TWO_TO_THE_32
    ensures Found(start, r)
  {
    if start <= 3 {
      assert Prime(2) && Prime(3);
      assert NextPrime(start) == if start <= 2 then 2 else 3;
      assert Square(LAST_TRIAL) > 3;
      return Some(if start <= 2 then 2 else 3);
    }
    var remainder := start % 6;
    if remainder == 0 {
      r := SearchFrom(start, start, start / 6);
    } else {
      r := SearchBehind(start, remainder);
    }
  }

  /** Candidates up to the next multiple of 6, then the loop. */
  method SearchBehind(start: nat, remainder: nat) returns (r: Option<nat>)
    requires 3 < start < TWO_TO_THE_32 && remainder == start % 6 != 0
    ensures Found(start, r)
  {
    hide Found, Prime;
    var done;
    if remainder == 5 || remainder == 1 {
      done, r := Try(start, start);
      if done {
        return;
      }
    }
    if start + 6 >= TWO_TO_THE_32 {
      NothingLeft(start, start);
      return None;
    }
    var n := start + 6 - remainder;
    PassOverTo(start, n - 1);
    done, r := Try(start, n - 1);
    if done {
      return;
    }
    r := SearchFrom(start, n, n / 6);
  }

  // ---------------------------------------------------------------------------
  // The same algorithms on unbounded numbers
  // ---------------------------------------------------------------------------

  /** Without a word size trial division decides primality of every number. */
  method IsPrimeUnbounded(n: nat) returns (r: bool)
    ensures r == Prime(n)
  {
    if n <= 1 {
      return false;
    }
    if n <= 3 {
      assert NoDivisorBelow(n, n);
      return true;
    }
    if Divides(2, n) || Divides(3, n) {
      return false;
    }
    hide Divides, Square;
    MultipleDoesNot(2, 2, n);
    var i := 5;
    ghost var k := 0;
    while Square(i) <= n
      invariant i == 6 * k + 5 && NoDivisorBelow(i, n)
      decreases n - i
    {
      SquareExceeds(i);
      if Divides(i, n) || Divides(i + 2, n) {
        return false;
      }
      SixMore(k, n);
      i, k := i + 6, k + 1;
    }
    RootSuffices(i, n);
    return true;
  }

  lemma SquareExceeds(i: nat)
    requires i >= 5
    ensures i + 6 <= Square(i) + 1 && i + 2 < Square(i)
  {
    assert Square(i) == 5 * i + (i - 5) * i;
    if i > 5 { MulAtLeast(i - 5, i); }
  }

  /** The search never gets beyond a prime, and there is one: this bounds the search. */
  lemma SearchIsBounded(start: nat, c: nat)
    requires Searched(start, c)
    ensures c <= PrimeAbove(start)
  {
  }

  /**
   The search for the next prime on unbounded numbers ends by Euclid's theorem, at the least prime
   from `start` on.
   */
  method FindNextPrimeUnbounded(start: nat) returns (p: nat)
    ensures p == NextPrime(start)
  {
    if start <= 3 {
      assert Prime(2) && Prime(3);
      p := if start <= 2 then 2 else 3;
      NextPrimeUnique(start, p);
      return;
    }
    var n, remainder := start, start % 6;
    if remainder != 0 {
      if remainder == 5 || remainder == 1 {
        var prime := IsPrimeUnbounded(start);
        if prime {
          NextPrimeUnique(start, start);
          return start;
        }
      }
      n := start + 6 - remainder;
      PassOverTo(start, n - 1);
      var prime := IsPrimeUnbounded(n - 1);
      if prime {
        NextPrimeUnique(start, n - 1);
        return n - 1;
      }
    }
    p := SearchUnbounded(start, n, n / 6);
  }

  /** The loop over the candidates 6k + 1 and 6k + 5. */
  method SearchUnbounded(start: nat, from: nat, ghost k0: nat) returns (p: nat)
    requires from == 6 * k0 && k0 > 0 && Searched(start, from)
    ensures p == NextPrime(start)
  {
    hide Prime;
    var n := from;
    ghost var k := k0;
    while true
      invariant n == 6 * k && k > 0 && Searched(start, n)
      decreases PrimeAbove(start) - n
    {
      SearchIsBounded(start, n);
      PassOver(start, 2, 3 * k);
      var prime := IsPrimeUnbounded(n + 1);
      if prime {
        NextPrimeUnique(start, n + 1);
        return n + 1;
      }
      assert Searched(start, 2 * (3 * k + 1));
      PassOver(start, 2, 3 * k + 1);
      PassOver(start, 3, 2 * k + 1);
      PassOver(start, 2, 3 * k + 2);
      prime := IsPrimeUnbounded(n + 5);
      if prime {
        NextPrimeUnique(start, n + 5);
        return n + 5;
      }
      n, k := n + 6, k + 1;
    }
  }
}
