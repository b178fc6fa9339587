/** Table sizes: `isprime` and `dbzsize` of innbbsd/dbz.c. */
module Primes {

  const DEFSIZE: int := 120011
  const QUICK: seq<int> := [2, 3, 5, 7, 11, 13, 17, 19, 23, 29, 31, 37]

  predicate Divides(d: int, x: int)
    requires d > 0
  {
    x % d == 0
  }

  ghost predicate IsPrime(x: int) {
    x >= 2 && forall d :: 2 <= d < x ==> !Divides(d, x)
  }

  // ------------------------------------------------------------------ divisors

  lemma DivideMul(d: int, q: int)
    requires d > 0
    ensures Divides(d, d * q)
  {
    Remainder(d * q, d, q, 0);
  }

  /** The quotient and remainder are the only ones. */
  lemma Remainder(x: int, d: int, q: int, r: int)
    requires d > 0 && x == d * q + r && 0 <= r < d
    ensures x / d == q && x % d == r
  {
    var e := x / d - q;
    assert d * e == r - x % d;
    MulBound(d, e);
  }

  lemma MulBound(d: int, e: int)
    requires d > 0
    ensures e >= 1 ==> d * e >= d
    ensures e <= -1 ==> d * e <= -d
  {
  }

  lemma DividesTransitive(a: int, b: int, c: int)
    requires a > 0 && b > 0 && Divides(a, b) && Divides(b, c)
    ensures Divides(a, c)
  {
    assert b == a * (b / a) && c == b * (c / b);
    assert c == a * ((b / a) * (c / b));
    DivideMul(a, (b / a) * (c / b));
  }

  lemma DivisorLess(d: int, x: int)
    requires d > 0 && x > 0 && Divides(d, x)
    ensures d <= x && x == d * (x / d) && x / d >= 1
  {
    MulBound(d, x / d);
  }

  /** Every number from 2 on has a smallest prime divisor. */
  lemma SmallestDivisor(x: int) returns (p: int)
    requires x >= 2
    ensures 2 <= p <= x && IsPrime(p) && Divides(p, x)
    ensures forall d :: 2 <= d < p ==> !Divides(d, x)
  {
    p := 2;
    while !Divides(p, x)
      invariant 2 <= p <= x && forall d :: 2 <= d < p ==> !Divides(d, x)
      decreases x - p
    {
      p := p + 1;
    }
    forall d | 2 <= d < p ensures !Divides(d, p) {
      if Divides(d, p) { DividesTransitive(d, p, x); }
    }
  }

  // ------------------------------------------------------------------ infinitely many primes

  function Factorial(n: nat): (f: nat)
    ensures f >= 1
  {
    if n == 0 then 1 else n * Factorial(n - 1)
  }

  lemma {:induction false} DividesFactorial(d: int, n: nat)
    requires 1 <= d <= n
    ensures Divides(d, Factorial(n))
    decreases n
  {
    if d == n {
      DivideMul(n, Factorial(n - 1));
    } else {
      DividesFactorial(d, n - 1);
      var q := Factorial(n - 1) / d;
      assert Factorial(n) == d * (n * q);
      DivideMul(d, n * q);
    }
  }

  /** There is a prime beyond every number. */
  lemma PrimeBeyond(n: nat) returns (p: int)
    ensures p > n && IsPrime(p)
  {
    var x := Factorial(n) + 1;
    p := SmallestDivisor(x);
    if p <= n {
      DividesFactorial(p, n);
      Remainder(x, p, Factorial(n) / p, 1);
    }
  }

  // ------------------------------------------------------------------ isprime

  /** A number with no divisor from 2 up to its square root is prime. */
  lemma NoSmallDivisor(x: int, bound: int)
    requires x >= 2 && bound >= 1 && x < bound * bound
    requires forall d :: 2 <= d < bound ==> !Divides(d, x)
    ensures IsPrime(x)
  {
    forall d | 2 <= d < x ensures !Divides(d, x) {
      if Divides(d, x) {
        DivisorLess(d, x);
        CoDivisor(x, d, x / d, bound);
      }
    }
  }

  /** Of two factors one is below any bound whose square is above the product. */
  lemma CoDivisor(x: int, d: int, e: int, bound: int)
    requires 2 <= d < x && x == d * e && x < bound * bound && bound >= 1
    ensures e >= 2 && Divides(e, x) && (d < bound || e < bound)
  {
    assert d * 1 == d;
    MulBound(d, e);
    MulBound(d, e - 1);
    assert x == e * d;
    DivideMul(e, d);
    if d >= bound && e >= bound { MulMono(bound, d, bound, e); }
  }

  lemma MulMono(a: int, b: int, c: int, d: int)
    requires 0 <= a <= b && 0 <= c <= d
    ensures a * c <= b * d
  {
    assert a * c <= b * c;
    assert b * c <= b * d;
  }

  /** The quick list settles every divisor up to 37. */
  lemma QuickDivisor(d: int) returns (j: nat)
    requires 2 <= d <= 37
    ensures j < |QUICK| && Divides(QUICK[j], d)
  {
    if d % 2 == 0 { j := 0; }
    else if d % 3 == 0 { j := 1; }
    else if d % 5 == 0 { j := 2; }
    else {
      j := if d == 7 then 3 else if d == 11 then 4 else if d == 13 then 5 else if d == 17 then 6 else if d == 19 then 7
        else if d == 23 then 8 else if d == 29 then 9 else if d == 31 then 10 else 11;
    }
  }

  ghost predicate NoQuick(x: int) { forall j :: 0 <= j < |QUICK| ==> !Divides(QUICK[j], x) }

  /** The odd numbers from 37 up to `stop` are tried; `stop` is twice the approximate root, rounded down from `prev`. */
  lemma TrialEnough(x: int, prev: int, root: int)
    requires x >= 2 && NoQuick(x) && root == prev / 2 && prev >= 2 && x < prev * prev
    requires NoOdd(x, 2 * root)
    ensures IsPrime(x)
  {
    forall d | 2 <= d < prev ensures !Divides(d, x) {
      if d <= 37 {
        var j := QuickDivisor(d);
        if Divides(d, x) { DividesTransitive(QUICK[j], d, x); }
      } else if d % 2 == 0 {
        assert !Divides(QUICK[0], x);
        if Divides(d, x) { DividesTransitive(2, d, x); }
      } else {
        assert d < 2 * root;
      }
    }
    NoSmallDivisor(x, prev);
  }

  lemma DivLess(x: int, p: int)
    requires x >= 1 && p >= 1
    ensures x / p < p <==> x < p * p
  {
    assert x == p * (x / p) + x % p;
    if x / p < p { MulMono(p, p, x / p, p - 1); }
    else { MulMono(p, p, p, x / p); }
  }

  /** isprime(): true exactly for the primes above 37 (and for 1). */
  method Isprime(x: int) returns (r: bool)
    requires x >= 1
    ensures r <==> x == 1 || (IsPrime(x) && x > 37)
  {
    hide Divides, IsPrime;
    var quick := TryQuick(x);
    if !quick {
      QuickNotPrime(x);
      return false;
    }
    var stop, prev := ApproximateRoot(x);
    ghost var root := stop;
    stop := 2 * stop;
    r := TryOdd(x, stop);
    if x == 1 { SmallRoot(root); }
    if r && x >= 2 {
      TrialEnough(x, prev, root);
      NotQuick(x);
    } else if !r {
      OddNotPrime(x, root);
    }
  }

  /** The first loop of isprime(): hit the first few primes quickly. */
  method TryQuick(x: int) returns (none: bool)
    requires x >= 1
    ensures none <==> NoQuick(x)
  {
    var ip := 0;
    while ip < |QUICK|
      invariant 0 <= ip <= |QUICK| && forall j :: 0 <= j < ip ==> !Divides(QUICK[j], x)
    {
      if x % QUICK[ip] == 0 {
        assert Divides(QUICK[ip], x);
        return false;
      }
      ip := ip + 1;
    }
    none := true;
  }

  ghost predicate NoOdd(x: int, stop: int) { forall d :: 37 <= d < stop && d % 2 == 1 ==> !Divides(d, x) }

  /** Its last loop: try odd numbers up to stop. */
  method TryOdd(x: int, stop: int) returns (none: bool)
    requires x >= 1
    ensures none <==> NoOdd(x, stop)
  {
    var div := 37;
    while div < stop
      invariant div >= 37 && div % 2 == 1 && NoOdd(x, div)
      decreases stop - div
    {
      if x % div == 0 {
        assert Divides(div, x);
        return false;
      }
      div := div + 2;
    }
    none := true;
  }

  lemma QuickNotPrime(x: int)
    requires x >= 1 && !NoQuick(x)
    ensures x > 1 && !(IsPrime(x) && x > 37)
  {
  }

  lemma OddNotPrime(x: int, root: int)
    requires x >= 1 && root >= 1 && root * root <= x && !NoOdd(x, 2 * root)
    ensures !IsPrime(x) && x > 1
  {
    var d :| 37 <= d < 2 * root && d % 2 == 1 && Divides(d, x);
    MulMono(2, root, root, root);
    MulMono(19, root, 19, root);
  }

  lemma SmallRoot(root: int)
    requires root >= 1 && root * root <= 1
    ensures NoOdd(1, 2 * root)
  {
    MulMono(1, root, root, root);
  }

  lemma NotQuick(x: int)
    requires x >= 2 && NoQuick(x)
    ensures x > 37
  {
    if x <= 37 { var j := QuickDivisor(x); }
  }

  /** The halving loop of isprime(): an approximation of the root from below. */
  method ApproximateRoot(x: int) returns (stop: int, ghost prev: int)
    requires x >= 1
    ensures stop >= 1 && stop * stop <= x
    ensures x >= 2 ==> stop == prev / 2 && x < prev * prev && prev >= 2
  {
    stop, prev := x, x;
    while x / stop < stop
      invariant 1 <= stop <= prev
      invariant stop == prev == x || (stop == prev / 2 && x < prev * prev && prev >= 2)
      decreases stop
    {
      DivLess(x, stop);
      prev := stop;
      stop := stop / 2;
    }
    DivLess(x, stop);
  }

  lemma OddPrime(p: int)
    requires IsPrime(p) && p > 37
    ensures p % 2 == 1 && p % 3 != 0
  {
    assert !Divides(2, p) && !Divides(3, p);
  }

  /** No prime above 37 lies between `start` and n. */
  ghost predicate NoneBefore(start: int, n: int) {
    forall p :: IsPrime(p) && p > 37 && p >= start ==> p >= n
  }

  lemma NoneBeforeOdd(start: int)
    ensures NoneBefore(start, if start % 2 == 0 then start + 1 else start)
  {
    forall p | IsPrime(p) && p > 37 && p >= start ensures p >= if start % 2 == 0 then start + 1 else start {
      OddPrime(p);
    }
  }

  lemma NoneBeforeNext(start: int, n: int)
    requires NoneBefore(start, n) && n % 2 == 1 && !(IsPrime(n) && n > 37)
    ensures NoneBefore(start, n + 2)
  {
    forall p | IsPrime(p) && p > 37 && p >= start ensures p >= n + 2 {
      OddPrime(p);
    }
  }

  /** dbzsize(): the least prime above 37 that keeps the table at most two thirds full. */
  method DbzSize(contents: int) returns (r: int)
    ensures contents <= 0 ==> r == 120011
    ensures contents == 1 ==> r == 1
    ensures contents >= 2 ==> IsPrime(r) && r > 37 && r >= 3 * (contents / 2) && 3 * contents <= 2 * r + 1
    ensures contents >= 2 ==> forall p :: IsPrime(p) && p > 37 && p >= 3 * (contents / 2) ==> p >= r
  {
    hide IsPrime, NoneBefore;
    if contents <= 0 { return DEFSIZE; }
    var n; ghost var start;
    n, start := TentativeSize(contents);
    NoneBeforeOdd(start);
    r := NextPrime(start, n);
    TwoThirdsFull(contents, start, n, r);
    NoneBeforeAll(start, r);
  }

  /** dbzsize() up to its loop. */
  method TentativeSize(contents: int) returns (n: int, ghost start: int)
    requires contents >= 1
    ensures start == (contents / 2) * 3 && n == (if start % 2 == 0 then start + 1 else start) && n >= 1 && n % 2 == 1
  {
    n := (contents / 2) * 3;
    start := n;
    if n % 2 == 0 {
      n := n + 1;
    }
  }

  lemma NoneBeforeAll(start: int, n: int)
    requires NoneBefore(start, n)
    ensures forall p :: IsPrime(p) && p > 37 && p >= start ==> p >= n
  {
  }

  /** A size no less than the tentative one, which is a multiple of 3 and so not prime, leaves a third of the table
      free. */
  lemma TwoThirdsFull(contents: int, start: int, n: int, r: int)
    requires contents >= 1 && start == (contents / 2) * 3 && n == (if start % 2 == 0 then start + 1 else start)
    requires r >= n && (r == 1 || (IsPrime(r) && r > 37))
    ensures contents == 1 <==> n == 1
    ensures contents >= 2 ==> r >= start && 3 * contents <= 2 * r + 1
  {
    hide IsPrime;
    if r != 1 { OddPrime(r); }
    ThreeTimes(contents / 2);
    assert r != 1 ==> r >= start + 1;
  }

  lemma ThreeTimes(half: int)
    ensures (half * 3) % 3 == 0
  {
  }

  /** The last loop of dbzsize(). */
  method NextPrime(ghost start: int, tentative: int) returns (n: int)
    requires tentative >= 1 && tentative % 2 == 1 && NoneBefore(start, tentative)
    ensures n >= tentative && NoneBefore(start, n)
    ensures n == 1 || (IsPrime(n) && n > 37)
    ensures tentative == 1 ==> n == 1
  {
    hide IsPrime, NoneBefore;
    n := tentative;
    ghost var limit := PrimeBeyond(n + 37);
    OddPrime(limit);
    var found := Isprime(n);
    while !found
      invariant tentative <= n <= limit && n % 2 == 1 && NoneBefore(start, n)
      invariant found <==> n == 1 || (IsPrime(n) && n > 37)
      invariant tentative == 1 ==> n == 1
      decreases limit - n
    {
      NoneBeforeNext(start, n);
      n := n + 2;
      found := Isprime(n);
    }
  }
}
