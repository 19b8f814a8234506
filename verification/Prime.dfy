/** `JudgePrime`: from `num` upwards, the first odd number that no odd trial divisor up to
    its square root divides. The outer loop has no bound of its own; that it ends is the
    infinitude of primes.
 */
module Prime {
  predicate Divides(d: int, n: int)
    requires d > 0
  {
    n % d == 0
  }

  ghost predicate IsPrime(n: int) {
    n >= 2 && forall d :: 2 <= d < n ==> !Divides(d, n)
  }

  ghost predicate IsLeastPrime(p: int, num: int) {
    IsPrime(p) && p >= num && forall q :: num <= q < p ==> !IsPrime(q)
  }

  // ---------- Divisibility ----------

  lemma {:induction false} Quotient(d: int, n: int) returns (k: int)
    requires d > 0 && Divides(d, n)
    ensures n == d * k
  {
    k := n / d;
  }

  lemma MultipleIsFar(d: int, x: int)
    requires d > 0
    ensures x >= 1 ==> d * x >= d
    ensures x <= -1 ==> d * x <= -d
  {
  }

  lemma {:induction false} Multiple(d: int, k: int)
    requires d > 0
    ensures Divides(d, d * k)
  {
    var n := d * k;
    var q, r := n / d, n % d;
    assert n == d * q + r && 0 <= r < d;
    assert d * (k - q) == r;
    MultipleIsFar(d, k - q);
  }

  lemma {:induction false} DividesTransitive(a: int, b: int, n: int)
    requires a > 0 && b > 0 && Divides(a, b) && Divides(b, n)
    ensures Divides(a, n)
  {
    var i := Quotient(a, b);
    var j := Quotient(b, n);
    assert n == a * (i * j);
    Multiple(a, i * j);
  }

  lemma {:induction false} DividesDifference(d: int, m: int, n: int)
    requires d > 0 && Divides(d, m) && Divides(d, n)
    ensures Divides(d, n - m)
  {
    var i := Quotient(d, m);
    var j := Quotient(d, n);
    assert n - m == d * (j - i);
    Multiple(d, j - i);
  }

  /** The least divisor above 1 is prime. */
  lemma {:induction false} PrimeDivisor(n: int, d: int) returns (p: int)
    requires n >= 2 && 2 <= d <= n && Divides(d, n)
    ensures IsPrime(p) && Divides(p, n) && p <= d
    decreases d
  {
    if e :| 2 <= e < d && Divides(e, d) {
      DividesTransitive(e, d, n);
      p := PrimeDivisor(n, e);
    } else {
      p := d;
    }
  }

  // ---------- There is always a next prime ----------

  function Factorial(n: nat): nat {
    if n == 0 then 1 else n * Factorial(n - 1)
  }

  lemma {:induction false} FactorialMultiple(n: nat, d: int)
    requires 1 <= d <= n
    ensures Divides(d, Factorial(n)) && Factorial(n) >= 1
  {
    if n == 1 {
      assert Factorial(1) == 1 * Factorial(0) == 1;
    } else {
      FactorialMultiple(n - 1, if d < n then d else 1);
      var f := Factorial(n - 1);
      assert n * f >= 1;
      if d == n {
        Multiple(n, f);
      } else {
        var k := Quotient(d, f);
        assert n * f == d * (n * k);
        Multiple(d, n * k);
      }
    }
  }

  /** Euclid: a prime divisor of n! + 1 cannot be n or less. */
  lemma {:induction false} PrimeAbove(n: nat) returns (p: int)
    requires n >= 1
    ensures IsPrime(p) && p > n
  {
    FactorialMultiple(n, 1);
    var m := Factorial(n) + 1;
    Multiple(m, 1);
    p := PrimeDivisor(m, m);
    if p <= n {
      FactorialMultiple(n, p);
      DividesDifference(p, Factorial(n), m);
      assert false;
    }
  }

  lemma {:induction false} LeastPrime(num: int) returns (p: int)
    ensures IsLeastPrime(p, num)
  {
    var n: int := if num < 1 then 1 else num;
    p := PrimeAbove(n);
    while exists q :: num <= q < p && IsPrime(q)
      invariant IsPrime(p) && p >= num
      decreases p
    {
      var q :| num <= q < p && IsPrime(q);
      p := q;
    }
  }

  // ---------- Odd trial divisors up to the square root suffice ----------

  /** The integer part of the square root. */
  function Sqrt(n: nat): nat {
    if n == 0 then 0
    else
      var s := Sqrt(n - 1);
      if (s + 1) * (s + 1) <= n then s + 1 else s
  }

  lemma {:induction false} SqrtIsFloor(n: nat)
    ensures Sqrt(n) * Sqrt(n) <= n < (Sqrt(n) + 1) * (Sqrt(n) + 1)
  {
    if n > 0 {
      SqrtIsFloor(n - 1);
      Squares(Sqrt(n - 1) + 1);
    }
  }

  lemma Squares(s: nat)
    ensures (s + 1) * (s + 1) == s * s + 2 * s + 1
    ensures s >= 3 ==> s * s >= 3 * s
  {
  }

  /** No odd number from 3 up to, and not including, `i` divides `n`. */
  ghost predicate NoTrialDivisor(n: int, i: int) {
    forall d :: 3 <= d < i && d % 2 == 1 ==> !Divides(d, n)
  }

  lemma {:induction false} OddTrialSuffices(n: int, s: nat)
    requires n >= 3 && n % 2 == 1 && s * s <= n < (s + 1) * (s + 1) && NoTrialDivisor(n, s + 1)
    ensures IsPrime(n)
  {
    forall d | 2 <= d < n && Divides(d, n) ensures false {
      var k := Quotient(d, n);
      OneFactorIsSmall(n, s, d, k);
      if d <= s {
        OddFactor(n, d, k);
      } else {
        assert n == k * d;
        OddFactor(n, k, d);
      }
    }
  }

  lemma {:induction false} OneFactorIsSmall(n: int, s: nat, d: int, k: int)
    requires n == d * k && n < (s + 1) * (s + 1) && 2 <= d < n
    ensures k >= 2 && (d <= s || k <= s)
  {
    MultipleIsFar(d, k);
    if d > s && k > s { Product(d, k, s + 1); }
  }

  lemma {:induction false} OddFactor(n: int, d: int, k: int)
    requires n == d * k && n % 2 == 1 && d >= 2
    ensures d >= 3 && d % 2 == 1 && Divides(d, n)
  {
    Multiple(d, k);
    if Divides(2, d) { EvenProduct(d, k); }
  }

  lemma {:induction false} EvenProduct(d: int, k: int)
    requires Divides(2, d)
    ensures Divides(2, d * k)
  {
    var h := Quotient(2, d);
    assert d * k == 2 * (h * k);
    Multiple(2, h * k);
  }

  lemma Product(d: int, k: int, t: int)
    requires d >= t >= 0 && k >= t
    ensures d * k >= t * t
  {
  }

  lemma TrialDivisorRefutes(n: int, i: int, s: nat)
    requires 3 <= i <= s && s * s <= n && Divides(i, n)
    ensures !IsPrime(n)
  {
  }

  lemma {:induction false} EvenIsNotPrime(n: int)
    requires n >= 4 && n % 2 == 0
    ensures !IsPrime(n)
  {
    assert Divides(2, n);
  }

  // ---------- The program ----------

  /** What is known of the candidate `base` at the top of the outer loop, when the least
      prime is `p`. */
  ghost predicate Searching(num: nat, base: nat, p: int) {
    && base % 2 == 1
    && (num >= 3 ==> base >= 3 && num <= base <= p && forall q :: num <= q < base ==> !IsPrime(q))
    && (num < 3 ==> base == if num == 2 then 3 else 1)
  }

  lemma {:induction false} FirstCandidate(num: nat, p: int)
    requires IsLeastPrime(p, num)
    ensures Searching(num, if num % 2 == 0 then num + 1 else num, p)
  {
    if num >= 4 && num % 2 == 0 { EvenIsNotPrime(num); }
  }

  /** A trial divisor rules out the candidate, and so the even number after it. */
  lemma {:induction false} NextCandidate(num: nat, base: nat, p: int, i: int)
    requires Searching(num, base, p) && IsLeastPrime(p, num)
    requires 3 <= i <= Sqrt(base) && Divides(i, base)
    ensures num >= 3 && Searching(num, base + 2, p)
  {
    var s := Sqrt(base);
    SqrtIsFloor(base);
    if num < 3 { Squares(s); }
    TrialDivisorRefutes(base, i, s);
    EvenIsNotPrime(base + 1);
  }

  lemma {:induction false} SearchEnds(num: nat, base: nat, p: int)
    requires Searching(num, base, p)
    requires NoTrialDivisor(base, Sqrt(base) + 1)
    ensures IsLeastPrime(base, num) <==> num >= 3
  {
    if num >= 3 {
      SqrtIsFloor(base);
      OddTrialSuffices(base, Sqrt(base));
    } else {
      assert IsPrime(2);
    }
  }

  lemma TrialFails(n: int, i: int)
    requires i >= 3 && i % 2 == 1 && NoTrialDivisor(n, i) && !Divides(i, n)
    ensures NoTrialDivisor(n, i + 2)
  {
  }

  /** The inner loop: the first odd trial divisor up to `s`, or an index past `s`. */
  method TrialDivision(base: nat, s: nat) returns (i: nat)
    ensures i <= s ==> i >= 3 && Divides(i, base)
    ensures i > s ==> NoTrialDivisor(base, s + 1)
  {
    i := 3;
    while i <= s
      invariant 3 <= i && i % 2 == 1 && NoTrialDivisor(base, i)
    {
      if base % i == 0 {
        break;
      }
      TrialFails(base, i);
      i := i + 2;
    }
  }

  /** The result is the least prime not below `num` exactly when `num` is at least 3. */
  method JudgePrime(num: nat) returns (base: nat)
    ensures IsLeastPrime(base, num) <==> num >= 3
    ensures num < 3 ==> base == if num == 2 then 3 else 1
  {
    ghost var p := LeastPrime(num);
    FirstCandidate(num, p);
    base := num;
    if num % 2 == 0 {
      base := base + 1;
    }
    while true
      invariant Searching(num, base, p)
      decreases if num >= 3 then p - base else 0
    {
      var s := Sqrt(base);
      var i := TrialDivision(base, s);
      if i > s {
        break;
      }
      NextCandidate(num, base, p, i);
      base := base + 2;
    }
    SearchEnds(num, base, p);
  }
}
