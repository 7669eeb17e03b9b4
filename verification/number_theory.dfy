/** The number theory behind the toy key pairs: trial-division primality
    (`is_prime`, 3.py:74-85), prime sampling (`generate_prime_number`,
    3.py:87-91) and the extended Euclidean modular inverse (`mod_inverse`,
    3.py:93-99).  Python's `//` and `%` agree with Dafny's on the
    non-negative operands that occur here. */
module NumberTheory {
  import opened Outcomes

  /** `b ** e` for a non-negative exponent. */
  function Pow(b: int, e: nat): int
    decreases e
  {
    if e == 0 then 1 else b * Pow(b, e - 1)
  }

  /** Python's three-argument `pow(b, e, n)` for a positive modulus. */
  function PowMod(b: int, e: nat, n: int): (r: nat)
    requires n >= 1
    ensures r < n
  {
    Pow(b, e) % n
  }

  function Abs(x: int): nat {
    if x < 0 then -x else x
  }

  /** `d` divides `n` (only positive divisors are needed here). */
  predicate Divides(d: int, n: int) {
    d >= 1 && n % d == 0
  }

  /** The mathematical notion of primality the trial division decides. */
  predicate IsPrime(n: int) {
    n >= 2 && forall k :: 2 <= k < n ==> !Divides(k, n)
  }

  /** Greatest common divisor by Euclid's remainder recursion. */
  function Gcd(a: nat, b: nat): nat
    decreases b
  {
    if b == 0 then a else Gcd(b, a % b)
  }

  lemma MulLe(a: int, b: int, c: int)
    requires a >= 0 && b <= c
    ensures a * b <= a * c
  {
  }

  lemma SquareMono(a: nat, b: nat)
    requires a <= b
    ensures a * a <= b * b
  {
    MulLe(a, a, b);
    MulLe(b, a, b);
  }

  lemma SmallMultiple(g: int, t: int)
    requires g >= 1 && -g < g * t < g
    ensures t == 0
  {
  }

  /** Quotient and remainder are the unique `q`, `r` with `x == g * q + r`, `0 <= r < g`. */
  lemma DivModUnique(x: int, g: int, q: int, r: int)
    requires g >= 1 && x == g * q + r && 0 <= r < g
    ensures x / g == q && x % g == r
  {
    var q0, r0 := x / g, x % g;
    assert x == g * q0 + r0;
    assert g * (q - q0) == g * q - g * q0;
    SmallMultiple(g, q - q0);
  }

  lemma MulDivides(g: int, k: int)
    requires g >= 1
    ensures Divides(g, g * k)
  {
    DivModUnique(g * k, g, k, 0);
  }

  /** A common divisor of `x` and `y` divides `q * x + y`. */
  lemma DividesCombination(g: int, q: int, x: int, y: int)
    requires Divides(g, x) && Divides(g, y)
    ensures Divides(g, q * x + y)
  {
    var i, j := x / g, y / g;
    assert x == g * i;
    assert y == g * j;
    assert q * x + y == g * (q * i + j);
    MulDivides(g, q * i + j);
  }

  /** `Gcd(a, b)` is a positive common divisor of `a` and `b`. */
  lemma {:induction false} GcdDivides(a: nat, b: nat)
    requires a > 0 || b > 0
    ensures Gcd(a, b) >= 1
    ensures Divides(Gcd(a, b), a) && Divides(Gcd(a, b), b)
    decreases b
  {
    if b == 0 {
      DivModUnique(a, a, 1, 0);
      DivModUnique(0, a, 0, 0);
    } else {
      GcdDivides(b, a % b);
      var g := Gcd(b, a % b);
      DividesCombination(g, a / b, b, a % b);
      assert (a / b) * b + a % b == a;
    }
  }

  /** Every common divisor of `a` and `b` divides `Gcd(a, b)`: it is the greatest one. */
  lemma {:induction false} GcdGreatest(a: nat, b: nat, d: int)
    requires Divides(d, a) && Divides(d, b)
    ensures Divides(d, Gcd(a, b))
    decreases b
  {
    if b > 0 {
      DividesCombination(d, -(a / b), b, a);
      assert -(a / b) * b + a == a % b;
      GcdGreatest(b, a % b, d);
    }
  }

  lemma {:induction false} GcdWithOne(m: nat)
    ensures Gcd(1, m) == 1
  {
    if m >= 2 {
      assert Gcd(1, m) == Gcd(m, 1);
      assert Gcd(m, 1) == Gcd(1, 0);
    }
  }

  /** `isqrt(n)`, found by bisection; stands in for `int(n**0.5)`. */
  function IsqrtIn(n: nat, lo: nat, hi: nat): (r: nat)
    requires lo < hi
    requires lo * lo <= n < hi * hi
    ensures r * r <= n < (r + 1) * (r + 1)
    decreases hi - lo
  {
    if lo + 1 == hi then lo
    else
      var mid := (lo + hi) / 2;
      if mid * mid <= n then IsqrtIn(n, mid, hi) else IsqrtIn(n, lo, mid)
  }

  function Isqrt(n: nat): (r: nat)
    ensures r * r <= n < (r + 1) * (r + 1)
  {
    assert n < (n + 1) * (n + 1);
    IsqrtIn(n, 0, n + 1)
  }

  /** `k` lies in `range(3, Isqrt(n) + 1)` exactly when `3 <= k` and `k * k <= n`. */
  lemma IsqrtBound(n: nat, k: nat)
    ensures k <= Isqrt(n) <==> k * k <= n
  {
    var r := Isqrt(n);
    if k <= r {
      SquareMono(k, r);
    } else {
      SquareMono(r + 1, k);
    }
  }

  /** The loop `for d in range(d, limit, 2): if n % d == 0: return False`,
      true when it runs to completion. */
  function NoOddDivisor(n: int, d: int, limit: int): bool
    requires d >= 1
    decreases limit - d
  {
    if d >= limit then true else n % d != 0 && NoOddDivisor(n, d + 2, limit)
  }

  /** `is_prime(n)`, with `int(n**0.5)` computed exactly.  It decides
      primality: false below 2, true for 2, false for larger even numbers,
      and for odd `n >= 3` the trial division up to `isqrt(n)`. */
  function IsPrimeTrial(n: int): (r: bool)
    ensures r <==> IsPrime(n)
  {
    if n <= 1 then false
    else if n == 2 then true
    else if n % 2 == 0 then
      assert Divides(2, n);
      false
    else
      OddTrialCorrect(n);
      NoOddDivisor(n, 3, Isqrt(n) + 1)
  }

  /** `k` is among the values `range(d, limit, 2)` visits. */
  predicate Visited(k: int, d: int, limit: int) {
    d <= k < limit && (k - d) % 2 == 0
  }

  /** The loop finds no divisor exactly when none of the candidates it visits divides `n`. */
  lemma {:induction false} NoOddDivisorMeaning(n: int, d: int, limit: int)
    requires d >= 1
    ensures NoOddDivisor(n, d, limit) <==> forall k :: Visited(k, d, limit) ==> !Divides(k, n)
    decreases limit - d
  {
    if d < limit {
      NoOddDivisorMeaning(n, d + 2, limit);
      assert Visited(d, d, limit);
      forall k | Visited(k, d, limit) && k != d
        ensures Visited(k, d + 2, limit)
      {
      }
      forall k | Visited(k, d + 2, limit)
        ensures Visited(k, d, limit)
      {
      }
    }
  }

  lemma EvenProduct(s: int, t: int)
    requires s % 2 == 0
    ensures (s * t) % 2 == 0
  {
    var j := s / 2;
    assert s * t == 2 * (j * t);
    DivModUnique(s * t, 2, j * t, 0);
  }

  /** The cofactor of a divisor is a divisor too. */
  lemma Cofactor(n: int, k: int)
    requires n >= 1 && Divides(k, n)
    ensures n == k * (n / k) && n / k >= 1 && Divides(n / k, n)
  {
    var m := n / k;
    assert n == k * m;
    if m <= 0 {
      MulLe(k, m, 0);
    }
    DivModUnique(n, m, k, 0);
  }

  /** An odd number with a proper divisor has an odd divisor `s >= 3` with `s * s <= n`. */
  lemma SmallOddDivisor(n: int, k: int) returns (s: int)
    requires n >= 3 && n % 2 == 1
    requires 2 <= k < n && Divides(k, n)
    ensures 3 <= s && s % 2 == 1 && s * s <= n && Divides(s, n)
  {
    Cofactor(n, k);
    var m := n / k;
    if k * k <= n {
      s := k;
    } else {
      if k <= m {
        MulLe(k, k, m);
      }
      MulLe(m, m, k);
      assert m * k == k * m;
      s := m;
    }
    Cofactor(n, s);
    if s % 2 == 0 {
      EvenProduct(s, n / s);
      assert false;
    }
  }

  lemma OddFromThree(s: int)
    requires s % 2 == 1
    ensures (s - 3) % 2 == 0
  {
    DivModUnique(s - 3, 2, s / 2 - 1, 0);
  }

  /** Every candidate the loop of `is_prime` visits is a proper divisor candidate. */
  lemma VisitedIsProper(n: int, k: int)
    requires n > 2 && Visited(k, 3, Isqrt(n) + 1)
    ensures 2 <= k < n
  {
    IsqrtBound(n, k);
    MulLe(k, 3, k);
  }

  lemma PrimeHasNoOddDivisor(n: int)
    requires n > 2 && n % 2 == 1 && IsPrime(n)
    ensures NoOddDivisor(n, 3, Isqrt(n) + 1)
  {
    var r := Isqrt(n);
    NoOddDivisorMeaning(n, 3, r + 1);
    forall k | Visited(k, 3, r + 1)
      ensures !Divides(k, n)
    {
      VisitedIsProper(n, k);
    }
  }

  lemma NoOddDivisorMeansPrime(n: int)
    requires n > 2 && n % 2 == 1 && NoOddDivisor(n, 3, Isqrt(n) + 1)
    ensures IsPrime(n)
  {
    var r := Isqrt(n);
    NoOddDivisorMeaning(n, 3, r + 1);
    if !IsPrime(n) {
      var k :| 2 <= k < n && Divides(k, n);
      var s := SmallOddDivisor(n, k);
      IsqrtBound(n, s);
      OddFromThree(s);
      assert Visited(s, 3, r + 1);
    }
  }

  /** For odd `n >= 3`, no odd `d` with `3 <= d <= isqrt(n)` divides `n`
      exactly when `n` is prime. */
  lemma OddTrialCorrect(n: int)
    requires n > 2 && n % 2 == 1
    ensures NoOddDivisor(n, 3, Isqrt(n) + 1) <==> IsPrime(n)
  {
    if IsPrime(n) {
      PrimeHasNoOddDivisor(n);
    } else if NoOddDivisor(n, 3, Isqrt(n) + 1) {
      NoOddDivisorMeansPrime(n);
    }
  }

  /** The public exponent 65537 is prime: trial division by the odd numbers
      up to isqrt(65537) = 256, evaluated by the verifier in stages. */
  lemma Prime65537()
    ensures IsPrime(65537)
  {
    var r := Isqrt(65537);
    if r < 256 {
      SquareMono(r + 1, 256);
    } else if r > 256 {
      SquareMono(257, r);
    }
    assert NoOddDivisor(65537, 243, 257);
    assert NoOddDivisor(65537, 231, 257);
    assert NoOddDivisor(65537, 219, 257);
    assert NoOddDivisor(65537, 207, 257);
    assert NoOddDivisor(65537, 195, 257);
    assert NoOddDivisor(65537, 183, 257);
    assert NoOddDivisor(65537, 171, 257);
    assert NoOddDivisor(65537, 159, 257);
    assert NoOddDivisor(65537, 147, 257);
    assert NoOddDivisor(65537, 135, 257);
    assert NoOddDivisor(65537, 123, 257);
    assert NoOddDivisor(65537, 111, 257);
    assert NoOddDivisor(65537, 99, 257);
    assert NoOddDivisor(65537, 87, 257);
    assert NoOddDivisor(65537, 75, 257);
    assert NoOddDivisor(65537, 63, 257);
    assert NoOddDivisor(65537, 51, 257);
    assert NoOddDivisor(65537, 39, 257);
    assert NoOddDivisor(65537, 27, 257);
    assert NoOddDivisor(65537, 15, 257);
    assert NoOddDivisor(65537, 3, 257);
    assert IsPrimeTrial(65537);
  }

  /** `generate_prime_number()`: draw from `random.randint(2, 100)` until
      `is_prime` accepts.  The draws are passed in; `None` means the given
      draws ran out before a prime came up (Python would keep drawing). */
  method GeneratePrime(draws: seq<int>) returns (p: Option<int>)
    requires forall i :: 0 <= i < |draws| ==> 2 <= draws[i] <= 100
    ensures p.None? <==> forall i :: 0 <= i < |draws| ==> !IsPrime(draws[i])
    ensures p.Some? ==> 2 <= p.value <= 100 && IsPrime(p.value)
    ensures p.Some? ==> exists i :: 0 <= i < |draws| && draws[i] == p.value
                                 && forall j :: 0 <= j < i ==> !IsPrime(draws[j])
  {
    var i := 0;
    while i < |draws|
      invariant 0 <= i <= |draws|
      invariant forall j :: 0 <= j < i ==> !IsPrime(draws[j])
    {
      if IsPrimeTrial(draws[i]) {
        return Some(draws[i]);
      }
      i := i + 1;
    }
    return None;
  }

  lemma NonNegMul(a: int, b: int)
    requires a >= 0 && b >= 0
    ensures a * b >= 0
  {
  }

  lemma Distrib(p: int, t: int, a: int, m: int, q: int)
    ensures p * (a - q * m) + (t + q * p) * m == p * a + t * m
  {
  }

  /** x0 and x1 never have the same strict sign. */
  predicate Opposite(x0: int, x1: int) {
    (x0 >= 0 && x1 <= 0) || (x0 <= 0 && x1 >= 0)
  }

  /** One round of `mod_inverse`'s loop keeps the coefficient bound
      `|x1| * m + |x0| * a == m0` and the alternating signs of x0, x1. */
  lemma EuclidStep(m0: int, a: int, m: int, x0: int, x1: int)
    requires m >= 1 && a >= 2
    requires Abs(x1) * m + Abs(x0) * a == m0
    requires Opposite(x0, x1)
    ensures Abs(x0) * (a % m) + Abs(x1 - (a / m) * x0) * m == m0
    ensures Opposite(x1 - (a / m) * x0, x0)
    ensures 2 * Abs(x0) <= m0
  {
    var q := a / m;
    var p, t := Abs(x0), Abs(x1);
    assert q >= 0;
    NonNegMul(q, p);
    if x0 >= 0 {
      assert q * x0 == q * p;
    } else {
      assert q * x0 == -(q * p);
    }
    assert Abs(x1 - q * x0) == t + q * p;
    assert a % m == a - q * m;
    Distrib(p, t, a, m, q);
    MulLe(p, 2, a);
    NonNegMul(t, m);
  }

  /** One round keeps `x * a == value + k * m0` for both coefficient pairs. */
  lemma CongruenceStep(a: int, m0: int, u: int, v: int, x0: int, x1: int, k0: int, k1: int, q: int)
    requires x1 * a == u + k1 * m0 && x0 * a == v + k0 * m0
    ensures (x1 - q * x0) * a == (u - q * v) + (k1 - q * k0) * m0
  {
  }

  lemma DivisionRemainder(u: int, v: int)
    requires v >= 1
    ensures u - (u / v) * v == u % v
  {
  }

  lemma RemainderOne(y: int, k: int, m: int)
    requires m >= 1 && y == 1 + k * m
    ensures y % m == 1 % m
  {
    if m == 1 {
      DivModUnique(y, 1, y, 0);
    } else {
      DivModUnique(y, m, k, 1);
    }
  }

  /** What `mod_inverse`'s loop keeps: the pair (u, v) has the gcd of the
      inputs, x1 and x0 are the coefficients of `a` in u and v modulo m0,
      their sizes are bounded by m0, and after the first round |x1| <= m0 / 2. */
  ghost predicate EuclidInv(a: int, m0: int, u: int, v: int, x0: int, x1: int,
                            k0: int, k1: int, stepped: bool)
  {
    && u >= 0 && v >= 0 && a >= 0 && m0 >= 1
    && Gcd(u, v) == Gcd(a, m0)
    && x1 * a == u + k1 * m0
    && x0 * a == v + k0 * m0
    && Abs(x1) * v + Abs(x0) * u == m0
    && Opposite(x0, x1)
    && (stepped ==> a > 1 && u >= 1 && 2 * Abs(x1) <= m0)
    && (!stepped ==> u == a && x1 == 1)
  }

  lemma EuclidInvStep(a: int, m0: int, u: int, v: int, x0: int, x1: int,
                      k0: int, k1: int, stepped: bool)
    requires EuclidInv(a, m0, u, v, x0, x1, k0, k1, stepped)
    requires u > 1 && v >= 1
    ensures EuclidInv(a, m0, v, u % v, x1 - (u / v) * x0, x0, k1 - (u / v) * k0, k0, true)
  {
    var q := u / v;
    EuclidStep(m0, u, v, x0, x1);
    CongruenceStep(a, m0, u, v, x0, x1, k0, k1, q);
    DivisionRemainder(u, v);
  }

  /** Bringing a coefficient with `2 * |x1| <= m0` into `[0, m0)` keeps it an inverse. */
  lemma NormalizeInverse(a: int, m0: int, x1: int, k1: int)
    requires m0 >= 1 && x1 * a == 1 + k1 * m0 && 2 * Abs(x1) <= m0
    ensures var x := if x1 < 0 then x1 + m0 else x1;
            0 <= x < m0 && (a * x) % m0 == 1 % m0
  {
    if x1 < 0 {
      var x := x1 + m0;
      assert a * x == a * x1 + a * m0;
      assert a * x == 1 + (k1 + a) * m0;
      RemainderOne(a * x, k1 + a, m0);
    } else {
      RemainderOne(a * x1, k1, m0);
    }
  }

  lemma EuclidInvExit(a: int, m0: int, u: int, v: int, x0: int, x1: int, k0: int, k1: int)
    requires EuclidInv(a, m0, u, v, x0, x1, k0, k1, true) && u <= 1
    ensures a > 1 && Gcd(a, m0) == 1
    ensures var x := if x1 < 0 then x1 + m0 else x1;
            0 <= x < m0 && (a * x) % m0 == 1 % m0
  {
    assert u == 1;
    GcdWithOne(v);
    NormalizeInverse(a, m0, x1, k1);
  }

  /** `mod_inverse(a, m)`, the extended Euclidean algorithm.  When `a > 1`
      and `gcd(a, m) != 1` the loop reaches `a // 0` and raises; otherwise
      `a * x == 1 (mod m)` with `0 <= x < m`.  For `a <= 1` the loop does not
      run and the answer is 1. */
  method ModInverse(a: int, m: int) returns (r: Result<int>)
    requires a >= 0 && m >= 1
    ensures r.Failure? <==> a > 1 && Gcd(a, m) != 1
    ensures r.Failure? ==> r.error == DivisionByZero
    ensures a <= 1 ==> r == Success(1)
    ensures a > 1 && r.Success? ==> 0 <= r.value < m && (a * r.value) % m == 1 % m
  {
    var m0 := m;
    var u, v, x0, x1 := a, m, 0, 1;
    ghost var k0, k1 := -1, 0;
    ghost var stepped := false;
    while u > 1
      invariant EuclidInv(a, m0, u, v, x0, x1, k0, k1, stepped)
      decreases v
    {
      if v == 0 {
        return Failure(DivisionByZero);
      }
      var q := u / v;
      EuclidInvStep(a, m0, u, v, x0, x1, k0, k1, stepped);
      v, u := u % v, v;
      x0, x1 := x1 - q * x0, x0;
      k0, k1 := k1 - q * k0, k0;
      stepped := true;
    }
    if stepped {
      EuclidInvExit(a, m0, u, v, x0, x1, k0, k1);
    }
    r := Success(if x1 < 0 then x1 + m0 else x1);
  }
}
