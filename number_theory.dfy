/** The mathematical reference definitions the kernel is proved against:
    divisibility, the greatest common divisor, Bezout coefficients, powers,
    primality and products, with the facts about them that the proofs use.
    Everything here is over unbounded integers. */
module NumberTheory {

  /** Absolute value. */
  function Abs(x: int): nat {
    if x < 0 then -x else x
  }

  // ---------------------------------------------------------------------------
  // Euclidean division

  /** Sign facts about a product with a non-negative factor. */
  lemma MulSigns(a: int, b: int)
    requires b >= 0
    ensures a >= 0 ==> a * b >= 0
    ensures a >= 1 ==> a * b >= b
    ensures a <= -1 ==> a * b <= -b
  {
    if a >= 1 {
      assert a * b == b + (a - 1) * b;
    } else if a <= -1 {
      assert a * b == -b + (a + 1) * b;
      assert (-(a + 1)) * b >= 0;
    }
  }

  /** Division with remainder is unique. */
  lemma DivModUnique(x: int, d: int, q: int, r: int)
    requires d > 0 && 0 <= r < d && x == q * d + r
    ensures x % d == r && x / d == q
  {
    var q', r' := x / d, x % d;
    assert (q - q') * d == r' - r;
    MulSigns(q - q', d);
  }

  lemma ModAddMultiple(x: int, k: int, d: int)
    requires d > 0
    ensures (x + k * d) % d == x % d
    ensures (x + d * k) % d == x % d
  {
    assert x + k * d == (x / d + k) * d + x % d;
    DivModUnique(x + k * d, d, x / d + k, x % d);
  }

  lemma ModAdd(a: int, b: int, d: int)
    requires d > 0
    ensures (a + b) % d == (a % d + b % d) % d
    ensures (a + b) % d == (a % d + b) % d
  {
    assert a + b == (a % d + b % d) + (a / d + b / d) * d;
    ModAddMultiple(a % d + b % d, a / d + b / d, d);
    assert a + b == (a % d + b) + (a / d) * d;
    ModAddMultiple(a % d + b, a / d, d);
  }

  lemma ModSub(a: int, b: int, d: int)
    requires d > 0
    ensures (a - b) % d == (a % d - b % d) % d
  {
    var qa, ra, qb, rb := a / d, a % d, b / d, b % d;
    assert a == qa * d + ra && b == qb * d + rb;
    Distribute(qa, qb, d);
    ModAddMultiple(ra - rb, qa - qb, d);
  }

  lemma Distribute(x: int, y: int, d: int)
    ensures x * d - y * d == (x - y) * d
  {
  }

  lemma ModMulLeft(a: int, b: int, d: int)
    requires d > 0
    ensures (a * b) % d == ((a % d) * b) % d
  {
    var q := a / d;
    assert a == q * d + a % d;
    assert a * b == (a % d) * b + (q * b) * d;
    ModAddMultiple((a % d) * b, q * b, d);
  }

  lemma ModMul(a: int, b: int, d: int)
    requires d > 0
    ensures (a * b) % d == ((a % d) * (b % d)) % d
  {
    ModMulLeft(a, b, d);
    ModMulLeft(b, a % d, d);
    assert b * (a % d) == (a % d) * b;
    assert (b % d) * (a % d) == (a % d) * (b % d);
  }

  lemma ModOfMod(a: int, d: int)
    requires d > 0
    ensures (a % d) % d == a % d
  {
    DivModUnique(a % d, d, 0, a % d);
  }

  /** Congruent values have a difference divisible by the modulus, and conversely. */
  lemma CongruentIffDifference(a: int, b: int, d: int)
    requires d > 0
    ensures a % d == b % d <==> (a - b) % d == 0
  {
    ModSub(a, b, d);
    ResidueGap(a % d, b % d, d);
  }

  /** Two residues below `d` are equal exactly when their difference is a multiple of `d`. */
  lemma ResidueGap(ra: int, rb: int, d: int)
    requires d > 0 && 0 <= ra < d && 0 <= rb < d
    ensures ra == rb <==> (ra - rb) % d == 0
  {
    if ra > rb {
      DivModUnique(ra - rb, d, 0, ra - rb);
    } else if ra < rb {
      DivModUnique(ra - rb, d, -1, ra - rb + d);
    }
  }

  // ---------------------------------------------------------------------------
  // Divisibility

  /** `d` divides `n`; zero divides only zero. */
  predicate Divides(d: nat, n: int) {
    if d == 0 then n == 0 else n % d == 0
  }

  lemma DividesSelf(d: nat)
    ensures Divides(d, d) && Divides(d, 0)
  {
    if d > 0 {
      DivModUnique(d, d, 1, 0);
      DivModUnique(0, d, 0, 0);
    }
  }

  lemma DividesMultiple(d: nat, k: int)
    ensures Divides(d, d * k) && Divides(d, k * d)
  {
    if d > 0 {
      ModAddMultiple(0, k, d);
    }
  }

  /** A divisor of a positive number gives an exact quotient. */
  lemma DividesQuotient(d: nat, n: int)
    requires Divides(d, n) && d > 0
    ensures n == d * (n / d)
  {
  }

  lemma DividesLinear(d: nat, x: int, y: int, p: int, q: int)
    requires Divides(d, x) && Divides(d, y)
    ensures Divides(d, p * x + q * y)
  {
    if d > 0 {
      var kx, ky := x / d, y / d;
      assert x == d * kx && y == d * ky;
      assert p * x + q * y == (p * kx + q * ky) * d;
      ModAddMultiple(0, p * kx + q * ky, d);
    }
  }

  lemma DividesProduct(d: nat, n: int, k: int)
    requires Divides(d, n)
    ensures Divides(d, n * k)
  {
    DividesLinear(d, n, n, k, 0);
    assert k * n + 0 * n == n * k;
  }

  lemma DividesTransitive(a: nat, b: nat, c: int)
    requires Divides(a, b) && Divides(b, c)
    ensures Divides(a, c)
  {
    if b > 0 {
      var k := c / b;
      assert c == b * k;
      DividesLinear(a, b, 0, k, 0);
    }
  }

  /** A positive multiple of `d` is at least `d`. */
  lemma DividesBound(d: nat, n: int)
    requires Divides(d, n) && n > 0
    ensures 0 < d <= n
  {
    var k := n / d;
    assert n == k * d;
    MulSigns(k, d);
    MulSigns(-k, d);
  }

  lemma DividesAntisymmetric(a: nat, b: nat)
    requires Divides(a, b) && Divides(b, a)
    ensures a == b
  {
    if a > 0 && b > 0 {
      DividesBound(a, b);
      DividesBound(b, a);
    }
  }

  /** Cancelling a common positive factor. */
  lemma DividesCancel(g: nat, b: nat, c: int)
    requires g > 0 && Divides(g * b, g * c)
    ensures Divides(b, c)
  {
    if b == 0 {
      assert g * c == 0;
    } else {
      var k := (g * c) / (g * b);
      assert g * c == (g * b) * k;
      assert g * (c - b * k) == 0;
      assert c == b * k;
      DividesMultiple(b, k);
    }
  }

  // ---------------------------------------------------------------------------
  // Greatest common divisor

  /** Euclid's recursion; `Gcd(0, 0) == 0`. */
  function Gcd(a: nat, b: nat): nat
    decreases b
  {
    if b == 0 then a else Gcd(b, a % b)
  }

  /** `g` divides both arguments and every common divisor divides `g`. */
  ghost predicate IsGcd(g: nat, a: nat, b: nat) {
    && Divides(g, a) && Divides(g, b)
    && forall d: nat :: Divides(d, a) && Divides(d, b) ==> Divides(d, g)
  }

  lemma {:induction false} GcdDividesBoth(a: nat, b: nat)
    ensures Divides(Gcd(a, b), a) && Divides(Gcd(a, b), b)
    decreases b
  {
    if b == 0 {
      DividesSelf(a);
    } else {
      GcdDividesBoth(b, a % b);
      assert a == (a / b) * b + 1 * (a % b);
      DividesLinear(Gcd(a, b), b, a % b, a / b, 1);
    }
  }

  lemma {:induction false} GcdGreatest(a: nat, b: nat, d: nat)
    requires Divides(d, a) && Divides(d, b)
    ensures Divides(d, Gcd(a, b))
    decreases b
  {
    if b > 0 {
      assert a % b == 1 * a + (-(a / b)) * b;
      DividesLinear(d, a, b, 1, -(a / b));
      GcdGreatest(b, a % b, d);
    }
  }

  /** The recursive `Gcd` is the greatest common divisor in the divisibility order. */
  lemma GcdIsGreatestCommonDivisor(a: nat, b: nat)
    ensures IsGcd(Gcd(a, b), a, b)
  {
    GcdDividesBoth(a, b);
    forall d: nat | Divides(d, a) && Divides(d, b)
      ensures Divides(d, Gcd(a, b))
    {
      GcdGreatest(a, b, d);
    }
  }

  /** The divisibility characterisation determines the gcd uniquely. */
  lemma GcdUnique(g: nat, a: nat, b: nat)
    requires IsGcd(g, a, b)
    ensures g == Gcd(a, b)
  {
    GcdIsGreatestCommonDivisor(a, b);
    DividesAntisymmetric(g, Gcd(a, b));
  }

  lemma GcdSymmetric(a: nat, b: nat)
    ensures Gcd(a, b) == Gcd(b, a)
  {
    GcdIsGreatestCommonDivisor(b, a);
    GcdIsGreatestCommonDivisor(a, b);
    GcdUnique(Gcd(b, a), a, b);
  }

  lemma GcdPositive(a: nat, b: nat)
    requires a > 0 || b > 0
    ensures Gcd(a, b) > 0
  {
    GcdDividesBoth(a, b);
  }

  lemma GcdBound(a: nat, b: nat)
    requires b > 0
    ensures 0 < Gcd(a, b) <= b
  {
    GcdDividesBoth(a, b);
    DividesBound(Gcd(a, b), b);
  }

  /** Reducing one argument modulo the other keeps the gcd. */
  lemma GcdReduce(a: nat, m: nat)
    requires m > 0
    ensures Gcd(a % m, m) == Gcd(a, m)
  {
    GcdSymmetric(a % m, m);
  }

  /** A positive gcd splits both arguments exactly. */
  lemma CofactorFacts(a: nat, b: nat, g: nat)
    requires g == Gcd(a, b) && (a > 0 || b > 0)
    ensures g > 0 && a == g * (a / g) && b == g * (b / g) && (a / g > 0 || b / g > 0)
  {
    GcdPositive(a, b);
    GcdDividesBoth(a, b);
    CofactorsNotBothZero(a, b, g);
    DividesQuotient(g, a);
    DividesQuotient(g, b);
  }

  /** After dividing out the gcd, the cofactors are coprime. */
  lemma CofactorsCoprime(a: nat, b: nat, g: nat, a': nat, b': nat)
    requires g > 0 && g == Gcd(a, b) && a == g * a' && b == g * b' && (a' > 0 || b' > 0)
    ensures Gcd(a', b') == 1
  {
    var h := Gcd(a', b');
    GcdPositive(a', b');
    GcdDividesBoth(a', b');
    ScaleDivides(g, h, a');
    ScaleDivides(g, h, b');
    GcdGreatest(a, b, g * h);
    DividesBound(g * h, g);
    UnitFactor(g, h);
  }

  lemma CofactorsNotBothZero(a: nat, b: nat, g: nat)
    requires g > 0 && Divides(g, a) && Divides(g, b) && (a > 0 || b > 0)
    ensures a / g > 0 || b / g > 0
  {
    DividesQuotient(g, a);
    DividesQuotient(g, b);
  }

  lemma UnitFactor(g: int, h: int)
    requires g > 0 && h >= 1 && g * h <= g
    ensures h == 1
  {
    MulSigns(h - 1, g);
    assert g * h == (h - 1) * g + g;
  }

  /** Scaling both sides keeps divisibility. */
  lemma ScaleDivides(g: nat, h: nat, n: int)
    requires Divides(h, n)
    ensures Divides(g * h, g * n)
  {
    if h > 0 && g > 0 {
      var k := n / h;
      assert n == h * k;
      assert g * n == (g * h) * k;
      DividesMultiple(g * h, k);
    }
  }

  // ---------------------------------------------------------------------------
  // Bezout coefficients (the recursive extended Euclidean algorithm)

  /** `{x, y, g}` with `a*x + b*y == g`; the C++ struct `XgcdResult`. */
  datatype XgcdResult = XgcdResult(x: int, y: int, g: nat)

  function ExtGcd(a: nat, b: nat): (r: XgcdResult)
    decreases b
    ensures r.g == Gcd(a, b)
    ensures a * r.x + b * r.y == r.g
  {
    if b == 0 then XgcdResult(1, 0, a)
    else
      var r := ExtGcd(b, a % b);
      var q := a / b;
      assert a % b == a - q * b;
      assert a * r.y + b * (r.x - q * r.y) == b * r.x + (a - q * b) * r.y;
      XgcdResult(r.y, r.x - q * r.y, r.g)
  }

  /** Euclid's lemma for a coprime factor. */
  lemma CoprimeDivides(d: nat, a: nat, b: int)
    requires Gcd(a, d) == 1 && Divides(d, a * b)
    ensures Divides(d, b)
  {
    var r := ExtGcd(a, d);
    var x, y, t := r.x, r.y, a * b;
    assert a * x + d * y == 1;
    DividesSelf(d);
    DividesLinear(d, t, d, x, b * y);
    assert b == x * t + (b * y) * d by {
      Rearrange(a, b, d, x, y);
    }
  }

  lemma Rearrange(a: int, b: int, d: int, x: int, y: int)
    ensures b * (a * x + d * y) == x * (a * b) + (b * y) * d
  {
  }

  // ---------------------------------------------------------------------------
  // Primes

  ghost predicate Prime(n: nat) {
    n >= 2 && forall d: nat :: 2 <= d < n ==> !Divides(d, n)
  }

  /** A prime is coprime to everything it does not divide. */
  lemma PrimeCoprime(p: nat, a: nat)
    requires Prime(p) && !Divides(p, a)
    ensures Gcd(a, p) == 1
  {
    var g := Gcd(a, p);
    GcdDividesBoth(a, p);
    DividesBound(g, p);
  }

  /** Euclid's lemma: a prime dividing a product divides a factor. */
  lemma PrimeDividesProduct(p: nat, a: int, b: int)
    requires Prime(p) && Divides(p, a * b)
    ensures Divides(p, a) || Divides(p, b)
  {
    if !Divides(p, a) {
      var a' := a % p;
      assert !Divides(p, a') by {
        ModOfMod(a, p);
      }
      PrimeCoprime(p, a');
      ModMulLeft(a, b, p);
      CoprimeDivides(p, a', b);
    }
  }

  // ---------------------------------------------------------------------------
  // Powers

  function Pow(b: int, e: nat): int
    decreases e
  {
    if e == 0 then 1 else b * Pow(b, e - 1)
  }

  lemma {:induction false} PowNonnegative(b: int, e: nat)
    requires b >= 0
    ensures Pow(b, e) >= 0
    ensures b > 0 ==> Pow(b, e) > 0
  {
    if e > 0 {
      PowNonnegative(b, e - 1);
    }
  }

  /** `2^i`, as a natural number. */
  function TwoPow(i: nat): (r: nat)
    ensures r == Pow(2, i) && r > 0
  {
    PowNonnegative(2, i);
    Pow(2, i)
  }

  lemma {:induction false} PowAdd(b: int, m: nat, n: nat)
    ensures Pow(b, m + n) == Pow(b, m) * Pow(b, n)
    decreases m
  {
    if m > 0 {
      PowAdd(b, m - 1, n);
      assert Pow(b, m + n) == b * Pow(b, m - 1 + n);
    }
  }

  lemma {:induction false} PowMul(b: int, m: nat, n: nat)
    ensures Pow(b, m * n) == Pow(Pow(b, m), n)
    decreases n
  {
    if n > 0 {
      PowMul(b, m, n - 1);
      assert m * n == m * (n - 1) + m;
      PowAdd(b, m * (n - 1), m);
    }
  }

  lemma PowSquare(b: int, k: nat)
    ensures Pow(b * b, k) == Pow(b, 2 * k)
  {
    PowMul(b, 2, k);
  }

  /** A power may be computed from the residue of its base. */
  lemma {:induction false} PowModBase(b: int, e: nat, d: int)
    requires d > 0
    ensures Pow(b % d, e) % d == Pow(b, e) % d
    decreases e
  {
    if e > 0 {
      PowModBase(b, e - 1, d);
      ModMul(b, Pow(b, e - 1), d);
      ModMul(b % d, Pow(b % d, e - 1), d);
      ModOfMod(b, d);
    }
  }

  // ---------------------------------------------------------------------------
  // Products of factor lists

  function Product(s: seq<int>): int {
    if s == [] then 1 else s[0] * Product(s[1..])
  }

  lemma {:induction false} ProductAppend(s: seq<int>, t: seq<int>)
    ensures Product(s + t) == Product(s) * Product(t)
    decreases |s|
  {
    if s != [] {
      assert (s + t)[1..] == s[1..] + t;
      ProductAppend(s[1..], t);
    } else {
      assert s + t == t;
    }
  }

  /** The product of a list depends only on its multiset of elements. */
  lemma {:induction false} ProductPermutation(s: seq<int>, t: seq<int>)
    requires multiset(s) == multiset(t)
    ensures Product(s) == Product(t)
    decreases |s|
  {
    if s != [] {
      assert s[0] in multiset(t);
      var i :| 0 <= i < |t| && t[i] == s[0];
      var rest := t[..i] + t[i + 1..];
      MultisetRemove(s, t, i);
      ProductPermutation(s[1..], rest);
      ProductRemove(t, i);
    } else {
      assert |t| == |multiset(t)| == 0;
    }
  }

  lemma MultisetRemove(s: seq<int>, t: seq<int>, i: nat)
    requires s != [] && i < |t| && t[i] == s[0] && multiset(s) == multiset(t)
    ensures multiset(s[1..]) == multiset(t[..i] + t[i + 1..])
  {
    assert t == t[..i] + [t[i]] + t[i + 1..];
    assert s == [s[0]] + s[1..];
    assert multiset(t) == multiset(t[..i]) + multiset([t[i]]) + multiset(t[i + 1..]);
    assert multiset(s[1..]) == multiset(s) - multiset{s[0]};
  }

  lemma ProductRemove(t: seq<int>, i: nat)
    requires i < |t|
    ensures Product(t) == t[i] * Product(t[..i] + t[i + 1..])
  {
    var l, m, r := t[..i], [t[i]], t[i + 1..];
    assert t == (l + m) + r;
    ProductAppend(l + m, r);
    ProductAppend(l, m);
    ProductAppend(l, r);
    assert Product(m) == t[i];
    MulRotate(Product(l), t[i], Product(r));
  }

  lemma MulRotate(p: int, x: int, q: int)
    ensures (p * x) * q == x * (p * q)
  {
  }

  /** The least common multiple, in the form the kernel computes it: `a / gcd(a, b) * b`. */
  function Lcm(a: nat, b: nat): nat {
    if a == 0 || b == 0 then 0 else GcdPositive(a, b); a / Gcd(a, b) * b
  }

  /** For positive moduli, `Lcm` is a positive common multiple that divides every common multiple. */
  lemma LcmIsLeastCommonMultiple(m1: nat, m2: nat, x: int)
    requires m1 > 0 && m2 > 0
    ensures Lcm(m1, m2) > 0 && Divides(m1, Lcm(m1, m2)) && Divides(m2, Lcm(m1, m2))
    ensures Divides(m1, x) && Divides(m2, x) ==> Divides(Lcm(m1, m2), x)
  {
    var g := Gcd(m1, m2);
    CofactorFacts(m1, m2, g);
    CofactorsCoprime(m1, m2, g, m1 / g, m2 / g);
    LcmOfCoprimeCofactors(m1, m2, g, m1 / g, m2 / g, x);
  }

  lemma LcmOfCoprimeCofactors(m1: nat, m2: nat, g: nat, a: nat, b: nat, x: int)
    requires m1 > 0 && m2 > 0
    requires g > 0 && m1 == g * a && m2 == g * b && Gcd(a, b) == 1
    ensures a * m2 > 0 && Divides(m1, a * m2) && Divides(m2, a * m2)
    ensures Divides(m1, x) && Divides(m2, x) ==> Divides(a * m2, x)
  {
    CommonMultiple(m1, m2, g, a, b);
    if Divides(m1, x) && Divides(m2, x) {
      DividesQuotient(m1, x);
      LcmDividesCommon(m1, m2, g, a, b, x / m1, x);
    }
  }

  /** `a * m2 == m1 * b` is a positive common multiple. */
  lemma CommonMultiple(m1: nat, m2: nat, g: nat, a: nat, b: nat)
    requires m1 > 0 && m2 > 0 && m1 == g * a && m2 == g * b
    ensures a * m2 > 0 && Divides(m1, a * m2) && Divides(m2, a * m2)
  {
    assert a * m2 == m1 * b;
    MulSigns(a, m2);
    DividesMultiple(m1, b);
    DividesMultiple(m2, a);
  }

  lemma LcmDividesCommon(m1: nat, m2: nat, g: nat, a: nat, b: nat, k: int, x: int)
    requires m1 > 0 && m2 > 0 && g > 0 && m1 == g * a && m2 == g * b && Gcd(a, b) == 1
    requires x == m1 * k && Divides(m2, x)
    ensures Divides(a * m2, x)
  {
    MulSigns(g, b);
    CommonMultipleQuotient(g, a, b, k);
    DividesQuotient(b, k);
    var j := k / b;
    MulRegroup(g, a, b, j);
    DividesMultiple(a * m2, j);
  }

  lemma MulRegroup(g: int, a: int, b: int, j: int)
    ensures (g * a) * (b * j) == (a * (g * b)) * j
  {
  }

  /** If `g*b` divides `g*a*k` with `a` and `b` coprime, then `b` divides `k`. */
  lemma CommonMultipleQuotient(g: nat, a: nat, b: nat, k: int)
    requires g > 0 && Gcd(a, b) == 1 && Divides(g * b, (g * a) * k)
    ensures Divides(b, k)
  {
    assert (g * a) * k == g * (a * k);
    DividesCancel(g, b, a * k);
    GcdSymmetric(a, b);
    CoprimeDivides(b, a, k);
  }
}
