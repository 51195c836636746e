/** Primality (src/primes.cpp): the parity and small-prime prefilter, the
    decomposition `n - 1 == d * 2^s`, the Miller-Rabin witness test over a fixed
    table of seven bases, and the upward search of `next_prime`.

    `Accepts` is the reference definition of what `is_prime` computes. It is
    proved to accept every prime; a composite it accepts has no factor up to 37
    and passes the strong-pseudoprime test for all seven bases. */
module Primes {
  import opened Words
  import opened NumberTheory
  import Fermat
  import Arithmetic

  /** The Miller-Rabin bases, known to decide primality for every 64-bit input. */
  const Bases: seq<u64> := [2, 325, 9375, 28178, 450775, 9780504, 1795265022]

  /** The odd primes of the prefilter. */
  const SmallPrimes: seq<u64> := [3, 5, 7, 11, 13, 17, 19, 23, 29, 31, 37]

  // ---------------------------------------------------------------------------
  // n - 1 == d * 2^s

  /** The exponent of 2 in `m`. */
  function TwoExp(m: nat): nat
    requires m > 0
    decreases m
  {
    if m % 2 == 0 then 1 + TwoExp(m / 2) else 0
  }

  /** `m` with every factor 2 removed. */
  function OddPart(m: nat): nat
    requires m > 0
    decreases m
  {
    if m % 2 == 0 then OddPart(m / 2) else m
  }

  /** `m == OddPart(m) * 2^TwoExp(m)` with an odd cofactor; an even `m` has
      exponent at least one, and the exponent is below `m`. */
  lemma {:induction false} Decomposition(m: nat)
    requires m > 0
    ensures OddPart(m) % 2 == 1
    ensures m == OddPart(m) * Pow(2, TwoExp(m))
    ensures m % 2 == 0 ==> TwoExp(m) >= 1
    ensures TwoExp(m) < m
    decreases m
  {
    if m % 2 == 0 {
      Decomposition(m / 2);
      assert Pow(2, TwoExp(m)) == 2 * Pow(2, TwoExp(m / 2));
    }
  }

  /** The halving loop of `miller_rabin`: `d` ends odd and `n - 1 == d * 2^s`. */
  method Decompose(n: u64) returns (d: u64, s: u64)
    requires n >= 2
    ensures d == OddPart(n - 1) && s == TwoExp(n - 1)
    ensures d % 2 == 1 && n - 1 == d * Pow(2, s)
    ensures n % 2 == 1 ==> s >= 1
  {
    Decomposition(n - 1);
    d, s := n - 1, 0;
    while d % 2 == 0
      invariant d > 0
      invariant OddPart(d) == OddPart(n - 1)
      invariant s + TwoExp(d) == TwoExp(n - 1)
      decreases d
    {
      d := d / 2;
      s := s + 1;
    }
  }

  // ---------------------------------------------------------------------------
  // The witness test

  /** `x` squared `i` times modulo `n`. */
  function SquareIter(x: nat, i: nat, n: nat): (r: nat)
    requires n > 0
    ensures i > 0 || x < n ==> r < n
    decreases i
  {
    if i == 0 then x else (SquareIter(x, i - 1, n) * SquareIter(x, i - 1, n)) % n
  }

  /** `a` proves `n` composite: `a^d mod n` is neither `1` nor `n - 1`, and none of
      its first `s - 1` repeated squares is `n - 1`. */
  predicate IsWitness(a: nat, d: nat, s: nat, n: nat)
    requires n > 0
  {
    var x := Pow(a, d) % n;
    x != 1 && x != n - 1 && forall i :: 1 <= i < s ==> SquareIter(x, i, n) != n - 1
  }

  /** The `i`-th square of `a^d mod n` is `a^(d * 2^i) mod n`. */
  lemma {:induction false} SquareIterPow(a: nat, d: nat, i: nat, n: nat)
    requires n > 0
    ensures SquareIter(Pow(a, d) % n, i, n) == Pow(a, d * TwoPow(i)) % n
    decreases i
  {
    if i > 0 {
      SquareIterPow(a, d, i - 1, n);
      var e := d * TwoPow(i - 1);
      var y := Pow(a, e);
      ModMul(y, y, n);
      PowAdd(a, e, e);
      assert e + e == d * TwoPow(i);
    }
  }

  /** The witness condition in terms of powers of `a`. */
  lemma WitnessMeaning(a: nat, d: nat, s: nat, n: nat)
    requires n > 0
    ensures IsWitness(a, d, s, n) <==>
      Pow(a, d) % n != 1 && Pow(a, d) % n != n - 1 &&
      forall i :: 1 <= i < s ==> Pow(a, d * TwoPow(i)) % n != n - 1
  {
    forall i | 1 <= i < s {
      SquareIterPow(a, d, i, n);
    }
  }

  /** `miller_rabin_witness`, with `x` squared in place. */
  method MillerRabinWitness(a: u64, d: u64, s: u64, n: u64) returns (w: bool)
    requires n > 0
    ensures w == IsWitness(a, d, s, n)
  {
    var x0 := Arithmetic.PowMod(a, d, n);
    if x0 == 1 || x0 == n - 1 {
      return false;
    }
    var x := x0;
    var i: u64 := 1;
    while i < s
      invariant 1 <= i && (s >= 1 ==> i <= s)
      invariant x == SquareIter(x0, i - 1, n)
      invariant forall j :: 1 <= j < i ==> SquareIter(x0, j, n) != n - 1
    {
      x := Arithmetic.MulMod(x, x, n);
      assert x == SquareIter(x0, i, n);
      if x == n - 1 {
        return false;
      }
      i := i + 1;
    }
    assert forall j :: 1 <= j < s ==> SquareIter(x0, j, n) != n - 1;
    return true;
  }

  /** Modulo a prime, a square chain that ends in `1` and never meets `p - 1`
      started at `1`. */
  lemma {:induction false} DescendOnes(x: nat, k: nat, p: nat)
    requires Prime(p) && x < p
    requires SquareIter(x, k, p) == 1
    requires forall i :: 0 <= i < k ==> SquareIter(x, i, p) != p - 1
    ensures x == 1
    decreases k
  {
    if k > 0 {
      var y := SquareIter(x, k - 1, p);
      Fermat.SquareRootOfOne(p, y);
      DescendOnes(x, k - 1, p);
    }
  }

  /** No base is a witness for a prime it does not divide. */
  lemma PrimeHasNoWitness(a: nat, n: nat)
    requires Prime(n) && !Divides(n, a)
    ensures !IsWitness(a, OddPart(n - 1), TwoExp(n - 1), n)
  {
    var d, s := OddPart(n - 1), TwoExp(n - 1);
    Decomposition(n - 1);
    Fermat.FermatLittle(n, a);
    SquareIterPow(a, d, s, n);
    var x := Pow(a, d) % n;
    if IsWitness(a, d, s, n) {
      assert forall i :: 0 <= i < s ==> SquareIter(x, i, n) != n - 1;
      DescendOnes(x, s, n);
    }
  }

  // ---------------------------------------------------------------------------
  // miller_rabin

  /** `miller_rabin` accepts when no base it does not skip is a witness. */
  predicate MillerRabinPasses(n: nat)
    requires n >= 2
  {
    forall k :: 0 <= k < |Bases| ==>
      Bases[k] % n == 0 || !IsWitness(Bases[k], OddPart(n - 1), TwoExp(n - 1), n)
  }

  /** `miller_rabin`: decompose `n - 1`, then try every base. */
  method MillerRabin(n: u64) returns (r: bool)
    requires n >= 2
    ensures r == MillerRabinPasses(n)
  {
    var d, s := Decompose(n);
    var k := 0;
    while k < |Bases|
      invariant 0 <= k <= |Bases|
      invariant forall j :: 0 <= j < k ==>
        Bases[j] % n == 0 || !IsWitness(Bases[j], d, s, n)
    {
      var a := Bases[k];
      if a % n != 0 {
        var w := MillerRabinWitness(a, d, s, n);
        if w {
          return false;
        }
      }
      k := k + 1;
    }
    return true;
  }

  /** A prime passes the test. */
  lemma PrimePasses(n: nat)
    requires Prime(n)
    ensures MillerRabinPasses(n)
  {
    forall k | 0 <= k < |Bases| && Bases[k] % n != 0 {
      PrimeHasNoWitness(Bases[k], n);
    }
  }

  // ---------------------------------------------------------------------------
  // is_prime

  /** The small-prime scan from position `k`: `Some(true)` on meeting `n`,
      `Some(false)` on meeting a proper divisor, `None` when the table runs out. */
  function Prefilter(n: nat, k: nat): Option<bool>
    requires k <= |SmallPrimes|
    decreases |SmallPrimes| - k
  {
    if k == |SmallPrimes| then None
    else if n == SmallPrimes[k] then Some(true)
    else if n % SmallPrimes[k] == 0 then Some(false)
    else Prefilter(n, k + 1)
  }

  /** What `is_prime` computes. Nothing below 2 and no even number but 2 is accepted. */
  predicate Accepts(n: nat)
    ensures Accepts(n) ==> n >= 2 && (n == 2 || n % 2 == 1)
  {
    if n < 2 then false
    else if n == 2 || n == 3 then true
    else if n % 2 == 0 then false
    else match Prefilter(n, 0)
      case Some(b) => b
      case None => MillerRabinPasses(n)
  }

  /** `is_prime`. */
  method IsPrime(n: u64) returns (r: bool)
    ensures r == Accepts(n)
  {
    if n < 2 {
      return false;
    }
    if n == 2 || n == 3 {
      return true;
    }
    if n % 2 == 0 {
      return false;
    }
    var k := 0;
    while k < |SmallPrimes|
      invariant 0 <= k <= |SmallPrimes|
      invariant Prefilter(n, k) == Prefilter(n, 0)
    {
      var p := SmallPrimes[k];
      if n == p {
        return true;
      }
      if n % p == 0 {
        return false;
      }
      k := k + 1;
    }
    r := MillerRabin(n);
  }

  /** What the prefilter's three outcomes mean. */
  lemma {:induction false} PrefilterMeaning(n: nat, k: nat)
    requires k <= |SmallPrimes|
    ensures Prefilter(n, k) == Some(true) ==> exists j :: k <= j < |SmallPrimes| && n == SmallPrimes[j]
    ensures Prefilter(n, k) == Some(false) ==>
      exists j :: k <= j < |SmallPrimes| && n != SmallPrimes[j] && n % SmallPrimes[j] == 0
    ensures Prefilter(n, k) == None ==>
      forall j :: k <= j < |SmallPrimes| ==> n != SmallPrimes[j] && n % SmallPrimes[j] != 0
    decreases |SmallPrimes| - k
  {
    if k < |SmallPrimes| && n != SmallPrimes[k] && n % SmallPrimes[k] != 0 {
      PrefilterMeaning(n, k + 1);
    }
  }

  /** Only odd inputs of at least 41 with no factor up to 37 reach `miller_rabin`. */
  lemma MillerRabinInputs(n: nat)
    requires n >= 4 && n % 2 == 1 && Prefilter(n, 0) == None
    ensures n >= 41
    ensures forall p: nat :: 2 <= p <= 37 ==> n % p != 0
  {
    PrefilterMeaning(n, 0);
    forall p: nat | 2 <= p <= 37
      ensures n % p != 0
    {
      SmallFactor(n, p);
    }
    if n < 41 {
      SmallFactor(n, if n <= 37 then n else 3);
    }
  }

  /** An odd number with no factor in the table has no factor from 2 to 37. */
  lemma SmallFactor(n: nat, p: nat)
    requires 2 <= p <= 37 && n % 2 == 1
    requires forall j :: 0 <= j < |SmallPrimes| ==> n % SmallPrimes[j] != 0
    ensures n % p != 0
  {
    assert p == 2 || p == 3 || p == 4 || p == 5 || p == 6 || p == 7 || p == 8 || p == 9
      || p == 10 || p == 11 || p == 12 || p == 13 || p == 14 || p == 15 || p == 16 || p == 17
      || p == 18 || p == 19 || p == 20 || p == 21 || p == 22 || p == 23 || p == 24 || p == 25
      || p == 26 || p == 27 || p == 28 || p == 29 || p == 30 || p == 31 || p == 32 || p == 33
      || p == 34 || p == 35 || p == 36 || p == 37;
    var f := if p % 2 == 0 then 2 else if p % 3 == 0 then 3
      else if p % 5 == 0 then 5 else if p % 7 == 0 then 7 else p;
    assert f == 2 || f in SmallPrimes;
    assert Divides(f, p) && !Divides(f, n);
    if n % p == 0 {
      DividesTransitive(f, p, n);
    }
  }

  /** A number below 49 with no factor 2, 3 or 5 other than itself is prime. */
  lemma PrimeBelow49(p: nat)
    requires 2 <= p < 49
    requires (p == 2 || p % 2 != 0) && (p == 3 || p % 3 != 0) && (p == 5 || p % 5 != 0)
    ensures Prime(p)
  {
    forall d: nat | 2 <= d < p
      ensures !Divides(d, p)
    {
      if Divides(d, p) {
        SmallCofactor(p, d);
      }
    }
  }

  /** A proper divisor of a number below 49 brings a factor 2, 3 or 5 with it. */
  lemma SmallCofactor(p: nat, d: nat)
    requires 2 <= d < p < 49 && Divides(d, p)
    ensures (p != 2 && p % 2 == 0) || (p != 3 && p % 3 == 0) || (p != 5 && p % 5 == 0)
  {
    var e := SmallDivisor(p, d);
    var f := if e == 4 || e == 6 then 2 else e;
    assert Divides(f, e);
    DividesTransitive(f, e, p);
    assert f < p by {
      assert f <= e && e * e <= p;
    }
  }

  /** The smaller of `d` and `p / d` is a divisor of `p` from 2 to 6. */
  lemma SmallDivisor(p: nat, d: nat) returns (e: nat)
    requires 2 <= d < p < 49 && Divides(d, p)
    ensures 2 <= e <= 6 && e * e <= p && Divides(e, p)
  {
    var q := p / d;
    DividesQuotient(d, p);
    CofactorDivides(p, d, q);
    e := if d <= q then d else q;
    SmallerSquare(d, q, p);
    SquareBound(e, p);
  }

  lemma CofactorDivides(p: int, d: int, q: int)
    requires 2 <= d < p && p == d * q
    ensures q >= 2 && Divides(q, p)
  {
    DividesMultiple(q, d);
    assert q * d == p;
  }

  lemma SmallerSquare(d: int, q: int, p: int)
    requires d >= 0 && q >= 0 && p == d * q
    ensures (if d <= q then d else q) * (if d <= q then d else q) <= p
  {
    if d <= q {
      assert d * d <= d * q;
    } else {
      assert q * q <= d * q;
    }
  }

  lemma SquareBound(e: int, p: int)
    requires e >= 0 && e * e <= p < 49
    ensures e <= 6
  {
    if e > 6 {
      assert e * e >= 7 * e;
    }
  }

  /** The table holds primes. */
  lemma SmallPrimeIsPrime(n: nat)
    requires n in SmallPrimes
    ensures Prime(n)
  {
    PrimeBelow49(n);
  }

  /** Soundness of `is_prime`: every prime is accepted. */
  lemma PrimeAccepted(n: nat)
    requires Prime(n)
    ensures Accepts(n)
  {
    if n > 3 {
      assert !Divides(2, n);
      PrimeNotFiltered(n);
      if Prefilter(n, 0) == None {
        PrimePasses(n);
      }
    }
  }

  /** The prefilter never rejects a prime. */
  lemma PrimeNotFiltered(n: nat)
    requires Prime(n)
    ensures Prefilter(n, 0) != Some(false)
  {
    PrefilterMeaning(n, 0);
    if Prefilter(n, 0) == Some(false) {
      var j :| 0 <= j < |SmallPrimes| && n != SmallPrimes[j] && n % SmallPrimes[j] == 0;
      var q := SmallPrimes[j];
      assert q >= 3 && Divides(q, n);
      DividesBound(q, n);
    }
  }

  /** A non-prime that `is_prime` accepts is odd, at least 41, has no factor up to
      37 and passes the Miller-Rabin rounds for every base: every rejection is
      correct, and every acceptance not backed by a primality proof comes from
      the seven-base test. */
  lemma AcceptedComposite(n: nat)
    requires Accepts(n) && !Prime(n)
    ensures n >= 41 && n % 2 == 1
    ensures forall p: nat :: 2 <= p <= 37 ==> n % p != 0
    ensures MillerRabinPasses(n)
  {
    if n == 2 || n == 3 {
      PrimeBelow49(n);
    }
    PrefilterMeaning(n, 0);
    if Prefilter(n, 0) == Some(true) {
      var j :| 0 <= j < |SmallPrimes| && n == SmallPrimes[j];
      SmallPrimeIsPrime(n);
    }
    MillerRabinInputs(n);
  }

  /** Below 41 the prefilter alone decides, and decides correctly. */
  lemma AcceptsExactBelow41(n: nat)
    requires n < 41
    ensures Accepts(n) <==> Prime(n)
  {
    if Prime(n) {
      PrimeAccepted(n);
    }
    if Accepts(n) && !Prime(n) {
      AcceptedComposite(n);
    }
  }

  // ---------------------------------------------------------------------------
  // next_prime

  /** The walk `n += 2` over odd words, measured as the distance still to go to 3. */
  lemma WalkDistance(n: u64)
    requires n % 2 == 1 && n != 3
    ensures 0 <= (3 - Wrap(n + 2)) % TWO_64 < (3 - n) % TWO_64
  {
    if n == 1 {
      DivModUnique(3 - n, TWO_64, 0, 2);
    } else if n + 2 < TWO_64 {
      DivModUnique(3 - n, TWO_64, -1, 3 - n + TWO_64);
      DivModUnique(3 - (n + 2), TWO_64, -1, 1 - n + TWO_64);
    } else {
      assert n == TWO_64 - 1;
      DivModUnique(n + 2, TWO_64, 1, 1);
      DivModUnique(3 - n, TWO_64, -1, 4);
      DivModUnique(2, TWO_64, 0, 2);
    }
  }

  /** No odd number in `[lo, hi)` is accepted. */
  predicate RejectedBetween(lo: nat, hi: nat) {
    forall k: nat :: lo <= k < hi && k % 2 == 1 ==> !Accepts(k)
  }

  /** The state of the search from `n`: the odd candidate `p` and whether the
      walk has wrapped past 2^64. */
  predicate Searching(n: nat, p: nat, wrapped: bool) {
    p % 2 == 1 &&
    (!wrapped ==> n <= p && RejectedBetween(n, p)) &&
    (wrapped ==> (p == 1 || p == 3) && RejectedBetween(n, TWO_64))
  }

  /** A rejected candidate moves the search on by two, modulo 2^64. */
  lemma SearchStep(n: nat, p: u64, wrapped: bool)
    requires Searching(n, p, wrapped) && !Accepts(p)
    ensures Searching(n, Wrap(p + 2), wrapped || p + 2 >= TWO_64)
    ensures 0 <= (3 - Wrap(p + 2)) % TWO_64 < (3 - p) % TWO_64
  {
    WalkDistance(p);
    if !wrapped {
      RejectedExtend(n, p);
      if p + 2 >= TWO_64 {
        assert p == TWO_64 - 1 && Wrap(p + 2) == 1 by {
          DivModUnique(p + 2, TWO_64, 1, 1);
        }
      }
    }
  }

  /** One more rejected odd candidate extends the rejected range by two. */
  lemma RejectedExtend(lo: nat, p: nat)
    requires p % 2 == 1 && !Accepts(p) && RejectedBetween(lo, p)
    ensures RejectedBetween(lo, p + 2)
  {
    forall k: nat | lo <= k < p + 2 && k % 2 == 1
      ensures !Accepts(k)
    {
      if k != p {
        assert k < p;
      }
    }
  }

  /** `next_prime`: 2 for `n <= 2`; otherwise the first accepted odd candidate from
      `n` upwards. Should no candidate below 2^64 be accepted, the 64-bit walk
      wraps to 1 and stops at 3. */
  method NextPrime(n: u64) returns (p: u64)
    ensures Accepts(p)
    ensures n <= 2 ==> p == 2
    ensures n > 2 ==> p % 2 == 1
    ensures n > 2 ==>
      (n <= p && RejectedBetween(n, p)) || (p == 3 && RejectedBetween(n, TWO_64))
  {
    if n <= 2 {
      return 2;
    }
    p := n;
    if p % 2 == 0 {
      p := p + 1;
    }
    ghost var wrapped := false;
    var accepted := IsPrime(p);
    while !accepted
      invariant Searching(n, p, wrapped) && accepted == Accepts(p)
      decreases (3 - p) % TWO_64
    {
      SearchStep(n, p, wrapped);
      wrapped := wrapped || p + 2 >= TWO_64;
      p := Wrap(p + 2);
      accepted := IsPrime(p);
    }
  }
}
