/** Fermat's little theorem and the square roots of 1 modulo a prime: the two facts
    on which the soundness of the Miller-Rabin test rests. The route is the binomial
    theorem, `(x + 1)^p == x^p + 1 (mod p)`, followed by induction on `x`. */
module Fermat {
  import opened NumberTheory

  /** Binomial coefficient by Pascal's rule; zero when `k > n`. */
  function Binom(n: nat, k: nat): nat
    decreases n
  {
    if k == 0 then 1 else if n == 0 then 0 else Binom(n - 1, k - 1) + Binom(n - 1, k)
  }

  /** The first `k` terms of the binomial expansion of `(x + 1)^n`. */
  function BinomSum(n: nat, x: int, k: nat): int
    decreases k
  {
    if k == 0 then 0 else BinomSum(n, x, k - 1) + Binom(n, k - 1) * Pow(x, k - 1)
  }

  lemma {:induction false} BinomAbove(n: nat, k: nat)
    requires k > n
    ensures Binom(n, k) == 0
    decreases n
  {
    if n > 0 {
      BinomAbove(n - 1, k - 1);
      BinomAbove(n - 1, k);
    }
  }

  lemma {:induction false} BinomAll(n: nat)
    ensures Binom(n, n) == 1
    decreases n
  {
    if n > 0 {
      BinomAll(n - 1);
      BinomAbove(n - 1, n);
    }
  }

  /** Absorption identity: `k * C(n, k) == n * C(n - 1, k - 1)`. */
  lemma {:induction false} BinomAbsorb(n: nat, k: nat)
    requires n > 0 && k > 0
    ensures k * Binom(n, k) == n * Binom(n - 1, k - 1)
    decreases n
  {
    if n == 1 {
      if k > 1 {
        BinomAbove(1, k);
        BinomAbove(0, k - 1);
      }
    } else if k == 1 {
      BinomOne(n);
    } else {
      // C(n, k) = C(n-1, k-1) + C(n-1, k); apply the identity to both terms.
      BinomAbsorb(n - 1, k - 1);
      BinomAbsorb(n - 1, k);
      AbsorbStep(n, k, Binom(n - 1, k - 1), Binom(n - 1, k), Binom(n - 2, k - 2), Binom(n - 2, k - 1));
    }
  }

  lemma AbsorbStep(n: int, k: int, a: int, b: int, c: int, d: int)
    requires (k - 1) * a == (n - 1) * c && k * b == (n - 1) * d && a == c + d
    ensures k * (a + b) == n * a
  {
  }

  lemma {:induction false} BinomOne(n: nat)
    ensures Binom(n, 1) == n
    decreases n
  {
    if n > 0 {
      BinomOne(n - 1);
    }
  }

  /** A prime `p` divides `C(p, k)` for `0 < k < p`. */
  lemma PrimeDividesBinom(p: nat, k: nat)
    requires Prime(p) && 0 < k < p
    ensures Divides(p, Binom(p, k))
  {
    BinomAbsorb(p, k);
    DividesMultiple(p, Binom(p - 1, k - 1));
    assert Divides(p, k * Binom(p, k));
    PrimeDividesProduct(p, k, Binom(p, k));
    if Divides(p, k) {
      DividesBound(p, k);
    }
  }

  /** Pascal's rule lifted to the partial sums. */
  lemma {:induction false} BinomSumPascal(n: nat, x: int, k: nat)
    ensures BinomSum(n + 1, x, k + 1) == BinomSum(n, x, k + 1) + x * BinomSum(n, x, k)
    decreases k
  {
    if k > 0 {
      BinomSumPascal(n, x, k - 1);
      PascalTerm(Binom(n, k - 1), Binom(n, k), Pow(x, k - 1), x, BinomSum(n, x, k - 1), BinomSum(n, x, k));
    }
  }

  lemma PascalTerm(c1: int, c2: int, w: int, x: int, s1: int, s2: int)
    requires s2 == s1 + c1 * w
    ensures (s2 + x * s1) + (c1 + c2) * (x * w) == (s2 + c2 * (x * w)) + x * s2
  {
  }

  /** The binomial theorem for `(x + 1)^n`. */
  lemma {:induction false} BinomialTheorem(n: nat, x: int)
    ensures Pow(x + 1, n) == BinomSum(n, x, n + 1)
    decreases n
  {
    if n > 0 {
      BinomialTheorem(n - 1, x);
      BinomSumPascal(n - 1, x, n);
      BinomAbove(n - 1, n);
      assert BinomSum(n - 1, x, n + 1) == BinomSum(n - 1, x, n);
    }
  }

  /** Modulo a prime, all middle terms of the expansion vanish. */
  lemma {:induction false} BinomSumModPrime(p: nat, x: int, k: nat)
    requires Prime(p) && 1 <= k <= p
    ensures BinomSum(p, x, k) % p == 1
    decreases k
  {
    if k > 1 {
      BinomSumModPrime(p, x, k - 1);
      PrimeDividesBinom(p, k - 1);
      AddMultipleKeepsResidue(BinomSum(p, x, k - 1), Binom(p, k - 1), Pow(x, k - 1), p);
    }
  }

  lemma AddMultipleKeepsResidue(s: int, c: int, w: int, p: nat)
    requires p > 0 && Divides(p, c)
    ensures (s + c * w) % p == s % p
  {
    var q := c / p;
    assert c * w == (q * w) * p;
    ModAddMultiple(s, q * w, p);
  }

  /** `(x + 1)^p == x^p + 1 (mod p)` */
  lemma FreshmansDream(p: nat, x: int)
    requires Prime(p)
    ensures Pow(x + 1, p) % p == (Pow(x, p) + 1) % p
  {
    BinomialTheorem(p, x);
    BinomSumModPrime(p, x, p);
    BinomAll(p);
    ModAdd(BinomSum(p, x, p), Pow(x, p), p);
    ModAdd(1, Pow(x, p), p);
  }

  /** `x^p == x (mod p)` for every natural `x`. */
  lemma {:induction false} FermatPow(p: nat, x: nat)
    requires Prime(p)
    ensures Pow(x, p) % p == x % p
    decreases x
  {
    if x == 0 {
      ZeroPow(p);
    } else {
      FermatPow(p, x - 1);
      FreshmansDream(p, x - 1);
      ModAdd(Pow(x - 1, p), 1, p);
      ModAdd(x - 1, 1, p);
    }
  }

  lemma ZeroPow(e: nat)
    requires e > 0
    ensures Pow(0, e) == 0
  {
  }

  /** Fermat's little theorem: `a^(p-1) % p == 1` when the prime `p` does not divide `a`. */
  lemma FermatLittle(p: nat, a: nat)
    requires Prime(p) && !Divides(p, a)
    ensures Pow(a, p - 1) % p == 1
  {
    FermatPow(p, a);
    assert Pow(a, p) == a * Pow(a, p - 1);
    CancelNonMultiple(p, a, Pow(a, p - 1));
  }

  /** Modulo a prime, a factor it does not divide can be cancelled from `a * w == a`. */
  lemma CancelNonMultiple(p: nat, a: int, w: int)
    requires Prime(p) && !Divides(p, a) && (a * w) % p == a % p
    ensures w % p == 1
  {
    CongruentIffDifference(a * w, a, p);
    assert a * w - a == a * (w - 1);
    PrimeDividesProduct(p, a, w - 1);
    CongruentIffDifference(w, 1, p);
  }

  /** `x * x == 1 (mod p)` means `p` divides `(x - 1) * (x + 1)`. */
  lemma SquareMinusOne(p: nat, x: int, lo: int, hi: int)
    requires p > 0 && (x * x) % p == 1 && lo == x - 1 && hi == x + 1
    ensures Divides(p, lo * hi)
  {
    var sq := x * x;
    CongruentIffDifference(sq, 1, p);
    DivModUnique(1, p, 0, 1);
    assert sq - 1 == lo * hi;
  }

  /** The only square roots of 1 modulo a prime are `1` and `p - 1`. */
  lemma SquareRootOfOne(p: nat, x: nat)
    requires Prime(p) && x < p && (x * x) % p == 1
    ensures x == 1 || x == p - 1
  {
    var lo, hi := x - 1, x + 1;
    SquareMinusOne(p, x, lo, hi);
    PrimeDividesProduct(p, lo, hi);
    RootCases(p, x, lo, hi);
  }

  /** `p` dividing `x - 1` or `x + 1`, with `x < p`, leaves only `x == 1` and `x == p - 1`. */
  lemma RootCases(p: nat, x: nat, lo: int, hi: int)
    requires x < p && lo == x - 1 && hi == x + 1 && (Divides(p, lo) || Divides(p, hi))
    ensures x == 1 || x == p - 1
  {
    if Divides(p, lo) {
      if x > 1 {
        DividesBound(p, lo);
      }
    } else {
      DividesBound(p, hi);
    }
  }
}
