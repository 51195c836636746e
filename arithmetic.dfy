/** The modular-arithmetic layer of the kernel (src/arithmetic.cpp): gcd, signed and
    unsigned extended Euclid, the modular inverse, overflow-safe multiplication on
    both build paths, and binary exponentiation. Loops are modelled as loops and
    proved against the reference definitions of `NumberTheory`. */
module Arithmetic {
  import opened Words
  import opened NumberTheory

  // ---------------------------------------------------------------------------
  // gcd

  /** `gcd`: Euclid's algorithm on the ordered pair. */
  method Gcd(a: u64, b: u64) returns (g: u64)
    ensures g == NumberTheory.Gcd(a, b)
    ensures a == 0 ==> g == b
    ensures b == 0 ==> g == a
    ensures Divides(g, a) && Divides(g, b)
    ensures forall d: nat :: Divides(d, a) && Divides(d, b) ==> Divides(d, g)
  {
    GcdIsGreatestCommonDivisor(a, b);
    if a == 0 {
      assert NumberTheory.Gcd(0, b) == b by {
        if b > 0 {
          assert NumberTheory.Gcd(0, b) == NumberTheory.Gcd(b, 0);
        }
      }
      return b;
    }
    if b == 0 {
      return a;
    }
    var x, y := a, b;
    if x < y {
      GcdSymmetric(a, b);
      x, y := y, x;
    }
    while y != 0
      invariant NumberTheory.Gcd(x, y) == NumberTheory.Gcd(a, b)
      decreases y
    {
      var t := x % y;
      x, y := y, t;
    }
    g := x;
  }

  // ---------------------------------------------------------------------------
  // Extended Euclid

  /** The iterations of the extended Euclidean loop still to run from the state
      `A, B, x0, y0, x1, y1`, and the triple the loop then returns. */
  function EuclidRun(A: nat, B: nat, x0: int, y0: int, x1: int, y1: int): XgcdResult
    decreases B
  {
    if B == 0 then XgcdResult(x0, y0, A)
    else EuclidRun(B, A % B, x1, y1, x0 - (A / B) * x1, y0 - (A / B) * y1)
  }

  /** The coefficients for the original pair, given those for the current pair
      `(A, B)` and the matrix `[x0 x1; y0 y1]` that expresses `A` and `B` in the
      original pair. */
  function Combine(r: XgcdResult, x0: int, y0: int, x1: int, y1: int): XgcdResult {
    XgcdResult(x0 * r.x + x1 * r.y, y0 * r.x + y1 * r.y, r.g)
  }

  /** The loop from any state returns the reference coefficients of the current
      pair, mapped back through the coefficient matrix. */
  lemma {:induction false} EuclidRunCombines(A: nat, B: nat, x0: int, y0: int, x1: int, y1: int)
    ensures EuclidRun(A, B, x0, y0, x1, y1) == Combine(ExtGcd(A, B), x0, y0, x1, y1)
    decreases B
  {
    if B > 0 {
      EuclidRunCombines(B, A % B, x1, y1, x0 - (A / B) * x1, y0 - (A / B) * y1);
      ExtGcdUnfold(A, B);
      CombineStep(ExtGcd(B, A % B), A / B, x0, y0, x1, y1);
    }
  }

  /** The loop from the state the source starts in computes exactly `ExtGcd`. */
  lemma EuclidRunIsExtGcd(a: nat, b: nat)
    ensures EuclidRun(a, b, 1, 0, 0, 1) == ExtGcd(a, b)
  {
    EuclidRunCombines(a, b, 1, 0, 0, 1);
  }

  /** The Bezout relations `A == a*x0 + b*y0` and `B == a*x1 + b*y1` are kept by
      every iteration, so the returned coefficients satisfy `a*x + b*y == g`. This
      is the loop invariant of `xgcd` and `xgcd_u64` stated on its own; the methods
      themselves obtain Bezout through `ExtGcd`, which `EuclidRunIsExtGcd` equates
      with the loop. */
  lemma {:induction false} EuclidRunBezout(a: int, b: int, A: nat, B: nat, x0: int, y0: int, x1: int, y1: int)
    requires A == a * x0 + b * y0 && B == a * x1 + b * y1
    ensures var r := EuclidRun(A, B, x0, y0, x1, y1); a * r.x + b * r.y == r.g
    decreases B
  {
    if B > 0 {
      BezoutStep(a, b, A, B, A / B, A % B, x0, y0, x1, y1);
      EuclidRunBezout(a, b, B, A % B, x1, y1, x0 - (A / B) * x1, y0 - (A / B) * y1);
    }
  }

  lemma BezoutStep(a: int, b: int, A: int, B: int, q: int, rem: int, x0: int, y0: int, x1: int, y1: int)
    requires A == q * B + rem
    requires A == a * x0 + b * y0 && B == a * x1 + b * y1
    ensures rem == a * (x0 - q * x1) + b * (y0 - q * y1)
  {
  }

  lemma ExtGcdUnfold(A: nat, B: nat)
    requires B > 0
    ensures ExtGcd(A, B) == var s := ExtGcd(B, A % B); XgcdResult(s.y, s.x - (A / B) * s.y, s.g)
  {
  }

  lemma CombineStep(s: XgcdResult, q: int, x0: int, y0: int, x1: int, y1: int)
    ensures Combine(XgcdResult(s.y, s.x - q * s.y, s.g), x0, y0, x1, y1)
         == Combine(s, x1, y1, x0 - q * x1, y0 - q * y1)
  {
    assert x0 * s.y + x1 * (s.x - q * s.y) == x1 * s.x + (x0 - q * x1) * s.y;
    assert y0 * s.y + y1 * (s.x - q * s.y) == y1 * s.x + (y0 - q * y1) * s.y;
  }

  /** `xgcd_u64`: iterative extended Euclid; it returns the same coefficients as
      the recursive reference `ExtGcd`. */
  method XgcdU64(a: u64, b: u64) returns (r: XgcdResult)
    ensures r == ExtGcd(a, b)
    ensures r.g == NumberTheory.Gcd(a, b) && a * r.x + b * r.y == r.g
  {
    var A, B := a, b;
    var x0: int, y0: int, x1: int, y1: int := 1, 0, 0, 1;
    while B != 0
      invariant EuclidRun(A, B, x0, y0, x1, y1) == EuclidRun(a, b, 1, 0, 0, 1)
      decreases B
    {
      var q := A / B;
      var rem := A % B;
      A, B := B, rem;
      x0, x1 := x1, x0 - q * x1;
      y0, y1 := y1, y0 - q * y1;
    }
    r := XgcdResult(x0, y0, A);
    EuclidRunIsExtGcd(a, b);
  }

  /** `sa`, `sb` in `xgcd`: the sign of an argument, with `+1` for zero. */
  function Sign(v: int): int {
    if v < 0 then -1 else 1
  }

  /** `xgcd`: extended Euclid on the magnitudes, signs restored at the return. */
  method Xgcd(a: i64, b: i64) returns (r: XgcdResult)
    requires a != -TWO_63 && b != -TWO_63
    ensures a == 0 && b == 0 ==> r == XgcdResult(0, 0, 0)
    ensures r.g == NumberTheory.Gcd(Abs(a), Abs(b))
    ensures a * r.x + b * r.y == r.g
    ensures a != 0 || b != 0 ==>
      var e := ExtGcd(Abs(a), Abs(b));
      r == XgcdResult(Sign(a) * e.x, Sign(b) * e.y, e.g)
  {
    if a == 0 && b == 0 {
      return XgcdResult(0, 0, 0);
    }
    var sa, sb := Sign(a), Sign(b);
    var A: u64, B: u64 := Abs(a), Abs(b);
    var x0: int, y0: int, x1: int, y1: int := 1, 0, 0, 1;
    while B != 0
      invariant EuclidRun(A, B, x0, y0, x1, y1) == EuclidRun(Abs(a), Abs(b), 1, 0, 0, 1)
      decreases B
    {
      var q := A / B;
      var rem := A % B;
      A, B := B, rem;
      x0, x1 := x1, x0 - q * x1;
      y0, y1 := y1, y0 - q * y1;
    }
    EuclidRunIsExtGcd(Abs(a), Abs(b));
    SignRestore(a, b, x0, y0);
    r := XgcdResult(sa * x0, sb * y0, A);
  }

  lemma SignRestore(a: int, b: int, x: int, y: int)
    ensures a * (Sign(a) * x) + b * (Sign(b) * y) == Abs(a) * x + Abs(b) * y
  {
  }

  /** The documented example: `xgcd(35, 15) == {1, -2, 5}`. */
  lemma XgcdExample()
    ensures ExtGcd(35, 15) == XgcdResult(1, -2, 5)
    ensures Sign(35) == 1 && Sign(15) == 1
  {
    assert ExtGcd(5, 0) == XgcdResult(1, 0, 5);
    assert ExtGcd(15, 5) == XgcdResult(0, 1, 5);
  }

  // ---------------------------------------------------------------------------
  // Modular inverse

  /** The signed remainder `x % d` of C++: it truncates toward zero, so the result
      takes the sign of the dividend. */
  function TruncRem(x: int, d: int): (r: int)
    requires d != 0
    ensures (x - r) % Abs(d) == 0
    ensures x >= 0 ==> 0 <= r < Abs(d)
    ensures x < 0 ==> r <= 0 && -r < Abs(d)
  {
    var n := Abs(d);
    if x >= 0 then
      RemainderCongruent(x, n);
      x % n
    else
      RemainderCongruent(-x, n);
      NegateMultiple(-x - (-x) % n, n);
      -((-x) % n)
  }

  /** A number and its remainder differ by a multiple of the divisor. */
  lemma RemainderCongruent(p: int, n: int)
    requires n > 0
    ensures (p - p % n) % n == 0
  {
    ModAddMultiple(0, p / n, n);
  }

  lemma NegateMultiple(p: int, n: int)
    requires n > 0 && p % n == 0
    ensures (-p) % n == 0
  {
    ModAddMultiple(0, -(p / n), n);
  }

  /** `modinv`, with the cast `static_cast<i64>(m)` read as the intended
      conversion of the value `m` (see `ModInvAsWritten` for the code as written):
      `None` when `m == 0` or `a` has no inverse, else the inverse in `[0, m)`. */
  function ModInv(a: u64, m: u64): (r: Option<u64>)
    ensures r.Some? <==> m > 0 && NumberTheory.Gcd(a % m, m) == 1
    ensures r.Some? ==> r.value < m && (a * r.value) % m == 1 % m
  {
    if m == 0 then None
    else
      var e := ExtGcd(a % m, m);
      if e.g != 1 then None
      else
        var x := TruncRem(e.x, m);
        var inv := if x < 0 then x + m else x;
        InverseFromBezout(a, m, e.x, e.y, x, inv);
        Some(inv)
  }

  /** From `(a % m) * x + m * y == 1`, the normalised remainder of `x` is an inverse of `a`. */
  lemma InverseFromBezout(a: nat, m: nat, x: int, y: int, t: int, inv: int)
    requires m > 0 && (a % m) * x + m * y == 1
    requires (x - t) % m == 0 && t + m > 0 && t < m
    requires inv == if t < 0 then t + m else t
    ensures 0 <= inv < m && (a * inv) % m == 1 % m
  {
    assert inv % m == x % m by {
      CongruentIffDifference(x, t, m);
      ModAddMultiple(t, 1, m);
      DivModUnique(inv, m, 0, inv);
    }
    calc {
      (a * inv) % m;
      { ModMul(a, inv, m); }
      ((a % m) * (inv % m)) % m;
      { ModMul(a % m, x, m); ModOfMod(a, m); }
      ((a % m) * x) % m;
      { ModAddMultiple((a % m) * x, y, m); }
      1 % m;
    }
  }

  /** The inverse is unique in `[0, m)`. */
  lemma ModInvUnique(a: u64, m: u64, y: nat)
    requires m > 0 && y < m && (a * y) % m == 1 % m
    ensures ModInv(a, m) == Some(y)
  {
    var e := ExtGcd(a % m, m);
    GcdDividesBoth(a % m, m);
    CommonDivisorOfInverse(a, m, y, e.g);
    assert e.g == 1;
    var inv := ModInv(a, m).value;
    InverseCancel(a, m, inv, y);
  }

  /** If `a * y == 1 (mod m)`, a common divisor of `a % m` and `m` is 1. */
  lemma CommonDivisorOfInverse(a: nat, m: nat, y: nat, g: nat)
    requires m > 0 && (a * y) % m == 1 % m
    requires Divides(g, a % m) && Divides(g, m)
    ensures g == 1
  {
    DividesBound(g, m);
    assert Divides(g, a * y) by {
      DividesFromResidue(g, m, a);
      DividesMultiple(a, y);
      DividesTransitive(g, a, a * y);
    }
    assert Divides(g, 1 % m) by {
      DividesUnitResidue(g, m, a * y);
    }
    if m > 1 {
      DivModUnique(1, m, 0, 1);
      DividesBound(g, 1);
    }
  }

  lemma DividesFromResidue(g: nat, m: nat, a: int)
    requires m > 0 && Divides(g, m) && Divides(g, a % m)
    ensures Divides(g, a)
  {
    var q, r := a / m, a % m;
    assert a == q * m + 1 * r;
    DividesLinear(g, m, r, q, 1);
  }

  lemma DividesUnitResidue(g: nat, m: nat, p: int)
    requires m > 0 && Divides(g, m) && Divides(g, p) && p % m == 1 % m
    ensures Divides(g, 1 % m)
  {
    var q, r := p / m, p % m;
    assert r == 1 * p + (-q) * m;
    DividesLinear(g, p, m, 1, -q);
  }

  lemma InverseCancel(a: nat, m: nat, u: nat, v: nat)
    requires m > 0 && u < m && v < m && (a * u) % m == 1 % m && (a * v) % m == 1 % m
    ensures u == v
  {
    // u == u * (a * v) == v * (a * u) == v (mod m)
    calc {
      u % m;
      { ModMul(u, 1, m); ModMul(u, a * v, m); }
      (u * (a * v)) % m;
      { assert u * (a * v) == v * (a * u); }
      (v * (a * u)) % m;
      { ModMul(v, a * u, m); ModMul(v, 1, m); }
      v % m;
    }
    DivModUnique(u, m, 0, u);
    DivModUnique(v, m, 0, v);
  }

  /** `modinv` exactly as written: `static_cast<i64>(m)` is negative for
      `m >= 2^63`, so the remainder and the correction step use the wrong divisor. */
  function ModInvAsWritten(a: u64, m: u64): (r: Option<u64>)
    ensures m < TWO_63 ==> r == ModInv(a, m)
  {
    if m == 0 then None
    else
      var e := ExtGcd(a % m, m);
      if e.g != 1 then None
      else
        var sm := AsI64(m);
        var x := TruncRem(e.x, sm);
        var x' := if x < 0 then AsI64(Wrap(x + sm)) else x;
        Some(Wrap(x'))
  }

  /** `modinv(2, 2^64 - 1)` returns 0, which is no inverse; the inverse is `2^63`.
      Here `static_cast<i64>(m) == -1`, and every remainder modulo `-1` is 0. */
  lemma ModInvAsWrittenCounterexample()
    ensures ModInvAsWritten(2, TWO_64 - 1) == Some(0)
    ensures ModInv(2, TWO_64 - 1) == Some(TWO_63)
    ensures (2 * 0) % (TWO_64 - 1) != 1
  {
    InverseOfTwo();
    assert AsI64(TWO_64 - 1) == -1;
  }

  /** `2 * 2^63 == 1 (mod 2^64 - 1)`, so `2^63` is the inverse of 2. */
  lemma InverseOfTwo()
    ensures ModInv(2, TWO_64 - 1) == Some(TWO_63)
  {
    var m := TWO_64 - 1;
    assert 2 * TWO_63 == m + 1;
    DivModUnique(2 * TWO_63, m, 1, 1);
    DivModUnique(1, m, 0, 1);
    ModInvUnique(2, m, TWO_63);
  }

  // ---------------------------------------------------------------------------
  // mulmod

  /** `mulmod` on the `__int128` path: the product is formed exactly and reduced,
      so the result is the one residue of `a * b` below `m`. */
  function MulMod(a: u64, b: u64, m: u64): (r: u64)
    requires m > 0
    ensures r < m && (a * b - r) % m == 0
  {
    RemainderCongruent(a * b, m);
    (a * b) % m
  }

  /** `(u + v) % m` for residues `u, v < m`, computed without a sum above `m`. */
  function AddMod(u: u64, v: u64, m: u64): (r: u64)
    requires u < m && v < m
    ensures r == (u + v) % m
  {
    if u >= m - v then
      DivModUnique(u + v, m, 1, u - (m - v));
      u - (m - v)
    else
      DivModUnique(u + v, m, 0, u + v);
      u + v
  }

  /** The add-and-double fallback of `mulmod`, with the two additions done so that
      they cannot wrap: exact for every `m > 0`. */
  method MulModFallback(a: u64, b: u64, m: u64) returns (res: u64)
    requires m > 0
    ensures res == MulMod(a, b, m)
  {
    res := 0;
    var x: u64, y: u64 := a % m, b % m;
    ModMul(a, b, m);
    while y != 0
      invariant res < m && x < m
      invariant (res + x * y) % m == (a * b) % m
      decreases y
    {
      AddDoubleStep(res, x, y, m);
      if y % 2 == 1 {
        res := AddMod(res, x, m);
      }
      x := AddMod(x, x, m);
      y := y / 2;
    }
    DivModUnique(res, m, 0, res);
  }

  /** One step of add-and-double keeps `res + x * y` modulo `m`. */
  lemma AddDoubleStep(res: nat, x: nat, y: nat, m: nat)
    requires m > 0 && res < m
    ensures ((if y % 2 == 1 then (res + x) % m else res) + ((x + x) % m) * (y / 2)) % m
         == (res + x * y) % m
  {
    var r1 := if y % 2 == 1 then res + x else res;
    var u := if y % 2 == 1 then (res + x) % m else res;
    assert u == r1 % m by {
      if y % 2 != 1 {
        DivModUnique(res, m, 0, res);
      }
    }
    HalveProduct(res, x, y, r1);
    ReduceSummands(r1, u, x + x, y / 2, res + x * y, m);
  }

  lemma ReduceSummands(t: int, u: int, v: int, k: int, total: int, m: int)
    requires m > 0 && u == t % m && t + v * k == total
    ensures (u + (v % m) * k) % m == total % m
  {
    ModLinear(t, v, k, m);
  }

  lemma HalveProduct(res: int, x: int, y: nat, r1: int)
    requires r1 == if y % 2 == 1 then res + x else res
    ensures r1 + (x + x) * (y / 2) == res + x * y
  {
    assert y == 2 * (y / 2) + y % 2;
    assert x * y == x * (2 * (y / 2)) + x * (y % 2);
  }

  /** Reducing both summands of `u + v * k` first does not change the residue. */
  lemma ModLinear(u: int, v: int, k: int, m: int)
    requires m > 0
    ensures ((u % m) + (v % m) * k) % m == (u + v * k) % m
  {
    ModMulLeft(v, k, m);
    ModAdd(u, v * k, m);
    ModAdd(u % m, (v % m) * k, m);
    ModOfMod(u, m);
  }

  /** The fallback loop exactly as written: `res + a` and `a << 1` are `u64`
      operations and wrap modulo `2^64`. */
  function AddDouble(res: u64, x: u64, y: u64, m: u64): (r: u64)
    requires m > 0
    ensures y > 0 || res < m ==> r < m
    decreases y
  {
    if y == 0 then res
    else
      var res' := if y % 2 == 1 then Wrap(res + x) % m else res;
      AddDouble(res', Wrap(2 * x) % m, y / 2, m)
  }

  /** The add-and-double fallback of `mulmod` as written; exact when `m <= 2^63`. */
  method MulModFallbackAsWritten(a: u64, b: u64, m: u64) returns (res: u64)
    requires m > 0
    ensures res == AddDouble(0, a % m, b % m, m)
    ensures m <= TWO_63 ==> res == MulMod(a, b, m)
  {
    res := 0;
    var x: u64, y: u64 := a % m, b % m;
    while y != 0
      invariant AddDouble(res, x, y, m) == AddDouble(0, a % m, b % m, m)
      decreases y
    {
      if y % 2 == 1 {
        res := Wrap(res + x) % m;
      }
      x := Wrap(2 * x) % m;
      y := y / 2;
    }
    if m <= TWO_63 {
      AddDoubleExact(0, a % m, b % m, m);
      ModMul(a, b, m);
    }
  }

  /** Without wrap-around (`m <= 2^63`), the as-written loop computes `res + x * y` modulo `m`. */
  lemma {:induction false} AddDoubleExact(res: u64, x: u64, y: u64, m: u64)
    requires 0 < m <= TWO_63 && res < m && x < m
    ensures AddDouble(res, x, y, m) == (res + x * y) % m
    decreases y
  {
    if y == 0 {
      DivModUnique(res, m, 0, res);
    } else {
      assert Wrap(res + x) == res + x && Wrap(2 * x) == x + x;
      AddDoubleExact(if y % 2 == 1 then Wrap(res + x) % m else res, Wrap(2 * x) % m, y / 2, m);
      AddDoubleStep(res, x, y, m);
    }
  }

  /** With `m = 2^64 - 1` the doubling of `2^63` wraps to 0: the fallback as
      written returns 0 for `2^63 * 2 mod (2^64 - 1)`, whose value is 1. */
  lemma MulModFallbackCounterexample()
    ensures AddDouble(0, TWO_63 % (TWO_64 - 1), 2 % (TWO_64 - 1), TWO_64 - 1) == 0
    ensures MulMod(TWO_63, 2, TWO_64 - 1) == 1
  {
    var m := TWO_64 - 1;
    assert TWO_63 % m == TWO_63 && 2 % m == 2;
    assert Wrap(2 * TWO_63) == 0;
    assert AddDouble(0, 0, 1, m) == AddDouble(0, 0, 0, m);
    assert AddDouble(0, TWO_63, 2, m) == AddDouble(0, 0, 1, m);
  }

  // ---------------------------------------------------------------------------
  // powmod

  /** `powmod`: binary exponentiation; `0` for `m == 1` and `1 % m` for `e == 0`. */
  method PowMod(a: u64, e: u64, m: u64) returns (r: u64)
    requires m > 0
    ensures r == Pow(a, e) % m
  {
    if m == 1 {
      return 0;
    }
    r := 1;
    var b: u64, k: u64 := a % m, e;
    PowModBase(a, e, m);
    while k != 0
      invariant r < m && b < m
      invariant (r * Pow(b, k)) % m == Pow(a, e) % m
      decreases k
    {
      PowModStep(r, b, k, m);
      if k % 2 == 1 {
        r := MulMod(r, b, m);
      }
      b := MulMod(b, b, m);
      k := k / 2;
    }
    DivModUnique(r, m, 0, r);
  }

  /** One square-and-multiply step keeps `r * b^k` modulo `m`. */
  lemma PowModStep(r: nat, b: nat, k: nat, m: nat)
    requires m > 0 && k > 0
    ensures ((if k % 2 == 1 then (r * b) % m else r) * Pow((b * b) % m, k / 2)) % m
         == (r * Pow(b, k)) % m
  {
    var r1 := if k % 2 == 1 then r * b else r;
    var h := Pow((b * b) % m, k / 2);
    PowModBase(b * b, k / 2, m);
    PowSquare(b, k / 2);
    SplitPower(r, b, k, r1);
    // both factors may be reduced modulo m
    ModMul(if k % 2 == 1 then (r * b) % m else r, h, m);
    ModMul(r1, Pow(b, 2 * (k / 2)), m);
    ModOfMod(r1, m);
  }

  lemma SplitPower(r: nat, b: nat, k: nat, r1: nat)
    requires r1 == if k % 2 == 1 then r * b else r
    ensures r1 * Pow(b, 2 * (k / 2)) == r * Pow(b, k)
  {
    PowAdd(b, 2 * (k / 2), k % 2);
    assert k == 2 * (k / 2) + k % 2;
    if k % 2 == 1 {
      assert Pow(b, 1) == b;
    }
  }
}
