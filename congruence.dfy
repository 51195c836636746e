/** Linear congruences and the Chinese remainder theorem for two moduli
    (src/congruence.cpp). Both operations are straight-line code over the
    modular-arithmetic layer and are modelled as functions. */
module Congruence {
  import opened Words
  import opened NumberTheory
  import Arithmetic

  // ---------------------------------------------------------------------------
  // solve_linear_congruence

  /** `solve_linear_congruence(a, b, m)`: a solution of `a * x == b (mod m)`.
      After reducing `a` and `b` and dividing everything by `g = gcd(a mod m, m)`,
      the answer is `b / g` times the inverse of `a / g` modulo `m / g`. */
  function Solve(a: u64, b: u64, m: u64): (r: Option<u64>)
    ensures r.Some? ==> m > 0 && r.value < m
  {
    if m == 0 then None
    else if m == 1 then Some(0)
    else
      var a1, b1 := a % m, b % m;
      var g := Gcd(a1, m);
      GcdBound(a1, m);
      if b1 % g != 0 then None
      else
        QuotientBounds(a1, g);
        QuotientBounds(b1, g);
        QuotientBounds(m, g);
        var a2: u64, b2: u64, m2: u64 := a1 / g, b1 / g, m / g;
        match Arithmetic.ModInv(a2, m2)
        case None => None
        case Some(inv) => Some(Arithmetic.MulMod(inv, b2, m2))
  }

  lemma QuotientBounds(x: int, g: int)
    requires x >= 0 && g > 0
    ensures 0 <= x / g <= x && (g <= x ==> x / g >= 1)
  {
    var q, r := x / g, x % g;
    assert x == q * g + r && 0 <= r < g;
    MulSigns(q, g);
    assert q >= 0;
    MulSigns(g, q);
  }

  /** The quotient modulus of a solvable congruence. */
  function Period(a: u64, m: u64): nat
    requires m > 0
  {
    GcdBound(a % m, m);
    m / Gcd(a % m, m)
  }

  /** The cofactors of `g = gcd(a mod m, m)`: `a mod m == g * a2`, `m == g * m2`
      with `a2 < m2` coprime. */
  lemma SolveCofactors(a: u64, m: u64)
    requires m > 0
    ensures var g := Gcd(a % m, m);
      g > 0 && a % m == g * ((a % m) / g) && m == g * (m / g) &&
      m / g > 0 && (a % m) / g < m / g && Gcd((a % m) / g, m / g) == 1
  {
    var a1 := a % m;
    var g := Gcd(a1, m);
    CofactorFacts(a1, m, g);
    CofactorsCoprime(a1, m, g, a1 / g, m / g);
    QuotientBelow(g, a1 / g, m / g);
  }

  lemma QuotientBelow(g: int, x: int, y: int)
    requires g > 0 && g * x < g * y
    ensures x < y
  {
    assert (x - y) * g == g * x - g * y;
    MulSigns(x - y, g);
  }

  /** The `!inv_opt` branch is unreachable: once `g` divides `b`, the inverse exists. */
  lemma InverseExists(a2: u64, m2: u64)
    requires 0 < m2 && a2 < m2 && Gcd(a2, m2) == 1
    ensures Arithmetic.ModInv(a2, m2).Some?
  {
    DivModUnique(a2, m2, 0, a2);
  }

  /** `Solve` returns nothing exactly when `gcd(a mod m, m)` does not divide `b mod m`,
      or when `m == 0`. */
  lemma SolveSolvable(a: u64, b: u64, m: u64)
    ensures Solve(a, b, m).None? <==> m == 0 || !Divides(Gcd(a % m, m), b % m)
  {
    if m > 1 {
      var a1 := a % m;
      var g := Gcd(a1, m);
      SolveCofactors(a, m);
      QuotientBounds(a1, g);
      QuotientBounds(m, g);
      var a2: u64, m2: u64 := a1 / g, m / g;
      InverseExists(a2, m2);
    } else if m == 1 {
      assert Gcd(a % m, m) == 1 by {
        assert a % m == 0;
        assert Gcd(0, 1) == Gcd(1, 0);
      }
    }
  }

  /** A result solves the congruence and lies below `m / g`. */
  lemma SolveSound(a: u64, b: u64, m: u64)
    requires Solve(a, b, m).Some?
    ensures m > 0
    ensures (a * Solve(a, b, m).value) % m == b % m
    ensures Solve(a, b, m).value < Period(a, m)
  {
    var x := Solve(a, b, m).value;
    if m == 1 {
      assert Gcd(a % m, m) == 1 by {
        assert a % m == 0;
        assert Gcd(0, 1) == Gcd(1, 0);
      }
    } else {
      var g, a2, b2, m2, inv := SolveSteps(a, b, m);
      SoundCore(a, b, m, a % m, b % m, g, a2, b2, m2, inv, x);
    }
  }

  /** The quantities `solve_linear_congruence` works with once `m > 1` and a result
      exists: the gcd `g`, the divided coefficients and modulus, and the inverse. */
  lemma SolveSteps(a: u64, b: u64, m: u64) returns (g: nat, a2: nat, b2: nat, m2: nat, inv: int)
    requires m > 1 && Solve(a, b, m).Some?
    ensures g > 0 && m2 > 0 && m == g * m2 && a % m == g * a2 && b % m == g * b2
    ensures m2 == Period(a, m) && Solve(a, b, m).value < m2
    ensures (a2 * inv) % m2 == 1 % m2 && (inv * b2 - Solve(a, b, m).value) % m2 == 0
  {
    var a1, b1 := a % m, b % m;
    g := Gcd(a1, m);
    SolveCofactors(a, m);
    DividesQuotient(g, b1);
    QuotientBounds(a1, g);
    QuotientBounds(b1, g);
    QuotientBounds(m, g);
    var a2': u64, b2': u64, m2': u64 := a1 / g, b1 / g, m / g;
    a2, b2, m2 := a2', b2', m2';
    inv := Arithmetic.ModInv(a2', m2').value;
    assert Solve(a, b, m).value == Arithmetic.MulMod(inv, b2', m2');
  }

  lemma SoundCore(a: int, b: int, m: nat, a1: int, b1: int, g: nat, a2: int, b2: int, m2: nat, inv: int, x: int)
    requires m > 0 && g > 0 && m2 > 0 && a1 == a % m && b1 == b % m
    requires a1 == g * a2 && b1 == g * b2 && m == g * m2
    requires (a2 * inv) % m2 == 1 % m2 && (inv * b2 - x) % m2 == 0
    ensures (a * x) % m == b % m
  {
    InverseSolves(a2, inv, b2, m2, x);
    ScaleDivides(g, m2, a2 * x - b2);
    assert g * (a2 * x - b2) == a1 * x - b1;
    ModMulLeft(a, x, m);
    RaiseCongruence(a1 * x, b1, m);
  }

  /** `x == inv * b (mod m)` solves `a * x == b (mod m)` when `inv` inverts `a`. */
  lemma InverseSolves(a: int, inv: int, b: int, m: nat, x: int)
    requires m > 0 && (a * inv) % m == 1 % m && (inv * b - x) % m == 0
    ensures Divides(m, a * x - b)
  {
    CongruentIffDifference(a * inv, 1, m);
    assert -a * (inv * b - x) + b * (a * inv - 1) == a * x - b;
    DividesLinear(m, inv * b - x, a * inv - 1, -a, b);
  }

  /** `m | p - q` with `0 <= q < m` means `p % m == q`. */
  lemma RaiseCongruence(p: int, q: int, m: nat)
    requires m > 0 && 0 <= q < m && Divides(m, p - q)
    ensures p % m == q
  {
    CongruentIffDifference(p, q, m);
    DivModUnique(q, m, 0, q);
  }

  /** Every solution is congruent to the result modulo `m / g`; the result is
      therefore the smallest non-negative solution. */
  lemma SolveComplete(a: u64, b: u64, m: u64, y: nat)
    requires Solve(a, b, m).Some? && m > 0 && (a * y) % m == b % m
    ensures y % Period(a, m) == Solve(a, b, m).value
    ensures Solve(a, b, m).value <= y
  {
    SolveSound(a, b, m);
    var x := Solve(a, b, m).value;
    if m == 1 {
      assert Gcd(a % m, m) == 1 by {
        assert a % m == 0;
        assert Gcd(0, 1) == Gcd(1, 0);
      }
    } else {
      var g, a2, b2, m2, inv := SolveSteps(a, b, m);
      LowerCongruence(a, y, b, m, g, a2, b2, m2);
      SameResidue(a2, inv, b2, m2, x, y);
      DivModUnique(x, m2, 0, x);
    }
    if y < x {
      DivModUnique(y, Period(a, m), 0, y);
    }
  }

  /** A solution modulo `m == g * m2` solves the divided congruence modulo `m2`. */
  lemma LowerCongruence(a: int, y: int, b: int, m: nat, g: nat, a2: int, b2: int, m2: nat)
    requires m > 0 && g > 0 && m == g * m2
    requires a % m == g * a2 && b % m == g * b2 && (a * y) % m == b % m
    ensures Divides(m2, a2 * y - b2)
  {
    var a1, b1 := a % m, b % m;
    ResidueDifference(a, y, b, m);
    ScaledDifference(a1, b1, y, g, a2, b2);
    CancelCommon(m, a1 * y - b1, g, m2, a2 * y - b2);
  }

  /** A solution of `a * y == b (mod m)` makes `m` divide `(a mod m) * y - b mod m`. */
  lemma ResidueDifference(a: int, y: int, b: int, m: nat)
    requires m > 0 && (a * y) % m == b % m
    ensures Divides(m, (a % m) * y - b % m)
  {
    var a1, b1 := a % m, b % m;
    ModMulLeft(a, y, m);
    ModOfMod(b, m);
    CongruentIffDifference(a1 * y, b1, m);
  }

  lemma CancelCommon(m: nat, d: int, g: nat, m2: nat, c: int)
    requires g > 0 && m == g * m2 && d == g * c && Divides(m, d)
    ensures Divides(m2, c)
  {
    DividesCancel(g, m2, c);
  }

  lemma ScaledDifference(a1: int, b1: int, y: int, g: int, a2: int, b2: int)
    requires a1 == g * a2 && b1 == g * b2
    ensures a1 * y - b1 == g * (a2 * y - b2)
  {
  }

  /** Two solutions of the divided, invertible congruence agree modulo `m2`. */
  lemma SameResidue(a: int, inv: int, b: int, m: nat, x: int, y: int)
    requires m > 0 && (a * inv) % m == 1 % m && (inv * b - x) % m == 0
    requires Divides(m, a * y - b)
    ensures y % m == x % m
  {
    CongruentIffDifference(a * inv, 1, m);
    assert -y * (a * inv - 1) + inv * (a * y - b) == y - inv * b;
    DividesLinear(m, a * inv - 1, a * y - b, -y, inv);
    DividesLinear(m, y - inv * b, inv * b - x, 1, 1);
    CongruentIffDifference(y, x, m);
  }

  /** With no result, nothing solves the congruence. */
  lemma SolveNone(a: u64, b: u64, m: u64, y: int)
    requires m > 0 && Solve(a, b, m).None?
    ensures (a * y) % m != b % m
  {
    SolveSolvable(a, b, m);
    var g := Gcd(a % m, m);
    GcdDividesBoth(a % m, m);
    if (a * y) % m == b % m {
      NoneCore(a, y, b, m, a % m, b % m, g);
    }
  }

  /** A solution forces every common divisor of `a mod m` and `m` to divide `b mod m`. */
  lemma NoneCore(a: int, y: int, b: int, m: nat, a1: int, b1: int, g: nat)
    requires m > 0 && g > 0 && a1 == a % m && b1 == b % m
    requires Divides(g, a1) && Divides(g, m) && (a * y) % m == b % m
    ensures Divides(g, b1)
  {
    var p := a1 * y;
    ResidueDifference(a, y, b, m);
    DividesTransitive(g, m, p - b1);
    DividesProduct(g, a1, y);
    DividesLinear(g, p, p - b1, 1, -1);
    assert 1 * p + (-1) * (p - b1) == b1;
  }

  /** `solve_linear_congruence` as written: the same steps, with the inverse taken
      by `modinv` as written. */
  function SolveAsWritten(a: u64, b: u64, m: u64): (r: Option<u64>)
    ensures r.Some? ==> m > 0 && r.value < m
  {
    if m == 0 then None
    else if m == 1 then Some(0)
    else
      var a1, b1 := a % m, b % m;
      var g := Gcd(a1, m);
      GcdBound(a1, m);
      if b1 % g != 0 then None
      else
        QuotientBounds(a1, g);
        QuotientBounds(b1, g);
        QuotientBounds(m, g);
        var a2: u64, b2: u64, m2: u64 := a1 / g, b1 / g, m / g;
        match Arithmetic.ModInvAsWritten(a2, m2)
        case None => None
        case Some(inv) => Some(Arithmetic.MulMod(inv, b2, m2))
  }

  /** The solver as written agrees with the corrected one whenever the reduced
      modulus `m / g` is below `2^63`. */
  lemma SolveAsWrittenAgrees(a: u64, b: u64, m: u64)
    requires m <= 1 || Period(a, m) < TWO_63
    ensures SolveAsWritten(a, b, m) == Solve(a, b, m)
  {
  }

  /** `solve_linear_congruence(2, 1, 2^64 - 1)` as written answers 0, which does not
      solve `2 * x == 1`; the corrected solver answers `2^63`. */
  lemma SolveAsWrittenCounterexample()
    ensures SolveAsWritten(2, 1, TWO_64 - 1) == Some(0) && (2 * 0) % (TWO_64 - 1) != 1
    ensures Solve(2, 1, TWO_64 - 1) == Some(TWO_63)
  {
    var m: u64 := TWO_64 - 1;
    GcdTwoWord();
    CoprimeSolve(2, 1, m);
    Arithmetic.ModInvAsWrittenCounterexample();
    Arithmetic.InverseOfTwo();
    assert Arithmetic.MulMod(0, 1, m) == 0;
    assert Arithmetic.MulMod(TWO_63, 1, m) == TWO_63;
  }

  /** With reduced, coprime arguments, both solvers multiply `b` by the inverse of `a`. */
  lemma CoprimeSolve(a: u64, b: u64, m: u64)
    requires 1 < m && a < m && b < m && Gcd(a, m) == 1
    ensures Solve(a, b, m) ==
      match Arithmetic.ModInv(a, m)
      case None => None
      case Some(inv) => Some(Arithmetic.MulMod(inv, b, m))
    ensures SolveAsWritten(a, b, m) ==
      match Arithmetic.ModInvAsWritten(a, m)
      case None => None
      case Some(inv) => Some(Arithmetic.MulMod(inv, b, m))
  {
    DivModUnique(a, m, 0, a);
    DivModUnique(b, m, 0, b);
    var g := Gcd(a % m, m);
    assert g == 1;
    DivideByOne(a, b, m, g);
  }

  lemma DivideByOne(a: int, b: int, m: int, g: int)
    requires g == 1
    ensures b % g == 0 && a / g == a && b / g == b && m / g == m
  {
  }

  /** `2^64 - 1` is odd. */
  lemma GcdTwoWord()
    ensures Gcd(2, TWO_64 - 1) == 1
  {
    assert Gcd(2, TWO_64 - 1) == Gcd(TWO_64 - 1, 2);
    assert Gcd(TWO_64 - 1, 2) == Gcd(2, 1);
  }

  // ---------------------------------------------------------------------------
  // crt

  /** How the two residues are combined once `r1 < m1` and `r2 < m2` are reduced;
      the only step where the as-written and the corrected `crt` differ. */
  lemma DifferenceFacts(s1: u64, s2: u64, m2: u64)
    requires s2 < m2
    ensures Difference(s1, s2, m2) < m2
    ensures (Difference(s1, s2, m2) - (s2 - s1)) % m2 == 0
  {
    var s1m := s1 % m2;
    var d := Difference(s1, s2, m2);
    assert d - (s2 - s1) == (s1 - s1m) + (if s2 >= s1m then 0 else m2);
    RemainderMultiple(s1, m2);
    DividesLinear(m2, s1 - s1m, m2, 1, if s2 >= s1m then 0 else 1);
  }

  lemma RemainderMultiple(x: int, m: nat)
    requires m > 0
    ensures Divides(m, x - x % m)
  {
    assert x - x % m == (x / m) * m;
    DividesMultiple(m, x / m);
  }

  /** `r2 - r1 (mod m2)` in `[0, m2)`, with `r1` reduced modulo `m2` first. */
  function Difference(s1: u64, s2: u64, m2: u64): (r: u64)
    requires s2 < m2
    ensures r < m2
  {
    var s1m := s1 % m2;
    if s2 >= s1m then s2 - s1m else s2 + m2 - s1m
  }

  /** The difference as the source computes it: `r2 + m2 - r1` wraps when
      `r1 > r2 + m2`. */
  function DifferenceAsWritten(s1: u64, s2: u64, m2: u64): (r: u64)
    requires m2 > 0
    ensures r < m2
  {
    (if s2 >= s1 then s2 - s1 else Wrap(s2 + m2 - s1)) % m2
  }

  /** The tail of `crt`: solve `m1 * t == diff (mod m2)` and lift `t`. */
  function Lift(s1: u64, m1: u64, m2: u64, diff: u64): (r: Option<(u64, u64)>)
    requires m1 > 0 && m2 > 0
    ensures r.Some? ==> r.value.1 == Wrap(Lcm(m1, m2)) && r.value.0 < r.value.1
  {
    match Solve(m1, diff, m2)
    case None => None
    case Some(t) => Some(Place(s1, m1, m2, t))
  }

  /** The last lines of `crt`: `r1 + m1 * t` modulo `M = (m1 / g) * m2`, all in
      64-bit words. */
  function Place(s1: u64, m1: u64, m2: u64, t: u64): (r: (u64, u64))
    requires m1 > 0 && m2 > 0
    ensures r.1 == Wrap(Lcm(m1, m2)) && r.0 < r.1
  {
    LcmWordNonzero(m1, m2);
    var M := Wrap(Lcm(m1, m2));
    var term := Arithmetic.MulMod(m1 % M, t % M, M);
    (Wrap(term + s1 % M) % M, M)
  }

  /** `crt(r1, m1, r2, m2)` with the difference step corrected. */
  function Crt(r1: u64, m1: u64, r2: u64, m2: u64): (r: Option<(u64, u64)>)
    ensures r.Some? ==> m1 > 0 && m2 > 0 && r.value.0 < r.value.1
  {
    if m1 == 0 || m2 == 0 then None
    else
      var s1, s2 := r1 % m1, r2 % m2;
      if m1 == 1 then Some((s2, m2))
      else if m2 == 1 then Some((s1, m1))
      else Lift(s1, m1, m2, Difference(s1, s2, m2))
  }

  /** The tail of `crt` as written: the inner `solve_linear_congruence` inherits
      the signed casts of `modinv`. */
  function LiftAsWritten(s1: u64, m1: u64, m2: u64, diff: u64): (r: Option<(u64, u64)>)
    requires m1 > 0 && m2 > 0
    ensures r.Some? ==> r.value.1 == Wrap(Lcm(m1, m2)) && r.value.0 < r.value.1
  {
    match SolveAsWritten(m1, diff, m2)
    case None => None
    case Some(t) => Some(Place(s1, m1, m2, t))
  }

  /** `crt(r1, m1, r2, m2)` as written: the wrapping difference and the inner solve
      as written. */
  function CrtAsWritten(r1: u64, m1: u64, r2: u64, m2: u64): (r: Option<(u64, u64)>)
    ensures r.Some? ==> m1 > 0 && m2 > 0 && r.value.0 < r.value.1
  {
    if m1 == 0 || m2 == 0 then None
    else
      var s1, s2 := r1 % m1, r2 % m2;
      if m1 == 1 then Some((s2, m2))
      else if m2 == 1 then Some((s1, m1))
      else LiftAsWritten(s1, m1, m2, DifferenceAsWritten(s1, s2, m2))
  }

  /** Whatever the moduli, a result is a residue below `M`, and `M` is the lcm of the
      moduli reduced to a 64-bit word. */
  lemma CrtModulus(r1: u64, m1: u64, r2: u64, m2: u64)
    requires Crt(r1, m1, r2, m2).Some?
    ensures m1 > 0 && m2 > 0
    ensures Crt(r1, m1, r2, m2).value.1 == Wrap(Lcm(m1, m2))
    ensures Crt(r1, m1, r2, m2).value.0 < Crt(r1, m1, r2, m2).value.1
  {
    if m1 == 1 {
      LcmWithOne(m2);
    } else if m2 == 1 {
      LcmWithOne(m1);
    }
  }

  /** When the lcm fits in a word, `crt` returns a solution of both congruences
      modulo the lcm. */
  lemma CrtSolution(r1: u64, m1: u64, r2: u64, m2: u64)
    requires Crt(r1, m1, r2, m2).Some? && Lcm(m1, m2) < TWO_64
    ensures m1 > 0 && m2 > 0
    ensures Crt(r1, m1, r2, m2).value.1 == Lcm(m1, m2)
    ensures Crt(r1, m1, r2, m2).value.0 < Crt(r1, m1, r2, m2).value.1
    ensures Crt(r1, m1, r2, m2).value.0 % m1 == r1 % m1
    ensures Crt(r1, m1, r2, m2).value.0 % m2 == r2 % m2
  {
    var s1, s2 := r1 % m1, r2 % m2;
    if m1 == 1 {
      LcmWithOne(m2);
      ModOfMod(r2, m2);
    } else if m2 == 1 {
      LcmWithOne(m1);
      ModOfMod(r1, m1);
    } else {
      var diff := Difference(s1, s2, m2);
      assert Crt(r1, m1, r2, m2) == Lift(s1, m1, m2, diff);
      DifferenceFacts(s1, s2, m2);
      LiftSolves(s1, m1, m2, diff);
      var r := Lift(s1, m1, m2, diff).value.0;
      ShiftedResidue(r, s1, diff, s2, m2);
    }
  }

  /** `r == s1 + diff (mod m2)` and `diff == s2 - s1 (mod m2)` give `r mod m2 == s2`. */
  lemma ShiftedResidue(r: int, s1: int, diff: int, s2: int, m2: nat)
    requires m2 > 0 && 0 <= s2 < m2
    requires (r - s1 - diff) % m2 == 0 && (diff - (s2 - s1)) % m2 == 0
    ensures r % m2 == s2
  {
    DividesLinear(m2, r - s1 - diff, diff - (s2 - s1), 1, 1);
    assert 1 * (r - s1 - diff) + 1 * (diff - (s2 - s1)) == r - s2;
    CongruentIffDifference(r, s2, m2);
    DivModUnique(s2, m2, 0, s2);
  }

  /** The lift of a solution `t` of `m1 * t == diff (mod m2)`: when the lcm fits in a
      word, the result is `s1 + m1 * t` itself, so it is `s1` modulo `m1` and
      `s1 + diff` modulo `m2`. */
  lemma LiftSolves(s1: u64, m1: u64, m2: u64, diff: u64)
    requires 0 <= s1 < m1 && m2 > 0 && Lift(s1, m1, m2, diff).Some? && Lcm(m1, m2) < TWO_64
    ensures Lift(s1, m1, m2, diff).value.1 == Lcm(m1, m2)
    ensures Lift(s1, m1, m2, diff).value.0 < Lcm(m1, m2)
    ensures Lift(s1, m1, m2, diff).value.0 % m1 == s1
    ensures (Lift(s1, m1, m2, diff).value.0 - s1 - diff) % m2 == 0
  {
    var t := Solve(m1, diff, m2).value;
    var q := InnerSolution(m1, m2, diff);
    var L: u64 := Lcm(m1, m2);
    assert Wrap(L) == L;
    var term := Arithmetic.MulMod(m1 % L, t % L, L);
    var r := Wrap(term + s1 % L) % L;
    assert Lift(s1, m1, m2, diff) == Some((r, L));
    LiftExact(m1, s1, t, q, L, term);
    assert r == s1 + m1 * t by {
      assert term + s1 % L == s1 + m1 * t;
      DivModUnique(s1 + m1 * t, L, 0, s1 + m1 * t);
    }
    LiftedResidues(s1, m1, t, m2, diff);
  }

  /** The inner solution `t` of `m1 * t == diff (mod m2)` lies below `q = m2 / g`,
      and `Lcm(m1, m2) == m1 * q`. */
  lemma InnerSolution(m1: u64, m2: u64, diff: u64) returns (q: nat)
    requires m1 > 0 && m2 > 0 && Solve(m1, diff, m2).Some?
    ensures Solve(m1, diff, m2).value < q && Lcm(m1, m2) == m1 * q
    ensures (m1 * Solve(m1, diff, m2).value) % m2 == diff % m2
  {
    SolveSound(m1, diff, m2);
    GcdReduce(m1, m2);
    LcmSplit(m1, m2);
    q := m2 / Gcd(m1, m2);
  }

  /** No step of the lift wraps when `M == m1 * q` fits, `t < q` and `s1 < m1`. */
  lemma LiftExact(m1: nat, s1: nat, t: nat, q: nat, M: nat, term: int)
    requires s1 < m1 && t < q && M == m1 * q
    requires 0 <= term < M && ((m1 % M) * (t % M) - term) % M == 0
    ensures term == m1 * t && m1 * t + s1 < M && s1 % M == s1
  {
    BelowProduct(m1, t, s1, q);
    MulSigns(t, m1);
    ModMul(m1, t, M);
    CongruentIffDifference((m1 % M) * (t % M), term, M);
    DivModUnique(term, M, 0, term);
    DivModUnique(m1 * t, M, 0, m1 * t);
    DivModUnique(s1, M, 0, s1);
  }

  lemma BelowProduct(m: int, t: int, s: int, q: int)
    requires 0 <= s < m && 0 <= t < q
    ensures m * t + s < m * q
  {
    assert m * q - m * t - m == (q - t - 1) * m;
    MulSigns(q - t - 1, m);
  }

  /** `s1 + m1 * t` is `s1` modulo `m1` and `s1 + diff` modulo `m2`. */
  lemma LiftedResidues(s1: int, m1: nat, t: int, m2: nat, diff: int)
    requires m1 > 0 && m2 > 0 && 0 <= s1 < m1 && (m1 * t) % m2 == diff % m2
    ensures (s1 + m1 * t) % m1 == s1
    ensures (s1 + m1 * t - s1 - diff) % m2 == 0
  {
    ModAddMultiple(s1, t, m1);
    DivModUnique(s1, m1, 0, s1);
    CongruentIffDifference(m1 * t, diff, m2);
  }

  /** `Lcm(m1, m2) == m1 * (m2 / g)` with `g = gcd(m1, m2)`. */
  lemma LcmSplit(m1: nat, m2: nat)
    requires m1 > 0 && m2 > 0
    ensures Gcd(m1, m2) > 0 && Lcm(m1, m2) == m1 * (m2 / Gcd(m1, m2))
  {
    var g := Gcd(m1, m2);
    CofactorFacts(m1, m2, g);
    var a, b := m1 / g, m2 / g;
    Reassociate(a, g, b, m1, m2);
  }

  lemma Reassociate(a: int, g: int, b: int, m1: int, m2: int)
    requires m1 == g * a && m2 == g * b
    ensures a * m2 == m1 * b
  {
    assert a * (g * b) == (g * a) * b;
  }

  /** One is coprime to everything, so `Lcm(1, m) == Lcm(m, 1) == m`. */
  lemma LcmWithOne(m: nat)
    requires m > 0
    ensures Gcd(1, m) == 1 && Gcd(m, 1) == 1 && Lcm(1, m) == m && Lcm(m, 1) == m
  {
    GcdDividesBoth(1, m);
    DividesBound(Gcd(1, m), 1);
    assert Gcd(m, 1) == Gcd(1, m % 1);
    assert m % 1 == 0;
  }

  /** `crt` returns nothing exactly when a modulus is zero or `gcd(m1, m2)` does not
      divide `r1 - r2`. */
  lemma CrtSolvable(r1: u64, m1: u64, r2: u64, m2: u64)
    ensures Crt(r1, m1, r2, m2).None? <==> m1 == 0 || m2 == 0 || !Divides(Gcd(m1, m2), r1 - r2)
  {
    if m1 > 0 && m2 > 0 && (m1 == 1 || m2 == 1) {
      UnitGcdDivides(m1, m2, r1 - r2);
    } else if m1 > 1 && m2 > 1 {
      LiftCase(r1, m1, r2, m2);
    }
  }

  lemma UnitGcdDivides(m1: nat, m2: nat, e: int)
    requires m1 > 0 && m2 > 0 && (m1 == 1 || m2 == 1)
    ensures Divides(Gcd(m1, m2), e)
  {
    LcmWithOne(if m1 == 1 then m2 else m1);
    DivModUnique(e, 1, e, 0);
  }

  lemma LiftCase(r1: u64, m1: u64, r2: u64, m2: u64)
    requires m1 > 1 && m2 > 1
    ensures Crt(r1, m1, r2, m2).None? <==> !Divides(Gcd(m1, m2), r1 - r2)
  {
    var s1, s2 := r1 % m1, r2 % m2;
    var diff := Difference(s1, s2, m2);
    assert Crt(r1, m1, r2, m2) == Lift(s1, m1, m2, diff);
    DifferenceDivisible(r1, m1, r2, m2);
    LiftSolvable(s1, m1, m2, diff);
  }

  /** The corrected difference is a residue modulo `m2`, and `gcd(m1, m2)` divides it
      exactly when it divides `r1 - r2`. */
  lemma DifferenceDivisible(r1: u64, m1: u64, r2: u64, m2: u64)
    requires m1 > 0 && m2 > 0
    ensures Difference(r1 % m1, r2 % m2, m2) < m2
    ensures Divides(Gcd(m1, m2), Difference(r1 % m1, r2 % m2, m2)) <==> Divides(Gcd(m1, m2), r1 - r2)
  {
    var diff := Difference(r1 % m1, r2 % m2, m2);
    DifferenceFacts(r1 % m1, r2 % m2, m2);
    ReducedDifference(r1, m1, r2, m2, diff);
  }

  /** The lift fails exactly when `gcd(m1, m2)` does not divide the reduced difference. */
  lemma LiftSolvable(s1: u64, m1: u64, m2: u64, diff: u64)
    requires m1 > 0 && m2 > 0 && diff < m2
    ensures Lift(s1, m1, m2, diff).None? <==> !Divides(Gcd(m1, m2), diff)
  {
    SolveSolvable(m1, diff, m2);
    GcdReduce(m1, m2);
    DivModUnique(diff, m2, 0, diff);
  }

  /** `gcd(m1, m2)` divides `diff == r2 mod m2 - r1 mod m1 (mod m2)` exactly when it
      divides `r1 - r2`. */
  lemma ReducedDifference(r1: int, m1: nat, r2: int, m2: nat, diff: int)
    requires m1 > 0 && m2 > 0 && (diff - (r2 % m2 - r1 % m1)) % m2 == 0
    ensures Divides(Gcd(m1, m2), diff) <==> Divides(Gcd(m1, m2), r1 - r2)
  {
    var s1, s2 := r1 % m1, r2 % m2;
    var g := Gcd(m1, m2);
    GcdDividesBoth(m1, m2);
    RemainderMultiple(r1, m1);
    RemainderMultiple(r2, m2);
    DividesTransitive(g, m1, r1 - s1);
    DividesTransitive(g, m2, r2 - s2);
    DividesTransitive(g, m2, diff - (s2 - s1));
    DifferenceDivides(g, r1 - s1, r2 - s2, diff - (s2 - s1), diff, r1 - r2);
  }

  /** With `g` dividing `A`, `B` and `C` and `e == A - B + C - diff`, `g` divides
      `diff` exactly when it divides `e`. */
  lemma DifferenceDivides(g: nat, A: int, B: int, C: int, diff: int, e: int)
    requires Divides(g, A) && Divides(g, B) && Divides(g, C) && e == A - B + C - diff
    ensures Divides(g, diff) <==> Divides(g, e)
  {
    DividesLinear(g, A, B, 1, -1);
    DividesLinear(g, A - B, C, 1, 1);
    var k := A - B + C;
    assert 1 * (A - B) + 1 * C == k;
    if Divides(g, diff) {
      DividesLinear(g, k, diff, 1, -1);
    }
    if Divides(g, e) {
      DividesLinear(g, k, e, 1, -1);
    }
  }

  /** With no result, no integer satisfies both congruences. */
  lemma CrtNone(r1: u64, m1: u64, r2: u64, m2: u64, x: int)
    requires m1 > 0 && m2 > 0 && Crt(r1, m1, r2, m2).None?
    ensures !(x % m1 == r1 % m1 && x % m2 == r2 % m2)
  {
    CrtSolvable(r1, m1, r2, m2);
    if x % m1 == r1 % m1 && x % m2 == r2 % m2 {
      CommonResidues(r1, m1, r2, m2, x);
    }
  }

  /** A common solution makes `gcd(m1, m2)` divide `r1 - r2`. */
  lemma CommonResidues(r1: int, m1: nat, r2: int, m2: nat, x: int)
    requires m1 > 0 && m2 > 0 && x % m1 == r1 % m1 && x % m2 == r2 % m2
    ensures Divides(Gcd(m1, m2), r1 - r2)
  {
    var g := Gcd(m1, m2);
    GcdDividesBoth(m1, m2);
    CongruentIffDifference(x, r1, m1);
    CongruentIffDifference(x, r2, m2);
    DividesTransitive(g, m1, x - r1);
    DividesTransitive(g, m2, x - r2);
    DividesLinear(g, x - r2, x - r1, 1, -1);
    assert 1 * (x - r2) + (-1) * (x - r1) == r1 - r2;
  }

  /** The result is the only solution below `M`: every solution reduces to it. */
  lemma CrtUnique(r1: u64, m1: u64, r2: u64, m2: u64, x: int)
    requires Crt(r1, m1, r2, m2).Some? && Lcm(m1, m2) < TWO_64
    requires x % m1 == r1 % m1 && x % m2 == r2 % m2
    ensures x % Crt(r1, m1, r2, m2).value.1 == Crt(r1, m1, r2, m2).value.0
  {
    CrtSolution(r1, m1, r2, m2);
    var r := Crt(r1, m1, r2, m2).value.0;
    var L := Lcm(m1, m2);
    CongruentIffDifference(x, r, m1);
    CongruentIffDifference(x, r, m2);
    LcmIsLeastCommonMultiple(m1, m2, x - r);
    CongruentIffDifference(x, r, L);
    DivModUnique(r, L, 0, r);
  }

  /** `crt(2, 3, 3, 5) == (8, 15)`. */
  lemma CrtExample()
    ensures Crt(2, 3, 3, 5) == Some((8, 15))
  {
    assert Gcd(3, 5) == 1;
    CrtSolvable(2, 3, 3, 5);
    DivModUnique(-1, 1, -1, 0);
    CrtSolution(2, 3, 3, 5);
    CrtUnique(2, 3, 3, 5, 8);
  }

  /** The two differences agree when `r2 + m2 - r1` does not wrap, and also when
      `m2` divides `2^64`, because the wrap is then invisible modulo `m2`. */
  lemma DifferenceAgrees(s1: u64, s2: u64, m2: u64)
    requires s2 < m2 && (s1 <= s2 + m2 || Divides(m2, TWO_64))
    ensures DifferenceAsWritten(s1, s2, m2) == Difference(s1, s2, m2)
  {
    var v := if s2 >= s1 then s2 - s1 else Wrap(s2 + m2 - s1);
    var d := Difference(s1, s2, m2);
    DifferenceFacts(s1, s2, m2);
    if s2 < s1 {
      var x := s2 + m2 - s1;
      if s1 <= s2 + m2 {
        assert v == x;
      } else {
        assert Divides(TWO_64, x - v);
        DividesTransitive(m2, TWO_64, x - v);
      }
      assert Divides(m2, v - (s2 - s1)) by {
        assert v - (s2 - s1) == (v - x) + m2;
        DividesSelf(m2);
        DividesLinear(m2, x - v, m2, -1, 1);
      }
    } else {
      DividesSelf(m2);
    }
    SameClass(v, d, s2 - s1, m2);
  }

  /** `v % m == d` when `d < m` and both are congruent to `e`. */
  lemma SameClass(v: int, d: int, e: int, m: nat)
    requires m > 0 && 0 <= d < m && Divides(m, v - e) && (d - e) % m == 0
    ensures v % m == d
  {
    CongruentIffDifference(v, e, m);
    CongruentIffDifference(d, e, m);
    DivModUnique(d, m, 0, d);
  }

  /** `crt` as written agrees with the corrected one whenever `r2 + m2 - r1` does not
      wrap (or `m2` is a divisor of `2^64`) and the inner solve's reduced modulus
      `m2 / gcd(m1 mod m2, m2)` is below `2^63`. */
  lemma CrtAsWrittenAgrees(r1: u64, m1: u64, r2: u64, m2: u64)
    requires m1 > 0 && m2 > 0 ==> r1 % m1 <= r2 % m2 + m2 || Divides(m2, TWO_64)
    requires m1 > 1 && m2 > 1 ==> Period(m1, m2) < TWO_63
    ensures CrtAsWritten(r1, m1, r2, m2) == Crt(r1, m1, r2, m2)
  {
    if m1 > 1 && m2 > 1 {
      var s1, s2 := r1 % m1, r2 % m2;
      DifferenceAgrees(s1, s2, m2);
      var diff := Difference(s1, s2, m2);
      SolveAsWrittenAgrees(m1, diff, m2);
      assert LiftAsWritten(s1, m1, m2, diff) == Lift(s1, m1, m2, diff);
    }
  }

  /** The inverse defect can reach `crt` only when the lcm does not fit in a word:
      `lcm(m1, m2) = m1 * (m2 / g)` with `m1 >= 2`. */
  lemma InverseDefectNeedsWideLcm(m1: u64, m2: u64)
    requires m1 > 1 && m2 > 0 && Lcm(m1, m2) < TWO_64
    ensures Period(m1, m2) < TWO_63
  {
    GcdReduce(m1, m2);
    var g := Gcd(m1, m2);
    CofactorFacts(m1, m2, g);
    WideCofactor(m1, m1 / g, g, m2 / g, Lcm(m1, m2));
  }

  lemma WideCofactor(m1: int, a: int, g: int, b: int, L: int)
    requires m1 == g * a && m1 >= 2 && b >= 0 && L == a * (g * b)
    ensures L >= 2 * b
  {
    assert L == m1 * b;
    MulMono(2, m1, b);
  }

  lemma MulMono(x: int, y: int, b: int)
    requires x <= y && b >= 0
    ensures x * b <= y * b
  {
  }

  /** The tail of `crt` as written agrees with the corrected one for moduli below `2^63`. */
  lemma LiftAsWrittenAgrees(s1: u64, m1: u64, m2: u64, diff: u64)
    requires m1 > 0 && 0 < m2 < TWO_63
    ensures LiftAsWritten(s1, m1, m2, diff) == Lift(s1, m1, m2, diff)
  {
    GcdBound(m1 % m2, m2);
    QuotientBounds(m2, Gcd(m1 % m2, m2));
    SolveAsWrittenAgrees(m1, diff, m2);
  }

  /** `crt(0, 2, 1, 2^64 - 1)`: the inner solve as written yields `t = 0`, so the
      source answers `(0, 2^64 - 2)`, and 0 is not 1 modulo `2^64 - 1`; the corrected
      solver yields `t = 2^63` and the answer `(2, 2^64 - 2)`. Both moduli wrap, as
      the lcm is `2^65 - 2`. */
  lemma CrtInverseCounterexample()
    ensures CrtAsWritten(0, 2, 1, TWO_64 - 1) == Some((0, (TWO_64 - 2) as u64)) && 0 % (TWO_64 - 1) != 1
    ensures Crt(0, 2, 1, TWO_64 - 1) == Some((2, (TWO_64 - 2) as u64))
  {
    var m2: u64 := TWO_64 - 1;
    SolveAsWrittenCounterexample();
    assert DifferenceAsWritten(0, 1, m2) == 1 && Difference(0, 1, m2) == 1;
    PlaceZero();
    PlaceHalf();
  }

  /** `lcm(2, 2^64 - 1) = 2^65 - 2`, which wraps to `2^64 - 2`. */
  lemma WideWordLcm()
    ensures Wrap(Lcm(2, TWO_64 - 1)) == TWO_64 - 2
  {
    GcdTwoWord();
    assert Lcm(2, TWO_64 - 1) == 2 * (TWO_64 - 1);
  }

  lemma PlaceZero()
    ensures Place(0, 2, TWO_64 - 1, 0) == (0, (TWO_64 - 2) as u64)
  {
    WideWordLcm();
    assert Arithmetic.MulMod(2, 0, TWO_64 - 2) == 0;
  }

  lemma PlaceHalf()
    ensures Place(0, 2, TWO_64 - 1, TWO_63) == (2, (TWO_64 - 2) as u64)
  {
    WideWordLcm();
    assert Arithmetic.MulMod(2, TWO_63, TWO_64 - 2) == 2;
  }

  /** `crt(10, 11, 0, 3)`: the source answers `(10, 33)`, which is not `0` modulo `3`;
      the corrected `crt` answers `(21, 33)`. */
  lemma CrtAsWrittenCounterexample()
    ensures CrtAsWritten(10, 11, 0, 3) == Some((10, 33)) && 10 % 3 != 0
    ensures Crt(10, 11, 0, 3) == Some((21, 33))
  {
    CorrectedAnswer();
    AsWrittenAnswer();
  }

  lemma CorrectedAnswer()
    ensures Crt(10, 11, 0, 3) == Some((21, 33))
  {
    assert Gcd(11, 3) == 1;
    assert Lcm(11, 3) == 33;
    CrtSolvable(10, 11, 0, 3);
    DivModUnique(10, 1, 10, 0);
    CrtSolution(10, 11, 0, 3);
    CrtUnique(10, 11, 0, 3, 21);
  }

  lemma AsWrittenAnswer()
    ensures CrtAsWritten(10, 11, 0, 3) == Some((10, 33))
  {
    AsWrittenDifference();
    LiftAsWrittenAgrees(10, 11, 3, 0);
    LiftOfZero();
  }

  /** The wrapped difference `0 + 3 - 10` is `2^64 - 7`, a multiple of 3. */
  lemma AsWrittenDifference()
    ensures CrtAsWritten(10, 11, 0, 3) == LiftAsWritten(10, 11, 3, 0)
  {
    assert DifferenceAsWritten(10, 0, 3) == 0;
  }

  lemma LiftOfZero()
    ensures Lift(10, 11, 3, 0) == Some((10, 33))
  {
    assert Gcd(11, 3) == 1;
    assert Lcm(11, 3) == 33;
    var s1: u64, m1: u64, m2: u64, diff: u64 := 10, 11, 3, 0;
    LiftSolvable(s1, m1, m2, diff);
    DivModUnique(diff, 1, diff, 0);
    LiftSolves(s1, m1, m2, diff);
    OnlyResidue(Lift(s1, m1, m2, diff).value.0, s1, m1, m2, diff);
  }

  /** Below 33, only 10 is 10 modulo 11 and 1 modulo 3. */
  lemma OnlyResidue(r: int, s1: int, m1: int, m2: int, diff: int)
    requires s1 == 10 && m1 == 11 && m2 == 3 && diff == 0
    requires 0 <= r < 33 && r % m1 == s1 && (r - s1 - diff) % m2 == 0
    ensures r == 10
  {
    var k := r / 11;
    assert r == 11 * k + 10;
    assert 0 <= k < 3;
    assert k == 0 || r == 21 || r == 32;
  }

  /** The least common multiple of two words is never a multiple of 2^64, so the
      64-bit modulus `M` is never zero. */
  lemma LcmWordNonzero(m1: nat, m2: nat)
    requires 0 < m1 < TWO_64 && 0 < m2 < TWO_64
    ensures Lcm(m1, m2) % TWO_64 != 0
  {
    var L := Lcm(m1, m2);
    LcmIsLeastCommonMultiple(m1, m2, L / 2);
    if L % TWO_64 == 0 {
      assert Divides(TWO_64, L);
      HalfIsMultiple(m1, L);
      HalfIsMultiple(m2, L);
      DividesBound(L, L / 2);
    }
  }

  /** A word dividing a multiple `L` of 2^64 also divides `L / 2`. */
  lemma HalfIsMultiple(m: nat, L: nat)
    requires 0 < m < TWO_64 && L > 0 && Divides(m, L) && Divides(TWO_64, L)
    ensures Divides(m, L / 2) && L / 2 > 0
  {
    DividesBound(TWO_64, L);
    DividesQuotient(m, L);
    var k := L / m;
    if k % 2 == 0 {
      HalveCofactor(m, k, L);
      DividesMultiple(m, k / 2);
    } else {
      TwoPowWord();
      assert Divides(TwoPow(64), m * k);
      OddCofactor(64, m, k);
      DividesBound(TWO_64, m);
    }
  }

  /** `2^64` as a power of two. */
  lemma TwoPowWord()
    ensures TwoPow(64) == TWO_64
  {
    assert Pow(2, 2) == 4;
    PowAdd(2, 2, 2);
    PowAdd(2, 4, 4);
    PowAdd(2, 8, 8);
    PowAdd(2, 16, 16);
    PowAdd(2, 32, 32);
  }

  lemma HalveCofactor(m: int, k: int, L: int)
    requires L == m * k && k % 2 == 0
    ensures L / 2 == m * (k / 2)
  {
    var h := k / 2;
    assert k == 2 * h;
    assert L == 2 * (m * h);
    DivModUnique(L, 2, m * h, 0);
  }

  /** `2^e` dividing `x * k` with `k` odd divides `x`. */
  lemma {:induction false} OddCofactor(e: nat, x: int, k: int)
    requires k % 2 == 1 && Divides(TwoPow(e), x * k)
    ensures Divides(TwoPow(e), x)
    decreases e
  {
    if e > 0 {
      var h := TwoPow(e - 1);
      assert TwoPow(e) == 2 * h;
      DividesMultiple(2, h);
      DividesTransitive(2, TwoPow(e), x * k);
      assert Prime(2);
      PrimeDividesProduct(2, x, k);
      var x' := x / 2;
      assert x == 2 * x';
      assert x * k == 2 * (x' * k);
      DividesCancel(2, h, x' * k);
      OddCofactor(e - 1, x', k);
      ScaleDivides(2, h, x');
    }
  }
}
