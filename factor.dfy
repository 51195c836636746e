/** Factorization (src/factor.cpp): Pollard's rho with Floyd cycle detection,
    the recursive splitter `factor_rec` that appends to an output vector, and the
    sorted result of `factorize`.

    The process-wide random generator is replaced by an `Entropy` object that
    hands out a caller-supplied sequence of raw draws. */
module Factor {
  import opened Words
  import opened NumberTheory
  import Arithmetic
  import Primes

  /** Iteration cap of one rho attempt. */
  const RhoCap: nat := 200000

  /** Rho attempts of `factor_rec` and of `pollard_roh`. */
  const SplitTries: nat := 32
  const PublicTries: nat := 64

  /** Last odd trial divisor of the fallback. */
  const TrialBound: nat := 100000

  // ---------------------------------------------------------------------------
  // Collaborators: the entropy source and the output vector

  /** The generator behind `uniform_int_distribution`: each draw maps the next raw
      value into `[lo, hi]`; once the supplied values run out it yields `lo`. */
  class Entropy {
    var draws: seq<u64>

    constructor (draws: seq<u64>)
      ensures this.draws == draws
    {
      this.draws := draws;
    }

    method Draw(lo: u64, hi: u64) returns (v: u64)
      requires lo <= hi
      modifies this
      ensures lo <= v <= hi
      ensures old(draws) == [] ==> v == lo && draws == []
      ensures old(draws) != [] ==> v == lo + old(draws)[0] % (hi - lo + 1) && draws == old(draws)[1..]
    {
      if draws == [] {
        v := lo;
      } else {
        v := lo + draws[0] % (hi - lo + 1);
        draws := draws[1..];
      }
    }
  }

  predicate Sorted(s: seq<u64>) {
    forall i, j :: 0 <= i < j < |s| ==> s[i] <= s[j]
  }

  /** `std::vector<u64>`: `push_back` and an in-place `std::sort`. */
  class Vector {
    var elems: seq<u64>

    constructor ()
      ensures elems == []
    {
      elems := [];
    }

    method PushBack(v: u64)
      modifies this
      ensures elems == old(elems) + [v]
    {
      elems := elems + [v];
    }

    /** Insertion sort: ascending, and a permutation of the old contents. */
    method Sort()
      modifies this
      ensures Sorted(elems) && multiset(elems) == multiset(old(elems))
    {
      var s := elems;
      var i := 0;
      while i < |s|
        invariant 0 <= i <= |s| && |s| == |old(elems)|
        invariant Sorted(s[..i])
        invariant multiset(s) == multiset(old(elems))
      {
        s := Insert(s, i);
        i := i + 1;
      }
      assert s[..i] == s;
      elems := s;
    }
  }

  /** Sinks `s[i]` into the sorted prefix `s[..i]`. */
  method Insert(s0: seq<u64>, i: nat) returns (s: seq<u64>)
    requires i < |s0| && Sorted(s0[..i])
    ensures |s| == |s0| && Sorted(s[..i + 1]) && multiset(s) == multiset(s0)
  {
    s := s0;
    var j := i;
    SinkStart(s, i);
    while j > 0 && s[j - 1] > s[j]
      invariant 0 <= j <= i < |s| == |s0|
      invariant Sinking(s, i, j)
      invariant multiset(s) == multiset(s0)
    {
      SwapKeepsMultiset(s, j - 1, j);
      SinkStep(s, i, j);
      s := s[j - 1 := s[j]][j := s[j - 1]];
      j := j - 1;
    }
    SinkDone(s, i, j);
  }

  /** While `s[j]` sinks through `s[..i + 1]`: the other elements stay in order and
      everything after position `j` is at least `s[j]`. */
  predicate Sinking(s: seq<u64>, i: nat, j: nat)
    requires j <= i < |s|
  {
    (forall a, b :: 0 <= a < b <= i && a != j && b != j ==> s[a] <= s[b]) &&
    (forall b :: j < b <= i ==> s[j] <= s[b])
  }

  lemma SinkStart(s: seq<u64>, i: nat)
    requires i < |s| && Sorted(s[..i])
    ensures Sinking(s, i, i)
  {
    forall a, b | 0 <= a < b <= i && a != i && b != i
      ensures s[a] <= s[b]
    {
      assert s[a] == s[..i][a] && s[b] == s[..i][b];
    }
  }

  lemma SinkStep(s: seq<u64>, i: nat, j: nat)
    requires 0 < j <= i < |s| && Sinking(s, i, j) && s[j - 1] > s[j]
    ensures Sinking(s[j - 1 := s[j]][j := s[j - 1]], i, j - 1)
  {
  }

  lemma SinkDone(s: seq<u64>, i: nat, j: nat)
    requires j <= i < |s| && Sinking(s, i, j) && (j == 0 || s[j - 1] <= s[j])
    ensures Sorted(s[..i + 1])
  {
  }

  lemma SwapKeepsMultiset(s: seq<u64>, a: nat, b: nat)
    requires a < b < |s|
    ensures multiset(s[a := s[b]][b := s[a]]) == multiset(s)
  {
    var t := s[a := s[b]][b := s[a]];
    assert s == s[..a] + [s[a]] + s[a + 1..b] + [s[b]] + s[b + 1..];
    assert t == s[..a] + [s[b]] + s[a + 1..b] + [s[a]] + s[b + 1..];
  }

  // ---------------------------------------------------------------------------
  // The rho walk

  /** `udiff`: the distance between two words. */
  function UDiff(a: u64, b: u64): (r: u64)
    ensures r == Abs(a - b)
  {
    if a > b then a - b else b - a
  }

  /** `f`: one step `x -> (x^2 + c) mod n` of the walk. The sum is formed in 64 bits,
      so it is the exact step whenever `n + c <= 2^64`. */
  function Step(x: u64, c: u64, n: u64): (r: u64)
    requires n > 0
    ensures r < n
    ensures n + c <= TWO_64 ==> r == (x * x + c) % n
  {
    var sq := Arithmetic.MulMod(x, x, n);
    StepExact(x, c, n, sq);
    Wrap(sq + c) % n
  }

  lemma StepExact(x: nat, c: nat, n: nat, sq: nat)
    requires n > 0 && sq < n && (x * x - sq) % n == 0
    ensures (sq + c) % n == (x * x + c) % n
  {
    CongruentIffDifference(x * x, sq, n);
    ModAdd(x * x, c, n);
    ModAdd(sq, c, n);
  }

  /** The `k`-th point of the walk from `x0`. */
  function Orbit(x0: u64, c: u64, n: u64, k: nat): u64
    requires n > 0
    decreases k
  {
    if k == 0 then x0 else Step(Orbit(x0, c, n, k - 1), c, n)
  }

  /** The gcd that Floyd's method inspects after `k` steps of the slow point. */
  function WalkGcd(x0: u64, c: u64, n: u64, k: nat): nat
    requires n > 0
  {
    Gcd(UDiff(Orbit(x0, c, n, k), Orbit(x0, c, n, 2 * k)), n)
  }

  /** The capped tortoise-and-hare loop of `rho_once`: it stops at the first step
      whose gcd is not 1, or when the cap is reached. */
  method RhoWalk(n: u64, x0: u64, c: u64) returns (d: u64, steps: nat)
    requires n > 0
    ensures 1 <= steps <= RhoCap
    ensures d == WalkGcd(x0, c, n, steps)
    ensures d != 1 || steps == RhoCap
    ensures forall j :: 1 <= j < steps ==> WalkGcd(x0, c, n, j) == 1
  {
    var x, y := x0, x0;
    d := 1;
    steps := 0;
    while steps < RhoCap && d == 1
      invariant steps <= RhoCap
      invariant x == Orbit(x0, c, n, steps) && y == Orbit(x0, c, n, 2 * steps)
      invariant steps == 0 ==> d == 1
      invariant steps > 0 ==> d == WalkGcd(x0, c, n, steps)
      invariant forall j :: 1 <= j < steps ==> WalkGcd(x0, c, n, j) == 1
    {
      OrbitAdvance(x0, c, n, steps);
      x := Step(x, c, n);
      y := Step(Step(y, c, n), c, n);
      d := Arithmetic.Gcd(UDiff(x, y), n);
      steps := steps + 1;
    }
  }

  /** One round moves the slow point one step and the fast point two. */
  lemma OrbitAdvance(x0: u64, c: u64, n: u64, k: nat)
    requires n > 0
    ensures Orbit(x0, c, n, k + 1) == Step(Orbit(x0, c, n, k), c, n)
    ensures Orbit(x0, c, n, 2 * (k + 1)) == Step(Step(Orbit(x0, c, n, 2 * k), c, n), c, n)
  {
    assert 2 * (k + 1) == (2 * k + 1) + 1;
  }

  /** Every gcd of the walk is a positive divisor of `n`. */
  lemma WalkGcdDivides(x0: u64, c: u64, n: u64, k: nat)
    requires n > 0
    ensures 0 < WalkGcd(x0, c, n, k) <= n && Divides(WalkGcd(x0, c, n, k), n)
  {
    var u := UDiff(Orbit(x0, c, n, k), Orbit(x0, c, n, 2 * k));
    GcdDividesBoth(u, n);
    GcdBound(u, n);
  }

  /** `rho_once`: 2 for even `n`; otherwise one rho attempt from random `x0` and `c`
      in `[2, n - 2]`, giving a proper divisor or `n` on failure. */
  method RhoOnce(n: u64, rng: Entropy) returns (d: u64)
    requires n % 2 == 0 || n >= 4
    modifies rng
    ensures n % 2 == 0 ==> d == 2
    ensures n % 2 == 1 ==> d == n || (1 < d < n && Divides(d, n))
  {
    if n % 2 == 0 {
      return 2;
    }
    var x0 := rng.Draw(2, n - 2);
    var c := rng.Draw(2, n - 2);
    var g, steps := RhoWalk(n, x0, c);
    WalkGcdDivides(x0, c, n, steps);
    if g == 0 || g == 1 || g == n {
      return n;
    }
    return g;
  }

  // ---------------------------------------------------------------------------
  // factor_rec

  /** An element `factor_rec` may record: accepted by `is_prime`, or the unsplit
      odd number of the last resort, with no odd factor from 3 to 100000 below it. */
  predicate Recordable(e: nat) {
    Primes.Accepts(e) ||
    (e % 2 == 1 && NoOddFactorBelow(e, TrialLimit(e)))
  }

  /** `s` is what `factor_rec(n, ...)` appends: nothing for `n < 2`; otherwise
      recordable factors of at least 2 whose product is `n`. */
  predicate Factors(n: nat, s: seq<u64>) {
    (n < 2 ==> s == []) &&
    (n >= 2 ==> Product(s) == n && AllRecordable(s))
  }

  /** Every element is a recordable factor of at least 2. */
  predicate AllRecordable(s: seq<u64>) {
    forall i :: 0 <= i < |s| ==> s[i] >= 2 && Recordable(s[i])
  }

  /** The factors of `d` and of `k` together are factors of `d * k`. */
  lemma FactorsJoin(d: nat, k: nat, s: seq<u64>, t: seq<u64>)
    requires d >= 2 && k >= 2 && Factors(d, s) && Factors(k, t)
    ensures Factors(d * k, s + t)
  {
    ProductAppend(s, t);
    AllRecordableJoin(s, t);
    ProductAtLeastFour(d, k);
  }

  lemma ProductAtLeastFour(d: int, k: int)
    requires d >= 2 && k >= 2
    ensures d * k >= 4
  {
    assert d * k >= 2 * k;
  }

  lemma AllRecordableJoin(s: seq<u64>, t: seq<u64>)
    requires AllRecordable(s) && AllRecordable(t)
    ensures AllRecordable(s + t)
  {
    forall i | 0 <= i < |s + t|
      ensures (s + t)[i] >= 2 && Recordable((s + t)[i])
    {
      if i >= |s| {
        assert (s + t)[i] == t[i - |s|];
      } else {
        assert (s + t)[i] == s[i];
      }
    }
  }

  /** The fallback trial division: the first odd `p` from 3 to 100000 dividing
      `n`, or `n` when there is none. */
  method TrialDivision(n: u64) returns (d: u64)
    requires n > 0 && n % 2 == 1
    ensures d == n || (3 <= d <= TrialBound && d % 2 == 1 && n % d == 0)
    ensures NoOddFactorBelow(n, TrialLimit(d))
  {
    d := n;
    var p: u64 := 3;
    while p <= TrialBound
      invariant 3 <= p <= TrialBound + 2 && p % 2 == 1
      invariant NoOddFactorBelow(n, p)
    {
      if n % p == 0 {
        return p;
      }
      NoOddFactorExtend(n, p);
      p := p + 2;
    }
  }

  /** The trial divisors below `d` that the fallback has tried. */
  function TrialLimit(d: nat): (r: nat)
    ensures r <= d && r <= TrialBound + 1 && (r == d || r == TrialBound + 1)
  {
    if d <= TrialBound then d else TrialBound + 1
  }

  /** No odd number from 3 up to below `p` divides `n`. */
  predicate NoOddFactorBelow(n: nat, p: nat) {
    forall q: nat :: 3 <= q < p && q % 2 == 1 ==> n % q != 0
  }

  lemma NoOddFactorExtend(n: nat, p: nat)
    requires p % 2 == 1 && p >= 3 && NoOddFactorBelow(n, p) && n % p != 0
    ensures NoOddFactorBelow(n, p + 2)
  {
    forall q: nat | 3 <= q < p + 2 && q % 2 == 1
      ensures n % q != 0
    {
      if q >= p {
        assert q == p;
      }
    }
  }

  /** `factor_rec`: appends the factors of `n` to `out` and leaves what was there. */
  method FactorRec(n: u64, out: Vector, rng: Entropy)
    modifies out, rng
    ensures |old(out.elems)| <= |out.elems| && out.elems[..|old(out.elems)|] == old(out.elems)
    ensures Factors(n, out.elems[|old(out.elems)|..])
    decreases n
  {
    ghost var before := out.elems;
    if n < 2 {
      assert out.elems[|before|..] == [];
      return;
    }
    var prime := Primes.IsPrime(n);
    if prime {
      out.PushBack(n);
      assert out.elems[|before|..] == [n];
      return;
    }
    if n % 2 == 0 {
      out.PushBack(2);
      AcceptsTwo();
      ghost var mid := out.elems;
      FactorRec(n / 2, out, rng);
      ghost var rest := out.elems[|mid|..];
      AppendSlices(before, mid, out.elems);
      assert mid[|before|..] == [2];
      FactorsJoin(2, n / 2, [2], rest);
      return;
    }
    assert n >= 4 by {
      assert Primes.Accepts(3);
    }
    var d := n;
    var tries := 0;
    while tries < SplitTries && d == n
      invariant d == n || (1 < d < n && Divides(d, n))
      invariant out.elems == before
    {
      d := RhoOnce(n, rng);
      tries := tries + 1;
    }
    if d == n {
      d := TrialDivision(n);
      if d == n {
        out.PushBack(n);
        assert out.elems[|before|..] == [n];
        return;
      }
      DividesBound(d, n);
    }
    DividesQuotient(d, n);
    var k := n / d;
    SplitBounds(n, d, k);
    FactorRec(d, out, rng);
    ghost var mid := out.elems;
    ghost var left := mid[|before|..];
    FactorRec(k, out, rng);
    ghost var right := out.elems[|mid|..];
    AppendSlices(before, mid, out.elems);
    FactorsJoin(d, k, left, right);
  }

  /** Two appends in a row: the first prefix survives and the new part is the
      concatenation of the two appended parts. */
  lemma AppendSlices(s0: seq<u64>, s1: seq<u64>, s2: seq<u64>)
    requires |s0| <= |s1| <= |s2| && s1[..|s0|] == s0 && s2[..|s1|] == s1
    ensures s2[..|s0|] == s0 && s2[|s0|..] == s1[|s0|..] + s2[|s1|..]
  {
    assert s2[..|s0|] == s2[..|s1|][..|s0|];
  }

  lemma AcceptsTwo()
    ensures Recordable(2)
  {
  }

  /** A proper split `n == d * k` has both parts from 2 to below `n`. */
  lemma SplitBounds(n: int, d: int, k: int)
    requires 1 < d < n && n == d * k
    ensures 1 < k < n && d * k == n
  {
    assert k < n by {
      assert n == d * k >= 2 * k;
    }
  }

  // ---------------------------------------------------------------------------
  // Public entry points

  /** `factorize`: the factors of `n` in ascending order. */
  method Factorize(n: u64, rng: Entropy) returns (f: seq<u64>)
    modifies rng
    ensures |f| == 0 <==> n < 2
    ensures Sorted(f)
    ensures n >= 2 ==> Product(f) == n
    ensures forall i :: 0 <= i < |f| ==> f[i] >= 2 && Recordable(f[i])
  {
    var out := new Vector();
    FactorRec(n, out, rng);
    ghost var unsorted := out.elems;
    assert unsorted == unsorted[0..];
    out.Sort();
    f := out.elems;
    ProductPermutation(unsorted, f);
    forall i | 0 <= i < |f|
      ensures f[i] >= 2 && Recordable(f[i])
    {
      assert f[i] in multiset(unsorted);
    }
    assert |f| == |multiset(f)| == |multiset(unsorted)| == |unsorted|;
  }

  /** `pollard_roh`: `n` below 2, 2 for even `n`, `n` for an accepted `n`; otherwise
      up to 64 rho attempts, giving a proper divisor or `n` if all fail. */
  method PollardRoh(n: u64, rng: Entropy) returns (d: u64)
    modifies rng
    ensures n < 2 ==> d == n
    ensures n >= 2 && n % 2 == 0 ==> d == 2
    ensures n >= 2 && n % 2 == 1 && Primes.Accepts(n) ==> d == n
    ensures d == n || (1 < d < n && Divides(d, n))
  {
    if n < 2 {
      return n;
    }
    if n % 2 == 0 {
      if n > 2 {
        DividesMultiple(2, n / 2);
      }
      return 2;
    }
    var prime := Primes.IsPrime(n);
    if prime {
      return n;
    }
    assert n >= 4 by {
      assert Primes.Accepts(3);
    }
    d := n;
    var tries := 0;
    while tries < PublicTries && d == n
      invariant d == n || (1 < d < n && Divides(d, n))
    {
      d := RhoOnce(n, rng);
      tries := tries + 1;
    }
  }
  // ---------------------------------------------------------------------------
  // factorize(360)

  /** Whatever the draws, `factorize(360)` is `[2, 2, 2, 3, 3, 5]`: no other list
      meets the contract of `Factorize`. */
  lemma FactorizeExample(f: seq<u64>)
    requires Sorted(f) && Product(f) == 360
    requires forall i :: 0 <= i < |f| ==> f[i] >= 2 && Recordable(f[i])
    ensures f == [2, 2, 2, 3, 3, 5]
  {
    forall i | 0 <= i < |f|
      ensures Is235(f[i])
    {
      ElementDividesProduct(f, i);
      RecordableDivisorOf360(f[i]);
    }
    SortedSmallFactors(f, 360);
    AscendingOf360();
  }

  lemma AscendingOf360()
    ensures Ascending235(360) == [2, 2, 2, 3, 3, 5]
  {
    assert Ascending235(5) == [5];
    assert Ascending235(15) == [3, 5];
    assert Ascending235(45) == [3, 3, 5];
    assert Ascending235(90) == [2, 3, 3, 5];
    assert Ascending235(180) == [2, 2, 3, 3, 5];
  }

  predicate Is235(e: nat) {
    e == 2 || e == 3 || e == 5
  }

  /** The ascending list of 2s, 3s and 5s whose product is `n`, as far as it goes. */
  function Ascending235(n: nat): seq<u64>
    decreases n
  {
    if n <= 1 then []
    else if n % 2 == 0 then [2] + Ascending235(n / 2)
    else if n % 3 == 0 then [3] + Ascending235(n / 3)
    else if n % 5 == 0 then [5] + Ascending235(n / 5)
    else []
  }

  /** Each element of a list divides its product. */
  lemma ElementDividesProduct(s: seq<u64>, i: nat)
    requires i < |s|
    ensures Divides(s[i], Product(s))
  {
    ProductRemove(s, i);
    DividesMultiple(s[i], Product(s[..i] + s[i + 1..]));
  }

  /** The only recordable divisors of 360 are its prime factors. */
  lemma RecordableDivisorOf360(e: nat)
    requires e >= 2 && Divides(e, 360) && Recordable(e)
    ensures Is235(e)
  {
    DividesBound(e, 360);
    assert TrialLimit(e) == e;
    if e % 2 == 1 {
      if e % 3 == 0 {
        AcceptedMultipleOfThree(e);
        NoFactorBelowMultipleOfThree(e, e);
      } else {
        var k := 360 / e;
        assert e * k == 360;
        Primes.PrimeBelow49(2);
        Primes.PrimeBelow49(3);
        Cofactor(2, e, k, 360);
        Cofactor(2, e, k / 2, 180);
        Cofactor(2, e, k / 2 / 2, 90);
        Cofactor(3, e, k / 2 / 2 / 2, 45);
        Cofactor(3, e, k / 2 / 2 / 2 / 3, 15);
        FactorOfFive(e, k / 2 / 2 / 2 / 3 / 3);
      }
    }
  }

  /** The prefilter rejects every proper multiple of 3. */
  lemma AcceptedMultipleOfThree(e: nat)
    ensures Primes.Accepts(e) && e % 3 == 0 ==> e == 3
  {
    assert e % 3 == 0 && e >= 4 && e % 2 == 1 ==> Primes.Prefilter(e, 0) == Some(false);
  }

  lemma NoFactorBelowMultipleOfThree(e: nat, p: nat)
    ensures NoOddFactorBelow(e, p) && e % 3 == 0 ==> p <= 3
  {
  }

  /** A factor `p` of `n = e * k` that is prime to `e` divides the cofactor. */
  lemma Cofactor(p: nat, e: nat, k: nat, n: nat)
    requires Prime(p) && e % p != 0 && e * k == n && n % p == 0
    ensures k % p == 0 && e * (k / p) == n / p
  {
    PrimeDividesProduct(p, e, k);
    var j := k / p;
    assert k == p * j;
    assert n == p * (e * j);
    DivModUnique(n, p, e * j, 0);
  }

  lemma FactorOfFive(e: nat, k: nat)
    requires e >= 2 && e * k == 5
    ensures e == 5
  {
    assert 2 * k <= e * k;
  }

  /** A sorted list of 2s, 3s and 5s is determined by its product. */
  lemma {:induction false} SortedSmallFactors(f: seq<u64>, n: nat)
    requires Sorted(f) && Product(f) == n
    requires forall i :: 0 <= i < |f| ==> Is235(f[i])
    ensures f == Ascending235(n)
    decreases |f|
  {
    if f != [] {
      var rest := f[1..];
      var k := Product(rest);
      ProductAtLeastOne(rest);
      assert n == f[0] * k;
      Primes.PrimeBelow49(2);
      Primes.PrimeBelow49(3);
      if f[0] == 2 {
        DivModUnique(n, 2, k, 0);
      } else {
        ProductAvoids(f, 2);
        if f[0] == 3 {
          DivModUnique(n, 3, k, 0);
        } else {
          ProductAvoids(f, 3);
          DivModUnique(n, 5, k, 0);
        }
      }
      SortedSmallFactors(rest, k);
      assert f == [f[0]] + rest;
    }
  }

  lemma {:induction false} ProductAtLeastOne(s: seq<u64>)
    requires forall i :: 0 <= i < |s| ==> s[i] >= 1
    ensures Product(s) >= 1
    decreases |s|
  {
    if s != [] {
      ProductAtLeastOne(s[1..]);
      MulMono(1, s[0], Product(s[1..]));
    }
  }

  lemma MulMono(x: int, y: int, b: int)
    requires x <= y && b >= 0
    ensures x * b <= y * b
  {
  }

  /** A prime dividing no element does not divide the product. */
  lemma {:induction false} ProductAvoids(s: seq<u64>, p: nat)
    requires Prime(p) && forall i :: 0 <= i < |s| ==> s[i] % p != 0
    ensures Product(s) % p != 0
    decreases |s|
  {
    if s != [] {
      ProductAvoids(s[1..], p);
      if Product(s) % p == 0 {
        PrimeDividesProduct(p, s[0], Product(s[1..]));
      }
    }
  }
}
