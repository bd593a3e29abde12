/**
  Integer helpers of `mathutil/mathutil.go` and `mathutil/math_internal.go`.
  Go's `int` is taken as 64 bits wide; `Exponent` and `Fibonacci` wrap
  around like their `int64` arithmetic, `Factorial` like its `uint`.
 */
module MathUtil {
  import opened Wrappers
  import opened GoInt

  // Panic messages, spelled as the code or the Go runtime spells them.
  const MaxEmptyMessage := "mathutil.Max: empty list"  // mathutil.go:134
  const MinEmptyMessage := "mathutil.min: empty list"  // mathutil.go:172
  const LcmMessage := "lcm function: provide non zero integers only."  // math_internal.go:14
  const IndexMessage := "index out of range"  // the runtime panic of an out-of-range index

  const TwoTo64U := 0x1_0000_0000_0000_0000

  // ---------------------------------------------------------------
  // Modular arithmetic used to follow the wrap-around.

  /** A multiple of `m` has remainder 0. */
  lemma MultipleMod(k: int, m: int)
    requires m > 0
    ensures (k * m) % m == 0
  {
    DivModUnique(k * m, m, k, 0);
  }

  /** A multiple of `m` times anything is still a multiple. */
  lemma ScaleMultiple(x: int, b: int, m: int)
    requires m > 0 && x % m == 0
    ensures (x * b) % m == 0
  {
    var k := x / m;
    assert x == k * m;
    assert x * b == (k * b) * m;
    MultipleMod(k * b, m);
  }

  /** Values whose difference is a multiple of 2^64 wrap to the same `int64`. */
  lemma WrapSameClass(x: int, y: int)
    requires (x - y) % TwoTo64 == 0
    ensures Wrap64(x) == Wrap64(y)
  {
    var k := (x - y) / TwoTo64;
    assert x - y == k * TwoTo64;
    var q, r := (y - MinInt64) / TwoTo64, (y - MinInt64) % TwoTo64;
    assert x - MinInt64 == (q + k) * TwoTo64 + r;
    DivModUnique(x - MinInt64, TwoTo64, q + k, r);
  }

  /** Wrapping changes a value by a multiple of 2^64. */
  lemma WrapDiff(a: int)
    ensures (Wrap64(a) - a) % TwoTo64 == 0
  {
    var q := (a - MinInt64) / TwoTo64;
    assert Wrap64(a) - a == (-q) * TwoTo64;
    MultipleMod(-q, TwoTo64);
  }

  /** Wrapping a summand first does not change the wrapped sum. */
  lemma WrapAdd(a: int, b: int)
    ensures Wrap64(Wrap64(a) + b) == Wrap64(a + b)
  {
    WrapDiff(a);
    WrapSameClass(Wrap64(a) + b, a + b);
  }

  /** Reducing a factor modulo `m` first does not change the remainder. */
  lemma MulMod(a: int, b: int, m: int)
    requires m > 0
    ensures ((a % m) * b) % m == (a * b) % m
  {
    var q := a / m;
    assert a == q * m + a % m;
    assert a * b == (q * b) * m + (a % m) * b;
    var q2, r2 := ((a % m) * b) / m, ((a % m) * b) % m;
    assert a * b == (q * b + q2) * m + r2;
    DivModUnique(a * b, m, q * b + q2, r2);
  }

  // ---------------------------------------------------------------
  // Powers.

  /** `x` to the power `n`. */
  function Pow(x: int, n: nat): int {
    if n == 0 then 1 else x * Pow(x, n - 1)
  }

  lemma {:induction false} PowAdd(x: int, a: nat, b: nat)
    ensures Pow(x, a + b) == Pow(x, a) * Pow(x, b)
  {
    if a > 0 {
      PowAdd(x, a - 1, b);
      assert Pow(x, a + b) == x * (Pow(x, a - 1) * Pow(x, b));
    }
  }

  /** `Exponent` (mathutil.go:12-24): squaring on the truncated half of
      `n`, times `x` once more when `n % 2 == 1`, every product wrapping to
      `int64`. A negative `n` gives 1. */
  function Exponent(x: int, n: int): (r: int)
    requires IsInt64(x)
    ensures IsInt64(r)
    ensures n >= 0 ==> r == Wrap64(Pow(x, n))
    ensures n < 0 ==> r == 1
    decreases Abs(n)
  {
    if n == 0 then 1
    else
      var h := GoDiv(n, 2);
      var t := Exponent(x, h);
      var r := if GoRem(n, 2) == 1 then Wrap64(Wrap64(t * t) * x) else Wrap64(t * t);
      if n > 0 then ExponentStep(x, n, h, t, r); r else r
  }

  /** One squaring step of `Exponent` keeps it equal to the wrapped power. */
  lemma ExponentStep(x: int, n: int, h: int, t: int, r: int)
    requires n > 0 && h == n / 2 && t == Wrap64(Pow(x, h))
    requires r == if n % 2 == 1 then Wrap64(Wrap64(t * t) * x) else Wrap64(t * t)
    ensures r == Wrap64(Pow(x, n))
  {
    var p := Pow(x, h);
    PowAdd(x, h, h);
    WrapMul(p, t);
    WrapMul(p, p);
    assert Wrap64(t * t) == Wrap64(p * p) by {
      assert t * p == p * t;
      WrapMul(p, t);
    }
    if n % 2 == 1 {
      PowAdd(x, h + h, 1);
      WrapMul(p * p, x);
      assert Pow(x, 1) == x;
    }
  }

  /** Without overflow, `Exponent` is the power itself. */
  lemma ExponentExact(x: int, n: nat)
    requires IsInt64(x) && IsInt64(Pow(x, n))
    ensures Exponent(x, n) == Pow(x, n)
  {
  }

  // ---------------------------------------------------------------
  // Fibonacci.

  /** The Fibonacci numbers, F(0) = 0 and F(1) = F(2) = 1. */
  function Fib(n: nat): nat {
    if n == 0 then 0 else if n <= 2 then 1 else Fib(n - 1) + Fib(n - 2)
  }

  /** `Fibonacci` (mathutil.go:27-38): 0 for `n <= 0`, 1 for `n` of 1 and 2
      whatever the seeds, and otherwise the seeds rolled forward with
      wrapping addition. */
  function Fibonacci(first: int, second: int, n: int): (r: int)
    ensures n <= 0 ==> r == 0
    ensures 0 < n < 3 ==> r == 1
    decreases n
  {
    if n <= 0 then 0
    else if n < 3 then 1
    else if n == 3 then Wrap64(first + second)
    else Fibonacci(second, Wrap64(first + second), n - 1)
  }

  /** From the third number on, the result is the wrapped combination
      F(n-2)·first + F(n-1)·second. */
  lemma {:induction false} FibonacciLinear(a: int, b: int, n: int)
    requires n >= 3
    ensures Fibonacci(a, b, n) == Wrap64(Fib(n - 2) * a + Fib(n - 1) * b)
    decreases n
  {
    if n > 3 {
      var c := Wrap64(a + b);
      FibonacciLinear(b, c, n - 1);
      assert Fib(n - 1) == Fib(n - 3) + Fib(n - 2);
      RollForward(a, b, Fib(n - 3), Fib(n - 2));
    }
  }

  /** u·b + v·wrap(a+b) and v·a + (u+v)·b differ by a multiple of 2^64. */
  lemma RollForward(a: int, b: int, u: int, v: int)
    ensures Wrap64(u * b + v * Wrap64(a + b)) == Wrap64(v * a + (u + v) * b)
  {
    var c := Wrap64(a + b);
    WrapDiff(a + b);
    ScaleMultiple(c - (a + b), v, TwoTo64);
    assert u * b + v * c - (v * a + (u + v) * b) == (c - (a + b)) * v;
    WrapSameClass(u * b + v * c, v * a + (u + v) * b);
  }

  /** Seeded with 1 and 1, `Fibonacci` gives the wrapped F(n). */
  lemma FibonacciStandard(n: nat)
    ensures Fibonacci(1, 1, n) == Wrap64(Fib(n))
  {
    if n >= 3 {
      FibonacciLinear(1, 1, n);
    }
  }

  // ---------------------------------------------------------------
  // Factorials, permutations and combinations.

  function Fact(n: nat): nat
    ensures Fact(n) >= 1
  {
    if n == 0 then 1 else n * Fact(n - 1)
  }

  const MaxUint64 := TwoTo64U - 1

  /** `Factorial` (mathutil.go:41-52) on a `uint`: `n!` modulo 2^64, or
      `None` when the loop never returns. At `n == MaxUint64` the test
      `i <= n` always holds and `i++` wraps to 0, so the loop runs
      forever. */
  function Factorial(n: nat): (r: Option<nat>)
    requires n < TwoTo64U
    ensures r.None? <==> n == MaxUint64
    ensures r.Some? ==> r.value == Fact(n) % TwoTo64U
  {
    if n == 0 || n == 1 then Some(1)
    else if n == MaxUint64 then
      FactorialLoopEndless(2, 1, TwoTo64U);
      FactorialLoop(2, n, 1, TwoTo64U)
    else
      FactorialLoopEnds(2, n, 1, TwoTo64U);
      FactorialLoop(2, n, 1, TwoTo64U)
  }

  /** The loop `for ; i <= n; i++ { result *= i }` on `uint`s from `i`
      on, for at most `fuel` more rounds: the final `result`, or `None`
      when `i` is still at most `n` after them. Only `i` decides when the
      loop stops and it has 2^64 values, so a loop still running after
      2^64 rounds has repeated a state and never stops. */
  function FactorialLoop(i: nat, n: nat, result: nat, fuel: nat): Option<nat>
    requires i < TwoTo64U
    decreases fuel
  {
    if i > n then Some(result)
    else if fuel == 0 then None
    else FactorialLoop((i + 1) % TwoTo64U, n, (result * i) % TwoTo64U, fuel - 1)
  }

  /** Below `MaxUint64` the loop stops at `n + 1` with the wrapped `n!`. */
  lemma {:induction false} FactorialLoopEnds(i: nat, n: nat, result: nat, fuel: nat)
    requires 2 <= i <= n + 1 && n < MaxUint64
    requires result == Fact(i - 1) % TwoTo64U && fuel >= n + 1 - i
    ensures FactorialLoop(i, n, result, fuel) == Some(Fact(n) % TwoTo64U)
    decreases n + 1 - i
  {
    if i <= n {
      var next := (result * i) % TwoTo64U;
      assert next == Fact(i) % TwoTo64U by {
        MulMod(Fact(i - 1), i, TwoTo64U);
        assert Fact(i) == Fact(i - 1) * i;
      }
      assert (i + 1) % TwoTo64U == i + 1;
      assert FactorialLoop(i, n, result, fuel) == FactorialLoop(i + 1, n, next, fuel - 1);
      FactorialLoopEnds(i + 1, n, next, fuel - 1);
    }
  }

  /** Up to `MaxUint64` every `uint` passes `i <= n`, so no amount of fuel
      ends the loop. */
  lemma {:induction false} FactorialLoopEndless(i: nat, result: nat, fuel: nat)
    requires i < TwoTo64U
    ensures FactorialLoop(i, MaxUint64, result, fuel) == None
    decreases fuel
  {
    if fuel > 0 {
      FactorialLoopEndless((i + 1) % TwoTo64U, (result * i) % TwoTo64U, fuel - 1);
    }
  }

  /** 20! is the largest factorial below 2^64. */
  lemma FactBelowTwoTo64(n: nat)
    requires n <= 20
    ensures Fact(n) < TwoTo64U && Fact(n) % TwoTo64U == Fact(n)
  {
    FactMono(n, 20);
    Fact20();
    DivModUnique(Fact(n), TwoTo64U, 0, Fact(n));
  }

  lemma Fact20()
    ensures Fact(20) == 2432902008176640000
  {
    assert Fact(5) == 120;
    assert Fact(10) == 3628800;
    assert Fact(15) == 1307674368000;
  }

  lemma {:induction false} FactMono(a: nat, b: nat)
    requires a <= b
    ensures Fact(a) <= Fact(b)
    decreases b - a
  {
    if a < b {
      FactMono(a, b - 1);
      assert Fact(b) == b * Fact(b - 1) >= Fact(b - 1);
    }
  }

  /** n·(n-1)·…·(n-k+1). */
  function Falling(n: nat, k: nat): nat
    requires k <= n
  {
    if k == 0 then 1 else n * Falling(n - 1, k - 1)
  }

  lemma {:induction false} FactFalling(n: nat, k: nat)
    requires k <= n
    ensures Fact(n) == Falling(n, k) * Fact(n - k)
  {
    if k > 0 {
      FactFalling(n - 1, k - 1);
      MulAssoc(n, Falling(n - 1, k - 1), Fact(n - k));
    }
  }

  lemma MulAssoc(a: int, b: int, c: int)
    ensures a * (b * c) == (a * b) * c
  {
  }

  /** Pascal's triangle. */
  function Binom(n: nat, k: nat): nat {
    if k > n then 0 else if k == 0 || k == n then 1 else Binom(n - 1, k - 1) + Binom(n - 1, k)
  }

  lemma {:induction false} FactBinom(n: nat, k: nat)
    requires k <= n
    ensures Binom(n, k) * (Fact(k) * Fact(n - k)) == Fact(n)
  {
    if 0 < k < n {
      FactBinom(n - 1, k - 1);
      FactBinom(n - 1, k);
      assert Fact(k) == k * Fact(k - 1);
      assert Fact(n - k) == (n - k) * Fact(n - 1 - k);
      PascalStep(Binom(n - 1, k - 1), Binom(n - 1, k), Fact(k - 1), Fact(n - 1 - k), k, n - k, Fact(n - 1));
    }
  }

  /** The arithmetic of one step of Pascal's rule. */
  lemma PascalStep(a: int, b: int, x: int, y: int, k: int, j: int, f: int)
    requires a * (x * (j * y)) == f && b * ((k * x) * y) == f
    ensures (a + b) * ((k * x) * (j * y)) == (k + j) * f
  {
    assert a * ((k * x) * (j * y)) == k * (a * (x * (j * y)));
    assert b * ((k * x) * (j * y)) == j * (b * ((k * x) * y));
  }

  /** A quotient that comes out even. */
  lemma ExactDiv(a: int, b: int, q: int)
    requires b > 0 && a == q * b
    ensures a / b == q
  {
    DivModUnique(a, b, q, 0);
  }

  /** `Permutation` (mathutil.go:369-376) on `uint`s: 0 when `n < k`,
      else the wrapped n! divided by the wrapped (n-k)!, which panics when
      the latter wraps to 0. `None` when it never returns, which is when
      `Factorial(n)` loops forever at `n == MaxUint64`. Up to n = 20
      nothing wraps and the result is the number of ordered selections. */
  method Permutation(n: nat, k: nat) returns (r: Option<Outcome<nat>>)
    requires n < TwoTo64U && k < TwoTo64U
    ensures r.None? <==> k <= n == MaxUint64
    ensures n < k ==> r == Some(Returns(0))
    ensures k <= n <= 20 ==> r == Some(Returns(Falling(n, k)))
    ensures k <= n < MaxUint64 ==> r.Some?
    ensures k <= n < MaxUint64 ==> (r.Some? && r.value.Panic? <==> Fact(n - k) % TwoTo64U == 0)
  {
    if n < k {
      return Some(Returns(0));
    }
    var nFactorial := Factorial(n);
    if nFactorial.None? {
      return None;
    }
    var nMinusKFactorial := Factorial(n - k);
    var quotient := Divide(nFactorial.value, nMinusKFactorial.value);
    if n <= 20 {
      PermutationExact(n, k, nFactorial.value, nMinusKFactorial.value);
    }
    r := Some(quotient);
  }

  /** Go's unsigned division, which panics on a zero divisor. */
  function Divide(a: nat, b: nat): (r: Outcome<nat>)
    ensures r.Panic? <==> b == 0
    ensures b != 0 ==> r.value * b <= a < (r.value + 1) * b
  {
    if b == 0 then Panic(DivideMessage) else Returns(a / b)
  }

  lemma PermutationExact(n: nat, k: nat, nf: nat, df: nat)
    requires k <= n <= 20 && nf == Fact(n) % TwoTo64U && df == Fact(n - k) % TwoTo64U
    ensures Divide(nf, df) == Returns(Falling(n, k))
  {
    FactBelowTwoTo64(n);
    FactBelowTwoTo64(n - k);
    FactFalling(n, k);
    ExactDiv(Fact(n), Fact(n - k), Falling(n, k));
  }

  /** `Combination` (mathutil.go:379-387) on `uint`s: 0 when `n < k`,
      else the wrapped n! divided by the wrapped product of the wrapped k!
      and (n-k)!. `None` when `Factorial(n)` loops forever at
      `n == MaxUint64`. Up to n = 20 nothing wraps and the result is the
      binomial coefficient. */
  method Combination(n: nat, k: nat) returns (r: Option<Outcome<nat>>)
    requires n < TwoTo64U && k < TwoTo64U
    ensures r.None? <==> k <= n == MaxUint64
    ensures n < k ==> r == Some(Returns(0))
    ensures k <= n <= 20 ==> r == Some(Returns(Binom(n, k)))
    ensures k <= n < MaxUint64 ==> r.Some?
    ensures k <= n < MaxUint64 ==> (r.Some? && r.value.Panic? <==> ((Fact(k) % TwoTo64U) * (Fact(n - k) % TwoTo64U)) % TwoTo64U == 0)
  {
    if n < k {
      return Some(Returns(0));
    }
    var nFactorial := Factorial(n);
    if nFactorial.None? {
      return None;
    }
    var kFactorial := Factorial(k);
    var nMinusKFactorial := Factorial(n - k);
    var divisor := (kFactorial.value * nMinusKFactorial.value) % TwoTo64U;
    var quotient := Divide(nFactorial.value, divisor);
    if n <= 20 {
      CombinationExact(n, k, nFactorial.value, divisor);
    }
    r := Some(quotient);
  }

  lemma CombinationExact(n: nat, k: nat, nf: nat, divisor: nat)
    requires k <= n <= 20 && nf == Fact(n) % TwoTo64U
    requires divisor == ((Fact(k) % TwoTo64U) * (Fact(n - k) % TwoTo64U)) % TwoTo64U
    ensures Divide(nf, divisor) == Returns(Binom(n, k))
  {
    FactBelowTwoTo64(n);
    FactBelowTwoTo64(k);
    FactBelowTwoTo64(n - k);
    FactBinom(n, k);
    BinomPositive(n, k);
    EvenQuotient(Fact(n), Fact(k), Fact(n - k), Binom(n, k), TwoTo64U);
  }

  /** When `q·(x·y) == f < m` with positive factors, the product of the
      factors is below `m` and divides `f` exactly `q` times. */
  lemma EvenQuotient(f: int, x: int, y: int, q: int, m: int)
    requires 0 < f < m && x >= 1 && y >= 1 && q >= 1 && q * (x * y) == f
    requires x % m == x && y % m == y
    ensures (x * y) % m == x * y > 0
    ensures f / (x * y) == q
  {
    MulMono(1, x, y);
    ProductBelow(q, x * y, f);
    DivModUnique(x * y, m, 0, x * y);
    ExactDiv(f, x * y, q);
  }

  /** A factor of a positive product is at most the product. */
  lemma ProductBelow(a: int, b: int, p: int)
    requires a >= 1 && b >= 0 && a * b == p
    ensures b <= p
  {
    MulMono(1, a, b);
  }

  lemma {:induction false} BinomPositive(n: nat, k: nat)
    requires k <= n
    ensures Binom(n, k) >= 1
  {
    if 0 < k < n {
      BinomPositive(n - 1, k);
    }
  }

  // ---------------------------------------------------------------
  // Max and Min.

  /** `Max` (mathutil.go:132-146): panics on no arguments. */
  method Max(items: seq<int>) returns (r: Outcome<int>)
    ensures |items| == 0 <==> r.Panic?
    ensures r.Returns? ==> r.value in items && forall i :: 0 <= i < |items| ==> items[i] <= r.value
  {
    if |items| < 1 {
      return Panic(MaxEmptyMessage);
    }
    var max := items[0];
    for i := 0 to |items|
      invariant max in items && forall k :: 0 <= k < i ==> items[k] <= max
    {
      if max < items[i] {
        max := items[i];
      }
    }
    return Returns(max);
  }

  /** `Min` (mathutil.go:170-181): panics on no arguments. */
  method Min(items: seq<int>) returns (r: Outcome<int>)
    ensures |items| == 0 <==> r.Panic?
    ensures r.Returns? ==> r.value in items && forall i :: 0 <= i < |items| ==> r.value <= items[i]
  {
    if |items| < 1 {
      return Panic(MinEmptyMessage);
    }
    var min := items[0];
    for i := 0 to |items|
      invariant min in items && forall k :: 0 <= k < i ==> min <= items[k]
    {
      if min > items[i] {
        min := items[i];
      }
    }
    return Returns(min);
  }

  // ---------------------------------------------------------------
  // Divisibility, gcd and lcm.

  /** `d` divides `x`; only 0 is divisible by 0. */
  predicate Divides(d: int, x: int) {
    if d == 0 then x == 0 else x % d == 0
  }

  /** A positive `d` dividing `x` and `y` divides `x + q·y`. */
  lemma DividesCombination(d: int, x: int, y: int, q: int)
    requires d > 0 && x % d == 0 && y % d == 0
    ensures (x + q * y) % d == 0
  {
    var kx, ky := x / d, y / d;
    assert x == kx * d && y == ky * d;
    assert x + q * y == (kx + q * ky) * d;
    MultipleMod(kx + q * ky, d);
  }

  /** `gcd` (math_internal.go:5-10): Euclid's algorithm with Go's `%`. */
  function Gcd(a: int, b: int): (r: int)
    ensures a >= 0 && b >= 0 ==> r >= 0
    decreases Abs(b)
  {
    if b == 0 then a else Gcd(b, GoRem(a, b))
  }

  /** On non-negative numbers, `gcd` divides both and every positive
      common divisor divides it. */
  lemma {:induction false} GcdGreatest(a: int, b: int)
    requires a >= 0 && b >= 0
    ensures Divides(Gcd(a, b), a) && Divides(Gcd(a, b), b)
    ensures forall d :: d > 0 && Divides(d, a) && Divides(d, b) ==> Divides(d, Gcd(a, b))
    decreases b
  {
    if b == 0 {
      if a > 0 {
        MultipleMod(1, a);
      }
    } else {
      var m := a % b;
      assert GoRem(a, b) == m;
      GcdGreatest(b, m);
      EuclidStep(a, b, Gcd(b, m));
    }
  }

  /** Common divisors of `a` and `b` are those of `b` and `a % b`. */
  lemma EuclidStep(a: int, b: int, g: int)
    requires a >= 0 && b > 0 && g >= 0
    requires Divides(g, b) && Divides(g, a % b)
    requires forall d :: d > 0 && Divides(d, b) && Divides(d, a % b) ==> Divides(d, g)
    ensures Divides(g, a) && Divides(g, b)
    ensures forall d :: d > 0 && Divides(d, a) && Divides(d, b) ==> Divides(d, g)
  {
    var q, m := a / b, a % b;
    assert a == m + q * b;
    if g != 0 {
      DividesCombination(g, m, b, q);
    }
    forall d | d > 0 && Divides(d, a) && Divides(d, b)
      ensures Divides(d, m)
    {
      assert m == a + (-q) * b;
      DividesCombination(d, a, b, -q);
    }
  }

  /** `lcm` (math_internal.go:12-17): panics on a zero argument, otherwise
      the product over the gcd, truncated. */
  function Lcm(a: int, b: int): (r: Outcome<int>)
    ensures r.Panic? <==> a == 0 || b == 0
  {
    if a == 0 || b == 0 then Panic(LcmMessage)
    else
      GcdNonZero(a, b);
      Returns(GoDiv(a * b, Gcd(a, b)))
  }

  /** The gcd of two numbers, not both 0, is not 0. */
  lemma {:induction false} GcdNonZero(a: int, b: int)
    requires a != 0 || b != 0
    ensures Gcd(a, b) != 0
    decreases Abs(b)
  {
    if b != 0 {
      GcdNonZero(b, GoRem(a, b));
    }
  }

  /** The gcd's magnitude is the gcd of the magnitudes. */
  lemma {:induction false} GcdAbs(a: int, b: int)
    ensures Abs(Gcd(a, b)) == Gcd(Abs(a), Abs(b))
    decreases Abs(b)
  {
    if b != 0 {
      GcdAbs(b, GoRem(a, b));
      assert Abs(GoRem(a, b)) == GoRem(Abs(a), Abs(b));
    }
  }

  /** On non-zero numbers `lcm` is not zero. */
  lemma LcmNonZero(a: int, b: int)
    requires a != 0 && b != 0
    ensures Lcm(a, b).Returns? && Lcm(a, b).value != 0
  {
    var g := Gcd(a, b);
    GcdNonZero(a, b);
    GcdBound(a, b);
    AbsMul(a, b);
    QuotientNonZero(a * b, g, Abs(a), Abs(b));
  }

  lemma AbsMul(a: int, b: int)
    ensures Abs(a * b) == Abs(a) * Abs(b)
  {
    if a < 0 && b < 0 {
      assert a * b == (-a) * (-b);
    } else if a < 0 {
      assert -(a * b) == (-a) * b;
      MulMono(0, -a, b);
    } else if b < 0 {
      assert -(a * b) == a * (-b);
      MulMono(0, a, -b);
    } else {
      MulMono(0, a, b);
    }
  }

  /** The gcd's magnitude is at most that of a non-zero second argument. */
  lemma GcdBound(a: int, b: int)
    requires b != 0
    ensures Abs(Gcd(a, b)) <= Abs(b)
  {
    GcdAbs(a, b);
    GcdDividesSecond(Abs(a), Abs(b));
    var g := Gcd(Abs(a), Abs(b));
    FactorBelow(Abs(b), g);
  }

  /** A positive divisor of a positive number is at most that number. */
  lemma FactorBelow(x: int, d: int)
    requires x > 0 && d > 0 && x % d == 0
    ensures d <= x
  {
    var k := x / d;
    assert x == k * d;
    ProductBelow(k, d, x);
  }

  lemma GcdDividesSecond(a: int, b: int)
    requires a >= 0 && b > 0
    ensures Gcd(a, b) > 0 && b % Gcd(a, b) == 0
  {
    GcdGreatest(a, b);
  }

  /** Dividing a product by something no larger than one factor leaves a
      non-zero quotient. */
  lemma QuotientNonZero(p: int, g: int, x: nat, y: nat)
    requires g != 0 && x >= 1 && y >= 1 && Abs(p) == x * y && Abs(g) <= y
    ensures GoDiv(p, g) != 0
  {
    MulMono(1, x, y);
  }

  /** On positive numbers `lcm` is a positive common multiple. */
  lemma LcmCommonMultiple(a: int, b: int)
    requires a > 0 && b > 0
    ensures Lcm(a, b).Returns? && Lcm(a, b).value > 0
    ensures Divides(a, Lcm(a, b).value) && Divides(b, Lcm(a, b).value)
  {
    GcdGreatest(a, b);
    GcdNonZero(a, b);
    var g := Gcd(a, b);
    var ka, kb := Cofactors(a, b, g);
    var l := LcmValue(a, b, g, ka, kb);
    MultipleMod(kb, a);
    MultipleMod(ka, b);
  }

  /** Two positive multiples of a positive `g` are `g` times positive
      cofactors. */
  lemma Cofactors(a: int, b: int, g: int) returns (ka: int, kb: int)
    requires a > 0 && b > 0 && g > 0 && a % g == 0 && b % g == 0
    ensures a == ka * g && b == kb * g && ka > 0 && kb > 0
  {
    ka, kb := a / g, b / g;
    PositiveFactor(ka, g);
    PositiveFactor(kb, g);
  }

  lemma PositiveFactor(k: int, g: int)
    requires g > 0 && k * g > 0
    ensures k > 0
  {
    if k <= 0 {
      MulMono(0, -k, g);
    }
  }

  /** With `a = ka·g` and `b = kb·g`, `a·b / g` is `a·kb`, which is also
      `b·ka`, and it is positive. */
  lemma LcmValue(a: int, b: int, g: int, ka: int, kb: int) returns (l: int)
    requires a > 0 && b > 0 && g > 0 && ka > 0 && kb > 0 && a == ka * g && b == kb * g
    ensures l == GoDiv(a * b, g) == a * kb == b * ka && l > 0
  {
    l := a * kb;
    MulAssoc(a, kb, g);
    ExactDiv(a * b, g, l);
    MulAssoc(ka, g, kb);
    MulPositive(a, kb);
  }

  lemma MulPositive(x: int, y: int)
    requires x > 0 && y > 0
    ensures x * y > 0
  {
  }

  /** `GCD` (mathutil.go:291-301): panics on no arguments (index out of
      range); folds `gcd` over the arguments, stopping early at 1. On
      non-negative arguments the result divides each of them and every
      positive common divisor divides it. */
  method GCD(integers: seq<int>) returns (r: Outcome<int>)
    ensures |integers| == 0 <==> r.Panic?
    ensures r.Returns? && (forall i :: 0 <= i < |integers| ==> integers[i] >= 0) ==>
      r.value >= 0
      && (forall i :: 0 <= i < |integers| ==> Divides(r.value, integers[i]))
      && forall d :: d > 0 && (forall i :: 0 <= i < |integers| ==> Divides(d, integers[i])) ==> Divides(d, r.value)
  {
    if |integers| == 0 {
      return Panic(IndexMessage);
    }
    var nonNeg := forall i :: 0 <= i < |integers| ==> integers[i] >= 0;
    var result := integers[0];
    for k := 0 to |integers|
      invariant nonNeg ==> result >= 0 && Divides(result, integers[0])
      invariant nonNeg ==> forall i :: 0 <= i < k ==> Divides(result, integers[i])
      invariant nonNeg ==> forall d :: d > 0 && Divides(d, integers[0]) && (forall i :: 0 <= i < k ==> Divides(d, integers[i])) ==> Divides(d, result)
    {
      var previous := result;
      result := Gcd(integers[k], result);
      if nonNeg {
        GcdGreatest(integers[k], previous);
        GcdStep(integers, k, previous, result);
      }
      if result == 1 {
        OneDividesAll(integers);
        return Returns(1);
      }
    }
    return Returns(result);
  }

  /** Folding one more argument into the gcd keeps the invariants of the loop. */
  lemma GcdStep(integers: seq<int>, k: nat, previous: int, result: int)
    requires k < |integers| && integers[k] >= 0 && previous >= 0 && result >= 0
    requires Divides(previous, integers[0])
    requires forall i :: 0 <= i < k ==> Divides(previous, integers[i])
    requires Divides(result, integers[k]) && Divides(result, previous)
    requires forall d :: d > 0 && Divides(d, integers[k]) && Divides(d, previous) ==> Divides(d, result)
    ensures Divides(result, integers[0])
    ensures forall i :: 0 <= i < k + 1 ==> Divides(result, integers[i])
  {
    forall i | 0 <= i < k + 1 || i == 0
      ensures Divides(result, integers[i])
    {
      if i < k || i == 0 {
        DividesTrans(result, previous, integers[i]);
      }
    }
  }

  lemma DividesTrans(a: int, b: int, c: int)
    requires a >= 0 && Divides(a, b) && Divides(b, c)
    ensures Divides(a, c)
  {
    if a != 0 && b != 0 {
      var kb, kc := b / a, c / b;
      assert b == kb * a && c == kc * b;
      assert c == (kc * kb) * a;
      MultipleMod(kc * kb, a);
    }
  }

  lemma OneDividesAll(integers: seq<int>)
    ensures forall i :: 0 <= i < |integers| ==> Divides(1, integers[i])
  {
  }

  /** `LCM` (mathutil.go:304-310): panics on no arguments and on any zero;
      on positive arguments the result is a positive multiple of each. */
  method LCM(integers: seq<int>) returns (r: Outcome<int>)
    ensures |integers| == 0 || (exists i :: 0 <= i < |integers| && integers[i] == 0) <==> r.Panic?
    ensures r.Returns? && (forall i :: 0 <= i < |integers| ==> integers[i] > 0) ==>
      r.value > 0 && forall i :: 0 <= i < |integers| ==> Divides(integers[i], r.value)
  {
    if |integers| == 0 {
      return Panic(IndexMessage);
    }
    var positive := forall i :: 0 <= i < |integers| ==> integers[i] > 0;
    var result := integers[0];
    if positive {
      MultipleMod(1, integers[0]);
    }
    for k := 0 to |integers|
      invariant (k == 0 && result == integers[0]) || (k > 0 && result != 0)
      invariant forall i :: 0 <= i < k ==> integers[i] != 0
      invariant positive ==> result > 0 && Divides(integers[0], result)
      invariant positive ==> forall i :: 0 <= i < k ==> Divides(integers[i], result)
    {
      var step := Lcm(integers[k], result);
      if step.Panic? {
        return Panic(step.message);
      }
      var previous := result;
      result := step.value;
      LcmNonZero(integers[k], previous);
      if positive {
        LcmCommonMultiple(integers[k], previous);
        forall i | 0 <= i < k + 1 || i == 0
          ensures Divides(integers[i], result)
        {
          if i < k || i == 0 {
            DividesTrans(integers[i], previous, result);
          }
        }
      }
    }
    return Returns(result);
  }

  // ---------------------------------------------------------------
  // Ranges.

  /** `Range` (mathutil.go:222-235) on `int64` elements: `|count|` numbers
      counted up from `start` by the loop's `j + 1`, which wraps past
      `MaxInt64`. */
  function Range(start: int, count: int): (r: seq<int>)
    requires IsInt64(start)
    ensures |r| == Abs(count)
    ensures forall i :: 0 <= i < |r| ==> r[i] == Wrap64(start + i)
    ensures start + |r| <= MaxInt64 + 1 ==> forall i :: 0 <= i < |r| ==> r[i] == start + i
  {
    CountUp(start, Abs(count))
  }

  /** The loop of `Range` from `j` on, for `n` more elements. */
  function CountUp(j: int, n: nat): (r: seq<int>)
    requires IsInt64(j)
    ensures |r| == n
    ensures forall i :: 0 <= i < n ==> r[i] == Wrap64(j + i)
    decreases n
  {
    if n == 0 then []
    else
      var rest := CountUp(Wrap64(j + 1), n - 1);
      var r := [j] + rest;
      assert forall i :: 1 <= i < n ==> r[i] == Wrap64(j + i) by {
        forall i | 1 <= i < n
          ensures r[i] == Wrap64(j + i)
        {
          assert r[i] == rest[i - 1];
          WrapAdd(j + 1, i - 1);
        }
      }
      r
  }

  /** Counting two up from `MaxInt64` wraps to `MinInt64`. */
  lemma RangeWrapsAtMax()
    ensures Range(MaxInt64, 2) == [MaxInt64, MinInt64]
  {
    var r := Range(MaxInt64, 2);
    WrapShift(MinInt64, 1);
    assert r[1] == Wrap64(MaxInt64 + 1) == MinInt64;
  }

  /** The numbers below `end` from `i` on, `step` apart, on unbounded
      integers. */
  function Stepping(i: int, end: int, step: int): (r: seq<int>)
    requires step > 0
    ensures forall k :: 0 <= k < |r| ==> r[k] == i + k * step && r[k] < end
    ensures i + |r| * step >= end
    decreases end - i
  {
    if i >= end then []
    else
      var rest := Stepping(i + step, end, step);
      var r := [i] + rest;
      assert forall k :: 0 <= k < |r| ==> r[k] == i + k * step && r[k] < end by {
        forall k | 0 <= k < |r|
          ensures r[k] == i + k * step && r[k] < end
        {
          if k > 0 {
            assert r[k] == rest[k - 1];
            StepShift(i, step, k);
          }
        }
      }
      StepShift(i, step, |r|);
      r
  }

  lemma StepShift(i: int, step: int, k: int)
    ensures (i + step) + (k - 1) * step == i + k * step
  {
  }

  /** `s` is what the loop `for ; i < end; i += step` appends from `i`
      on `int64`s: it starts at `i`, each value is the one before plus
      `step` wrapped around, every value is below `end`, and the value
      after the last one is not. */
  ghost predicate LoopRun(i: int, end: int, step: int, s: seq<int>) {
    (|s| == 0 ==> i >= end)
    && (|s| > 0 ==> s[0] == i && Wrap64(s[|s| - 1] + step) >= end)
    && (forall k :: 0 <= k < |s| ==> IsInt64(s[k]) && s[k] < end)
    && (forall k :: 0 < k < |s| ==> s[k] == Wrap64(s[k - 1] + step))
  }

  /** One more round in front of a run. */
  lemma LoopRunCons(i: int, end: int, step: int, rest: seq<int>)
    requires IsInt64(i) && i < end && LoopRun(Wrap64(i + step), end, step, rest)
    ensures LoopRun(i, end, step, [i] + rest)
  {
    var s := [i] + rest;
    ConsBelow(i, end, rest);
    ConsSteps(i, step, rest);
    if |rest| > 0 {
      assert s[|s| - 1] == rest[|rest| - 1];
    }
  }

  lemma ConsBelow(i: int, end: int, rest: seq<int>)
    requires IsInt64(i) && i < end
    requires forall k :: 0 <= k < |rest| ==> IsInt64(rest[k]) && rest[k] < end
    ensures var s := [i] + rest; forall k :: 0 <= k < |s| ==> IsInt64(s[k]) && s[k] < end
  {
    var s := [i] + rest;
    forall k | 0 < k < |s|
      ensures IsInt64(s[k]) && s[k] < end
    {
      assert s[k] == rest[k - 1];
    }
  }

  lemma ConsSteps(i: int, step: int, rest: seq<int>)
    requires |rest| > 0 ==> rest[0] == Wrap64(i + step)
    requires forall k :: 0 < k < |rest| ==> rest[k] == Wrap64(rest[k - 1] + step)
    ensures var s := [i] + rest; forall k :: 0 < k < |s| ==> s[k] == Wrap64(s[k - 1] + step)
  {
    var s := [i] + rest;
    forall k | 0 < k < |s|
      ensures s[k] == Wrap64(s[k - 1] + step)
    {
      assert s[k] == rest[k - 1];
    }
  }

  /** The loop of `RangeWithStep` from `i`, for at most `fuel` more
      rounds: the run it appends, or `None` when `i` is still below `end`
      after them. */
  function StepLoop(i: int, end: int, step: int, fuel: nat): (r: Option<seq<int>>)
    requires IsInt64(i) && IsInt64(end)
    ensures r.Some? ==> LoopRun(i, end, step, r.value)
    decreases fuel
  {
    if i >= end then Some([])
    else if fuel == 0 then None
    else
      var next := StepLoop(Wrap64(i + step), end, step, fuel - 1);
      if next.None? then None
      else
        LoopRunCons(i, end, step, next.value);
        Some([i] + next.value)
  }

  /** `RangeWithStep` (mathutil.go:238-250) on `int64`s: empty when
      `start >= end` or `step == 0`; otherwise the values of `i` from
      `start`, with `i += step` wrapping around, for as long as
      `i < end`. `None` when the loop is still going after 2^64 rounds:
      `i` has then repeated a value, so the loop never ends. */
  function RangeWithStep(start: int, end: int, step: int): (r: Option<seq<int>>)
    requires IsInt64(start) && IsInt64(end)
    ensures start >= end || step == 0 ==> r == Some([])
    ensures step != 0 && r.Some? ==> LoopRun(start, end, step, r.value)
  {
    if start >= end || step == 0 then Some([]) else StepLoop(start, end, step, TwoTo64)
  }

  /** While `i += step` cannot pass `MaxInt64`, the loop lists the same
      numbers as on unbounded integers. */
  lemma {:induction false} StepLoopAgrees(i: int, end: int, step: int, fuel: nat)
    requires IsInt64(i) && IsInt64(end) && 0 < step && end - 1 + step <= MaxInt64
    requires fuel >= end - i
    ensures StepLoop(i, end, step, fuel) == Some(Stepping(i, end, step))
    decreases fuel
  {
    if i < end {
      var n := i + step;
      assert Wrap64(n) == n;
      StepLoopAgrees(n, end, step, fuel - 1);
      assert Stepping(i, end, step) == [i] + Stepping(n, end, step);
    }
  }

  /** `RangeWithStep` returns every run of the loop: when the loop from
      `start` ends with output `run`, the result is `Some(run)`. So `None`
      means that no run exists and the loop never ends, and for a non-zero
      step `Some(run)` holds exactly for the loop's run. */
  lemma RangeWithStepRuns(start: int, end: int, step: int, run: seq<int>)
    requires IsInt64(start) && IsInt64(end)
    ensures LoopRun(start, end, step, run) ==> RangeWithStep(start, end, step) == Some(run)
    ensures step != 0 ==> (RangeWithStep(start, end, step) == Some(run) <==> LoopRun(start, end, step, run))
  {
    if LoopRun(start, end, step, run) {
      if step == 0 {
        ZeroStepRun(start, end, run);
      } else {
        RunDistinct(start, end, step, run);
        DistinctInt64Bound(run);
        StepLoopOfRun(start, end, step, run, TwoTo64);
      }
    }
  }

  /** With step 0 the loop only ends when it never starts. */
  lemma ZeroStepRun(start: int, end: int, run: seq<int>)
    requires LoopRun(start, end, 0, run)
    ensures run == []
  {
  }

  /** Given enough fuel, the bounded unfolding finishes with the run. */
  lemma {:induction false} StepLoopOfRun(i: int, end: int, step: int, run: seq<int>, fuel: nat)
    requires IsInt64(i) && IsInt64(end) && LoopRun(i, end, step, run) && fuel >= |run|
    ensures StepLoop(i, end, step, fuel) == Some(run)
    decreases |run|
  {
    if |run| > 0 {
      var next, rest := Wrap64(i + step), run[1..];
      assert LoopRun(next, end, step, rest) by {
        forall k | 0 <= k < |rest|
          ensures IsInt64(rest[k]) && rest[k] < end
        {
          assert rest[k] == run[k + 1];
        }
        forall k | 0 < k < |rest|
          ensures rest[k] == Wrap64(rest[k - 1] + step)
        {
          assert rest[k] == run[k + 1] && rest[k - 1] == run[k];
        }
        if |rest| > 0 {
          assert rest[0] == run[1] && rest[|rest| - 1] == run[|run| - 1];
        }
      }
      StepLoopOfRun(next, end, step, rest, fuel - 1);
      assert [i] + rest == run;
    }
  }

  /** Equal values at `a` and `b` stay equal `t` steps later, since each
      value fixes the next. */
  lemma {:induction false} RunShift(i: int, end: int, step: int, run: seq<int>, a: nat, b: nat, t: nat)
    requires LoopRun(i, end, step, run) && a < b && b + t < |run|
    ensures run[a] == run[b] ==> run[a + t] == run[b + t]
    decreases t
  {
    if t > 0 {
      RunShift(i, end, step, run, a, b, t - 1);
      assert run[a + t] == Wrap64(run[a + t - 1] + step);
      assert run[b + t] == Wrap64(run[b + t - 1] + step);
    }
  }

  /** A run never repeats a value: a repeat would make the last value's
      successor equal to an earlier successor, which is below `end`. */
  lemma RunDistinct(i: int, end: int, step: int, run: seq<int>)
    requires LoopRun(i, end, step, run)
    ensures forall a, b :: 0 <= a < b < |run| ==> run[a] != run[b]
  {
    forall a, b | 0 <= a < b < |run|
      ensures run[a] != run[b]
    {
      var t := |run| - 1 - b;
      RunShift(i, end, step, run, a, b, t);
      assert run[a + t + 1] == Wrap64(run[a + t] + step) < end;
    }
  }

  /** The elements of a sequence, as a set. */
  ghost function Elements(s: seq<int>): set<int> {
    set k | 0 <= k < |s| :: s[k]
  }

  /** A sequence of distinct `int64`s has at most 2^64 elements. */
  lemma DistinctInt64Bound(s: seq<int>)
    requires forall k :: 0 <= k < |s| ==> IsInt64(s[k])
    requires forall a, b :: 0 <= a < b < |s| ==> s[a] != s[b]
    ensures |s| <= TwoTo64
  {
    DistinctCount(s);
    var all := Interval(MinInt64, MaxInt64 + 1);
    assert Elements(s) <= all;
    SubsetSize(Elements(s), all);
  }

  lemma {:induction false} DistinctCount(s: seq<int>)
    requires forall a, b :: 0 <= a < b < |s| ==> s[a] != s[b]
    ensures |Elements(s)| == |s|
  {
    if |s| > 0 {
      var front := s[..|s| - 1];
      DistinctCount(front);
      assert Elements(s) == Elements(front) + {s[|s| - 1]};
      assert s[|s| - 1] !in Elements(front);
    }
  }

  /** The integers in `[lo, hi)`. */
  ghost function Interval(lo: int, hi: int): (r: set<int>)
    requires lo <= hi
    ensures forall x :: x in r <==> lo <= x < hi
    ensures |r| == hi - lo
    decreases hi - lo
  {
    if lo == hi then {} else Interval(lo, hi - 1) + {hi - 1}
  }

  lemma SubsetSize(a: set<int>, b: set<int>)
    requires a <= b
    ensures |a| <= |b|
  {
    assert b == a + (b - a);
  }

  /** Without wrap-around, `RangeWithStep` is `start`, `start + step`, …
      below `end`. */
  lemma RangeWithStepNoWrap(start: int, end: int, step: int)
    requires IsInt64(start) && IsInt64(end) && 0 < step && end - 1 + step <= MaxInt64
    ensures RangeWithStep(start, end, step) == Some(Stepping(start, end, step))
  {
    if start < end {
      StepLoopAgrees(start, end, step, TwoTo64);
    }
  }

  /** A step of `MaxInt64` from 1 wraps twice before reaching `end`. */
  lemma RangeWithStepWraps()
    ensures RangeWithStep(1, 2, MaxInt64) == Some([1, MinInt64, -1])
  {
    var m := MaxInt64;
    WrapShift(MinInt64, 1);
    assert Wrap64(1 + m) == MinInt64;
    assert Wrap64(MinInt64 + m) == -1;
    assert Wrap64(-1 + m) == m - 1;
    var f := TwoTo64;
    var last := StepLoop(m - 1, 2, m, f - 3);
    assert last == Some([]);
    var tail: seq<int> := [-1];
    assert [-1] + [] == tail;
    assert StepLoop(-1, 2, m, f - 2) == Some(tail);
    var low := MinInt64;
    assert StepLoop(low, 2, m, f - 1) == Some([low] + tail);
    assert [low] + tail == [low, -1];
    assert StepLoop(1, 2, m, f) == Some([1] + [low, -1]);
    assert [1] + [low, -1] == [1, MinInt64, -1];
    assert RangeWithStep(1, 2, m) == StepLoop(1, 2, m, f);
  }

  /** From an even value, `i += 2` below the odd `MaxInt64` only ever
      reaches even values, so the loop never stops. */
  lemma {:induction false} EvenStepsEndless(i: int, fuel: nat)
    requires IsInt64(i) && i % 2 == 0
    ensures StepLoop(i, MaxInt64, 2, fuel) == None
    decreases fuel
  {
    if fuel > 0 {
      WrapEven(i + 2);
      EvenStepsEndless(Wrap64(i + 2), fuel - 1);
    }
  }

  /** Wrapping keeps a value even. */
  lemma WrapEven(x: int)
    requires x % 2 == 0
    ensures Wrap64(x) % 2 == 0
  {
    var q := (x - MinInt64) / TwoTo64;
    assert Wrap64(x) == x - q * TwoTo64;
    assert Wrap64(x) == 2 * (x / 2 - q * (TwoTo64 / 2));
  }

  /** `RangeWithStep(MaxInt64 - 1, MaxInt64, 2)` wraps to `MinInt64`, still
      below `end`, and never ends. */
  lemma RangeWithStepEndless()
    ensures RangeWithStep(MaxInt64 - 1, MaxInt64, 2) == None
  {
    EvenStepsEndless(MaxInt64 - 1, TwoTo64);
  }

  /** A unit step from `start` up to `end` lists the same numbers as
      `Range` from `start` with `end - start` of them. */
  lemma RangeUnitStep(start: int, end: int)
    requires IsInt64(start) && IsInt64(end) && start <= end
    ensures RangeWithStep(start, end, 1) == Some(Range(start, end - start))
  {
    RangeWithStepNoWrap(start, end, 1);
    UnitStepping(start, end);
  }

  lemma UnitStepping(start: int, end: int)
    requires IsInt64(start) && IsInt64(end) && start <= end
    ensures Stepping(start, end, 1) == Range(start, end - start)
  {
    var r, q := Stepping(start, end, 1), Range(start, end - start);
    if |r| > 0 {
      assert r[|r| - 1] == start + (|r| - 1) * 1;
    }
    assert |r| == end - start;
    forall k | 0 <= k < |r|
      ensures r[k] == q[k]
    {
      assert r[k] == start + k * 1;
    }
  }

  // ---------------------------------------------------------------
  // Primes and absolute values.

  /** No divisor between 2 and `n - 1`. */
  predicate IsPrimeNumber(n: int) {
    n >= 2 && forall d :: 2 <= d < n ==> n % d != 0
  }

  lemma MulMono(a: int, b: int, c: int)
    requires 0 <= a <= b && c >= 0
    ensures a * c <= b * c
  {
  }

  /** Trial division up to the square root finds every divisor. */
  lemma SquareRootEnough(n: int, i: int)
    requires n >= 2 && i >= 2 && i * i > n
    requires forall d :: 2 <= d < i ==> n % d != 0
    ensures IsPrimeNumber(n)
  {
    forall d | 2 <= d < n
      ensures n % d != 0
    {
      if d >= i && n % d == 0 {
        var e := CoFactor(n, d);
        if e >= i {
          MulMono(i, e, d);
          MulMono(i, d, i);
        }
        assert false;
      }
    }
  }

  /** The other factor of a proper divisor is a proper divisor too. */
  lemma CoFactor(n: int, d: int) returns (e: int)
    requires 2 <= d < n && n % d == 0
    ensures e * d == n && 2 <= e && n % e == 0
  {
    e := n / d;
    assert n == e * d;
    MulAbove(e, d);
    DivModUnique(n, e, d, 0);
  }

  lemma MulAbove(e: int, d: int)
    requires d > 0 && e * d > d
    ensures e >= 2
  {
    assert (e - 1) * d > 0;
  }

  /** `IsPrime` (mathutil.go:276-288): trial division while `i·i <= n`,
      the integer reading of `i <= int(math.Sqrt(float64(n)))`. */
  method IsPrime(n: int) returns (prime: bool)
    ensures prime <==> IsPrimeNumber(n)
  {
    if n < 2 {
      return false;
    }
    var i := 2;
    while i * i <= n
      invariant 2 <= i <= n
      invariant forall d :: 2 <= d < i ==> n % d != 0
      decreases n - i
    {
      if n % i == 0 {
        return false;
      }
      i := i + 1;
    }
    SquareRootEnough(n, i);
    return true;
  }

  /** `Abs` (mathutil.go:336-342) on `int64`: the negation of the least
      value wraps back to itself. */
  function AbsInt64(x: int): (r: int)
    requires IsInt64(x)
    ensures IsInt64(r)
    ensures x != MinInt64 ==> r >= 0 && (r == x || r == -x)
    ensures x == MinInt64 ==> r == MinInt64
  {
    if x < 0 then Wrap64(-x) else x
  }
}
