/**
  Go's integer arithmetic where it differs from Dafny's: `/` and `%`
  truncate toward zero, and `int64` arithmetic wraps around.
 */
module GoInt {

  const MinInt64 := -0x8000_0000_0000_0000
  const MaxInt64 := 0x7fff_ffff_ffff_ffff
  const TwoTo64 := 0x1_0000_0000_0000_0000
  const DivideMessage := "integer divide by zero"  // the runtime panic of an integer division or remainder by zero

  predicate IsInt64(x: int) {
    MinInt64 <= x <= MaxInt64
  }

  /** The `int64` that `x` wraps to. */
  function Wrap64(x: int): (r: int)
    ensures IsInt64(r) && (IsInt64(x) ==> r == x)
  {
    (x - MinInt64) % TwoTo64 + MinInt64
  }

  function Abs(x: int): nat {
    if x < 0 then -x else x
  }

  /** Go's `a / b`: the quotient truncated toward zero. */
  function GoDiv(a: int, b: int): (q: int)
    requires b != 0
  {
    var q := Abs(a) / Abs(b);
    if (a < 0) == (b < 0) then q else -q
  }

  /** Go's `a % b`: the remainder takes the sign of `a`. */
  function GoRem(a: int, b: int): (r: int)
    requires b != 0
    ensures Abs(r) < Abs(b)
    ensures (a >= 0 ==> r >= 0) && (a <= 0 ==> r <= 0)
  {
    var m := Abs(a) % Abs(b);
    if a < 0 then -m else m
  }

  /** Quotient and remainder put the dividend back together. */
  lemma GoDivRem(a: int, b: int)
    requires b != 0
    ensures a == GoDiv(a, b) * b + GoRem(a, b)
  {
    var q, m := Abs(a) / Abs(b), Abs(a) % Abs(b);
    assert Abs(a) == q * Abs(b) + m;
  }

  /** On a positive divisor, adding the divisor to a negative truncated
      remainder gives the Euclidean one. */
  lemma GoRemAdjusted(a: int, n: int)
    requires n > 0
    ensures (if GoRem(a, n) < 0 then n + GoRem(a, n) else GoRem(a, n)) == a % n
  {
    if a < 0 {
      var q, m := (-a) / n, (-a) % n;
      assert -a == q * n + m;
      assert GoRem(a, n) == -m;
      if m == 0 {
        DivModUnique(a, n, -q, 0);
      } else {
        DivModUnique(a, n, -q - 1, n - m);
      }
    }
  }

  /** Quotient and remainder are the only ones with `0 <= r < n`. */
  lemma DivModUnique(a: int, n: int, q: int, r: int)
    requires 0 <= r < n && a == q * n + r
    ensures a / n == q && a % n == r
  {
    var q', r' := a / n, a % n;
    if q' > q {
      assert (q' - q) * n >= n by { MulAtLeast(q' - q, n); }
      assert false;
    } else if q' < q {
      assert (q - q') * n >= n by { MulAtLeast(q - q', n); }
      assert false;
    }
  }

  lemma MulAtLeast(k: int, n: int)
    requires k >= 1 && n > 0
    ensures k * n >= n
  {
  }

  /** Adding whole multiples of 2^64 does not change the wrapped value. */
  lemma WrapShift(x: int, k: int)
    ensures Wrap64(x + k * TwoTo64) == Wrap64(x)
  {
    var y := x - MinInt64;
    var q, r := y / TwoTo64, y % TwoTo64;
    assert y + k * TwoTo64 == (q + k) * TwoTo64 + r;
    DivModUnique(y + k * TwoTo64, TwoTo64, q + k, r);
  }

  /** A value at most 2^64 past the `int64` range wraps by exactly 2^64. */
  lemma WrapOnce(x: int)
    ensures MaxInt64 < x <= MaxInt64 + TwoTo64 ==> Wrap64(x) == x - TwoTo64
  {
    WrapShift(x, -1);
  }

  /** Wrapping a factor first gives the same product modulo 2^64: `int64`
      multiplication can wrap at every step or only at the end. */
  lemma WrapMul(a: int, b: int)
    ensures Wrap64(Wrap64(a) * b) == Wrap64(a * b)
  {
    var y := a - MinInt64;
    var q := y / TwoTo64;
    assert Wrap64(a) == a - q * TwoTo64;
    assert Wrap64(a) * b == a * b + (-(q * b)) * TwoTo64;
    WrapShift(a * b, -(q * b));
  }
}
