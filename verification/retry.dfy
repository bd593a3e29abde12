/**
  `retry/retry.go`: the backoff strategies, the option constructors and
  the retry loop. Durations are `int64` nanosecond counts. What the loop
  cannot see is passed in as data: whether each call of the retried
  function succeeds, whether the context fires before each wait ends,
  and the random draws behind the jitter.
 */
module Retry {
  import opened Wrappers
  import opened GoInt
  import opened NumText

  /** `DefaultRetryTimes` (retry.go:17). */
  const DefaultRetryTimes := 5

  const Second := 1_000_000_000

  /** `DefaultRetryLinearInterval` (retry.go:19): three seconds. */
  const DefaultRetryLinearInterval := 3 * Second

  /** The three strategies of retry.go:147-184, each with the state its
      `CalculateInterval` reads and updates. */
  datatype Backoff =
    | Linear(interval: int)
    | ExponentialWithJitter(base: int, interval: int, maxJitter: int)
    | ShiftExponentialWithJitter(interval: int, maxJitter: int, shifter: nat)
  {
    function MaxJitter(): int {
      if Linear? then 0 else maxJitter
    }
  }

  /** Draws `rand.Int63n(maxJitter)` can give: from 0 up to, not
      including, a positive `maxJitter`. */
  predicate ValidDraw(maxJitter: int, draw: int) {
    maxJitter >= 0 && (maxJitter > 0 ==> 0 <= draw < maxJitter)
  }

  predicate ValidDraws(maxJitter: int, draws: seq<int>) {
    maxJitter >= 0 && forall i :: 0 <= i < |draws| ==> ValidDraw(maxJitter, draws[i])
  }

  /** `jitter` (retry.go:187-192): nothing for a zero bound, otherwise
      the draw plus one. `rand.Int63n` needs a positive bound, so the bound
      is never negative here (the constructors panic first). */
  function Jitter(maxJitter: int, draw: int): (j: int)
    requires ValidDraw(maxJitter, draw)
    ensures maxJitter == 0 ==> j == 0
    ensures maxJitter > 0 ==> 1 <= j <= maxJitter
  {
    if maxJitter == 0 then 0 else draw + 1
  }

  /** `x` to the `n`-th power, for a base of either sign. */
  function IntPower(x: int, n: nat): int {
    if n == 0 then 1 else IntPower(x, n - 1) * x
  }

  /** The factor an exponential strategy scales its interval by. */
  function Factor(b: Backoff): int
    requires !b.Linear?
  {
    if b.ExponentialWithJitter? then b.base else Power(2, b.shifter)
  }

  /** `interval << shifter` on an `int64`: bits shifted past the top are
      lost, so it is the product with 2^shifter, wrapped. */
  function ShiftLeft64(x: int, shifter: nat): int {
    Wrap64(x * Power(2, shifter))
  }

  /** `CalculateInterval` (retry.go:154-156, 166-170, 180-184): the wait
      before the next attempt, and the strategy for the attempt after. The
      linear one returns its interval and keeps it; the exponential ones
      return the current interval plus jitter and scale the interval, with
      `int64` wrap-around. */
  function CalculateInterval(b: Backoff, draw: int): (r: (Backoff, int))
    requires ValidDraw(b.MaxJitter(), draw)
    ensures r.0.MaxJitter() == b.MaxJitter()
    ensures b.Linear? ==> r == (b, b.interval)
    ensures !b.Linear? ==> r.0 == b.(interval := Wrap64(b.interval * Factor(b)))
    ensures !b.Linear? && IsInt64(b.interval) && b.maxJitter == 0 ==> r.1 == b.interval
    ensures !b.Linear? && IsInt64(b.interval) && IsInt64(b.interval + b.maxJitter) && b.maxJitter > 0 ==>
      b.interval < r.1 <= b.interval + b.maxJitter
  {
    match b
    case Linear(interval) => (b, interval)
    case ExponentialWithJitter(base, interval, maxJitter) =>
      (ExponentialWithJitter(base, Wrap64(interval * base), maxJitter), Wrap64(interval + Jitter(maxJitter, draw)))
    case ShiftExponentialWithJitter(interval, maxJitter, shifter) =>
      (ShiftExponentialWithJitter(ShiftLeft64(interval, shifter), maxJitter, shifter), Wrap64(interval + Jitter(maxJitter, draw)))
  }

  /** The strategy after `k` calls of `CalculateInterval`. */
  function After(b: Backoff, draws: seq<int>, k: nat): (r: Backoff)
    requires k <= |draws| && ValidDraws(b.MaxJitter(), draws)
    ensures r.MaxJitter() == b.MaxJitter()
  {
    if k == 0 then b else CalculateInterval(After(b, draws, k - 1), draws[k - 1]).0
  }

  /** The waits a strategy asks for over `k` failed attempts. */
  function Intervals(b: Backoff, draws: seq<int>, k: nat): (waits: seq<int>)
    requires k <= |draws| && ValidDraws(b.MaxJitter(), draws)
    ensures |waits| == k
  {
    if k == 0 then [] else Intervals(b, draws, k - 1) + [CalculateInterval(After(b, draws, k - 1), draws[k - 1]).1]
  }

  /** Each wait is the one the strategy in its state at that point asks
      for. */
  lemma {:induction false} IntervalsAt(b: Backoff, draws: seq<int>, k: nat, i: nat)
    requires k <= |draws| && ValidDraws(b.MaxJitter(), draws) && i < k
    ensures Intervals(b, draws, k)[i] == CalculateInterval(After(b, draws, i), draws[i]).1
    decreases k
  {
    if i < k - 1 {
      IntervalsAt(b, draws, k - 1, i);
    }
  }

  /** The linear strategy never changes and always waits its interval. */
  lemma {:induction false} LinearIntervals(interval: int, draws: seq<int>, k: nat)
    requires k <= |draws|
    ensures After(Linear(interval), draws, k) == Linear(interval)
    ensures forall i :: 0 <= i < k ==> Intervals(Linear(interval), draws, k)[i] == interval
    decreases k
  {
    if k > 0 {
      LinearIntervals(interval, draws, k - 1);
    }
  }

  /** After `k` steps an exponential strategy's interval is its first one
      times the `k`-th power of its factor, wrapped to `int64`
      (`interval * base^k`, or `interval << (shifter * k)`); nothing else
      in it changes, whatever the jitter. */
  lemma {:induction false} GeometricAfter(b: Backoff, draws: seq<int>, k: nat)
    requires !b.Linear? && IsInt64(b.interval) && k <= |draws| && ValidDraws(b.MaxJitter(), draws)
    ensures After(b, draws, k) == b.(interval := Wrap64(b.interval * IntPower(Factor(b), k)))
    decreases k
  {
    if k > 0 {
      GeometricAfter(b, draws, k - 1);
      var p := IntPower(Factor(b), k - 1);
      WrapMul(b.interval * p, Factor(b));
      Regroup(b.interval, p, Factor(b));
    }
  }

  /** The `i`-th wait of an exponential strategy: without jitter exactly
      `interval * factor^i` wrapped to `int64`; with jitter, when nothing
      overflows, more than that and by at most `maxJitter`. */
  lemma GeometricIntervals(b: Backoff, draws: seq<int>, k: nat, i: nat)
    requires !b.Linear? && IsInt64(b.interval) && k <= |draws| && ValidDraws(b.MaxJitter(), draws) && i < k
    ensures var w := Wrap64(b.interval * IntPower(Factor(b), i));
      (b.maxJitter == 0 ==> Intervals(b, draws, k)[i] == w)
      && (b.maxJitter > 0 && IsInt64(w + b.maxJitter) ==> w < Intervals(b, draws, k)[i] <= w + b.maxJitter)
  {
    IntervalsAt(b, draws, k, i);
    GeometricAfter(b, draws, i);
  }

  lemma Regroup(a: int, p: int, f: int)
    ensures a * p * f == a * (p * f)
  {
  }

  /** A shift by `shifter` each step is a shift by `shifter * i` after
      `i` steps. */
  lemma ShiftPower(shifter: nat, i: nat)
    ensures IntPower(Power(2, shifter), i) == Power(2, shifter * i)
    decreases i
  {
    if i > 0 {
      ShiftPower(shifter, i - 1);
      PowerAdd(2, shifter * (i - 1), shifter);
      assert shifter * (i - 1) + shifter == shifter * i;
    }
  }

  // ---------------------------------------------------------------------
  // Options
  // ---------------------------------------------------------------------

  /** What an `Option` closure sets in `RetryConfig` (retry.go:23-27). The
      context is not kept: its effect on the loop is passed to `Retry` as
      data. */
  datatype RetryOption = Times(n: nat) | UseBackoff(b: Backoff) | UseContext

  /** The panic messages of the option constructors (retry.go:45, 56, 73). */
  const NilBackoffMessage := "programming error: backoffStrategy must be not nil"
  const IntervalMessage := "programming error: retry interval should not be lower or equal to 0"
  const JitterMessage := "programming error: retry maxJitter should not be lower to 0"

  /** `RetryWithCustomBackoff` (retry.go:43-51): a nil strategy panics. */
  function RetryWithCustomBackoff(backoffStrategy: Option<Backoff>): (r: Outcome<RetryOption>)
    ensures r.Panic? <==> backoffStrategy.None?
    ensures backoffStrategy.Some? ==> r == Returns(UseBackoff(backoffStrategy.value))
  {
    match backoffStrategy
    case None => Panic(NilBackoffMessage)
    case Some(b) => Returns(UseBackoff(b))
  }

  /** `RetryWithLinearBackoff` (retry.go:54-64): an interval of zero or
      less panics. */
  function RetryWithLinearBackoff(interval: int): (r: Outcome<RetryOption>)
    ensures r.Panic? <==> interval <= 0
    ensures r.Returns? ==> r.value == UseBackoff(Linear(interval))
  {
    if interval <= 0 then Panic(IntervalMessage)
    else Returns(UseBackoff(Linear(interval)))
  }

  /** `RetryWithExponentialWithJitterBackoff` (retry.go:67-93): a
      non-positive interval or a negative jitter bound panics; an even
      base selects the shifting strategy, whose shift count is given here
      (the code takes the floor of the base's binary logarithm), and an
      odd one the multiplying strategy, with the `uint64` base converted
      to a `Duration`. */
  function RetryWithExponentialWithJitterBackoff(interval: int, base: nat, maxJitter: int, shifter: nat): (r: Outcome<RetryOption>)
    requires base < TwoTo64
    ensures r.Panic? <==> interval <= 0 || maxJitter < 0
    ensures r.Returns? && base % 2 == 0 ==> r.value == UseBackoff(ShiftExponentialWithJitter(interval, maxJitter, shifter))
    ensures r.Returns? && base % 2 == 1 && base <= MaxInt64 ==>
      r.value == UseBackoff(ExponentialWithJitter(base, interval, maxJitter))
  {
    if interval <= 0 then Panic(IntervalMessage)
    else if maxJitter < 0 then Panic(JitterMessage)
    else if base % 2 == 0 then Returns(UseBackoff(ShiftExponentialWithJitter(interval, maxJitter, shifter)))
    else Returns(UseBackoff(ExponentialWithJitter(Wrap64(base), interval, maxJitter)))
  }

  datatype RetryConfig = RetryConfig(retryTimes: nat, backoffStrategy: Option<Backoff>)

  /** The options applied in order to the defaults (retry.go:104-111). */
  function ApplyOptions(config: RetryConfig, opts: seq<RetryOption>): (r: RetryConfig)
    ensures (forall i :: 0 <= i < |opts| ==> !opts[i].Times?) ==> r.retryTimes == config.retryTimes
    ensures (forall i :: 0 <= i < |opts| ==> !opts[i].UseBackoff?) ==> r.backoffStrategy == config.backoffStrategy
    ensures |opts| > 0 && opts[|opts| - 1].Times? ==> r.retryTimes == opts[|opts| - 1].n
    ensures |opts| > 0 && opts[|opts| - 1].UseBackoff? ==> r.backoffStrategy == Some(opts[|opts| - 1].b)
    decreases |opts|
  {
    if |opts| == 0 then config
    else
      var c := ApplyOptions(config, opts[..|opts| - 1]);
      match opts[|opts| - 1]
      case Times(n) => c.(retryTimes := n)
      case UseBackoff(b) => c.(backoffStrategy := Some(b))
      case UseContext => c
  }

  /** The configuration `Retry` runs with (retry.go:104-117): five
      attempts unless set, and the linear three-second strategy unless
      one is set. */
  function Configure(opts: seq<RetryOption>): (r: (nat, Backoff))
    ensures opts == [] ==> r == (DefaultRetryTimes, Linear(DefaultRetryLinearInterval))
    ensures (forall i :: 0 <= i < |opts| ==> !opts[i].UseBackoff?) ==> r.1 == Linear(DefaultRetryLinearInterval)
  {
    var c := ApplyOptions(RetryConfig(DefaultRetryTimes, None), opts);
    (c.retryTimes, c.backoffStrategy.GetOr(Linear(DefaultRetryLinearInterval)))
  }

  // ---------------------------------------------------------------------
  // The retry loop
  // ---------------------------------------------------------------------

  /** How `Retry` ends: `nil`, the cancellation error, or the error after
      the given number of failed calls. */
  datatype RetryResult = Success | Cancelled | Exhausted(times: nat)

  /** `Retry` (retry.go:103-139). `succeeds[i]` says whether call `i` of
      the retried function returns nil, and `cancelled[i]` whether the
      context's channel is the one `select` picks while waiting after
      failed call `i`; `draws` feed the jitter. Also returned: the number
      of calls made and the waits asked for. */
  method Retry(retryTimes: nat, backoff: Backoff, succeeds: seq<bool>, cancelled: seq<bool>, draws: seq<int>)
    returns (r: RetryResult, calls: nat, waits: seq<int>)
    requires ValidDraws(backoff.MaxJitter(), draws)
    requires retryTimes <= |succeeds| && retryTimes <= |cancelled| && retryTimes <= |draws|
    ensures calls <= retryTimes
    ensures forall i :: 0 <= i < calls - 1 ==> !succeeds[i] && !cancelled[i]
    ensures r == Success <==> calls > 0 && succeeds[calls - 1]
    ensures r == Cancelled <==> calls > 0 && !succeeds[calls - 1] && cancelled[calls - 1]
    ensures r.Exhausted? ==> r.times == calls == retryTimes
    ensures r.Exhausted? <==> forall i :: 0 <= i < retryTimes ==> !succeeds[i] && !cancelled[i]
    ensures |waits| == if r == Success then calls - 1 else calls
    ensures waits == Intervals(backoff, draws, |waits|)
  {
    var i := 0;
    var strategy := backoff;
    waits := [];
    while i < retryTimes
      invariant i <= retryTimes
      invariant forall j :: 0 <= j < i ==> !succeeds[j] && !cancelled[j]
      invariant strategy == After(backoff, draws, i)
      invariant waits == Intervals(backoff, draws, i)
    {
      if succeeds[i] {
        return Success, i + 1, waits;
      }
      var (next, wait) := CalculateInterval(strategy, draws[i]);
      waits := waits + [wait];
      strategy := next;
      if cancelled[i] {
        return Cancelled, i + 1, waits;
      }
      i := i + 1;
    }
    return Exhausted(i), i, waits;
  }
}
