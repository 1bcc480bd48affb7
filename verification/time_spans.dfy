/**
 * The numeric conversions the engine relies on: System.TimeSpan as a count of
 * 100-nanosecond ticks, TimeSpan.FromSeconds with its rounding to whole
 * milliseconds (.NET Framework), TotalSeconds, the truncating `(int)` cast and
 * Math.Round with its default round-half-to-even mode. Doubles are exact reals here.
 */
module TimeSpans {

  const TicksPerSecond: int := 10_000_000
  const TicksPerMillisecond: int := 10_000

  /** The `(long)` / `(int)` cast of a double: truncation toward zero. */
  function Truncate(x: real): (n: int)
    ensures 0.0 <= x ==> n as real <= x < n as real + 1.0
    ensures x < 0.0 ==> n as real - 1.0 < x <= n as real
  {
    if x >= 0.0 then x.Floor else -((-x).Floor)
  }

  const Int32Min: int := -0x8000_0000
  const Int32Max: int := 0x7FFF_FFFF

  predicate InInt32(n: int) {
    Int32Min <= n <= Int32Max
  }

  /** The `(int)` cast of a double: truncation when the result fits, and
      int.MinValue otherwise (what the x86/x64 conversion instruction yields). */
  function ToInt32(x: real): (n: int)
    ensures InInt32(n)
    ensures InInt32(Truncate(x)) ==> n == Truncate(x)
    ensures !InInt32(Truncate(x)) ==> n == Int32Min
  {
    var t := Truncate(x);
    if InInt32(t) then t else Int32Min
  }

  /** TimeSpan.FromSeconds: the value in milliseconds, rounded half away from
      zero by adding a signed 0.5 and truncating, times 10000 ticks. */
  function FromSeconds(value: real): (ticks: int)
    ensures ticks % TicksPerMillisecond == 0
    ensures -0.0005 <= ticks as real / 10_000_000.0 - value <= 0.0005
  {
    Truncate(value * 1000.0 + (if value >= 0.0 then 0.5 else -0.5)) * TicksPerMillisecond
  }

  /** TimeSpan.TotalSeconds. */
  function TotalSeconds(ticks: int): (s: real)
    ensures s * 10_000_000.0 == ticks as real
  {
    ticks as real / 10_000_000.0
  }

  /** Math.Round(double): the nearest integer, an even one on a tie. */
  function RoundHalfEven(x: real): (n: int)
    ensures -0.5 <= x - n as real <= 0.5
    ensures (x - n as real == 0.5 || x - n as real == -0.5) ==> n % 2 == 0
  {
    var f := x.Floor;
    var d := x - f as real;
    if d < 0.5 then f
    else if d > 0.5 then f + 1
    else if f % 2 == 0 then f
    else f + 1
  }

  function Abs(x: real): real { if x < 0.0 then -x else x }

  /** No integer is closer to x than Math.Round(x). */
  lemma RoundIsNearest(x: real, m: int)
    ensures Abs(x - RoundHalfEven(x) as real) <= Abs(x - m as real)
  {
    var n := RoundHalfEven(x);
    assert Abs(x - n as real) <= 0.5;
    if m < n {
      assert m as real <= n as real - 1.0;
      assert x - m as real >= 0.5;
    } else if m > n {
      assert m as real >= n as real + 1.0;
      assert m as real - x >= 0.5;
    }
  }

  /** Integers are left as they are by both roundings. */
  lemma RoundingFixesIntegers(m: int)
    ensures RoundHalfEven(m as real) == m
    ensures Truncate(m as real) == m
  {
  }

  /** A whole number of milliseconds converts to ticks exactly. */
  lemma FromSecondsOfMilliseconds(ms: int)
    ensures FromSeconds(ms as real / 1000.0) == ms * TicksPerMillisecond
  {
    var v := ms as real / 1000.0;
    assert v * 1000.0 == ms as real;
    if v >= 0.0 {
      assert Truncate(ms as real + 0.5) == ms;
    } else {
      assert Truncate(ms as real - 0.5) == ms;
    }
  }

  /** Converting a whole-millisecond span to seconds and back gives it back. */
  lemma FromSecondsOfTotalSeconds(ticks: int)
    requires ticks % TicksPerMillisecond == 0
    ensures FromSeconds(TotalSeconds(ticks)) == ticks
  {
    var ms := ticks / TicksPerMillisecond;
    assert ticks == ms * TicksPerMillisecond;
    assert TotalSeconds(ticks) == ms as real / 1000.0;
    FromSecondsOfMilliseconds(ms);
  }

  /** FromSeconds never reverses the order of two durations. */
  lemma FromSecondsIsMonotone(a: real, b: real)
    requires a <= b
    ensures FromSeconds(a) <= FromSeconds(b)
  {
    var ma := Truncate(a * 1000.0 + (if a >= 0.0 then 0.5 else -0.5));
    var mb := Truncate(b * 1000.0 + (if b >= 0.0 then 0.5 else -0.5));
    assert ma <= mb;
  }
}
