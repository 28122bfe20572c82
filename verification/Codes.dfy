/** Compressed numbers: the time code of RFC 5497, section 5, and the link metric of RFC 7181, section 6.2. */
module Codes {
  import opened Wire

  function Power(n: nat): (p: nat)
    ensures p > 0
  {
    if n == 0 then 1 else 2 * Power(n - 1)
  }

  lemma {:induction false} PowerAdds(a: nat, b: nat)
    ensures Power(a + b) == Power(a) * Power(b)
  {
    if a > 0 {
      PowerAdds(a - 1, b);
    }
  }

  lemma ProductGrows(x: int, y: int, p: int)
    requires x <= y && p > 0
    ensures x * p <= y * p && (x < y ==> x * p < y * p)
  {
    assert (y - x) * p == y * p - x * p;
    if x < y {
      assert (y - x) * p >= p by { ProductAtLeast(y - x, p); }
    }
  }

  lemma ProductAtLeast(x: int, p: int)
    requires x >= 1 && p > 0
    ensures x * p >= p
  {
  }

  lemma QuotientIsNat(x: nat, p: nat)
    requires p > 0
    ensures x / p >= 0
  {
    assert x == x / p * p + x % p;
    if x / p < 0 {
      ProductGrows(x / p, -1, p);
    }
  }

  function ShiftRight(x: nat, n: nat): nat
  {
    QuotientIsNat(x, Power(n));
    x / Power(n)
  }

  function ShiftLeft(x: nat, n: nat): nat
  {
    x * Power(n)
  }

  // ---------- the time code ----------

  const TIME_MIN := 1
  const TIME_MAX := 3670016000

  /** Milliseconds of a time code; 255 is infinite. */
  function TimeValue(code: u8): Option<nat>
  {
    if code == 0 then Some(0)
    else if code == 255 then None
    else
      var a, b := code % 8, code / 8;
      if b <= 10 then Some(ShiftRight(1000 + 125 * a, 10 - b)) else Some(ShiftLeft(1000 + 125 * a, b - 10))
  }

  /** Halves `d`, rounding up, until it fits, and counts in `b`. */
  function HalveTime(d: nat, b: nat): (nat, nat)
    decreases d
  {
    if d > 1875 then HalveTime((d + 1) / 2, b + 1) else (d, b)
  }

  function DoubleTime(d: nat, b: int): (nat, int)
    requires d > 0
    decreases 1000 - d
  {
    if d < 1000 then DoubleTime(2 * d, b - 1) else (d, b)
  }

  function TimeCode(t: nat): int
  {
    if t < TIME_MIN then 0
    else if t > TIME_MAX then 255
    else
      var (d, b) := if t >= 1000 then HalveTime(t, 10) else DoubleTime(t, 10);
      (d - 1000 + 124) / 125 + 8 * b
  }

  method EncodeTime(t: nat) returns (code: int)
    ensures code == TimeCode(t)
  {
    if t < TIME_MIN {
      return 0;
    }
    if t > TIME_MAX {
      return 255;
    }
    var d: int, b: int := t, 10;
    if d >= 1000 {
      while d > 1875
        invariant d >= 0 && b >= 10 && HalveTime(t, 10) == HalveTime(d, b)
      {
        b := b + 1;
        d := (d + 1) / 2;
      }
    } else {
      while d < 1000
        invariant d > 0 && DoubleTime(t, 10) == DoubleTime(d, b)
        decreases 1000 - d
      {
        b := b - 1;
        d := 2 * d;
      }
    }
    var a := (d - 1000 + 124) / 125;
    code := a + 8 * b;
  }

  /** 1024 times the exact value of a code. */
  function Grid(code: nat): nat
  {
    ShiftLeft(1000 + 125 * (code % 8), code / 8)
  }

  lemma GridGrows(code: nat)
    ensures Grid(code) < Grid(code + 1) && 8 * Grid(code + 1) <= 9 * Grid(code)
  {
    var a, b, p := code % 8, code / 8, Power(code / 8);
    if a < 7 {
      assert (code + 1) % 8 == a + 1 && (code + 1) / 8 == b;
      ProductGrows(1000 + 125 * a, 1000 + 125 * (a + 1), p);
      ProductGrows(8 * (1000 + 125 * (a + 1)), 9 * (1000 + 125 * a), p);
    } else {
      assert (code + 1) % 8 == 0 && (code + 1) / 8 == b + 1;
    }
  }

  lemma {:induction false} GridMonotone(c: nat, d: nat)
    requires c <= d
    ensures Grid(c) <= Grid(d)
    decreases d - c
  {
    if c < d {
      GridGrows(c);
      GridMonotone(c + 1, d);
    }
  }

  /** Rounding down keeps the comparison with whole milliseconds. */
  lemma ValueAtLeast(code: u8, t: nat)
    requires code < 255 && t > 0
    ensures TimeValue(code).value >= t <==> Grid(code) >= 1024 * t
  {
    var x, b := 1000 + 125 * (code % 8), code / 8;
    Power10();
    hide Power;
    if code == 0 {
      GridOfZero();
    } else if b <= 10 {
      RightAtLeast(x, b, t);
    } else {
      LeftAtLeast(x, b, t);
    }
  }

  lemma Power10()
    ensures Power(10) == 1024
  {
    assert Power(5) == 32;
    PowerAdds(5, 5);
  }

  lemma GridOfZero()
    ensures Grid(0) == 1000
  {
  }

  lemma RightAtLeast(x: nat, b: nat, t: nat)
    requires b <= 10
    ensures ShiftRight(x, 10 - b) >= t <==> x * Power(b) >= 1024 * t
  {
    PowerAdds(b, 10 - b);
    Power10();
    DividedAtLeast(x, Power(10 - b), Power(b), t);
  }

  lemma DividedAtLeast(x: nat, k: nat, p: nat, t: nat)
    requires k > 0 && p > 0 && p * k == 1024
    ensures x / k >= t <==> x * p >= 1024 * t
  {
    QuotientAtLeast(x, k, t);
    ScaledAtLeast(x, t * k, p);
    Kilo(t, k, p);
  }

  lemma Kilo(t: int, k: int, p: int)
    requires p * k == 1024
    ensures t * k * p == 1024 * t
  {
    Regroup(t, k, p);
  }

  lemma Regroup(t: int, k: int, p: int)
    ensures t * k * p == p * k * t
  {
  }

  lemma LeftAtLeast(x: nat, b: nat, t: nat)
    requires b > 10
    ensures ShiftLeft(x, b - 10) >= t <==> x * Power(b) >= 1024 * t
  {
    var q := Power(b - 10);
    PowerAdds(10, b - 10);
    Power10();
    hide Power;
    Scale(x, q);
  }

  lemma QuotientAtLeast(x: nat, k: nat, t: nat)
    requires k > 0
    ensures x / k >= t <==> x >= t * k
  {
    assert x == x / k * k + x % k;
    if x / k >= t {
      ProductGrows(t, x / k, k);
    } else {
      ProductGrows(x / k + 1, t, k);
      assert (x / k + 1) * k == x / k * k + k;
    }
  }

  lemma ScaledAtLeast(x: nat, y: nat, p: nat)
    requires p > 0
    ensures x >= y <==> x * p >= y * p
  {
    if x >= y {
      ProductGrows(y, x, p);
    } else {
      ProductGrows(x, y, p);
    }
  }

  /** Repeated halving is one division, rounded up; it stops only where it must. */
  lemma {:induction false} HalvedTime(t: nat, d: nat, b: nat)
    requires b >= 10 && d > 937 && (d - 1) * Power(b - 10) < t <= d * Power(b - 10)
    requires (b == 10 && d >= 1000) || 1875 * Power(b - 10) < 2 * t
    ensures var (e, c) := HalveTime(d, b);
            && c >= b && 937 < e <= 1875 && (e - 1) * Power(c - 10) < t <= e * Power(c - 10)
            && ((c == 10 && e >= 1000) || 1875 * Power(c - 10) < 2 * t)
    decreases d
  {
    if d > 1875 {
      HalveOnce(t, d, Power(b - 10));
      assert Power(b + 1 - 10) == 2 * Power(b - 10);
      HalvedTime(t, (d + 1) / 2, b + 1);
    }
  }

  lemma HalveOnce(t: nat, d: nat, p: nat)
    requires p > 0 && d > 1875 && (d - 1) * p < t <= d * p
    ensures var h := (d + 1) / 2; (h - 1) * (2 * p) < t <= h * (2 * p) && 1875 * (2 * p) < 2 * t
  {
    var h := (d + 1) / 2;
    ProductGrows(d, 2 * h, p);
    ProductGrows(2 * (h - 1), d - 1, p);
    ProductGrows(1875, d - 1, p);
    Twice(h, p);
    Twice(h - 1, p);
  }

  lemma Twice(h: int, p: int)
    ensures h * (2 * p) == 2 * h * p
  {
  }

  lemma {:induction false} DoubledTime(t: nat, d: nat, b: int)
    requires 0 < d < 2000 && b <= 10 && d == t * Power(10 - b)
    ensures var (e, c) := DoubleTime(d, b); c <= b && 1000 <= e < 2000 && e == t * Power(10 - c)
    decreases 1000 - d
  {
    if d < 1000 {
      assert Power(10 - (b - 1)) == 2 * Power(10 - b);
      DoubledTime(t, 2 * d, b - 1);
    }
  }

  lemma Mantissa(d: nat, a: int)
    requires 937 < d < 2000 && a == (d - 1000 + 124) / 125
    ensures 0 <= a <= 8 && 1000 + 125 * a >= d && (a > 0 ==> 1000 + 125 * (a - 1) <= d - 1) && (a == 0 ==> d <= 1000)
  {
  }

  lemma GridOf(a: nat, b: nat)
    requires a < 8
    ensures Grid(a + 8 * b) == (1000 + 125 * a) * Power(b)
  {
    hide ShiftLeft;
    Digits(a, b);
    assert Grid(a + 8 * b) == ShiftLeft(1000 + 125 * a, b);
    Shifts(1000 + 125 * a, b);
  }

  lemma Shifts(x: nat, n: nat)
    ensures ShiftLeft(x, n) == x * Power(n)
  {
  }

  lemma Digits(a: nat, b: nat)
    requires a < 8
    ensures (a + 8 * b) % 8 == a && (a + 8 * b) / 8 == b
  {
  }

  /** With a carry the mantissa is that of the next power. */
  lemma GridOfCarry(b: nat)
    ensures Grid(8 + 8 * b) == 2000 * Power(b)
  {
    GridOf(0, b + 1);
    Twice(1000, Power(b));
  }

  lemma CodeGrid(d: nat, b: nat, a: nat, code: int)
    requires code == a + 8 * b && a <= 8 && 1000 + 125 * a >= d && (a > 0 ==> 1000 + 125 * (a - 1) <= d - 1) && d < 2000
    ensures code >= 0 && Grid(code) >= d * Power(b)
    ensures a > 0 ==> code > 0 && Grid(code - 1) <= (d - 1) * Power(b)
    ensures a == 0 && b > 0 ==> code > 0 && 2 * Grid(code - 1) == 1875 * Power(b)
  {
    ProductGrows(d, 1000 + 125 * a, Power(b));
    if a < 8 {
      GridOf(a, b);
    } else {
      GridOfCarry(b);
    }
    PreviousGrid(d, b, a);
  }

  lemma PreviousGrid(d: nat, b: nat, a: nat)
    requires a <= 8 && (a > 0 ==> 1000 + 125 * (a - 1) <= d - 1)
    ensures a > 0 ==> Grid(a + 8 * b - 1) <= (d - 1) * Power(b)
    ensures a == 0 && b > 0 ==> 2 * Grid(a + 8 * b - 1) == 1875 * Power(b)
  {
    hide Grid, Power;
    if a > 0 {
      GridOf(a - 1, b);
      ProductGrows(1000 + 125 * (a - 1), d - 1, Power(b));
    } else if b > 0 {
      HalfStep(b);
    }
  }

  lemma HalfStep(b: nat)
    requires b > 0
    ensures 2 * Grid(8 * b - 1) == 1875 * Power(b)
  {
    GridOf(7, b - 1);
    Doubled(Grid(8 * b - 1), Power(b - 1));
  }

  lemma Doubled(g: int, q: int)
    requires g == 1875 * q
    ensures 2 * g == 1875 * (2 * q)
  {
  }

  lemma LongTimeCode(t: nat)
    requires 1000 <= t <= TIME_MAX
    ensures TimeCode(t) >= 1 && Grid(TimeCode(t) - 1) < 1024 * t <= Grid(TimeCode(t))
  {
    HalvedTime(t, t, 10);
    var (d, b) := HalveTime(t, 10);
    var q := Power(b - 10);
    PowerAdds(10, b - 10);
    Power10();
    hide Power, HalveTime;
    var a := (d - 1000 + 124) / 125;
    Mantissa(d, a);
    CodeGrid(d, b, a, TimeCode(t));
    hide Grid;
    Scale(d, q);
    Scale(d - 1, q);
    assert 1875 * (1024 * q) == 1024 * (1875 * q);
  }

  lemma Scale(d: int, q: int)
    ensures d * (1024 * q) == 1024 * (d * q)
  {
  }

  lemma {:induction false} PowerGrows(n: nat)
    requires n > 10
    ensures Power(n) >= 2048
    decreases n
  {
    if n == 11 {
      Power10();
    } else {
      PowerGrows(n - 1);
    }
  }

  lemma ShortTimeCode(t: nat)
    requires 1 <= t < 1000
    ensures TimeCode(t) >= 1 && Grid(TimeCode(t) - 1) < 1024 * t <= Grid(TimeCode(t))
  {
    DoubledTime(t, t, 10);
    var (d, b) := DoubleTime(t, 10);
    var k := Power(10 - b);
    Power10();
    ProductGrows(1, t, k);
    if b < 0 {
      PowerGrows(10 - b);
      assert false;
    }
    PowerAdds(b, 10 - b);
    hide Power, DoubleTime;
    var a := (d - 1000 + 124) / 125;
    Mantissa(d, a);
    CodeGrid(d, b, a, TimeCode(t));
    hide Grid;
    Regroup(t, k, Power(b));
    assert d * Power(b) == 1024 * t;
    ProductGrows(d - 1, d, Power(b));
    if b == 0 && a == 0 {
      assert false;
    }
  }

  /** The code of a time is the least whose grid point reaches it. */
  lemma CodeReaches(t: nat)
    requires TIME_MIN <= t <= TIME_MAX
    ensures 1 <= TimeCode(t) <= 254 && Grid(TimeCode(t) - 1) < 1024 * t <= Grid(TimeCode(t))
  {
    if t >= 1000 {
      LongTimeCode(t);
    } else {
      ShortTimeCode(t);
    }
    hide TimeCode;
    LastGrid();
    if TimeCode(t) > 254 {
      GridMonotone(254, TimeCode(t) - 1);
      assert false;
    }
  }

  lemma LastGrid()
    ensures Grid(254) == 1024 * TIME_MAX
  {
    PowerAdds(10, 21);
    PowerAdds(10, 11);
    PowerAdds(10, 1);
    Power10();
    assert 254 % 8 == 6 && 254 / 8 == 31;
  }

  /** Of a time in range. */
  lemma {:induction false} GaloisInRange(t: nat, code: u8)
    requires TIME_MIN <= t <= TIME_MAX && code < 255
    ensures TimeValue(code).value >= t <==> code >= TimeCode(t)
  {
    CodeReaches(t);
    ValueAtLeast(code, t);
    hide TimeCode, TimeValue, Grid;
    if code >= TimeCode(t) {
      GridMonotone(TimeCode(t), code);
    } else {
      GridMonotone(code, TimeCode(t) - 1);
    }
  }

  /** The largest finite time is that of code 254. */
  lemma {:induction false} LargestTime(code: u8)
    requires code < 255
    ensures TimeValue(code).value <= TIME_MAX
  {
    ValueAtLeast(code, TIME_MAX + 1);
    GridMonotone(code, 254);
    LastGrid();
    hide TimeValue, Grid;
    assert Grid(code) < 1024 * (TIME_MAX + 1);
  }

  /** The time code is a Galois connection, for all times and all codes: a code is at least the code of a time exactly if it
      is infinite or its value is at least the time. So the code of a time is the least code that does not fall short of
      it, which for times too long is the infinite one. */
  lemma {:induction false} TimeCodeGalois(t: nat, code: u8)
    ensures 0 <= TimeCode(t) <= 255
    ensures code >= TimeCode(t) <==> TimeValue(code).None? || TimeValue(code).value >= t
    ensures TimeValue(code).None? <==> code == 255
  {
    if TIME_MIN <= t <= TIME_MAX {
      CodeReaches(t);
      if code < 255 {
        GaloisInRange(t, code);
      }
    } else if code < 255 {
      LargestTime(code);
    }
  }

  lemma TimeValueMonotone(c: u8, d: u8)
    requires c <= d < 255
    ensures TimeValue(c).value <= TimeValue(d).value
  {
    var t := TimeValue(c).value;
    if t > 0 {
      ValueAtLeast(c, t);
      GridMonotone(c, d);
      ValueAtLeast(d, t);
    }
  }

  /** Coding rounds a time up by less than an eighth. */
  lemma TimeCodePrecision(t: nat, code: u8)
    requires TIME_MIN <= t <= TIME_MAX && code == TimeCode(t)
    ensures TimeValue(code).Some? && t <= TimeValue(code).value && 8 * TimeValue(code).value < 9 * t
  {
    CodeReaches(t);
    hide TimeCode;
    ValueAtLeast(code, t);
    var v := TimeValue(code).value;
    ValueAtLeast(code, v);
    GridGrows(code - 1);
    hide TimeValue, Grid;
    assert 8 * (1024 * v) < 9 * (1024 * t);
  }

  // ---------- the metric code ----------

  const METRIC_MIN := 1
  const METRIC_MAX := 0xFFFF00
  const METRIC_INFINITE := 0xFFFFFF

  /** The two bytes of a metric: exponent, below the flags, and mantissa. */
  datatype MetricField = MetricField(exponent: u8, mantissa: u8)

  function FieldCode(f: MetricField): nat
  {
    256 * (f.exponent % 16) + f.mantissa
  }

  /** 256 more than the metric of a code. */
  function Points(code: nat): nat
  {
    ShiftLeft(257 + code % 256, code / 256)
  }

  function MetricValue(f: MetricField): int
  {
    ShiftLeft(257 + f.mantissa, f.exponent % 16) - 256
  }

  function HalveMetric(d: nat, a: nat): (nat, nat)
    decreases d
  {
    if d > 512 then HalveMetric((d + 1) / 2, a + 1) else (d, a)
  }

  /** The field of a metric; none for 0 and for infinite metrics. */
  function MetricCode(m: nat): (f: Option<MetricField>)
    ensures f.Some? <==> METRIC_MIN <= m < METRIC_INFINITE
  {
    if m < METRIC_MIN || m >= METRIC_INFINITE then None
    else if m > METRIC_MAX then Some(MetricField(15, 255))
    else
      var (d, a) := HalveMetric(m + 256, 0);
      Some(MetricField(a % 256, (d - 257) % 256))
  }

  method EncodeMetric(m: nat) returns (f: Option<MetricField>)
    ensures f == MetricCode(m)
  {
    if m < METRIC_MIN || m >= METRIC_INFINITE {
      return None;
    }
    if m > METRIC_MAX {
      return Some(MetricField(15, 255));
    }
    var d: int, a: int := m + 256, 0;
    while d > 512
      invariant d > 0 && a >= 0 && HalveMetric(m + 256, 0) == HalveMetric(d, a)
    {
      a := a + 1;
      d := (d + 1) / 2;
    }
    f := Some(MetricField(a % 256, (d - 257) % 256));
  }

  /** Repeated round-up halving is one division by a power of two, rounded up. */
  lemma {:induction false} HalvedMetric(m: nat, d: nat, a: nat)
    requires d >= 257 && (d - 1) * Power(a) < m <= d * Power(a) && (a == 0 || 512 * Power(a) < 2 * m)
    ensures var (e, b) := HalveMetric(d, a);
            b >= a && 257 <= e <= 512 && (e - 1) * Power(b) < m <= e * Power(b) && (b == 0 || 512 * Power(b) < 2 * m)
    decreases d
  {
    if d > 512 {
      var p, h := Power(a), (d + 1) / 2;
      ProductGrows(d, 2 * h, p);
      ProductGrows(2 * (h - 1), d - 1, p);
      ProductGrows(512, d - 1, p);
      Twice(h, p);
      Twice(h - 1, p);
      assert Power(a + 1) == 2 * p;
      HalvedMetric(m, h, a + 1);
    }
  }

  lemma PointsOf(b: nat, a: nat)
    requires b < 256
    ensures Points(256 * a + b) == (257 + b) * Power(a)
  {
    hide ShiftLeft;
    ByteDigits(b, a);
    assert Points(256 * a + b) == ShiftLeft(257 + b, a);
    Shifts(257 + b, a);
  }

  lemma ByteDigits(b: nat, a: nat)
    requires b < 256
    ensures (256 * a + b) % 256 == b && (256 * a + b) / 256 == a
  {
  }

  lemma PointsGrow(code: nat)
    ensures Points(code) < Points(code + 1)
  {
    var b, a := code % 256, code / 256;
    PointsOf(b, a);
    if b < 255 {
      PointsOf(b + 1, a);
      ProductGrows(257 + b, 258 + b, Power(a));
    } else {
      PointsOf(0, a + 1);
      Twice(257, Power(a));
      ProductGrows(512, 514, Power(a));
    }
  }

  lemma {:induction false} PointsMonotone(c: nat, d: nat)
    requires c <= d
    ensures Points(c) <= Points(d) && (c < d ==> Points(c) < Points(d))
    decreases d - c
  {
    if c < d {
      PointsGrow(c);
      PointsMonotone(c + 1, d);
    }
  }

  lemma LastPoints()
    ensures Points(4095) == METRIC_MAX + 256
  {
    PointsOf(255, 15);
    PowerAdds(10, 5);
    Power10();
  }

  lemma CodeOfPoints(e: nat, b: nat)
    requires 257 <= e <= 512
    ensures Points(256 * b + (e - 257)) == e * Power(b)
    ensures e > 257 ==> Points(256 * b + (e - 257) - 1) == (e - 1) * Power(b)
    ensures e == 257 && b > 0 ==> 2 * Points(256 * b - 1) == 512 * Power(b)
  {
    hide Points, Power;
    PointsOf(e - 257, b);
    if e > 257 {
      PointsOf(e - 258, b);
    } else if b > 0 {
      PointsHalfStep(b);
    }
  }

  lemma PointsHalfStep(b: nat)
    requires b > 0
    ensures 2 * Points(256 * b - 1) == 512 * Power(b)
  {
    PointsOf(255, b - 1);
    DoubledPoints(Points(256 * b - 1), Power(b - 1));
  }

  lemma DoubledPoints(g: int, q: int)
    requires g == 512 * q
    ensures 2 * g == 512 * (2 * q)
  {
  }

  /** The code of a metric is the least that reaches it. */
  lemma MetricReaches(m: nat) returns (code: nat)
    requires METRIC_MIN <= m <= METRIC_MAX
    ensures code <= 4095 && MetricCode(m) == Some(MetricField(code / 256, code % 256))
    ensures Points(code) >= m + 256 && (code > 0 ==> Points(code - 1) < m + 256)
  {
    var e, b;
    e, b, code := HalvedCode(m);
    LastPoints();
    hide Points, HalveMetric, MetricCode;
    if code > 4095 {
      PointsMonotone(4095, code - 1);
      assert false;
    }
    ByteDigits(e - 257, b);
    FieldMade(m, e, b);
  }

  lemma FieldMade(m: nat, e: nat, b: nat)
    requires METRIC_MIN <= m <= METRIC_MAX && HalveMetric(m + 256, 0) == (e, b) && 257 <= e <= 512 && b <= 15
    ensures MetricCode(m) == Some(MetricField(b, e - 257))
  {
    hide HalveMetric;
  }

  lemma HalvedCode(m: nat) returns (e: nat, b: nat, code: nat)
    requires METRIC_MIN <= m <= METRIC_MAX
    ensures HalveMetric(m + 256, 0) == (e, b) && 257 <= e <= 512 && code == 256 * b + (e - 257)
    ensures Points(code) >= m + 256 && (code > 0 ==> Points(code - 1) < m + 256)
  {
    e, b := HalveMetric(m + 256, 0).0, HalveMetric(m + 256, 0).1;
    HalvedMetric(m + 256, m + 256, 0);
    hide HalveMetric, Points, Power;
    CodeOfPoints(e, b);
    code := 256 * b + (e - 257);
  }

  lemma ValueIsPoints(f: MetricField)
    ensures MetricValue(f) == Points(FieldCode(f)) - 256
  {
    ByteDigits(f.mantissa, f.exponent % 16);
  }

  lemma FirstPoints()
    ensures Points(0) == 257
  {
    PointsOf(0, 0);
  }

  lemma CodeRange(f: MetricField)
    ensures FieldCode(f) <= 4095
  {
  }

  /** The field made of a code has that code, and the other way round. */
  lemma FieldOfCode(f: MetricField, code: nat)
    requires code <= 4095
    ensures FieldCode(MetricField(code / 256, code % 256)) == code
    ensures f.exponent < 16 && FieldCode(f) == code ==> MetricField(code / 256, code % 256) == f
  {
    CodeDigits(code);
    if f.exponent < 16 && FieldCode(f) == code {
      ByteDigits(f.mantissa, f.exponent);
    }
  }

  lemma {:induction false} CodeDigits(code: nat)
    requires code <= 4095
    ensures 256 * (code / 256) + code % 256 == code && code / 256 % 16 == code / 256
  {
  }

  lemma {:induction false} MetricInRange(m: nat, f: MetricField)
    requires METRIC_MIN <= m <= METRIC_MAX
    ensures MetricValue(f) >= m <==> FieldCode(f) >= FieldCode(MetricCode(m).value)
    ensures MetricCode(m).value.exponent < 16
  {
    var code := MetricReaches(m);
    ValueIsPoints(f);
    FieldOfCode(f, code);
    CodeRange(f);
    hide MetricCode, MetricValue, Points, FieldCode;
    var c := FieldCode(f);
    if c >= code {
      PointsMonotone(code, c);
    } else {
      PointsMonotone(c, code - 1);
    }
  }

  /** The metric code is a Galois connection, for all metrics: there is no code exactly for 0 and for the infinite metric and
      those beyond; otherwise the code is the least one that reaches the metric, or as far as there are codes. The flag
      bits are clear. */
  lemma {:induction false} MetricCodeGalois(m: nat, f: MetricField)
    ensures MetricCode(m).None? <==> m == 0 || m >= 0xFFFFFF
    ensures MetricCode(m).Some? ==> MetricCode(m).value.exponent < 16
    ensures MetricCode(m).Some? ==>
              (MetricValue(f) >= (if m <= 0xFFFF00 then m else 0xFFFF00) <==> FieldCode(f) >= FieldCode(MetricCode(m).value))
  {
    if METRIC_MIN <= m <= METRIC_MAX {
      MetricInRange(m, f);
    } else if METRIC_MIN <= m < METRIC_INFINITE {
      LargestMetric(f);
    }
  }

  lemma {:induction false} LargestMetric(f: MetricField)
    ensures MetricValue(f) >= METRIC_MAX <==> FieldCode(f) >= 4095
  {
    ValueIsPoints(f);
    CodeRange(f);
    LastPoints();
    hide MetricValue, Points, FieldCode;
    PointsMonotone(FieldCode(f), 4095);
  }

  lemma ValueRange(f: MetricField)
    ensures METRIC_MIN <= MetricValue(f) <= METRIC_MAX
  {
    ValueIsPoints(f);
    CodeRange(f);
    FirstPoints();
    LastPoints();
    hide MetricValue, Points, FieldCode;
    PointsMonotone(0, FieldCode(f));
    PointsMonotone(FieldCode(f), 4095);
  }

  /** All 4096 codes stand for metrics in range, and coding such a metric gives its code back. */
  lemma MetricExact(f: MetricField)
    requires f.exponent < 16
    ensures METRIC_MIN <= MetricValue(f) <= METRIC_MAX && MetricCode(MetricValue(f)) == Some(f)
  {
    ValueIsPoints(f);
    ValueRange(f);
    CodeRange(f);
    var m, c := MetricValue(f), FieldCode(f);
    var code := MetricReaches(m);
    FieldOfCode(f, code);
    hide MetricValue, MetricCode, Points, FieldCode;
    if code < c {
      PointsMonotone(code, c);
      assert false;
    } else if code > c {
      PointsMonotone(c, code - 1);
      assert false;
    }
  }
}
