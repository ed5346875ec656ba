/**
 * The histogram statistics of a quadrant: the population-weighted mean and
 * standard deviation of one channel's bucket counts, and the colour and
 * luma-weighted error of a whole RGB histogram.
 *
 * Arithmetic is exact (`real`), not floating point. The square root is not
 * computed here: it is a parameter `sqrt`, and the facts that need it assume
 * `IsSqrt(sqrt)`.
 */
module HistogramStats {

  /** Number of pixels a histogram counts: the sum of its buckets. */
  function Total(h: seq<nat>): (t: nat)
    ensures t == 0 <==> forall i :: 0 <= i < |h| ==> h[i] == 0
  {
    if |h| == 0 then 0 else Total(h[..|h| - 1]) + h[|h| - 1]
  }

  /** Sum over the buckets of bucket index times bucket count. */
  function Moment(h: seq<nat>): nat
  {
    if |h| == 0 then 0 else Moment(h[..|h| - 1]) + (|h| - 1) * h[|h| - 1]
  }

  /** Sum over the buckets of count times the squared distance of the index from `m`. */
  function SquaredDeviation(h: seq<nat>, m: real): (d: real)
    ensures 0.0 <= d
  {
    if |h| == 0 then 0.0
    else
      var i := (|h| - 1) as real;
      var sq := (m - i) * (m - i);
      NonNegProduct(h[|h| - 1] as real, sq);
      SquaredDeviation(h[..|h| - 1], m) + h[|h| - 1] as real * sq
  }

  /** The population-weighted mean intensity of a non-empty histogram. */
  function Mean(h: seq<nat>): (m: real)
    requires Total(h) > 0
    ensures 0.0 <= m <= (|h| - 1) as real
  {
    var a, c, t := Moment(h), |h| - 1, Total(h);
    MomentBound(h);
    CastProduct(c, t);
    QuotientBound(a as real, c as real, t as real);
    a as real / t as real
  }

  /** The population variance of a non-empty histogram, before the square root. */
  function Variance(h: seq<nat>): (v: real)
    requires Total(h) > 0
    ensures 0.0 <= v
  {
    SquaredDeviation(h, Mean(h)) / Total(h) as real
  }

  /**
   * `sqrt` is the non-negative square root on the non-negative reals (the
   * root of 0 is spelled out because the solver does not derive it).
   */
  ghost predicate IsSqrt(sqrt: real -> real)
  {
    && sqrt(0.0) == 0.0
    && forall x :: 0.0 <= x ==> 0.0 <= sqrt(x) && sqrt(x) * sqrt(x) == x
  }

  /** Mean intensity and the error (standard deviation) of one channel. */
  datatype Average = Average(value: real, error: real)

  /**
   * `weighted_average`: an empty histogram (total 0) gives (0, 0); otherwise
   * the mean lies among the bucket indices and the error is the square root
   * of the variance about that mean.
   */
  function WeightedAverage(h: seq<nat>, sqrt: real -> real): (r: Average)
    ensures Total(h) == 0 ==> r == Average(0.0, 0.0)
    ensures Total(h) > 0 ==> 0.0 <= r.value <= (|h| - 1) as real
    ensures IsSqrt(sqrt) ==> 0.0 <= r.error
    ensures IsSqrt(sqrt) && Total(h) > 0 ==> r.error * r.error == Variance(h)
  {
    if Total(h) > 0 then Average(Mean(h), sqrt(Variance(h)))
    else Average(0.0, 0.0)
  }

  // Arithmetic steps the solver does not take unaided.

  lemma NonNegProduct(a: real, b: real)
    requires 0.0 <= a && 0.0 <= b
    ensures 0.0 <= a * b
  {
  }

  lemma QuotientBound(a: real, c: real, t: real)
    requires 0.0 < t && 0.0 <= a <= c * t
    ensures 0.0 <= a / t <= c
  {
    var q := a / t;
    assert q * t == a;
  }

  lemma CastProduct(a: int, b: int)
    ensures (a * b) as real == a as real * b as real
  {
  }

  lemma Distribute(a: int, b: int, c: int)
    ensures a * (b + c) == a * b + a * c
  {
  }

  lemma ExactQuotient(k: int, t: int)
    requires t > 0
    ensures (k * t) as real / t as real == k as real
  {
    CastProduct(k, t);
    var q := k as real * t as real;
    assert q / t as real == k as real;
  }

  lemma MulMonotone(a: int, b: int, c: int)
    requires a <= b && 0 <= c
    ensures a * c <= b * c
  {
  }

  /** The weighted index sum never exceeds the largest index times the total. */
  lemma {:induction false} MomentBound(h: seq<nat>)
    ensures Moment(h) <= (|h| - 1) * Total(h)
  {
    var n := |h|;
    if n > 1 {
      var p := h[..n - 1];
      var m, tp, x := Moment(p), Total(p), h[n - 1];
      MomentBound(p);
      MulMonotone(n - 2, n - 1, tp);
      assert Moment(h) == m + (n - 1) * x;
      assert Total(h) == tp + x;
      Distribute(n - 1, tp, x);
    }
  }

  /** When every bucket but `k` is empty, the total is `h[k]` and the moment `k * h[k]`. */
  lemma {:induction false} SingleBucketSums(h: seq<nat>, k: nat)
    requires k < |h|
    requires forall j :: 0 <= j < |h| && j != k ==> h[j] == 0
    ensures Total(h) == h[k]
    ensures Moment(h) == k * h[k]
  {
    var n := |h|;
    var p := h[..n - 1];
    if k == n - 1 {
      assert forall j :: 0 <= j < |p| ==> p[j] == 0;
      MomentBound(p);
    } else {
      SingleBucketSums(p, k);
    }
  }

  /** When every bucket but `k` is empty, nothing deviates from `k`. */
  lemma {:induction false} SingleBucketDeviation(h: seq<nat>, k: nat)
    requires forall j :: 0 <= j < |h| && j != k ==> h[j] == 0
    ensures SquaredDeviation(h, k as real) == 0.0
  {
    if |h| > 0 {
      SingleBucketDeviation(h[..|h| - 1], k);
    }
  }

  /** A histogram whose whole population sits in bucket `k` has mean `k`. */
  lemma SingleBucketMean(h: seq<nat>, k: nat)
    requires k < |h| && h[k] > 0
    requires forall j :: 0 <= j < |h| && j != k ==> h[j] == 0
    ensures Total(h) > 0 && Mean(h) == k as real
  {
    SingleBucketSums(h, k);
    ExactQuotient(k, h[k]);
  }

  /** A histogram whose whole population sits in bucket `k` has mean `k` and error 0. */
  lemma SingleBucket(h: seq<nat>, k: nat, sqrt: real -> real)
    requires IsSqrt(sqrt)
    requires k < |h| && h[k] > 0
    requires forall j :: 0 <= j < |h| && j != k ==> h[j] == 0
    ensures WeightedAverage(h, sqrt) == Average(k as real, 0.0)
  {
    SingleBucketMean(h, k);
    SingleBucketDeviation(h, k);
    assert Variance(h) == 0.0;
  }

  /** Python's `int(x)` on a number: truncation toward zero. */
  function Truncate(x: real): (n: int)
    ensures 0.0 <= x ==> 0 <= n && n as real <= x < n as real + 1.0
    ensures x < 0.0 ==> n <= 0 && n as real - 1.0 < x <= n as real
  {
    if 0.0 <= x then x.Floor else -((-x).Floor)
  }

  /** Python's slice `h[lo:hi]` for `0 <= lo <= hi`: it stops early at the end of `h`. */
  function Slice(h: seq<nat>, lo: nat, hi: nat): (s: seq<nat>)
    requires lo <= hi
    ensures |s| <= hi - lo
    ensures |s| > 0 ==> lo + |s| <= |h|
    ensures forall i :: 0 <= i < |s| ==> s[i] == h[lo + i]
    ensures hi <= |h| ==> |s| == hi - lo
    ensures lo <= |h| <= hi ==> |s| == |h| - lo
  {
    if |h| <= lo then []
    else if |h| <= hi then h[lo..]
    else h[lo..hi]
  }

  /** An RGB colour, one intensity per channel. */
  datatype Color = Color(r: int, g: int, b: int)

  /** An 8-bit channel value. */
  predicate IsByte(n: int)
  {
    0 <= n < 256
  }

  /** What `color_from_histogram` returns: the node's colour and its error. */
  datatype Summary = Summary(color: Color, error: real)

  /** The perceptual error: channel errors combined with the luma weights. */
  function LumaError(re: real, ge: real, be: real): (e: real)
    ensures 0.0 <= re && 0.0 <= ge && 0.0 <= be ==>
              0.0 <= e && (e == 0.0 <==> re == 0.0 && ge == 0.0 && be == 0.0)
    ensures 0.0 <= re && 0.0 <= ge && 0.0 <= be ==>
              e <= re || e <= ge || e <= be
  {
    re * 0.2989 + ge * 0.5870 + be * 0.1140
  }

  /**
   * `color_from_histogram`: red from buckets [0, 256), green from
   * [256, 512), blue from [512, 768); each colour component is the
   * truncated channel mean, which is always an 8-bit value.
   */
  function ColorFromHistogram(h: seq<nat>, sqrt: real -> real): (s: Summary)
    ensures IsByte(s.color.r) && IsByte(s.color.g) && IsByte(s.color.b)
    ensures IsSqrt(sqrt) ==> 0.0 <= s.error
  {
    var red := WeightedAverage(Slice(h, 0, 256), sqrt);
    var green := WeightedAverage(Slice(h, 256, 512), sqrt);
    var blue := WeightedAverage(Slice(h, 512, 768), sqrt);
    Summary(Color(Truncate(red.value), Truncate(green.value), Truncate(blue.value)),
            LumaError(red.error, green.error, blue.error))
  }

  /**
   * The channels of a full 768-bucket histogram are its three consecutive
   * 256-bucket segments, in R, G, B order.
   */
  lemma ChannelSegments(h: seq<nat>, sqrt: real -> real)
    requires |h| == 768
    ensures var red := WeightedAverage(h[0..256], sqrt);
            var green := WeightedAverage(h[256..512], sqrt);
            var blue := WeightedAverage(h[512..768], sqrt);
            ColorFromHistogram(h, sqrt) ==
              Summary(Color(Truncate(red.value), Truncate(green.value), Truncate(blue.value)),
                      LumaError(red.error, green.error, blue.error))
  {
    assert Slice(h, 0, 256) == h[0..256];
    assert Slice(h, 256, 512) == h[256..512];
    assert Slice(h, 512, 768) == h[512..768];
  }

  /**
   * Each colour component depends only on its own channel's segment: two
   * histograms that agree on [0, 256) have the same red, on [256, 512) the
   * same green, on [512, 768) the same blue.
   */
  lemma ChannelIndependence(h: seq<nat>, k: seq<nat>, sqrt: real -> real)
    requires |h| == 768 && |k| == 768
    ensures h[0..256] == k[0..256] ==>
              ColorFromHistogram(h, sqrt).color.r == ColorFromHistogram(k, sqrt).color.r
    ensures h[256..512] == k[256..512] ==>
              ColorFromHistogram(h, sqrt).color.g == ColorFromHistogram(k, sqrt).color.g
    ensures h[512..768] == k[512..768] ==>
              ColorFromHistogram(h, sqrt).color.b == ColorFromHistogram(k, sqrt).color.b
  {
    ChannelSegments(h, sqrt);
    ChannelSegments(k, sqrt);
  }

  /** A region with no pixels (all buckets empty) is black with error 0. */
  lemma EmptyRegion(h: seq<nat>, sqrt: real -> real)
    requires forall i :: 0 <= i < |h| ==> h[i] == 0
    ensures ColorFromHistogram(h, sqrt) == Summary(Color(0, 0, 0), 0.0)
  {
    assert Total(Slice(h, 0, 256)) == 0;
    assert Total(Slice(h, 256, 512)) == 0;
    assert Total(Slice(h, 512, 768)) == 0;
  }

  /**
   * A region of one flat colour (each channel's population in a single
   * bucket) is given exactly that colour, with error 0.
   */
  lemma {:induction false} FlatRegion(h: seq<nat>, r: nat, g: nat, b: nat, sqrt: real -> real)
    requires IsSqrt(sqrt)
    requires |h| == 768 && r < 256 && g < 256 && b < 256
    requires h[r] > 0 && h[256 + g] > 0 && h[512 + b] > 0
    requires forall j :: 0 <= j < 256 && j != r ==> h[j] == 0
    requires forall j :: 256 <= j < 512 && j != 256 + g ==> h[j] == 0
    requires forall j :: 512 <= j < 768 && j != 512 + b ==> h[j] == 0
    ensures ColorFromHistogram(h, sqrt) == Summary(Color(r, g, b), 0.0)
  {
    var red, green, blue := h[0..256], h[256..512], h[512..768];
    assert Slice(h, 0, 256) == red;
    assert Slice(h, 256, 512) == green;
    assert Slice(h, 512, 768) == blue;
    SingleBucket(red, r, sqrt);
    SingleBucket(green, g, sqrt);
    SingleBucket(blue, b, sqrt);
  }
}
