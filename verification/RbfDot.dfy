/** The Gaussian kernel matrix: squared distances in vectorised form and in the older loop form. */
module RbfDot {
  import opened Sums

  type Pattern = seq<real>

  /** A missing coordinate reads as zero, so that summands are total. */
  function Coord(x: Pattern, t: int): real {
    if 0 <= t < |x| then x[t] else 0.0
  }

  function Times(a: real, b: real): real {
    a * b
  }

  function Square(a: real): real {
    Times(a, a)
  }

  function Dot(d: nat, x: Pattern, y: Pattern): real {
    Sum(d, t => Coord(x, t) * Coord(y, t))
  }

  /** Q + R - 2*patterns1*patterns2', one entry */
  function VectorisedDistance(d: nat, x: Pattern, y: Pattern): real {
    Dot(d, x, x) + Dot(d, y, y) - 2.0 * Dot(d, x, y)
  }

  /** (x-y)*(x-y)', the entry of the older version */
  function PairwiseDistance(d: nat, x: Pattern, y: Pattern): real {
    Sum(d, t => Square(Coord(x, t) - Coord(y, t)))
  }

  /** The two forms agree in every dimension. */
  lemma {:induction false} VectorisedEqualsPairwise(d: nat, x: Pattern, y: Pattern)
    ensures VectorisedDistance(d, x, y) == PairwiseDistance(d, x, y)
  {
    if d > 0 {
      VectorisedEqualsPairwise(d - 1, x, y);
      var a, b := Coord(x, d - 1), Coord(y, d - 1);
      assert Times(a - b, a - b) == a * a + b * b - 2.0 * (a * b);
    }
  }

  lemma TimesSign(a: real, b: real)
    ensures a > 0.0 && b > 0.0 ==> Times(a, b) > 0.0
    ensures a == 0.0 ==> Times(a, b) == 0.0
    ensures Times(-a, -b) == Times(a, b)
  {
  }

  lemma SquareNonNegative(a: real)
    ensures Square(a) >= 0.0 && Square(a) == Square(-a)
    ensures if a == 0.0 then Square(a) == 0.0 else Square(a) > 0.0
  {
    hide Times;
    TimesSign(a, a);
    TimesSign(-a, -a);
  }

  /** The distance is a squared metric: non-negative, symmetric, and zero exactly for equal patterns. */
  lemma {:induction false} DistanceFacts(d: nat, x: Pattern, y: Pattern)
    ensures PairwiseDistance(d, x, y) >= 0.0
    ensures PairwiseDistance(d, x, y) == PairwiseDistance(d, y, x)
    ensures PairwiseDistance(d, x, y) == 0.0 <==> forall t :: 0 <= t < d ==> Coord(x, t) == Coord(y, t)
  {
    hide Square, Times;
    if d > 0 {
      DistanceFacts(d - 1, x, y);
      var a := Coord(x, d - 1) - Coord(y, d - 1);
      assert PairwiseDistance(d, x, y) == PairwiseDistance(d - 1, x, y) + Square(a);
      assert PairwiseDistance(d, y, x) == PairwiseDistance(d - 1, y, x) + Square(-a);
      SquareNonNegative(a);
    }
  }

  /** The facts about `exp` that are used. */
  ghost predicate ExpFacts(exp: real -> real) {
    exp(0.0) == 1.0 && forall v :: v < 0.0 ==> 0.0 < exp(v) < 1.0
  }

  /** exp(-H/2/deg^2), one entry */
  function Kernel(exp: real -> real, d: nat, x: Pattern, y: Pattern, deg: real): real
    requires deg != 0.0
  {
    SquareNonNegative(deg);
    exp(-VectorisedDistance(d, x, y) / 2.0 / Square(deg))
  }

  lemma QuotientSign(a: real, b: real)
    requires a >= 0.0 && b > 0.0
    ensures -a / 2.0 / b <= 0.0 && (-a / 2.0 / b == 0.0 <==> a == 0.0)
  {
  }

  /** Kernel entries lie in (0, 1], are symmetric, and are 1 exactly for equal patterns. */
  lemma KernelFacts(exp: real -> real, d: nat, x: Pattern, y: Pattern, deg: real)
    requires ExpFacts(exp) && deg != 0.0
    ensures 0.0 < Kernel(exp, d, x, y, deg) <= 1.0
    ensures Kernel(exp, d, x, y, deg) == Kernel(exp, d, y, x, deg)
    ensures Kernel(exp, d, x, y, deg) == 1.0 <==> forall t :: 0 <= t < d ==> Coord(x, t) == Coord(y, t)
  {
    hide PairwiseDistance, VectorisedDistance, Coord, Square, Times;
    VectorisedEqualsPairwise(d, x, y);
    VectorisedEqualsPairwise(d, y, x);
    DistanceFacts(d, x, y);
    SquareNonNegative(deg);
    QuotientSign(PairwiseDistance(d, x, y), Square(deg));
  }

  // ----- the kernel size -----

  /** Every coordinate multiplied by s. */
  function Stretched(s: real, x: Pattern): (r: Pattern)
    ensures |r| == |x|
  {
    seq(|x|, t requires 0 <= t < |x| => s * x[t])
  }

  lemma SquareOfProduct(s: real, a: real, b: real)
    ensures Square(s * a - s * b) == Square(s) * Square(a - b)
  {
    var c := a - b;
    assert s * a - s * b == s * c;
    assert s * c * (s * c) == s * s * (c * c);
    assert Square(s * c) == Times(s * c, s * c) && Square(s) == Times(s, s) && Square(c) == Times(c, c);
  }

  lemma {:induction false} StretchedDistance(s: real, d: nat, x: Pattern, y: Pattern)
    ensures PairwiseDistance(d, Stretched(s, x), Stretched(s, y)) == Square(s) * PairwiseDistance(d, x, y)
  {
    hide Square;
    if d > 0 {
      StretchedDistance(s, d - 1, x, y);
      var a, b := Coord(x, d - 1), Coord(y, d - 1);
      assert Coord(Stretched(s, x), d - 1) == s * a && Coord(Stretched(s, y), d - 1) == s * b;
      SquareOfProduct(s, a, b);
    }
  }

  lemma KernelIs(exp: real -> real, d: nat, x: Pattern, y: Pattern, deg: real)
    requires deg != 0.0
    ensures Square(deg) > 0.0
    ensures Kernel(exp, d, x, y, deg) == exp(-PairwiseDistance(d, x, y) / 2.0 / Square(deg))
  {
    hide VectorisedDistance, PairwiseDistance;
    SquareNonNegative(deg);
    VectorisedEqualsPairwise(d, x, y);
  }

  /** The kernel size is the distance at which an entry is exp(-1/2). */
  lemma KernelCalibrated(exp: real -> real, d: nat, x: Pattern, y: Pattern, deg: real)
    requires deg != 0.0 && PairwiseDistance(d, x, y) == Square(deg)
    ensures Kernel(exp, d, x, y, deg) == exp(-0.5)
  {
    hide Kernel, PairwiseDistance, Square;
    KernelIs(exp, d, x, y, deg);
    var w := Square(deg);
    assert -w / 2.0 / w == -0.5;
  }

  /** Only the distance in units of the kernel size matters: the scale of both may change together. */
  lemma KernelScaleInvariant(exp: real -> real, s: real, d: nat, x: Pattern, y: Pattern, deg: real)
    requires s != 0.0 && deg != 0.0
    ensures s * deg != 0.0
    ensures Kernel(exp, d, Stretched(s, x), Stretched(s, y), s * deg) == Kernel(exp, d, x, y, deg)
  {
    hide Kernel, PairwiseDistance, Square, Stretched;
    NonZeroProduct(s, deg);
    KernelIs(exp, d, x, y, deg);
    KernelIs(exp, d, Stretched(s, x), Stretched(s, y), s * deg);
    StretchedDistance(s, d, x, y);
    SquareOfProduct(s, deg, 0.0);
    assert deg - 0.0 == deg;
    SquareNonNegative(s);
    var k, a, b := Square(s), PairwiseDistance(d, x, y), Square(deg);
    CommonFactor(k, a, b);
    assert Square(s * deg) == k * b;
    assert PairwiseDistance(d, Stretched(s, x), Stretched(s, y)) == k * a;
  }

  lemma NonZeroProduct(s: real, t: real)
    requires s != 0.0 && t != 0.0
    ensures s * t != 0.0 && s * t - s * 0.0 == s * t
  {
  }

  lemma CommonFactor(k: real, a: real, b: real)
    requires k > 0.0 && b > 0.0
    ensures k * b > 0.0 && -(k * a) / 2.0 / (k * b) == -a / 2.0 / b
  {
    var q := -a / 2.0 / b;
    assert q * b == -a / 2.0;
    assert q * (k * b) == -(k * a) / 2.0;
  }

  ghost predicate Increasing(exp: real -> real) {
    forall u, v :: u < v ==> exp(u) < exp(v)
  }

  /** A larger kernel size brings different patterns closer to 1, and equal ones stay there. */
  lemma KernelGrowsWithSize(exp: real -> real, d: nat, x: Pattern, y: Pattern, deg: real, deg': real)
    requires Increasing(exp) && 0.0 < deg < deg'
    ensures if forall t :: 0 <= t < d ==> Coord(x, t) == Coord(y, t)
            then Kernel(exp, d, x, y, deg) == Kernel(exp, d, x, y, deg') == exp(0.0)
            else Kernel(exp, d, x, y, deg) < Kernel(exp, d, x, y, deg')
  {
    hide Kernel, PairwiseDistance, Square, Coord;
    KernelIs(exp, d, x, y, deg);
    KernelIs(exp, d, x, y, deg');
    DistanceFacts(d, x, y);
    SquareGrows(deg, deg');
    var a := PairwiseDistance(d, x, y);
    QuotientSign(a, Square(deg));
    QuotientSign(a, Square(deg'));
    if a > 0.0 {
      QuotientGrows(a, Square(deg), Square(deg'));
    }
  }

  lemma SquareGrows(a: real, b: real)
    requires 0.0 < a < b
    ensures 0.0 < Square(a) < Square(b)
  {
    TimesSign(a, a);
    TimesSign(b - a, a + b);
    assert Times(b - a, a + b) == b * b - a * a;
    assert Square(a) == Times(a, a) == a * a && Square(b) == Times(b, b) == b * b;
  }

  lemma QuotientGrows(a: real, b: real, c: real)
    requires a > 0.0 && 0.0 < b < c
    ensures -a / 2.0 / b < -a / 2.0 / c
  {
    var h := a / 2.0;
    var u, v := h / b, h / c;
    assert u * b == h && v * c == h && v > 0.0;
    assert v * c > v * b;
    assert u <= v ==> u * b <= v * b;
  }

  function PatternAt(P: seq<Pattern>, k: int): Pattern {
    if 0 <= k < |P| then P[k] else []
  }

  /** rbf_dot(P,P,deg) */
  function Gram(exp: real -> real, d: nat, P: seq<Pattern>, deg: real): (int, int) -> real
    requires deg != 0.0
  {
    (k, l) => Kernel(exp, d, PatternAt(P, k), PatternAt(P, l), deg)
  }

  /** The older version: a double loop that fills the matrix of squared distances. */
  method PairwiseLoop(d: nat, P: seq<Pattern>, Q: seq<Pattern>) returns (H: array2<real>)
    ensures H.Length0 == |P| && H.Length1 == |Q|
    ensures forall k, l :: 0 <= k < |P| && 0 <= l < |Q| ==> H[k, l] == VectorisedDistance(d, P[k], Q[l])
  {
    hide VectorisedDistance, PairwiseDistance;
    H := new real[|P|, |Q|]((k, l) => 0.0);
    for k := 0 to |P|
      invariant forall i, l :: 0 <= i < k && 0 <= l < |Q| ==> H[i, l] == VectorisedDistance(d, P[i], Q[l])
    {
      for l := 0 to |Q|
        invariant forall i, j :: 0 <= i < k && 0 <= j < |Q| ==> H[i, j] == VectorisedDistance(d, P[i], Q[j])
        invariant forall j :: 0 <= j < l ==> H[k, j] == VectorisedDistance(d, P[k], Q[j])
      {
        H[k, l] := PairwiseDistance(d, P[k], Q[l]);
        VectorisedEqualsPairwise(d, P[k], Q[l]);
      }
    }
  }
}
