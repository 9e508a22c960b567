/**
 Bilinear interpolation over one rectangular cell (`bilinearInterpolation` in
 perfsa.js): blend along x on the lower edge `y1` and on the upper edge `y2`,
 then blend the two results along y. `qAB` is the value at corner `(xA, yB)`.
 */
module Bilinear {
  import opened RealArith
  import opened Linear

  /**
   The bilinear estimate at `(x, y)`, written in the same two-stage form as
   perfsa.js. The cell must have non-zero width and height. The estimate
   takes each corner's value at that corner and keeps a constant field
   constant.
   */
  function BilinearInterpolation(x1: real, x2: real, y1: real, y2: real,
                                 q11: real, q12: real, q21: real, q22: real,
                                 x: real, y: real): (z: real)
    requires x1 != x2 && y1 != y2
    ensures x == x1 && y == y1 ==> z == q11
    ensures x == x2 && y == y1 ==> z == q21
    ensures x == x1 && y == y2 ==> z == q12
    ensures x == x2 && y == y2 ==> z == q22
    ensures q11 == q12 == q21 == q22 ==> z == q11
  {
    var xy1 := (x2 - x) / (x2 - x1) * q11 + (x - x1) / (x2 - x1) * q21;
    var xy2 := (x2 - x) / (x2 - x1) * q12 + (x - x1) / (x2 - x1) * q22;
    BlendWeights(x1, x2, x);
    BlendWeights(y1, y2, y);
    (y2 - y) / (y2 - y1) * xy1 + (y - y1) / (y2 - y1) * xy2
  }

  /**
   The two weights of a blend along `[a, b]` at `t` add up to one, and at
   either end all of the weight sits on that end.
   */
  lemma BlendWeights(a: real, b: real, t: real)
    requires a != b
    ensures (b - t) / (b - a) + (t - a) / (b - a) == 1.0
    ensures t == a ==> (b - t) / (b - a) == 1.0 && (t - a) / (b - a) == 0.0
    ensures t == b ==> (b - t) / (b - a) == 0.0 && (t - a) / (b - a) == 1.0
  {
    QuotientSum(b - t, t - a, b - a);
    SelfQuotient(b - a);
  }

  /** Weights that add up to one, applied to a single value, give that value back. */
  lemma WeightsDistribute(w0: real, w1: real, m: real)
    requires w0 + w1 == 1.0
    ensures w0 * m + w1 * m == m
  {
    assert w0 * m + w1 * m == (w0 + w1) * m;
  }

  /** A blend with non-negative weights summing to one stays within any bounds of its two inputs. */
  lemma BlendBounded(w0: real, w1: real, u: real, v: real, lo: real, hi: real)
    requires 0.0 <= w0 && 0.0 <= w1 && w0 + w1 == 1.0
    requires lo <= u <= hi && lo <= v <= hi
    ensures lo <= w0 * u + w1 * v <= hi
  {
    BlendAbove(w0, w1, u, v, lo);
    BlendBelow(w0, w1, u, v, hi);
  }

  /** The lower half of `BlendBounded`. */
  lemma BlendAbove(w0: real, w1: real, u: real, v: real, lo: real)
    requires 0.0 <= w0 && 0.0 <= w1 && w0 + w1 == 1.0
    requires lo <= u && lo <= v
    ensures lo <= w0 * u + w1 * v
  {
    ScaleMonotone(w0, lo, u);
    ScaleMonotone(w1, lo, v);
    WeightsDistribute(w0, w1, lo);
    assert w0 * lo <= w0 * u && w1 * lo <= w1 * v;
    SumMonotone(w0 * lo, w1 * lo, w0 * u, w1 * v);
  }

  /** The upper half of `BlendBounded`. */
  lemma BlendBelow(w0: real, w1: real, u: real, v: real, hi: real)
    requires 0.0 <= w0 && 0.0 <= w1 && w0 + w1 == 1.0
    requires u <= hi && v <= hi
    ensures w0 * u + w1 * v <= hi
  {
    ScaleMonotone(w0, u, hi);
    ScaleMonotone(w1, v, hi);
    WeightsDistribute(w0, w1, hi);
    assert w0 * u <= w0 * hi && w1 * v <= w1 * hi;
    SumMonotone(w0 * u, w1 * v, w0 * hi, w1 * hi);
  }

  /**
   Along each edge of the cell the estimate is the one-dimensional linear
   interpolation between that edge's two corners.
   */
  lemma BilinearAlongEdges(x1: real, x2: real, y1: real, y2: real,
                           q11: real, q12: real, q21: real, q22: real,
                           x: real, y: real)
    requires x1 != x2 && y1 != y2
    ensures var z := BilinearInterpolation(x1, x2, y1, y2, q11, q12, q21, q22, x, y);
      && (y == y1 ==> OnLine(x1, q11, x2, q21, x, z))
      && (y == y2 ==> OnLine(x1, q12, x2, q22, x, z))
      && (x == x1 ==> OnLine(y1, q11, y2, q12, y, z))
      && (x == x2 ==> OnLine(y1, q21, y2, q22, y, z))
  {
    BlendWeights(x1, x2, x);
    BlendWeights(y1, y2, y);
    var z := BilinearInterpolation(x1, x2, y1, y2, q11, q12, q21, q22, x, y);
    if y == y1 {
      LineBlend(x1, x2, q11, q21, x);
    }
    if y == y2 {
      LineBlend(x1, x2, q12, q22, x);
    }
    if x == x1 {
      LineBlend(y1, y2, q11, q12, y);
    }
    if x == x2 {
      LineBlend(y1, y2, q21, q22, y);
    }
  }

  /** The blend of `u` (at `a`) and `v` (at `b`) evaluated at `t` lies on the line through those points. */
  lemma LineBlend(a: real, b: real, u: real, v: real, t: real)
    requires a != b
    ensures OnLine(a, u, b, v, t, (b - t) / (b - a) * u + (t - a) / (b - a) * v)
  {
    var w0, w1 := (b - t) / (b - a), (t - a) / (b - a);
    assert (b - a) * w0 == b - t;
    assert (b - a) * w1 == t - a;
    BlendWeights(a, b, t);
    assert w0 * u + w1 * v - u == w1 * (v - u);
  }

  /**
   The two-stage form agrees with the closed form of bilinear interpolation:
   each corner value weighted by the area of the sub-rectangle opposite it.
   */
  lemma BilinearClosedForm(x1: real, x2: real, y1: real, y2: real,
                           q11: real, q12: real, q21: real, q22: real,
                           x: real, y: real)
    requires x1 != x2 && y1 != y2
    ensures BilinearInterpolation(x1, x2, y1, y2, q11, q12, q21, q22, x, y) * ((x2 - x1) * (y2 - y1))
         == q11 * (x2 - x) * (y2 - y) + q21 * (x - x1) * (y2 - y)
          + q12 * (x2 - x) * (y - y1) + q22 * (x - x1) * (y - y1)
  {
    var wx0, wx1 := (x2 - x) / (x2 - x1), (x - x1) / (x2 - x1);
    var wy0, wy1 := (y2 - y) / (y2 - y1), (y - y1) / (y2 - y1);
    assert wx0 * (x2 - x1) == x2 - x;
    assert wx1 * (x2 - x1) == x - x1;
    assert wy0 * (y2 - y1) == y2 - y;
    assert wy1 * (y2 - y1) == y - y1;
  }

  /**
   Blending along y first and then along x gives the same value as perfsa.js's
   order: the estimate does not depend on which axis is treated first.
   */
  lemma BilinearTranspose(x1: real, x2: real, y1: real, y2: real,
                          q11: real, q12: real, q21: real, q22: real,
                          x: real, y: real)
    requires x1 != x2 && y1 != y2
    ensures BilinearInterpolation(x1, x2, y1, y2, q11, q12, q21, q22, x, y)
         == BilinearInterpolation(y1, y2, x1, x2, q11, q21, q12, q22, y, x)
  {
    BilinearClosedForm(x1, x2, y1, y2, q11, q12, q21, q22, x, y);
    BilinearClosedForm(y1, y2, x1, x2, q11, q21, q12, q22, y, x);
    assert (x2 - x1) * (y2 - y1) == (y2 - y1) * (x2 - x1);
  }

  /**
   Inside the cell (`x1 <= x <= x2`, `y1 <= y <= y2`) the estimate never leaves
   the range of the four corner values.
   */
  lemma BilinearBounded(x1: real, x2: real, y1: real, y2: real,
                        q11: real, q12: real, q21: real, q22: real,
                        x: real, y: real, lo: real, hi: real)
    requires x1 < x2 && y1 < y2
    requires x1 <= x <= x2 && y1 <= y <= y2
    requires lo <= q11 <= hi && lo <= q12 <= hi && lo <= q21 <= hi && lo <= q22 <= hi
    ensures lo <= BilinearInterpolation(x1, x2, y1, y2, q11, q12, q21, q22, x, y) <= hi
  {
    var wx0, wx1 := (x2 - x) / (x2 - x1), (x - x1) / (x2 - x1);
    var wy0, wy1 := (y2 - y) / (y2 - y1), (y - y1) / (y2 - y1);
    BlendWeights(x1, x2, x);
    BlendWeights(y1, y2, y);
    QuotientNonNegative(x2 - x, x2 - x1);
    QuotientNonNegative(x - x1, x2 - x1);
    QuotientNonNegative(y2 - y, y2 - y1);
    QuotientNonNegative(y - y1, y2 - y1);
    BlendBounded(wx0, wx1, q11, q21, lo, hi);
    BlendBounded(wx0, wx1, q12, q22, lo, hi);
    BlendBounded(wy0, wy1, wx0 * q11 + wx1 * q21, wx0 * q12 + wx1 * q22, lo, hi);
  }

  /** A constant field of `q` gives `q` everywhere. */
  lemma BilinearConstant(x1: real, x2: real, y1: real, y2: real, q: real, x: real, y: real)
    requires x1 != x2 && y1 != y2
    ensures BilinearInterpolation(x1, x2, y1, y2, q, q, q, q, x, y) == q
  {
  }
}
