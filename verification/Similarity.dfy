/** Cosine similarity and the hybrid score, over the reals. */
module Similarity {

  // The inner product of the first n components.
  function Dot(a: seq<real>, b: seq<real>, n: nat): real
    requires n <= |a| && n <= |b|
  {
    if n == 0 then 0.0 else Dot(a, b, n - 1) + a[n - 1] * b[n - 1]
  }

  // sqrt is the non-negative root.
  ghost predicate Root(sqrt: real -> real) {
    forall x {:trigger sqrt(x)} :: x >= 0.0 ==> sqrt(x) >= 0.0 && sqrt(x) * sqrt(x) == x
  }

  // The quotient of the sums, 0 for a vector without length. The last guard only keeps the
  // division defined for every sqrt: for a root it is never what decides.
  function Cosine(sqrt: real -> real, a: seq<real>, b: seq<real>, n: nat): real
    requires n <= |a| && n <= |b|
  {
    var na, nb := Dot(a, a, n), Dot(b, b, n);
    var norm := sqrt(na) * sqrt(nb);
    if na == 0.0 || nb == 0.0 || norm == 0.0 then 0.0 else Dot(a, b, n) / norm
  }

  // nc_cosine_similarity
  method CosineSimilarity(sqrt: real -> real, a: array<real>, b: array<real>, n: nat) returns (r: real)
    requires Root(sqrt) && n <= a.Length && n <= b.Length
    ensures r == Cosine(sqrt, a[..], b[..], n)
    ensures -1.0 <= r <= 1.0
  {
    var dot, na, nb := 0.0, 0.0, 0.0;
    for i := 0 to n
      invariant dot == Dot(a[..], b[..], i) && na == Dot(a[..], a[..], i) && nb == Dot(b[..], b[..], i)
    {
      dot := dot + a[i] * b[i];
      na := na + a[i] * a[i];
      nb := nb + b[i] * b[i];
    }
    CosineRange(sqrt, a[..], b[..], n);
    if na == 0.0 || nb == 0.0 {
      return 0.0;
    }
    NormPositive(sqrt, a[..], b[..], n);
    return dot / (sqrt(na) * sqrt(nb));
  }

  lemma {:induction false} SquaresNonNegative(a: seq<real>, n: nat)
    requires n <= |a|
    ensures Dot(a, a, n) >= 0.0
  {
    if n > 0 {
      SquaresNonNegative(a, n - 1);
      assert a[n - 1] * a[n - 1] >= 0.0;
    }
  }

  // One step of Cauchy-Schwarz: from d^2 <= p q to (d + x y)^2 <= (p + x^2)(q + y^2).
  lemma CauchyStep(d: real, p: real, q: real, x: real, y: real)
    requires p >= 0.0 && q >= 0.0 && d * d <= p * q
    ensures (d + x * y) * (d + x * y) <= (p + x * x) * (q + y * y)
  {
    var u, v := p * (y * y), q * (x * x);
    var w := d * (x * y);
    assert u >= 0.0 && v >= 0.0 by {
      NonNegativeProduct(p, y * y);
      NonNegativeProduct(q, x * x);
    }
    assert w * w <= u * v by {
      var s := (x * y) * (x * y);
      assert s >= 0.0;
      assert w * w == (d * d) * s by { Rearrange(d, x * y); }
      MulOrder(d * d, p * q, s);
      assert (p * q) * s == u * v by { Regroup(p, q, x, y); }
    }
    TwiceRoot(w, u, v);
    Expand(d, p, q, x, y);
  }

  lemma NonNegativeProduct(a: real, b: real)
    requires a >= 0.0 && b >= 0.0
    ensures a * b >= 0.0
  {
  }

  lemma MulOrder(a: real, b: real, s: real)
    requires a <= b && s >= 0.0
    ensures a * s <= b * s
  {
  }

  lemma Rearrange(d: real, z: real)
    ensures (d * z) * (d * z) == (d * d) * (z * z)
  {
  }

  lemma Regroup(p: real, q: real, x: real, y: real)
    ensures (p * q) * ((x * y) * (x * y)) == (p * (y * y)) * (q * (x * x))
  {
  }

  lemma Expand(d: real, p: real, q: real, x: real, y: real)
    ensures (p + x * x) * (q + y * y) == p * q + p * (y * y) + q * (x * x) + (x * y) * (x * y)
    ensures (d + x * y) * (d + x * y) == d * d + 2.0 * (d * (x * y)) + (x * y) * (x * y)
  {
  }

  // A product below that of two non-negative numbers is at most their mean.
  lemma TwiceRoot(w: real, u: real, v: real)
    requires u >= 0.0 && v >= 0.0 && w * w <= u * v
    ensures 2.0 * w <= u + v
  {
    var m := u + v;
    assert m * m - 4.0 * (u * v) == (u - v) * (u - v) >= 0.0;
    assert (2.0 * w) * (2.0 * w) == 4.0 * (w * w);
    if 2.0 * w > m {
      SquareOrder(m, 2.0 * w);
    }
  }

  lemma PositiveProduct(a: real, b: real)
    requires a > 0.0 && b > 0.0
    ensures a * b > 0.0
  {
  }

  lemma SquareOrder(a: real, b: real)
    requires 0.0 <= a < b
    ensures a * a < b * b
  {
    PositiveProduct(b - a, b + a);
    assert b * b - a * a == (b - a) * (b + a);
  }

  // The Cauchy-Schwarz inequality, for vectors of any length.
  lemma {:induction false} CauchySchwarz(a: seq<real>, b: seq<real>, n: nat)
    requires n <= |a| && n <= |b|
    ensures Dot(a, b, n) * Dot(a, b, n) <= Dot(a, a, n) * Dot(b, b, n)
  {
    if n > 0 {
      CauchySchwarz(a, b, n - 1);
      SquaresNonNegative(a, n - 1);
      SquaresNonNegative(b, n - 1);
      CauchyStep(Dot(a, b, n - 1), Dot(a, a, n - 1), Dot(b, b, n - 1), a[n - 1], b[n - 1]);
    }
  }

  lemma RootPositive(sqrt: real -> real, x: real)
    requires Root(sqrt) && x > 0.0
    ensures sqrt(x) > 0.0
  {
  }

  // The divisor is zero only where the code has returned before dividing.
  lemma NormPositive(sqrt: real -> real, a: seq<real>, b: seq<real>, n: nat)
    requires Root(sqrt) && n <= |a| && n <= |b|
    requires Dot(a, a, n) != 0.0 && Dot(b, b, n) != 0.0
    ensures sqrt(Dot(a, a, n)) > 0.0 && sqrt(Dot(b, b, n)) > 0.0
    ensures sqrt(Dot(a, a, n)) * sqrt(Dot(b, b, n)) > 0.0
  {
    SquaresNonNegative(a, n);
    SquaresNonNegative(b, n);
    RootPositive(sqrt, Dot(a, a, n));
    RootPositive(sqrt, Dot(b, b, n));
    PositiveProduct(sqrt(Dot(a, a, n)), sqrt(Dot(b, b, n)));
  }

  lemma QuotientRange(d: real, m: real)
    requires m > 0.0 && d * d <= m * m
    ensures -1.0 <= d / m <= 1.0
  {
    assert (-d) * (-d) == d * d;
    if d > m {
      SquareOrder(m, d);
    }
    if -d > m {
      SquareOrder(m, -d);
    }
    var r := d / m;
    assert r * m == d;
    if r > 1.0 {
      PositiveProduct(r - 1.0, m);
    }
    if r < -1.0 {
      PositiveProduct(-1.0 - r, m);
    }
  }

  // The similarity lies between -1 and 1.
  lemma CosineRange(sqrt: real -> real, a: seq<real>, b: seq<real>, n: nat)
    requires Root(sqrt) && n <= |a| && n <= |b|
    ensures -1.0 <= Cosine(sqrt, a, b, n) <= 1.0
  {
    var na, nb := Dot(a, a, n), Dot(b, b, n);
    if na != 0.0 && nb != 0.0 {
      NormPositive(sqrt, a, b, n);
      CauchySchwarz(a, b, n);
      SquaresNonNegative(a, n);
      SquaresNonNegative(b, n);
      var m := sqrt(na) * sqrt(nb);
      assert m * m == na * nb by { Rearrange(sqrt(na), sqrt(nb)); }
      QuotientRange(Dot(a, b, n), m);
    }
  }

  lemma {:induction false} DotSymmetric(a: seq<real>, b: seq<real>, n: nat)
    requires n <= |a| && n <= |b|
    ensures Dot(a, b, n) == Dot(b, a, n)
  {
    if n > 0 {
      DotSymmetric(a, b, n - 1);
    }
  }

  lemma CosineSymmetric(sqrt: real -> real, a: seq<real>, b: seq<real>, n: nat)
    requires n <= |a| && n <= |b|
    ensures Cosine(sqrt, a, b, n) == Cosine(sqrt, b, a, n)
  {
    DotSymmetric(a, b, n);
  }

  function Scaled(c: real, a: seq<real>): (r: seq<real>)
    ensures |r| == |a|
  {
    seq(|a|, i requires 0 <= i < |a| => c * a[i])
  }

  lemma {:induction false} DotScaled(c: real, a: seq<real>, b: seq<real>, n: nat)
    requires n <= |a| && n <= |b|
    ensures Dot(Scaled(c, a), b, n) == c * Dot(a, b, n)
  {
    if n > 0 {
      DotScaled(c, a, b, n - 1);
      var d, x, y := Dot(a, b, n - 1), a[n - 1], b[n - 1];
      assert c * (d + x * y) == c * d + (c * x) * y;
    }
  }

  // Non-negative roots are unique.
  lemma RootUnique(r: real, s: real)
    requires r >= 0.0 && s >= 0.0 && r * r == s * s
    ensures r == s
  {
    if r < s {
      SquareOrder(r, s);
    } else if s < r {
      SquareOrder(s, r);
    }
  }

  lemma RootScaled(sqrt: real -> real, c: real, x: real)
    requires Root(sqrt) && c > 0.0 && x >= 0.0
    ensures c * (c * x) >= 0.0
    ensures sqrt(c * (c * x)) == c * sqrt(x)
  {
    NonNegativeProduct(c, x);
    NonNegativeProduct(c, c * x);
    NonNegativeProduct(c, sqrt(x));
    assert (c * sqrt(x)) * (c * sqrt(x)) == c * (c * x) by {
      Rearrange(c, sqrt(x));
      assert (c * c) * x == c * (c * x);
    }
    RootUnique(sqrt(c * (c * x)), c * sqrt(x));
  }

  lemma CancelFactor(c: real, d: real, m: real)
    requires c > 0.0 && m > 0.0
    ensures c * m > 0.0 && (c * d) / (c * m) == d / m
  {
  }

  // Making one vector longer by any positive factor changes nothing.
  lemma CosineScaleInvariant(sqrt: real -> real, c: real, a: seq<real>, b: seq<real>, n: nat)
    requires Root(sqrt) && c > 0.0 && n <= |a| && n <= |b|
    ensures Cosine(sqrt, Scaled(c, a), b, n) == Cosine(sqrt, a, b, n)
  {
    var s := Scaled(c, a);
    var na, nb := Dot(a, a, n), Dot(b, b, n);
    DotScaled(c, a, b, n);
    DotScaled(c, a, s, n);
    DotSymmetric(a, s, n);
    DotScaled(c, a, a, n);
    assert Dot(s, s, n) == c * (c * na);
    if na == 0.0 || nb == 0.0 {
      assert na == 0.0 ==> c * (c * na) == 0.0;
    } else {
      SquaresNonNegative(a, n);
      PositiveProduct(c, na);
      PositiveProduct(c, c * na);
      RootScaled(sqrt, c, na);
      NormPositive(sqrt, a, b, n);
      var m := sqrt(na) * sqrt(nb);
      assert (c * sqrt(na)) * sqrt(nb) == c * m;
      CancelFactor(c, Dot(a, b, n), m);
    }
  }

  // A product under a name, which keeps the solver from expanding squares.
  function Times(a: real, b: real): real {
    a * b
  }

  lemma TimesSigns(a: real, b: real)
    ensures a > 0.0 && b > 0.0 ==> Times(a, b) > 0.0
    ensures Times(-a, -b) == Times(a, b)
    ensures Times(0.0, b) == 0.0
  {
  }

  lemma NamedZeroSum(d: real, x: real)
    requires d >= 0.0
    ensures d + Times(x, x) == 0.0 <==> d == 0.0 && x == 0.0
  {
    TimesSigns(x, x);
    TimesSigns(-x, -x);
  }

  lemma ZeroSum(d: real, x: real)
    requires d >= 0.0
    ensures d + x * x == 0.0 <==> d == 0.0 && x == 0.0
  {
    NamedZeroSum(d, x);
    assert Times(x, x) == x * x;
  }

  lemma DotStep(a: seq<real>, n: nat)
    requires 0 < n <= |a|
    ensures Dot(a, a, n) == Dot(a, a, n - 1) + a[n - 1] * a[n - 1]
  {
  }

  lemma {:induction false} ZeroExactly(a: seq<real>, n: nat)
    requires n <= |a|
    ensures Dot(a, a, n) == 0.0 <==> forall i :: 0 <= i < n ==> a[i] == 0.0
  {
    if n > 0 {
      ZeroExactly(a, n - 1);
      SquaresNonNegative(a, n - 1);
      DotStep(a, n);
      ZeroSum(Dot(a, a, n - 1), a[n - 1]);
    }
  }

  lemma Quotient(d: real, m: real)
    requires m > 0.0
    ensures (d / m) * m == d
  {
  }

  // The similarity is 0 where a vector is zero; elsewhere, times both lengths, it is the inner
  // product.
  lemma {:induction false} CosineExactly(sqrt: real -> real, a: seq<real>, b: seq<real>, n: nat)
    requires Root(sqrt) && n <= |a| && n <= |b|
    ensures (forall i :: 0 <= i < n ==> a[i] == 0.0) || (forall i :: 0 <= i < n ==> b[i] == 0.0)
            ==> Cosine(sqrt, a, b, n) == 0.0
    ensures (exists i :: 0 <= i < n && a[i] != 0.0) && (exists i :: 0 <= i < n && b[i] != 0.0)
            ==> Cosine(sqrt, a, b, n) * (sqrt(Dot(a, a, n)) * sqrt(Dot(b, b, n))) == Dot(a, b, n)
  {
    ZeroExactly(a, n);
    ZeroExactly(b, n);
    if Dot(a, a, n) != 0.0 && Dot(b, b, n) != 0.0 {
      NormPositive(sqrt, a, b, n);
      Quotient(Dot(a, b, n), sqrt(Dot(a, a, n)) * sqrt(Dot(b, b, n)));
    }
  }

  lemma OverItself(x: real)
    requires x > 0.0
    ensures x / x == 1.0
  {
  }

  lemma TwiceNegated(c: real, x: real)
    ensures (-c) * (-1.0 * x) == c * x
  {
  }

  // A vector that is not zero has similarity 1 with itself.
  lemma SelfSimilarity(sqrt: real -> real, a: seq<real>, n: nat)
    requires Root(sqrt) && n <= |a| && exists i :: 0 <= i < n && a[i] != 0.0
    ensures Cosine(sqrt, a, a, n) == 1.0
  {
    var x := Dot(a, a, n);
    ZeroExactly(a, n);
    SquaresNonNegative(a, n);
    assert sqrt(x) * sqrt(x) == x;
    OverItself(x);
  }

  // Turning one vector around turns the similarity's sign around, whatever its length.
  lemma CosineNegated(sqrt: real -> real, c: real, a: seq<real>, b: seq<real>, n: nat)
    requires Root(sqrt) && c < 0.0 && n <= |a| && n <= |b|
    ensures Cosine(sqrt, Scaled(c, a), b, n) == -Cosine(sqrt, a, b, n)
  {
    var minus := Scaled(-1.0, a);
    CosineTurned(sqrt, a, b, n);
    CosineScaleInvariant(sqrt, -c, minus, b, n);
    forall i | 0 <= i < |a| ensures Scaled(-c, minus)[i] == Scaled(c, a)[i] {
      TwiceNegated(c, a[i]);
    }
    assert Scaled(-c, minus) == Scaled(c, a);
  }

  lemma CosineTurned(sqrt: real -> real, a: seq<real>, b: seq<real>, n: nat)
    requires n <= |a| && n <= |b|
    ensures Cosine(sqrt, Scaled(-1.0, a), b, n) == -Cosine(sqrt, a, b, n)
  {
    var s := Scaled(-1.0, a);
    DotScaled(-1.0, a, b, n);
    DotScaled(-1.0, a, s, n);
    DotSymmetric(a, s, n);
    DotScaled(-1.0, a, a, n);
    assert Dot(s, s, n) == Dot(a, a, n) && Dot(s, b, n) == -Dot(a, b, n);
  }

  // nc_hybrid_score
  function HybridScore(v: real, k: real, vw: real, kw: real): real {
    v * vw + k * kw
  }

  // The first weight is the first score's, the second the second's, and weights mix linearly.
  lemma HybridLinear(v: real, k: real, a: real, b: real, c: real, d: real)
    ensures HybridScore(v, k, 1.0, 0.0) == v && HybridScore(v, k, 0.0, 1.0) == k
    ensures HybridScore(v, k, a + c, b + d) == HybridScore(v, k, a, b) + HybridScore(v, k, c, d)
    ensures HybridScore(v, k, c * a, c * b) == c * HybridScore(v, k, a, b)
  {
    assert v * (a + c) == v * a + v * c && k * (b + d) == k * b + k * d;
    assert v * (c * a) == c * (v * a) && k * (c * b) == c * (k * b);
  }

  function Abs(x: real): real {
    if x < 0.0 then -x else x
  }

  lemma TermRange(v: real, w: real)
    requires -1.0 <= v <= 1.0
    ensures -Abs(w) <= v * w <= Abs(w)
  {
    NonNegativeProduct(1.0 - v, Abs(w));
    NonNegativeProduct(1.0 + v, Abs(w));
  }

  ghost predicate ScoreStaysInRange(vw: real, kw: real) {
    forall v, k :: -1.0 <= v <= 1.0 && -1.0 <= k <= 1.0 ==> -1.0 <= HybridScore(v, k, vw, kw) <= 1.0
  }

  // Scores between -1 and 1 mix into one exactly when the weights' sizes sum to at most 1.
  lemma HybridRangeExactly(vw: real, kw: real)
    ensures ScoreStaysInRange(vw, kw) <==> Abs(vw) + Abs(kw) <= 1.0
  {
    if Abs(vw) + Abs(kw) <= 1.0 {
      forall v, k | -1.0 <= v <= 1.0 && -1.0 <= k <= 1.0
        ensures -1.0 <= HybridScore(v, k, vw, kw) <= 1.0
      {
        TermRange(v, vw);
        TermRange(k, kw);
      }
    } else {
      var v := if vw < 0.0 then -1.0 else 1.0;
      var k := if kw < 0.0 then -1.0 else 1.0;
      assert HybridScore(v, k, vw, kw) > 1.0;
    }
  }
}
