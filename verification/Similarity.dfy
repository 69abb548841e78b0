/** scripts/check_embedding_model_drift.py, cosine, and
    scripts/embedding_cutover_check.py, pearson: bounds and invariances, over the
    reals, with the values of the square roots as arguments. */
module Similarity {
  import opened Wrappers

  type Vector = seq<real>

  function Dot(a: Vector, b: Vector): real
    requires |a| == |b|
  {
    if a == [] then 0.0 else a[0] * b[0] + Dot(a[1..], b[1..])
  }

  function Sum(a: Vector): real {
    if a == [] then 0.0 else a[0] + Sum(a[1..])
  }

  /** k * a + c, component by component. */
  function Affine(k: real, a: Vector, c: real): (r: Vector)
    ensures |r| == |a| && forall i :: 0 <= i < |a| ==> r[i] == k * a[i] + c
  {
    seq(|a|, i requires 0 <= i < |a| => k * a[i] + c)
  }

  function Scaled(k: real, a: Vector): (r: Vector)
    ensures |r| == |a|
  {
    Affine(k, a, 0.0)
  }

  /** p * a - q * b. */
  function Combined(p: real, a: Vector, q: real, b: Vector): (r: Vector)
    requires |a| == |b|
    ensures |r| == |a| && forall i :: 0 <= i < |a| ==> r[i] == p * a[i] - q * b[i]
  {
    seq(|a|, i requires 0 <= i < |a| => p * a[i] - q * b[i])
  }

  predicate IsRoot(root: real, square: real) {
    root >= 0.0 && root * root == square
  }

  // ---- Cauchy-Schwarz -----------------------------------------------------

  lemma {:induction false} DotSymmetric(a: Vector, b: Vector)
    requires |a| == |b|
    ensures Dot(a, b) == Dot(b, a)
    decreases |a|
  {
    if a != [] { DotSymmetric(a[1..], b[1..]); }
  }

  lemma {:induction false} DotSelf(a: Vector)
    ensures Dot(a, a) >= 0.0
    ensures Dot(a, a) == 0.0 ==> forall i :: 0 <= i < |a| ==> a[i] == 0.0
    decreases |a|
  {
    if a != [] {
      DotSelf(a[1..]);
      SquareNonNegative(a[0]);
      assert forall i :: 1 <= i < |a| ==> a[i] == a[1..][i - 1];
    }
  }

  lemma SquareNonNegative(x: real)
    ensures x * x >= 0.0 && (x * x == 0.0 ==> x == 0.0)
  {
    if x * x == 0.0 { NoZeroDivisors(x, x); }
  }

  lemma NoZeroDivisors(x: real, y: real)
    requires x * y == 0.0
    ensures x == 0.0 || y == 0.0
  {
  }

  lemma SignOfProduct(x: real, y: real)
    ensures x > 0.0 ==> (y > 0.0 ==> x * y > 0.0) && (y < 0.0 ==> x * y < 0.0)
  {
  }

  lemma AffineTail(k: real, a: Vector, c: real)
    requires a != []
    ensures Affine(k, a, c)[1..] == Affine(k, a[1..], c)
  {
    var r := Affine(k, a[1..], c);
    forall i | 0 <= i < |a| - 1 ensures Affine(k, a, c)[1..][i] == r[i] {
      assert a[1..][i] == a[i + 1];
    }
  }

  lemma CombinedTail(p: real, a: Vector, q: real, b: Vector)
    requires |a| == |b| > 0
    ensures Combined(p, a, q, b)[1..] == Combined(p, a[1..], q, b[1..])
  {
    var r := Combined(p, a[1..], q, b[1..]);
    forall i | 0 <= i < |a| - 1 ensures Combined(p, a, q, b)[1..][i] == r[i] {
      assert a[1..][i] == a[i + 1] && b[1..][i] == b[i + 1];
    }
  }

  lemma {:induction false} DotScaled(k: real, a: Vector, b: Vector)
    requires |a| == |b|
    ensures Dot(Scaled(k, a), b) == k * Dot(a, b)
    decreases |a|
  {
    if a != [] {
      DotScaled(k, a[1..], b[1..]);
      AffineTail(k, a, 0.0);
      assert k * a[0] * b[0] == k * (a[0] * b[0]);
    }
  }

  lemma SquareOfDifference(p: real, x: real, q: real, y: real)
    ensures (p * x - q * y) * (p * x - q * y) == p * p * (x * x) - 2.0 * (p * q) * (x * y) + q * q * (y * y)
  {
  }

  lemma {:induction false} DotCombined(p: real, a: Vector, q: real, b: Vector)
    requires |a| == |b|
    ensures var z := Combined(p, a, q, b);
      Dot(z, z) == p * p * Dot(a, a) - 2.0 * (p * q) * Dot(a, b) + q * q * Dot(b, b)
    decreases |a|
  {
    hide Dot;
    var z := Combined(p, a, q, b);
    if a == [] {
      DotEmpty();
    } else {
      DotCombined(p, a[1..], q, b[1..]);
      CombinedTail(p, a, q, b);
      DotUnfold(z, z);
      DotUnfold(a, a);
      DotUnfold(a, b);
      DotUnfold(b, b);
      SquareOfDifference(p, a[0], q, b[0]);
      AddSquares(p * p, 2.0 * (p * q), q * q, a[0] * a[0], a[0] * b[0], b[0] * b[0],
                 Dot(a[1..], a[1..]), Dot(a[1..], b[1..]), Dot(b[1..], b[1..]));
    }
  }

  lemma DotEmpty()
    ensures Dot([], []) == 0.0
  {
  }

  lemma DotUnfold(a: Vector, b: Vector)
    requires |a| == |b| > 0
    ensures Dot(a, b) == a[0] * b[0] + Dot(a[1..], b[1..])
  {
  }

  lemma AddSquares(u: real, v: real, w: real, x: real, y: real, z: real, A: real, D: real, B: real)
    ensures (u * x - v * y + w * z) + (u * A - v * D + w * B) == u * (x + A) - v * (y + D) + w * (z + B)
  {
  }

  lemma {:induction false} DotZero(a: Vector, b: Vector)
    requires |a| == |b| && forall i :: 0 <= i < |b| ==> b[i] == 0.0
    ensures Dot(a, b) == 0.0
    decreases |a|
  {
    if a != [] { DotZero(a[1..], b[1..]); }
  }

  /** The squared dot product is at most the product of the squared norms. */
  lemma CauchySchwarz(a: Vector, b: Vector)
    requires |a| == |b|
    ensures Dot(a, b) * Dot(a, b) <= Dot(a, a) * Dot(b, b)
  {
    hide *;
    var A, B, D := Dot(a, a), Dot(b, b), Dot(a, b);
    DotSelf(b);
    if B == 0.0 {
      DotZero(a, b);
    } else {
      DotCombined(B, a, D, b);
      DotSelf(Combined(B, a, D, b));
      Discriminant(A, B, D);
    }
  }

  lemma Discriminant(A: real, B: real, D: real)
    requires B > 0.0 && B * B * A - 2.0 * (B * D) * D + D * D * B >= 0.0
    ensures D * D <= A * B
  {
    var x := A * B - D * D;
    assert B * x == B * B * A - 2.0 * (B * D) * D + D * D * B;
    SignOfProduct(B, x);
  }

  // ---- Cosine -------------------------------------------------------------

  function Ratio(d: real, m: real): real
    requires m != 0.0
  {
    d / m
  }

  /** cosine, given the two norms; None is the dimension mismatch. */
  function Cosine(left: Vector, right: Vector, leftNorm: real, rightNorm: real): Option<real> {
    if |left| != |right| then None
    else if leftNorm == 0.0 || rightNorm == 0.0 then Some(0.0)
    else Some(Ratio(Dot(left, right), leftNorm * rightNorm))
  }

  lemma RatioBounded(d: real, m: real, square: real)
    requires m > 0.0 && m * m == square && d * d <= square
    ensures -1.0 <= Ratio(d, m) <= 1.0
  {
    hide Ratio;
    WithinRoot(d, m);
    QuotientTimes(d, m);
    QuotientBounded(Ratio(d, m), m);
  }

  lemma WithinRoot(d: real, m: real)
    requires m > 0.0 && d * d <= m * m
    ensures -m <= d <= m
  {
    assert (m - d) * (m + d) == m * m - d * d;
    SignOfProduct(m + d, m - d);
    SignOfProduct(m - d, m + d);
  }

  lemma QuotientTimes(d: real, m: real)
    requires m != 0.0
    ensures Ratio(d, m) * m == d
  {
  }

  lemma QuotientBounded(q: real, m: real)
    requires m > 0.0 && -m <= q * m <= m
    ensures -1.0 <= q <= 1.0
  {
    assert (1.0 - q) * m == m - q * m && (1.0 + q) * m == m + q * m;
    SignOfProduct(m, 1.0 - q);
    SignOfProduct(m, 1.0 + q);
  }

  lemma ProductOfRoots(x: real, a: real, y: real, b: real, m: real)
    requires IsRoot(x, a) && IsRoot(y, b) && m == x * y
    ensures m * m == a * b && (x != 0.0 && y != 0.0 ==> m > 0.0)
  {
    assert m * m == (x * x) * (y * y);
  }

  /** Every cosine lies in [-1, 1]. */
  lemma CosineBounded(left: Vector, right: Vector, leftNorm: real, rightNorm: real)
    requires IsRoot(leftNorm, Dot(left, left)) && IsRoot(rightNorm, Dot(right, right))
    ensures var c := Cosine(left, right, leftNorm, rightNorm);
      (c.Some? <==> |left| == |right|) && (c.Some? ==> -1.0 <= c.value <= 1.0)
  {
    hide Dot, Ratio, IsRoot;
    if |left| == |right| && leftNorm != 0.0 && rightNorm != 0.0 {
      CauchySchwarz(left, right);
      ProductOfRoots(leftNorm, Dot(left, left), rightNorm, Dot(right, right), leftNorm * rightNorm);
      RatioBounded(Dot(left, right), leftNorm * rightNorm, Dot(left, left) * Dot(right, right));
    }
  }

  lemma SameRoot(x: real, y: real, square: real)
    requires IsRoot(x, square) && IsRoot(y, square)
    ensures x == y
  {
    assert (x - y) * (x + y) == 0.0;
    NoZeroDivisors(x - y, x + y);
  }

  lemma CancelScale(k: real, d: real, m: real, scaledD: real, scaledM: real)
    requires k > 0.0 && m > 0.0 && scaledD == k * d && scaledM == k * m
    ensures scaledM > 0.0 && Ratio(scaledD, scaledM) == Ratio(d, m)
  {
    var q := d / m;
    assert q * m == d;
    assert q * (k * m) == k * d;
    assert k * m > 0.0;
  }

  lemma ScaleOut(k: real, x: real, y: real, scaled: real, m: real, scaledM: real)
    requires scaled == k * x && m == x * y && scaledM == scaled * y
    ensures scaledM == k * m
  {
  }

  lemma NormScaled(k: real, a: Vector, norm: real, scaledNorm: real)
    requires k > 0.0 && IsRoot(norm, Dot(a, a)) && IsRoot(scaledNorm, Dot(Scaled(k, a), Scaled(k, a)))
    ensures scaledNorm == k * norm && (scaledNorm == 0.0 <==> norm == 0.0)
  {
    DotScaled(k, a, Scaled(k, a));
    DotSymmetric(a, Scaled(k, a));
    DotScaled(k, a, a);
    assert (k * norm) * (k * norm) == k * (k * (norm * norm));
    SameRoot(scaledNorm, k * norm, Dot(Scaled(k, a), Scaled(k, a)));
    if scaledNorm == 0.0 { NoZeroDivisors(k, norm); }
  }

  /** Scaling a side by a positive factor changes nothing. */
  lemma CosineScaled(k: real, left: Vector, right: Vector, leftNorm: real, scaledNorm: real, rightNorm: real)
    requires k > 0.0 && IsRoot(leftNorm, Dot(left, left)) && IsRoot(rightNorm, Dot(right, right))
    requires IsRoot(scaledNorm, Dot(Scaled(k, left), Scaled(k, left)))
    ensures Cosine(Scaled(k, left), right, scaledNorm, rightNorm) == Cosine(left, right, leftNorm, rightNorm)
    ensures Cosine(right, Scaled(k, left), rightNorm, scaledNorm) == Cosine(right, left, rightNorm, leftNorm)
  {
    hide Ratio, Dot, IsRoot, Scaled, Cosine;
    NormScaled(k, left, leftNorm, scaledNorm);
    if |left| == |right| && leftNorm != 0.0 && rightNorm != 0.0 {
      var m, scaledM := leftNorm * rightNorm, scaledNorm * rightNorm;
      ProductOfRoots(leftNorm, Dot(left, left), rightNorm, Dot(right, right), m);
      DotScaled(k, left, right);
      DotSymmetric(Scaled(k, left), right);
      DotSymmetric(left, right);
      ScaleOut(k, leftNorm, rightNorm, scaledNorm, m, scaledM);
      CancelScale(k, Dot(left, right), m, Dot(Scaled(k, left), right), scaledM);
      CosineIs(left, right, leftNorm, rightNorm, m);
      CosineIs(right, left, rightNorm, leftNorm, m);
      CosineIs(Scaled(k, left), right, scaledNorm, rightNorm, scaledM);
      CosineIs(right, Scaled(k, left), rightNorm, scaledNorm, scaledM);
    } else {
      CosineDegenerate(left, right, leftNorm, rightNorm);
      CosineDegenerate(right, left, rightNorm, leftNorm);
      CosineDegenerate(Scaled(k, left), right, scaledNorm, rightNorm);
      CosineDegenerate(right, Scaled(k, left), rightNorm, scaledNorm);
    }
  }

  lemma CosineDegenerate(left: Vector, right: Vector, leftNorm: real, rightNorm: real)
    requires |left| != |right| || leftNorm == 0.0 || rightNorm == 0.0
    ensures Cosine(left, right, leftNorm, rightNorm) == if |left| != |right| then None else Some(0.0)
  {
  }

  lemma CosineIs(left: Vector, right: Vector, leftNorm: real, rightNorm: real, m: real)
    requires |left| == |right| && leftNorm != 0.0 && rightNorm != 0.0 && m == leftNorm * rightNorm && m != 0.0
    ensures Cosine(left, right, leftNorm, rightNorm) == Some(Ratio(Dot(left, right), m))
  {
  }

  /** A cosine of one means the same direction, and nothing else does. */
  lemma CosineOneIff(left: Vector, right: Vector, leftNorm: real, rightNorm: real)
    requires |left| == |right| && IsRoot(leftNorm, Dot(left, left)) && IsRoot(rightNorm, Dot(right, right))
    ensures Cosine(left, right, leftNorm, rightNorm) == Some(1.0)
      <==> leftNorm > 0.0 && rightNorm > 0.0 && Scaled(rightNorm, left) == Scaled(leftNorm, right)
  {
    hide Dot, Combined, Scaled;
    if leftNorm != 0.0 && rightNorm != 0.0 {
      var A, B, D := Dot(left, left), Dot(right, right), Dot(left, right);
      ProductOfRoots(leftNorm, A, rightNorm, B, leftNorm * rightNorm);
      OneIff(D, leftNorm * rightNorm);
      var z := Combined(rightNorm, left, leftNorm, right);
      DotCombined(rightNorm, left, leftNorm, right);
      DifferenceSquared(leftNorm, A, rightNorm, B, D);
      CombinedZeroIff(rightNorm, left, leftNorm, right);
    }
  }

  lemma CombinedZeroIff(p: real, a: Vector, q: real, b: Vector)
    requires |a| == |b|
    ensures var z := Combined(p, a, q, b); Dot(z, z) == 0.0 <==> Scaled(p, a) == Scaled(q, b)
  {
    hide Dot;
    var z := Combined(p, a, q, b);
    DotSelf(z);
    assert forall i :: 0 <= i < |a| ==> Scaled(p, a)[i] == p * a[i] && Scaled(q, b)[i] == q * b[i];
    if Scaled(p, a) == Scaled(q, b) {
      assert forall i :: 0 <= i < |a| ==> z[i] == Scaled(p, a)[i] - Scaled(q, b)[i];
      DotZero(z, z);
    }
    if Dot(z, z) == 0.0 {
      assert forall i :: 0 <= i < |a| ==> z[i] == 0.0;
    }
  }

  lemma OneIff(d: real, m: real)
    requires m > 0.0
    ensures Ratio(d, m) == 1.0 <==> d == m
  {
  }

  lemma DifferenceSquared(x: real, A: real, y: real, B: real, D: real)
    requires IsRoot(x, A) && IsRoot(y, B) && x * y > 0.0
    ensures y * y * A - 2.0 * (y * x) * D + x * x * B == 2.0 * (x * y) * (x * y - D)
    ensures y * y * A - 2.0 * (y * x) * D + x * x * B == 0.0 <==> D == x * y
  {
    var m := x * y;
    assert y * y * A == m * m && x * x * B == m * m && y * x == m;
    SignOfProduct(m, m - D);
  }

  // ---- Pearson ------------------------------------------------------------

  function Mean(a: Vector): real
    requires a != []
  {
    Ratio(Sum(a), |a| as real)
  }

  function Centred(a: Vector): (r: Vector)
    requires a != []
    ensures |r| == |a|
  {
    Affine(1.0, a, -Mean(a))
  }

  /** pearson, given the two deviations; lists that do not match in length give 0. */
  function Pearson(a: Vector, b: Vector, va: real, vb: real): real {
    if |a| == 0 || |a| != |b| then 0.0
    else if va == 0.0 || vb == 0.0 then 0.0
    else Ratio(Dot(Centred(a), Centred(b)), va * vb)
  }

  predicate IsDeviation(v: real, a: Vector) {
    a != [] ==> IsRoot(v, Dot(Centred(a), Centred(a)))
  }

  /** The correlation is the cosine of the centred lists, so it lies in [-1, 1]. */
  lemma PearsonBounded(a: Vector, b: Vector, va: real, vb: real)
    requires IsDeviation(va, a) && IsDeviation(vb, b)
    ensures -1.0 <= Pearson(a, b, va, vb) <= 1.0
    ensures |a| == |b| > 0 ==> Cosine(Centred(a), Centred(b), va, vb) == Some(Pearson(a, b, va, vb))
  {
    if |a| == |b| > 0 { CosineBounded(Centred(a), Centred(b), va, vb); }
  }

  lemma {:induction false} SumAffine(k: real, a: Vector, c: real)
    ensures Sum(Affine(k, a, c)) == k * Sum(a) + (|a| as real) * c
    decreases |a|
  {
    if a != [] {
      SumAffine(k, a[1..], c);
      AffineTail(k, a, c);
      SumOneMore(k, a[0], Sum(a[1..]), |a[1..]| as real, c);
    }
  }

  lemma SumOneMore(k: real, x: real, s: real, n: real, c: real)
    ensures (k * x + c) + (k * s + n * c) == k * (x + s) + (n + 1.0) * c
  {
  }

  lemma MeanAffine(k: real, a: Vector, c: real)
    requires a != []
    ensures Mean(Affine(k, a, c)) == k * Mean(a) + c
  {
    hide Sum, Ratio;
    SumAffine(k, a, c);
    MeanOf(k, Sum(a), |a| as real, c, Sum(Affine(k, a, c)));
  }

  lemma MeanOf(k: real, s: real, n: real, c: real, total: real)
    requires n > 0.0 && total == k * s + n * c
    ensures Ratio(total, n) == k * Ratio(s, n) + c
  {
    hide Ratio;
    QuotientTimes(s, n);
    MeanTimes(k, Ratio(s, n), n, c);
    QuotientUnique(k * Ratio(s, n) + c, total, n);
  }

  lemma MeanTimes(k: real, q: real, n: real, c: real)
    ensures (k * q + c) * n == k * (q * n) + n * c
  {
  }

  lemma QuotientUnique(q: real, d: real, m: real)
    requires m > 0.0 && q * m == d
    ensures Ratio(d, m) == q
  {
  }

  lemma CentredAffine(k: real, a: Vector, c: real)
    requires a != []
    ensures Centred(Affine(k, a, c)) == Scaled(k, Centred(a))
  {
    MeanAffine(k, a, c);
    forall i | 0 <= i < |a| ensures Centred(Affine(k, a, c))[i] == Scaled(k, Centred(a))[i] {
      assert k * a[i] + c - (k * Mean(a) + c) == k * (a[i] - Mean(a));
    }
  }

  /** A change of unit and of origin on one side changes nothing. */
  lemma PearsonAffine(k: real, a: Vector, c: real, b: Vector, va: real, changed: real, vb: real)
    requires k > 0.0 && IsDeviation(va, a) && IsDeviation(vb, b) && IsDeviation(changed, Affine(k, a, c))
    ensures Pearson(Affine(k, a, c), b, changed, vb) == Pearson(a, b, va, vb)
    ensures Pearson(b, Affine(k, a, c), vb, changed) == Pearson(b, a, vb, va)
  {
    if |a| == |b| > 0 {
      CentredAffine(k, a, c);
      CosineScaled(k, Centred(a), Centred(b), va, changed, vb);
      PearsonBounded(a, b, va, vb);
      PearsonBounded(b, a, vb, va);
      PearsonBounded(Affine(k, a, c), b, changed, vb);
      PearsonBounded(b, Affine(k, a, c), vb, changed);
    }
  }
}
