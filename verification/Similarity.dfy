/** The similarity metrics over exact real numbers; square root and exponential are parameters. */
module Similarity {
  import opened Outcomes

  type Vector = seq<real>

  datatype Metric = Cosine | Euclidean | DotProduct

  /** A square root for non-negative numbers, and an exponential function. */
  datatype Numerics = Numerics(sqrt: real -> real, exp: real -> real)

  ghost predicate IsRoot(sqrt: real -> real) {
    forall x {:trigger sqrt(x)} :: x >= 0.0 ==> sqrt(x) >= 0.0 && sqrt(x) * sqrt(x) == x
  }

  ghost predicate IsExp(exp: real -> real) {
    && (forall x {:trigger exp(x)} :: exp(x) > 0.0)
    && (forall x, y {:trigger exp(x), exp(y)} :: y == -x ==> exp(x) * exp(y) == 1.0)
  }

  function Dot(a: Vector, b: Vector): real
    requires |a| == |b|
  {
    if a == [] then 0.0 else Dot(a[..|a| - 1], b[..|b| - 1]) + a[|a| - 1] * b[|b| - 1]
  }

  function Norm(num: Numerics, a: Vector): real {
    num.sqrt(Dot(a, a))
  }

  /** The vector `c * a - d * b`. */
  function Combine(c: real, a: Vector, d: real, b: Vector): (r: Vector)
    requires |a| == |b|
    ensures |r| == |a|
  {
    seq(|a|, i requires 0 <= i < |a| => c * a[i] - d * b[i])
  }

  function Scale(c: real, a: Vector): (r: Vector)
    ensures |r| == |a|
  {
    seq(|a|, i requires 0 <= i < |a| => c * a[i])
  }

  function Difference(a: Vector, b: Vector): (r: Vector)
    requires |a| == |b|
    ensures |r| == |a|
  {
    seq(|a|, i requires 0 <= i < |a| => a[i] - b[i])
  }

  function Clamp(x: real, low: real, high: real): real {
    if x < low then low else if x > high then high else x
  }

  function CosineOf(normA: real, normB: real, dot: real): real {
    if normA == 0.0 || normB == 0.0 then 0.5
    else
      Signs(normA, normB, normA * normB);
      (Clamp(dot / (normA * normB), -1.0, 1.0) + 1.0) / 2.0
  }

  function CosineSimilarity(num: Numerics, a: Vector, b: Vector): real
    requires |a| == |b|
  {
    CosineOf(Norm(num, a), Norm(num, b), Dot(a, b))
  }

  function EuclideanSimilarity(num: Numerics, a: Vector, b: Vector): real
    requires |a| == |b| && IsRoot(num.sqrt)
  {
    var squared := Dot(Difference(a, b), Difference(a, b));
    DotSelf(Difference(a, b));
    1.0 / (1.0 + num.sqrt(squared))
  }

  function Sigmoid(exp: real -> real, x: real): real
    requires IsExp(exp)
  {
    1.0 / (1.0 + exp(-x))
  }

  function DotProductSimilarity(num: Numerics, a: Vector, b: Vector): real
    requires |a| == |b| && IsExp(num.exp)
  {
    Sigmoid(num.exp, Dot(a, b))
  }

  function RawScore(num: Numerics, metric: Metric, a: Vector, b: Vector): real
    requires |a| == |b| && IsRoot(num.sqrt) && IsExp(num.exp)
  {
    match metric
    case Cosine => CosineSimilarity(num, a, b)
    case Euclidean => EuclideanSimilarity(num, a, b)
    case DotProduct => DotProductSimilarity(num, a, b)
  }

  function Score(num: Numerics, metric: Metric, a: Vector, b: Vector): Result<real>
    requires IsRoot(num.sqrt) && IsExp(num.exp)
  {
    if |a| != |b| then Err(InvalidDimension(|a|, |b|))
    else if a == [] then Ok(0.5)
    else Ok(Clamp(RawScore(num, metric, a, b), 0.0, 1.0))
  }

  // Arithmetic

  lemma Signs(x: real, y: real, product: real)
    requires product == x * y
    ensures x == 0.0 || y == 0.0 ==> product == 0.0
    ensures (x > 0.0 && y > 0.0) || (x < 0.0 && y < 0.0) ==> product > 0.0
    ensures (x > 0.0 && y < 0.0) || (x < 0.0 && y > 0.0) ==> product < 0.0
  {
  }

  lemma SquareOfDifference(c: real, x: real, d: real, y: real)
    ensures (c * x - d * y) * (c * x - d * y) == c * c * (x * x) - 2.0 * c * d * (x * y) + d * d * (y * y)
  {
  }

  lemma SquaresOrder(x: real, y: real, xx: real, yy: real)
    requires xx == x * x && yy == y * y && y >= 0.0 && xx <= yy
    ensures -y <= x <= y
  {
    assert (x - y) * (x + y) == xx - yy;
    Signs(x - y, x + y, xx - yy);
  }

  lemma EqualSquares(x: real, y: real, square: real)
    requires x >= 0.0 && y >= 0.0 && x * x == square == y * y
    ensures x == y
  {
    SquaresOrder(x, y, square, square);
    SquaresOrder(y, x, square, square);
  }

  // Dot products

  lemma OneMoreSquare(s: real, x: real, square: real, sum: real)
    requires s >= 0.0 && square == x * x && sum == s + square
    ensures sum >= 0.0
    ensures sum == 0.0 <==> s == 0.0 && x == 0.0
  {
    Signs(x, x, square);
  }

  lemma {:induction false} DotSelf(a: Vector)
    ensures Dot(a, a) >= 0.0
    ensures Dot(a, a) == 0.0 <==> forall i :: 0 <= i < |a| ==> a[i] == 0.0
  {
    if a != [] {
      DotSelf(a[..|a| - 1]);
      var x := a[|a| - 1];
      OneMoreSquare(Dot(a[..|a| - 1], a[..|a| - 1]), x, x * x, Dot(a, a));
      assert forall i :: 0 <= i < |a| - 1 ==> a[i] == a[..|a| - 1][i];
    }
  }

  lemma {:induction false} DotCommutes(a: Vector, b: Vector)
    requires |a| == |b|
    ensures Dot(a, b) == Dot(b, a)
  {
    if a != [] {
      DotCommutes(a[..|a| - 1], b[..|b| - 1]);
    }
  }

  function Quadratic(c: real, d: real, aa: real, ab: real, bb: real): real {
    c * c * aa - 2.0 * c * d * ab + d * d * bb
  }

  lemma {:induction false} DotCombine(c: real, a: Vector, d: real, b: Vector)
    requires |a| == |b|
    ensures var r := Combine(c, a, d, b);
            Dot(r, r) == Quadratic(c, d, Dot(a, a), Dot(a, b), Dot(b, b))
  {
    if a != [] {
      var n := |a| - 1;
      var r := Combine(c, a, d, b);
      var front := Combine(c, a[..n], d, b[..n]);
      forall i | 0 <= i < n
        ensures r[..n][i] == front[i]
      {
      }
      assert r[..n] == front;
      DotCombine(c, a[..n], d, b[..n]);
      CombineTerm(c, d, Dot(a[..n], a[..n]), Dot(a[..n], b[..n]), Dot(b[..n], b[..n]), a[n], b[n], r[n],
                  Dot(a, a), Dot(a, b), Dot(b, b), Dot(r, r));
    }
  }

  lemma CombineTerm(c: real, d: real, aa: real, ab: real, bb: real, x: real, y: real, z: real,
                    sumAA: real, sumAB: real, sumBB: real, sum: real)
    requires sumAA == aa + x * x && sumAB == ab + x * y && sumBB == bb + y * y && z == c * x - d * y
    requires sum == Quadratic(c, d, aa, ab, bb) + z * z
    ensures sum == Quadratic(c, d, sumAA, sumAB, sumBB)
  {
    SquareOfDifference(c, x, d, y);
    AddTerm(c * c, aa, x * x);
    AddTerm(2.0 * c * d, ab, x * y);
    AddTerm(d * d, bb, y * y);
  }

  lemma AddTerm(c: real, x: real, y: real)
    ensures c * (x + y) == c * x + c * y
  {
  }

  lemma {:induction false} DotScale(c: real, a: Vector, b: Vector)
    requires |a| == |b|
    ensures Dot(Scale(c, a), b) == c * Dot(a, b)
  {
    if a != [] {
      var n := |a| - 1;
      forall i | 0 <= i < n
        ensures Scale(c, a)[..n][i] == Scale(c, a[..n])[i]
      {
      }
      assert Scale(c, a)[..n] == Scale(c, a[..n]);
      DotScale(c, a[..n], b[..n]);
      AddTerm(c, Dot(a[..n], b[..n]), a[n] * b[n]);
    }
  }

  function Slack(aa: real, ab: real, bb: real): real {
    bb * (aa * bb - ab * ab)
  }

  /** How far the Cauchy-Schwarz inequality is from equality. */
  lemma Lagrange(a: Vector, b: Vector)
    requires |a| == |b|
    ensures var r := Combine(Dot(b, b), a, Dot(a, b), b);
            Dot(r, r) == Slack(Dot(a, a), Dot(a, b), Dot(b, b))
  {
    var r := Combine(Dot(b, b), a, Dot(a, b), b);
    DotCombine(Dot(b, b), a, Dot(a, b), b);
    LagrangeAlgebra(Dot(a, a), Dot(a, b), Dot(b, b), Dot(r, r));
  }

  lemma LagrangeAlgebra(aa: real, ab: real, bb: real, rr: real)
    requires rr == Quadratic(bb, ab, aa, ab, bb)
    ensures rr == Slack(aa, ab, bb)
  {
    var x, y := aa * bb, ab * ab;
    assert bb * bb * aa == bb * x;
    assert 2.0 * bb * ab * ab == 2.0 * (bb * y);
    assert ab * ab * bb == bb * y;
    assert bb * (x - y) == bb * x - bb * y;
  }

  lemma {:induction false} DotWithZero(a: Vector, b: Vector)
    requires |a| == |b| && forall i :: 0 <= i < |b| ==> b[i] == 0.0
    ensures Dot(a, b) == 0.0
  {
    if a != [] {
      DotWithZero(a[..|a| - 1], b[..|b| - 1]);
    }
  }

  /** The Cauchy-Schwarz inequality for vectors of any length. */
  lemma CauchySchwarz(a: Vector, b: Vector)
    requires |a| == |b|
    ensures Dot(a, b) * Dot(a, b) <= Dot(a, a) * Dot(b, b)
  {
    DotSelf(b);
    if Dot(b, b) == 0.0 {
      DotWithZero(a, b);
    } else {
      Lagrange(a, b);
      DotSelf(Combine(Dot(b, b), a, Dot(a, b), b));
      SlackIsPositive(Dot(a, a), Dot(a, b), Dot(b, b));
    }
  }

  lemma SlackIsPositive(aa: real, ab: real, bb: real)
    requires bb > 0.0 && Slack(aa, ab, bb) >= 0.0
    ensures ab * ab <= aa * bb
  {
  }

  // Cosine similarity

  lemma NormSquared(num: Numerics, a: Vector)
    requires IsRoot(num.sqrt)
    ensures Norm(num, a) >= 0.0 && Norm(num, a) * Norm(num, a) == Dot(a, a)
    ensures Norm(num, a) == 0.0 <==> Dot(a, a) == 0.0
  {
    DotSelf(a);
    Signs(Norm(num, a), Norm(num, a), Dot(a, a));
  }

  lemma SquareOfProduct(x: real, y: real, product: real, xx: real, yy: real)
    requires xx == x * x && yy == y * y && product == x * y
    ensures product * product == xx * yy
  {
  }

  /** What Cauchy-Schwarz says of two norms and a dot product. */
  ghost predicate Bounded(normA: real, normB: real, aa: real, bb: real, dot: real) {
    && normA >= 0.0 && normB >= 0.0
    && normA * normA == aa && normB * normB == bb
    && dot * dot <= aa * bb
  }

  lemma NormsBoundDot(num: Numerics, a: Vector, b: Vector)
    requires IsRoot(num.sqrt) && |a| == |b|
    ensures Bounded(Norm(num, a), Norm(num, b), Dot(a, a), Dot(b, b), Dot(a, b))
  {
    NormSquared(num, a);
    NormSquared(num, b);
    CauchySchwarz(a, b);
  }

  lemma BoundedByProduct(normA: real, normB: real, aa: real, bb: real, dot: real, product: real)
    requires Bounded(normA, normB, aa, bb, dot) && product == normA * normB
    ensures -product <= dot <= product
    ensures product > 0.0 <==> normA != 0.0 && normB != 0.0
  {
    Signs(normA, normB, product);
    SquareOfProduct(normA, normB, product, aa, bb);
    SquaresOrder(dot, product, dot * dot, aa * bb);
  }

  lemma Quotient(x: real, y: real, q: real)
    requires y > 0.0 && q == x / y
    ensures q * y == x
    ensures x <= y <==> q <= 1.0
    ensures -y <= x <==> -1.0 <= q
    ensures x == y <==> q == 1.0
    ensures x == -y <==> q == -1.0
    ensures x == 0.0 <==> q == 0.0
  {
    assert q * y == x;
    Signs(q - 1.0, y, x - y);
    Signs(q + 1.0, y, x + y);
    Signs(q, y, x);
  }

  /** The quotient of two norms' product and a dot product lies in [-1, 1], so that clamping it changes nothing. */
  ghost predicate NeedsNoClamp(normA: real, normB: real, dot: real, product: real) {
    && product > 0.0 && product == normA * normB
    && -1.0 <= dot / product <= 1.0
    && CosineOf(normA, normB, dot) == (dot / product + 1.0) / 2.0
  }

  lemma ClampIsNoOp(normA: real, normB: real, aa: real, bb: real, dot: real, product: real)
    requires Bounded(normA, normB, aa, bb, dot) && product == normA * normB
    requires normA != 0.0 && normB != 0.0
    ensures NeedsNoClamp(normA, normB, dot, product)
  {
    BoundedByProduct(normA, normB, aa, bb, dot, product);
    Quotient(dot, product, dot / product);
  }

  lemma BoundedNeedsNoClamp(normA: real, normB: real, aa: real, bb: real, dot: real)
    requires Bounded(normA, normB, aa, bb, dot) && normA != 0.0 && normB != 0.0
    ensures NeedsNoClamp(normA, normB, dot, normA * normB)
  {
    ClampIsNoOp(normA, normB, aa, bb, dot, normA * normB);
  }

  /** For vectors that are not zero the clamp in the cosine similarity changes nothing. */
  lemma CosineClampIsNoOp(num: Numerics, a: Vector, b: Vector)
    requires IsRoot(num.sqrt) && |a| == |b| && Norm(num, a) != 0.0 && Norm(num, b) != 0.0
    ensures NeedsNoClamp(Norm(num, a), Norm(num, b), Dot(a, b), Norm(num, a) * Norm(num, b))
  {
    NormsBoundDot(num, a, b);
    BoundedNeedsNoClamp(Norm(num, a), Norm(num, b), Dot(a, a), Dot(b, b), Dot(a, b));
  }

  lemma CosineIsSymmetric(num: Numerics, a: Vector, b: Vector)
    requires |a| == |b|
    ensures CosineSimilarity(num, a, b) == CosineSimilarity(num, b, a)
  {
    DotCommutes(a, b);
    CosineOfIsSymmetric(Norm(num, a), Norm(num, b), Dot(a, b));
  }

  lemma CosineOfIsSymmetric(normA: real, normB: real, dot: real)
    ensures CosineOf(normA, normB, dot) == CosineOf(normB, normA, dot)
  {
    assert normA * normB == normB * normA;
  }

  ghost predicate IsTimes(product: real, x: real, y: real) {
    product == x * y
  }

  lemma DotIsTimes(c: real, a: Vector, b: Vector)
    requires |a| == |b|
    ensures IsTimes(Dot(Scale(c, a), b), c, Dot(a, b))
  {
    DotScale(c, a, b);
  }

  lemma NormScales(num: Numerics, c: real, a: Vector)
    requires IsRoot(num.sqrt) && c >= 0.0
    ensures IsTimes(Norm(num, Scale(c, a)), c, Norm(num, a))
  {
    var scaled := Scale(c, a);
    DotScale(c, a, scaled);
    DotCommutes(a, scaled);
    DotScale(c, a, a);
    NormSquared(num, a);
    NormSquared(num, scaled);
    ScaledRoot(c, Norm(num, a), Dot(a, a), Norm(num, scaled), Dot(scaled, scaled), Dot(a, scaled));
  }

  lemma ScaledRoot(c: real, norm: real, aa: real, scaledNorm: real, scaled: real, mixed: real)
    requires c >= 0.0 && norm >= 0.0 && norm * norm == aa && scaledNorm >= 0.0 && scaledNorm * scaledNorm == scaled
    requires mixed == c * aa && scaled == c * mixed
    ensures scaledNorm == c * norm
  {
    var x := c * norm;
    Signs(c, norm, x);
    SquareOfProduct(c, norm, x, c * c, aa);
    EqualSquares(scaledNorm, x, scaled);
  }

  /** Scaling a vector by a positive factor does not change the similarity. */
  lemma CosineIgnoresLength(num: Numerics, c: real, a: Vector, b: Vector)
    requires IsRoot(num.sqrt) && |a| == |b| && c > 0.0
    ensures CosineSimilarity(num, Scale(c, a), b) == CosineSimilarity(num, a, b)
  {
    NormScales(num, c, a);
    DotIsTimes(c, a, b);
    CosineOfScaled(c, Norm(num, a), Norm(num, b), Dot(a, b), Norm(num, Scale(c, a)), Dot(Scale(c, a), b));
  }

  lemma CosineOfScaled(c: real, normA: real, normB: real, dot: real, scaledNorm: real, scaledDot: real)
    requires c > 0.0 && IsTimes(scaledNorm, c, normA) && IsTimes(scaledDot, c, dot)
    ensures CosineOf(scaledNorm, normB, scaledDot) == CosineOf(normA, normB, dot)
  {
    Signs(c, normA, scaledNorm);
    if normA != 0.0 && normB != 0.0 {
      var (product, scaled) := (normA * normB, scaledNorm * normB);
      Signs(normA, normB, product);
      Signs(scaledNorm, normB, scaled);
      ScaledProduct(c, normA, normB, scaledNorm, product, scaled);
      SameQuotient(c, dot, product, scaledDot, scaled, dot / product);
      CosineOfQuotient(normA, normB, dot, product, dot / product);
      CosineOfQuotient(scaledNorm, normB, scaledDot, scaled, dot / product);
    }
  }

  lemma ScaledProduct(c: real, x: real, y: real, cx: real, xy: real, cxy: real)
    requires cx == c * x && xy == x * y && cxy == cx * y
    ensures cxy == c * xy
  {
  }

  lemma CosineOfQuotient(normA: real, normB: real, dot: real, product: real, q: real)
    requires normA != 0.0 && normB != 0.0 && product == normA * normB && product != 0.0 && dot / product == q
    ensures CosineOf(normA, normB, dot) == (Clamp(q, -1.0, 1.0) + 1.0) / 2.0
  {
  }

  lemma SameQuotient(c: real, x: real, y: real, cx: real, cy: real, q: real)
    requires c != 0.0 && y != 0.0 && cy != 0.0 && cx == c * x && cy == c * y && q == x / y
    ensures cx / cy == q
  {
    assert q * y == x;
    assert q * cy == cx;
  }

  // The extreme scores

  /** Cauchy-Schwarz holds with equality. */
  ghost predicate Tight(aa: real, bb: real, dot: real) {
    dot * dot == aa * bb
  }

  lemma ExtremeScores(normA: real, normB: real, aa: real, bb: real, dot: real)
    requires Bounded(normA, normB, aa, bb, dot) && normA != 0.0 && normB != 0.0
    ensures CosineOf(normA, normB, dot) == 1.0 <==> dot > 0.0 && Tight(aa, bb, dot)
    ensures CosineOf(normA, normB, dot) == 0.0 <==> dot < 0.0 && Tight(aa, bb, dot)
    ensures CosineOf(normA, normB, dot) == 0.5 <==> dot == 0.0
  {
    var product := normA * normB;
    ClampIsNoOp(normA, normB, aa, bb, dot, product);
    Quotient(dot, product, dot / product);
    SquareOfProduct(normA, normB, product, aa, bb);
    TightExactly(aa, bb, dot, product, aa * bb);
  }

  lemma TightExactly(aa: real, bb: real, dot: real, product: real, square: real)
    requires product > 0.0 && product * product == square && square == aa * bb
    ensures Tight(aa, bb, dot) <==> dot == product || dot == -product
  {
    var negated := -dot;
    assert negated * negated == dot * dot;
    if Tight(aa, bb, dot) {
      if dot >= 0.0 {
        EqualSquares(dot, product, square);
      } else {
        EqualSquares(negated, product, square);
      }
    }
  }

  ghost predicate Multiple(a: Vector, b: Vector, c: real) {
    a == Scale(c, b)
  }

  /** Equality in Cauchy-Schwarz makes one vector a multiple of the other. */
  lemma TightMeansMultiple(a: Vector, b: Vector, q: real)
    requires |a| == |b| && Dot(b, b) > 0.0 && Tight(Dot(a, a), Dot(b, b), Dot(a, b))
    requires q == Dot(a, b) / Dot(b, b)
    ensures Multiple(a, b, q)
  {
    var r := Combine(Dot(b, b), a, Dot(a, b), b);
    Lagrange(a, b);
    NoSlack(Dot(a, a), Dot(a, b), Dot(b, b));
    DotSelf(r);
    ZeroCombination(Dot(b, b), a, Dot(a, b), b, q);
  }

  lemma NoSlack(aa: real, ab: real, bb: real)
    requires Tight(aa, bb, ab)
    ensures Slack(aa, ab, bb) == 0.0
  {
  }

  lemma ZeroCombination(c: real, a: Vector, d: real, b: Vector, q: real)
    requires |a| == |b| && c > 0.0 && q == d / c
    requires forall i :: 0 <= i < |a| ==> Combine(c, a, d, b)[i] == 0.0
    ensures Multiple(a, b, q)
  {
    forall i | 0 <= i < |a|
      ensures a[i] == Scale(q, b)[i]
    {
      assert Combine(c, a, d, b)[i] == 0.0;
      SolveFor(c, a[i], d, b[i], q);
    }
  }

  lemma SolveFor(c: real, x: real, d: real, y: real, q: real)
    requires c > 0.0 && c * x - d * y == 0.0 && q == d / c
    ensures x == q * y
  {
    assert q * c == d;
    assert c * (x - q * y) == c * x - (q * c) * y;
    Signs(c, x - q * y, 0.0);
  }

  lemma ScaleIsTight(c: real, b: Vector)
    ensures IsTimes(Dot(Scale(c, b), b), c, Dot(b, b))
    ensures Tight(Dot(Scale(c, b), Scale(c, b)), Dot(b, b), Dot(Scale(c, b), b))
  {
    var scaled := Scale(c, b);
    DotScale(c, b, scaled);
    DotCommutes(b, scaled);
    DotScale(c, b, b);
    MultipleAlgebra(c, Dot(scaled, scaled), Dot(b, scaled), Dot(b, b));
  }

  lemma MultipleMeansTight(a: Vector, b: Vector, c: real)
    requires |a| == |b| && Multiple(a, b, c)
    ensures IsTimes(Dot(a, b), c, Dot(b, b)) && Tight(Dot(a, a), Dot(b, b), Dot(a, b))
  {
    ScaleIsTight(c, b);
  }

  lemma MultipleAlgebra(c: real, aa: real, ab: real, bb: real)
    requires ab == c * bb && aa == c * ab
    ensures Tight(aa, bb, ab)
  {
    assert ab * ab == (c * ab) * bb;
  }

  lemma PositiveMultiple(num: Numerics, a: Vector, b: Vector)
    requires |a| == |b| && Dot(b, b) > 0.0
    ensures Tight(Dot(a, a), Dot(b, b), Dot(a, b)) && Dot(a, b) > 0.0 <==> exists c :: c > 0.0 && Multiple(a, b, c)
    ensures Tight(Dot(a, a), Dot(b, b), Dot(a, b)) && Dot(a, b) < 0.0 <==> exists c :: c < 0.0 && Multiple(a, b, c)
  {
    var q := Dot(a, b) / Dot(b, b);
    QuotientSign(Dot(a, b), Dot(b, b), q);
    if Tight(Dot(a, a), Dot(b, b), Dot(a, b)) {
      TightMeansMultiple(a, b, q);
    }
    forall c | Multiple(a, b, c)
      ensures Tight(Dot(a, a), Dot(b, b), Dot(a, b))
      ensures c > 0.0 ==> Dot(a, b) > 0.0
      ensures c < 0.0 ==> Dot(a, b) < 0.0
    {
      MultipleMeansTight(a, b, c);
      Signs(c, Dot(b, b), Dot(a, b));
    }
  }

  lemma QuotientSign(x: real, y: real, q: real)
    requires y > 0.0 && q == x / y
    ensures x > 0.0 <==> q > 0.0
    ensures x < 0.0 <==> q < 0.0
  {
    assert q * y == x;
    Signs(q, y, x);
  }

  /**
   * For vectors that are not zero, the similarity is one exactly for positive multiples, zero exactly for negative
   * multiples, and one half exactly for orthogonal vectors.
   */
  lemma CosineExtremes(num: Numerics, a: Vector, b: Vector)
    requires IsRoot(num.sqrt) && |a| == |b| && Norm(num, a) != 0.0 && Norm(num, b) != 0.0
    ensures CosineSimilarity(num, a, b) == 1.0 <==> exists c :: c > 0.0 && Multiple(a, b, c)
    ensures CosineSimilarity(num, a, b) == 0.0 <==> exists c :: c < 0.0 && Multiple(a, b, c)
    ensures CosineSimilarity(num, a, b) == 0.5 <==> Dot(a, b) == 0.0
  {
    NormsBoundDot(num, a, b);
    NormSquared(num, b);
    DotSelf(b);
    ExtremeScores(Norm(num, a), Norm(num, b), Dot(a, a), Dot(b, b), Dot(a, b));
    PositiveMultiple(num, a, b);
  }

  // Euclidean and dot-product similarity

  lemma DifferenceSquared(a: Vector, b: Vector)
    requires |a| == |b|
    ensures Dot(Difference(a, b), Difference(a, b)) == Dot(Difference(b, a), Difference(b, a)) >= 0.0
    ensures Dot(Difference(a, b), Difference(a, b)) == 0.0 <==> a == b
  {
    var (d, e) := (Difference(a, b), Difference(b, a));
    DotSelf(d);
    assert e == Scale(-1.0, d);
    DotScale(-1.0, d, e);
    DotCommutes(d, e);
    DotScale(-1.0, d, d);
    if forall i :: 0 <= i < |a| ==> d[i] == 0.0 {
      assert forall i :: 0 <= i < |a| ==> d[i] == 0.0 ==> a[i] == b[i];
    }
  }

  /** The score is symmetric, lies in (0, 1], and is 1 exactly for equal vectors. */
  lemma EuclideanExtremes(num: Numerics, a: Vector, b: Vector)
    requires IsRoot(num.sqrt) && |a| == |b|
    ensures EuclideanSimilarity(num, a, b) == EuclideanSimilarity(num, b, a)
    ensures 0.0 < EuclideanSimilarity(num, a, b) <= 1.0
    ensures EuclideanSimilarity(num, a, b) == 1.0 <==> a == b
  {
    DifferenceSquared(a, b);
    var squared := Dot(Difference(a, b), Difference(a, b));
    InverseOf(num.sqrt(squared), 1.0 / (1.0 + num.sqrt(squared)));
    Signs(num.sqrt(squared), num.sqrt(squared), squared);
  }

  lemma InverseOf(d: real, q: real)
    requires d >= 0.0 && q == 1.0 / (1.0 + d)
    ensures 0.0 < q <= 1.0 && (q == 1.0 <==> d == 0.0)
  {
    assert q * (1.0 + d) == 1.0;
    Signs(q, 1.0 + d, 1.0);
    Signs(1.0 - q, 1.0 + d, d);
  }

  /** A score is higher exactly when the distance is smaller. */
  lemma EuclideanRanksByDistance(num: Numerics, a: Vector, b: Vector, c: Vector)
    requires IsRoot(num.sqrt) && |a| == |b| == |c|
    ensures EuclideanSimilarity(num, a, b) < EuclideanSimilarity(num, a, c)
       <==> Dot(Difference(a, b), Difference(a, b)) > Dot(Difference(a, c), Difference(a, c))
  {
    var x := Dot(Difference(a, b), Difference(a, b));
    var y := Dot(Difference(a, c), Difference(a, c));
    DifferenceSquared(a, b);
    DifferenceSquared(a, c);
    RootsOrder(num.sqrt(x), num.sqrt(y), x, y);
    InversesOrder(num.sqrt(x), num.sqrt(y), 1.0 / (1.0 + num.sqrt(x)), 1.0 / (1.0 + num.sqrt(y)));
  }

  lemma RootsOrder(x: real, y: real, xx: real, yy: real)
    requires x >= 0.0 && y >= 0.0 && xx == x * x && yy == y * y
    ensures x > y <==> xx > yy
  {
    assert (x - y) * (x + y) == xx - yy;
    Signs(x - y, x + y, xx - yy);
  }

  lemma InversesOrder(d: real, e: real, p: real, q: real)
    requires d >= 0.0 && e >= 0.0 && p == 1.0 / (1.0 + d) && q == 1.0 / (1.0 + e)
    ensures p < q <==> d > e
  {
    InverseOf(d, p);
    InverseOf(e, q);
    assert p * (1.0 + d) == 1.0 && q * (1.0 + e) == 1.0;
    var gap := q * (1.0 + d) - 1.0;
    assert gap == (q - p) * (1.0 + d);
    assert gap == q * (d - e);
    Signs(q - p, 1.0 + d, gap);
    Signs(q, d - e, gap);
  }

  /** The score lies strictly between 0 and 1, and negating a vector turns it into its complement. */
  lemma DotProductComplement(num: Numerics, a: Vector, b: Vector)
    requires IsExp(num.exp) && |a| == |b|
    ensures 0.0 < DotProductSimilarity(num, a, b) < 1.0
    ensures DotProductSimilarity(num, a, b) + DotProductSimilarity(num, Scale(-1.0, a), b) == 1.0
  {
    NegatedDot(a, b);
    SigmoidComplement(num.exp, Dot(a, b), Dot(Scale(-1.0, a), b));
  }

  lemma NegatedDot(a: Vector, b: Vector)
    requires |a| == |b|
    ensures Dot(Scale(-1.0, a), b) == -Dot(a, b)
  {
    DotScale(-1.0, a, b);
  }

  lemma SigmoidComplement(exp: real -> real, x: real, y: real)
    requires IsExp(exp) && y == -x
    ensures 0.0 < Sigmoid(exp, x) < 1.0 && Sigmoid(exp, x) + Sigmoid(exp, y) == 1.0
  {
    Complement(exp(y), exp(x), Sigmoid(exp, x), Sigmoid(exp, y));
  }

  lemma Complement(x: real, y: real, p: real, q: real)
    requires x > 0.0 && y > 0.0 && x * y == 1.0 && p == 1.0 / (1.0 + x) && q == 1.0 / (1.0 + y)
    ensures 0.0 < p < 1.0 && p + q == 1.0
  {
    InverseOf(x, p);
    assert p * (1.0 + x) == 1.0 && q * (1.0 + y) == 1.0;
    assert y * (1.0 + x) == y + 1.0;
    SameQuotient(y, 1.0, 1.0 + x, y, 1.0 + y, p);
    assert y / (1.0 + y) == p;
    assert (p + q) * (1.0 + y) == 1.0 + y;
    Signs(p + q - 1.0, 1.0 + y, 0.0);
  }

  // The score as users see it

  /**
   * Scores lie in [0, 1] without the final clamp, empty vectors score one half, and vectors of different lengths
   * are an error.
   */
  lemma ScoreIsNormalized(num: Numerics, metric: Metric, a: Vector, b: Vector)
    requires IsRoot(num.sqrt) && IsExp(num.exp)
    ensures Score(num, metric, a, b).Ok? <==> |a| == |b|
    ensures |a| != |b| ==> Score(num, metric, a, b) == Err(InvalidDimension(|a|, |b|))
    ensures a == b == [] ==> Score(num, metric, a, b) == Ok(0.5)
    ensures |a| == |b| ==> 0.0 <= Score(num, metric, a, b).value <= 1.0
    ensures |a| == |b| && a != [] ==> Score(num, metric, a, b).value == RawScore(num, metric, a, b)
  {
    if |a| == |b| && a != [] {
      match metric
      case Cosine => CosineInRange(num, a, b);
      case Euclidean => EuclideanExtremes(num, a, b);
      case DotProduct => DotProductComplement(num, a, b);
    }
  }

  lemma CosineInRange(num: Numerics, a: Vector, b: Vector)
    requires |a| == |b|
    ensures 0.0 <= CosineSimilarity(num, a, b) <= 1.0
  {
  }

  lemma ScoreIsSymmetric(num: Numerics, metric: Metric, a: Vector, b: Vector)
    requires IsRoot(num.sqrt) && IsExp(num.exp) && |a| == |b|
    ensures Score(num, metric, a, b) == Score(num, metric, b, a)
  {
    RawScoreIsSymmetric(num, metric, a, b);
  }

  lemma RawScoreIsSymmetric(num: Numerics, metric: Metric, a: Vector, b: Vector)
    requires IsRoot(num.sqrt) && IsExp(num.exp) && |a| == |b|
    ensures RawScore(num, metric, a, b) == RawScore(num, metric, b, a)
  {
    match metric
    case Cosine => CosineIsSymmetric(num, a, b);
    case Euclidean => EuclideanExtremes(num, a, b);
    case DotProduct => DotCommutes(a, b);
  }

  /** A vector that is not zero scores 1 with itself and 0 with its negation. */
  lemma CosineOfSelf(num: Numerics, a: Vector)
    requires IsRoot(num.sqrt) && IsExp(num.exp) && exists i :: 0 <= i < |a| && a[i] != 0.0
    ensures Score(num, Cosine, a, a) == Ok(1.0) && Score(num, Cosine, a, Scale(-1.0, a)) == Ok(0.0)
  {
    var negated := Scale(-1.0, a);
    DotSelf(a);
    NormSquared(num, a);
    assert exists i :: 0 <= i < |a| && negated[i] != 0.0 by {
      var i :| 0 <= i < |a| && a[i] != 0.0;
      assert negated[i] == -a[i];
    }
    DotSelf(negated);
    NormSquared(num, negated);
    assert Multiple(a, a, 1.0);
    assert Multiple(a, negated, -1.0);
    CosineExtremes(num, a, a);
    CosineExtremes(num, a, negated);
  }

  // What each metric measures, on the score

  /** With the two following, this says what a dot product is. */
  lemma {:induction false} DotConcat(a: Vector, b: Vector, c: Vector, d: Vector)
    requires |a| == |b| && |c| == |d|
    ensures Dot(a + c, b + d) == Dot(a, b) + Dot(c, d)
    decreases |c|
  {
    if c == [] {
      assert a + c == a && b + d == b;
    } else {
      var n := |c| - 1;
      DotConcat(a, b, c[..n], d[..n]);
      assert (a + c)[..|a| + n] == a + c[..n] && (b + d)[..|a| + n] == b + d[..n];
    }
  }

  lemma DotOfOne(x: real, y: real)
    ensures Dot([], []) == 0.0 && Dot([x], [y]) == x * y
  {
    assert [x][..0] == [] && [y][..0] == [];
  }

  predicate IsZero(a: Vector) {
    forall i :: 0 <= i < |a| ==> a[i] == 0.0
  }

  lemma ZeroNorm(num: Numerics, a: Vector)
    requires IsRoot(num.sqrt)
    ensures Norm(num, a) == 0.0 <==> IsZero(a)
  {
    NormSquared(num, a);
    DotSelf(a);
  }

  /**
   * The cosine score is 1 exactly for positive multiples, 0 exactly for negative multiples and one half exactly for
   * orthogonal vectors, when neither is zero; if one is, it is one half.
   */
  lemma CosineScores(num: Numerics, a: Vector, b: Vector)
    requires IsRoot(num.sqrt) && IsExp(num.exp) && |a| == |b| > 0
    ensures var score := Score(num, Cosine, a, b);
            if IsZero(a) || IsZero(b) then score == Ok(0.5)
            else
              && (score == Ok(1.0) <==> exists c :: c > 0.0 && Multiple(a, b, c))
              && (score == Ok(0.0) <==> exists c :: c < 0.0 && Multiple(a, b, c))
              && (score == Ok(0.5) <==> Dot(a, b) == 0.0)
  {
    ScoreIsNormalized(num, Cosine, a, b);
    ZeroNorm(num, a);
    ZeroNorm(num, b);
    if !IsZero(a) && !IsZero(b) {
      CosineExtremes(num, a, b);
    }
  }

  lemma NormIs(num: Numerics, a: Vector, length: real)
    requires IsRoot(num.sqrt) && length >= 0.0 && length * length == Dot(a, a)
    ensures Norm(num, a) == length
  {
    NormSquared(num, a);
    EqualSquares(Norm(num, a), length, Dot(a, a));
  }

  lemma ProductAssociates(x: real, y: real, z: real, xy: real, yz: real)
    requires xy == x * y && yz == y * z
    ensures xy * z == x * yz
  {
  }

  lemma QuotientOfQuotient(x: real, y: real, z: real, product: real, w: real, q: real)
    requires y > 0.0 && z > 0.0 && product == z * y && product > 0.0 && w == x / y && q == w / z
    ensures q == x / product
  {
    assert w * y == x && q * z == w;
    ProductAssociates(q, z, y, w, product);
    assert q * product == x;
  }

  lemma CosineOfExactly(normA: real, normB: real, aa: real, bb: real, dot: real, w: real, cosine: real)
    requires Bounded(normA, normB, aa, bb, dot) && normA > 0.0 && normB > 0.0
    requires w == dot / normA && cosine == w / normB
    ensures CosineOf(normA, normB, dot) == (cosine + 1.0) / 2.0
  {
    var product := normA * normB;
    ClampIsNoOp(normA, normB, aa, bb, dot, product);
    QuotientOfQuotient(dot, normA, normB, product, w, cosine);
  }

  lemma ScoreIsCosine(num: Numerics, a: Vector, b: Vector)
    requires IsRoot(num.sqrt) && IsExp(num.exp) && |a| == |b| > 0
    ensures Score(num, Cosine, a, b) == Ok(CosineOf(Norm(num, a), Norm(num, b), Dot(a, b)))
  {
    ScoreIsNormalized(num, Cosine, a, b);
  }

  /** In between it is half of one plus the cosine, which is the dot product by both lengths. */
  lemma CosineScoreExactly(num: Numerics, a: Vector, b: Vector, lengthA: real, lengthB: real)
    requires IsRoot(num.sqrt) && IsExp(num.exp) && |a| == |b| > 0
    requires lengthA > 0.0 && lengthA * lengthA == Dot(a, a) && lengthB > 0.0 && lengthB * lengthB == Dot(b, b)
    ensures Score(num, Cosine, a, b) == Ok((Dot(a, b) / lengthA / lengthB + 1.0) / 2.0)
  {
    ScoreIsCosine(num, a, b);
    NormsBoundDot(num, a, b);
    NormIs(num, a, lengthA);
    NormIs(num, b, lengthB);
    CosineOfExactly(lengthA, lengthB, Dot(a, a), Dot(b, b), Dot(a, b), Dot(a, b) / lengthA,
                    Dot(a, b) / lengthA / lengthB);
  }

  lemma SquaredDistance(a: Vector, b: Vector)
    requires |a| == |b|
    ensures Dot(Difference(a, b), Difference(a, b)) == Dot(a, a) - 2.0 * Dot(a, b) + Dot(b, b) >= 0.0
  {
    assert Difference(a, b) == Combine(1.0, a, 1.0, b);
    DotCombine(1.0, a, 1.0, b);
    DotSelf(Difference(a, b));
  }

  lemma ScoreIsEuclidean(num: Numerics, a: Vector, b: Vector)
    requires IsRoot(num.sqrt) && IsExp(num.exp) && |a| == |b| > 0
    ensures Score(num, Euclidean, a, b) == Ok(EuclideanSimilarity(num, a, b))
  {
    ScoreIsNormalized(num, Euclidean, a, b);
  }

  /** The Euclidean score is one by one plus the distance. */
  lemma EuclideanScoreExactly(num: Numerics, a: Vector, b: Vector, distance: real)
    requires IsRoot(num.sqrt) && IsExp(num.exp) && |a| == |b| > 0
    requires distance >= 0.0 && distance * distance == Dot(a, a) - 2.0 * Dot(a, b) + Dot(b, b)
    ensures Score(num, Euclidean, a, b) == Ok(1.0 / (1.0 + distance))
  {
    ScoreIsEuclidean(num, a, b);
    SquaredDistance(a, b);
    var squared := Dot(Difference(a, b), Difference(a, b));
    RootIs(num.sqrt, squared, distance);
  }

  lemma RootIs(sqrt: real -> real, square: real, root: real)
    requires IsRoot(sqrt) && root >= 0.0 && square == root * root >= 0.0
    ensures sqrt(square) == root
  {
    EqualSquares(sqrt(square), root, square);
  }

  /** So it is 1 exactly for equal vectors, and of two vectors the closer one scores higher. */
  lemma EuclideanScores(num: Numerics, a: Vector, b: Vector, c: Vector)
    requires IsRoot(num.sqrt) && IsExp(num.exp) && |a| == |b| == |c| > 0
    ensures Score(num, Euclidean, a, b) == Ok(1.0) <==> a == b
    ensures Score(num, Euclidean, a, b).value < Score(num, Euclidean, a, c).value
       <==> Dot(Difference(a, b), Difference(a, b)) > Dot(Difference(a, c), Difference(a, c))
  {
    ScoreIsEuclidean(num, a, b);
    ScoreIsEuclidean(num, a, c);
    EuclideanExtremes(num, a, b);
    EuclideanRanksByDistance(num, a, b, c);
  }

  ghost predicate Increasing(exp: real -> real) {
    forall x, y {:trigger exp(x), exp(y)} :: x < y ==> exp(x) < exp(y)
  }

  lemma ScoreIsSigmoid(num: Numerics, a: Vector, b: Vector, dot: real)
    requires IsRoot(num.sqrt) && IsExp(num.exp) && |a| == |b| > 0 && dot == Dot(a, b)
    ensures Score(num, DotProduct, a, b) == Ok(Sigmoid(num.exp, dot))
  {
    ScoreIsNormalized(num, DotProduct, a, b);
  }

  /** The dot-product score is the logistic function of the dot product. */
  lemma DotProductScoreExactly(num: Numerics, a: Vector, b: Vector)
    requires IsRoot(num.sqrt) && IsExp(num.exp) && |a| == |b| > 0
    ensures num.exp(-Dot(a, b)) > 0.0
    ensures Score(num, DotProduct, a, b) == Ok(1.0 / (1.0 + num.exp(-Dot(a, b))))
  {
    ScoreIsSigmoid(num, a, b, Dot(a, b));
  }

  lemma SigmoidOrder(exp: real -> real, x: real, y: real)
    requires IsExp(exp) && Increasing(exp)
    ensures Sigmoid(exp, x) < Sigmoid(exp, y) <==> x < y
  {
    assert x < y ==> -y < -x;
    assert y < x ==> -x < -y;
    InversesOrder(exp(-x), exp(-y), Sigmoid(exp, x), Sigmoid(exp, y));
  }

  lemma SigmoidOfZero(exp: real -> real)
    requires IsExp(exp)
    ensures Sigmoid(exp, 0.0) == 0.5
  {
    assert exp(0.0) * exp(0.0) == 1.0;
    EqualSquares(exp(0.0), 1.0, 1.0);
    assert -0.0 == 0.0;
  }

  /** The score as a number. */
  lemma DotProductValue(num: Numerics, a: Vector, b: Vector, dot: real, value: real)
    requires IsRoot(num.sqrt) && IsExp(num.exp) && |a| == |b| > 0 && dot == Dot(a, b)
    requires value == Sigmoid(num.exp, dot)
    ensures Score(num, DotProduct, a, b) == Ok(value)
  {
    ScoreIsSigmoid(num, a, b, dot);
  }

  /** With an increasing exponential, of two vectors the one with the larger dot product scores higher. */
  lemma DotProductRanks(num: Numerics, a: Vector, b: Vector, c: Vector)
    requires IsRoot(num.sqrt) && IsExp(num.exp) && Increasing(num.exp) && |a| == |b| == |c| > 0
    ensures Score(num, DotProduct, a, b).value < Score(num, DotProduct, a, c).value <==> Dot(a, b) < Dot(a, c)
  {
    var (x, y) := (Dot(a, b), Dot(a, c));
    var (p, q) := (Sigmoid(num.exp, x), Sigmoid(num.exp, y));
    assert p < q <==> x < y by {
      SigmoidOrder(num.exp, x, y);
    }
    DotProductValue(num, a, b, x, p);
    DotProductValue(num, a, c, y, q);
  }

  /**
   * A score is above one half exactly for a positive dot product, and negating a vector turns its score into the
   * complement.
   */
  lemma DotProductScores(num: Numerics, a: Vector, b: Vector)
    requires IsRoot(num.sqrt) && IsExp(num.exp) && Increasing(num.exp) && |a| == |b| > 0
    ensures Score(num, DotProduct, a, b).value > 0.5 <==> Dot(a, b) > 0.0
    ensures Score(num, DotProduct, a, b).value + Score(num, DotProduct, Scale(-1.0, a), b).value == 1.0
  {
    var x := Dot(a, b);
    var p := Sigmoid(num.exp, x);
    assert p > 0.5 <==> x > 0.0 by {
      SigmoidOrder(num.exp, 0.0, x);
      SigmoidOfZero(num.exp);
    }
    DotProductValue(num, a, b, x, p);
    ComplementaryScores(num, a, b);
  }

  lemma ComplementaryScores(num: Numerics, a: Vector, b: Vector)
    requires IsRoot(num.sqrt) && IsExp(num.exp) && |a| == |b| > 0
    ensures Score(num, DotProduct, a, b).value + Score(num, DotProduct, Scale(-1.0, a), b).value == 1.0
  {
    ScoreIsNormalized(num, DotProduct, a, b);
    ScoreIsNormalized(num, DotProduct, Scale(-1.0, a), b);
    DotProductComplement(num, a, b);
  }
}
