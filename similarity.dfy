/** `cosine_similarity`: the dot product over the shared words, the squared
    magnitudes, and the zero-magnitude guard. The square roots and the float
    division are not computed: a score keeps the three exact integers, and
    scores are compared through the exact square of the cosine. */
module Similarity {
  import opened Builtins
  import opened BagOfWords

  type PositiveInt = x: int | x > 0 witness 1

  /** What `cosine_similarity` returns: `ZeroMagnitude` is the guarded `0.0`
      for an empty vector; otherwise `dot / (sqrt(magSq1) * sqrt(magSq2))`. */
  datatype Score = ZeroMagnitude | Cosine(dot: nat, magSq1: PositiveInt, magSq2: PositiveInt)

  /** The test `score == 0.0`. */
  predicate IsZero(s: Score) {
    s.ZeroMagnitude? || s.dot == 0
  }

  /** The square of the exact cosine; it orders scores as the exact cosines
      do, since those are never negative. */
  function SquaredValue(s: Score): real {
    match s
    case ZeroMagnitude => 0.0
    case Cosine(d, m1, m2) => (d * d) as real / (m1 * m2) as real
  }

  /** The square is zero exactly for a zero score, and positive otherwise. */
  lemma ZeroIffKeyZero(s: Score)
    ensures IsZero(s) <==> SquaredValue(s) == 0.0
    ensures SquaredValue(s) >= 0.0
  {
    if s.Cosine? {
      NonNegativeProduct(s.dot, s.dot);
      PositiveProduct(s.magSq1, s.magSq2);
      if s.dot != 0 {
        PositiveProduct(s.dot, s.dot);
      }
    }
  }

  /** `v1.keys() & v2.keys()`, listed in the order of `v1`. */
  function CommonKeys(v1: Counter, v2: Counter): (ws: seq<string>)
    ensures forall w :: w in ws <==> w in v1.order && w in v2.counts
    ensures multiset(ws) <= multiset(v1.order)
    decreases |v1.order|
  {
    if v1.order == [] then []
    else
      var rest := CommonKeys(Counter(v1.order[1..], v1.counts), v2);
      assert v1.order == [v1.order[0]] + v1.order[1..];
      (if v1.order[0] in v2.counts then [v1.order[0]] else []) + rest
  }

  function ProductOf(v1: Counter, v2: Counter): string -> int {
    w => Get(v1, w) * Get(v2, w)
  }

  function SquareOf(v: Counter): string -> int {
    w => Get(v, w) * Get(v, w)
  }

  /** `sum(v1[w] * v2[w] for w in v1.keys() & v2.keys())`. */
  function Dot(v1: Counter, v2: Counter): (d: nat) {
    ProductsNonNegative(CommonKeys(v1, v2), v1, v2);
    Sum(CommonKeys(v1, v2), ProductOf(v1, v2))
  }

  /** `sum(c * c for c in v.values())`, the square of `mag`. */
  function MagnitudeSquared(v: Counter): (m: nat) {
    SquaresNonNegative(v.order, v);
    Sum(v.order, SquareOf(v))
  }

  lemma SquaresNonNegative(xs: seq<string>, v: Counter)
    ensures Sum(xs, SquareOf(v)) >= 0
  {
    forall x | x in xs
      ensures SquareOf(v)(x) >= 0
    {
      NonNegativeProduct(Get(v, x), Get(v, x));
    }
    SumNonNegative(xs, SquareOf(v));
  }

  lemma ProductsNonNegative(xs: seq<string>, v1: Counter, v2: Counter)
    ensures Sum(xs, ProductOf(v1, v2)) >= 0
  {
    forall x | x in xs
      ensures ProductOf(v1, v2)(x) >= 0
    {
      NonNegativeProduct(Get(v1, x), Get(v2, x));
    }
    SumNonNegative(xs, ProductOf(v1, v2));
  }

  /** `cosine_similarity(v1, v2)`. The result is `0.0` exactly when the
      vectors share no weight or one of them is empty, and its square lies
      in [0, 1]. */
  function CosineSimilarity(v1: Counter, v2: Counter): (s: Score)
    requires Valid(v1) && Valid(v2)
    ensures IsZero(s) <==> Dot(v1, v2) == 0 || MagnitudeSquared(v1) == 0 || MagnitudeSquared(v2) == 0
    ensures 0.0 <= SquaredValue(s) <= 1.0
  {
    var dot := Dot(v1, v2);
    var m1 := MagnitudeSquared(v1);
    var m2 := MagnitudeSquared(v2);
    if m1 == 0 || m2 == 0 then ZeroMagnitude
    else
      CauchySchwarz(v1, v2);
      CosineAtMostOne(dot, m1, m2);
      Cosine(dot, m1, m2)
  }

  lemma CosineAtMostOne(d: nat, m1: PositiveInt, m2: PositiveInt)
    requires d * d <= m1 * m2
    ensures 0.0 <= SquaredValue(Cosine(d, m1, m2)) <= 1.0
  {
    NonNegativeProduct(d, d);
    PositiveProduct(m1, m2);
    RatioAtMostOne(d * d, m1 * m2);
  }

  lemma RatioAtMostOne(a: int, b: int)
    requires b > 0 && 0 <= a <= b
    ensures 0.0 <= a as real / b as real <= 1.0
  {
  }

  /** The elementary step of Cauchy–Schwarz: if `c^2 <= a*b` for
      non-negative `a` and `b`, then adding the terms `x*x`, `y*y` and `x*y`
      keeps the inequality. */
  lemma CauchySchwarzStep(x: int, y: int, a: int, b: int, c: int)
    requires a >= 0 && b >= 0 && c * c <= a * b
    ensures (x * y + c) * (x * y + c) <= (x * x + a) * (y * y + b)
  {
    ExpandSquare(x * y, c);
    ExpandProduct(x * x, a, y * y, b);
    assert x * y * (x * y) == x * x * (y * y);
    CrossTerm(x, y, a, b, c);
  }

  /** The cross term: `2*x*y*c <= x*x*b + a*y*y`. */
  lemma CrossTerm(x: int, y: int, a: int, b: int, c: int)
    requires a >= 0 && b >= 0 && c * c <= a * b
    ensures 2 * (x * y) * c <= x * x * b + a * (y * y)
  {
    NonNegativeProduct(x * x, b);
    NonNegativeProduct(a, y * y);
    if a == 0 {
      NonNegativeProduct(c, c) by { SquareNonNegative(c); }
      SquareZero(c);
    } else {
      var p := 2 * (x * y) * c;
      var q := x * x * b + a * (y * y);
      SquareNonNegative(y * a - x * c);
      ExpandDifference(y * a, x * c);
      assert 2 * (y * a) * (x * c) <= (y * a) * (y * a) + (x * c) * (x * c);
      assert (x * c) * (x * c) == (x * x) * (c * c);
      MultiplyLeft(x * x, c * c, a * b) by { SquareNonNegative(x); }
      assert a * p == 2 * (y * a) * (x * c);
      assert a * q == (y * a) * (y * a) + (x * x) * (a * b);
      CancelPositive(a, p, q);
    }
  }

  lemma SquareNonNegative(z: int)
    ensures z * z >= 0
  {
    if z < 0 {
      NonNegativeProduct(-z, -z);
    } else {
      NonNegativeProduct(z, z);
    }
  }

  lemma SquareZero(c: int)
    requires c * c <= 0
    ensures c == 0
  {
    if c != 0 {
      if c > 0 { PositiveProduct(c, c); } else { PositiveProduct(-c, -c); }
    }
  }

  lemma ExpandSquare(u: int, v: int)
    ensures (u + v) * (u + v) == u * u + 2 * u * v + v * v
  {
  }

  lemma ExpandDifference(u: int, v: int)
    ensures (u - v) * (u - v) == u * u - 2 * u * v + v * v
  {
  }

  lemma ExpandProduct(p: int, a: int, q: int, b: int)
    ensures (p + a) * (q + b) == p * q + p * b + a * q + a * b
  {
  }

  lemma MultiplyLeft(k: int, u: int, v: int)
    requires k >= 0 && u <= v
    ensures k * u <= k * v
  {
    NonNegativeProduct(k, v - u);
  }

  lemma CancelPositive(a: int, p: int, q: int)
    requires a > 0 && a * p <= a * q
    ensures p <= q
  {
    if p > q {
      PositiveProduct(a, p - q);
    }
  }

  lemma NonNegativeProduct(a: int, b: int)
    requires a >= 0 && b >= 0
    ensures a * b >= 0
  {
  }

  lemma PositiveProduct(a: int, b: int)
    requires a > 0 && b > 0
    ensures a * b > 0
  {
  }

  /** Cauchy–Schwarz over any list of words: the squared sum of the
      products is at most the product of the sums of squares. */
  lemma {:induction false} CauchySchwarzOver(ws: seq<string>, v1: Counter, v2: Counter)
    ensures Sum(ws, ProductOf(v1, v2)) * Sum(ws, ProductOf(v1, v2))
         <= Sum(ws, SquareOf(v1)) * Sum(ws, SquareOf(v2))
  {
    if ws != [] {
      var t := ws[1..];
      CauchySchwarzOver(t, v1, v2);
      SquaresNonNegative(t, v1);
      SquaresNonNegative(t, v2);
      CauchySchwarzStep(Get(v1, ws[0]), Get(v2, ws[0]),
        Sum(t, SquareOf(v1)), Sum(t, SquareOf(v2)), Sum(t, ProductOf(v1, v2)));
    }
  }

  /** Cauchy–Schwarz on counters: `dot^2 <= |v1|^2 * |v2|^2`, which is what
      keeps the cosine within [0, 1]. */
  lemma CauchySchwarz(v1: Counter, v2: Counter)
    requires Valid(v1) && Valid(v2)
    ensures Dot(v1, v2) * Dot(v1, v2) <= MagnitudeSquared(v1) * MagnitudeSquared(v2)
  {
    SharedCauchySchwarz(v1, v2);
    SharedSquaresLeft(v1, v2);
    SharedSquaresRight(v1, v2);
    var ws := CommonKeys(v1, v2);
    BoundByLarger(Dot(v1, v2), Sum(ws, SquareOf(v1)), Sum(ws, SquareOf(v2)),
      MagnitudeSquared(v1), MagnitudeSquared(v2));
  }

  /** Cauchy–Schwarz restricted to the shared words. */
  lemma SharedCauchySchwarz(v1: Counter, v2: Counter)
    ensures Dot(v1, v2) * Dot(v1, v2)
         <= Sum(CommonKeys(v1, v2), SquareOf(v1)) * Sum(CommonKeys(v1, v2), SquareOf(v2))
  {
    CauchySchwarzOver(CommonKeys(v1, v2), v1, v2);
  }

  /** The squares of `v1` over the shared words are part of `|v1|^2`. */
  lemma SharedSquaresLeft(v1: Counter, v2: Counter)
    ensures 0 <= Sum(CommonKeys(v1, v2), SquareOf(v1)) <= MagnitudeSquared(v1)
  {
    SquaresNonNegative(CommonKeys(v1, v2), v1);
    SquareTerms(v1);
    SumSubMultiset(CommonKeys(v1, v2), v1.order, SquareOf(v1));
  }

  /** The squares of `v2` over the shared words are part of `|v2|^2`. */
  lemma SharedSquaresRight(v1: Counter, v2: Counter)
    requires Valid(v1) && Valid(v2)
    ensures 0 <= Sum(CommonKeys(v1, v2), SquareOf(v2)) <= MagnitudeSquared(v2)
  {
    var ws := CommonKeys(v1, v2);
    SquaresNonNegative(ws, v2);
    CommonKeysDistinct(v1, v2);
    assert forall w :: w in ws ==> w in v2.order;
    DistinctSubset(ws, v2.order);
    SquareTerms(v2);
    SumSubMultiset(ws, v2.order, SquareOf(v2));
  }

  lemma SquareTerms(v: Counter)
    ensures forall w :: SquareOf(v)(w) >= 0
  {
    forall w ensures SquareOf(v)(w) >= 0 {
      NonNegativeProduct(Get(v, w), Get(v, w));
    }
  }

  lemma BoundByLarger(d: int, a: int, b: int, m1: int, m2: int)
    requires d * d <= a * b && 0 <= a <= m1 && 0 <= b <= m2
    ensures d * d <= m1 * m2
  {
    MultiplyMonotone(a, m1, b, m2);
  }

  lemma MultiplyMonotone(a: int, a': int, b: int, b': int)
    requires 0 <= a <= a' && 0 <= b <= b'
    ensures a * b <= a' * b'
  {
    NonNegativeProduct(a' - a, b);
    NonNegativeProduct(a', b' - b);
  }

  lemma {:induction false} CommonKeysDistinct(v1: Counter, v2: Counter)
    requires Distinct(v1.order)
    ensures Distinct(CommonKeys(v1, v2))
    decreases |v1.order|
  {
    if v1.order != [] {
      var v := Counter(v1.order[1..], v1.counts);
      CommonKeysDistinct(v, v2);
    }
  }

  /** The dot product is symmetric. */
  lemma DotSymmetric(v1: Counter, v2: Counter)
    requires Valid(v1) && Valid(v2)
    ensures Dot(v1, v2) == Dot(v2, v1)
  {
    CommonKeysDistinct(v1, v2);
    CommonKeysDistinct(v2, v1);
    DistinctSameElements(CommonKeys(v1, v2), CommonKeys(v2, v1));
    SumPermutation(CommonKeys(v1, v2), CommonKeys(v2, v1), ProductOf(v1, v2));
    SumCongruent(CommonKeys(v2, v1), ProductOf(v1, v2), ProductOf(v2, v1));
  }

  /** For counters of positive counts, the dot product is zero exactly when
      the two vectors share no word. */
  lemma DotZeroIffDisjoint(v1: Counter, v2: Counter)
    requires Valid(v1) && Valid(v2) && Positive(v1) && Positive(v2)
    ensures Dot(v1, v2) == 0 <==> forall w :: w in v1.counts ==> w !in v2.counts
  {
    SumPositive(CommonKeys(v1, v2), ProductOf(v1, v2));
  }

  /** For counters of positive counts, the magnitude is zero exactly for the
      empty vector. */
  lemma MagnitudeZeroIffEmpty(v: Counter)
    requires Valid(v) && Positive(v)
    ensures MagnitudeSquared(v) == 0 <==> v.counts == map[]
  {
    SumPositive(v.order, SquareOf(v));
    if v.order != [] {
      assert v.order[0] in v.counts;
    }
  }

  /** The similarity is symmetric. */
  lemma SimilaritySymmetric(v1: Counter, v2: Counter)
    requires Valid(v1) && Valid(v2)
    ensures IsZero(CosineSimilarity(v1, v2)) == IsZero(CosineSimilarity(v2, v1))
    ensures SquaredValue(CosineSimilarity(v1, v2)) == SquaredValue(CosineSimilarity(v2, v1))
  {
    DotSymmetric(v1, v2);
    var m1 := MagnitudeSquared(v1);
    var m2 := MagnitudeSquared(v2);
    if m1 != 0 && m2 != 0 {
      var d := Dot(v1, v2);
      assert CosineSimilarity(v1, v2) == Cosine(d, m1, m2);
      assert CosineSimilarity(v2, v1) == Cosine(d, m2, m1);
      SwappedMagnitudes(d, m1, m2);
    }
  }

  lemma SwappedMagnitudes(d: nat, m1: PositiveInt, m2: PositiveInt)
    ensures SquaredValue(Cosine(d, m1, m2)) == SquaredValue(Cosine(d, m2, m1))
  {
    assert m1 * m2 == m2 * m1;
  }

  /** A non-empty vector has similarity exactly 1 with itself. */
  lemma SimilarityWithItself(v: Counter)
    requires Valid(v) && Positive(v) && v.counts != map[]
    ensures SquaredValue(CosineSimilarity(v, v)) == 1.0
  {
    MagnitudeZeroIffEmpty(v);
    DotWithItself(v);
    var m := MagnitudeSquared(v);
    assert CosineSimilarity(v, v) == Cosine(m, m, m);
    SelfRatio(m);
  }

  /** The dot product of a vector with itself is its squared magnitude. */
  lemma DotWithItself(v: Counter)
    requires Valid(v)
    ensures Dot(v, v) == MagnitudeSquared(v)
  {
    CommonKeysAll(v, v);
    SumCongruent(v.order, ProductOf(v, v), SquareOf(v));
  }

  lemma SelfRatio(m: int)
    requires m > 0
    ensures (m * m) as real / (m * m) as real == 1.0
  {
    PositiveProduct(m, m);
  }

  lemma {:induction false} CommonKeysAll(v1: Counter, v2: Counter)
    requires forall w :: w in v1.order ==> w in v2.counts
    ensures CommonKeys(v1, v2) == v1.order
    decreases |v1.order|
  {
    if v1.order != [] {
      CommonKeysAll(Counter(v1.order[1..], v1.counts), v2);
    }
  }
}
