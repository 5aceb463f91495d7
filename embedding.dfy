/**
 * The face embedding of `util/Embedding.kt`: a vector of float components with
 * content-based equality and hashing, and three similarity scores.
 *
 * Floats are modelled as reals (no rounding). A Kotlin `Float` result that may be
 * infinite or NaN is a `Score`. `sqrt` is a parameter: the platform square root
 * is not part of this model.
 */
module Embeddings {
  import opened Wrappers

  /** An embedding; `embeddings` holds its components in order. */
  datatype Embedding = Embedding(embeddings: seq<real>)

  /** A Kotlin `Float` result of a similarity computation. */
  datatype Score = Finite(value: real) | PositiveInfinity | NegativeInfinity | NaN

  /** The exception `compareCosineSimilarity` throws when it reads past `other`. */
  datatype IndexOutOfBounds = IndexOutOfBounds(index: nat)

  // ---------------------------------------------------------------------------
  // IEEE comparisons and arithmetic on scores
  // ---------------------------------------------------------------------------

  /** IEEE `s >= t` for a finite `t`: false for NaN. */
  predicate AtLeast(s: Score, t: real) {
    match s
    case Finite(v) => v >= t
    case PositiveInfinity => true
    case NegativeInfinity => false
    case NaN => false
  }

  /** IEEE `a > b`: false as soon as either side is NaN. */
  predicate Greater(a: Score, b: Score) {
    match (a, b)
    case (Finite(x), Finite(y)) => x > y
    case (PositiveInfinity, Finite(_)) => true
    case (PositiveInfinity, NegativeInfinity) => true
    case (Finite(_), NegativeInfinity) => true
    case _ => false
  }

  /** IEEE division of two finite values. */
  function Divide(x: real, y: real): Score {
    if y != 0.0 then Finite(x / y)
    else if x > 0.0 then PositiveInfinity
    else if x < 0.0 then NegativeInfinity
    else NaN
  }

  /** IEEE `1f - s`. */
  function OneMinus(s: Score): Score {
    match s
    case Finite(v) => Finite(1.0 - v)
    case PositiveInfinity => NegativeInfinity
    case NegativeInfinity => PositiveInfinity
    case NaN => NaN
  }

  /** `>` on scores that are not NaN is a strict total order. */
  lemma GreaterIsTransitive(a: Score, b: Score, c: Score)
    requires Greater(a, b) && Greater(b, c)
    ensures Greater(a, c)
  {
  }

  // ---------------------------------------------------------------------------
  // equals / hashCode
  // ---------------------------------------------------------------------------

  /** `contentEquals` on two component arrays. */
  function ContentEquals(x: seq<real>, y: seq<real>): (r: bool)
    ensures r <==> |x| == |y| && forall i :: 0 <= i < |x| ==> x[i] == y[i]
  {
    if |x| != |y| then false
    else if x == [] then true
    else x[0] == y[0] && ContentEquals(x[1..], y[1..])
  }

  /**
   * `equals`: two embeddings are equal exactly when their components are, which
   * is equality of the two values.
   */
  function Equals(a: Embedding, b: Embedding): (r: bool)
    ensures r <==> a == b
  {
    var r := ContentEquals(a.embeddings, b.embeddings);
    assert r ==> a.embeddings == b.embeddings;
    r
  }

  /** Reduces an integer to a Java `Int` by 32-bit wrap-around. */
  function ToInt32(x: int): (r: int)
    ensures -0x8000_0000 <= r < 0x8000_0000
    ensures (x - r) % 0x1_0000_0000 == 0
  {
    var m := x % 0x1_0000_0000;
    if m >= 0x8000_0000 then m - 0x1_0000_0000 else m
  }

  /**
   * `contentHashCode` of a float array: `h = 31 * h + floatToIntBits(v)` from
   * `h = 1`, wrapping at 32 bits. `bits` stands for `floatToIntBits`.
   */
  function ContentHash(x: seq<real>, bits: real -> int): (h: int)
    ensures -0x8000_0000 <= h < 0x8000_0000
  {
    if x == [] then 1
    else ToInt32(31 * ContentHash(x[..|x| - 1], bits) + bits(x[|x| - 1]))
  }

  /** `hashCode`: the content hash of the components, a Java `Int`. */
  function HashCode(e: Embedding, bits: real -> int): (h: int)
    ensures -0x8000_0000 <= h < 0x8000_0000
  {
    ContentHash(e.embeddings, bits)
  }

  /** Equal embeddings have equal hash codes. */
  lemma HashCodeAgreesWithEquals(a: Embedding, b: Embedding, bits: real -> int)
    requires Equals(a, b)
    ensures HashCode(a, bits) == HashCode(b, bits)
  {
  }

  // ---------------------------------------------------------------------------
  // Sums accumulated by the comparison loops (left to right)
  // ---------------------------------------------------------------------------

  function Square(x: real): real {
    x * x
  }

  function Abs(x: real): real {
    if x < 0.0 then -x else x
  }

  /** Sum of `|x[i] - y[i]|`. */
  function AbsDiffSum(x: seq<real>, y: seq<real>): real
    requires |x| == |y|
  {
    if x == [] then 0.0
    else AbsDiffSum(x[..|x| - 1], y[..|y| - 1]) + Abs(x[|x| - 1] - y[|y| - 1])
  }

  /** Sum of `(x[i] - y[i])^2`. */
  function DiffSquareSum(x: seq<real>, y: seq<real>): real
    requires |x| == |y|
  {
    if x == [] then 0.0
    else
      DiffSquareSum(x[..|x| - 1], y[..|y| - 1]) + Square(x[|x| - 1] - y[|y| - 1])
  }

  /** Sum of `x[i]^2`. */
  function SquareSum(x: seq<real>): real {
    if x == [] then 0.0
    else SquareSum(x[..|x| - 1]) + Square(x[|x| - 1])
  }

  /** Sum of `x[i] * y[i]` over the indices of `x`. */
  function Dot(x: seq<real>, y: seq<real>): real
    requires |x| <= |y|
  {
    if x == [] then 0.0
    else Dot(x[..|x| - 1], y) + x[|x| - 1] * y[|x| - 1]
  }

  lemma {:induction false} AbsDiffSumSymmetric(x: seq<real>, y: seq<real>)
    requires |x| == |y|
    ensures AbsDiffSum(x, y) == AbsDiffSum(y, x)
  {
    if x != [] {
      AbsDiffSumSymmetric(x[..|x| - 1], y[..|y| - 1]);
    }
  }

  lemma {:induction false} AbsDiffSumSelf(x: seq<real>)
    ensures AbsDiffSum(x, x) == 0.0
  {
    if x != [] {
      AbsDiffSumSelf(x[..|x| - 1]);
    }
  }

  /** With components in [-1, 1], each term is at most 2. */
  lemma {:induction false} AbsDiffSumBounds(x: seq<real>, y: seq<real>)
    requires |x| == |y|
    requires forall i :: 0 <= i < |x| ==> -1.0 <= x[i] <= 1.0 && -1.0 <= y[i] <= 1.0
    ensures 0.0 <= AbsDiffSum(x, y) <= 2.0 * |x| as real
  {
    if x != [] {
      AbsDiffSumBounds(x[..|x| - 1], y[..|y| - 1]);
    }
  }

  lemma {:induction false} DiffSquareSumSymmetric(x: seq<real>, y: seq<real>)
    requires |x| == |y|
    ensures DiffSquareSum(x, y) == DiffSquareSum(y, x)
  {
    if x != [] {
      DiffSquareSumSymmetric(x[..|x| - 1], y[..|y| - 1]);
    }
  }

  lemma {:induction false} DiffSquareSumSelf(x: seq<real>)
    ensures DiffSquareSum(x, x) == 0.0
  {
    if x != [] {
      DiffSquareSumSelf(x[..|x| - 1]);
    }
  }

  /** A sum of squares is never negative. */
  lemma {:induction false} DiffSquareSumNonNegative(x: seq<real>, y: seq<real>)
    requires |x| == |y|
    ensures DiffSquareSum(x, y) >= 0.0
  {
    if x != [] {
      DiffSquareSumNonNegative(x[..|x| - 1], y[..|y| - 1]);
      var d := x[|x| - 1] - y[|y| - 1];
      assert Square(d) >= 0.0 by {
        if d < 0.0 { assert Square(d) == (-d) * (-d); }
      }
    }
  }

  lemma {:induction false} DotSymmetric(x: seq<real>, y: seq<real>)
    requires |x| == |y|
    ensures Dot(x, y) == Dot(y, x)
  {
    if x != [] {
      var n := |x| - 1;
      DotSymmetric(x[..n], y[..n]);
      DotPrefix(x[..n], y);
      DotPrefix(y[..n], x);
    }
  }

  /** `Dot` only reads `y` over the indices of `x`. */
  lemma {:induction false} DotPrefix(x: seq<real>, y: seq<real>)
    requires |x| <= |y|
    ensures Dot(x, y) == Dot(x, y[..|x|])
  {
    if x != [] {
      DotPrefix(x[..|x| - 1], y);
      DotPrefix(x[..|x| - 1], y[..|x|]);
      assert y[..|x|][..|x| - 1] == y[..|x| - 1];
    }
  }

  lemma {:induction false} DotSelf(x: seq<real>)
    ensures Dot(x, x) == SquareSum(x)
  {
    if x != [] {
      var n := |x| - 1;
      DotSelf(x[..n]);
      DotPrefix(x[..n], x);
    }
  }

  // ---------------------------------------------------------------------------
  // normalize
  // ---------------------------------------------------------------------------

  /** Every component divided by `norm`. */
  function Scale(v: seq<real>, norm: real): seq<real>
    requires norm != 0.0
  {
    seq(|v|, i requires 0 <= i < |v| => v[i] / norm)
  }

  /** Dividing every component by `norm` divides the squared norm by `norm * norm`. */
  lemma {:induction false} ScaleSquareSum(v: seq<real>, norm: real)
    requires norm != 0.0
    ensures SquareSum(Scale(v, norm)) * (norm * norm) == SquareSum(v)
  {
    if v != [] {
      var n := |v| - 1;
      ScaleSquareSum(v[..n], norm);
      assert Scale(v, norm)[..n] == Scale(v[..n], norm);
      QuotientSquare(v[n], norm);
      Distribute(SquareSum(Scale(v[..n], norm)), Square(v[n] / norm), norm * norm);
    }
  }

  lemma QuotientSquare(a: real, n: real)
    requires n != 0.0
    ensures Square(a / n) * (n * n) == Square(a)
  {
    var q := a / n;
    assert q * n == a;
    assert (q * q) * (n * n) == (q * n) * (q * n);
  }

  lemma Distribute(a: real, b: real, k: real)
    ensures (a + b) * k == a * k + b * k
  {
  }

  lemma CancelSelf(x: real, k: real, s: real)
    requires s != 0.0 && k == s && x * k == s
    ensures x == 1.0
  {
    assert (x - 1.0) * s == 0.0;
  }

  /** `normalize`: divides by the Euclidean norm when that norm is positive. */
  function Normalized(v: seq<real>, sqrt: real -> real): (r: seq<real>)
    ensures |r| == |v|
  {
    var norm := sqrt(SquareSum(v));
    if norm > 0.0 then Scale(v, norm) else v
  }

  /**
   * With a square root that is exact at the squared norm, `normalize` of a
   * non-zero vector has squared norm 1; with `sqrt(0) == 0` the zero vector
   * comes back unchanged.
   */
  lemma NormalizedIsUnit(v: seq<real>, sqrt: real -> real)
    requires sqrt(SquareSum(v)) >= 0.0 && sqrt(SquareSum(v)) * sqrt(SquareSum(v)) == SquareSum(v)
    ensures SquareSum(v) != 0.0 ==> SquareSum(Normalized(v, sqrt)) == 1.0
    ensures SquareSum(v) == 0.0 && sqrt(0.0) == 0.0 ==> Normalized(v, sqrt) == v
  {
    var norm := sqrt(SquareSum(v));
    if SquareSum(v) != 0.0 {
      assert norm > 0.0;
      ScaleSquareSum(v, norm);
      var x, nn := SquareSum(Scale(v, norm)), norm * norm;
      assert x * nn == SquareSum(v) && nn == SquareSum(v);
      CancelSelf(x, nn, SquareSum(v));
    }
  }

  method Normalize(v: seq<real>, sqrt: real -> real) returns (r: seq<real>)
    ensures r == Normalized(v, sqrt)
  {
    var norm := 0.0;
    for i := 0 to |v|
      invariant norm == SquareSum(v[..i])
    {
      assert v[..i + 1][..i] == v[..i];
      norm := norm + Square(v[i]);
    }
    assert v[..|v|] == v;
    norm := sqrt(norm);
    if norm > 0.0 {
      r := seq(|v|, i requires 0 <= i < |v| => v[i] / norm);
    } else {
      r := v;
    }
  }

  // ---------------------------------------------------------------------------
  // The three similarity scores
  // ---------------------------------------------------------------------------

  /**
   * `compareCosineSimilarity`: dot product over the product of the two norms.
   * There is no length check: the loop reads `other` at every index of this
   * embedding and throws at the first index `other` lacks.
   */
  function CosineSimilarity(a: Embedding, other: Embedding, sqrt: real -> real): Result<Score, IndexOutOfBounds> {
    var n := |a.embeddings|;
    if |other.embeddings| < n then Failure(IndexOutOfBounds(|other.embeddings|))
    else
      var x := a.embeddings;
      var z := other.embeddings[..n];
      Success(Quotient(Dot(x, z), sqrt(SquareSum(x)), sqrt(SquareSum(z))))
  }

  /** `dotProduct / (normA * normB)`. */
  function Quotient(dotProduct: real, normA: real, normB: real): Score {
    Divide(dotProduct, normA * normB)
  }

  method CompareCosineSimilarity(a: Embedding, other: Embedding, sqrt: real -> real)
    returns (r: Result<Score, IndexOutOfBounds>)
    ensures r == CosineSimilarity(a, other, sqrt)
    ensures r.Failure? <==> |other.embeddings| < |a.embeddings|
  {
    var x, y := a.embeddings, other.embeddings;
    var dotProduct, normA, normB := 0.0, 0.0, 0.0;
    for i := 0 to |x|
      invariant i <= |y|
      invariant dotProduct == Dot(x[..i], y[..i])
      invariant normA == SquareSum(x[..i])
      invariant normB == SquareSum(y[..i])
    {
      if i == |y| {
        return Failure(IndexOutOfBounds(i));
      }
      assert x[..i + 1][..i] == x[..i];
      assert y[..i + 1][..i] == y[..i];
      DotPrefix(x[..i], y[..i + 1]);
      dotProduct := dotProduct + x[i] * y[i];
      normA := normA + Square(x[i]);
      normB := normB + Square(y[i]);
    }
    assert x[..|x|] == x;
    assert dotProduct == Dot(x, y[..|x|]);
    assert normA == SquareSum(x) && normB == SquareSum(y[..|x|]);
    r := Success(Quotient(dotProduct, sqrt(normA), sqrt(normB)));
  }

  /** Components of `other` past the length of `a` are never read. */
  lemma CosineIgnoresTail(a: Embedding, other: Embedding, sqrt: real -> real)
    requires |other.embeddings| >= |a.embeddings|
    ensures CosineSimilarity(a, other, sqrt)
         == CosineSimilarity(a, Embedding(other.embeddings[..|a.embeddings|]), sqrt)
  {
    var n := |a.embeddings|;
    assert other.embeddings[..n][..n] == other.embeddings[..n];
  }

  /** For equal lengths the cosine score does not depend on the order of its arguments. */
  lemma CosineSymmetric(a: Embedding, b: Embedding, sqrt: real -> real)
    requires |a.embeddings| == |b.embeddings|
    ensures CosineSimilarity(a, b, sqrt) == CosineSimilarity(b, a, sqrt)
  {
    var x, y := a.embeddings, b.embeddings;
    assert x[..|x|] == x && y[..|y|] == y;
    DotSymmetric(x, y);
  }

  /** A non-zero embedding scores 1 against itself when `sqrt` returns a square root of its squared norm. */
  lemma CosineSelf(a: Embedding, sqrt: real -> real)
    requires SquareSum(a.embeddings) > 0.0
    requires sqrt(SquareSum(a.embeddings)) * sqrt(SquareSum(a.embeddings)) == SquareSum(a.embeddings)
    ensures CosineSimilarity(a, a, sqrt) == Success(Finite(1.0))
  {
    var x := a.embeddings;
    assert x[..|x|] == x;
    DotSelf(x);
    var n := sqrt(SquareSum(x));
    SelfQuotient(SquareSum(x), n * n);
    assert Quotient(SquareSum(x), n, n) == Finite(1.0);
  }

  lemma SelfQuotient(s: real, k: real)
    requires s == k && k > 0.0
    ensures s / k == 1.0
  {
  }

  /** The all-zero embedding scores NaN against itself, not the maximum. */
  lemma CosineSelfOfZeroIsNaN(a: Embedding, sqrt: real -> real)
    requires forall i :: 0 <= i < |a.embeddings| ==> a.embeddings[i] == 0.0
    requires sqrt(0.0) == 0.0
    ensures CosineSimilarity(a, a, sqrt) == Success(NaN)
  {
    var x := a.embeddings;
    assert x[..|x|] == x;
    DotSelf(x);
    SquareSumOfZero(x);
  }

  lemma {:induction false} SquareSumOfZero(x: seq<real>)
    requires forall i :: 0 <= i < |x| ==> x[i] == 0.0
    ensures SquareSum(x) == 0.0
  {
    if x != [] {
      SquareSumOfZero(x[..|x| - 1]);
    }
  }

  /**
   * `compareEuclideanDistance`: both embeddings are normalised, then a length
   * mismatch scores 0, otherwise `1 - sqrt(sum of squared differences) / sqrt(4 n)`.
   */
  function EuclideanScore(a: Embedding, other: Embedding, sqrt: real -> real): Score {
    var x := Normalized(a.embeddings, sqrt);
    var y := Normalized(other.embeddings, sqrt);
    if |a.embeddings| != |other.embeddings| then Finite(0.0)
    else OneMinus(Divide(sqrt(DiffSquareSum(x, y)), sqrt(4.0 * |a.embeddings| as real)))
  }

  method CompareEuclideanDistance(a: Embedding, other: Embedding, sqrt: real -> real) returns (s: Score)
    ensures s == EuclideanScore(a, other, sqrt)
    ensures |a.embeddings| != |other.embeddings| ==> s == Finite(0.0)
  {
    var x := Normalize(a.embeddings, sqrt);
    var y := Normalize(other.embeddings, sqrt);
    if |a.embeddings| != |other.embeddings| {
      return Finite(0.0);
    }
    var distance := SquaredDistance(x, y);
    s := OneMinus(Divide(sqrt(distance), sqrt(4.0 * |a.embeddings| as real)));
  }

  /** The loop of `compareEuclideanDistance`: the sum of squared differences. */
  method SquaredDistance(x: seq<real>, y: seq<real>) returns (distance: real)
    requires |x| == |y|
    ensures distance == DiffSquareSum(x, y)
    ensures distance >= 0.0
  {
    distance := 0.0;
    for i := 0 to |x|
      invariant distance == DiffSquareSum(x[..i], y[..i])
    {
      assert x[..i + 1][..i] == x[..i];
      assert y[..i + 1][..i] == y[..i];
      var difference := x[i] - y[i];
      distance := distance + Square(difference);
    }
    assert x[..|x|] == x && y[..|y|] == y;
    DiffSquareSumNonNegative(x, y);
  }

  /** The Euclidean score does not depend on the order of its arguments. */
  lemma EuclideanSymmetric(a: Embedding, b: Embedding, sqrt: real -> real)
    ensures EuclideanScore(a, b, sqrt) == EuclideanScore(b, a, sqrt)
  {
    if |a.embeddings| == |b.embeddings| {
      DiffSquareSumSymmetric(Normalized(a.embeddings, sqrt), Normalized(b.embeddings, sqrt));
    }
  }

  /** A non-empty embedding scores 1 against itself when `sqrt` is exact at 0 and positive at 4n. */
  lemma EuclideanSelf(a: Embedding, sqrt: real -> real)
    requires |a.embeddings| > 0
    requires sqrt(0.0) == 0.0 && sqrt(4.0 * |a.embeddings| as real) > 0.0
    ensures EuclideanScore(a, a, sqrt) == Finite(1.0)
  {
    DiffSquareSumSelf(Normalized(a.embeddings, sqrt));
  }

  /**
   * `compareManhattanDistance`: a length mismatch scores 0, otherwise
   * `1 - (sum of |differences|) / (2 n)`; two empty embeddings give `0 / 0`.
   */
  function ManhattanScore(a: Embedding, other: Embedding): Score {
    var x, y := a.embeddings, other.embeddings;
    if |x| != |y| then Finite(0.0)
    else OneMinus(Divide(AbsDiffSum(x, y), (|x| * 2) as real))
  }

  method CompareManhattanDistance(a: Embedding, other: Embedding) returns (s: Score)
    ensures s == ManhattanScore(a, other)
    ensures |a.embeddings| != |other.embeddings| ==> s == Finite(0.0)
  {
    var x, y := a.embeddings, other.embeddings;
    if |x| != |y| {
      return Finite(0.0);
    }
    var distance := 0.0;
    for i := 0 to |x|
      invariant distance == AbsDiffSum(x[..i], y[..i])
    {
      assert x[..i + 1][..i] == x[..i];
      assert y[..i + 1][..i] == y[..i];
      distance := distance + Abs(x[i] - y[i]);
    }
    assert x[..|x|] == x && y[..|y|] == y;
    s := OneMinus(Divide(distance, (|x| * 2) as real));
  }

  /** The Manhattan score does not depend on the order of its arguments. */
  lemma ManhattanSymmetric(a: Embedding, b: Embedding)
    ensures ManhattanScore(a, b) == ManhattanScore(b, a)
  {
    if |a.embeddings| == |b.embeddings| {
      AbsDiffSumSymmetric(a.embeddings, b.embeddings);
    }
  }

  /** A non-empty embedding scores exactly 1 against itself; the empty one scores NaN. */
  lemma ManhattanSelf(a: Embedding)
    ensures ManhattanScore(a, a) == if a.embeddings == [] then NaN else Finite(1.0)
  {
    AbsDiffSumSelf(a.embeddings);
  }

  /** For equal-length, non-empty embeddings with components in [-1, 1] the score lies in [0, 1]. */
  lemma ManhattanInUnitRange(a: Embedding, b: Embedding)
    requires |a.embeddings| == |b.embeddings| > 0
    requires forall i :: 0 <= i < |a.embeddings| ==>
               -1.0 <= a.embeddings[i] <= 1.0 && -1.0 <= b.embeddings[i] <= 1.0
    ensures ManhattanScore(a, b).Finite?
    ensures 0.0 <= ManhattanScore(a, b).value <= 1.0
  {
    AbsDiffSumBounds(a.embeddings, b.embeddings);
    var n := (|a.embeddings| * 2) as real;
    var d := AbsDiffSum(a.embeddings, b.embeddings);
    assert 0.0 <= d / n <= 1.0 by {
      assert d <= n;
    }
  }
}
