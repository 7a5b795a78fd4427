/** The cosine similarity `sim` of text-search.js, over exact reals. One pass over
    the first vector builds the dot product and the two squared magnitudes; the final
    square roots and division are left to a caller-supplied `finish` function. */
module Similarity {

  /** The sum of p[i] * q[i] over the first n positions. */
  function Dot(p: seq<real>, q: seq<real>, n: nat): (r: real)
    requires n <= |p| && n <= |q|
  {
    if n == 0 then 0.0 else Dot(p, q, n - 1) + p[n - 1] * q[n - 1]
  }

  /** A sum of squares is never negative. */
  lemma {:induction false} SquaresNonNegative(p: seq<real>, n: nat)
    requires n <= |p|
    ensures Dot(p, p, n) >= 0.0
  {
    if n > 0 {
      SquaresNonNegative(p, n - 1);
      assert p[n - 1] * p[n - 1] >= 0.0;
    }
  }

  /** The dot product does not depend on the order of its arguments. */
  lemma {:induction false} DotSymmetric(p: seq<real>, q: seq<real>, n: nat)
    requires n <= |p| && n <= |q|
    ensures Dot(p, q, n) == Dot(q, p, n)
  {
    if n > 0 {
      DotSymmetric(p, q, n - 1);
    }
  }

  /** The sum of (p[i] * v - u * q[i])^2 over the first n positions. */
  function CrossSquares(p: seq<real>, q: seq<real>, n: nat, u: real, v: real): real
    requires n <= |p| && n <= |q|
  {
    if n == 0 then 0.0
    else
      var d := p[n - 1] * v - u * q[n - 1];
      CrossSquares(p, q, n - 1, u, v) + d * d
  }

  lemma SquareNonNegative(x: real)
    ensures x * x >= 0.0
  {
    if x < 0.0 {
      assert x * x == (-x) * (-x);
    }
  }

  lemma ExpandIdentity(a: real, b: real, c: real, x: real, y: real, u: real, v: real)
    ensures v * v * (a + x * x) - 2.0 * u * v * (c + x * y) + u * u * (b + y * y)
         == (v * v * a - 2.0 * u * v * c + u * u * b) + (x * v - u * y) * (x * v - u * y)
  {
  }

  /** e is the cross sum v^2 a - 2uv c + u^2 b of the three sums a, b and c. */
  predicate CrossIs(e: real, a: real, b: real, c: real, u: real, v: real) {
    e == v * v * a - 2.0 * u * v * c + u * u * b
  }

  /** a', b', c' and e' are a, b, c and e with one more position (x, y) added. */
  predicate OneMore(a: real, b: real, c: real, e: real, x: real, y: real, u: real, v: real,
                    a': real, b': real, c': real, e': real) {
    && a' == a + x * x && b' == b + y * y && c' == c + x * y
    && e' == e + (x * v - u * y) * (x * v - u * y)
  }

  /** The sums over n positions are the sums over n - 1 positions with position n - 1
      added. */
  lemma OneMoreSums(p: seq<real>, q: seq<real>, n: nat, u: real, v: real)
    requires 0 < n <= |p| && n <= |q|
    ensures OneMore(Dot(p, p, n - 1), Dot(q, q, n - 1), Dot(p, q, n - 1), CrossSquares(p, q, n - 1, u, v),
                    p[n - 1], q[n - 1], u, v,
                    Dot(p, p, n), Dot(q, q, n), Dot(p, q, n), CrossSquares(p, q, n, u, v))
  {
  }

  /** Adding one position to each of the three sums adds one square to the cross sum:
      if e is the cross sum for a, b, c, then e' is the cross sum for a', b', c', and
      it is not negative when e is not. */
  lemma ExpandStep(a: real, b: real, c: real, e: real, x: real, y: real, u: real, v: real,
                   a': real, b': real, c': real, e': real)
    requires OneMore(a, b, c, e, x, y, u, v, a', b', c', e')
    requires CrossIs(e, a, b, c, u, v)
    ensures CrossIs(e', a', b', c', u, v)
    ensures e >= 0.0 ==> e' >= 0.0
  {
    ExpandIdentity(a, b, c, x, y, u, v);
    SquareNonNegative(x * v - u * y);
  }

  /** Expanding the squares: the cross sum is v^2 |p|^2 - 2uv (p . q) + u^2 |q|^2,
      and as a sum of squares it is never negative. */
  lemma {:induction false} CrossSquaresExpand(p: seq<real>, q: seq<real>, n: nat, u: real, v: real)
    requires n <= |p| && n <= |q|
    ensures CrossIs(CrossSquares(p, q, n, u, v), Dot(p, p, n), Dot(q, q, n), Dot(p, q, n), u, v)
    ensures CrossSquares(p, q, n, u, v) >= 0.0
  {
    if n > 0 {
      CrossSquaresExpand(p, q, n - 1, u, v);
      OneMoreSums(p, q, n, u, v);
      ExpandStep(Dot(p, p, n - 1), Dot(q, q, n - 1), Dot(p, q, n - 1), CrossSquares(p, q, n - 1, u, v),
                 p[n - 1], q[n - 1], u, v,
                 Dot(p, p, n), Dot(q, q, n), Dot(p, q, n), CrossSquares(p, q, n, u, v));
    }
  }

  /** c^2 <= a * b: for the three sums, the exact cosine c / (sqrt(a) * sqrt(b)) lies
      in [-1, 1] whenever a and b are not zero. */
  predicate SchwarzBound(a: real, b: real, c: real) {
    c * c <= a * b
  }

  /** The cross sum v^2 a - 2uv c + u^2 b is not negative. */
  predicate CrossBound(a: real, b: real, c: real, u: real, v: real) {
    v * v * a - 2.0 * u * v * c + u * u * b >= 0.0
  }

  /** The cross sum, written with the three sums, is never negative. */
  lemma CrossNonNegative(p: seq<real>, q: seq<real>, n: nat, u: real, v: real)
    requires n <= |p| && n <= |q|
    ensures CrossBound(Dot(p, p, n), Dot(q, q, n), Dot(p, q, n), u, v)
  {
    CrossSquaresExpand(p, q, n, u, v);
  }

  /** One more term keeps the Cauchy-Schwarz inequality: with a = |p|^2, b = |q|^2 and
      c = p . q over a prefix, c^2 <= ab and a non-negative cross sum give the same
      inequality for a' = a + u^2, b' = b + v^2 and c' = c + uv. */
  lemma CauchySchwarzStep(a: real, b: real, c: real, u: real, v: real, a': real, b': real, c': real)
    requires SchwarzBound(a, b, c) && CrossBound(a, b, c, u, v)
    requires a' == a + u * u && b' == b + v * v && c' == c + u * v
    ensures SchwarzBound(a', b', c')
  {
    assert (a + u * u) * (b + v * v) - (c + u * v) * (c + u * v)
        == (a * b - c * c) + (v * v * a - 2.0 * u * v * c + u * u * b);
  }

  /** Cauchy-Schwarz: the squared dot product is at most the product of the squared
      magnitudes, so over exact reals the cosine `product / (sqrt(mA) * sqrt(mB))`
      lies in [-1, 1] whenever both magnitudes are non-zero. Rounding in floating
      point can carry the computed value slightly past 1. */
  lemma {:induction false} CauchySchwarz(p: seq<real>, q: seq<real>, n: nat)
    requires n <= |p| && n <= |q|
    ensures SchwarzBound(Dot(p, p, n), Dot(q, q, n), Dot(p, q, n))
  {
    if n > 0 {
      CauchySchwarz(p, q, n - 1);
      CrossNonNegative(p, q, n - 1, p[n - 1], q[n - 1]);
      CauchySchwarzStep(Dot(p, p, n - 1), Dot(q, q, n - 1), Dot(p, q, n - 1), p[n - 1], q[n - 1],
                        Dot(p, p, n), Dot(q, q, n), Dot(p, q, n));
    }
  }

  /** The accumulation loop of `sim`: walks the positions of `p` and adds p[i] * q[i],
      p[i] * p[i] and q[i] * q[i] to `product`, `mA` and `mB`. Only the first |p|
      entries of `q` are read. */
  method Accumulate(p: seq<real>, q: seq<real>) returns (product: real, mA: real, mB: real)
    requires |p| <= |q|
    ensures product == Dot(p, q, |p|) && mA == Dot(p, p, |p|) && mB == Dot(q, q, |p|)
    ensures mA >= 0.0 && mB >= 0.0
    ensures SchwarzBound(mA, mB, product)
  {
    product, mA, mB := 0.0, 0.0, 0.0;
    var i := 0;
    while i < |p|
      invariant 0 <= i <= |p|
      invariant product == Dot(p, q, i)
      invariant mA == Dot(p, p, i)
      invariant mB == Dot(q, q, i)
    {
      product := product + p[i] * q[i];
      mA := mA + p[i] * p[i];
      mB := mB + q[i] * q[i];
      i := i + 1;
    }
    SquaresNonNegative(p, |p|);
    SquaresNonNegative(q, |p|);
    CauchySchwarz(p, q, |p|);
  }

  /** The score `sim(p, q)` returns, given how the three sums are combined. */
  function Similarity(p: seq<real>, q: seq<real>, finish: (real, real, real) -> real): (r: real)
    requires |p| <= |q|
  {
    finish(Dot(p, q, |p|), Dot(p, p, |p|), Dot(q, q, |p|))
  }

  /** `sim(p, q)`: the three sums of the loop, combined by `finish`. */
  method Sim(p: seq<real>, q: seq<real>, finish: (real, real, real) -> real) returns (score: real)
    requires |p| <= |q|
    ensures score == Similarity(p, q, finish)
  {
    var product, mA, mB := Accumulate(p, q);
    score := finish(product, mA, mB);
  }

  /** Swapping the two vectors keeps the product and exchanges the magnitudes, so
      `sim` is symmetric for any `finish` that treats its two magnitudes alike, as
      `product / (sqrt(mA) * sqrt(mB))` does. */
  lemma SimilaritySymmetric(p: seq<real>, q: seq<real>, finish: (real, real, real) -> real)
    requires |p| == |q|
    requires forall c, a, b :: finish(c, a, b) == finish(c, b, a)
    ensures Similarity(p, q, finish) == Similarity(q, p, finish)
  {
    DotSymmetric(p, q, |p|);
    assert finish(Dot(p, q, |p|), Dot(p, p, |p|), Dot(q, q, |p|))
        == finish(Dot(p, q, |p|), Dot(q, q, |p|), Dot(p, p, |p|));
  }
}
