/** How far one of n numbers can lie from their mean, measured in population standard deviations. */
module Deviation {

  function Sum(xs: seq<real>): real {
    if xs == [] then 0.0 else Sum(xs[..|xs| - 1]) + xs[|xs| - 1]
  }

  function Shifted(xs: seq<real>, c: real): seq<real> {
    seq(|xs|, i requires 0 <= i < |xs| => xs[i] - c)
  }

  function Square(x: real): real { x * x }

  function Squares(xs: seq<real>): seq<real> {
    seq(|xs|, i requires 0 <= i < |xs| => Square(xs[i]))
  }

  function Mean(xs: seq<real>): real
    requires xs != []
  {
    Sum(xs) / (|xs| as real)
  }

  /** Population variance, as `numpy.std` with its default ddof. */
  function Variance(xs: seq<real>): real
    requires xs != []
  {
    Sum(Squares(Shifted(xs, Mean(xs)))) / (|xs| as real)
  }

  ghost predicate IsStd(xs: seq<real>, s: real)
    requires xs != []
  {
    s >= 0.0 && s * s == Variance(xs)
  }

  lemma SumSnoc(xs: seq<real>, x: real)
    ensures Sum(xs + [x]) == Sum(xs) + x
  {
    assert (xs + [x])[..|xs|] == xs;
  }

  lemma {:induction false} SumAppend(xs: seq<real>, ys: seq<real>)
    ensures Sum(xs + ys) == Sum(xs) + Sum(ys)
  {
    if ys == [] {
      assert xs + ys == xs;
    } else {
      var n := |ys| - 1;
      SumAppend(xs, ys[..n]);
      assert xs + ys == (xs + ys[..n]) + [ys[n]];
      SumSnoc(xs + ys[..n], ys[n]);
    }
  }

  lemma {:induction false} SumShifted(xs: seq<real>, c: real)
    ensures Sum(Shifted(xs, c)) == Sum(xs) - (|xs| as real) * c
  {
    if xs != [] {
      var n := |xs| - 1;
      SumShifted(xs[..n], c);
      assert Shifted(xs, c) == Shifted(xs[..n], c) + [xs[n] - c];
      SumSnoc(Shifted(xs[..n], c), xs[n] - c);
      assert (|xs| as real) == (n as real) + 1.0;
    }
  }

  lemma DeviationsCancel(xs: seq<real>)
    requires xs != []
    ensures Sum(Shifted(xs, Mean(xs))) == 0.0
  {
    SumShifted(xs, Mean(xs));
  }

  lemma {:induction false} SquaresNonNegative(xs: seq<real>)
    ensures Sum(Squares(xs)) >= 0.0
  {
    if xs != [] {
      var n := |xs| - 1;
      SquaresNonNegative(xs[..n]);
      assert Squares(xs) == Squares(xs[..n]) + [Square(xs[n])];
      SumSnoc(Squares(xs[..n]), Square(xs[n]));
    }
  }

  /** One step of Cauchy-Schwarz: m times the difference of the two sides is at least (s - m * y) squared. */
  lemma CauchyStep(s: real, q: real, m: real, y: real)
    requires m > 0.0 && q >= 0.0 && s * s <= m * q
    ensures (s + y) * (s + y) <= (m + 1.0) * (q + y * y)
  {
    var diff := (m + 1.0) * (q + y * y) - (s + y) * (s + y);
    assert diff == (m * q - s * s) + q + m * (y * y) - 2.0 * (s * y);
    var square := (s - m * y) * (s - m * y);
    assert square >= 0.0;
    assert square == s * s - 2.0 * (m * (s * y)) + m * (m * (y * y));
    assert m * (q + m * (y * y) - 2.0 * (s * y)) == (m * q - s * s) + square;
    NonNegativeFactor(m, q + m * (y * y) - 2.0 * (s * y));
  }

  lemma Positive(a: real, b: real)
    requires a > 0.0 && b > 0.0
    ensures a * b > 0.0
  {
  }

  lemma NonNegativeFactor(m: real, t: real)
    requires m > 0.0 && m * t >= 0.0
    ensures t >= 0.0
  {
    if t < 0.0 { Positive(m, -t); }
  }

  lemma CauchyNext(s: real, q: real, m: real, y: real, s': real, q': real, m': real)
    requires m > 0.0 && q >= 0.0 && s * s <= m * q
    requires s' == s + y && q' == q + Square(y) && m' == m + 1.0
    ensures s' * s' <= m' * q'
  {
    CauchyStep(s, q, m, y);
  }

  /** Cauchy-Schwarz against the all-ones vector. */
  lemma {:induction false} SumSquaredBound(xs: seq<real>)
    ensures Sum(xs) * Sum(xs) <= (|xs| as real) * Sum(Squares(xs))
  {
    if xs != [] {
      var n := |xs| - 1;
      var ys, y := xs[..n], xs[n];
      SumSquaredBound(ys);
      SquaresNonNegative(ys);
      assert Squares(xs) == Squares(ys) + [Square(y)];
      SumSnoc(Squares(ys), Square(y));
      if n > 0 {
        CauchyNext(Sum(ys), Sum(Squares(ys)), n as real, y, Sum(xs), Sum(Squares(xs)), |xs| as real);
      }
    }
  }

  lemma SumWithout(xs: seq<real>, k: nat)
    requires k < |xs|
    ensures Sum(xs[..k] + xs[k + 1..]) == Sum(xs) - xs[k]
  {
    var left, right := xs[..k], xs[k + 1..];
    SumAppend(left, right);
    SumSnoc(left, xs[k]);
    assert xs[..k + 1] == left + [xs[k]];
    SumAppend(xs[..k + 1], right);
    assert xs == xs[..k + 1] + right;
  }

  lemma ShareBound(d: real, total: real, n: real, m: real, v: real, r: real, q: real)
    requires n >= 1.0 && m == n - 1.0 && v == total / n
    requires r == -d && q == total - Square(d) && r * r <= m * q
    ensures d * d <= m * v
  {
    assert r * r == d * d;
    assert n * (d * d) <= (n - 1.0) * total;
    assert total == n * v;
    assert n * ((n - 1.0) * v - d * d) >= 0.0;
    NonNegativeFactor(n, (n - 1.0) * v - d * d);
  }

  /** The deviations but one: their sum, and the sum of their squares. */
  lemma OtherDeviations(xs: seq<real>, k: nat, d: real) returns (rest: seq<real>, total: real)
    requires k < |xs| && d == xs[k] - Mean(xs)
    ensures |rest| == |xs| - 1
    ensures Sum(rest) == -d && Sum(Squares(rest)) == total - Square(d)
    ensures Variance(xs) == total / (|xs| as real)
  {
    var ds := Shifted(xs, Mean(xs));
    rest, total := ds[..k] + ds[k + 1..], Sum(Squares(ds));
    DeviationsCancel(xs);
    SumWithout(ds, k);
    SumWithout(Squares(ds), k);
    assert Squares(rest) == Squares(ds)[..k] + Squares(ds)[k + 1..];
  }

  /** No value lies further from the mean than the square root of n - 1 standard deviations. */
  lemma DeviationBound(xs: seq<real>, k: nat, d: real)
    requires k < |xs| && d == xs[k] - Mean(xs)
    ensures d * d <= ((|xs| - 1) as real) * Variance(xs)
  {
    var rest, total := OtherDeviations(xs, k, d);
    SumSquaredBound(rest);
    var n, m := |xs| as real, |rest| as real;
    ShareBound(d, total, n, m, Variance(xs), Sum(rest), Sum(Squares(rest)));
  }

  /** A value at least c standard deviations and a bit away needs more than c squared plus one values. */
  lemma FarNeedsMany(xs: seq<real>, k: nat, s: real, c: real, margin: real)
    requires k < |xs| && IsStd(xs, s) && c >= 0.0
    requires var d := xs[k] - Mean(xs); (d >= c * s + margin || -d >= c * s + margin)
    requires margin > 0.0
    ensures c * c < (|xs| - 1) as real
  {
    var d := xs[k] - Mean(xs);
    var far := if d >= c * s + margin then d else -d;
    var n1 := (|xs| - 1) as real;
    DeviationBound(xs, k, d);
    assert far * far == d * d;
    assert c * s >= 0.0;
    assert far * far > (c * s) * (c * s) by { SquareGrows(c * s, far); }
    assert (c * s) * (c * s) == (c * c) * (s * s);
    assert (n1 - c * c) * (s * s) > 0.0;
    if n1 - c * c <= 0.0 {
      ProductSign(c * c - n1, s * s);
    }
  }

  lemma SquareGrows(a: real, b: real)
    requires 0.0 <= a < b
    ensures b * b > a * a
  {
    Positive(b - a, b + a);
    assert b * b - a * a == (b - a) * (b + a);
  }

  lemma ProductSign(a: real, b: real)
    requires a >= 0.0 && b >= 0.0
    ensures a * b >= 0.0 && (-a) * b <= 0.0
  {
  }

  // ---- Windows that reach the bound ----

  function Repeat(x: real, n: nat): seq<real> {
    seq(n, _ => x)
  }

  lemma {:induction false} SumRepeat(x: real, n: nat)
    ensures Sum(Repeat(x, n)) == (n as real) * x
  {
    if n > 0 {
      assert Repeat(x, n)[..n - 1] == Repeat(x, n - 1);
      SumRepeat(x, n - 1);
    }
  }

  /** Three levels, and one value apart at the end. */
  function Levels(p: nat, u: real, q: nat, v: real, r: nat, w: real, d: real): (xs: seq<real>)
    ensures |xs| == p + q + r + 1 && xs[|xs| - 1] == d
  {
    Repeat(u, p) + Repeat(v, q) + Repeat(w, r) + [d]
  }

  lemma SumLevels(p: nat, u: real, q: nat, v: real, r: nat, w: real, d: real)
    ensures Sum(Levels(p, u, q, v, r, w, d)) == (p as real) * u + (q as real) * v + (r as real) * w + d
  {
    SumRepeat(u, p);
    SumRepeat(v, q);
    SumRepeat(w, r);
    SumAppend(Repeat(u, p), Repeat(v, q));
    SumAppend(Repeat(u, p) + Repeat(v, q), Repeat(w, r));
    SumSnoc(Repeat(u, p) + Repeat(v, q) + Repeat(w, r), d);
  }

  lemma MeanZero(xs: seq<real>)
    requires xs != [] && Sum(xs) == 0.0
    ensures Mean(xs) == 0.0 && Squares(Shifted(xs, Mean(xs))) == Squares(xs)
  {
    assert Mean(xs) == 0.0 / (|xs| as real) == 0.0;
    assert Shifted(xs, 0.0) == xs;
  }

  lemma SquaresOfLevels(p: nat, u: real, q: nat, v: real, r: nat, w: real, d: real)
    ensures Squares(Levels(p, u, q, v, r, w, d)) == Levels(p, Square(u), q, Square(v), r, Square(w), Square(d))
  {
  }

  /** Mean zero, and a given sum of squares. */
  lemma LevelsSpread(p: nat, u: real, q: nat, v: real, r: nat, w: real, d: real, s: real, squares: real)
    requires Sum(Levels(p, u, q, v, r, w, d)) == 0.0
    requires Sum(Levels(p, Square(u), q, Square(v), r, Square(w), Square(d))) == squares
    requires s >= 0.0 && squares / ((p + q + r + 1) as real) == s * s
    ensures Mean(Levels(p, u, q, v, r, w, d)) == 0.0 && IsStd(Levels(p, u, q, v, r, w, d), s)
  {
    SquaresOfLevels(p, u, q, v, r, w, d);
    MeanZero(Levels(p, u, q, v, r, w, d));
  }

  lemma ConstantSpread(xs: seq<real>)
    requires xs != [] && xs == Repeat(0.0, |xs|)
    ensures IsStd(xs, 0.0) && Mean(xs) == 0.0
  {
    SumRepeat(0.0, |xs|);
    MeanZero(xs);
    assert Squares(xs) == xs;
  }
}
