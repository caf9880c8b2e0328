/** normalize_data: z-score every numeric column, (x - mean) / std, with the sample
    standard deviation (n - 1 in the denominator), over exact reals. */
module Normalize {
  import opened Frames

  function Sum(xs: seq<real>): real {
    if xs == [] then 0.0 else xs[0] + Sum(xs[1..])
  }

  function Mean(xs: seq<real>): real
    requires |xs| > 0
  {
    Sum(xs) / |xs| as real
  }

  function Sq(d: real): real {
    d * d
  }

  lemma SqNonNegative(d: real)
    ensures Sq(d) >= 0.0
  {
  }

  /** The squared deviation of x from m. */
  function SqDev(x: real, m: real): real {
    Sq(x - m)
  }

  /** The squared deviation of each value from m. */
  function Squares(xs: seq<real>, m: real): (ss: seq<real>)
    ensures |ss| == |xs|
  {
    seq(|xs|, i requires 0 <= i < |xs| => SqDev(xs[i], m))
  }

  lemma SquaresNonNegative(xs: seq<real>, m: real)
    ensures forall i | 0 <= i < |xs| :: Squares(xs, m)[i] >= 0.0
  {
    forall i | 0 <= i < |xs| ensures Squares(xs, m)[i] >= 0.0 {
      SqNonNegative(xs[i] - m);
    }
  }

  /** The sum of squared deviations from m. */
  function SumSq(xs: seq<real>, m: real): (r: real)
    ensures r >= 0.0
  {
    SquaresNonNegative(xs, m);
    SumNonNegative(Squares(xs, m));
    Sum(Squares(xs, m))
  }

  lemma {:induction false} SumNonNegative(a: seq<real>)
    requires forall i | 0 <= i < |a| :: a[i] >= 0.0
    ensures Sum(a) >= 0.0
  {
    if a != [] {
      SumNonNegative(a[1..]);
    }
  }

  /** A sum of non-negative terms is zero only when every term is. */
  lemma {:induction false} SumNonNegativeZero(a: seq<real>)
    requires forall i | 0 <= i < |a| :: a[i] >= 0.0
    requires Sum(a) == 0.0
    ensures forall i | 0 <= i < |a| :: a[i] == 0.0
  {
    if a != [] {
      SumNonNegative(a[1..]);
      SumNonNegativeZero(a[1..]);
    }
  }

  /** A product of two non-zero reals is non-zero. */
  lemma NonZeroProduct(a: real, b: real, p: real)
    requires p == a * b && a != 0.0 && b != 0.0
    ensures p != 0.0
  {
  }

  lemma SquareZero(d: real, q: real)
    requires q == Sq(d) && q == 0.0
    ensures d == 0.0
  {
    if d != 0.0 {
      NonZeroProduct(d, d, d * d);
    }
  }

  /** Series.std's variance: squared deviations from the mean over n - 1. */
  function SampleVariance(xs: seq<real>): real
    requires |xs| >= 2
  {
    SumSq(xs, Mean(xs)) / (|xs| - 1) as real
  }

  /** s is the standard deviation of xs: the non-negative square root of its sample
      variance. */
  ghost predicate StdOf(s: real, xs: seq<real>)
    requires |xs| >= 2
  {
    s >= 0.0 && Sq(s) == SampleVariance(xs)
  }

  /** std computes the standard deviation of every sequence of at least two values. The
      square root itself is not computed by the model; std stands for it. */
  ghost predicate IsStd(std: seq<real> -> real) {
    forall xs: seq<real> | |xs| >= 2 :: StdOf(std(xs), xs)
  }

  /** x shifted by m and scaled by k. */
  function Shift(x: real, m: real, k: real): real {
    (x - m) * k
  }

  /** Every value shifted by m and scaled by k. */
  function Affine(xs: seq<real>, m: real, k: real): (ys: seq<real>)
    ensures |ys| == |xs|
  {
    seq(|xs|, i requires 0 <= i < |xs| => Shift(xs[i], m, k))
  }

  /** Shifting by 0 and scaling by 1 changes nothing. */
  lemma AffineIdentity(xs: seq<real>)
    ensures Affine(xs, 0.0, 1.0) == xs
  {
  }

  /** The z-scores (x - mean) / s, written as (x - mean) * (1 / s). */
  function ZScores(xs: seq<real>, s: real): (zs: seq<real>)
    requires |xs| > 0 && s != 0.0
    ensures |zs| == |xs|
  {
    Affine(xs, Mean(xs), 1.0 / s)
  }

  /** One column after normalisation. With fewer than two values the standard deviation is
      NaN, and with a zero standard deviation every (x - mean) is 0 and 0 / 0 is NaN: the
      column becomes all missing. Otherwise each value becomes its z-score. */
  function Standardized(xs: seq<real>, std: seq<real> -> real): (vs: seq<Value>)
    ensures |vs| == |xs|
    ensures |xs| < 2 || std(xs) == 0.0 ==> forall v <- vs :: v == Missing
    ensures |xs| >= 2 && std(xs) != 0.0 ==>
      forall i | 0 <= i < |xs| :: vs[i] == Num((xs[i] - Mean(xs)) / std(xs))
  {
    if |xs| < 2 || std(xs) == 0.0 then seq(|xs|, i => Missing)
    else
      var vs := seq(|xs|, i requires 0 <= i < |xs| => Num(ZScores(xs, std(xs))[i]));
      assert forall i | 0 <= i < |xs| :: vs[i] == Num((xs[i] - Mean(xs)) / std(xs)) by {
        forall i | 0 <= i < |xs| ensures vs[i] == Num((xs[i] - Mean(xs)) / std(xs)) {
          assert ZScores(xs, std(xs))[i] == Affine(xs, Mean(xs), 1.0 / std(xs))[i]
                                          == (xs[i] - Mean(xs)) * (1.0 / std(xs));
          TimesInverse(xs[i] - Mean(xs), std(xs));
        }
      }
      vs
  }

  /** Multiplying by 1 / s is dividing by s. */
  lemma TimesInverse(a: real, s: real)
    requires s != 0.0
    ensures a * (1.0 / s) == a / s
  {
  }

  /** The inductive step of SumAffine, over plain numbers. */
  lemma AffineStep(a: real, m: real, k: real, s: real, n: real, t: real, total: real, count: real)
    requires t == (s - n * m) * k && total == a + s && count == n + 1.0
    ensures Shift(a, m, k) + t == (total - count * m) * k
  {
  }

  lemma {:induction false} SumAffine(xs: seq<real>, m: real, k: real)
    ensures Sum(Affine(xs, m, k)) == (Sum(xs) - |xs| as real * m) * k
  {
    if xs != [] {
      var ys := Affine(xs, m, k);
      SumAffine(xs[1..], m, k);
      assert ys[1..] == Affine(xs[1..], m, k);
      AffineStep(xs[0], m, k, Sum(xs[1..]), |xs[1..]| as real, Sum(ys[1..]), Sum(xs), |xs| as real);
    }
  }

  lemma SumSqAffine(xs: seq<real>, m: real, k: real)
    ensures SumSq(Affine(xs, m, k), 0.0) == SumSq(xs, m) * (k * k)
  {
    var ss := Squares(xs, m);
    forall i | 0 <= i < |xs| ensures Squares(Affine(xs, m, k), 0.0)[i] == Affine(ss, 0.0, k * k)[i] {
      SquaresAffineAt(xs, m, k, i);
    }
    assert Squares(Affine(xs, m, k), 0.0) == Affine(ss, 0.0, k * k);
    SumAffine(ss, 0.0, k * k);
    SubZeroTimes(Sum(ss), |ss| as real, k * k);
  }

  lemma SquaresAffineAt(xs: seq<real>, m: real, k: real, i: nat)
    requires i < |xs|
    ensures Squares(Affine(xs, m, k), 0.0)[i] == Affine(Squares(xs, m), 0.0, k * k)[i]
  {
    SqScale(xs[i], m, k, Affine(xs, m, k)[i], Squares(xs, m)[i]);
  }

  lemma SubZeroTimes(s: real, n: real, c: real)
    ensures (s - n * 0.0) * c == s * c
  {
  }

  lemma SqScale(x: real, m: real, k: real, e: real, q: real)
    requires e == Shift(x, m, k) && q == SqDev(x, m)
    ensures SqDev(e, 0.0) == (q - 0.0) * (k * k)
  {
  }

  lemma MeanTimesCount(xs: seq<real>)
    requires |xs| > 0
    ensures |xs| as real * Mean(xs) == Sum(xs)
  {
  }

  /** Z-scores sum to zero, so their mean is zero. */
  lemma ZScoresMeanZero(xs: seq<real>, s: real)
    requires |xs| > 0 && s != 0.0
    ensures Sum(ZScores(xs, s)) == 0.0
    ensures Mean(ZScores(xs, s)) == 0.0
  {
    SumAffine(xs, Mean(xs), 1.0 / s);
    MeanTimesCount(xs);
  }

  /** Dividing by the standard deviation gives a sample variance of one. */
  lemma ZScoresUnitVariance(xs: seq<real>, s: real)
    requires |xs| >= 2 && StdOf(s, xs) && s != 0.0
    ensures SampleVariance(ZScores(xs, s)) == 1.0
  {
    var zs := ZScores(xs, s);
    var k := 1.0 / s;
    ZScoresMeanZero(xs, s);
    SumSqAffine(xs, Mean(xs), k);
    var n := (|xs| - 1) as real;
    var q := SumSq(xs, Mean(xs));
    assert Mean(zs) == 0.0;
    assert SumSq(zs, 0.0) == q * (k * k);
    assert SampleVariance(zs) == SumSq(zs, 0.0) / n;
    UnitScale(q, n, s, k);
  }

  /** (q * k^2) / n == 1 when q / n == s^2 and k == 1 / s. */
  lemma UnitScale(q: real, n: real, s: real, k: real)
    requires n > 0.0 && s > 0.0 && k == 1.0 / s && q / n == s * s
    ensures q * (k * k) / n == 1.0
  {
    assert q * (k * k) / n == (q / n) * (k * k);
    assert s * k == 1.0;
    assert (s * s) * (k * k) == (s * k) * (s * k);
  }

  lemma {:induction false} SumConstant(xs: seq<real>, c: real)
    requires forall i | 0 <= i < |xs| :: xs[i] == c
    ensures Sum(xs) == |xs| as real * c
  {
    if xs != [] {
      SumConstant(xs[1..], c);
      assert |xs[1..]| as real == |xs| as real - 1.0;
    }
  }

  /** Deviations from the common value of a constant sequence square to nothing. */
  lemma SumSqConstant(xs: seq<real>, c: real)
    requires forall i | 0 <= i < |xs| :: xs[i] == c
    ensures SumSq(xs, c) == 0.0
  {
    SumConstant(Squares(xs, c), 0.0);
  }

  /** A sum of squares is zero only when every term is. */
  lemma SumSqZero(xs: seq<real>, m: real)
    requires SumSq(xs, m) == 0.0
    ensures forall i | 0 <= i < |xs| :: xs[i] == m
  {
    SquaresNonNegative(xs, m);
    SumNonNegativeZero(Squares(xs, m));
    forall i | 0 <= i < |xs| ensures xs[i] == m {
      SquareZero(xs[i] - m, Squares(xs, m)[i]);
    }
  }

  lemma QuotientZero(q: real, n: real)
    requires n > 0.0 && q / n == 0.0
    ensures q == 0.0
  {
    assert q == (q / n) * n;
  }

  /** All values are equal. */
  predicate Constant(xs: seq<real>) {
    forall i | 0 <= i < |xs| :: xs[i] == xs[0]
  }

  /** The sample variance is zero exactly for a constant column. */
  lemma VarianceZero(xs: seq<real>)
    requires |xs| >= 2
    ensures SampleVariance(xs) == 0.0 <==> Constant(xs)
  {
    if Constant(xs) {
      SumConstant(xs, xs[0]);
      MeanTimesCount(xs);
      assert Mean(xs) == xs[0];
      SumSqConstant(xs, xs[0]);
    }
    if SampleVariance(xs) == 0.0 {
      QuotientZero(SumSq(xs, Mean(xs)), (|xs| - 1) as real);
      SumSqZero(xs, Mean(xs));
    }
  }

  /** The standard deviation is zero exactly for a constant column. */
  lemma StdZero(xs: seq<real>, s: real)
    requires |xs| >= 2 && StdOf(s, xs)
    ensures s == 0.0 <==> Constant(xs)
  {
    VarianceZero(xs);
    if SampleVariance(xs) == 0.0 {
      SquareZero(s, Sq(s));
    }
  }

  /** The standard deviation of z-scores is one, and standardizing them again changes nothing. */
  lemma ZScoresFixed(xs: seq<real>, s: real, t: real)
    requires |xs| >= 2 && StdOf(s, xs) && s != 0.0
    requires StdOf(t, ZScores(xs, s))
    ensures t == 1.0 && ZScores(ZScores(xs, s), t) == ZScores(xs, s)
  {
    var zs := ZScores(xs, s);
    ZScoresMeanZero(xs, s);
    ZScoresUnitVariance(xs, s);
    SqrtOne(t);
    AffineIdentity(zs);
  }

  lemma SqrtOne(s: real)
    requires s >= 0.0 && Sq(s) == 1.0
    ensures s == 1.0
  {
    assert (s - 1.0) * (s + 1.0) == Sq(s) - 1.0;
    if s != 1.0 {
      NonZeroProduct(s - 1.0, s + 1.0, (s - 1.0) * (s + 1.0));
    }
  }

  /** A column turns all missing exactly when it has fewer than two values or all its
      values are equal; otherwise every value turns into a number. */
  lemma StandardizedMissing(xs: seq<real>, std: seq<real> -> real)
    requires |xs| >= 2 ==> StdOf(std(xs), xs)
    ensures |xs| < 2 || Constant(xs) ==> forall v <- Standardized(xs, std) :: v == Missing
    ensures |xs| >= 2 && !Constant(xs) ==> std(xs) > 0.0 && forall v <- Standardized(xs, std) :: v.Num?
  {
    if |xs| >= 2 {
      StdZero(xs, std(xs));
    }
  }

  /** A column every one of whose cells is a number (an int64 or float64 column). */
  predicate NumericColumn(f: Frame, j: nat)
    requires WellFormed(f)
  {
    j < |f.columns| && forall r <- f.rows :: r.cells[j].Num?
  }

  /** The numbers of a numeric column, top to bottom. */
  function ColumnValues(f: Frame, j: nat): (xs: seq<real>)
    requires WellFormed(f) && NumericColumn(f, j)
    ensures |xs| == |f.rows| && forall i | 0 <= i < |f.rows| :: f.rows[i].cells[j] == Num(xs[i])
  {
    seq(|f.rows|, i requires 0 <= i < |f.rows| => assert f.rows[i] in f.rows; f.rows[i].cells[j].x)
  }

  function NormalizedCell(f: Frame, std: seq<real> -> real, i: nat, j: nat): Value
    requires WellFormed(f) && i < |f.rows| && j < |f.columns|
  {
    if NumericColumn(f, j) then Standardized(ColumnValues(f, j), std)[i] else f.rows[i].cells[j]
  }

  /** normalize_data (pipeline.py:21-24): every numeric column is standardized, every other
      column and every label is left as it was. */
  function NormalizeData(f: Frame, std: seq<real> -> real): (g: Frame)
    requires WellFormed(f)
    ensures WellFormed(g) && g.columns == f.columns && |g.rows| == |f.rows|
    ensures forall i | 0 <= i < |f.rows| :: g.rows[i].index == f.rows[i].index
  {
    Frame(f.columns, seq(|f.rows|, i requires 0 <= i < |f.rows| =>
      Row(f.rows[i].index, seq(|f.columns|, j requires 0 <= j < |f.columns| => NormalizedCell(f, std, i, j)))))
  }

  /** Columns that are not numeric keep every cell. */
  lemma NormalizeKeepsOthers(f: Frame, std: seq<real> -> real, j: nat)
    requires WellFormed(f) && j < |f.columns| && !NumericColumn(f, j)
    ensures forall i | 0 <= i < |f.rows| :: NormalizeData(f, std).rows[i].cells[j] == f.rows[i].cells[j]
  {
  }

  /** Each cell of a numeric column is the matching entry of the standardized column. */
  lemma NormalizeColumnCells(f: Frame, std: seq<real> -> real, j: nat)
    requires WellFormed(f) && NumericColumn(f, j)
    ensures forall i | 0 <= i < |f.rows| ::
      NormalizeData(f, std).rows[i].cells[j] == Standardized(ColumnValues(f, j), std)[i]
  {
  }

  /** A numeric column whose standard deviation is not zero comes out numeric, each value
      the z-score of the old one. */
  lemma NormalizeColumnValues(f: Frame, std: seq<real> -> real, j: nat)
    requires WellFormed(f) && NumericColumn(f, j)
    requires |f.rows| >= 2 && std(ColumnValues(f, j)) != 0.0
    ensures var xs := ColumnValues(f, j);
      NumericColumn(NormalizeData(f, std), j) &&
      ColumnValues(NormalizeData(f, std), j) == ZScores(xs, std(xs))
  {
    var g := NormalizeData(f, std);
    var xs := ColumnValues(f, j);
    var zs := ZScores(xs, std(xs));
    NormalizeColumnCells(f, std, j);
    forall i | 0 <= i < |g.rows| ensures g.rows[i].cells[j] == Num(zs[i]) {
    }
    forall r <- g.rows ensures r.cells[j].Num? {
      var i :| 0 <= i < |g.rows| && g.rows[i] == r;
    }
  }

  /** A numeric column with at least two distinct values comes out numeric, as z-scores:
      the new column has mean 0 and sample variance 1. */
  lemma NormalizeColumn(f: Frame, std: seq<real> -> real, j: nat)
    requires WellFormed(f) && IsStd(std) && NumericColumn(f, j)
    requires |f.rows| >= 2 && !Constant(ColumnValues(f, j))
    ensures var xs := ColumnValues(f, j);
      std(xs) > 0.0 && NumericColumn(NormalizeData(f, std), j) &&
      ColumnValues(NormalizeData(f, std), j) == ZScores(xs, std(xs))
    ensures var ys := ColumnValues(NormalizeData(f, std), j);
      Mean(ys) == 0.0 && SampleVariance(ys) == 1.0
  {
    var xs := ColumnValues(f, j);
    assert StdOf(std(xs), xs);
    StdZero(xs, std(xs));
    NormalizeColumnValues(f, std, j);
    ZScoresMeanZero(xs, std(xs));
    ZScoresUnitVariance(xs, std(xs));
  }

  /** A numeric column with fewer than two rows, or whose values are all equal, comes out
      all missing. */
  lemma NormalizeConstantColumn(f: Frame, std: seq<real> -> real, j: nat)
    requires WellFormed(f) && IsStd(std) && NumericColumn(f, j)
    requires |f.rows| < 2 || Constant(ColumnValues(f, j))
    ensures forall i | 0 <= i < |f.rows| :: NormalizeData(f, std).rows[i].cells[j] == Missing
  {
    var xs := ColumnValues(f, j);
    StandardizedMissing(xs, std);
    NormalizeColumnCells(f, std, j);
    forall i | 0 <= i < |f.rows| ensures NormalizeData(f, std).rows[i].cells[j] == Missing {
      assert Standardized(xs, std)[i] in Standardized(xs, std);
    }
  }

  /** A column that is not numeric after normalisation is left alone by the second pass. */
  lemma SecondPassKeeps(g: Frame, std: seq<real> -> real, i: nat, j: nat)
    requires WellFormed(g) && i < |g.rows| && j < |g.columns| && !g.rows[i].cells[j].Num?
    ensures NormalizeData(g, std).rows[i].cells[j] == g.rows[i].cells[j]
  {
    assert g.rows[i] in g.rows;
    NormalizeKeepsOthers(g, std, j);
  }

  /** A column that is not numeric is not numeric after the first pass either. */
  lemma IdempotentOther(f: Frame, std: seq<real> -> real, i: nat, j: nat)
    requires WellFormed(f) && i < |f.rows| && j < |f.columns| && !NumericColumn(f, j)
    ensures var g := NormalizeData(f, std);
      NormalizeData(g, std).rows[i].cells[j] == g.rows[i].cells[j]
  {
    var g := NormalizeData(f, std);
    NormalizeKeepsOthers(f, std, j);
    var r :| r in f.rows && !r.cells[j].Num?;
    var k :| 0 <= k < |f.rows| && f.rows[k] == r;
    assert g.rows[k] in g.rows;
    NormalizeKeepsOthers(g, std, j);
  }

  /** A column of z-scores standardizes to itself. */
  lemma IdempotentSpread(f: Frame, std: seq<real> -> real, i: nat, j: nat)
    requires WellFormed(f) && IsStd(std) && i < |f.rows| && NumericColumn(f, j)
    requires |f.rows| >= 2 && !Constant(ColumnValues(f, j))
    ensures var g := NormalizeData(f, std);
      NormalizeData(g, std).rows[i].cells[j] == g.rows[i].cells[j]
  {
    var g := NormalizeData(f, std);
    var xs := ColumnValues(f, j);
    NormalizeColumn(f, std, j);
    var zs := ZScores(xs, std(xs));
    assert StdOf(std(xs), xs) && StdOf(std(zs), zs);
    ZScoresFixed(xs, std(xs), std(zs));
    NormalizeColumnCells(g, std, j);
    assert Standardized(zs, std)[i] == Num(zs[i]);
  }

  /** One cell of NormalizeIdempotent. */
  lemma NormalizeIdempotentAt(f: Frame, std: seq<real> -> real, i: nat, j: nat)
    requires WellFormed(f) && IsStd(std) && i < |f.rows| && j < |f.columns|
    ensures var g := NormalizeData(f, std);
      NormalizeData(g, std).rows[i].cells[j] == g.rows[i].cells[j]
  {
    if !NumericColumn(f, j) {
      IdempotentOther(f, std, i, j);
    } else if |f.rows| < 2 || Constant(ColumnValues(f, j)) {
      NormalizeConstantColumn(f, std, j);
      SecondPassKeeps(NormalizeData(f, std), std, i, j);
    } else {
      IdempotentSpread(f, std, i, j);
    }
  }

  /** Normalising twice gives the same frame as normalising once. */
  lemma NormalizeIdempotent(f: Frame, std: seq<real> -> real)
    requires WellFormed(f) && IsStd(std)
    ensures NormalizeData(NormalizeData(f, std), std) == NormalizeData(f, std)
  {
    var g := NormalizeData(f, std);
    var h := NormalizeData(g, std);
    forall i | 0 <= i < |f.rows| ensures h.rows[i] == g.rows[i] {
      forall j | 0 <= j < |f.columns| ensures h.rows[i].cells[j] == g.rows[i].cells[j] {
        NormalizeIdempotentAt(f, std, i, j);
      }
    }
  }
}
