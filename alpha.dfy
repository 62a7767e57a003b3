/**
 * The coefficient of `IRRProcessor.calculate_irr` as specification functions
 * over the count cells of the agreement table (one row per item, one column
 * per label): Krippendorff's alpha with nominal weights in Gwet's multi-label
 * form, computed in exact rational arithmetic. The lemmas bound the
 * intermediate quantities and the result.
 */
module Coefficient {
  import opened Wrappers
  import opened Sums

  /** The divisions `calculate_irr` cannot carry out: n is 0 (Python raises
      ZeroDivisionError), or, with numpy, a division by zero that yields NaN or
      infinity: no label assigned at all (rbar is 0), an item with exactly one
      label assignment (r_i - 1 is 0), or p_e equal to 1. */
  datatype AlphaError = NoItems | NoRatings | SingleRatingItem(row: nat) | ChanceAgreementIsOne

  predicate Rectangular(cells: seq<seq<nat>>, m: nat) {
    forall i :: 0 <= i < |cells| ==> |cells[i]| == m
  }

  /** The row sums of the first n rows added up. */
  function TotalTo(cells: seq<seq<nat>>, n: nat): nat
    requires n <= |cells|
  {
    if n == 0 then 0 else TotalTo(cells, n - 1) + RowSum(cells[n - 1])
  }

  /** `total_num_ratings`: the number of label assignments in the table. */
  function Total(cells: seq<seq<nat>>): nat {
    TotalTo(cells, |cells|)
  }

  /** Column k of the first n rows added up. */
  function ColumnSumTo(cells: seq<seq<nat>>, k: nat, n: nat): nat
    requires n <= |cells| && forall i :: 0 <= i < n ==> k < |cells[i]|
  {
    if n == 0 then 0 else ColumnSumTo(cells, k, n - 1) + cells[n - 1][k]
  }

  /** `agreement_table[label].sum()` for the k-th label. */
  function ColumnSum(cells: seq<seq<nat>>, m: nat, k: nat): nat
    requires Rectangular(cells, m) && k < m
  {
    ColumnSumTo(cells, k, |cells|)
  }

  /** `rbar`: the label assignments of the table divided by the number of rows. */
  function Rbar(cells: seq<seq<nat>>): real
    requires |cells| > 0
  {
    Total(cells) as real / |cells| as real
  }

  /** `p_aik` for a cell r_ik of a row whose sum is r_i (with `rbar_ik` = r_ik). */
  function PAik(rik: nat, ri: nat, rbar: real): real
    requires rbar != 0.0 && ri != 1
  {
    (rik as real) * ((rik as real) - 1.0) / (rbar * ((ri as real) - 1.0))
  }

  /** The p_aik of the first k cells of a row added up. */
  function RowAgreementTo(row: seq<nat>, rbar: real, k: nat): real
    requires k <= |row| && rbar != 0.0 && RowSum(row) != 1
  {
    if k == 0 then 0.0 else RowAgreementTo(row, rbar, k - 1) + PAik(row[k - 1], RowSum(row), rbar)
  }

  function RowAgreement(row: seq<nat>, rbar: real): real
    requires rbar != 0.0 && RowSum(row) != 1
  {
    RowAgreementTo(row, rbar, |row|)
  }

  predicate NoSingleRating(cells: seq<seq<nat>>, n: nat)
    requires n <= |cells|
  {
    forall i :: 0 <= i < n ==> RowSum(cells[i]) != 1
  }

  /** The p_aik of the first n rows added up. */
  function AgreementTo(cells: seq<seq<nat>>, rbar: real, n: nat): real
    requires n <= |cells| && rbar != 0.0 && NoSingleRating(cells, n)
  {
    if n == 0 then 0.0 else AgreementTo(cells, rbar, n - 1) + RowAgreement(cells[n - 1], rbar)
  }

  /** The first of the first n rows with exactly one label assignment. */
  function SingleRatingRow(cells: seq<seq<nat>>, n: nat): (r: Option<nat>)
    requires n <= |cells|
    ensures r.None? <==> NoSingleRating(cells, n)
    ensures r.Some? ==> r.value < n && RowSum(cells[r.value]) == 1 && NoSingleRating(cells, r.value)
  {
    if n == 0 then None
    else match SingleRatingRow(cells, n - 1)
      case Some(i) => Some(i)
      case None => if RowSum(cells[n - 1]) == 1 then Some(n - 1) else None
  }

  /** `p_primea`. */
  function PPrimeA(cells: seq<seq<nat>>): real
    requires |cells| > 0 && Total(cells) > 0 && NoSingleRating(cells, |cells|)
  {
    AgreementTo(cells, Rbar(cells), |cells|) / |cells| as real
  }

  /** `p_a`, as the source writes it, with n * rbar. */
  function PA(cells: seq<seq<nat>>): real
    requires |cells| > 0 && Total(cells) > 0 && NoSingleRating(cells, |cells|)
  {
    var nr := |cells| as real * Rbar(cells);
    PPrimeA(cells) * (1.0 - 1.0 / nr) + 1.0 / nr
  }

  /** `PI_k`: the share of all label assignments that went to label k. */
  function Pi(cells: seq<seq<nat>>, m: nat, k: nat): real
    requires Rectangular(cells, m) && k < m && Total(cells) > 0
  {
    ColumnSum(cells, m, k) as real / Total(cells) as real
  }

  function PeTo(cells: seq<seq<nat>>, m: nat, j: nat): real
    requires Rectangular(cells, m) && j <= m && Total(cells) > 0
  {
    if j == 0 then 0.0 else PeTo(cells, m, j - 1) + Pi(cells, m, j - 1) * Pi(cells, m, j - 1)
  }

  /** `p_e`: the sum of the squared PI_k. */
  function Pe(cells: seq<seq<nat>>, m: nat): real
    requires Rectangular(cells, m) && Total(cells) > 0
  {
    PeTo(cells, m, m)
  }

  /** The coefficient `calculate_irr` returns for a table with m label
      columns, or the division it cannot carry out. */
  function Alpha(cells: seq<seq<nat>>, m: nat): Result<real, AlphaError>
    requires Rectangular(cells, m)
  {
    if |cells| == 0 then Err(NoItems)
    else if Total(cells) == 0 then Err(NoRatings)
    else match SingleRatingRow(cells, |cells|)
      case Some(i) => Err(SingleRatingItem(i))
      case None =>
        var pa, pe := PA(cells), Pe(cells, m);
        if pe == 1.0 then Err(ChanceAgreementIsOne) else Ok((pa - pe) / (1.0 - pe))
  }

  /** p_a from p_primea and n * rbar computed step by step. */
  lemma PAOf(cells: seq<seq<nat>>, p: real, rbar: real, nRbar: real)
    requires |cells| > 0 && Total(cells) > 0 && NoSingleRating(cells, |cells|)
    requires p == PPrimeA(cells) && rbar == Rbar(cells) && nRbar == |cells| as real * rbar
    ensures nRbar != 0.0 && PA(cells) == p * (1.0 - 1.0 / nRbar) + 1.0 / nRbar
  {
  }

  /** The coefficient from p_a and p_e computed step by step. */
  lemma AlphaOf(cells: seq<seq<nat>>, m: nat, pa: real, pe: real)
    requires Rectangular(cells, m) && |cells| > 0 && Total(cells) > 0 && NoSingleRating(cells, |cells|)
    requires pa == PA(cells) && pe == Pe(cells, m) && pe != 1.0
    ensures Alpha(cells, m) == Ok((pa - pe) / (1.0 - pe))
  {
  }

  // ---------------------------------------------------------------------------
  // Facts of real arithmetic, kept apart so that each proof sees few terms

  lemma ProductNonNegative(a: real, b: real)
    requires 0.0 <= a && 0.0 <= b
    ensures 0.0 <= a * b
  {
  }

  lemma QuotientMonotone(a: real, b: real, d: real)
    requires a <= b && d > 0.0
    ensures a / d <= b / d
  {
  }

  lemma QuotientSum(a: real, b: real, d: real)
    requires d != 0.0
    ensures a / d + b / d == (a + b) / d
  {
  }

  lemma QuotientStep(total: real, prev: real, step: real, before: real, pairs: real, d: real)
    requires d != 0.0 && prev == before / d && step == pairs / d && total == prev + step
    ensures total == (before + pairs) / d
  {
    QuotientSum(before, pairs, d);
  }

  lemma ProductCast(a: int, b: int)
    ensures (a * b) as real == (a as real) * (b as real)
  {
  }

  // ---------------------------------------------------------------------------
  // rbar and p_a

  /** n * rbar is the number of label assignments, so p_a mixes p_primea with
      1 / total_num_ratings. */
  lemma PAWithTotal(cells: seq<seq<nat>>)
    requires |cells| > 0 && Total(cells) > 0 && NoSingleRating(cells, |cells|)
    ensures |cells| as real * Rbar(cells) == Total(cells) as real
    ensures var t := Total(cells) as real;
      PA(cells) == PPrimeA(cells) * (1.0 - 1.0 / t) + 1.0 / t
  {
  }

  // ---------------------------------------------------------------------------
  // p_aik and p_primea

  /** A cell never exceeds its row's sum. */
  lemma {:induction false} CellAtMostRowSum(row: seq<nat>, k: nat, j: nat)
    requires k < j <= |row|
    ensures row[k] <= SumTo(row, j)
  {
    if k < j - 1 {
      CellAtMostRowSum(row, k, j - 1);
    }
  }

  /** Every p_aik is non-negative, and it is 0 when the label got at most one
      assignment. */
  lemma PAikSign(rik: nat, ri: nat, rbar: real)
    requires rbar > 0.0 && ri != 1 && rik <= ri
    ensures PAik(rik, ri, rbar) >= 0.0
    ensures rik <= 1 ==> PAik(rik, ri, rbar) == 0.0
  {
    var x := rik as real;
    if ri >= 2 {
      var d := rbar * ((ri as real) - 1.0);
      ProductNonNegative(rbar, (ri as real) - 1.0);
      assert d > 0.0;
      if rik >= 1 {
        ProductNonNegative(x, x - 1.0);
      }
      assert x * (x - 1.0) >= 0.0;
    }
  }

  /** x * (x - 1), the numerator of p_aik for a cell x. */
  function Pairs(x: nat): nat {
    if x == 0 then 0 else x * (x - 1)
  }

  lemma PairsReal(x: nat)
    ensures Pairs(x) as real == (x as real) * ((x as real) - 1.0)
  {
    if x > 0 {
      ProductCast(x, x - 1);
    }
  }

  /** Pairs summed over the first k cells of a row. */
  function PairsTo(row: seq<nat>, k: nat): int
    requires k <= |row|
  {
    if k == 0 then 0 else PairsTo(row, k - 1) + Pairs(row[k - 1])
  }

  /** The pairs within cells never outnumber the pairs within the whole row. */
  lemma {:induction false} PairsBound(row: seq<nat>, k: nat)
    requires k <= |row|
    ensures 0 <= PairsTo(row, k) <= SumTo(row, k) * (SumTo(row, k) - 1)
  {
    if k > 0 {
      var s, x := SumTo(row, k - 1), row[k - 1];
      var before := PairsTo(row, k - 1);
      assert 0 <= before <= s * (s - 1) by {
        PairsBound(row, k - 1);
      }
      assert PairsTo(row, k) == before + Pairs(x) && SumTo(row, k) == s + x;
      PairsStep(before, s, x);
    }
  }

  lemma PairsStep(before: int, s: nat, x: nat)
    requires 0 <= before <= s * (s - 1)
    ensures 0 <= before + Pairs(x) <= (s + x) * (s + x - 1)
  {
    assert Pairs(x) == x * (x - 1);
    assert (s + x) * (s + x - 1) == s * (s - 1) + x * (x - 1) + 2 * (s * x);
    assert s * x >= 0;
  }

  lemma RowAgreementIsPairs(row: seq<nat>, rbar: real, k: nat)
    requires k <= |row| && rbar != 0.0 && RowSum(row) != 1
    ensures RowAgreementTo(row, rbar, k) == PairsTo(row, k) as real / (rbar * (RowSum(row) as real - 1.0))
  {
    var r := RowSum(row);
    ProductNonZero(rbar, r as real - 1.0);
    RowAgreementOver(row, rbar, k, r, rbar * (r as real - 1.0));
  }

  /** RowAgreementIsPairs with the row sum and the divisor named. */
  lemma {:induction false} RowAgreementOver(row: seq<nat>, rbar: real, k: nat, r: nat, d: real)
    requires k <= |row| && rbar != 0.0 && r == RowSum(row) && r != 1
    requires d == rbar * (r as real - 1.0) && d != 0.0
    ensures RowAgreementTo(row, rbar, k) == PairsTo(row, k) as real / d
  {
    if k == 0 {
      ZeroQuotient(d);
    } else {
      var prev, step := RowAgreementTo(row, rbar, k - 1), PAik(row[k - 1], r, rbar);
      assert prev == PairsTo(row, k - 1) as real / d by {
        RowAgreementOver(row, rbar, k - 1, r, d);
      }
      assert step == Pairs(row[k - 1]) as real / d by {
        PAikPairs(row[k - 1], r, rbar);
      }
      PairsQuotientStep(RowAgreementTo(row, rbar, k), prev, step, PairsTo(row, k - 1), Pairs(row[k - 1]), PairsTo(row, k), d);
    }
  }

  /** Adding one cell's pairs over a common divisor. */
  lemma PairsQuotientStep(total: real, prev: real, step: real, before: int, pairs: int, after: int, d: real)
    requires d != 0.0 && after == before + pairs
    requires prev == before as real / d && step == pairs as real / d && total == prev + step
    ensures total == after as real / d
  {
    QuotientSum(before as real, pairs as real, d);
  }

  lemma PAikPairs(x: nat, ri: nat, rbar: real)
    requires rbar != 0.0 && ri != 1
    ensures rbar * (ri as real - 1.0) != 0.0
    ensures PAik(x, ri, rbar) == Pairs(x) as real / (rbar * (ri as real - 1.0))
  {
    PairsReal(x);
    ProductNonZero(rbar, ri as real - 1.0);
  }

  lemma ZeroQuotient(d: real)
    requires d != 0.0
    ensures 0.0 / d == 0.0
  {
  }

  lemma ProductNonZero(a: real, b: real)
    requires a != 0.0 && b != 0.0
    ensures a * b != 0.0
  {
  }

  /** The agreement of one row lies between 0 and r_i / rbar. */
  lemma RowAgreementBound(row: seq<nat>, rbar: real)
    requires rbar > 0.0 && RowSum(row) != 1
    ensures 0.0 <= RowAgreement(row, rbar) <= RowSum(row) as real / rbar
  {
    var r, p, q := RowSum(row), PairsTo(row, |row|), RowAgreement(row, rbar);
    assert q == (p as real) / (rbar * (r as real - 1.0)) by {
      RowAgreementIsPairs(row, rbar, |row|);
    }
    assert 0 <= p <= r * (r - 1) by {
      PairsBound(row, |row|);
    }
    RowAgreementFromPairs(r, rbar, p, q);
  }

  lemma RowAgreementFromPairs(r: nat, rbar: real, p: int, q: real)
    requires rbar > 0.0 && r != 1 && 0 <= p <= r * (r - 1)
    requires q == (p as real) / (rbar * (r as real - 1.0))
    ensures 0.0 <= q <= r as real / rbar
  {
    if r == 0 {
      RowAgreementEmpty(p, rbar * (r as real - 1.0), q);
    } else {
      RowAgreementPositive(r, rbar, p, q);
    }
  }

  lemma RowAgreementEmpty(p: int, d: real, q: real)
    requires p == 0 && d != 0.0 && q == (p as real) / d
    ensures q == 0.0
  {
  }

  lemma RowAgreementPositive(r: nat, rbar: real, p: int, q: real)
    requires rbar > 0.0 && r >= 2
    requires 0 <= p <= r * (r - 1)
    requires q == (p as real) / (rbar * (r as real - 1.0))
    ensures 0.0 <= q <= r as real / rbar
  {
    PairsCast(p, r);
    PairsQuotientBound(p as real, r as real, rbar);
  }

  lemma PairsCast(p: int, r: nat)
    requires r >= 1 && 0 <= p <= r * (r - 1)
    ensures 0.0 <= p as real <= (r as real) * (r as real - 1.0)
  {
    PairsReal(r);
    assert Pairs(r) == r * (r - 1);
  }

  lemma PairsQuotientBound(p: real, r: real, rbar: real)
    requires rbar > 0.0 && r >= 2.0
    requires 0.0 <= p <= r * (r - 1.0)
    ensures 0.0 <= p / (rbar * (r - 1.0)) <= r / rbar
  {
    var d := rbar * (r - 1.0);
    ProductNonNegative(rbar, r - 1.0);
    assert d > 0.0;
    QuotientMonotone(0.0, p, d);
    QuotientMonotone(p, r * (r - 1.0), d);
    assert (r * (r - 1.0)) / (rbar * (r - 1.0)) == r / rbar;
  }

  lemma {:induction false} AgreementBound(cells: seq<seq<nat>>, rbar: real, n: nat)
    requires n <= |cells| && rbar > 0.0 && NoSingleRating(cells, n)
    ensures 0.0 <= AgreementTo(cells, rbar, n) <= TotalTo(cells, n) as real / rbar
  {
    if n > 0 {
      AgreementBound(cells, rbar, n - 1);
      RowAgreementBound(cells[n - 1], rbar);
      QuotientSum(TotalTo(cells, n - 1) as real, RowSum(cells[n - 1]) as real, rbar);
    }
  }

  lemma RbarBound(a: real, n: real, t: real)
    requires n > 0.0 && t > 0.0
    requires 0.0 <= a <= t / (t / n)
    ensures 0.0 <= a / n <= 1.0
  {
    assert t / (t / n) == n;
  }

  lemma MixBound(p: real, t: real)
    requires 0.0 <= p <= 1.0 && t >= 1.0
    ensures 1.0 / t <= p * (1.0 - 1.0 / t) + 1.0 / t <= 1.0
  {
    var w := 1.0 / t;
    assert 0.0 < w <= 1.0;
    ProductNonNegative(p, 1.0 - w);
    ProductNonNegative(1.0 - p, 1.0 - w);
  }

  /** p_primea lies in [0, 1], hence p_a lies between 1 / total_num_ratings
      and 1. */
  lemma PPrimeABound(cells: seq<seq<nat>>)
    requires |cells| > 0 && Total(cells) > 0 && NoSingleRating(cells, |cells|)
    ensures 0.0 <= PPrimeA(cells) <= 1.0
    ensures 1.0 / Total(cells) as real <= PA(cells) <= 1.0
  {
    var t, p := Total(cells) as real, PPrimeA(cells);
    PPrimeARange(cells);
    PAWithTotal(cells);
    assert PA(cells) == p * (1.0 - 1.0 / t) + 1.0 / t;
    assert t >= 1.0;
    MixBound(p, t);
  }

  lemma PPrimeARange(cells: seq<seq<nat>>)
    requires |cells| > 0 && Total(cells) > 0 && NoSingleRating(cells, |cells|)
    ensures 0.0 <= PPrimeA(cells) <= 1.0
  {
    var n, t, rbar := |cells| as real, Total(cells) as real, Rbar(cells);
    var a := AgreementTo(cells, rbar, |cells|);
    assert 0.0 <= a <= t / rbar by {
      AgreementBound(cells, rbar, |cells|);
    }
    assert PPrimeA(cells) == a / n;
    RbarBound(a, n, t);
  }

  // ---------------------------------------------------------------------------
  // PI_k and p_e

  /** The first j column sums added up. */
  function ColumnsTo(cells: seq<seq<nat>>, m: nat, j: nat, n: nat): nat
    requires Rectangular(cells, m) && j <= m && n <= |cells|
  {
    if j == 0 then 0 else ColumnsTo(cells, m, j - 1, n) + ColumnSumTo(cells, j - 1, n)
  }

  lemma {:induction false} ColumnsToLastRow(cells: seq<seq<nat>>, m: nat, j: nat, n: nat)
    requires Rectangular(cells, m) && j <= m && 0 < n <= |cells|
    ensures ColumnsTo(cells, m, j, n) == ColumnsTo(cells, m, j, n - 1) + SumTo(cells[n - 1], j)
  {
    if j > 0 {
      ColumnsToLastRow(cells, m, j - 1, n);
    }
  }

  lemma {:induction false} ColumnsToTotal(cells: seq<seq<nat>>, m: nat, n: nat)
    requires Rectangular(cells, m) && n <= |cells|
    ensures ColumnsTo(cells, m, m, n) == TotalTo(cells, n)
  {
    if n == 0 {
      ColumnsToNoRows(cells, m, m);
    } else {
      ColumnsToTotal(cells, m, n - 1);
      ColumnsToLastRow(cells, m, m, n);
    }
  }

  lemma {:induction false} ColumnsToNoRows(cells: seq<seq<nat>>, m: nat, j: nat)
    requires Rectangular(cells, m) && j <= m
    ensures ColumnsTo(cells, m, j, 0) == 0
  {
    if j > 0 {
      ColumnsToNoRows(cells, m, j - 1);
    }
  }

  function PiSumTo(cells: seq<seq<nat>>, m: nat, j: nat): real
    requires Rectangular(cells, m) && j <= m && Total(cells) > 0
  {
    if j == 0 then 0.0 else PiSumTo(cells, m, j - 1) + Pi(cells, m, j - 1)
  }

  lemma {:induction false} PiSumToColumns(cells: seq<seq<nat>>, m: nat, j: nat)
    requires Rectangular(cells, m) && j <= m && Total(cells) > 0
    ensures PiSumTo(cells, m, j) == ColumnsTo(cells, m, j, |cells|) as real / Total(cells) as real
  {
    var t := Total(cells) as real;
    if j > 0 {
      var before, c := ColumnsTo(cells, m, j - 1, |cells|) as real, ColumnSum(cells, m, j - 1) as real;
      assert PiSumTo(cells, m, j - 1) == before / t by {
        PiSumToColumns(cells, m, j - 1);
      }
      assert ColumnsTo(cells, m, j, |cells|) as real == before + c;
      QuotientStep(PiSumTo(cells, m, j), PiSumTo(cells, m, j - 1), Pi(cells, m, j - 1), before, c, t);
    } else {
      ZeroQuotient(t);
    }
  }

  /** The sum of the squared column sums of the first j label columns. */
  function SquaresTo(cells: seq<seq<nat>>, m: nat, j: nat): nat
    requires Rectangular(cells, m) && j <= m
  {
    if j == 0 then 0 else SquaresTo(cells, m, j - 1) + ColumnSum(cells, m, j - 1) * ColumnSum(cells, m, j - 1)
  }

  lemma QuotientSquare(c: int, t: int)
    requires t > 0
    ensures (c as real / t as real) * (c as real / t as real) == (c * c) as real / (t * t) as real
  {
  }

  lemma IntSquaresStep(s: nat, c: nat, e: nat)
    requires e <= s * s && (s > 0 ==> e > 0)
    ensures e + c * c <= (s + c) * (s + c)
    ensures s + c > 0 ==> e + c * c > 0
  {
    assert (s + c) * (s + c) == s * s + 2 * s * c + c * c;
  }

  lemma UnitQuotient(q: int, d: int)
    requires 0 < q <= d
    ensures 0.0 < q as real / d as real <= 1.0
  {
  }

  /** p_e over the first j columns is the sum of the squared column sums
      over the square of the total. */
  lemma {:induction false} PeToSquares(cells: seq<seq<nat>>, m: nat, j: nat)
    requires Rectangular(cells, m) && j <= m && Total(cells) > 0
    ensures PeTo(cells, m, j) == SquaresTo(cells, m, j) as real / (Total(cells) * Total(cells)) as real
  {
    if j > 0 {
      PeToSquares(cells, m, j - 1);
      var c, t := ColumnSum(cells, m, j - 1), Total(cells);
      QuotientSquare(c, t);
      QuotientSum(SquaresTo(cells, m, j - 1) as real, (c * c) as real, (t * t) as real);
    }
  }

  /** The squared column sums add up to at most the square of their sum, and
      to something positive once that sum is. */
  lemma {:induction false} SquaresToBound(cells: seq<seq<nat>>, m: nat, j: nat)
    requires Rectangular(cells, m) && j <= m
    ensures SquaresTo(cells, m, j) <= ColumnsTo(cells, m, j, |cells|) * ColumnsTo(cells, m, j, |cells|)
    ensures ColumnsTo(cells, m, j, |cells|) > 0 ==> SquaresTo(cells, m, j) > 0
  {
    if j > 0 {
      SquaresToBound(cells, m, j - 1);
      IntSquaresStep(ColumnsTo(cells, m, j - 1, |cells|), ColumnSum(cells, m, j - 1), SquaresTo(cells, m, j - 1));
    }
  }

  /** A column sum is at most the sum of the first j columns it is among. */
  lemma {:induction false} ColumnAtMostColumns(cells: seq<seq<nat>>, m: nat, k: nat, j: nat)
    requires Rectangular(cells, m) && k < j <= m
    ensures ColumnSum(cells, m, k) <= ColumnsTo(cells, m, j, |cells|)
  {
    if k < j - 1 {
      ColumnAtMostColumns(cells, m, k, j - 1);
    }
  }

  lemma SquareStep(s: nat, a: nat, c: nat)
    requires s <= a * a
    ensures s + c * c == (a + c) * (a + c) <==> s == a * a && (a == 0 || c == 0)
  {
    assert (a + c) * (a + c) == a * a + 2 * (a * c) + c * c;
    if a > 0 && c > 0 {
      assert a * c >= c;
    }
  }

  /** The squares of the first j column sums add up to the square of their
      sum exactly when that sum is 0 or one of those columns holds all of it. */
  lemma {:induction false} SquaresEqual(cells: seq<seq<nat>>, m: nat, j: nat)
    requires Rectangular(cells, m) && j <= m
    ensures var a := ColumnsTo(cells, m, j, |cells|);
      SquaresTo(cells, m, j) == a * a <==> (a == 0 || exists k :: 0 <= k < j && ColumnSum(cells, m, k) == a)
  {
    if j > 0 {
      var a, c, s := ColumnsTo(cells, m, j - 1, |cells|), ColumnSum(cells, m, j - 1), SquaresTo(cells, m, j - 1);
      SquaresEqual(cells, m, j - 1);
      SquaresToBound(cells, m, j - 1);
      SquareStep(s, a, c);
      assert ColumnsTo(cells, m, j, |cells|) == a + c && SquaresTo(cells, m, j) == s + c * c;
      if exists k :: 0 <= k < j && ColumnSum(cells, m, k) == a + c {
        var k :| 0 <= k < j && ColumnSum(cells, m, k) == a + c;
        if k < j - 1 {
          ColumnAtMostColumns(cells, m, k, j - 1);
          assert c == 0 && ColumnSum(cells, m, k) == a;
        } else {
          assert a == 0;
        }
      }
      if s == a * a && (a == 0 || c == 0) && a + c != 0 {
        if a == 0 {
          assert ColumnSum(cells, m, j - 1) == a + c;
        } else {
          var k :| 0 <= k < j - 1 && ColumnSum(cells, m, k) == a;
          assert ColumnSum(cells, m, k) == a + c;
        }
      }
    }
  }

  lemma UnitQuotientIff(q: nat, d: nat)
    requires d > 0
    ensures q as real / d as real == 1.0 <==> q == d
  {
  }

  /** p_e is 1 exactly when one label column holds every label assignment. */
  lemma PeOne(cells: seq<seq<nat>>, m: nat)
    requires Rectangular(cells, m) && Total(cells) > 0
    ensures Pe(cells, m) == 1.0 <==> exists k :: 0 <= k < m && ColumnSum(cells, m, k) == Total(cells)
  {
    var t := Total(cells);
    assert t * t > 0;
    PeToSquares(cells, m, m);
    ColumnsToTotal(cells, m, |cells|);
    SquaresEqual(cells, m, m);
    UnitQuotientIff(SquaresTo(cells, m, m), t * t);
  }

  lemma SelfQuotient(x: real)
    requires x != 0.0
    ensures x / x == 1.0
  {
  }

  /** The PI_k are shares: each is non-negative and together they sum to 1;
      p_e, the sum of their squares, lies in (0, 1]. */
  lemma ChanceAgreement(cells: seq<seq<nat>>, m: nat)
    requires Rectangular(cells, m) && Total(cells) > 0
    ensures forall k :: 0 <= k < m ==> Pi(cells, m, k) >= 0.0
    ensures PiSumTo(cells, m, m) == 1.0
    ensures 0.0 < Pe(cells, m) <= 1.0
  {
    var t := Total(cells);
    PiSumToColumns(cells, m, m);
    ColumnsToTotal(cells, m, |cells|);
    assert ColumnsTo(cells, m, m, |cells|) == t;
    assert PiSumTo(cells, m, m) == (t as real) / (t as real);
    SelfQuotient(t as real);
    PeToSquares(cells, m, m);
    SquaresToBound(cells, m, m);
    UnitQuotient(SquaresTo(cells, m, m), t * t);
    forall k | 0 <= k < m ensures Pi(cells, m, k) >= 0.0 {
    }
  }

  /** Whenever the coefficient is defined it is at most 1. */
  lemma AlphaAtMostOne(cells: seq<seq<nat>>, m: nat)
    requires Rectangular(cells, m)
    requires Alpha(cells, m).Ok?
    ensures Alpha(cells, m).value <= 1.0
  {
    PPrimeABound(cells);
    ChanceAgreement(cells, m);
    var pa, pe := PA(cells), Pe(cells, m);
    assert Alpha(cells, m).value == (pa - pe) / (1.0 - pe);
    QuotientMonotone(pa - pe, 1.0 - pe, 1.0 - pe);
  }

  // ---------------------------------------------------------------------------
  // Perfect agreement

  /** Every row has a 2 in one column (both raters gave the item that one
      label) and 0 elsewhere. */
  predicate PerfectAgreement(cells: seq<seq<nat>>, m: nat, hot: seq<nat>) {
    && Rectangular(cells, m)
    && |hot| == |cells|
    && (forall i :: 0 <= i < |cells| ==> hot[i] < m)
    && forall i, k :: 0 <= i < |cells| && 0 <= k < m ==> cells[i][k] == (if k == hot[i] then 2 else 0)
  }

  lemma {:induction false} OneHotSumTo(row: seq<nat>, h: nat, j: nat)
    requires h < |row| && j <= |row|
    requires forall k :: 0 <= k < |row| ==> row[k] == (if k == h then 2 else 0)
    ensures SumTo(row, j) == (if h < j then 2 else 0)
  {
    if j > 0 {
      OneHotSumTo(row, h, j - 1);
    }
  }

  lemma {:induction false} OneHotAgreementTo(row: seq<nat>, h: nat, j: nat)
    requires h < |row| && j <= |row|
    requires forall k :: 0 <= k < |row| ==> row[k] == (if k == h then 2 else 0)
    requires RowSum(row) == 2
    ensures RowAgreementTo(row, 2.0, j) == (if h < j then 1.0 else 0.0)
  {
    if j > 0 {
      OneHotAgreementTo(row, h, j - 1);
    }
  }

  lemma {:induction false} PerfectTotals(cells: seq<seq<nat>>, m: nat, hot: seq<nat>, n: nat)
    requires PerfectAgreement(cells, m, hot) && n <= |cells|
    ensures TotalTo(cells, n) == 2 * n
    ensures NoSingleRating(cells, n)
    ensures AgreementTo(cells, 2.0, n) == n as real
  {
    if n > 0 {
      PerfectTotals(cells, m, hot, n - 1);
      OneHotSumTo(cells[n - 1], hot[n - 1], m);
      OneHotAgreementTo(cells[n - 1], hot[n - 1], m);
    }
  }

  /** When each item got exactly one label from each rater and the two agree,
      p_primea and p_a are 1 and the coefficient is 1, unless p_e is 1 (all
      items got the same label). */
  lemma PerfectAgreementAlpha(cells: seq<seq<nat>>, m: nat, hot: seq<nat>)
    requires PerfectAgreement(cells, m, hot) && |cells| > 0
    ensures Total(cells) > 0 && NoSingleRating(cells, |cells|)
    ensures PPrimeA(cells) == 1.0 && PA(cells) == 1.0
    ensures Alpha(cells, m) == if Pe(cells, m) == 1.0 then Err(ChanceAgreementIsOne) else Ok(1.0)
  {
    var n := |cells|;
    assert Total(cells) == 2 * n && NoSingleRating(cells, n) && AgreementTo(cells, 2.0, n) == n as real by {
      PerfectTotals(cells, m, hot, n);
    }
    assert Rbar(cells) == 2.0 by {
      DoubleQuotient(n);
    }
    assert PPrimeA(cells) == 1.0 by {
      SelfQuotient(n as real);
    }
    PAOf(cells, 1.0, 2.0, n as real * 2.0);
    var w := 1.0 / (n as real * 2.0);
    assert PA(cells) == 1.0 * (1.0 - w) + w == 1.0;
    var pe := Pe(cells, m);
    if pe != 1.0 {
      AlphaOf(cells, m, 1.0, pe);
      SelfQuotient(1.0 - pe);
    } else {
      assert SingleRatingRow(cells, n) == None;
    }
  }

  /** With perfect agreement, column k holds every label assignment of the
      first n rows exactly when each of those items got label k. */
  lemma {:induction false} PerfectColumn(cells: seq<seq<nat>>, m: nat, hot: seq<nat>, k: nat, n: nat)
    requires PerfectAgreement(cells, m, hot) && k < m && n <= |cells|
    ensures ColumnSumTo(cells, k, n) <= 2 * n
    ensures ColumnSumTo(cells, k, n) == 2 * n <==> forall i :: 0 <= i < n ==> hot[i] == k
  {
    if n > 0 {
      PerfectColumn(cells, m, hot, k, n - 1);
      assert cells[n - 1][k] == (if k == hot[n - 1] then 2 else 0);
    }
  }

  /** With perfect agreement, p_e is 1 exactly when every item got the same
      label. */
  lemma PerfectChance(cells: seq<seq<nat>>, m: nat, hot: seq<nat>)
    requires PerfectAgreement(cells, m, hot) && |cells| > 0
    ensures Total(cells) > 0
    ensures Pe(cells, m) == 1.0 <==> forall i :: 0 <= i < |cells| ==> hot[i] == hot[0]
  {
    var n := |cells|;
    PerfectTotals(cells, m, hot, n);
    PeOne(cells, m);
    if forall i :: 0 <= i < n ==> hot[i] == hot[0] {
      PerfectColumn(cells, m, hot, hot[0], n);
      assert ColumnSum(cells, m, hot[0]) == Total(cells);
    }
    if Pe(cells, m) == 1.0 {
      var k :| 0 <= k < m && ColumnSum(cells, m, k) == Total(cells);
      PerfectColumn(cells, m, hot, k, n);
    }
  }

  lemma DoubleQuotient(n: nat)
    requires n > 0
    ensures (2 * n) as real / n as real == 2.0
  {
  }

  /** With several labels per item the coefficient is not 1 even when both
      raters give identical annotations: one item labelled "a, b" by both
      raters gives p_primea = 1/3, p_a = 1/2 = p_e, and a coefficient of 0. */
  lemma TwoLabelsSelfAgreement()
    ensures Alpha([[2, 2]], 2) == Ok(0.0)
  {
    var cells: seq<seq<nat>> := [[2, 2]];
    assert RowSum(cells[0]) == 4;
    assert Total(cells) == 4;
    assert Rbar(cells) == 4.0;
    assert RowAgreement(cells[0], 4.0) == 1.0 / 3.0;
    assert PPrimeA(cells) == 1.0 / 3.0;
    assert PA(cells) == 0.5;
    assert ColumnSum(cells, 2, 0) == 2 && ColumnSum(cells, 2, 1) == 2;
    assert Pe(cells, 2) == 0.5;
  }
}
