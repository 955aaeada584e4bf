/** Minimum, maximum, floored mean and sum of a line of samples, and of the lines of a grid
    taken one way or the other. */
module LineStatistics {

  const TWO_TO_THE_32: nat := 0x1_0000_0000
  const WHITE_16: nat := 65535
  const WHITE_8: nat := 255

  type Line = seq<nat>

  function Sum(s: Line): nat {
    if s == [] then 0 else Sum(s[..|s| - 1]) + s[|s| - 1]
  }

  function Least(s: Line): nat
    requires s != []
  {
    var last := s[|s| - 1];
    if |s| == 1 then last
    else
      var before := Least(s[..|s| - 1]);
      if before > last then last else before
  }

  function Greatest(s: Line): nat
    requires s != []
  {
    var last := s[|s| - 1];
    if |s| == 1 then last
    else
      var before := Greatest(s[..|s| - 1]);
      if before < last then last else before
  }

  /** The mean as the kernels compute it, with an unsigned 32-bit accumulator. */
  function Mean32(s: Line): nat
    requires s != []
  {
    Sum(s) % TWO_TO_THE_32 / |s|
  }

  // ---------------------------------------------------------------------------
  // One line
  // ---------------------------------------------------------------------------

  /** The stored extremes occur on the line and bound all of it. */
  lemma {:induction false} ExtremesAreExtreme(s: Line)
    requires s != []
    ensures Least(s) in s && Greatest(s) in s
    ensures forall v :: v in s ==> Least(s) <= v <= Greatest(s)
  {
    if |s| == 1 {
    } else {
      var n := |s| - 1;
      ExtremesAreExtreme(s[..n]);
      assert s == s[..n] + [s[n]];
    }
  }

  lemma {:induction false} SumBounds(s: Line, low: nat, high: nat)
    requires forall v :: v in s ==> low <= v <= high
    ensures low * |s| <= Sum(s) <= high * |s|
  {
    if s == [] {
    } else {
      var n := |s| - 1;
      assert forall v :: v in s[..n] ==> v in s;
      SumBounds(s[..n], low, high);
      OneMore(low, n);
      OneMore(high, n);
      assert s[n] in s;
    }
  }

  lemma OneMore(v: nat, n: nat)
    ensures v * (n + 1) == v * n + v
  {
  }

  lemma Multiplied(p: nat, q: nat, n: nat)
    requires p <= q
    ensures p * n <= q * n
  {
  }

  lemma FloorBounds(a: nat, n: nat)
    requires n > 0
    ensures n * (a / n) <= a < n * (a / n) + n
  {
  }

  lemma FloorIsAtLeast(a: nat, n: nat, low: nat)
    requires n > 0 && low * n <= a
    ensures low <= a / n
  {
    FloorBounds(a, n);
    if a / n < low {
      Multiplied(a / n + 1, low, n);
    }
  }

  lemma FloorIsAtMost(a: nat, n: nat, high: nat)
    requires n > 0 && a <= high * n
    ensures a / n <= high
  {
    FloorBounds(a, n);
    if a / n > high {
      Multiplied(high + 1, a / n, n);
    }
  }

  lemma MeanWithoutOverflow(s: Line)
    requires s != [] && Sum(s) < TWO_TO_THE_32
    ensures Mean32(s) == Sum(s) / |s|
  {
    hide Sum;
    WrapsNothing(Sum(s));
  }

  lemma WrapsNothing(a: nat)
    requires a < TWO_TO_THE_32
    ensures a % TWO_TO_THE_32 == a
  {
  }

  /** Without overflow the mean lies between the extremes. */
  lemma MeanIsBetween(s: Line)
    requires s != [] && Sum(s) < TWO_TO_THE_32
    ensures Least(s) <= Mean32(s) <= Greatest(s)
  {
    hide Mean32, Sum, Least, Greatest;
    MeanWithoutOverflow(s);
    ExtremesAreExtreme(s);
    SumBounds(s, Least(s), Greatest(s));
    FloorIsAtLeast(Sum(s), |s|, Least(s));
    FloorIsAtMost(Sum(s), |s|, Greatest(s));
  }

  lemma FloorGrows(a: nat, b: nat, n: nat)
    requires n > 0 && a + n <= b
    ensures a / n < b / n
  {
    FloorBounds(a, n);
    FloorIsAtLeast(b, n, a / n + 1);
  }

  lemma WrapLosesAWhole(a: nat)
    requires TWO_TO_THE_32 <= a
    ensures a % TWO_TO_THE_32 + TWO_TO_THE_32 <= a
  {
  }

  /** The mean is the floored average exactly when the sum fits the accumulator. */
  lemma MeanIsRightIff(s: Line)
    requires 0 < |s| <= TWO_TO_THE_32
    ensures Mean32(s) == Sum(s) / |s| <==> Sum(s) < TWO_TO_THE_32
  {
    if Sum(s) >= TWO_TO_THE_32 {
      WrapLosesAWhole(Sum(s));
      FloorGrows(Sum(s) % TWO_TO_THE_32, Sum(s), |s|);
    }
  }

  predicate SixteenBit(s: Line) {
    forall v :: v in s ==> v <= WHITE_16
  }

  /** Up to 65537 samples of sixteen bits always fit. */
  lemma SumFits(s: Line)
    requires |s| <= 65537 && SixteenBit(s)
    ensures Sum(s) < TWO_TO_THE_32
  {
    SumBounds(s, 0, WHITE_16);
    assert WHITE_16 * |s| <= WHITE_16 * 65537;
  }

  lemma {:induction false} SumOfEqual(s: Line, v: nat)
    requires forall i :: 0 <= i < |s| ==> s[i] == v
    ensures Sum(s) == v * |s|
  {
    if s == [] {
    } else {
      SumOfEqual(s[..|s| - 1], v);
    }
  }

  /** One more does not: the mean of 65538 white pixels comes out as zero. */
  lemma WhiteLineOverflows(s: Line)
    requires |s| == 65538 && forall i :: 0 <= i < |s| ==> s[i] == WHITE_16
    ensures Mean32(s) == 0 && Least(s) == WHITE_16
  {
    SumOfEqual(s, WHITE_16);
    ExtremesAreExtreme(s);
  }

  // ---------------------------------------------------------------------------
  // Rows and columns of one grid
  // ---------------------------------------------------------------------------

  type Grid = seq<Line>

  predicate IsGrid(g: Grid, rows: nat, cols: nat) {
    |g| == rows && forall y :: 0 <= y < rows ==> |g[y]| == cols
  }

  function Column(g: Grid, x: nat): (c: Line)
    requires forall y :: 0 <= y < |g| ==> x < |g[y]|
    ensures |c| == |g| && forall y :: 0 <= y < |g| ==> c[y] == g[y][x]
  {
    seq(|g|, y requires 0 <= y < |g| => g[y][x])
  }

  /** The grid on its side: the lines of column mode. */
  function Columns(g: Grid, rows: nat, cols: nat): (t: Grid)
    requires IsGrid(g, rows, cols)
    ensures IsGrid(t, cols, rows)
    ensures forall x, y :: 0 <= x < cols && 0 <= y < rows ==> t[x][y] == g[y][x]
  {
    seq(cols, x requires 0 <= x < cols => Column(g, x))
  }

  function Leasts(g: Grid): (v: Line)
    requires forall k :: 0 <= k < |g| ==> g[k] != []
    ensures |v| == |g| && forall k :: 0 <= k < |g| ==> v[k] == Least(g[k])
  {
    seq(|g|, k requires 0 <= k < |g| => Least(g[k]))
  }

  function Greatests(g: Grid): (v: Line)
    requires forall k :: 0 <= k < |g| ==> g[k] != []
    ensures |v| == |g| && forall k :: 0 <= k < |g| ==> v[k] == Greatest(g[k])
  {
    seq(|g|, k requires 0 <= k < |g| => Greatest(g[k]))
  }

  function Means(g: Grid): (v: Line)
    requires forall k :: 0 <= k < |g| ==> g[k] != []
    ensures |v| == |g| && forall k :: 0 <= k < |g| ==> v[k] == Mean32(g[k])
  {
    seq(|g|, k requires 0 <= k < |g| => Mean32(g[k]))
  }

  /** A line minimum is attained somewhere in the grid, and nothing in the grid is below
      the least of them. */
  lemma LeastOfLeasts(g: Grid, rows: nat, cols: nat) returns (y: nat, x: nat)
    requires IsGrid(g, rows, cols) && rows > 0 && cols > 0
    ensures y < rows && x < cols && g[y][x] == Least(Leasts(g))
    ensures forall j, i :: 0 <= j < rows && 0 <= i < cols ==> Least(Leasts(g)) <= g[j][i]
  {
    var v := Leasts(g);
    ExtremesAreExtreme(v);
    y :| 0 <= y < rows && v[y] == Least(v);
    ExtremesAreExtreme(g[y]);
    x :| 0 <= x < cols && g[y][x] == Least(g[y]);
    forall j, i | 0 <= j < rows && 0 <= i < cols ensures Least(v) <= g[j][i] {
      ExtremesAreExtreme(g[j]);
      assert v[j] in v && g[j][i] in g[j];
    }
  }

  lemma GreatestOfGreatests(g: Grid, rows: nat, cols: nat) returns (y: nat, x: nat)
    requires IsGrid(g, rows, cols) && rows > 0 && cols > 0
    ensures y < rows && x < cols && g[y][x] == Greatest(Greatests(g))
    ensures forall j, i :: 0 <= j < rows && 0 <= i < cols ==> g[j][i] <= Greatest(Greatests(g))
  {
    var v := Greatests(g);
    ExtremesAreExtreme(v);
    y :| 0 <= y < rows && v[y] == Greatest(v);
    ExtremesAreExtreme(g[y]);
    x :| 0 <= x < cols && g[y][x] == Greatest(g[y]);
    forall j, i | 0 <= j < rows && 0 <= i < cols ensures g[j][i] <= Greatest(v) {
      ExtremesAreExtreme(g[j]);
      assert v[j] in v && g[j][i] in g[j];
    }
  }

  /** The smallest row minimum is the smallest column minimum, and the same for maxima. */
  lemma ExtremesAgree(g: Grid, rows: nat, cols: nat)
    requires IsGrid(g, rows, cols) && rows > 0 && cols > 0
    ensures Least(Leasts(Columns(g, rows, cols))) == Least(Leasts(g))
    ensures Greatest(Greatests(Columns(g, rows, cols))) == Greatest(Greatests(g))
  {
    var t := Columns(g, rows, cols);
    var y0, x0 := LeastOfLeasts(g, rows, cols);
    var x1, y1 := LeastOfLeasts(t, cols, rows);
    assert t[x0][y0] == g[y0][x0] && t[x1][y1] == g[y1][x1];
    var y2, x2 := GreatestOfGreatests(g, rows, cols);
    var x3, y3 := GreatestOfGreatests(t, cols, rows);
    assert t[x2][y2] == g[y2][x2] && t[x3][y3] == g[y3][x3];
  }

  function Total(g: Grid): nat {
    if g == [] then 0 else Total(g[..|g| - 1]) + Sum(g[|g| - 1])
  }

  lemma {:induction false} TotalWithLast(t: Grid, s: Grid, last: Line)
    requires |t| == |s| == |last|
    requires forall x :: 0 <= x < |t| ==> t[x] == s[x] + [last[x]]
    ensures Total(t) == Total(s) + Sum(last)
  {
    if t == [] {
    } else {
      var n := |t| - 1;
      TotalWithLast(t[..n], s[..n], last[..n]);
      assert t[n][..|s[n]|] == s[n];
    }
  }

  lemma {:induction false} TotalOfNothing(t: Grid)
    requires forall x :: 0 <= x < |t| ==> t[x] == []
    ensures Total(t) == 0
  {
    if t == [] {
    } else {
      TotalOfNothing(t[..|t| - 1]);
    }
  }

  /** Adding up row by row or column by column comes to the same. */
  lemma {:induction false} TotalsAgree(g: Grid, rows: nat, cols: nat)
    requires IsGrid(g, rows, cols)
    ensures Total(Columns(g, rows, cols)) == Total(g)
  {
    var t := Columns(g, rows, cols);
    if rows == 0 {
      TotalOfNothing(t);
    } else {
      var n := rows - 1;
      TotalsAgree(g[..n], n, cols);
      var s := Columns(g[..n], n, cols);
      forall x | 0 <= x < cols ensures t[x] == s[x] + [g[n][x]] {
        assert forall y :: 0 <= y < n ==> s[x][y] == g[..n][y][x] == g[y][x];
      }
      TotalWithLast(t, s, g[n]);
    }
  }

  /** The means of lines of n samples, scaled up, miss the total by less than one line each. */
  lemma {:induction false} MeansBoundTotal(g: Grid, n: nat)
    requires n > 0 && forall k :: 0 <= k < |g| ==> |g[k]| == n && Sum(g[k]) < TWO_TO_THE_32
    ensures n * Sum(Means(g)) <= Total(g) <= n * Sum(Means(g)) + n * |g|
    ensures g != [] ==> Total(g) < n * Sum(Means(g)) + n * |g|
  {
    hide Mean32, Sum;
    if g != [] {
      var m := |g| - 1;
      MeansBoundTotal(g[..m], n);
      assert Means(g)[..m] == Means(g[..m]);
      MeanWithoutOverflow(g[m]);
      SumLast(Means(g));
      OneMoreLine(n, m, Sum(Means(g[..m])), Sum(g[m]));
    } else {
      SumOfNothing();
      assert Means(g) == [];
    }
  }

  lemma SumOfNothing()
    ensures Sum([]) == 0
  {
  }

  lemma SumLast(s: Line)
    requires s != []
    ensures Sum(s) == Sum(s[..|s| - 1]) + s[|s| - 1]
  {
  }

  lemma OneMoreLine(n: nat, m: nat, means: nat, sum: nat)
    requires n > 0
    ensures n * (means + sum / n) <= n * means + sum < n * (means + sum / n) + n
    ensures n * (m + 1) == n * m + n
  {
    FloorBounds(sum, n);
    assert n * (means + sum / n) == n * means + n * (sum / n);
  }

  ghost predicate NoOverflow(g: Grid) {
    forall k :: 0 <= k < |g| ==> Sum(g[k]) < TWO_TO_THE_32
  }

  /** The means of either mode account for the total of all samples, short of less than one
      for every sample. */
  lemma MeansAgree(g: Grid, rows: nat, cols: nat)
    requires IsGrid(g, rows, cols) && rows > 0 && cols > 0
    requires NoOverflow(g) && NoOverflow(Columns(g, rows, cols))
    ensures cols * Sum(Means(g)) <= Total(g) < cols * Sum(Means(g)) + rows * cols
    ensures var m := Sum(Means(Columns(g, rows, cols)));
      rows * m <= Total(g) < rows * m + rows * cols
  {
    MeansBoundTotal(g, cols);
    MeansBoundTotal(Columns(g, rows, cols), rows);
    TotalsAgree(g, rows, cols);
  }
}
