/** The grass field all three engines share: a square torus of n x n cells,
    each holding one unit of grass (1) or none (0), and the arithmetic that
    keeps an animal on it. */
module Meadow {

  /** A displacement as drawn by `rnd.choice([-1, 0, 1])`. */
  predicate IsStep(d: int) {
    -1 <= d <= 1
  }

  /** One `(dx, dy)` pair of `rnd.choice([-1, 0, 1])` draws per animal. */
  ghost predicate AreSteps(steps: seq<(int, int)>) {
    forall k :: 0 <= k < |steps| ==> IsStep(steps[k].0) && IsStep(steps[k].1)
  }

  /** Python's `(c + d) % n` for n > 0. Python's `%` floors, so for a positive
      divisor it agrees with Dafny's Euclidean `%`: the result lies in [0, n). */
  function Wrap(c: int, d: int, n: int): (r: int)
    requires n > 0
    ensures 0 <= r < n
  {
    (c + d) % n
  }

  /** From a cell on the field a single step lands on a neighbour, crossing
      the edge to the opposite side: -1 from 0 gives n - 1, +1 from n - 1
      gives 0. */
  lemma WrapStep(c: int, d: int, n: int)
    requires n > 0 && 0 <= c < n && IsStep(d)
    ensures Wrap(c, d, n) == if c + d < 0 then n - 1 else if c + d == n then 0 else c + d
  {
    if c + d < 0 {
      assert c + d == (-1) * n + (n - 1);
    } else if c + d == n {
      assert c + d == 1 * n + 0;
    } else {
      assert c + d == 0 * n + (c + d);
    }
  }

  /** A grass field as rows of cells: `g[x][y]` is numpy's `field[x, y]`. */
  type Grid = seq<seq<int>>

  ghost predicate IsGrid(g: Grid, n: int) {
    |g| == n && forall i :: 0 <= i < |g| ==> |g[i]| == n
  }

  /** Every cell holds one unit of grass or none. */
  ghost predicate IsBinary(g: Grid, n: int) {
    IsGrid(g, n) && forall i, j :: 0 <= i < n && 0 <= j < n ==> g[i][j] == 0 || g[i][j] == 1
  }

  /** The grid with one cell set to 0 (`field[x, y] = 0`). */
  function Cleared(g: Grid, x: int, y: int): Grid
    requires 0 <= x < |g| && 0 <= y < |g[x]|
  {
    g[x := g[x][y := 0]]
  }

  /** A field of size n with grass on every cell (`np.ones((n, n))`). */
  function Lush(n: nat): (g: Grid)
    ensures IsBinary(g, n)
    ensures forall i, j :: 0 <= i < n && 0 <= j < n ==> g[i][j] == 1
  {
    seq(n, i => seq(n, j => 1))
  }

  function Max(a: int, b: int): int {
    if a >= b then a else b
  }

  /** `np.maximum(field, growloc)`: the cell-wise maximum of the field and a
      regrowth mask. Each cell is the larger of its two inputs, so no cell
      loses grass, and two 0/1 grids give a 0/1 grid. */
  function MaxMerge(g: Grid, mask: Grid, n: nat): (r: Grid)
    requires IsGrid(g, n) && IsGrid(mask, n)
    ensures IsGrid(r, n)
    ensures forall i, j :: 0 <= i < n && 0 <= j < n ==>
      r[i][j] >= g[i][j] && r[i][j] >= mask[i][j] && (r[i][j] == g[i][j] || r[i][j] == mask[i][j])
    ensures IsBinary(g, n) && IsBinary(mask, n) ==> IsBinary(r, n)
  {
    seq(n, i requires 0 <= i < n => seq(n, j requires 0 <= j < n => Max(g[i][j], mask[i][j])))
  }

  /** The value of a numpy grid held in a Dafny array. */
  ghost function GridOf(a: array2<int>): (g: Grid)
    reads a
    ensures |g| == a.Length0
    ensures forall i :: 0 <= i < |g| ==> |g[i]| == a.Length1
    ensures forall i, j :: 0 <= i < a.Length0 && 0 <= j < a.Length1 ==> g[i][j] == a[i, j]
  {
    seq(a.Length0, i requires 0 <= i < a.Length0 reads a =>
      seq(a.Length1, j requires 0 <= j < a.Length1 reads a => a[i, j]))
  }

  /** Writing one cell of the array changes its value as `Cleared` says. */
  lemma GridOfCleared(before: Grid, after: Grid, x: int, y: int)
    requires |before| == |after| && 0 <= x < |before| && 0 <= y < |before[x]|
    requires forall i :: 0 <= i < |before| ==> |before[i]| == |after[i]|
    requires forall i, j :: 0 <= i < |before| && 0 <= j < |before[i]| ==>
      after[i][j] == if i == x && j == y then 0 else before[i][j]
    ensures after == Cleared(before, x, y)
  {
    var c := Cleared(before, x, y);
    forall i | 0 <= i < |before|
      ensures after[i] == c[i]
    {
      assert |after[i]| == |c[i]|;
      forall j | 0 <= j < |after[i]|
        ensures after[i][j] == c[i][j]
      {
      }
    }
  }

  /** `field[x, y] = 0` on the array. */
  method Bare(a: array2<int>, x: int, y: int)
    requires 0 <= x < a.Length0 && 0 <= y < a.Length1
    modifies a
    ensures GridOf(a) == Cleared(old(GridOf(a)), x, y)
  {
    ghost var before := GridOf(a);
    a[x, y] := 0;
    GridOfCleared(before, GridOf(a), x, y);
  }

  /** `np.maximum(field, growloc)` computed into a new array, as numpy does. */
  method Maximum(a: array2<int>, mask: Grid) returns (b: array2<int>)
    requires a.Length0 == a.Length1 && IsGrid(mask, a.Length0)
    ensures fresh(b)
    ensures b.Length0 == a.Length0 && b.Length1 == a.Length1
    ensures GridOf(b) == MaxMerge(GridOf(a), mask, a.Length0)
  {
    var n := a.Length0;
    b := new int[n, n];
    var i := 0;
    while i < n
      invariant 0 <= i <= n
      invariant forall p, q :: 0 <= p < i && 0 <= q < n ==> b[p, q] == Max(a[p, q], mask[p][q])
    {
      var j := 0;
      while j < n
        invariant 0 <= j <= n
        invariant forall p, q :: 0 <= p < i && 0 <= q < n ==> b[p, q] == Max(a[p, q], mask[p][q])
        invariant forall q :: 0 <= q < j ==> b[i, q] == Max(a[i, q], mask[i][q])
      {
        b[i, j] := Max(a[i, j], mask[i][j]);
        j := j + 1;
      }
      i := i + 1;
    }
    var want := MaxMerge(GridOf(a), mask, n);
    var got := GridOf(b);
    forall p | 0 <= p < n
      ensures got[p] == want[p]
    {
      assert |got[p]| == |want[p]| == n;
    }
  }

  // ---------------------------------------------------------------------
  // Counting grass

  function RowSum(r: seq<int>): int {
    if r == [] then 0 else RowSum(r[..|r| - 1]) + r[|r| - 1]
  }

  /** The grass on the whole field. */
  function Total(g: Grid): int {
    if g == [] then 0 else Total(g[..|g| - 1]) + RowSum(g[|g| - 1])
  }

  /** Changing one cell of a row changes the row's sum by the difference. */
  lemma {:induction false} RowSumUpdate(r: seq<int>, y: int, v: int)
    requires 0 <= y < |r|
    ensures RowSum(r[y := v]) == RowSum(r) - r[y] + v
  {
    var s := r[y := v];
    if y == |r| - 1 {
      assert s[..|s| - 1] == r[..|r| - 1];
    } else {
      assert s[..|s| - 1] == r[..|r| - 1][y := v];
      RowSumUpdate(r[..|r| - 1], y, v);
    }
  }

  /** Replacing one row changes the total by the difference of row sums. */
  lemma {:induction false} TotalUpdate(g: Grid, x: int, row: seq<int>)
    requires 0 <= x < |g|
    ensures Total(g[x := row]) == Total(g) - RowSum(g[x]) + RowSum(row)
  {
    var h := g[x := row];
    if x == |g| - 1 {
      assert h[..|h| - 1] == g[..|g| - 1];
    } else {
      assert h[..|h| - 1] == g[..|g| - 1][x := row];
      TotalUpdate(g[..|g| - 1], x, row);
    }
  }

  /** Eating a cell removes exactly the grass that was on it. */
  lemma TotalCleared(g: Grid, x: int, y: int)
    requires 0 <= x < |g| && 0 <= y < |g[x]|
    ensures Total(Cleared(g, x, y)) == Total(g) - g[x][y]
  {
    RowSumUpdate(g[x], y, 0);
    TotalUpdate(g, x, g[x][y := 0]);
  }

  /** Cells of a row that went from grass (1) to bare (0). */
  function RowDrops(r0: seq<int>, r1: seq<int>): nat
    requires |r0| == |r1|
  {
    if r0 == [] then 0
    else RowDrops(r0[..|r0| - 1], r1[..|r1| - 1]) + (if r0[|r0| - 1] == 1 && r1[|r1| - 1] == 0 then 1 else 0)
  }

  /** Cells of the field that went from grass (1) to bare (0). */
  function Drops(g0: Grid, g1: Grid): nat
    requires |g0| == |g1| && forall i :: 0 <= i < |g0| ==> |g0[i]| == |g1[i]|
  {
    if g0 == [] then 0 else Drops(g0[..|g0| - 1], g1[..|g1| - 1]) + RowDrops(g0[|g0| - 1], g1[|g1| - 1])
  }

  /** A field is only ever grazed: every cell either keeps its value or is set to 0. */
  ghost predicate Grazed(g0: Grid, g1: Grid, n: int) {
    IsGrid(g0, n) && IsGrid(g1, n)
    && forall i, j :: 0 <= i < n && 0 <= j < n ==> g1[i][j] == g0[i][j] || g1[i][j] == 0
  }

  lemma {:induction false} RowLossIsDrops(r0: seq<int>, r1: seq<int>)
    requires |r0| == |r1|
    requires forall j :: 0 <= j < |r0| ==> r0[j] == 0 || r0[j] == 1
    requires forall j :: 0 <= j < |r0| ==> r1[j] == r0[j] || r1[j] == 0
    ensures RowSum(r0) - RowSum(r1) == RowDrops(r0, r1)
  {
    if r0 != [] {
      RowLossIsDrops(r0[..|r0| - 1], r1[..|r1| - 1]);
    }
  }

  /** On a 0/1 field that is only grazed, the grass lost is the number of
      cells that went from 1 to 0. */
  lemma {:induction false} LossIsDrops(g0: Grid, g1: Grid, n: nat)
    requires IsBinary(g0, n) && Grazed(g0, g1, n)
    ensures Total(g0) - Total(g1) == Drops(g0, g1)
  {
    LossIsDropsRows(g0, g1, n, n);
  }

  lemma {:induction false} LossIsDropsRows(g0: Grid, g1: Grid, n: nat, m: nat)
    requires m <= n && |g0| == m && |g1| == m
    requires forall i :: 0 <= i < m ==> |g0[i]| == n && |g1[i]| == n
    requires forall i, j :: 0 <= i < m && 0 <= j < n ==> g0[i][j] == 0 || g0[i][j] == 1
    requires forall i, j :: 0 <= i < m && 0 <= j < n ==> g1[i][j] == g0[i][j] || g1[i][j] == 0
    ensures Total(g0) - Total(g1) == Drops(g0, g1)
  {
    if m > 0 {
      LossIsDropsRows(g0[..m - 1], g1[..m - 1], n, m - 1);
      RowLossIsDrops(g0[m - 1], g1[m - 1]);
    }
  }
}
