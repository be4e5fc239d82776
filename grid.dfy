/** The rectangular grids of 2048/Board.h: `data`/`prevData` (tiles) and
    `animationData` (displacements), `size.y` rows of `size.x` cells,
    indexed `[row][column]`, i.e. `[p.y][p.x]` for a point `p`. */
module Grids {
  import opened Vec2Math
  import opened Tiles

  type Grid = seq<seq<Tile>>

  /** `size.y` rows of `size.x` cells each, at least one of each. */
  predicate Shaped<T>(g: seq<seq<T>>, size: Vec2)
  {
    size.x >= 1 && size.y >= 1 && |g| == size.y
    && forall r | 0 <= r < |g| :: |g[r]| == size.x
  }

  /** The bounds test of the engine, `p.clamped({0,0}, size - {1,1}) == p`. */
  predicate InBounds(p: Vec2, size: Vec2)
    requires size.x >= 1 && size.y >= 1
    ensures InBounds(p, size) <==> 0 <= p.x < size.x && 0 <= p.y < size.y
  {
    ClampedIsIdentityIffInside(p, Vec2(0, 0), Vec2(size.x - 1, size.y - 1));
    p.Clamped(Vec2(0, 0), Vec2(size.x - 1, size.y - 1)) == p
  }

  /** The cell at point `p`. */
  function At<T>(g: seq<seq<T>>, size: Vec2, p: Vec2): T
    requires Shaped(g, size) && InBounds(p, size)
  {
    g[p.y][p.x]
  }

  /** The grid with the cell at `p` replaced by `v`. */
  function SetAt<T>(g: seq<seq<T>>, size: Vec2, p: Vec2, v: T): (r: seq<seq<T>>)
    requires Shaped(g, size) && InBounds(p, size)
    ensures Shaped(r, size)
    ensures forall i, j | 0 <= i < size.y && 0 <= j < size.x ::
      r[i][j] == if i == p.y && j == p.x then v else g[i][j]
  {
    g[p.y := g[p.y][p.x := v]]
  }

  /** Two grids of one shape that agree cell by cell are equal. */
  lemma GridExt<T>(a: seq<seq<T>>, b: seq<seq<T>>, size: Vec2)
    requires Shaped(a, size) && Shaped(b, size)
    requires forall i, j | 0 <= i < size.y && 0 <= j < size.x :: a[i][j] == b[i][j]
    ensures a == b
  {
    forall i | 0 <= i < size.y
      ensures a[i] == b[i]
    {
      assert forall j | 0 <= j < size.x :: a[i][j] == b[i][j];
    }
  }

  /** The grid of `size.y` rows of `size.x` copies of `v`. */
  function Filled<T>(size: Vec2, v: T): (r: seq<seq<T>>)
    requires size.x >= 1 && size.y >= 1
    ensures Shaped(r, size)
    ensures forall i, j | 0 <= i < size.y && 0 <= j < size.x :: r[i][j] == v
  {
    seq(size.y, _ => seq(size.x, _ => v))
  }

  /** Every tile with its merge flag cleared (`confirmMerge` on each cell). */
  function ClearMerged(g: Grid): (r: Grid)
    ensures |r| == |g|
    ensures forall i | 0 <= i < |g| :: |r[i]| == |g[i]|
    ensures forall i, j | 0 <= i < |g| && 0 <= j < |g[i]| :: r[i][j] == g[i][j].ConfirmMerge()
  {
    seq(|g|, i requires 0 <= i < |g| => seq(|g[i]|, j requires 0 <= j < |g[i]| => g[i][j].ConfirmMerge()))
  }

  /** No tile carries the merge flag. */
  predicate NoneMerged(g: Grid)
  {
    forall i, j | 0 <= i < |g| && 0 <= j < |g[i]| :: !g[i][j].merged
  }

  /** Every merged tile is a non-wall holding a value. */
  predicate MergedHoldValue(g: Grid)
  {
    forall i, j | 0 <= i < |g| && 0 <= j < |g[i]| :: g[i][j].merged ==> g[i][j].GetValue() > 0
  }

  /** What a tile contributes to the grid's value sum. */
  function ValueOf(t: Tile): nat
  {
    t.GetValue()
  }

  /** What a tile contributes to the sum of this shift's merge results. */
  function MergedValueOf(t: Tile): nat
  {
    if t.merged then t.GetValue() else 0
  }

  /** The sum of `f` over a row. */
  function RowTotal(row: seq<Tile>, f: Tile -> nat): nat
  {
    if row == [] then 0 else RowTotal(row[..|row| - 1], f) + f(row[|row| - 1])
  }

  /** The sum of `f` over a grid. */
  function GridTotal(g: Grid, f: Tile -> nat): nat
  {
    if g == [] then 0 else GridTotal(g[..|g| - 1], f) + RowTotal(g[|g| - 1], f)
  }

  /** The sum of all tile values (`getValue`, so walls count 0). */
  function GridSum(g: Grid): nat
  {
    GridTotal(g, ValueOf)
  }

  /** The sum of the values of the tiles merged during this shift. */
  function MergedSum(g: Grid): nat
  {
    GridTotal(g, MergedValueOf)
  }

  lemma {:induction false} RowTotalUpdate(row: seq<Tile>, c: nat, t: Tile, f: Tile -> nat)
    requires c < |row|
    ensures RowTotal(row[c := t], f) + f(row[c]) == RowTotal(row, f) + f(t)
    decreases |row|
  {
    var n := |row| - 1;
    assert row[c := t][..n] == if c == n then row[..n] else row[..n][c := t];
    if c < n {
      RowTotalUpdate(row[..n], c, t, f);
    }
  }

  lemma {:induction false} GridTotalUpdate(g: Grid, r: nat, row: seq<Tile>, f: Tile -> nat)
    requires r < |g|
    ensures GridTotal(g[r := row], f) + RowTotal(g[r], f) == GridTotal(g, f) + RowTotal(row, f)
    decreases |g|
  {
    var n := |g| - 1;
    assert g[r := row][..n] == if r == n then g[..n] else g[..n][r := row];
    if r < n {
      GridTotalUpdate(g[..n], r, row, f);
    }
  }

  /** Replacing one cell changes a grid total by the difference of the two
      cells' contributions. */
  lemma SetAtTotal(g: Grid, size: Vec2, p: Vec2, t: Tile, f: Tile -> nat)
    requires Shaped(g, size) && InBounds(p, size)
    ensures GridTotal(SetAt(g, size, p, t), f) + f(At(g, size, p)) == GridTotal(g, f) + f(t)
  {
    RowTotalUpdate(g[p.y], p.x, t, f);
    GridTotalUpdate(g, p.y, g[p.y][p.x := t], f);
  }

  lemma {:induction false} RowTotalZero(row: seq<Tile>, f: Tile -> nat)
    ensures RowTotal(row, f) == 0 <==> forall j | 0 <= j < |row| :: f(row[j]) == 0
    decreases |row|
  {
    if row != [] {
      var n := |row| - 1;
      RowTotalZero(row[..n], f);
      assert forall j | 0 <= j < n :: row[..n][j] == row[j];
    }
  }

  /** A grid total is 0 exactly when every cell contributes 0. */
  lemma {:induction false} GridTotalZero(g: Grid, f: Tile -> nat)
    ensures GridTotal(g, f) == 0 <==>
      forall i, j | 0 <= i < |g| && 0 <= j < |g[i]| :: f(g[i][j]) == 0
    decreases |g|
  {
    if g != [] {
      var n := |g| - 1;
      GridTotalZero(g[..n], f);
      RowTotalZero(g[n], f);
      assert forall i | 0 <= i < n :: g[..n][i] == g[i];
    }
  }

  lemma {:induction false} RowTotalClearMerged(row: seq<Tile>)
    ensures RowTotal(seq(|row|, j requires 0 <= j < |row| => row[j].ConfirmMerge()), ValueOf) == RowTotal(row, ValueOf)
    decreases |row|
  {
    var cleared := seq(|row|, j requires 0 <= j < |row| => row[j].ConfirmMerge());
    if row != [] {
      var n := |row| - 1;
      assert cleared[..n] == seq(n, j requires 0 <= j < n => row[..n][j].ConfirmMerge());
      RowTotalClearMerged(row[..n]);
    }
  }

  /** Clearing merge flags leaves the value sum as it was. */
  lemma {:induction false} ClearMergedKeepsSum(g: Grid)
    ensures GridSum(ClearMerged(g)) == GridSum(g)
    decreases |g|
  {
    if g != [] {
      var n := |g| - 1;
      assert ClearMerged(g)[..n] == ClearMerged(g[..n]);
      ClearMergedKeepsSum(g[..n]);
      RowTotalClearMerged(g[n]);
      assert ClearMerged(g)[n] == seq(|g[n]|, j requires 0 <= j < |g[n]| => g[n][j].ConfirmMerge());
    }
  }
}
