/** The shift algorithm of 2048/Board.cpp as pure functions over a grid:
    `findIdxAfterShift`, one call of `collapseTilesTo`, the per-line loop of
    `shiftTo` and the feasibility test `canShiftTo`. The `Board` class runs
    these steps in place and is proved to compute exactly these values. */
module Shift {
  import opened Utility
  import opened Vec2Math
  import opened Tiles
  import opened Grids

  type AnimGrid = seq<seq<Vec2>>

  /** The `Directions` table, in (column, row) order. */
  function DirVec(d: Direction): (v: Vec2)
    ensures Abs(v.x) + Abs(v.y) == 1
  {
    match d
    case Left => Vec2(-1, 0)
    case Right => Vec2(1, 0)
    case Up => Vec2(0, -1)
    case Down => Vec2(0, 1)
  }

  /** The coordinate that grows by one per step in direction `d`. */
  function Along(p: Vec2, d: Direction): int
  {
    match d
    case Left => -p.x
    case Right => p.x
    case Up => -p.y
    case Down => p.y
  }

  /** The coordinate that a step in direction `d` leaves alone (the row for
      Left/Right, the column for Up/Down). */
  function Across(p: Vec2, d: Direction): int
  {
    match d
    case Left => p.y
    case Right => p.y
    case Up => p.x
    case Down => p.x
  }

  /** Number of steps from `p` to the edge that `d` points at. */
  function Dist(p: Vec2, d: Direction, size: Vec2): nat
    requires size.x >= 1 && size.y >= 1 && InBounds(p, size)
  {
    match d
    case Left => p.x
    case Right => size.x - 1 - p.x
    case Up => p.y
    case Down => size.y - 1 - p.y
  }

  /** A step in direction `d` moves one cell along the line. */
  lemma StepAlong(p: Vec2, d: Direction, size: Vec2)
    requires size.x >= 1 && size.y >= 1 && InBounds(p, size)
    ensures Along(p.Add(DirVec(d)), d) == Along(p, d) + 1
    ensures Across(p.Add(DirVec(d)), d) == Across(p, d)
    ensures InBounds(p.Add(DirVec(d)), size) <==> Dist(p, d, size) > 0
    ensures InBounds(p.Add(DirVec(d)), size) ==> Dist(p.Add(DirVec(d)), d, size) == Dist(p, d, size) - 1
    ensures p.Add(DirVec(d)).Sub(DirVec(d)) == p
  {
    match d
    case Left =>
    case Right =>
    case Up =>
    case Down =>
  }

  /** The cells strictly ahead of `from` up to and including `to` on the
      line of `from`. */
  predicate Between(q: Vec2, from: Vec2, to: Vec2, d: Direction)
  {
    Across(q, d) == Across(from, d) && Along(from, d) < Along(q, d) <= Along(to, d)
  }

  /** `findIdxAfterShift(idx, dir)`: where the tile at `idx` would end up,
      found by first resolving the next cell's destination. A wall stays
      where it is; otherwise the result is an in-bounds cell of the same
      line, at or ahead of `idx`, with no wall in between. */
  function FindIdxAfterShift(g: Grid, size: Vec2, idx: Vec2, dir: Direction): (r: Vec2)
    requires Shaped(g, size) && InBounds(idx, size)
    ensures InBounds(r, size)
    ensures Across(r, dir) == Across(idx, dir)
    ensures Along(idx, dir) <= Along(r, dir) <= Along(idx, dir) + Dist(idx, dir, size)
    ensures At(g, size, idx).isWall ==> r == idx
    ensures forall q {:trigger Between(q, idx, r, dir)} | InBounds(q, size) && Between(q, idx, r, dir) :: !At(g, size, q).isWall
    decreases Dist(idx, dir, size)
  {
    var next := idx.Add(DirVec(dir));
    StepAlong(idx, dir, size);
    if !InBounds(next, size) then
      idx
    else
      var n := FindIdxAfterShift(g, size, next, dir);
      if At(g, size, idx).isWall then
        idx
      else
        FindIdxStep(g, size, idx, dir, n);
        if At(g, size, n).CanMergeWith(At(g, size, idx)) then
          n
        else
          n.Sub(DirVec(dir))
  }

  /** One level of `findIdxAfterShift`: from the destination `n` of the next
      cell, the source either joins `n` or stops one cell before it; both
      stay on the line, ahead of the source and short of any wall. */
  lemma FindIdxStep(g: Grid, size: Vec2, idx: Vec2, dir: Direction, n: Vec2)
    requires Shaped(g, size) && InBounds(idx, size) && !At(g, size, idx).isWall
    requires InBounds(idx.Add(DirVec(dir)), size)
    requires InBounds(n, size) && Across(n, dir) == Across(idx, dir)
    requires Along(idx, dir) < Along(n, dir) <= Along(idx, dir) + Dist(idx, dir, size)
    requires At(g, size, idx.Add(DirVec(dir))).isWall ==> n == idx.Add(DirVec(dir))
    requires forall q | InBounds(q, size) && Between(q, idx.Add(DirVec(dir)), n, dir) :: !At(g, size, q).isWall
    ensures var r := if At(g, size, n).CanMergeWith(At(g, size, idx)) then n else n.Sub(DirVec(dir));
      && InBounds(r, size) && Across(r, dir) == Across(idx, dir)
      && Along(idx, dir) <= Along(r, dir) <= Along(idx, dir) + Dist(idx, dir, size)
      && forall q | InBounds(q, size) && Between(q, idx, r, dir) :: !At(g, size, q).isWall
  {
    var next := idx.Add(DirVec(dir));
    StepAlong(idx, dir, size);
    StepBack(idx, n, dir, size);
    forall q | InBounds(q, size) && Between(q, idx, n, dir) && q != next
      ensures Between(q, next, n, dir)
    {
      NotNextIsFurther(q, idx, dir, size);
    }
  }

  /** A cell of the line strictly ahead of `idx` is either the next cell or
      further on. */
  lemma NotNextIsFurther(q: Vec2, idx: Vec2, d: Direction, size: Vec2)
    requires size.x >= 1 && size.y >= 1 && InBounds(idx, size)
    requires Across(q, d) == Across(idx, d) && Along(idx, d) < Along(q, d)
    requires q != idx.Add(DirVec(d))
    ensures Along(idx.Add(DirVec(d)), d) < Along(q, d)
  {
    match d
    case Left =>
    case Right =>
    case Up =>
    case Down =>
  }

  /** Stepping back once from a cell strictly ahead of `idx` on its line
      stays on the line and in bounds. */
  lemma StepBack(idx: Vec2, n: Vec2, d: Direction, size: Vec2)
    requires size.x >= 1 && size.y >= 1
    requires InBounds(idx, size) && InBounds(n, size)
    requires Across(n, d) == Across(idx, d) && Along(idx, d) < Along(n, d)
    ensures InBounds(n.Sub(DirVec(d)), size)
    ensures Along(n.Sub(DirVec(d)), d) == Along(n, d) - 1
    ensures Across(n.Sub(DirVec(d)), d) == Across(n, d)
  {
    match d
    case Left =>
    case Right =>
    case Up =>
    case Down =>
  }

  /** What collapsing leaves: the grid, the displacement field and the
      points scored. */
  datatype Collapsed = Collapsed(grid: Grid, anim: AnimGrid, points: nat)

  /** The second half of `collapseTilesTo`: resolving the cell `idx` once
      every cell ahead of it on its line is done. A non-empty tile whose
      destination differs from `idx` records the displacement and, when the
      destination accepts it, is merged (or slid) into it. */
  function ResolveCell(g: Grid, a: AnimGrid, size: Vec2, idx: Vec2, dir: Direction): (c: Collapsed)
    requires Shaped(g, size) && Shaped(a, size) && InBounds(idx, size)
    ensures Shaped(c.grid, size) && Shaped(c.anim, size)
  {
    if At(g, size, idx).GetValue() == 0 then
      Collapsed(g, a, 0)
    else
      var t := FindIdxAfterShift(g, size, idx, dir);
      if t == idx then
        Collapsed(g, a, 0)
      else
        var a' := SetAt(a, size, idx, t.Sub(idx));
        if At(g, size, t).CanMergeWith(At(g, size, idx)) then
          var m := At(g, size, t).MergeWith(At(g, size, idx));
          Collapsed(SetAt(SetAt(g, size, t, m.target), size, idx, m.source), a', m.points)
        else
          Collapsed(g, a', 0)
  }

  /** `collapseTilesTo(idx, dir)`: first collapse everything ahead of `idx`
      (the recursive call of the source), then resolve `idx` itself. */
  function Collapse(g: Grid, a: AnimGrid, size: Vec2, idx: Vec2, dir: Direction): (c: Collapsed)
    requires Shaped(g, size) && Shaped(a, size) && InBounds(idx, size)
    ensures Shaped(c.grid, size) && Shaped(c.anim, size)
    decreases Dist(idx, dir, size)
  {
    var target := idx.Add(DirVec(dir));
    StepAlong(idx, dir, size);
    if !InBounds(target, size) then
      Collapsed(g, a, 0)
    else
      var ahead := Collapse(g, a, size, target, dir);
      var here := ResolveCell(ahead.grid, ahead.anim, size, idx, dir);
      Collapsed(here.grid, here.anim, ahead.points + here.points)
  }

  /** Number of lines `shiftTo` collapses: rows for Left/Right, columns for
      Up/Down. */
  function LineCount(d: Direction, size: Vec2): nat
    requires size.x >= 1 && size.y >= 1
  {
    match d
    case Left => size.y
    case Right => size.y
    case Up => size.x
    case Down => size.x
  }

  /** The trailing end of line `i`, where `shiftTo` starts `collapseTilesTo`. */
  function LineStart(d: Direction, size: Vec2, i: nat): (p: Vec2)
    requires size.x >= 1 && size.y >= 1 && i < LineCount(d, size)
    ensures InBounds(p, size) && Across(p, d) == i
  {
    match d
    case Right => Vec2(0, i)
    case Left => Vec2(size.x - 1, i)
    case Up => Vec2(i, size.y - 1)
    case Down => Vec2(i, 0)
  }

  /** The first `k` lines of `shiftTo` collapsed in order, the points added up. */
  function ShiftLines(g: Grid, a: AnimGrid, size: Vec2, d: Direction, k: nat): (c: Collapsed)
    requires Shaped(g, size) && Shaped(a, size) && k <= LineCount(d, size)
    ensures Shaped(c.grid, size) && Shaped(c.anim, size)
    decreases k
  {
    if k == 0 then
      Collapsed(g, a, 0)
    else
      var before := ShiftLines(g, a, size, d, k - 1);
      var line := Collapse(before.grid, before.anim, size, LineStart(d, size, k - 1), d);
      Collapsed(line.grid, line.anim, before.points + line.points)
  }

  /** The effect of an accepted `shiftTo`: every line collapsed, then every
      merge flag cleared. */
  function Shifted(g: Grid, a: AnimGrid, size: Vec2, d: Direction): (c: Collapsed)
    requires Shaped(g, size) && Shaped(a, size)
    ensures Shaped(c.grid, size) && Shaped(c.anim, size)
  {
    var s := ShiftLines(g, a, size, d, LineCount(d, size));
    Collapsed(ClearMerged(s.grid), s.anim, s.points)
  }

  /** `canShiftTo(dir)`: some tile holding a value has a destination other
      than its own cell. */
  predicate Movable(g: Grid, size: Vec2, d: Direction)
    requires Shaped(g, size)
  {
    exists i, j | 0 <= i < size.y && 0 <= j < size.x :: Moves(g, size, d, i, j)
  }

  /** The test `canShiftTo` makes on cell (row `i`, column `j`). */
  predicate Moves(g: Grid, size: Vec2, d: Direction, i: nat, j: nat)
    requires Shaped(g, size) && i < size.y && j < size.x
    ensures Moves(g, size, d, i, j) ==> !g[i][j].isWall && g[i][j].value != 0
  {
    g[i][j].GetValue() != 0 && FindIdxAfterShift(g, size, Vec2(j, i), d) != Vec2(j, i)
  }

  /** What one collapse step keeps: the value sum, the wall layout, every
      wall and every already merged tile untouched, and the points equal to
      what the newly merged tiles hold. */
  predicate Keeps(g: Grid, c: Collapsed, size: Vec2)
    requires Shaped(g, size) && Shaped(c.grid, size)
  {
    && GridSum(c.grid) == GridSum(g)
    && MergedSum(c.grid) == MergedSum(g) + c.points
    && (forall i, j | 0 <= i < size.y && 0 <= j < size.x ::
          c.grid[i][j].isWall == g[i][j].isWall
          && (g[i][j].isWall || g[i][j].merged ==> c.grid[i][j] == g[i][j]))
    && (MergedHoldValue(g) ==> MergedHoldValue(c.grid))
  }

  /** `Keeps` composes: two steps that each keep it keep it together. */
  lemma KeepsTrans(g: Grid, b: Collapsed, c: Collapsed, size: Vec2)
    requires Shaped(g, size) && Shaped(b.grid, size) && Shaped(c.grid, size)
    requires Keeps(g, b, size) && Keeps(b.grid, c, size)
    ensures Keeps(g, Collapsed(c.grid, c.anim, b.points + c.points), size)
  {
  }

  lemma ResolveCellKeeps(g: Grid, a: AnimGrid, size: Vec2, idx: Vec2, dir: Direction)
    requires Shaped(g, size) && Shaped(a, size) && InBounds(idx, size)
    ensures Keeps(g, ResolveCell(g, a, size, idx, dir), size)
  {
    if At(g, size, idx).GetValue() != 0 {
      var t := FindIdxAfterShift(g, size, idx, dir);
      if t != idx && At(g, size, t).CanMergeWith(At(g, size, idx)) {
        MergeKeeps(g, SetAt(a, size, idx, t.Sub(idx)), size, t, idx);
      }
    }
  }

  /** The merge (or slide) of the tile at `src` into the tile at `dst`
      keeps what a collapse step keeps. */
  lemma MergeKeeps(g: Grid, a: AnimGrid, size: Vec2, dst: Vec2, src: Vec2)
    requires Shaped(g, size) && Shaped(a, size) && InBounds(dst, size) && InBounds(src, size)
    requires dst != src && At(g, size, dst).CanMergeWith(At(g, size, src))
    ensures var m := At(g, size, dst).MergeWith(At(g, size, src));
      Keeps(g, Collapsed(SetAt(SetAt(g, size, dst, m.target), size, src, m.source), a, m.points), size)
  {
    var m := At(g, size, dst).MergeWith(At(g, size, src));
    var g1 := SetAt(g, size, dst, m.target);
    var g2 := SetAt(g1, size, src, m.source);
    assert At(g1, size, src) == At(g, size, src);
    SetAtTotal(g, size, dst, m.target, ValueOf);
    SetAtTotal(g1, size, src, m.source, ValueOf);
    assert GridSum(g2) == GridSum(g);
    SetAtTotal(g, size, dst, m.target, MergedValueOf);
    SetAtTotal(g1, size, src, m.source, MergedValueOf);
    assert MergedSum(g2) == MergedSum(g) + m.points;
  }

  /** A whole `collapseTilesTo` call keeps what each step keeps. */
  lemma {:induction false} CollapseKeeps(g: Grid, a: AnimGrid, size: Vec2, idx: Vec2, dir: Direction)
    requires Shaped(g, size) && Shaped(a, size) && InBounds(idx, size)
    ensures Keeps(g, Collapse(g, a, size, idx, dir), size)
    decreases Dist(idx, dir, size)
  {
    var target := idx.Add(DirVec(dir));
    StepAlong(idx, dir, size);
    if InBounds(target, size) {
      var ahead := Collapse(g, a, size, target, dir);
      CollapseKeeps(g, a, size, target, dir);
      ResolveCellKeeps(ahead.grid, ahead.anim, size, idx, dir);
      KeepsTrans(g, ahead, ResolveCell(ahead.grid, ahead.anim, size, idx, dir), size);
    }
  }

  /** Collapsing the first `k` lines keeps what each step keeps. */
  lemma {:induction false} ShiftLinesKeeps(g: Grid, a: AnimGrid, size: Vec2, d: Direction, k: nat)
    requires Shaped(g, size) && Shaped(a, size) && k <= LineCount(d, size)
    ensures Keeps(g, ShiftLines(g, a, size, d, k), size)
    decreases k
  {
    if k > 0 {
      var before := ShiftLines(g, a, size, d, k - 1);
      ShiftLinesKeeps(g, a, size, d, k - 1);
      CollapseKeeps(before.grid, before.anim, size, LineStart(d, size, k - 1), d);
      KeepsTrans(g, before, Collapse(before.grid, before.anim, size, LineStart(d, size, k - 1), d), size);
    }
  }

  /** A tile that has merged during this shift is never touched again by a
      later `collapseTilesTo` of the same shift, so it merges at most once. */
  lemma MergedTileIsFinal(g: Grid, a: AnimGrid, size: Vec2, idx: Vec2, dir: Direction, i: nat, j: nat)
    requires Shaped(g, size) && Shaped(a, size) && InBounds(idx, size)
    requires i < size.y && j < size.x && g[i][j].merged
    ensures Collapse(g, a, size, idx, dir).grid[i][j] == g[i][j]
  {
    CollapseKeeps(g, a, size, idx, dir);
  }

  /** A tile at the leading edge, or with a wall in the very next cell,
      stays where it is. */
  lemma {:induction false} BlockedTileStays(g: Grid, size: Vec2, idx: Vec2, dir: Direction)
    requires Shaped(g, size) && InBounds(idx, size)
    requires !InBounds(idx.Add(DirVec(dir)), size) || At(g, size, idx.Add(DirVec(dir))).isWall
    ensures FindIdxAfterShift(g, size, idx, dir) == idx
  {
    var next := idx.Add(DirVec(dir));
    StepAlong(idx, dir, size);
    if InBounds(next, size) {
      assert FindIdxAfterShift(g, size, next, dir) == next;
    }
  }

  /** When every tile holding a value is blocked (at the leading edge or
      right behind a wall), `canShiftTo` is false: a row `2 # 2` cannot
      shift Left. */
  lemma BlockedBoardCannotShift(g: Grid, size: Vec2, dir: Direction)
    requires Shaped(g, size)
    requires forall i, j | 0 <= i < size.y && 0 <= j < size.x && g[i][j].GetValue() != 0 ::
      !InBounds(Vec2(j, i).Add(DirVec(dir)), size) || At(g, size, Vec2(j, i).Add(DirVec(dir))).isWall
    ensures !Movable(g, size, dir)
  {
    forall i, j | 0 <= i < size.y && 0 <= j < size.x && g[i][j].GetValue() != 0
      ensures FindIdxAfterShift(g, size, Vec2(j, i), dir) == Vec2(j, i)
    {
      BlockedTileStays(g, size, Vec2(j, i), dir);
    }
  }

  /** Collapsing the last two cells of a line, the second holding an
      unmerged tile with a value: into an empty edge cell the tile slides
      and scores 0; onto an equal tile it merges, the edge cell doubles
      and is flagged, and the pair scores the doubled value; onto a
      different value nothing moves. */
  lemma {:induction false} EdgePairCollapse(g: Grid, a: AnimGrid, size: Vec2, idx: Vec2, dir: Direction)
    requires Shaped(g, size) && Shaped(a, size) && InBounds(idx, size)
    requires InBounds(idx.Add(DirVec(dir)), size)
    requires !InBounds(idx.Add(DirVec(dir)).Add(DirVec(dir)), size)
    requires var s := At(g, size, idx); var t := At(g, size, idx.Add(DirVec(dir)));
      !s.isWall && !s.merged && s.value > 0 && !t.isWall && !t.merged
    ensures var s := At(g, size, idx); var q := idx.Add(DirVec(dir)); var t := At(g, size, q);
      var c := Collapse(g, a, size, idx, dir);
      && (t.value == 0 ==>
            c.points == 0 && At(c.grid, size, q) == s && At(c.grid, size, idx) == t
            && At(c.anim, size, idx) == DirVec(dir))
      && (t.value == s.value ==>
            c.points == 2 * s.value && At(c.grid, size, q) == Tile(2 * s.value, false, true)
            && At(c.grid, size, idx) == Tile(0, false, false) && At(c.anim, size, idx) == DirVec(dir))
      && (t.value != 0 && t.value != s.value ==> c.grid == g && c.points == 0)
  {
    var q := idx.Add(DirVec(dir));
    EdgePairSteps(g, a, size, idx, dir);
    assert q.Sub(idx) == DirVec(dir);
  }

  /** The unfolding behind `EdgePairCollapse`: the edge cell is left alone,
      and the second cell goes to the edge exactly when it can merge there. */
  lemma {:induction false} EdgePairSteps(g: Grid, a: AnimGrid, size: Vec2, idx: Vec2, dir: Direction)
    requires Shaped(g, size) && Shaped(a, size) && InBounds(idx, size)
    requires InBounds(idx.Add(DirVec(dir)), size)
    requires !InBounds(idx.Add(DirVec(dir)).Add(DirVec(dir)), size)
    requires !At(g, size, idx).isWall
    ensures Collapse(g, a, size, idx, dir) == ResolveCell(g, a, size, idx, dir)
    ensures var q := idx.Add(DirVec(dir));
      FindIdxAfterShift(g, size, idx, dir) ==
        if At(g, size, q).CanMergeWith(At(g, size, idx)) then q else idx
  {
    var q := idx.Add(DirVec(dir));
    StepAlong(idx, dir, size);
    StepAlong(q, dir, size);
    assert Collapse(g, a, size, q, dir) == Collapsed(g, a, 0);
    assert FindIdxAfterShift(g, size, q, dir) == q;
  }

  /** A shift never changes the sum of the grid's values: a merge adds the
      source's value into the destination and empties the source. */
  lemma ShiftConservesSum(g: Grid, a: AnimGrid, size: Vec2, d: Direction)
    requires Shaped(g, size) && Shaped(a, size)
    ensures GridSum(Shifted(g, a, size, d).grid) == GridSum(g)
  {
    ShiftLinesKeeps(g, a, size, d, LineCount(d, size));
    ClearMergedKeepsSum(ShiftLines(g, a, size, d, LineCount(d, size)).grid);
  }

  /** Walls neither move nor change under a shift, and no cell turns into
      or stops being a wall. */
  lemma ShiftKeepsWalls(g: Grid, a: AnimGrid, size: Vec2, d: Direction)
    requires Shaped(g, size) && Shaped(a, size) && NoneMerged(g)
    ensures var r := Shifted(g, a, size, d).grid;
      forall i, j | 0 <= i < size.y && 0 <= j < size.x ::
        r[i][j].isWall == g[i][j].isWall && (g[i][j].isWall ==> r[i][j] == g[i][j])
  {
    ShiftLinesKeeps(g, a, size, d, LineCount(d, size));
  }

  /** The points of a shift are the values of the tiles formed by merging
      in it; so they are 0 exactly when the shift only slid tiles. After
      the shift no merge flag remains. */
  lemma ShiftScoresMerges(g: Grid, a: AnimGrid, size: Vec2, d: Direction)
    requires Shaped(g, size) && Shaped(a, size) && NoneMerged(g)
    ensures var s := ShiftLines(g, a, size, d, LineCount(d, size));
      && Shifted(g, a, size, d).points == MergedSum(s.grid)
      && (Shifted(g, a, size, d).points == 0 <==> NoneMerged(s.grid))
      && NoneMerged(Shifted(g, a, size, d).grid)
  {
    var s := ShiftLines(g, a, size, d, LineCount(d, size));
    GridTotalZero(g, MergedValueOf);
    ShiftLinesKeeps(g, a, size, d, LineCount(d, size));
    GridTotalZero(s.grid, MergedValueOf);
    assert NoneMerged(s.grid) <==>
      forall i, j | 0 <= i < |s.grid| && 0 <= j < |s.grid[i]| :: MergedValueOf(s.grid[i][j]) == 0;
  }

  /** Resolving a cell only touches the cell itself and its destination. */
  lemma ResolveCellFrame(g: Grid, a: AnimGrid, size: Vec2, idx: Vec2, dir: Direction, p: Vec2)
    requires Shaped(g, size) && Shaped(a, size) && InBounds(idx, size) && InBounds(p, size)
    requires p != idx && p != FindIdxAfterShift(g, size, idx, dir)
    ensures At(ResolveCell(g, a, size, idx, dir).grid, size, p) == At(g, size, p)
  {
  }

  /** `collapseTilesTo` from `idx` leaves alone every cell behind `idx` and
      every cell of another line. */
  lemma {:induction false} CollapseFrame(g: Grid, a: AnimGrid, size: Vec2, idx: Vec2, dir: Direction, p: Vec2)
    requires Shaped(g, size) && Shaped(a, size) && InBounds(idx, size) && InBounds(p, size)
    requires Across(p, dir) != Across(idx, dir) || Along(p, dir) < Along(idx, dir)
    ensures At(Collapse(g, a, size, idx, dir).grid, size, p) == At(g, size, p)
    decreases Dist(idx, dir, size)
  {
    var target := idx.Add(DirVec(dir));
    StepAlong(idx, dir, size);
    if InBounds(target, size) {
      CollapseFrame(g, a, size, target, dir, p);
      var ahead := Collapse(g, a, size, target, dir);
      ResolveCellFrame(ahead.grid, ahead.anim, size, idx, dir, p);
    }
  }

  /** One level of `findIdxAfterShift` for a tile that is not a wall and
      has a next cell: it joins the next cell's destination `n` when that
      tile accepts it, and stops one cell short otherwise. */
  lemma FindIdxOnto(g: Grid, size: Vec2, idx: Vec2, dir: Direction, n: Vec2)
    requires Shaped(g, size) && InBounds(idx, size) && InBounds(idx.Add(DirVec(dir)), size)
    requires !At(g, size, idx).isWall && FindIdxAfterShift(g, size, idx.Add(DirVec(dir)), dir) == n
    ensures InBounds(n, size)
    ensures FindIdxAfterShift(g, size, idx, dir)
      == if At(g, size, n).CanMergeWith(At(g, size, idx)) then n else n.Sub(DirVec(dir))
  {
  }

  /** The third cell from the edge, holding `v`, behind an empty cell and a
      tile merged in this shift: it slides into the empty cell and scores
      nothing, because the merged tile refuses it. */
  lemma SlideBehindMerged(b: Grid, an: AnimGrid, size: Vec2, idx: Vec2, dir: Direction, v: nat)
    requires Shaped(b, size) && Shaped(an, size) && InBounds(idx, size)
    requires InBounds(idx.Add(DirVec(dir)), size) && InBounds(idx.Add(DirVec(dir)).Add(DirVec(dir)), size)
    requires !InBounds(idx.Add(DirVec(dir)).Add(DirVec(dir)).Add(DirVec(dir)), size)
    requires v > 0 && At(b, size, idx) == Tile(v, false, false)
    requires At(b, size, idx.Add(DirVec(dir))) == Tile(0, false, false)
    requires var t := At(b, size, idx.Add(DirVec(dir)).Add(DirVec(dir))); t.merged && !t.isWall
    ensures var q1 := idx.Add(DirVec(dir)); var q2 := q1.Add(DirVec(dir));
      var c := ResolveCell(b, an, size, idx, dir);
      && At(c.grid, size, q2) == At(b, size, q2)
      && At(c.grid, size, q1) == Tile(v, false, false)
      && At(c.grid, size, idx) == Tile(0, false, false)
      && c.points == 0
  {
    var d := DirVec(dir);
    var q1 := idx.Add(d);
    var q2 := q1.Add(d);
    StepAlong(idx, dir, size);
    StepAlong(q1, dir, size);
    BlockedTileStays(b, size, q2, dir);
    FindIdxOnto(b, size, q1, dir, q2);
    FindIdxOnto(b, size, idx, dir, q1);
  }

  /** The fourth cell from the edge, holding `v`, behind an empty cell, a
      `v` and a tile merged in this shift: it passes the empty cell and
      merges with the `v`, scoring `2v`. */
  lemma MergeBehindMerged(b: Grid, an: AnimGrid, size: Vec2, idx: Vec2, dir: Direction, v: nat)
    requires Shaped(b, size) && Shaped(an, size) && InBounds(idx, size)
    requires var q1 := idx.Add(DirVec(dir)); var q2 := q1.Add(DirVec(dir)); var q3 := q2.Add(DirVec(dir));
      InBounds(q1, size) && InBounds(q2, size) && InBounds(q3, size) && !InBounds(q3.Add(DirVec(dir)), size)
    requires v > 0 && At(b, size, idx) == Tile(v, false, false)
    requires At(b, size, idx.Add(DirVec(dir))) == Tile(0, false, false)
    requires At(b, size, idx.Add(DirVec(dir)).Add(DirVec(dir))) == Tile(v, false, false)
    requires var t := At(b, size, idx.Add(DirVec(dir)).Add(DirVec(dir)).Add(DirVec(dir))); t.merged && !t.isWall
    ensures var q1 := idx.Add(DirVec(dir)); var q2 := q1.Add(DirVec(dir)); var q3 := q2.Add(DirVec(dir));
      var c := ResolveCell(b, an, size, idx, dir);
      && At(c.grid, size, q3) == At(b, size, q3)
      && At(c.grid, size, q2) == Tile(2 * v, false, true)
      && At(c.grid, size, q1) == Tile(0, false, false)
      && At(c.grid, size, idx) == Tile(0, false, false)
      && c.points == 2 * v
  {
    var d := DirVec(dir);
    var q1 := idx.Add(d);
    var q2 := q1.Add(d);
    var q3 := q2.Add(d);
    StepAlong(idx, dir, size);
    StepAlong(q1, dir, size);
    StepAlong(q2, dir, size);
    BlockedTileStays(b, size, q3, dir);
    FindIdxOnto(b, size, q2, dir, q3);
    FindIdxOnto(b, size, q1, dir, q2);
    FindIdxOnto(b, size, idx, dir, q2);
  }

  /** Three equal tiles at the leading end of a line: the two ahead merge
      into the double at the edge, and the last one slides up behind it
      without merging again, scoring only the double. */
  lemma {:induction false} ThreeEqualCollapse(g: Grid, a: AnimGrid, size: Vec2, idx: Vec2, dir: Direction, v: nat)
    requires Shaped(g, size) && Shaped(a, size) && InBounds(idx, size)
    requires InBounds(idx.Add(DirVec(dir)), size) && InBounds(idx.Add(DirVec(dir)).Add(DirVec(dir)), size)
    requires !InBounds(idx.Add(DirVec(dir)).Add(DirVec(dir)).Add(DirVec(dir)), size)
    requires v > 0
    requires At(g, size, idx) == Tile(v, false, false)
    requires At(g, size, idx.Add(DirVec(dir))) == Tile(v, false, false)
    requires At(g, size, idx.Add(DirVec(dir)).Add(DirVec(dir))) == Tile(v, false, false)
    ensures var q1 := idx.Add(DirVec(dir)); var q2 := q1.Add(DirVec(dir));
      var c := Collapse(g, a, size, idx, dir);
      && At(c.grid, size, q2) == Tile(2 * v, false, true)
      && At(c.grid, size, q1) == Tile(v, false, false)
      && At(c.grid, size, idx) == Tile(0, false, false)
      && c.points == 2 * v
  {
    var q1 := idx.Add(DirVec(dir));
    StepAlong(idx, dir, size);
    var ahead := Collapse(g, a, size, q1, dir);
    EdgePairCollapse(g, a, size, q1, dir);
    CollapseFrame(g, a, size, q1, dir, idx);
    SlideBehindMerged(ahead.grid, ahead.anim, size, idx, dir, v);
  }

  /** Four equal tiles at the leading end of a line become two doubles at
      the front: each pair merges once, and the score is both doubles. */
  lemma {:induction false} FourEqualCollapse(g: Grid, a: AnimGrid, size: Vec2, idx: Vec2, dir: Direction, v: nat)
    requires Shaped(g, size) && Shaped(a, size) && InBounds(idx, size)
    requires var q1 := idx.Add(DirVec(dir)); var q2 := q1.Add(DirVec(dir)); var q3 := q2.Add(DirVec(dir));
      InBounds(q1, size) && InBounds(q2, size) && InBounds(q3, size) && !InBounds(q3.Add(DirVec(dir)), size)
    requires v > 0
    requires var q1 := idx.Add(DirVec(dir)); var q2 := q1.Add(DirVec(dir)); var q3 := q2.Add(DirVec(dir));
      At(g, size, idx) == Tile(v, false, false) && At(g, size, q1) == Tile(v, false, false)
      && At(g, size, q2) == Tile(v, false, false) && At(g, size, q3) == Tile(v, false, false)
    ensures var q1 := idx.Add(DirVec(dir)); var q2 := q1.Add(DirVec(dir)); var q3 := q2.Add(DirVec(dir));
      var c := Collapse(g, a, size, idx, dir);
      && At(c.grid, size, q3) == Tile(2 * v, false, true)
      && At(c.grid, size, q2) == Tile(2 * v, false, true)
      && At(c.grid, size, q1) == Tile(0, false, false)
      && At(c.grid, size, idx) == Tile(0, false, false)
      && c.points == 4 * v
  {
    var q1 := idx.Add(DirVec(dir));
    StepAlong(idx, dir, size);
    var ahead := Collapse(g, a, size, q1, dir);
    ThreeEqualCollapse(g, a, size, q1, dir, v);
    CollapseFrame(g, a, size, q1, dir, idx);
    MergeBehindMerged(ahead.grid, ahead.anim, size, idx, dir, v);
  }

  /** A collapse along a row leaves every other row as it was. */
  lemma CollapseKeepsOtherRows(g: Grid, a: AnimGrid, size: Vec2, idx: Vec2, dir: Direction)
    requires Shaped(g, size) && Shaped(a, size) && InBounds(idx, size) && (dir == Left || dir == Right)
    ensures forall i | 0 <= i < size.y && i != idx.y :: Collapse(g, a, size, idx, dir).grid[i] == g[i]
  {
    var c := Collapse(g, a, size, idx, dir);
    forall i, j | 0 <= i < size.y && i != idx.y && 0 <= j < size.x
      ensures c.grid[i][j] == g[i][j]
    {
      CollapseFrame(g, a, size, idx, dir, Vec2(j, i));
    }
  }

  /** Row `i` of a board three cells wide holding `v v v`, collapsed Left:
      `2v v 0`, the `2v` flagged merged, scoring `2v`. */
  lemma RowOfThreeLeft(g: Grid, a: AnimGrid, size: Vec2, i: nat, v: nat)
    requires size.x == 3 && i < size.y && Shaped(g, size) && Shaped(a, size) && v > 0
    requires g[i] == [Tile(v, false, false), Tile(v, false, false), Tile(v, false, false)]
    ensures var c := Collapse(g, a, size, LineStart(Left, size, i), Left);
      c.grid[i] == [Tile(2 * v, false, true), Tile(v, false, false), Tile(0, false, false)] && c.points == 2 * v
  {
    var idx := LineStart(Left, size, i);
    var d := DirVec(Left);
    var q1 := idx.Add(d);
    var q2 := q1.Add(d);
    assert q1.x == 1 && q2.x == 0 && q2.Add(d).x == -1;
    ThreeEqualCollapse(g, a, size, idx, Left, v);
    var c := Collapse(g, a, size, idx, Left);
    assert c.grid[i][0] == Tile(2 * v, false, true);
    assert c.grid[i][1] == Tile(v, false, false);
    assert c.grid[i][2] == Tile(0, false, false);
  }

  /** Row `i` of a board four cells wide holding `v v v v`, collapsed Left:
      `2v 2v 0 0`, both flagged merged, scoring `4v`. */
  lemma RowOfFourLeft(g: Grid, a: AnimGrid, size: Vec2, i: nat, v: nat)
    requires size.x == 4 && i < size.y && Shaped(g, size) && Shaped(a, size) && v > 0
    requires g[i] == [Tile(v, false, false), Tile(v, false, false), Tile(v, false, false), Tile(v, false, false)]
    ensures var c := Collapse(g, a, size, LineStart(Left, size, i), Left);
      && c.grid[i] == [Tile(2 * v, false, true), Tile(2 * v, false, true), Tile(0, false, false), Tile(0, false, false)]
      && c.points == 4 * v
  {
    var idx := LineStart(Left, size, i);
    var d := DirVec(Left);
    var q1 := idx.Add(d);
    var q2 := q1.Add(d);
    var q3 := q2.Add(d);
    assert q1.x == 2 && q2.x == 1 && q3.x == 0 && q3.Add(d).x == -1;
    FourEqualCollapse(g, a, size, idx, Left, v);
    var c := Collapse(g, a, size, idx, Left);
    assert c.grid[i][0] == Tile(2 * v, false, true);
    assert c.grid[i][1] == Tile(2 * v, false, true);
    assert c.grid[i][2] == Tile(0, false, false);
    assert c.grid[i][3] == Tile(0, false, false);
  }

  /** Line `i` of a Left shift turns `inRow` into `outRow` scoring `m`,
      provided row `i` still holds `inRow` when its turn comes. */
  ghost predicate CollapsesRow(g: Grid, a: AnimGrid, size: Vec2, inRow: seq<Tile>, outRow: seq<Tile>, m: nat, i: nat)
    requires Shaped(g, size) && Shaped(a, size) && i < size.y
  {
    var s := ShiftLines(g, a, size, Left, i);
    s.grid[i] == inRow ==>
      var c := Collapse(s.grid, s.anim, size, LineStart(Left, size, i), Left);
      c.grid[i] == outRow && c.points == m
  }

  /** Replacing row `k - 1` by `outRow` and nothing else extends the
      prefix of finished rows by one. */
  lemma RowsAdvance(before: Grid, after: Grid, size: Vec2, inRow: seq<Tile>, outRow: seq<Tile>, k: nat)
    requires Shaped(before, size) && Shaped(after, size) && 0 < k <= size.y
    requires forall i | 0 <= i < k - 1 :: before[i] == outRow
    requires forall i | k - 1 <= i < size.y :: before[i] == inRow
    requires forall i | 0 <= i < size.y && i != k - 1 :: after[i] == before[i]
    requires after[k - 1] == outRow
    ensures forall i | 0 <= i < k :: after[i] == outRow
    ensures forall i | k <= i < size.y :: after[i] == inRow
  {
  }

  /** One pass of the line loop of a Left shift over a board whose rows
      all start as `inRow`. */
  lemma RowsStep(g: Grid, a: AnimGrid, size: Vec2, inRow: seq<Tile>, outRow: seq<Tile>, m: nat, k: nat)
    requires Shaped(g, size) && Shaped(a, size) && 0 < k <= size.y
    requires var s := ShiftLines(g, a, size, Left, k - 1);
      && s.points == (k - 1) * m
      && (forall i | 0 <= i < k - 1 :: s.grid[i] == outRow)
      && (forall i | k - 1 <= i < size.y :: s.grid[i] == inRow)
    requires CollapsesRow(g, a, size, inRow, outRow, m, k - 1)
    ensures var s := ShiftLines(g, a, size, Left, k);
      && s.points == k * m
      && (forall i | 0 <= i < k :: s.grid[i] == outRow)
      && (forall i | k <= i < size.y :: s.grid[i] == inRow)
  {
    var before := ShiftLines(g, a, size, Left, k - 1);
    var idx := LineStart(Left, size, k - 1);
    var line := Collapse(before.grid, before.anim, size, idx, Left);
    assert ShiftLines(g, a, size, Left, k) == Collapsed(line.grid, line.anim, before.points + line.points);
    CollapseKeepsOtherRows(before.grid, before.anim, size, idx, Left);
    RowsAdvance(before.grid, line.grid, size, inRow, outRow, k);
    MulSucc(k - 1, m);
  }

  lemma MulSucc(k: nat, m: nat)
    ensures (k + 1) * m == k * m + m
  {
  }

  /** If each line of a Left shift turns `inRow` into `outRow` scoring `m`,
      a board whose rows are all `inRow` has its first `k` rows `outRow`
      after `k` lines, scoring `k * m`. */
  lemma {:induction false} RowsInduction(g: Grid, a: AnimGrid, size: Vec2, inRow: seq<Tile>, outRow: seq<Tile>, m: nat, k: nat)
    requires Shaped(g, size) && Shaped(a, size) && k <= size.y
    requires forall i | 0 <= i < size.y :: g[i] == inRow
    requires forall i | 0 <= i < k :: CollapsesRow(g, a, size, inRow, outRow, m, i)
    ensures var s := ShiftLines(g, a, size, Left, k);
      && s.points == k * m
      && (forall i | 0 <= i < k :: s.grid[i] == outRow)
      && (forall i | k <= i < size.y :: s.grid[i] == inRow)
  {
    if k > 0 {
      RowsInduction(g, a, size, inRow, outRow, m, k - 1);
      RowsStep(g, a, size, inRow, outRow, m, k);
    }
  }

  /** Every line of a Left shift over rows `v v v` collapses as one row does. */
  lemma LinesOfThreeLeft(g: Grid, a: AnimGrid, size: Vec2, v: nat)
    requires size.x == 3 && Shaped(g, size) && Shaped(a, size) && v > 0
    ensures forall i | 0 <= i < size.y ::
      CollapsesRow(g, a, size, [Tile(v, false, false), Tile(v, false, false), Tile(v, false, false)],
        [Tile(2 * v, false, true), Tile(v, false, false), Tile(0, false, false)], 2 * v, i)
  {
    forall i | 0 <= i < size.y
      ensures CollapsesRow(g, a, size, [Tile(v, false, false), Tile(v, false, false), Tile(v, false, false)],
        [Tile(2 * v, false, true), Tile(v, false, false), Tile(0, false, false)], 2 * v, i)
    {
      var s := ShiftLines(g, a, size, Left, i);
      if s.grid[i] == [Tile(v, false, false), Tile(v, false, false), Tile(v, false, false)] {
        RowOfThreeLeft(s.grid, s.anim, size, i, v);
      }
    }
  }

  /** Every line of a Left shift over rows `v v v v` collapses as one row does. */
  lemma LinesOfFourLeft(g: Grid, a: AnimGrid, size: Vec2, v: nat)
    requires size.x == 4 && Shaped(g, size) && Shaped(a, size) && v > 0
    ensures forall i | 0 <= i < size.y ::
      CollapsesRow(g, a, size, [Tile(v, false, false), Tile(v, false, false), Tile(v, false, false), Tile(v, false, false)],
        [Tile(2 * v, false, true), Tile(2 * v, false, true), Tile(0, false, false), Tile(0, false, false)], 4 * v, i)
  {
    forall i | 0 <= i < size.y
      ensures CollapsesRow(g, a, size, [Tile(v, false, false), Tile(v, false, false), Tile(v, false, false), Tile(v, false, false)],
        [Tile(2 * v, false, true), Tile(2 * v, false, true), Tile(0, false, false), Tile(0, false, false)], 4 * v, i)
    {
      var s := ShiftLines(g, a, size, Left, i);
      if s.grid[i] == [Tile(v, false, false), Tile(v, false, false), Tile(v, false, false), Tile(v, false, false)] {
        RowOfFourLeft(s.grid, s.anim, size, i, v);
      }
    }
  }

  /** Shifting Left a board three wide whose every row is `v v v` (the row
      `2 2 2` for v = 2) makes every row `2v v 0`: the third tile does not
      merge into the new `2v`, and each row scores `2v`. */
  lemma ThreesShiftLeft(g: Grid, a: AnimGrid, size: Vec2, v: nat)
    requires size.x == 3 && Shaped(g, size) && Shaped(a, size) && v > 0
    requires forall i | 0 <= i < size.y :: g[i] == [Tile(v, false, false), Tile(v, false, false), Tile(v, false, false)]
    ensures forall i | 0 <= i < size.y ::
      Shifted(g, a, size, Left).grid[i] == [Tile(2 * v, false, false), Tile(v, false, false), Tile(0, false, false)]
    ensures Shifted(g, a, size, Left).points == size.y * (2 * v)
  {
    LinesOfThreeLeft(g, a, size, v);
    RowsInduction(g, a, size, [Tile(v, false, false), Tile(v, false, false), Tile(v, false, false)],
      [Tile(2 * v, false, true), Tile(v, false, false), Tile(0, false, false)], 2 * v, size.y);
    var s := ShiftLines(g, a, size, Left, size.y);
    forall i | 0 <= i < size.y
      ensures ClearMerged(s.grid)[i] == [Tile(2 * v, false, false), Tile(v, false, false), Tile(0, false, false)]
    {
      assert s.grid[i] == [Tile(2 * v, false, true), Tile(v, false, false), Tile(0, false, false)];
    }
  }

  /** Shifting Left a board four wide whose every row is `v v v v` (the
      row `2 2 2 2` for v = 2) makes every row `2v 2v 0 0`, each row
      scoring `4v`. */
  lemma FoursShiftLeft(g: Grid, a: AnimGrid, size: Vec2, v: nat)
    requires size.x == 4 && Shaped(g, size) && Shaped(a, size) && v > 0
    requires forall i | 0 <= i < size.y ::
      g[i] == [Tile(v, false, false), Tile(v, false, false), Tile(v, false, false), Tile(v, false, false)]
    ensures forall i | 0 <= i < size.y ::
      Shifted(g, a, size, Left).grid[i] == [Tile(2 * v, false, false), Tile(2 * v, false, false), Tile(0, false, false), Tile(0, false, false)]
    ensures Shifted(g, a, size, Left).points == size.y * (4 * v)
  {
    LinesOfFourLeft(g, a, size, v);
    RowsInduction(g, a, size, [Tile(v, false, false), Tile(v, false, false), Tile(v, false, false), Tile(v, false, false)],
      [Tile(2 * v, false, true), Tile(2 * v, false, true), Tile(0, false, false), Tile(0, false, false)], 4 * v, size.y);
    var s := ShiftLines(g, a, size, Left, size.y);
    forall i | 0 <= i < size.y
      ensures ClearMerged(s.grid)[i] == [Tile(2 * v, false, false), Tile(2 * v, false, false), Tile(0, false, false), Tile(0, false, false)]
    {
      assert s.grid[i] == [Tile(2 * v, false, true), Tile(2 * v, false, true), Tile(0, false, false), Tile(0, false, false)];
    }
  }

  // ---------------------------------------------------------------------
  // `canShiftTo` agrees with `shiftTo`

  /** Two points of one line at the same distance along it are one point. */
  lemma SameCell(p: Vec2, q: Vec2, d: Direction)
    requires Across(p, d) == Across(q, d) && Along(p, d) == Along(q, d)
    ensures p == q
  {
    match d
    case Left =>
    case Right =>
    case Up =>
    case Down =>
  }

  /** Along a line, the distance to the edge shrinks exactly as the
      position grows. */
  lemma DistAlong(p: Vec2, q: Vec2, d: Direction, size: Vec2)
    requires size.x >= 1 && size.y >= 1 && InBounds(p, size) && InBounds(q, size)
    ensures Dist(p, d, size) + Along(p, d) == Dist(q, d, size) + Along(q, d)
  {
    match d
    case Left =>
    case Right =>
    case Up =>
    case Down =>
  }

  /** Every cell lies on one of the lines `shiftTo` collapses. */
  lemma AcrossBound(p: Vec2, d: Direction, size: Vec2)
    requires size.x >= 1 && size.y >= 1 && InBounds(p, size)
    ensures 0 <= Across(p, d) < LineCount(d, size)
  {
    match d
    case Left =>
    case Right =>
    case Up =>
    case Down =>
  }

  /** No tile holding a value at `idx` or ahead of it on its line has a
      destination other than its own cell. */
  ghost predicate StillFrom(g: Grid, size: Vec2, idx: Vec2, d: Direction)
    requires Shaped(g, size)
  {
    forall q {:trigger FindIdxAfterShift(g, size, q, d)}
      | InBounds(q, size) && Across(q, d) == Across(idx, d) && Along(idx, d) <= Along(q, d) ::
      At(g, size, q).GetValue() != 0 ==> FindIdxAfterShift(g, size, q, d) == q
  }

  /** When no tile from `idx` on would move, `collapseTilesTo(idx)`
      changes no tile. */
  lemma {:induction false} CollapseStill(g: Grid, a: AnimGrid, size: Vec2, idx: Vec2, d: Direction)
    requires Shaped(g, size) && Shaped(a, size) && InBounds(idx, size) && StillFrom(g, size, idx, d)
    ensures Collapse(g, a, size, idx, d).grid == g
    decreases Dist(idx, d, size)
  {
    var target := idx.Add(DirVec(d));
    StepAlong(idx, d, size);
    if InBounds(target, size) {
      CollapseStill(g, a, size, target, d);
    }
  }

  /** When `canShiftTo` fails, no tile of any line would move. */
  lemma NotMovableStill(g: Grid, size: Vec2, idx: Vec2, d: Direction)
    requires Shaped(g, size) && InBounds(idx, size) && !Movable(g, size, d)
    ensures StillFrom(g, size, idx, d)
  {
    forall q | InBounds(q, size) && Across(q, d) == Across(idx, d) && Along(idx, d) <= Along(q, d)
      ensures At(g, size, q).GetValue() != 0 ==> FindIdxAfterShift(g, size, q, d) == q
    {
      assert !Moves(g, size, d, q.y, q.x);
    }
  }

  /** When `canShiftTo` fails, collapsing any number of lines changes no
      tile. */
  lemma ShiftLinesStill(g: Grid, a: AnimGrid, size: Vec2, d: Direction, k: nat)
    requires Shaped(g, size) && Shaped(a, size) && k <= LineCount(d, size) && !Movable(g, size, d)
    ensures ShiftLines(g, a, size, d, k).grid == g
    decreases k
  {
    if k > 0 {
      ShiftLinesStill(g, a, size, d, k - 1);
      var before := ShiftLines(g, a, size, d, k - 1);
      NotMovableStill(g, size, LineStart(d, size, k - 1), d);
      CollapseStill(g, before.anim, size, LineStart(d, size, k - 1), d);
    }
  }

  /** Clearing merge flags on a grid that carries none changes nothing. */
  lemma ClearUnmerged(g: Grid)
    requires NoneMerged(g)
    ensures ClearMerged(g) == g
  {
    forall i | 0 <= i < |g|
      ensures ClearMerged(g)[i] == g[i]
    {
      assert forall j | 0 <= j < |g[i]| :: ClearMerged(g)[i][j] == g[i][j];
    }
  }

  /** `findIdxAfterShift` reads only the line of `idx`: two grids that
      agree on that line give the same destination. */
  lemma {:induction false} FindIdxOnLine(g: Grid, h: Grid, size: Vec2, idx: Vec2, d: Direction, line: int)
    requires Shaped(g, size) && Shaped(h, size) && InBounds(idx, size) && Across(idx, d) == line
    requires forall q | InBounds(q, size) && Across(q, d) == line :: At(g, size, q) == At(h, size, q)
    ensures FindIdxAfterShift(g, size, idx, d) == FindIdxAfterShift(h, size, idx, d)
    decreases Dist(idx, d, size)
  {
    var next := idx.Add(DirVec(d));
    StepAlong(idx, d, size);
    assert At(g, size, idx) == At(h, size, idx);
    if InBounds(next, size) {
      FindIdxOnLine(g, h, size, next, d, line);
      var n := FindIdxAfterShift(g, size, next, d);
      assert At(g, size, n) == At(h, size, n);
    }
  }

  /** A tile that stays on its cell is a barrier: no cell behind it on its
      line has a destination beyond it. */
  lemma {:induction false} StaysBlocks(g: Grid, size: Vec2, x: Vec2, s: Vec2, d: Direction)
    requires Shaped(g, size) && InBounds(x, size) && InBounds(s, size)
    requires Across(x, d) == Across(s, d) && Along(x, d) <= Along(s, d)
    requires FindIdxAfterShift(g, size, s, d) == s
    ensures Along(FindIdxAfterShift(g, size, x, d), d) <= Along(s, d)
    decreases Dist(x, d, size)
  {
    if Along(x, d) == Along(s, d) {
      SameCell(x, s, d);
    } else {
      var next := x.Add(DirVec(d));
      StepAlong(x, d, size);
      DistAlong(x, s, d, size);
      StaysBlocks(g, size, next, s, d);
      var n := FindIdxAfterShift(g, size, next, d);
      if !At(g, size, x).isWall {
        FindIdxOnto(g, size, x, d, n);
        StepBack(x, n, d, size);
      }
    }
  }

  /** The destination of a moving tile with no moving tile ahead of it
      accepts it: either the next cell's destination takes it, or the cell
      just short of that destination is an empty non-wall. */
  lemma DestAccepts(g: Grid, size: Vec2, idx: Vec2, d: Direction)
    requires Shaped(g, size) && InBounds(idx, size)
    requires forall q | InBounds(q, size) && Across(q, d) == Across(idx, d) :: !At(g, size, q).merged
    requires At(g, size, idx).GetValue() != 0 && FindIdxAfterShift(g, size, idx, d) != idx
    requires StillFrom(g, size, idx.Add(DirVec(d)), d)
    ensures At(g, size, FindIdxAfterShift(g, size, idx, d)).CanMergeWith(At(g, size, idx))
  {
    var next := idx.Add(DirVec(d));
    StepAlong(idx, d, size);
    assert InBounds(next, size);
    var n := FindIdxAfterShift(g, size, next, d);
    FindIdxOnto(g, size, idx, d, n);
    if !At(g, size, n).CanMergeWith(At(g, size, idx)) {
      var t := n.Sub(DirVec(d));
      assert n != next;
      if Along(n, d) == Along(next, d) {
        SameCell(n, next, d);
      }
      StepBack(next, n, d, size);
      if t == next {
        assert !At(g, size, t).isWall;
      } else {
        if Along(t, d) == Along(next, d) {
          SameCell(t, next, d);
        }
        assert Between(t, next, n, d);
      }
      if At(g, size, t).GetValue() != 0 {
        StaysBlocks(g, size, next, t, d);
        assert false;
      }
    }
  }

  /** Resolving a cell never lowers the value of another cell: the
      destination gains the source's value, every other cell is kept. */
  lemma ResolveCellGrows(g: Grid, a: AnimGrid, size: Vec2, idx: Vec2, d: Direction, p: Vec2)
    requires Shaped(g, size) && Shaped(a, size) && InBounds(idx, size) && InBounds(p, size) && p != idx
    ensures At(ResolveCell(g, a, size, idx, d).grid, size, p).GetValue() >= At(g, size, p).GetValue()
  {
  }

  /** The leading moving tile `idx` of a line lands on a cell whose value
      rises: everything ahead of it stays, and its destination accepts it. */
  lemma LeaderLands(g: Grid, a: AnimGrid, size: Vec2, idx: Vec2, d: Direction) returns (q: Vec2)
    requires Shaped(g, size) && Shaped(a, size) && InBounds(idx, size)
    requires forall p | InBounds(p, size) && Across(p, d) == Across(idx, d) :: !At(g, size, p).merged
    requires At(g, size, idx).GetValue() != 0 && FindIdxAfterShift(g, size, idx, d) != idx
    requires StillFrom(g, size, idx.Add(DirVec(d)), d)
    ensures InBounds(q, size) && Across(q, d) == Across(idx, d)
    ensures At(Collapse(g, a, size, idx, d).grid, size, q).GetValue() > At(g, size, q).GetValue()
  {
    var target := idx.Add(DirVec(d));
    StepAlong(idx, d, size);
    assert InBounds(target, size);
    CollapseStill(g, a, size, target, d);
    DestAccepts(g, size, idx, d);
    q := FindIdxAfterShift(g, size, idx, d);
    var ahead := Collapse(g, a, size, target, d);
    assert ahead.grid == g;
  }

  /** Collapsing a line whose leading moving tile is `f` raises the value
      of some cell of that line: the cell that tile lands on. */
  lemma {:induction false} CollapseRaises(g: Grid, a: AnimGrid, size: Vec2, idx: Vec2, f: Vec2, d: Direction)
    returns (q: Vec2)
    requires Shaped(g, size) && Shaped(a, size) && InBounds(idx, size) && InBounds(f, size)
    requires Across(f, d) == Across(idx, d) && Along(idx, d) <= Along(f, d)
    requires forall p | InBounds(p, size) && Across(p, d) == Across(idx, d) :: !At(g, size, p).merged
    requires At(g, size, f).GetValue() != 0 && FindIdxAfterShift(g, size, f, d) != f
    requires StillFrom(g, size, f.Add(DirVec(d)), d)
    ensures InBounds(q, size) && Across(q, d) == Across(idx, d)
    ensures At(Collapse(g, a, size, idx, d).grid, size, q).GetValue() > At(g, size, q).GetValue()
    decreases Dist(idx, d, size)
  {
    if Along(f, d) == Along(idx, d) {
      SameCell(f, idx, d);
      q := LeaderLands(g, a, size, idx, d);
    } else {
      var target := idx.Add(DirVec(d));
      StepAlong(idx, d, size);
      DistAlong(idx, f, d, size);
      q := CollapseRaises(g, a, size, target, f, d);
      var ahead := Collapse(g, a, size, target, d);
      CollapseFrame(g, a, size, target, d, idx);
      ResolveCellGrows(ahead.grid, ahead.anim, size, idx, d, q);
    }
  }

  /** From a moving tile, the moving tile of its line nearest the leading
      edge: it moves, and nothing ahead of it does. */
  lemma {:induction false} LeadingMover(g: Grid, size: Vec2, m: Vec2, d: Direction) returns (f: Vec2)
    requires Shaped(g, size) && InBounds(m, size)
    requires At(g, size, m).GetValue() != 0 && FindIdxAfterShift(g, size, m, d) != m
    ensures InBounds(f, size) && Across(f, d) == Across(m, d) && Along(m, d) <= Along(f, d)
    ensures At(g, size, f).GetValue() != 0 && FindIdxAfterShift(g, size, f, d) != f
    ensures StillFrom(g, size, f.Add(DirVec(d)), d)
    decreases Dist(m, d, size)
  {
    StepAlong(m, d, size);
    if StillFrom(g, size, m.Add(DirVec(d)), d) {
      f := m;
    } else {
      var p :| InBounds(p, size) && Across(p, d) == Across(m.Add(DirVec(d)), d)
        && Along(m.Add(DirVec(d)), d) <= Along(p, d)
        && At(g, size, p).GetValue() != 0 && FindIdxAfterShift(g, size, p, d) != p;
      DistAlong(m, p, d, size);
      f := LeadingMover(g, size, p, d);
    }
  }

  /** Collapsing line `k` leaves the cells of every other line alone. */
  lemma ShiftLinesOtherLine(g: Grid, a: AnimGrid, size: Vec2, d: Direction, k: nat, p: Vec2)
    requires Shaped(g, size) && Shaped(a, size) && 0 < k <= LineCount(d, size) && InBounds(p, size)
    requires Across(p, d) != k - 1
    ensures At(ShiftLines(g, a, size, d, k).grid, size, p) == At(ShiftLines(g, a, size, d, k - 1).grid, size, p)
  {
    var before := ShiftLines(g, a, size, d, k - 1);
    CollapseFrame(before.grid, before.anim, size, LineStart(d, size, k - 1), d, p);
  }

  /** The first `k` lines of a shift leave every later line alone. */
  lemma ShiftLinesBefore(g: Grid, a: AnimGrid, size: Vec2, d: Direction, k: nat, p: Vec2)
    requires Shaped(g, size) && Shaped(a, size) && k <= LineCount(d, size) && InBounds(p, size)
    requires k <= Across(p, d)
    ensures At(ShiftLines(g, a, size, d, k).grid, size, p) == At(g, size, p)
    decreases k
  {
    if k > 0 {
      ShiftLinesBefore(g, a, size, d, k - 1, p);
      ShiftLinesOtherLine(g, a, size, d, k, p);
    }
  }

  /** Once its line has been collapsed, a cell is left alone by the rest
      of the shift. */
  lemma ShiftLinesAfter(g: Grid, a: AnimGrid, size: Vec2, d: Direction, k: nat, n: nat, p: Vec2)
    requires Shaped(g, size) && Shaped(a, size) && InBounds(p, size)
    requires 0 <= Across(p, d) < k <= n <= LineCount(d, size)
    ensures At(ShiftLines(g, a, size, d, n).grid, size, p) == At(ShiftLines(g, a, size, d, k).grid, size, p)
    decreases n
  {
    if k < n {
      ShiftLinesAfter(g, a, size, d, k, n - 1, p);
      ShiftLinesOtherLine(g, a, size, d, n, p);
    }
  }

  /** Every cell of line `i` is at or ahead of the cell `shiftTo` starts
      that line from. */
  lemma LineStartTrails(d: Direction, size: Vec2, i: nat, p: Vec2)
    requires size.x >= 1 && size.y >= 1 && i < LineCount(d, size)
    requires InBounds(p, size) && Across(p, d) == i
    ensures Along(LineStart(d, size, i), d) <= Along(p, d)
  {
    match d
    case Left =>
    case Right =>
    case Up =>
    case Down =>
  }

  /** Two grids that agree on line `line` give every cell of it the same
      destination. */
  lemma LineAgrees(g: Grid, h: Grid, size: Vec2, d: Direction, line: int)
    requires Shaped(g, size) && Shaped(h, size)
    requires forall q | InBounds(q, size) && Across(q, d) == line :: At(g, size, q) == At(h, size, q)
    ensures forall p | InBounds(p, size) && Across(p, d) == line ::
      FindIdxAfterShift(g, size, p, d) == FindIdxAfterShift(h, size, p, d)
  {
    forall p | InBounds(p, size) && Across(p, d) == line
      ensures FindIdxAfterShift(g, size, p, d) == FindIdxAfterShift(h, size, p, d)
    {
      FindIdxOnLine(g, h, size, p, d, line);
    }
  }

  /** What `CollapseRaises` needs of the leading moving tile `f` of `g`
      holds as well in a grid `h` that agrees with `g` on its line. */
  lemma LineTransfer(g: Grid, h: Grid, size: Vec2, d: Direction, f: Vec2)
    requires Shaped(g, size) && Shaped(h, size) && NoneMerged(g) && InBounds(f, size)
    requires forall p | InBounds(p, size) && Across(p, d) == Across(f, d) :: At(h, size, p) == At(g, size, p)
    requires At(g, size, f).GetValue() != 0 && FindIdxAfterShift(g, size, f, d) != f
    requires StillFrom(g, size, f.Add(DirVec(d)), d)
    ensures forall p | InBounds(p, size) && Across(p, d) == Across(f, d) :: !At(h, size, p).merged
    ensures At(h, size, f).GetValue() != 0 && FindIdxAfterShift(h, size, f, d) != f
    ensures StillFrom(h, size, f.Add(DirVec(d)), d)
  {
    StepAlong(f, d, size);
    StillOnLine(g, h, size, d, f.Add(DirVec(d)));
    FindIdxOnLine(h, g, size, f, d, Across(f, d));
    forall p | InBounds(p, size) && Across(p, d) == Across(f, d)
      ensures !At(h, size, p).merged
    {
      assert !g[p.y][p.x].merged;
    }
  }

  /** Whether the cells from `idx` on stay put depends only on the line of
      `idx`. */
  lemma StillOnLine(g: Grid, h: Grid, size: Vec2, d: Direction, idx: Vec2)
    requires Shaped(g, size) && Shaped(h, size)
    requires forall p | InBounds(p, size) && Across(p, d) == Across(idx, d) :: At(h, size, p) == At(g, size, p)
    requires StillFrom(g, size, idx, d)
    ensures StillFrom(h, size, idx, d)
  {
    LineAgrees(h, g, size, d, Across(idx, d));
  }

  /** Collapsing the line of a leading moving tile `f` of `g` in a grid
      `h` that agrees with `g` on that line raises the value of a cell of
      the line above the value it holds in `g`. */
  lemma LineRaisedOn(g: Grid, h: Grid, ha: AnimGrid, size: Vec2, d: Direction, f: Vec2, line: nat) returns (q: Vec2)
    requires Shaped(g, size) && Shaped(h, size) && Shaped(ha, size) && NoneMerged(g) && InBounds(f, size)
    requires line == Across(f, d) && line < LineCount(d, size)
    requires forall p | InBounds(p, size) && Across(p, d) == line :: At(h, size, p) == At(g, size, p)
    requires At(g, size, f).GetValue() != 0 && FindIdxAfterShift(g, size, f, d) != f
    requires StillFrom(g, size, f.Add(DirVec(d)), d)
    ensures InBounds(q, size) && Across(q, d) == line
    ensures At(Collapse(h, ha, size, LineStart(d, size, line), d).grid, size, q).GetValue() > At(g, size, q).GetValue()
  {
    LineTransfer(g, h, size, d, f);
    var start := LineStart(d, size, line);
    LineStartTrails(d, size, line, f);
    q := CollapseRaises(h, ha, size, start, f, d);
  }

  /** The lines before line `k` leave it as it was. */
  lemma LineUntouched(g: Grid, a: AnimGrid, size: Vec2, d: Direction, k: nat)
    requires Shaped(g, size) && Shaped(a, size) && k < LineCount(d, size)
    ensures forall p | InBounds(p, size) && Across(p, d) == k ::
      At(ShiftLines(g, a, size, d, k).grid, size, p) == At(g, size, p)
  {
    forall p | InBounds(p, size) && Across(p, d) == k
      ensures At(ShiftLines(g, a, size, d, k).grid, size, p) == At(g, size, p)
    {
      ShiftLinesBefore(g, a, size, d, k, p);
    }
  }

  /** Collapsing the line `line` of a leading moving tile `f`, after the
      lines before it, raises the value of a cell of that line above the
      value it held before the shift. */
  lemma LineRaised(g: Grid, a: AnimGrid, size: Vec2, d: Direction, f: Vec2, line: nat) returns (q: Vec2)
    requires Shaped(g, size) && Shaped(a, size) && NoneMerged(g) && InBounds(f, size)
    requires line == Across(f, d) && line < LineCount(d, size)
    requires At(g, size, f).GetValue() != 0 && FindIdxAfterShift(g, size, f, d) != f
    requires StillFrom(g, size, f.Add(DirVec(d)), d)
    ensures InBounds(q, size) && Across(q, d) == line
    ensures At(ShiftLines(g, a, size, d, line + 1).grid, size, q).GetValue() > At(g, size, q).GetValue()
  {
    LineUntouched(g, a, size, d, line);
    var before := ShiftLines(g, a, size, d, line);
    q := LineRaisedOn(g, before.grid, before.anim, size, d, f, line);
    assert ShiftLines(g, a, size, d, line + 1).grid == Collapse(before.grid, before.anim, size, LineStart(d, size, line), d).grid;
  }

  /** When `canShiftTo` holds, some line has a leading moving tile. */
  lemma MoverFound(g: Grid, size: Vec2, d: Direction) returns (f: Vec2)
    requires Shaped(g, size) && Movable(g, size, d)
    ensures InBounds(f, size) && 0 <= Across(f, d) < LineCount(d, size)
    ensures At(g, size, f).GetValue() != 0 && FindIdxAfterShift(g, size, f, d) != f
    ensures StillFrom(g, size, f.Add(DirVec(d)), d)
  {
    var i, j :| 0 <= i < size.y && 0 <= j < size.x && Moves(g, size, d, i, j);
    f := LeadingMover(g, size, Vec2(j, i), d);
    AcrossBound(f, d, size);
  }

  /** A whole shift raises the value of the cell the leading moving tile
      `f` of its line lands on. */
  lemma ShiftRaises(g: Grid, a: AnimGrid, size: Vec2, d: Direction, f: Vec2) returns (q: Vec2)
    requires Shaped(g, size) && Shaped(a, size) && NoneMerged(g) && InBounds(f, size)
    requires 0 <= Across(f, d) < LineCount(d, size)
    requires At(g, size, f).GetValue() != 0 && FindIdxAfterShift(g, size, f, d) != f
    requires StillFrom(g, size, f.Add(DirVec(d)), d)
    ensures InBounds(q, size)
    ensures At(Shifted(g, a, size, d).grid, size, q).GetValue() > At(g, size, q).GetValue()
  {
    var line: nat := Across(f, d);
    q := LineRaised(g, a, size, d, f, line);
    ShiftLinesAfter(g, a, size, d, line + 1, LineCount(d, size), q);
    var s := ShiftLines(g, a, size, d, LineCount(d, size));
    assert At(s.grid, size, q).GetValue() > At(g, size, q).GetValue();
    assert ClearMerged(s.grid)[q.y][q.x].GetValue() == s.grid[q.y][q.x].GetValue();
  }

  /** When `canShiftTo` holds, the shift changes the board: the leading
      moving tile of its line lands on a cell whose value then rises, and
      no later step lowers it. */
  lemma MovableChanges(g: Grid, a: AnimGrid, size: Vec2, d: Direction)
    requires Shaped(g, size) && Shaped(a, size) && NoneMerged(g) && Movable(g, size, d)
    ensures Shifted(g, a, size, d).grid != g
  {
    var f := MoverFound(g, size, d);
    var q := ShiftRaises(g, a, size, d, f);
    assert Shifted(g, a, size, d).grid[q.y][q.x] != g[q.y][q.x];
  }

  /** `canShiftTo(dir)` holds exactly when `shiftTo(dir)` would change the
      board: a refused shift is one that would leave every tile as it is. */
  lemma MovableIffChanges(g: Grid, a: AnimGrid, size: Vec2, d: Direction)
    requires Shaped(g, size) && Shaped(a, size) && NoneMerged(g)
    ensures Movable(g, size, d) <==> Shifted(g, a, size, d).grid != g
  {
    if Movable(g, size, d) {
      MovableChanges(g, a, size, d);
    } else {
      ShiftLinesStill(g, a, size, d, LineCount(d, size));
      ClearUnmerged(g);
    }
  }
}
