/** The `Board` class of 2048/Board.h and 2048/Board.cpp. The three grids
    the source keeps as `Vector<Vector<...>>` are sequences of rows that the
    methods reassign; `rand()` is the parameter `choice`, and a file is the
    text it holds (`None` when it cannot be opened). */
module Boards {
  import opened Utility
  import opened Vec2Math
  import opened Tiles
  import opened Grids
  import opened Shift
  import opened Persistence

  /** `AnimationLength`: how long a slide is drawn, in milliseconds. */
  const AnimationLength: nat := 200

  /** The side of the board `setDefaultShape` builds when none is loaded. */
  const DefaultSide: nat := 4

  /** A cell with no value: what `reset` leaves in every non-wall cell. */
  function EmptyTile(): Tile
  {
    NewTile(false).SetValue(0)
  }

  // ---------------------------------------------------------------------
  // Spawning a tile (`addNewTile`)

  /** A cell `addNewTile` may fill: no value and not a wall. */
  predicate IsFree(t: Tile)
  {
    t.GetValue() == 0 && !t.IsAWall()
  }

  /** The free cells of row `i` left of column `j`, left to right. */
  function FreeInRow(g: Grid, size: Vec2, i: nat, j: nat): (free: seq<Vec2>)
    requires Shaped(g, size) && i < size.y && j <= size.x
    ensures |free| <= j
    decreases j
  {
    if j == 0 then []
    else FreeInRow(g, size, i, j - 1) + (if IsFree(g[i][j - 1]) then [Vec2(j - 1, i)] else [])
  }

  /** The free cells of the first `i` rows, in row-major order. */
  function FreeRows(g: Grid, size: Vec2, i: nat): (free: seq<Vec2>)
    requires Shaped(g, size) && i <= size.y
    ensures |free| <= i * size.x
    decreases i
  {
    if i == 0 then []
    else FreeRows(g, size, i - 1) + FreeInRow(g, size, i - 1, size.x)
  }

  /** The list `freeIndices` that `addNewTile` collects. */
  function FreeCells(g: Grid, size: Vec2): (free: seq<Vec2>)
    requires Shaped(g, size)
    ensures |free| <= size.y * size.x
  {
    FreeRows(g, size, size.y)
  }

  /** Row-major order: by row, then by column. */
  predicate Before(p: Vec2, q: Vec2)
  {
    p.y < q.y || (p.y == q.y && p.x < q.x)
  }

  lemma {:induction false} FreeInRowExact(g: Grid, size: Vec2, i: nat, j: nat)
    requires Shaped(g, size) && i < size.y && j <= size.x
    ensures forall p :: p in FreeInRow(g, size, i, j) <==> p.y == i && 0 <= p.x < j && IsFree(g[i][p.x])
    ensures forall k, l | 0 <= k < l < |FreeInRow(g, size, i, j)| ::
      Before(FreeInRow(g, size, i, j)[k], FreeInRow(g, size, i, j)[l])
    decreases j
  {
    if j > 0 {
      FreeInRowExact(g, size, i, j - 1);
    }
  }

  lemma {:induction false} FreeRowsExact(g: Grid, size: Vec2, i: nat)
    requires Shaped(g, size) && i <= size.y
    ensures forall p :: p in FreeRows(g, size, i) <==>
      0 <= p.y < i && 0 <= p.x < size.x && IsFree(g[p.y][p.x])
    ensures forall k, l | 0 <= k < l < |FreeRows(g, size, i)| ::
      Before(FreeRows(g, size, i)[k], FreeRows(g, size, i)[l])
    decreases i
  {
    if i > 0 {
      FreeRowsExact(g, size, i - 1);
      FreeInRowExact(g, size, i - 1, size.x);
      var a := FreeRows(g, size, i - 1);
      var b := FreeInRow(g, size, i - 1, size.x);
      assert forall k | 0 <= k < |a| :: a[k] in a && a[k].y < i - 1;
      assert forall k | 0 <= k < |b| :: b[k] in b && b[k].y == i - 1;
    }
  }

  /** The free cells are listed exactly once each, in row-major order: a
      cell is in the list if and only if it lies on the board and is free. */
  lemma FreeCellsExact(g: Grid, size: Vec2)
    requires Shaped(g, size)
    ensures forall p :: p in FreeCells(g, size) <==> InBounds(p, size) && IsFree(At(g, size, p))
  {
    FreeRowsExact(g, size, size.y);
  }

  /** ... and they are listed in strictly increasing row-major order, so
      each of them once. */
  lemma FreeCellsOrdered(g: Grid, size: Vec2)
    requires Shaped(g, size)
    ensures forall k, l | 0 <= k < l < |FreeCells(g, size)| ::
      Before(FreeCells(g, size)[k], FreeCells(g, size)[l])
  {
    FreeRowsExact(g, size, size.y);
  }

  /** `addNewTile`: when some cell is free, the one at index
      `choice % freeCount` of the free list gets value `TileBaseValue`;
      otherwise nothing changes. */
  function Spawn(g: Grid, size: Vec2, choice: nat): (r: Grid)
    requires Shaped(g, size)
    ensures Shaped(r, size)
  {
    var free := FreeCells(g, size);
    if |free| == 0 then g
    else
      var p := free[choice % |free|];
      FreeCellsExact(g, size);
      assert p in free;
      SetAt(g, size, p, At(g, size, p).SetValue(TileBaseValue))
  }

  /** A spawn fills exactly one free cell with a 2, adding 2 to the value
      sum and leaving every other cell as it was; with no free cell it
      changes nothing. */
  lemma SpawnAddsOneTile(g: Grid, size: Vec2, choice: nat)
    requires Shaped(g, size)
    ensures var free := FreeCells(g, size); var r := Spawn(g, size, choice);
      && (|free| == 0 ==> r == g)
      && (|free| > 0 ==>
            var p := free[choice % |free|];
            && InBounds(p, size) && IsFree(At(g, size, p))
            && At(r, size, p).GetValue() == TileBaseValue
            && (forall i, j | 0 <= i < size.y && 0 <= j < size.x && Vec2(j, i) != p :: r[i][j] == g[i][j])
            && GridSum(r) == GridSum(g) + TileBaseValue)
  {
    var free := FreeCells(g, size);
    FreeCellsExact(g, size);
    if |free| > 0 {
      var p := free[choice % |free|];
      assert p in free;
      SetAtTotal(g, size, p, At(g, size, p).SetValue(TileBaseValue), ValueOf);
    }
  }

  /** Every free cell is where some value of `rand()` puts the new tile. */
  lemma AnyFreeCellCanSpawn(g: Grid, size: Vec2, p: Vec2)
    requires Shaped(g, size) && InBounds(p, size) && IsFree(At(g, size, p))
    ensures exists choice: nat :: Picked(FreeCells(g, size), choice) == Some(p)
  {
    var free := FreeCells(g, size);
    FreeCellsExact(g, size);
    assert p in free;
    var k :| 0 <= k < |free| && free[k] == p;
    ModOfSmall(k, |free|);
    assert Picked(free, k) == Some(p);
  }

  lemma ModOfSmall(k: nat, n: nat)
    requires k < n
    ensures k % n == k
  {
  }

  /** The entry of `free` that `rand() % freeCount` selects. */
  function Picked(free: seq<Vec2>, choice: nat): Option<Vec2>
  {
    if |free| == 0 then None else Some(free[choice % |free|])
  }

  /** `reset`'s loop: every value set to 0, walls and merge flags kept. */
  function Emptied(g: Grid): (r: Grid)
    ensures |r| == |g|
    ensures forall i | 0 <= i < |g| :: |r[i]| == |g[i]|
    ensures forall i, j | 0 <= i < |g| && 0 <= j < |g[i]| :: r[i][j] == g[i][j].SetValue(0)
  {
    seq(|g|, i requires 0 <= i < |g| => seq(|g[i]|, j requires 0 <= j < |g[i]| => g[i][j].SetValue(0)))
  }

  /** After `reset` the board holds one tile of value 2 on a cell that
      was not a wall (when there is such a cell), and the walls are where
      they were. */
  lemma ResetLeavesOneTile(g: Grid, size: Vec2, choice: nat)
    requires Shaped(g, size)
    ensures var r := Spawn(Emptied(g), size, choice);
      && (forall i, j | 0 <= i < size.y && 0 <= j < size.x :: r[i][j].isWall == g[i][j].isWall)
      && GridSum(r) == (if exists i, j | 0 <= i < size.y && 0 <= j < size.x :: !g[i][j].isWall
                        then TileBaseValue else 0)
  {
    var e := Emptied(g);
    EmptiedHoldsNothing(g);
    SpawnAddsOneTile(e, size, choice);
    if exists i, j | 0 <= i < size.y && 0 <= j < size.x :: !g[i][j].isWall {
      var i, j :| 0 <= i < size.y && 0 <= j < size.x && !g[i][j].isWall;
      FreeCellsExact(e, size);
      assert Vec2(j, i) in FreeCells(e, size);
    } else {
      NoFreeCell(e, size);
    }
  }

  lemma EmptiedHoldsNothing(g: Grid)
    ensures GridSum(Emptied(g)) == 0
  {
    GridTotalZero(Emptied(g), ValueOf);
  }

  /** A grid that is all walls has no free cell. */
  lemma NoFreeCell(g: Grid, size: Vec2)
    requires Shaped(g, size)
    requires forall i, j | 0 <= i < size.y && 0 <= j < size.x :: g[i][j].isWall
    ensures FreeCells(g, size) == []
  {
    var free := FreeCells(g, size);
    if free != [] {
      assert free[0] in free;
      FreeCellsExact(g, size);
      assert false;
    }
  }

  /** `loadFrom`'s test before spawning: does some cell hold a value? */
  predicate HasValue(g: Grid)
  {
    exists i, j | 0 <= i < |g| && 0 <= j < |g[i]| :: g[i][j].GetValue() != 0
  }

  // ---------------------------------------------------------------------
  // Undoing a move (`undo`)

  predicate Differs(g: Grid, p: Grid, i: nat, j: nat)
    requires i < |g| && i < |p| && j < |g[i]| && j < |p[i]|
  {
    g[i][j].GetValue() != p[i][j].GetValue()
  }

  /** The flag `diff` of `undo` on reaching cell (i, j): some cell strictly
      before it in row-major order holds a value different from `p`'s. */
  predicate DiffBefore(g: Grid, p: Grid, size: Vec2, i: nat, j: nat)
    requires Shaped(g, size) && Shaped(p, size)
  {
    exists r, c | 0 <= r < size.y && 0 <= c < size.x && (r < i || (r == i && c < j)) :: Differs(g, p, r, c)
  }

  /** The board `undo` leaves: from the first cell whose value differs
      from `p` on, every cell is `p`'s; before it, `g`'s. */
  function Undone(g: Grid, p: Grid, size: Vec2): (r: Grid)
    requires Shaped(g, size) && Shaped(p, size)
    ensures Shaped(r, size)
  {
    seq(size.y, i requires 0 <= i < size.y =>
      seq(size.x, j requires 0 <= j < size.x => if DiffBefore(g, p, size, i, j + 1) then p[i][j] else g[i][j]))
  }

  lemma DiffBeforeStep(g: Grid, p: Grid, size: Vec2, i: nat, j: nat)
    requires Shaped(g, size) && Shaped(p, size) && i < size.y && j < size.x
    ensures DiffBefore(g, p, size, i, j + 1) <==> DiffBefore(g, p, size, i, j) || Differs(g, p, i, j)
    ensures j + 1 == size.x ==> (DiffBefore(g, p, size, i, j + 1) <==> DiffBefore(g, p, size, i + 1, 0))
  {
    if DiffBefore(g, p, size, i, j + 1) && !Differs(g, p, i, j) {
      var r, c :| 0 <= r < size.y && 0 <= c < size.x && (r < i || (r == i && c < j + 1)) && Differs(g, p, r, c);
      assert r < i || (r == i && c < j);
    }
    if DiffBefore(g, p, size, i + 1, 0) {
      var r, c :| 0 <= r < size.y && 0 <= c < size.x && (r < i + 1 || (r == i + 1 && c < 0)) && Differs(g, p, r, c);
      assert r < i || (r == i && c < size.x);
    }
  }

  /** After `undo` every cell holds the value it held in `p`. */
  lemma UndoRestoresValues(g: Grid, p: Grid, size: Vec2)
    requires Shaped(g, size) && Shaped(p, size)
    ensures forall i, j | 0 <= i < size.y && 0 <= j < size.x ::
      Undone(g, p, size)[i][j].GetValue() == p[i][j].GetValue()
  {
    forall i, j | 0 <= i < size.y && 0 <= j < size.x
      ensures Undone(g, p, size)[i][j].GetValue() == p[i][j].GetValue()
    {
      DiffBeforeStep(g, p, size, i, j);
    }
  }

  /** When no value differs, `undo` reports it and leaves `g` as it is; so
      a second `undo` right after a first one does nothing. */
  lemma UndoWithoutDifference(g: Grid, p: Grid, size: Vec2)
    requires Shaped(g, size) && Shaped(p, size)
    ensures !DiffBefore(g, p, size, size.y, 0) ==> Undone(g, p, size) == g
    ensures !DiffBefore(Undone(g, p, size), p, size, size.y, 0)
  {
    var u := Undone(g, p, size);
    UndoRestoresValues(g, p, size);
    assert forall r, c | 0 <= r < size.y && 0 <= c < size.x :: !Differs(u, p, r, c);
    if !DiffBefore(g, p, size, size.y, 0) {
      forall i, j | 0 <= i < size.y && 0 <= j < size.x
        ensures u[i][j] == g[i][j]
      {
        DiffBeforeWithin(g, p, size, i, j + 1);
      }
      GridExt(u, g, size);
    }
  }

  /** A difference before (i, j) is a difference somewhere on the board. */
  lemma DiffBeforeWithin(g: Grid, p: Grid, size: Vec2, i: nat, j: nat)
    requires Shaped(g, size) && Shaped(p, size) && i < size.y
    ensures DiffBefore(g, p, size, i, j) ==> DiffBefore(g, p, size, size.y, 0)
  {
  }

  /** The cells before the first difference are not touched. */
  lemma UndoKeepsAgreeingPrefix(g: Grid, p: Grid, size: Vec2, i: nat, j: nat)
    requires Shaped(g, size) && Shaped(p, size) && i < size.y && j < size.x
    requires !DiffBefore(g, p, size, i, j + 1)
    ensures Undone(g, p, size)[i][j] == g[i][j]
  {
  }

  // ---------------------------------------------------------------------
  // The board

  class Board {
    var data: Grid
    var prevData: Grid
    var animationData: AnimGrid
    var animate: bool
    var animationTime: nat
    var size: Vec2

    /** The three grids share the board's shape and, between operations, no
        tile carries a merge flag. */
    ghost predicate Formed()
      reads this
    {
      Shaped(data, size) && Shaped(prevData, size) && Shaped(animationData, size)
      && NoneMerged(data) && NoneMerged(prevData)
    }

    /** Between operations the board is formed and the undo state holds the
        board's walls. */
    ghost predicate Valid()
      reads this
    {
      Formed() && WallsAgree(data, prevData, size)
    }

    /** `Board()`: a default 4 x 4 board. */
    constructor (choice: nat)
      ensures Valid() && size == Vec2(DefaultSide, DefaultSide)
      ensures data == Spawn(Filled(size, EmptyTile()), size, choice)
      ensures prevData == data && animationData == Filled(size, Zero())
      ensures !animate && animationTime == 0
    {
      data := [];
      prevData := [];
      animationData := [];
      animate := false;
      animationTime := 0;
      size := Zero();
      new;
      SetDefaultShape(DefaultSide, choice);
    }

    /** `update(dt)`: advance a running animation; when it has lasted
        `AnimationLength`, stop it, clear the displacements and report it. */
    method Update(dt: nat) returns (finished: bool)
      requires Valid()
      modifies this
      ensures Valid()
      ensures finished <==> old(animate) && old(animationTime) + dt >= AnimationLength
      ensures finished ==> !animate && animationTime == 0 && animationData == Filled(size, Zero())
      ensures !finished ==> (animate == old(animate) && animationData == old(animationData)
        && animationTime == (if old(animate) then old(animationTime) + dt else old(animationTime)))
      ensures data == old(data) && prevData == old(prevData) && size == old(size)
    {
      finished := false;
      if animate {
        animationTime := animationTime + dt;
        if animationTime >= AnimationLength {
          animate := false;
          animationTime := 0;
          animationData := ZeroedAnimation(animationData, size);
          finished := true;
        }
      }
    }

    /** `reset()`: empty every cell and clear every displacement, spawn one
        tile, make it the undo state and stop any animation. */
    method Reset(choice: nat)
      requires Valid()
      modifies this
      ensures Valid() && size == old(size)
      ensures data == Spawn(Emptied(old(data)), size, choice)
      ensures prevData == data && animationData == Filled(size, Zero())
      ensures !animate && animationTime == 0
    {
      data, animationData := ClearedCells(data, animationData, size);
      var _ := AddNewTile(choice);
      FillPrevData();
      animationTime := 0;
      animate := false;
    }

    /** `setDefaultShape(n)`: an `n` x `n` board of plain tiles, then
        `reset()`. */
    method SetDefaultShape(n: nat, choice: nat)
      requires n >= 1
      modifies this
      ensures Valid() && size == Vec2(n, n)
      ensures data == Spawn(Filled(size, EmptyTile()), size, choice)
      ensures prevData == data && animationData == Filled(size, Zero())
      ensures !animate && animationTime == 0
    {
      var rows: Grid := [];
      var i := 0;
      while i < n
        invariant 0 <= i <= n && |rows| == i
        invariant forall r | 0 <= r < i :: |rows[r]| == n
        invariant forall r, c | 0 <= r < i && 0 <= c < n :: rows[r][c] == NewTile(false)
      {
        var row: seq<Tile> := [];
        var j := 0;
        while j < n
          invariant 0 <= j <= n && |row| == j
          invariant forall c | 0 <= c < j :: row[c] == NewTile(false)
        {
          row := row + [NewTile(false)];
          j := j + 1;
        }
        rows := rows + [row];
        i := i + 1;
      }
      GridExt(Emptied(rows), Filled(Vec2(n, n), EmptyTile()), Vec2(n, n));
      data := rows;
      // `resize` default-constructs the new elements.
      prevData := Filled(Vec2(n, n), NewTile(false));
      animationData := Filled(Vec2(n, n), Zero());
      size := Vec2(|data[0]|, |data|);
      Reset(choice);
    }

    /** `fillPrevData()`: the undo state becomes a copy of the board. */
    method FillPrevData()
      requires Shaped(data, size) && Shaped(prevData, size)
      modifies this
      ensures prevData == data
      ensures data == old(data) && animationData == old(animationData) && size == old(size)
      ensures animate == old(animate) && animationTime == old(animationTime)
    {
      var prev := prevData;
      var i := 0;
      while i < size.y
        invariant 0 <= i <= size.y && Shaped(prev, size)
        invariant forall r, c | 0 <= r < size.y && 0 <= c < size.x ::
          prev[r][c] == if r < i then data[r][c] else prevData[r][c]
      {
        var j := 0;
        while j < size.x
          invariant 0 <= j <= size.x && Shaped(prev, size)
          invariant forall r, c | 0 <= r < size.y && 0 <= c < size.x ::
            prev[r][c] == if r < i || (r == i && c < j) then data[r][c] else prevData[r][c]
        {
          prev := prev[i := prev[i][j := data[i][j]]];
          j := j + 1;
        }
        i := i + 1;
      }
      GridExt(prev, data, size);
      prevData := prev;
    }

    /** `collapseTilesTo(idx, dir)`: the tiles from `idx` to the edge
        ahead of it slid and merged, as `Collapse` describes. */
    method CollapseTilesTo(idx: Vec2, dir: Direction) returns (points: nat)
      requires Shaped(data, size) && Shaped(animationData, size) && InBounds(idx, size)
      modifies this
      ensures size == old(size) && prevData == old(prevData)
      ensures Collapsed(data, animationData, points) == Collapse(old(data), old(animationData), old(size), idx, dir)
      ensures animate == old(animate) && animationTime == old(animationTime)
      decreases Dist(idx, dir, size)
    {
      points := 0;
      var target := idx.Add(DirVec(dir));
      StepAlong(idx, dir, size);
      if InBounds(target, size) {
        var ahead := CollapseTilesTo(target, dir);
        var here := ResolveTile(idx, dir);
        points := ahead + here;
      }
    }

    /** The body of `collapseTilesTo` after its recursive call: a tile that
        holds a value and has somewhere to go records its displacement and
        merges into its destination when the two can merge. */
    method ResolveTile(idx: Vec2, dir: Direction) returns (points: nat)
      requires Shaped(data, size) && Shaped(animationData, size) && InBounds(idx, size)
      modifies this
      ensures size == old(size) && prevData == old(prevData)
      ensures Collapsed(data, animationData, points) == ResolveCell(old(data), old(animationData), old(size), idx, dir)
      ensures animate == old(animate) && animationTime == old(animationTime)
    {
      points := 0;
      if At(data, size, idx).GetValue() != 0 {
        var target := FindIdxAfterShift(data, size, idx, dir);
        if target != idx {
          animationData := SetAt(animationData, size, idx, target.Sub(idx));
          if At(data, size, target).CanMergeWith(At(data, size, idx)) {
            var m := At(data, size, target).MergeWith(At(data, size, idx));
            data := SetAt(SetAt(data, size, target, m.target), size, idx, m.source);
            points := m.points;
          }
        }
      }
    }

    /** `shiftTo(direction)`: refused with -1, changing nothing, while an
        animation runs or when no tile can move; otherwise the board before
        the move becomes the undo state, every line is collapsed, every
        merge flag cleared, the animation started and the points returned. */
    method ShiftTo(dir: Direction) returns (points: int)
      requires Valid()
      modifies this
      ensures Valid()
      ensures old(animate) || !Movable(old(data), old(size), dir) ==> points == -1 && unchanged(this)
      ensures !old(animate) && Movable(old(data), old(size), dir) ==>
        var s := Shifted(old(data), old(animationData), old(size), dir);
        && data == s.grid && animationData == s.anim && points == s.points
        && prevData == old(data) && animate && animationTime == old(animationTime) && size == old(size)
      ensures points == -1 <==> old(animate) || Shifted(old(data), old(animationData), old(size), dir).grid == old(data)
    {
      MovableIffChanges(data, animationData, size, dir);
      var can := CanShiftTo(dir);
      if animate || !can {
        return -1;
      }
      var collected := Move(dir);
      points := collected;
      animate := true;
    }

    /** The accepted branch of `shiftTo` before the animation starts: the
        undo state saved, every line collapsed, every merge flag cleared. */
    method Move(dir: Direction) returns (points: nat)
      requires Valid()
      modifies this
      ensures Valid() && prevData == old(data) && size == old(size)
      ensures animate == old(animate) && animationTime == old(animationTime)
      ensures Collapsed(data, animationData, points) == Shifted(old(data), old(animationData), old(size), dir)
    {
      FillPrevData();
      points := CollapseLines(dir);
      ConfirmMerges();
      ShiftedWallsAgree(old(data), old(animationData), size, dir);
    }

    /** The per-direction loop of `shiftTo`: `collapseTilesTo` from the
        trailing end of every line in turn, the points added up. */
    method CollapseLines(dir: Direction) returns (points: nat)
      requires Shaped(data, size) && Shaped(animationData, size)
      modifies this
      ensures size == old(size) && prevData == old(prevData)
      ensures Collapsed(data, animationData, points) == ShiftLines(old(data), old(animationData), old(size), dir, LineCount(dir, old(size)))
      ensures animate == old(animate) && animationTime == old(animationTime)
    {
      points := 0;
      ghost var g0, a0 := data, animationData;
      ghost var trace := TraceOfLines(g0, a0, size, dir);
      var n := LineCount(dir, size);
      var i := 0;
      while i < n
        invariant 0 <= i <= n && size == old(size) && n == LineCount(dir, size)
        invariant Shaped(g0, size) && Shaped(a0, size) && LineTrace(trace, g0, a0, size, dir)
        invariant Collapsed(data, animationData, points) == trace[i]
        invariant prevData == old(prevData)
        invariant animate == old(animate) && animationTime == old(animationTime)
      {
        var p := CollapseLine(trace, g0, a0, dir, i, points);
        points := points + p;
        i := i + 1;
      }
    }

    /** One pass of that loop: line `i` collapsed, taking the board from
        the state after `i` lines to the state after `i + 1`. */
    method CollapseLine(ghost trace: seq<Collapsed>, ghost g0: Grid, ghost a0: AnimGrid, dir: Direction, i: nat, ghost points: nat)
      returns (p: nat)
      requires Shaped(g0, size) && Shaped(a0, size) && LineTrace(trace, g0, a0, size, dir)
      requires i < LineCount(dir, size) && Collapsed(data, animationData, points) == trace[i]
      modifies this
      ensures size == old(size) && prevData == old(prevData)
      ensures animate == old(animate) && animationTime == old(animationTime)
      ensures Collapsed(data, animationData, points + p) == trace[i + 1]
    {
      ghost var before := ShiftLines(g0, a0, size, dir, i);
      p := CollapseTilesTo(LineStart(dir, size, i), dir);
      ShiftLinesStep(g0, a0, size, dir, i, before, Collapsed(data, animationData, p));
      assert trace[i + 1] == ShiftLines(g0, a0, size, dir, i + 1);
    }

    /** The last loop of `shiftTo`: `confirmMerge()` on every tile. */
    method ConfirmMerges()
      requires Shaped(data, size)
      modifies this
      ensures data == ClearMerged(old(data))
      ensures prevData == old(prevData) && animationData == old(animationData) && size == old(size)
      ensures animate == old(animate) && animationTime == old(animationTime)
    {
      var grid := data;
      var i := 0;
      while i < size.y
        invariant 0 <= i <= size.y && Shaped(grid, size)
        invariant forall r, c | 0 <= r < size.y && 0 <= c < size.x ::
          grid[r][c] == if r < i then data[r][c].ConfirmMerge() else data[r][c]
      {
        var j := 0;
        while j < size.x
          invariant 0 <= j <= size.x && Shaped(grid, size)
          invariant forall r, c | 0 <= r < size.y && 0 <= c < size.x ::
            grid[r][c] == if r < i || (r == i && c < j) then data[r][c].ConfirmMerge() else data[r][c]
        {
          grid := grid[i := grid[i][j := grid[i][j].ConfirmMerge()]];
          j := j + 1;
        }
        i := i + 1;
      }
      GridExt(grid, ClearMerged(data), size);
      data := grid;
    }

    /** `canShiftTo(dir)`: whether some tile holding a value would end on
        a cell other than its own. */
    method CanShiftTo(dir: Direction) returns (can: bool)
      requires Valid()
      ensures can <==> Movable(data, size, dir)
    {
      can := AnyMoves(data, size, dir);
    }

    /** `addNewTile()`: collect the free cells in row-major order into a
        buffer, put a 2 on the one `rand()` picks, and report whether
        there was one. */
    method AddNewTile(choice: nat) returns (spawned: bool)
      requires Formed()
      modifies this
      ensures prevData == old(prevData) && animationData == old(animationData) && size == old(size)
      ensures animate == old(animate) && animationTime == old(animationTime)
      ensures Formed() && (old(Valid()) ==> Valid())
      ensures spawned <==> |FreeCells(old(data), size)| > 0
      ensures data == Spawn(old(data), size, choice)
    {
      var freeIndices, freeCount := CollectFree(data, size);
      if freeCount != 0 {
        var p := freeIndices[choice % freeCount];
        FreeCellsExact(data, size);
        assert p in FreeCells(data, size);
        data := SetAt(data, size, p, At(data, size, p).SetValue(TileBaseValue));
      }
      SpawnKeepsWalls(old(data), size, choice);
      spawned := freeCount != 0;
    }

    /** `undo()`: walking the board in row-major order, once some value has
        differed from the undo state every cell is copied back from it;
        reports whether any value differed. The undo state is kept. */
    method Undo() returns (diff: bool)
      requires Valid()
      modifies this
      ensures prevData == old(prevData) && animationData == old(animationData) && size == old(size)
      ensures animate == old(animate) && animationTime == old(animationTime)
      ensures Valid()
      ensures diff <==> DiffBefore(old(data), prevData, size, size.y, 0)
      ensures data == Undone(old(data), prevData, size)
      ensures forall i, j | 0 <= i < size.y && 0 <= j < size.x ::
        data[i][j].isWall == old(data)[i][j].isWall && (old(data)[i][j].isWall ==> data[i][j] == old(data)[i][j])
    {
      var grid;
      grid, diff := UndoGrid(data, prevData, size);
      UndoneUnmerged(old(data), prevData, size);
      UndoKeepsWalls(old(data), prevData, size);
      data := grid;
    }

    /** `saveTo(src)`: when the file opens, the board written cell by cell
        in the format `Serialize` describes. */
    method SaveTo(canOpen: bool) returns (ok: bool, text: string)
      requires Valid()
      ensures ok == canOpen
      ensures ok ==> text == Serialize(data)
      ensures !ok ==> text == []
    {
      if !canOpen {
        return false, [];
      }
      ghost var lines := RowTexts(data);
      text := [];
      var i := 0;
      while i < size.y
        invariant 0 <= i <= size.y
        invariant text == JoinPrefix(lines, i, '\n')
      {
        var line := WriteRow(data[i]);
        JoinPrefixStep(lines, i, '\n');
        text := text + line;
        if i + 1 < size.y {
          text := text + "\n";
        }
        i := i + 1;
      }
      JoinPrefixStep(lines, size.y - 1, '\n');
      ok := true;
    }

    /** `loadFrom(src)`: a file that cannot be opened, or a cell that is
        neither a number nor `#`, leaves the default board and reports
        failure. Otherwise the read grid becomes the board, a tile is
        spawned if no cell holds a value, the undo state is a copy, the
        displacements are cleared and the animation is stopped. */
    method LoadFrom(file: Option<string>, choice: nat) returns (ok: bool)
      requires file.Some? ==> WellFormed(file.value)
      modifies this
      ensures Valid() && !animate && animationTime == 0
      ensures ok <==> file.Some? && Parse(file.value).Some?
      ensures !ok ==> (size == Vec2(DefaultSide, DefaultSide)
        && data == Spawn(Filled(size, EmptyTile()), size, choice))
      ensures ok ==> var g := Parse(file.value).value;
        && size == SizeOf(g)
        && data == (if HasValue(g) then g else Spawn(g, size, choice))
      ensures prevData == data && animationData == Filled(size, Zero())
    {
      if file.None? {
        SetDefaultShape(DefaultSide, choice);
        return false;
      }
      animationTime := 0;
      animate := false;
      var parsed := Parse(file.value);
      if parsed.None? {
        SetDefaultShape(DefaultSide, choice);
        return false;
      }
      Install(parsed.value, choice);
      ok := true;
    }

    /** The end of a successful `loadFrom`: the parsed grid becomes the board
        (`resize` default-constructs the other grids' cells), a tile is
        spawned when no cell holds a value, and the undo state is filled. */
    method Install(g: Grid, choice: nat)
      requires Shaped(g, SizeOf(g)) && NoneMerged(g)
      modifies this
      ensures Valid() && animate == old(animate) && animationTime == old(animationTime)
      ensures size == SizeOf(g) && data == (if HasValue(g) then g else Spawn(g, size, choice))
      ensures prevData == data && animationData == Filled(size, Zero())
    {
      data := g;
      size := SizeOf(g);
      prevData := Filled(size, NewTile(false));
      animationData := Filled(size, Zero());
      var anyWithValue := AnyWithValue(data, size);
      if !anyWithValue {
        var _ := AddNewTile(choice);
      }
      FillPrevData();
    }
  }

  /** `trace[k]` is the state after the first `k` lines of a shift. The
      trigger keeps the states folded until a proof names one of them. */
  ghost predicate LineTrace(trace: seq<Collapsed>, g: Grid, a: AnimGrid, size: Vec2, d: Direction)
    requires Shaped(g, size) && Shaped(a, size)
  {
    |trace| == LineCount(d, size) + 1 &&
    forall k {:trigger ShiftLines(g, a, size, d, k)} | 0 <= k < |trace| :: trace[k] == ShiftLines(g, a, size, d, k)
  }

  /** The states of a shift, line by line. */
  lemma TraceOfLines(g: Grid, a: AnimGrid, size: Vec2, d: Direction) returns (trace: seq<Collapsed>)
    requires Shaped(g, size) && Shaped(a, size)
    ensures LineTrace(trace, g, a, size, d) && trace[0] == Collapsed(g, a, 0)
  {
    trace := seq(LineCount(d, size) + 1, k requires 0 <= k <= LineCount(d, size) => ShiftLines(g, a, size, d, k));
    assert trace[0] == ShiftLines(g, a, size, d, 0);
  }

  /** One more line of `shiftTo`: collapsing line `k` after the first `k`. */
  lemma ShiftLinesStep(g: Grid, a: AnimGrid, size: Vec2, d: Direction, k: nat, before: Collapsed, line: Collapsed)
    requires Shaped(g, size) && Shaped(a, size) && k < LineCount(d, size)
    requires ShiftLines(g, a, size, d, k) == before
    requires line == Collapse(before.grid, before.anim, size, LineStart(d, size, k), d)
    ensures ShiftLines(g, a, size, d, k + 1) == Collapsed(line.grid, line.anim, before.points + line.points)
  {
  }

  /** The loops of `reset()`: every value set to zero (walls stay walls)
      and every displacement cleared. */
  method ClearedCells(g: Grid, a: AnimGrid, size: Vec2) returns (grid: Grid, anim: AnimGrid)
    requires Shaped(g, size) && Shaped(a, size)
    ensures grid == Emptied(g) && anim == Filled(size, Zero())
  {
    grid, anim := g, a;
    var i := 0;
    while i < size.y
      invariant 0 <= i <= size.y && Shaped(grid, size) && Shaped(anim, size)
      invariant forall r, c | 0 <= r < size.y && 0 <= c < size.x ::
        grid[r][c] == if r < i then g[r][c].SetValue(0) else g[r][c]
      invariant forall r, c | 0 <= r < size.y && 0 <= c < size.x ::
        anim[r][c] == if r < i then Zero() else a[r][c]
    {
      var j := 0;
      while j < size.x
        invariant 0 <= j <= size.x && Shaped(grid, size) && Shaped(anim, size)
        invariant forall r, c | 0 <= r < size.y && 0 <= c < size.x ::
          grid[r][c] == if r < i || (r == i && c < j) then g[r][c].SetValue(0) else g[r][c]
        invariant forall r, c | 0 <= r < size.y && 0 <= c < size.x ::
          anim[r][c] == if r < i || (r == i && c < j) then Zero() else a[r][c]
      {
        grid := grid[i := grid[i][j := grid[i][j].SetValue(0)]];
        anim := anim[i := anim[i][j := Zero()]];
        j := j + 1;
      }
      i := i + 1;
    }
    GridExt(grid, Emptied(g), size);
    GridExt(anim, Filled(size, Zero()), size);
  }

  /** The loops of `canShiftTo(dir)`: row-major search for a tile that
      holds a value and would move. */
  method AnyMoves(g: Grid, size: Vec2, dir: Direction) returns (can: bool)
    requires Shaped(g, size)
    ensures can <==> Movable(g, size, dir)
  {
    var i := 0;
    while i < size.y
      invariant 0 <= i <= size.y
      invariant forall r, c | 0 <= r < i && 0 <= c < size.x :: !Moves(g, size, dir, r, c)
    {
      var j := 0;
      while j < size.x
        invariant 0 <= j <= size.x
        invariant forall r, c | 0 <= r < size.y && 0 <= c < size.x && (r < i || (r == i && c < j)) ::
          !Moves(g, size, dir, r, c)
      {
        if Moves(g, size, dir, i, j) {
          return true;
        }
        j := j + 1;
      }
      i := i + 1;
    }
    return false;
  }

  /** The loops of `undo()` on the grid alone: `grid` is the restored grid
      and `diff` says whether any value differed. */
  method UndoGrid(g: Grid, prev: Grid, size: Vec2) returns (grid: Grid, diff: bool)
    requires Shaped(g, size) && Shaped(prev, size)
    ensures diff <==> DiffBefore(g, prev, size, size.y, 0)
    ensures grid == Undone(g, prev, size)
  {
    diff := false;
    grid := g;
    var i := 0;
    while i < size.y
      invariant 0 <= i <= size.y && Shaped(grid, size)
      invariant diff <==> DiffBefore(g, prev, size, i, 0)
      invariant forall r, c | 0 <= r < size.y && 0 <= c < size.x ::
        grid[r][c] == if r < i then Undone(g, prev, size)[r][c] else g[r][c]
    {
      var j := 0;
      while j < size.x
        invariant 0 <= j <= size.x && Shaped(grid, size)
        invariant diff <==> DiffBefore(g, prev, size, i, j)
        invariant forall r, c | 0 <= r < size.y && 0 <= c < size.x ::
          grid[r][c] == if r < i || (r == i && c < j) then Undone(g, prev, size)[r][c] else g[r][c]
      {
        DiffBeforeStep(g, prev, size, i, j);
        diff := diff || grid[i][j].GetValue() != prev[i][j].GetValue();
        if diff {
          grid := grid[i := grid[i][j := prev[i][j]]];
        }
        j := j + 1;
      }
      DiffBeforeStep(g, prev, size, i, size.x - 1);
      i := i + 1;
    }
    GridExt(grid, Undone(g, prev, size), size);
  }

  /** The loop of `update` that clears every displacement. */
  method ZeroedAnimation(a: AnimGrid, size: Vec2) returns (r: AnimGrid)
    requires Shaped(a, size)
    ensures r == Filled(size, Zero())
  {
    r := a;
    var i := 0;
    while i < size.y
      invariant 0 <= i <= size.y && Shaped(r, size)
      invariant forall row, c | 0 <= row < size.y && 0 <= c < size.x ::
        r[row][c] == if row < i then Zero() else a[row][c]
    {
      var j := 0;
      while j < size.x
        invariant 0 <= j <= size.x && Shaped(r, size)
        invariant forall row, c | 0 <= row < size.y && 0 <= c < size.x ::
          r[row][c] == if row < i || (row == i && c < j) then Zero() else a[row][c]
      {
        r := r[i := r[i][j := Zero()]];
        j := j + 1;
      }
      i := i + 1;
    }
    GridExt(r, Filled(size, Zero()), size);
  }

  /** The loops of `loadFrom` that look for a cell holding a value; like
      the source, a hit ends only the scan of its row. */
  method AnyWithValue(g: Grid, size: Vec2) returns (found: bool)
    requires Shaped(g, size)
    ensures found <==> HasValue(g)
  {
    found := false;
    var i := 0;
    while i < size.y
      invariant 0 <= i <= size.y
      invariant found <==> exists r, c | 0 <= r < i && 0 <= c < size.x :: g[r][c].GetValue() != 0
    {
      var j := 0;
      while j < size.x
        invariant 0 <= j <= size.x
        invariant found <==> exists r, c | 0 <= r < size.y && 0 <= c < size.x && (r < i || (r == i && c < j)) ::
          g[r][c].GetValue() != 0
      {
        if g[i][j].GetValue() != 0 {
          found := true;
          break;
        }
        j := j + 1;
      }
      i := i + 1;
    }
  }

  /** The inner loop of `saveTo`: one row, each cell followed by a space
      unless it is the last. */
  method WriteRow(row: seq<Tile>) returns (text: string)
    requires |row| >= 1
    ensures text == RowText(row)
  {
    ghost var cells := CellTexts(row);
    text := [];
    var j := 0;
    while j < |row|
      invariant 0 <= j <= |row|
      invariant text == JoinPrefix(cells, j, ' ')
    {
      JoinPrefixStep(cells, j, ' ');
      if row[j].IsAWall() {
        text := text + [WallCharacter];
      } else {
        text := text + NatToString(row[j].GetValue());
      }
      if j + 1 < |row| {
        text := text + " ";
      }
      j := j + 1;
    }
    JoinPrefixStep(cells, |row| - 1, ' ');
  }

  /** The first loops of `addNewTile`: the free cells written, in
      row-major order, into a fresh buffer of `size.x * size.y` entries. */
  method CollectFree(g: Grid, size: Vec2) returns (freeIndices: array<Vec2>, freeCount: nat)
    requires Shaped(g, size)
    ensures fresh(freeIndices) && freeIndices.Length == size.x * size.y
    ensures freeCount <= freeIndices.Length && freeIndices[..freeCount] == FreeCells(g, size)
  {
    freeIndices := new Vec2[CellCount(size)];
    freeCount := 0;
    var i := 0;
    while i < size.y
      invariant 0 <= i <= size.y
      invariant freeCount <= freeIndices.Length && freeIndices[..freeCount] == FreeRows(g, size, i)
    {
      var j := 0;
      while j < size.x
        invariant 0 <= j <= size.x
        invariant freeCount <= freeIndices.Length
        invariant freeIndices[..freeCount] == FreeRows(g, size, i) + FreeInRow(g, size, i, j)
      {
        if g[i][j].GetValue() == 0 && !g[i][j].IsAWall() {
          FreeBound(g, size, i, j);
          ghost var before := freeIndices[..freeCount];
          freeIndices[freeCount] := Vec2(j, i);
          freeCount := freeCount + 1;
          assert freeIndices[..freeCount] == before + [Vec2(j, i)];
        }
        j := j + 1;
      }
      i := i + 1;
    }
  }

  /** Before cell (i, j) fewer than `size.x * size.y` cells are free. */
  lemma FreeBound(g: Grid, size: Vec2, i: nat, j: nat)
    requires Shaped(g, size) && i < size.y && j < size.x
    ensures |FreeRows(g, size, i) + FreeInRow(g, size, i, j)| < size.x * size.y
  {
    RowsBound(size, i);
  }

  /** The capacity of `addNewTile`'s buffer, `size.x * size.y`. */
  function CellCount(size: Vec2): (n: nat)
    requires size.x >= 1 && size.y >= 1
    ensures n == size.x * size.y
  {
    MulNat(size.x, size.y);
    size.x * size.y
  }

  lemma MulNat(a: nat, b: nat)
    ensures a * b >= 0
  {
  }

  /** Rows before the last leave room for one more full row in a buffer of
      `size.x * size.y` cells. */
  lemma RowsBound(size: Vec2, i: nat)
    requires size.x >= 1 && i < size.y
    ensures i * size.x + size.x <= size.x * size.y
    ensures (i + 1) * size.x == i * size.x + size.x
  {
    var k: nat := size.y - (i + 1);
    MulNat(k, size.x);
    assert size.x * size.y == (i + 1) * size.x + k * size.x;
  }

  /** The undo state and the board have their walls on the same cells,
      and each wall is the same tile in both: `fillPrevData` copies the
      board, and neither a shift, a spawn nor an undo touches a wall. */
  predicate WallsAgree(g: Grid, p: Grid, size: Vec2)
    requires Shaped(g, size) && Shaped(p, size)
  {
    forall i, j | 0 <= i < size.y && 0 <= j < size.x ::
      p[i][j].isWall == g[i][j].isWall && (g[i][j].isWall ==> p[i][j] == g[i][j])
  }

  /** A spawn neither adds, removes nor changes a wall. */
  lemma SpawnKeepsWalls(g: Grid, size: Vec2, choice: nat)
    requires Shaped(g, size)
    ensures WallsAgree(g, Spawn(g, size, choice), size)
  {
    SpawnAddsOneTile(g, size, choice);
  }

  /** When the undo state's walls agree with the board's, `undo` neither
      adds, removes nor changes a wall, and its walls still agree. */
  lemma UndoKeepsWalls(g: Grid, p: Grid, size: Vec2)
    requires Shaped(g, size) && Shaped(p, size) && WallsAgree(g, p, size)
    ensures WallsAgree(g, Undone(g, p, size), size)
    ensures WallsAgree(Undone(g, p, size), p, size)
  {
  }

  /** The walls of a shifted board are the walls before the shift. */
  lemma ShiftedWallsAgree(g: Grid, a: AnimGrid, size: Vec2, d: Direction)
    requires Shaped(g, size) && Shaped(a, size) && NoneMerged(g)
    ensures WallsAgree(Shifted(g, a, size, d).grid, g, size)
  {
    ShiftKeepsWalls(g, a, size, d);
  }

  /** A board built from two unmerged ones is unmerged. */
  lemma UndoneUnmerged(g: Grid, p: Grid, size: Vec2)
    requires Shaped(g, size) && Shaped(p, size) && NoneMerged(g) && NoneMerged(p)
    ensures NoneMerged(Undone(g, p, size))
  {
  }
}
