/** `Board::Tile` of 2048/Board.h and 2048/Board.cpp: one cell of the grid.
    Tiles are copied by value in the source (into the undo snapshot, into
    and out of vectors), so a tile is a datatype and every mutator returns
    the updated tile. Colours and drawing are not part of the model. */
module Tiles {

  /** The value a newly spawned tile gets (`TileBaseValue`). */
  const TileBaseValue: nat := 2

  /** The raw stored value, the wall flag and the per-shift merge flag. */
  datatype Tile = Tile(value: nat, isWall: bool, merged: bool) {

    /** `getValue()`: the stored value multiplied by "is not a wall". */
    function GetValue(): (v: nat)
      ensures isWall ==> v == 0
      ensures !isWall ==> v == value
    {
      value * (if isWall then 0 else 1)
    }

    /** `setValue(v)`: replaces the stored value only. */
    function SetValue(newValue: nat): (t: Tile)
      ensures t.value == newValue
      ensures t.isWall == isWall && t.merged == merged
    {
      this.(value := newValue)
    }

    /** `setAsWall(w)`: replaces the wall flag only. */
    function SetAsWall(wall: bool): (t: Tile)
      ensures t.isWall == wall
      ensures t.value == value && t.merged == merged
    {
      this.(isWall := wall)
    }

    /** `isAWall()`: a wall reads as empty and takes part in no merge. */
    predicate IsAWall()
      ensures IsAWall() ==> GetValue() == 0
      ensures IsAWall() ==> forall other: Tile :: !CanMergeWith(other) && !other.CanMergeWith(this)
    {
      isWall
    }

    /** `wasMerged()`: a tile merged in this shift accepts no other tile
        and merges into none. */
    predicate WasMerged()
      ensures WasMerged() ==> forall other: Tile :: !CanMergeWith(other) && !other.CanMergeWith(this)
    {
      merged
    }

    /** `confirmMerge()`: clears the merge flag, nothing else. */
    function ConfirmMerge(): (t: Tile)
      ensures !t.merged
      ensures t.value == value && t.isWall == isWall
    {
      this.(merged := false)
    }

    /** `canMergeWith(other)`: neither tile is a wall or already merged, and
        one of them is empty or both hold the same value. */
    predicate CanMergeWith(other: Tile)
      ensures isWall || other.isWall || merged || other.merged ==> !CanMergeWith(other)
      ensures !isWall && !other.isWall && !merged && !other.merged ==>
        (CanMergeWith(other) <==>
          GetValue() == 0 || other.GetValue() == 0 || GetValue() == other.GetValue())
    {
      !isWall && !other.isWall && !merged && !other.merged
      && (value == 0 || other.value == 0 || other.value == value)
    }

    /** `mergeWith(other)`: this tile takes `other`'s value, `other` is
        emptied. The merge flag and the score are set only when both tiles
        held a value; a move into an empty cell scores nothing. */
    function MergeWith(other: Tile): (m: Merge)
      ensures m.target.value + m.source.value == value + other.value
      ensures m.source == other.SetValue(0)
      ensures m.target.isWall == isWall
      ensures m.target.merged <==> value != 0 && other.value != 0
      ensures m.points == if m.target.merged then m.target.value else 0
    {
      var isMerge := value != 0 && other.value != 0;
      var sum := value + other.value;
      Merge(Tile(sum, isWall, isMerge), other.(value := 0), if isMerge then sum else 0)
    }
  }

  /** What `mergeWith` leaves behind: the receiving tile, the emptied source
      tile and the points returned. */
  datatype Merge = Merge(target: Tile, source: Tile, points: nat)

  /** `Tile(isWall = false)`: the constructor stores `TileBaseValue`, so a
      fresh tile already holds 2 unless it is a wall. */
  function NewTile(isWall: bool): (t: Tile)
    ensures t.value == TileBaseValue && t.isWall == isWall && !t.merged
    ensures t.GetValue() == if isWall then 0 else TileBaseValue
  {
    Tile(TileBaseValue, false, false).SetAsWall(isWall)
  }

  /** Merging two equal, unmerged tiles doubles the value and scores the
      double; merging into an empty tile moves the value and scores 0. */
  lemma MergeOutcomes(a: Tile, b: Tile)
    requires a.CanMergeWith(b) && b.GetValue() != 0
    ensures a.GetValue() == 0 ==> a.MergeWith(b).points == 0 && a.MergeWith(b).target.GetValue() == b.GetValue()
    ensures a.GetValue() != 0 ==>
      a.MergeWith(b).points == 2 * b.GetValue() == a.MergeWith(b).target.GetValue()
  {
  }
}
