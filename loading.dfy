/** The reading loop of `Board::loadFrom` (2048/Board.cpp:356-386) exactly
    as written, on an in-memory text. The stream is a position and an
    end-of-file flag; `fscanf_s` follows the C library's rules for the two
    formats used: a space skips any run of white space, `%d` reads a run of
    decimal digits, `%c` reads any one character, and the result is the
    number of conversions made, or -1 when the input ends before the first
    one. The loop tests that result only for being non-zero. */
module Loading {
  import opened Vec2Math
  import opened Tiles
  import opened Grids
  import opened Persistence

  /** The stream position, `feof`, the variables `value`, `c` and `c2`,
      and the rows of `data` read so far. */
  datatype Reader = Reader(pos: nat, eof: bool, value: nat, c: char, c2: char, rows: seq<seq<Tile>>)

  /** Before the loop: nothing read, `value`, `c` and `c2` zero, and
      `data` holding one empty row. */
  function Start(): (r: Reader)
    ensures r.pos == 0 && !r.eof && r.rows == [[]]
  {
    Reader(0, false, 0, '\0', '\0', [[]])
  }

  /** The texts this model reads: `%d` would take a sign, and a negative
      value has no tile here. */
  predicate Unsigned(s: string)
  {
    forall k | 0 <= k < |s| :: s[k] != '+' && s[k] != '-'
  }

  /** The position of the first character at or after `p` that is not
      white space. */
  function SkipSpace(s: string, p: nat): (q: nat)
    requires p <= |s|
    ensures p <= q <= |s|
    ensures forall k | p <= k < q :: IsSpace(s[k])
    ensures q < |s| ==> !IsSpace(s[q])
    decreases |s| - p
  {
    if p < |s| && IsSpace(s[p]) then SkipSpace(s, p + 1) else p
  }

  /** The end of the run of digits that starts at `p`. */
  function DigitsEnd(s: string, p: nat): (q: nat)
    requires p <= |s|
    ensures p <= q <= |s|
    ensures forall k | p <= k < q :: IsDigit(s[k])
    ensures q < |s| ==> !IsDigit(s[q])
    decreases |s| - p
  {
    if p < |s| && IsDigit(s[p]) then DigitsEnd(s, p + 1) else p
  }

  /** The outcome of one `fscanf_s` call: its return value and the reader
      after it. */
  datatype Scan = Scan(count: int, after: Reader)

  /** `fscanf_s(file, " %d%c", &value, &c, 1)`. */
  function ScanNumber(s: string, r: Reader): (res: Scan)
    requires r.pos <= |s| && Unsigned(s)
    ensures r.pos <= res.after.pos <= |s| && res.after.rows == r.rows && res.after.c2 == r.c2
    ensures res.count == -1 <==> SkipSpace(s, r.pos) == |s|
    ensures res.count == 0 <==> SkipSpace(s, r.pos) < |s| && !IsDigit(s[SkipSpace(s, r.pos)])
    ensures res.count == 0 ==> res.after == r.(pos := SkipSpace(s, r.pos))
    ensures res.count != 0 ==> res.after.pos > r.pos || res.after.eof
  {
    var q := SkipSpace(s, r.pos);
    if q == |s| then Scan(-1, r.(pos := q, eof := true))
    else if !IsDigit(s[q]) then Scan(0, r.(pos := q))
    else
      var e := DigitsEnd(s, q);
      assert AllDigits(s[q..e]);
      var v := DigitsValue(s[q..e]);
      if e == |s| then Scan(1, r.(pos := e, eof := true, value := v))
      else Scan(2, r.(pos := e + 1, value := v, c := s[e]))
  }

  /** `fscanf_s(file, " %c%c", &c, 1, &c2, 1)`. */
  function ScanChars(s: string, r: Reader): (res: Scan)
    requires r.pos <= |s|
    ensures r.pos <= res.after.pos <= |s| && res.after.rows == r.rows && res.after.value == r.value
    ensures res.count != 0
    ensures res.after.pos > r.pos || res.after.eof
    ensures SkipSpace(s, r.pos) < |s| ==> res.after.c == s[SkipSpace(s, r.pos)]
  {
    var q := SkipSpace(s, r.pos);
    if q == |s| then Scan(-1, r.(pos := q, eof := true))
    else if q + 1 == |s| then Scan(1, r.(pos := q + 1, eof := true, c := s[q]))
    else Scan(2, r.(pos := q + 2, c := s[q], c2 := s[q + 1]))
  }

  /** `data.back().pushBack(t)`, then `data.pushBack(Vector<Tile>())`
      when the character read after the cell is `\n`. */
  function Push(rows: seq<seq<Tile>>, t: Tile, newRow: bool): (r: seq<seq<Tile>>)
    requires |rows| >= 1
    ensures |r| == |rows| + (if newRow then 1 else 0)
    ensures r[..|rows| - 1] == rows[..|rows| - 1] && r[|rows| - 1] == rows[|rows| - 1] + [t]
    ensures newRow ==> r[|rows|] == []
  {
    var added := rows[|rows| - 1 := rows[|rows| - 1] + [t]];
    if newRow then added + [[]] else added
  }

  /** One pass of `while (!feof(file))`: a non-zero result of the number
      read appends `Tile` with `value`; otherwise a `#` read by the second
      call appends a wall; anything else rejects the file (`None`). */
  function Step(s: string, r: Reader): (res: Option<Reader>)
    requires r.pos <= |s| && |r.rows| >= 1 && Unsigned(s)
    ensures res.Some? ==> r.pos <= res.value.pos <= |s| && |res.value.rows| >= 1
    ensures res.Some? ==> res.value.pos > r.pos || res.value.eof
  {
    var n := ScanNumber(s, r);
    var a := n.after;
    if n.count != 0 then
      Some(a.(rows := Push(a.rows, NewTile(false).SetValue(a.value), a.c == '\n')))
    else
      var m := ScanChars(s, a);
      var b := m.after;
      if m.count != 0 && b.c == WallCharacter then
        Some(b.(rows := Push(b.rows, NewTile(false).SetAsWall(true), b.c2 == '\n')))
      else None
  }

  /** The loop run to the end of the file: the rows of `data`, or `None`
      when a cell is rejected. */
  function Run(s: string, r: Reader): (res: Option<seq<seq<Tile>>>)
    requires r.pos <= |s| && |r.rows| >= 1 && Unsigned(s)
    ensures res.Some? ==> |res.value| >= 1
    decreases |s| - r.pos, if r.eof then 0 else 1
  {
    if r.eof then Some(r.rows)
    else
      match Step(s, r)
      case None => None
      case Some(next) => Run(s, next)
  }

  /** What the reading loop of `loadFrom` leaves in `data` for the text `s`,
      or `None` when it gives up. */
  function ReadAsWritten(s: string): (res: Option<seq<seq<Tile>>>)
    requires Unsigned(s)
    ensures res.Some? ==> |res.value| >= 1
  {
    Run(s, Start())
  }

  /** The reading loop itself: `true` and the rows of `data` when the end of
      the file is reached, `false` when a cell is rejected. */
  method ReadCells(s: string) returns (ok: bool, rows: seq<seq<Tile>>)
    requires Unsigned(s)
    ensures ok <==> ReadAsWritten(s).Some?
    ensures ok ==> rows == ReadAsWritten(s).value
  {
    var r := Start();
    while !r.eof
      invariant r.pos <= |s| && |r.rows| >= 1
      invariant Run(s, r) == ReadAsWritten(s)
      decreases |s| - r.pos, if r.eof then 0 else 1
    {
      var n := ScanNumber(s, r);
      if n.count != 0 {
        r := n.after;
        r := r.(rows := Push(r.rows, NewTile(false).SetValue(r.value), r.c == '\n'));
      } else {
        var m := ScanChars(s, n.after);
        if m.count != 0 && m.after.c == WallCharacter {
          r := m.after;
          r := r.(rows := Push(r.rows, NewTile(false).SetAsWall(true), r.c2 == '\n'));
        } else {
          return false, [];
        }
      }
    }
    return true, r.rows;
  }

  /** A single-column board: the `\n` read after the first cell is still in
      `c` when the second, last, cell is read, so a third, empty, row is
      started. */
  lemma SingleColumn()
    ensures ReadAsWritten("2\n2") == Some([[Tile(2, false, false)], [Tile(2, false, false)], []])
  {
    var s := "2\n2";
    var t := Tile(2, false, false);
    assert NatToString(2) == "2" && NewTile(false).SetValue(2) == t;
    assert [] + [t] == [t];
    assert s[0..] == "2" + ['\n'] + "2";
    NumberStep(s, Start(), 2, '\n', "2");
    assert Push([[]], t, true) == [[t], []];
    var r1 := Start().(pos := 2, value := 2, c := '\n', rows := [[t], []]);
    assert Step(s, Start()) == Some(r1);
    NumberLast(s, r1, 2);
    assert Push([[t], []], t, true) == [[t], [t], []];
    assert Step(s, r1) == Some(r1.(pos := 3, eof := true, rows := [[t], [t], []]));
  }

  /** A row ending in a wall: the `\n` after the first `#` is still in `c2`
      when the last `#` is read. */
  lemma WallAtRowEnd()
    ensures ReadAsWritten("2 #\n2 #")
      == Some([[Tile(2, false, false), Tile(2, true, false)], [Tile(2, false, false), Tile(2, true, false)], []])
  {
    WallAtRowEndFirstRow();
    WallAtRowEndSecondRow();
  }

  lemma WallAtRowEndFirstRow()
    ensures Run("2 #\n2 #", Start())
      == Run("2 #\n2 #", Reader(4, false, 2, '#', '\n', [[Tile(2, false, false), Tile(2, true, false)], []]))
  {
    var s := "2 #\n2 #";
    var t := Tile(2, false, false);
    var w := Tile(2, true, false);
    assert NatToString(2) == "2";
    assert NewTile(false).SetValue(2) == t && NewTile(false).SetAsWall(true) == w;
    assert [] + [t] == [t] && [t] + [w] == [t, w];
    assert s[0..] == "2" + [' '] + "#\n2 #";
    NumberStep(s, Start(), 2, ' ', "#\n2 #");
    assert Push([[]], t, false) == [[t]];
    var r1 := Start().(pos := 2, value := 2, c := ' ', rows := [[t]]);
    assert Step(s, Start()) == Some(r1);
    assert s[2..] == [WallCharacter] + ['\n'] + "2 #";
    WallStep(s, r1, '\n', "2 #");
    assert Push([[t]], w, true) == [[t, w], []];
    assert Step(s, r1) == Some(r1.(pos := 4, c := '#', c2 := '\n', rows := [[t, w], []]));
  }

  lemma WallAtRowEndSecondRow()
    ensures Run("2 #\n2 #", Reader(4, false, 2, '#', '\n', [[Tile(2, false, false), Tile(2, true, false)], []]))
      == Some([[Tile(2, false, false), Tile(2, true, false)], [Tile(2, false, false), Tile(2, true, false)], []])
  {
    var s := "2 #\n2 #";
    var t := Tile(2, false, false);
    var w := Tile(2, true, false);
    assert NatToString(2) == "2";
    assert NewTile(false).SetValue(2) == t && NewTile(false).SetAsWall(true) == w;
    var r2 := Reader(4, false, 2, '#', '\n', [[t, w], []]);
    assert s[4..] == "2" + [' '] + "#";
    NumberStep(s, r2, 2, ' ', "#");
    assert [] + [t] == [t] && [t] + [w] == [t, w];
    assert Push([[t, w], []], t, false) == [[t, w], [t]];
    var r3 := r2.(pos := 6, value := 2, c := ' ', rows := [[t, w], [t]]);
    assert Step(s, r2) == Some(r3);
    assert s[6..] == [WallCharacter];
    WallLast(s, r3);
    assert Push([[t, w], [t]], w, true) == [[t, w], [t, w], []];
    assert Step(s, r3) == Some(r3.(pos := 7, eof := true, c := '#', rows := [[t, w], [t, w], []]));
  }

  /** A text ending in `\n`: the next call meets the end of the file, returns
      -1, which the loop takes as success, and pushes a tile with the value
      left in `value`. */
  lemma TrailingNewline()
    ensures ReadAsWritten("2 2\n")
      == Some([[Tile(2, false, false), Tile(2, false, false)], [Tile(2, false, false)], []])
  {
    var s := "2 2\n";
    var t := Tile(2, false, false);
    assert NatToString(2) == "2" && NewTile(false).SetValue(2) == t;
    assert [] + [t] == [t] && [t] + [t] == [t, t];
    assert s[0..] == "2" + [' '] + "2\n";
    NumberStep(s, Start(), 2, ' ', "2\n");
    assert Push([[]], t, false) == [[t]];
    var r1 := Start().(pos := 2, value := 2, c := ' ', rows := [[t]]);
    assert Step(s, Start()) == Some(r1);
    assert s[2..] == "2" + ['\n'] + "";
    NumberStep(s, r1, 2, '\n', "");
    assert Push([[t]], t, true) == [[t, t], []];
    var r2 := r1.(pos := 4, c := '\n', rows := [[t, t], []]);
    assert Step(s, r1) == Some(r2);
    AtEnd(s, r2);
    assert Push([[t, t], []], t, true) == [[t, t], [t], []];
    assert Step(s, r2) == Some(r2.(eof := true, rows := [[t, t], [t], []]));
  }

  /** The empty file: the first call returns -1 and one tile with the
      initial `value` 0 is pushed. */
  lemma EmptyText()
    ensures ReadAsWritten("") == Some([[Tile(0, false, false)]])
  {
    var t := Tile(0, false, false);
    assert NewTile(false).SetValue(0) == t;
    assert [] + [t] == [t];
    AtEnd("", Start());
    assert Push([[]], t, false) == [[t]];
    assert Step("", Start()) == Some(Start().(eof := true, rows := [[t]]));
  }

  lemma TabLedCell()
    ensures ReadAsWritten("2 \t2") == Some([[Tile(2, false, false), Tile(2, false, false)]])
  {
    var s := "2 \t2";
    var t := Tile(2, false, false);
    assert NewTile(false).SetValue(2) == t;
    assert SkipSpace(s, 0) == 0 && DigitsEnd(s, 0) == 1 && DigitsValue(s[0..1]) == 2;
    assert ScanNumber(s, Start()) == Scan(2, Reader(2, false, 2, ' ', '\0', [[]]));
    assert [] + [t] == [t];
    assert Push([[]], t, false) == [[t]];
    var r1 := Reader(2, false, 2, ' ', '\0', [[t]]);
    assert Step(s, Start()) == Some(r1);
    assert SkipSpace(s, 3) == 3;
    assert SkipSpace(s, 2) == 3 && DigitsEnd(s, 3) == 4 && DigitsValue(s[3..4]) == 2;
    assert ScanNumber(s, r1) == Scan(1, r1.(pos := 4, eof := true));
    assert [t] + [t] == [t, t];
    assert Push([[t]], t, false) == [[t, t]];
    assert Step(s, r1) == Some(Reader(4, true, 2, ' ', '\0', [[t, t]]));
  }

  // ---------------------------------------------------------------------
  // The two kinds of cell `saveTo` writes, as the reader meets them

  /** A numeral followed by a non-digit or by the end of the text is read
      whole by `%d`; `%c` then takes the character after it, if any. */
  lemma ScanValueCell(s: string, r: Reader, v: nat)
    requires Unsigned(s)
    requires var w := NatToString(v); r.pos + |w| <= |s| && s[r.pos..r.pos + |w|] == w
    requires var e := r.pos + |NatToString(v)|; e < |s| ==> !IsDigit(s[e])
    ensures var e := r.pos + |NatToString(v)|;
      ScanNumber(s, r) == if e == |s| then Scan(1, r.(pos := e, eof := true, value := v))
                          else Scan(2, r.(pos := e + 1, value := v, c := s[e]))
  {
    var w := NatToString(v);
    var e := r.pos + |w|;
    assert s[r.pos] == w[0];
    assert SkipSpace(s, r.pos) == r.pos;
    DigitsEndAt(s, r.pos, |w|);
    ReadWhatIsPrinted(v);
  }

  lemma {:induction false} DigitsEndAt(s: string, p: nat, n: nat)
    requires p + n <= |s|
    requires forall k | p <= k < p + n :: IsDigit(s[k])
    requires p + n < |s| ==> !IsDigit(s[p + n])
    ensures DigitsEnd(s, p) == p + n
    decreases n
  {
    if n > 0 {
      DigitsEndAt(s, p + 1, n - 1);
    }
  }

  /** A `#` makes `%d` fail without consuming it; `" %c%c"` then takes it
      and the character after it, if any. */
  lemma ScanWallCell(s: string, r: Reader)
    requires Unsigned(s) && r.pos < |s| && s[r.pos] == WallCharacter
    ensures ScanNumber(s, r) == Scan(0, r)
    ensures ScanChars(s, r)
      == if r.pos + 1 == |s| then Scan(1, r.(pos := r.pos + 1, eof := true, c := WallCharacter))
         else Scan(2, r.(pos := r.pos + 2, c := WallCharacter, c2 := s[r.pos + 1]))
  {
    assert SkipSpace(s, r.pos) == r.pos;
  }

  // ---------------------------------------------------------------------
  // Where each cell sits in the saved text

  /** The separator written after a cell that is not the last one. */
  function SepAfter(size: Vec2, j: nat): char
  {
    if j + 1 < size.x then ' ' else '\n'
  }

  predicate IsLast(size: Vec2, i: nat, j: nat)
  {
    i + 1 == size.y && j + 1 == size.x
  }

  /** The text `saveTo` writes from cell (row `i`, column `j`) to the end. */
  function Rest(g: Grid, size: Vec2, i: nat, j: nat): string
    requires Shaped(g, size) && i < size.y && j < size.x
  {
    Join(CellTexts(g[i])[j..], ' ')
      + (if i + 1 < size.y then ['\n'] + Join(RowTexts(g)[i + 1..], '\n') else [])
  }

  /** Joining splits off the first part. */
  lemma {:induction false} JoinFront(parts: seq<string>, sep: char)
    requires |parts| >= 2
    ensures Join(parts, sep) == parts[0] + [sep] + Join(parts[1..], sep)
    decreases |parts|
  {
    var n := |parts|;
    if n > 2 {
      JoinFront(parts[..n - 1], sep);
      assert parts[..n - 1][1..] == parts[1..][..n - 2];
    } else {
      assert parts[..1] == [parts[0]];
    }
  }

  /** The saved text is the text from the first cell on. */
  lemma RestFirst(g: Grid, size: Vec2)
    requires Shaped(g, size)
    ensures Rest(g, size, 0, 0) == Serialize(g)
  {
    var rows := RowTexts(g);
    assert CellTexts(g[0])[0..] == CellTexts(g[0]);
    assert rows[0] == Join(CellTexts(g[0]), ' ');
    if size.y >= 2 {
      JoinFront(rows, '\n');
    }
  }

  /** The text from the last cell on is that cell alone. */
  lemma RestLast(g: Grid, size: Vec2)
    requires Shaped(g, size)
    ensures Rest(g, size, size.y - 1, size.x - 1) == CellText(g[size.y - 1][size.x - 1])
  {
    var cells := CellTexts(g[size.y - 1]);
    JoinOfLast(cells, ' ');
  }

  /** The text from a cell that is not the last: the cell, its separator,
      and the text from the next cell. */
  lemma RestWithinRow(g: Grid, size: Vec2, i: nat, j: nat)
    requires Shaped(g, size) && i < size.y && j + 1 < size.x
    ensures Rest(g, size, i, j) == CellText(g[i][j]) + [' '] + Rest(g, size, i, j + 1)
  {
    var cells := CellTexts(g[i]);
    var tail := if i + 1 < size.y then ['\n'] + Join(RowTexts(g)[i + 1..], '\n') else [];
    JoinFrom(cells, j, ' ');
    Assoc4(cells[j], ' ', Join(cells[j + 1..], ' '), tail);
  }

  /** The join of the parts from `j` on splits off part `j`. */
  lemma JoinFrom(parts: seq<string>, j: nat, sep: char)
    requires j + 1 < |parts|
    ensures Join(parts[j..], sep) == parts[j] + [sep] + Join(parts[j + 1..], sep)
  {
    JoinFront(parts[j..], sep);
    assert parts[j..][1..] == parts[j + 1..];
  }

  lemma Assoc4(a: string, c: char, b: string, t: string)
    ensures a + [c] + b + t == a + [c] + (b + t)
  {
  }

  lemma RestAtRowEnd(g: Grid, size: Vec2, i: nat)
    requires Shaped(g, size) && i + 1 < size.y
    ensures Rest(g, size, i, size.x - 1) == CellText(g[i][size.x - 1]) + ['\n'] + Rest(g, size, i + 1, 0)
  {
    var cells := CellTexts(g[i]);
    JoinOfLast(cells, ' ');
    assert cells[size.x - 1] == CellText(g[i][size.x - 1]);
    RowsFrom(g, size, i + 1);
    Assoc(CellText(g[i][size.x - 1]), '\n', Rest(g, size, i + 1, 0));
  }

  lemma JoinOfLast(parts: seq<string>, sep: char)
    requires |parts| >= 1
    ensures Join(parts[|parts| - 1..], sep) == parts[|parts| - 1]
  {
    assert parts[|parts| - 1..] == [parts[|parts| - 1]];
  }

  /** The rows from row `i` on are the text from its first cell on. */
  lemma RowsFrom(g: Grid, size: Vec2, i: nat)
    requires Shaped(g, size) && i < size.y
    ensures Join(RowTexts(g)[i..], '\n') == Rest(g, size, i, 0)
  {
    var rows := RowTexts(g)[i..];
    var first := Join(CellTexts(g[i]), ' ');
    assert CellTexts(g[i])[0..] == CellTexts(g[i]);
    assert rows[0] == first;
    if i + 1 < size.y {
      JoinFront(rows, '\n');
      assert rows[1..] == RowTexts(g)[i + 1..];
      Assoc(first, '\n', Join(RowTexts(g)[i + 1..], '\n'));
    } else {
      assert rows == [first];
    }
  }

  lemma Assoc(a: string, c: char, b: string)
    ensures a + ([c] + b) == a + [c] + b
  {
  }

  /** A cell and the character after it at position `p` of `s`. */
  lemma CellAt(s: string, p: nat, w: string, c: char, rest: string)
    requires p <= |s| && s[p..] == w + [c] + rest
    ensures p + |w| < |s| && s[p..p + |w|] == w && s[p + |w|] == c && s[p + |w| + 1..] == rest
  {
    assert s[p..][..|w|] == w;
    assert s[p..][|w| + 1..] == rest;
  }

  /** The last cell at position `p` of `s`. */
  lemma LastCellAt(s: string, p: nat, w: string)
    requires p <= |s| && s[p..] == w
    ensures p + |w| == |s| && s[p..p + |w|] == w
  {
  }


  /** No sign character occurs in a saved board. */
  lemma SerializedUnsigned(g: Grid)
    ensures Unsigned(Serialize(g))
  {
    var rows := RowTexts(g);
    forall i | 0 <= i < |g|
      ensures '+' !in rows[i] && '-' !in rows[i]
    {
      var cells := CellTexts(g[i]);
      forall j | 0 <= j < |cells|
        ensures '+' !in cells[j] && '-' !in cells[j]
      {
        CellUnsigned(g[i][j]);
      }
      JoinAvoids(cells, ' ', '+');
      JoinAvoids(cells, ' ', '-');
    }
    JoinAvoids(rows, '\n', '+');
    JoinAvoids(rows, '\n', '-');
  }

  lemma CellUnsigned(t: Tile)
    ensures '+' !in CellText(t) && '-' !in CellText(t)
  {
    var w := CellText(t);
    if !t.IsAWall() {
      assert AllDigits(w);
      forall k | 0 <= k < |w| ensures w[k] != '+' && w[k] != '-' {
        assert IsDigit(w[k]);
      }
    }
  }

  // ---------------------------------------------------------------------
  // The reader over a saved board

  /** `c` when the reader reaches cell (row `i`, column `j`): `#` after a
      wall, the separator after a number, zero before the first cell. */
  function CBefore(g: Grid, size: Vec2, i: nat, j: nat): char
    requires Shaped(g, size) && i < size.y && j < size.x
  {
    if j > 0 then (if g[i][j - 1].isWall then WallCharacter else ' ')
    else if i > 0 then (if g[i - 1][size.x - 1].isWall then WallCharacter else '\n')
    else '\0'
  }

  /** `c2` when the reader reaches cell (row `i`, column `j`): the
      separator after the nearest wall before it, zero when there is none. */
  function C2Before(g: Grid, size: Vec2, i: nat, j: nat): char
    requires Shaped(g, size) && i < size.y && j < size.x
    decreases i, j
  {
    if j > 0 then (if g[i][j - 1].isWall then ' ' else C2Before(g, size, i, j - 1))
    else if i > 0 then (if g[i - 1][size.x - 1].isWall then '\n' else C2Before(g, size, i - 1, size.x - 1))
    else '\0'
  }

  /** The reader stands at the start of cell (row `i`, column `j`) of the
      saved board, with the cells before it in `data`. */
  predicate ReadingAt(s: string, g: Grid, size: Vec2, r: Reader, i: nat, j: nat)
    requires Shaped(g, size) && i < size.y && j < size.x
  {
    r.pos <= |s| && s[r.pos..] == Rest(g, size, i, j) && !r.eof
    && r.rows == ReloadedGrid(g)[..i] + [ReloadedGrid(g)[i][..j]]
    && r.c == CBefore(g, size, i, j) && r.c2 == C2Before(g, size, i, j)
  }

  /** The last cell is read with a `c` (for a number) or `c2` (for a wall)
      left over from an earlier cell; when that is `\n`, the reader starts
      one more, empty, row. */
  predicate StaleRowBreak(g: Grid, size: Vec2)
    requires Shaped(g, size)
  {
    if g[size.y - 1][size.x - 1].isWall then C2Before(g, size, size.y - 1, size.x - 1) == '\n'
    else CBefore(g, size, size.y - 1, size.x - 1) == '\n'
  }

  /** Pushing the next cell of `G` onto the rows read so far. */
  lemma PushNext(G: seq<seq<Tile>>, i: nat, j: nat, newRow: bool)
    requires i < |G| && j < |G[i]|
    ensures Push(G[..i] + [G[i][..j]], G[i][j], newRow)
      == G[..i] + [G[i][..j + 1]] + (if newRow then [[]] else [])
  {
    var rows := G[..i] + [G[i][..j]];
    assert G[i][..j] + [G[i][j]] == G[i][..j + 1];
    assert rows[|rows| - 1 := G[i][..j + 1]] == G[..i] + [G[i][..j + 1]];
  }

  /** A finished row followed by an empty one is the start of the next row. */
  lemma RowDone(G: seq<seq<Tile>>, i: nat)
    requires i + 1 < |G|
    ensures G[..i] + [G[i][..|G[i]|]] + [[]] == G[..i + 1] + [G[i + 1][..0]]
  {
    assert G[i][..|G[i]|] == G[i];
    assert G[..i] + [G[i]] == G[..i + 1];
  }

  lemma AllRowsDone(G: seq<seq<Tile>>)
    requires |G| >= 1
    ensures G[..|G| - 1] + [G[|G| - 1][..|G[|G| - 1]|]] == G
  {
    var i := |G| - 1;
    assert G[i][..|G[i]|] == G[i];
    assert G[..i] + [G[i]] == G;
  }

  /** The cell read after cell (row `i`, column `j`): the next one in the
      row, or the first of the next row. */
  function NextI(size: Vec2, i: nat, j: nat): nat
  {
    if j + 1 < size.x then i else i + 1
  }

  function NextJ(size: Vec2, j: nat): nat
  {
    if j + 1 < size.x then j + 1 else 0
  }

  lemma RestNext(g: Grid, size: Vec2, i: nat, j: nat)
    requires Shaped(g, size) && i < size.y && j < size.x && !IsLast(size, i, j)
    ensures NextI(size, i, j) < size.y && NextJ(size, j) < size.x
    ensures Rest(g, size, i, j)
      == CellText(g[i][j]) + [SepAfter(size, j)] + Rest(g, size, NextI(size, i, j), NextJ(size, j))
  {
    if j + 1 < size.x {
      RestWithinRow(g, size, i, j);
    } else {
      RestAtRowEnd(g, size, i);
    }
  }

  /** `data` after the cell is pushed: the rows up to the next cell. */
  lemma NextRows(g: Grid, size: Vec2, i: nat, j: nat)
    requires Shaped(g, size) && i < size.y && j < size.x && !IsLast(size, i, j)
    ensures NextI(size, i, j) < size.y && NextJ(size, j) < size.x
    ensures var G := ReloadedGrid(g);
      Push(G[..i] + [G[i][..j]], G[i][j], SepAfter(size, j) == '\n')
        == G[..NextI(size, i, j)] + [G[NextI(size, i, j)][..NextJ(size, j)]]
  {
    var G := ReloadedGrid(g);
    PushNext(G, i, j, SepAfter(size, j) == '\n');
    if j + 1 == size.x {
      RowDone(G, i);
    }
  }

  /** `data` after the last cell is pushed: the whole grid, and an empty
      row when `newRow` is set. */
  lemma LastRows(g: Grid, size: Vec2, newRow: bool)
    requires Shaped(g, size)
    ensures var G := ReloadedGrid(g);
      Push(G[..size.y - 1] + [G[size.y - 1][..size.x - 1]], G[size.y - 1][size.x - 1], newRow)
        == G + (if newRow then [[]] else [])
  {
    var G := ReloadedGrid(g);
    PushNext(G, size.y - 1, size.x - 1, newRow);
    AllRowsDone(G);
  }

  /** A numeral and a separator: `data` gets the number, `c` the
      separator. */
  lemma NumberStep(s: string, r: Reader, v: nat, sep: char, rest: string)
    requires Unsigned(s) && r.pos <= |s| && |r.rows| >= 1 && !IsDigit(sep)
    requires s[r.pos..] == NatToString(v) + [sep] + rest
    ensures var p := r.pos + |NatToString(v)| + 1;
      p <= |s| && s[p..] == rest
      && Step(s, r) == Some(r.(pos := p, value := v, c := sep,
                               rows := Push(r.rows, NewTile(false).SetValue(v), sep == '\n')))
  {
    CellAt(s, r.pos, NatToString(v), sep, rest);
    ScanValueCell(s, r, v);
  }

  /** A `#` and a separator: `data` gets a wall, `c` the `#` and `c2` the
      separator. */
  lemma WallStep(s: string, r: Reader, sep: char, rest: string)
    requires Unsigned(s) && r.pos <= |s| && |r.rows| >= 1
    requires s[r.pos..] == [WallCharacter] + [sep] + rest
    ensures r.pos + 2 <= |s| && s[r.pos + 2..] == rest
      && Step(s, r) == Some(r.(pos := r.pos + 2, c := WallCharacter, c2 := sep,
                               rows := Push(r.rows, NewTile(false).SetAsWall(true), sep == '\n')))
  {
    CellAt(s, r.pos, [WallCharacter], sep, rest);
    ScanWallCell(s, r);
  }

  /** A numeral at the end of the text: the end of the file is reached, and
      the old `c` decides whether a row is started. */
  lemma NumberLast(s: string, r: Reader, v: nat)
    requires Unsigned(s) && r.pos <= |s| && |r.rows| >= 1
    requires s[r.pos..] == NatToString(v)
    ensures Step(s, r) == Some(r.(pos := |s|, eof := true, value := v,
                                  rows := Push(r.rows, NewTile(false).SetValue(v), r.c == '\n')))
  {
    LastCellAt(s, r.pos, NatToString(v));
    ScanValueCell(s, r, v);
  }

  /** A `#` at the end of the text: the end of the file is reached, and the
      old `c2` decides whether a row is started. */
  lemma WallLast(s: string, r: Reader)
    requires Unsigned(s) && r.pos <= |s| && |r.rows| >= 1
    requires s[r.pos..] == [WallCharacter]
    ensures Step(s, r) == Some(r.(pos := |s|, eof := true, c := WallCharacter,
                                  rows := Push(r.rows, NewTile(false).SetAsWall(true), r.c2 == '\n')))
  {
    LastCellAt(s, r.pos, [WallCharacter]);
    ScanWallCell(s, r);
  }

  /** Only white space left: `%d` meets the end of the file, the call
      returns -1, and a tile with the old `value` is pushed all the same. */
  lemma AtEnd(s: string, r: Reader)
    requires Unsigned(s) && r.pos <= |s| && |r.rows| >= 1 && SkipSpace(s, r.pos) == |s|
    ensures Step(s, r) == Some(r.(pos := |s|, eof := true,
                                  rows := Push(r.rows, NewTile(false).SetValue(r.value), r.c == '\n')))
  {
  }

  /** `c` and `c2` at the next cell. */
  lemma NextChars(g: Grid, size: Vec2, i: nat, j: nat)
    requires Shaped(g, size) && i < size.y && j < size.x && !IsLast(size, i, j)
    ensures NextI(size, i, j) < size.y && NextJ(size, j) < size.x
    ensures CBefore(g, size, NextI(size, i, j), NextJ(size, j))
      == if g[i][j].isWall then WallCharacter else SepAfter(size, j)
    ensures C2Before(g, size, NextI(size, i, j), NextJ(size, j))
      == if g[i][j].isWall then SepAfter(size, j) else C2Before(g, size, i, j)
  {
  }

  /** What the pass over cell (row `i`, column `j`) must leave for the
      reader to stand at the next cell. */
  lemma NextReading(s: string, g: Grid, size: Vec2, r: Reader, i: nat, j: nat, next: Reader)
    requires Shaped(g, size) && i < size.y && j < size.x && !IsLast(size, i, j)
    requires ReadingAt(s, g, size, r, i, j)
    requires NextI(size, i, j) < size.y && NextJ(size, j) < size.x
    requires next.pos <= |s| && s[next.pos..] == Rest(g, size, NextI(size, i, j), NextJ(size, j)) && !next.eof
    requires next.rows == Push(r.rows, ReloadedGrid(g)[i][j], SepAfter(size, j) == '\n')
    requires next.c == if g[i][j].isWall then WallCharacter else SepAfter(size, j)
    requires next.c2 == if g[i][j].isWall then SepAfter(size, j) else r.c2
    ensures ReadingAt(s, g, size, next, NextI(size, i, j), NextJ(size, j))
  {
    NextRows(g, size, i, j);
    NextChars(g, size, i, j);
  }

  /** One pass of the loop over a cell that is not the last leaves the
      reader at the start of the next cell. */
  lemma StepCell(s: string, g: Grid, size: Vec2, r: Reader, i: nat, j: nat)
    requires Shaped(g, size) && i < size.y && j < size.x && !IsLast(size, i, j)
    requires Unsigned(s) && ReadingAt(s, g, size, r, i, j)
    ensures NextI(size, i, j) < size.y && NextJ(size, j) < size.x && |r.rows| >= 1
    ensures Step(s, r).Some? && ReadingAt(s, g, size, Step(s, r).value, NextI(size, i, j), NextJ(size, j))
  {
    RestNext(g, size, i, j);
    if g[i][j].isWall {
      StepWallCell(s, g, size, r, i, j);
    } else {
      StepNumberCell(s, g, size, r, i, j);
    }
  }

  lemma StepWallCell(s: string, g: Grid, size: Vec2, r: Reader, i: nat, j: nat)
    requires Shaped(g, size) && i < size.y && j < size.x && !IsLast(size, i, j) && g[i][j].isWall
    requires Unsigned(s) && ReadingAt(s, g, size, r, i, j)
    requires NextI(size, i, j) < size.y && NextJ(size, j) < size.x
    requires Rest(g, size, i, j)
      == CellText(g[i][j]) + [SepAfter(size, j)] + Rest(g, size, NextI(size, i, j), NextJ(size, j))
    ensures Step(s, r).Some? && ReadingAt(s, g, size, Step(s, r).value, NextI(size, i, j), NextJ(size, j))
  {
    var sep := SepAfter(size, j);
    WallStep(s, r, sep, Rest(g, size, NextI(size, i, j), NextJ(size, j)));
    assert ReloadedGrid(g)[i][j] == NewTile(false).SetAsWall(true);
    NextReading(s, g, size, r, i, j, Step(s, r).value);
  }

  lemma StepNumberCell(s: string, g: Grid, size: Vec2, r: Reader, i: nat, j: nat)
    requires Shaped(g, size) && i < size.y && j < size.x && !IsLast(size, i, j) && !g[i][j].isWall
    requires Unsigned(s) && ReadingAt(s, g, size, r, i, j)
    requires NextI(size, i, j) < size.y && NextJ(size, j) < size.x
    requires Rest(g, size, i, j)
      == CellText(g[i][j]) + [SepAfter(size, j)] + Rest(g, size, NextI(size, i, j), NextJ(size, j))
    ensures Step(s, r).Some? && ReadingAt(s, g, size, Step(s, r).value, NextI(size, i, j), NextJ(size, j))
  {
    var sep := SepAfter(size, j);
    var v := g[i][j].GetValue();
    NumberStep(s, r, v, sep, Rest(g, size, NextI(size, i, j), NextJ(size, j)));
    assert ReloadedGrid(g)[i][j] == NewTile(false).SetValue(v);
    NextReading(s, g, size, r, i, j, Step(s, r).value);
  }

  /** The last pass of the loop: the end of the file is reached with the
      whole grid in `data`, and one more empty row after a stale `\n`. */
  lemma StepLast(s: string, g: Grid, size: Vec2, r: Reader)
    requires Shaped(g, size) && Unsigned(s) && ReadingAt(s, g, size, r, size.y - 1, size.x - 1)
    ensures |r.rows| >= 1
    ensures Step(s, r).Some? && Step(s, r).value.eof
    ensures Step(s, r).value.rows == ReloadedGrid(g) + (if StaleRowBreak(g, size) then [[]] else [])
  {
    RestLast(g, size);
    var t := g[size.y - 1][size.x - 1];
    var newRow := if t.isWall then r.c2 == '\n' else r.c == '\n';
    assert newRow == StaleRowBreak(g, size);
    LastRows(g, size, newRow);
    var u := ReloadedGrid(g)[size.y - 1][size.x - 1];
    if t.isWall {
      assert u == NewTile(false).SetAsWall(true);
      WallLast(s, r);
    } else {
      assert u == NewTile(false).SetValue(t.GetValue());
      NumberLast(s, r, t.GetValue());
    }
  }

  /** Reading on from any cell of a saved board ends with the whole grid. */
  lemma {:induction false} ReadFrom(s: string, g: Grid, size: Vec2, r: Reader, i: nat, j: nat)
    requires Shaped(g, size) && i < size.y && j < size.x
    requires Unsigned(s) && ReadingAt(s, g, size, r, i, j)
    ensures |r.rows| >= 1
    ensures Run(s, r) == Some(ReloadedGrid(g) + (if StaleRowBreak(g, size) then [[]] else []))
    decreases size.y - i, size.x - j
  {
    if IsLast(size, i, j) {
      StepLast(s, g, size, r);
    } else {
      StepCell(s, g, size, r, i, j);
      ReadFrom(s, g, size, Step(s, r).value, NextI(size, i, j), NextJ(size, j));
    }
  }

  /** Loading a saved board with the reading loop as written gives back the
      reloaded grid, followed by an empty row exactly when the stale `c` or
      `c2` at the last cell is `\n`. */
  lemma SavedTextReadBack(g: Grid, size: Vec2)
    requires Shaped(g, size)
    ensures Unsigned(Serialize(g))
    ensures ReadAsWritten(Serialize(g))
      == Some(ReloadedGrid(g) + (if StaleRowBreak(g, size) then [[]] else []))
  {
    var s := Serialize(g);
    SerializedUnsigned(g);
    RestFirst(g, size);
    assert s[0..] == s;
    assert ReloadedGrid(g)[..0] + [ReloadedGrid(g)[0][..0]] == [[]];
    ReadFrom(s, g, size, Start(), 0, 0);
  }

  /** A board at least two cells wide whose last cell is a number is read
      back as saved. */
  lemma WideBoardReadBack(g: Grid, size: Vec2)
    requires Shaped(g, size) && size.x >= 2 && !g[size.y - 1][size.x - 1].isWall
    ensures Unsigned(Serialize(g)) && ReadAsWritten(Serialize(g)) == Some(ReloadedGrid(g))
  {
    assert CBefore(g, size, size.y - 1, size.x - 1) != '\n';
    assert !StaleRowBreak(g, size);
    var G := ReloadedGrid(g);
    assert G + (if StaleRowBreak(g, size) then [[]] else []) == G;
    SavedTextReadBack(g, size);
  }

  /** A single-column board of two or more rows whose last two cells are
      numbers is read back with an extra, empty row: `size` then becomes
      one row taller than the board, with that row shorter than `size.x`. */
  lemma SingleColumnExtraRow(g: Grid, size: Vec2)
    requires Shaped(g, size) && size.x == 1 && size.y >= 2
    requires !g[size.y - 1][0].isWall && !g[size.y - 2][0].isWall
    ensures Unsigned(Serialize(g)) && ReadAsWritten(Serialize(g)) == Some(ReloadedGrid(g) + [[]])
    ensures var rows := ReloadedGrid(g) + [[]];
      SizeOf(rows) == Vec2(1, size.y + 1) && |rows[size.y]| < SizeOf(rows).x
  {
    assert CBefore(g, size, size.y - 1, 0) == '\n';
    assert StaleRowBreak(g, size);
    var G := ReloadedGrid(g);
    assert G + (if StaleRowBreak(g, size) then [[]] else []) == G + [[]];
    SavedTextReadBack(g, size);
  }
}
