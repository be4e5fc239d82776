/** The text format of `Board::saveTo` and `Board::loadFrom` (2048/Board.cpp):
    rows separated by `\n`, cells separated by one space, a wall written as
    `#` and any other cell as the decimal `getValue()`. Files are not
    modelled: saving is `Serialize`, loading parses an in-memory string. */
module Persistence {
  import opened Vec2Math
  import opened Tiles
  import opened Grids

  datatype Option<T> = None | Some(value: T)

  /** `WallCharacter`: how a wall is written. */
  const WallCharacter: char := '#'

  predicate IsDigit(c: char)
  {
    '0' <= c <= '9'
  }

  predicate AllDigits(s: string)
  {
    forall k | 0 <= k < |s| :: IsDigit(s[k])
  }

  function DigitChar(d: nat): (c: char)
    requires d < 10
    ensures IsDigit(c) && c as int - '0' as int == d
  {
    ('0' as int + d) as char
  }

  /** The numeral `%d` prints for a non-negative value. */
  function NatToString(n: nat): (s: string)
    ensures |s| > 0 && AllDigits(s)
    decreases n
  {
    if n < 10 then [DigitChar(n)] else NatToString(n / 10) + [DigitChar(n % 10)]
  }

  /** The value `%d` reads from a string of decimal digits. */
  function DigitsValue(s: string): nat
    requires AllDigits(s)
    decreases |s|
  {
    if s == [] then 0
    else
      DigitsValue(s[..|s| - 1]) * 10 + (s[|s| - 1] as int - '0' as int)
  }

  /** Reading back a printed value gives the value. */
  lemma {:induction false} ReadWhatIsPrinted(n: nat)
    ensures DigitsValue(NatToString(n)) == n
    decreases n
  {
    if n >= 10 {
      ReadWhatIsPrinted(n / 10);
      var s := NatToString(n);
      assert s[..|s| - 1] == NatToString(n / 10);
    }
  }

  /** The pieces of `s` between occurrences of `sep`; always at least one. */
  function Split(s: string, sep: char): (parts: seq<string>)
    ensures |parts| >= 1
    ensures forall k | 0 <= k < |parts| :: sep !in parts[k]
    decreases |s|
  {
    if s == [] then [[]]
    else
      var init := Split(s[..|s| - 1], sep);
      var c := s[|s| - 1];
      if c == sep then init + [[]]
      else init[..|init| - 1] + [init[|init| - 1] + [c]]
  }

  /** The parts written one after another with `sep` between neighbours and
      nothing before the first or after the last. */
  function Join(parts: seq<string>, sep: char): string
    decreases |parts|
  {
    if |parts| == 0 then []
    else if |parts| == 1 then parts[0]
    else Join(parts[..|parts| - 1], sep) + [sep] + parts[|parts| - 1]
  }

  /** What has been written after the first `k` parts: each of them, with a
      separator after every one that is not the last part overall. */
  function JoinPrefix(parts: seq<string>, k: nat, sep: char): string
    requires k <= |parts|
  {
    Join(parts[..k], sep) + (if 0 < k < |parts| then [sep] else [])
  }

  /** Writing one more part extends the prefix by that part and, unless it
      is the last, a separator; all parts written give the join. */
  lemma JoinPrefixStep(parts: seq<string>, k: nat, sep: char)
    requires k < |parts|
    ensures JoinPrefix(parts, k + 1, sep)
      == JoinPrefix(parts, k, sep) + parts[k] + (if k + 1 < |parts| then [sep] else [])
    ensures JoinPrefix(parts, |parts|, sep) == Join(parts, sep)
  {
    assert parts[..|parts|] == parts;
    if k > 0 {
      assert parts[..k + 1][..k] == parts[..k];
    }
  }

  /** A character in none of the parts and other than the separator does
      not occur in their join. */
  lemma {:induction false} JoinAvoids(parts: seq<string>, sep: char, c: char)
    requires c != sep && forall k | 0 <= k < |parts| :: c !in parts[k]
    ensures c !in Join(parts, sep)
    decreases |parts|
  {
    if |parts| > 1 {
      JoinAvoids(parts[..|parts| - 1], sep, c);
    }
  }

  lemma {:induction false} SplitWord(w: string, sep: char)
    requires sep !in w
    ensures Split(w, sep) == [w]
    decreases |w|
  {
    if w != [] {
      SplitWord(w[..|w| - 1], sep);
      assert w[..|w| - 1] + [w[|w| - 1]] == w;
    }
  }

  lemma {:induction false} SplitAfterSep(a: string, w: string, sep: char)
    requires sep !in w
    ensures Split(a + [sep] + w, sep) == Split(a, sep) + [w]
    decreases |w|
  {
    var s := a + [sep] + w;
    if w == [] {
      assert s[..|s| - 1] == a;
    } else {
      var w' := w[..|w| - 1];
      assert s[..|s| - 1] == a + [sep] + w';
      SplitAfterSep(a, w', sep);
      assert w' + [w[|w| - 1]] == w;
    }
  }

  /** Splitting a join gives the parts back when none of them holds the
      separator. */
  lemma {:induction false} SplitJoin(parts: seq<string>, sep: char)
    requires |parts| >= 1
    requires forall k | 0 <= k < |parts| :: sep !in parts[k]
    ensures Split(Join(parts, sep), sep) == parts
    decreases |parts|
  {
    if |parts| == 1 {
      SplitWord(parts[0], sep);
    } else {
      var init := parts[..|parts| - 1];
      SplitJoin(init, sep);
      SplitAfterSep(Join(init, sep), parts[|parts| - 1], sep);
      assert init + [parts[|parts| - 1]] == parts;
    }
  }

  /** What `saveTo` writes for one tile. */
  function CellText(t: Tile): (s: string)
    ensures |s| > 0 && ' ' !in s && '\n' !in s
  {
    if t.IsAWall() then [WallCharacter] else NatToString(t.GetValue())
  }

  function CellTexts(row: seq<Tile>): (ws: seq<string>)
    ensures |ws| == |row|
    ensures forall j | 0 <= j < |row| :: ws[j] == CellText(row[j])
  {
    seq(|row|, j requires 0 <= j < |row| => CellText(row[j]))
  }

  /** One row as `saveTo` writes it: the cells separated by single spaces. */
  function RowText(row: seq<Tile>): (s: string)
    ensures '\n' !in s
  {
    JoinAvoids(CellTexts(row), ' ', '\n');
    Join(CellTexts(row), ' ')
  }

  function RowTexts(g: Grid): (ls: seq<string>)
    ensures |ls| == |g|
    ensures forall i | 0 <= i < |g| :: ls[i] == RowText(g[i])
  {
    seq(|g|, i requires 0 <= i < |g| => RowText(g[i]))
  }

  /** The whole board as `saveTo` writes it: rows separated by `\n`, with
      no separator after the last cell of a row or after the last row. */
  function Serialize(g: Grid): (s: string)
    ensures |g| >= 1 ==> Lines(s) == RowTexts(g)
  {
    if |g| >= 1 then SplitJoin(RowTexts(g), '\n'); Join(RowTexts(g), '\n')
    else Join(RowTexts(g), '\n')
  }

  /** The characters C's `isspace` accepts, which a space in an `fscanf`
      format skips. */
  predicate IsSpace(c: char)
  {
    c == ' ' || c == '\t' || c == '\n' || c == '\U{B}' || c == '\U{C}' || c == '\r'
  }

  /** A cell that the reader either accepts (a numeral or `#`) or rejects
      at its first character, so that the rejection path is taken. A cell
      starting with white space is neither: `fscanf` would skip it. */
  predicate Recognisable(w: string)
    ensures Recognisable(w) ==> |w| > 0 && !IsSpace(w[0])
  {
    |w| > 0
    && (w == [WallCharacter] || AllDigits(w)
        || !(IsDigit(w[0]) || w[0] == WallCharacter || w[0] == '+' || w[0] == '-' || IsSpace(w[0])))
  }

  function Lines(s: string): seq<string>
  {
    Split(s, '\n')
  }

  function Words(line: string): seq<string>
  {
    Split(line, ' ')
  }

  /** The texts the model reads: `\n`-separated rows holding equally many
      single-space-separated cells, each cell recognisable, no trailing
      separator. */
  predicate WellFormed(s: string)
  {
    forall k | 0 <= k < |Lines(s)| ::
      |Words(Lines(s)[k])| == |Words(Lines(s)[0])|
      && forall w | w in Words(Lines(s)[k]) :: Recognisable(w)
  }

  /** The empty text is not well formed: its one line holds one empty cell. */
  lemma EmptyTextIllFormed()
    ensures !WellFormed("")
  {
    assert Lines("") == [""];
    assert Words("") == [""];
    assert "" in Words(Lines("")[0]);
  }

  /** The tile `loadFrom` builds for one cell: `Tile temp` followed by
      `setAsWall(true)` for `#` or `setValue(value)` for a numeral. Any
      other cell makes loading fail. */
  function ParseCell(w: string): (t: Option<Tile>)
    ensures t.Some? <==> w == [WallCharacter] || (|w| > 0 && AllDigits(w))
    ensures t.Some? ==> !t.value.merged && (t.value.isWall <==> w == [WallCharacter])
  {
    if w == [WallCharacter] then Some(NewTile(false).SetAsWall(true))
    else if |w| > 0 && AllDigits(w) then Some(NewTile(false).SetValue(DigitsValue(w)))
    else None
  }

  function WordRows(s: string): (rows: seq<seq<string>>)
    ensures |rows| == |Lines(s)|
    ensures forall i | 0 <= i < |rows| :: rows[i] == Words(Lines(s)[i])
  {
    seq(|Lines(s)|, i requires 0 <= i < |Lines(s)| => Words(Lines(s)[i]))
  }

  predicate AllCellsParse(rows: seq<seq<string>>)
  {
    forall i, k | 0 <= i < |rows| && 0 <= k < |rows[i]| :: ParseCell(rows[i][k]).Some?
  }

  /** Reading a saved board: the grid of parsed cells, or `None` when some
      cell is neither a numeral nor `#`. */
  function Parse(s: string): (r: Option<Grid>)
    requires WellFormed(s)
    ensures r.Some? <==> AllCellsParse(WordRows(s))
    ensures r.Some? ==> |r.value| == |WordRows(s)|
    ensures r.Some? ==> forall i | 0 <= i < |r.value| :: |r.value[i]| == |WordRows(s)[i]|
    ensures r.Some? ==> Shaped(r.value, SizeOf(r.value))
    ensures r.Some? ==> forall i, k | 0 <= i < |r.value| && 0 <= k < |r.value[i]| ::
      Some(r.value[i][k]) == ParseCell(WordRows(s)[i][k])
  {
    var rows := WordRows(s);
    if AllCellsParse(rows) then
      Some(seq(|rows|, i requires 0 <= i < |rows| =>
        seq(|rows[i]|, k requires 0 <= k < |rows[i]| => ParseCell(rows[i][k]).value)))
    else None
  }

  /** `size = { data.front().size(), data.size() }`. */
  function SizeOf(g: Grid): (size: Vec2)
    ensures forall sz: Vec2 | Shaped(g, sz) :: size == sz
  {
    Vec2(if |g| > 0 then |g[0]| else 0, |g|)
  }

  /** The tile that loading a saved tile gives back. */
  function Reloaded(t: Tile): (r: Tile)
    ensures r.isWall == t.isWall && r.GetValue() == t.GetValue() && !r.merged
  {
    if t.isWall then NewTile(false).SetAsWall(true) else NewTile(false).SetValue(t.GetValue())
  }

  function ReloadedGrid(g: Grid): (r: Grid)
    ensures |r| == |g|
    ensures forall i | 0 <= i < |g| :: |r[i]| == |g[i]|
    ensures forall i, j | 0 <= i < |g| && 0 <= j < |g[i]| :: r[i][j] == Reloaded(g[i][j])
  {
    seq(|g|, i requires 0 <= i < |g| => seq(|g[i]|, j requires 0 <= j < |g[i]| => Reloaded(g[i][j])))
  }

  lemma ParseCellText(t: Tile)
    ensures ParseCell(CellText(t)) == Some(Reloaded(t))
  {
    if !t.isWall {
      ReadWhatIsPrinted(t.GetValue());
    }
  }

  /** The lines and cells of a saved board are its rows and its cell texts. */
  lemma SerializedWords(g: Grid, size: Vec2)
    requires Shaped(g, size)
    ensures WordRows(Serialize(g)) == seq(|g|, i requires 0 <= i < |g| => CellTexts(g[i]))
  {
    var s := Serialize(g);
    assert Lines(s) == RowTexts(g);
    forall i | 0 <= i < |g|
      ensures Words(Lines(s)[i]) == CellTexts(g[i])
    {
      SplitJoin(CellTexts(g[i]), ' ');
    }
  }

  /** Every cell of a saved board is recognisable and parses to the
      reloaded tile. */
  lemma SerializedCells(g: Grid, size: Vec2)
    requires Shaped(g, size)
    ensures |WordRows(Serialize(g))| == size.y
    ensures forall i | 0 <= i < size.y :: |WordRows(Serialize(g))[i]| == size.x
    ensures forall i, k | 0 <= i < size.y && 0 <= k < size.x ::
      Recognisable(WordRows(Serialize(g))[i][k])
      && ParseCell(WordRows(Serialize(g))[i][k]) == Some(Reloaded(g[i][k]))
  {
    SerializedWords(g, size);
    forall i, k | 0 <= i < size.y && 0 <= k < size.x
      ensures ParseCell(CellText(g[i][k])) == Some(Reloaded(g[i][k]))
    {
      ParseCellText(g[i][k]);
    }
  }

  lemma SerializedWellFormed(g: Grid, size: Vec2)
    requires Shaped(g, size)
    ensures WellFormed(Serialize(g))
  {
    var s := Serialize(g);
    SerializedCells(g, size);
    forall k | 0 <= k < |Lines(s)|
      ensures |Words(Lines(s)[k])| == |Words(Lines(s)[0])|
      ensures forall w | w in Words(Lines(s)[k]) :: Recognisable(w)
    {
      assert Words(Lines(s)[k]) == WordRows(s)[k];
      assert Words(Lines(s)[0]) == WordRows(s)[0];
    }
  }

  /** Saving and loading back: the saved text is one the reader accepts, and
      reading it gives a grid of the same shape with the same walls and the
      same values, every merge flag clear. */
  lemma SaveLoadRoundTrip(g: Grid, size: Vec2)
    requires Shaped(g, size)
    ensures WellFormed(Serialize(g))
    ensures Parse(Serialize(g)) == Some(ReloadedGrid(g))
    ensures Shaped(ReloadedGrid(g), size) && SizeOf(ReloadedGrid(g)) == size
  {
    SerializedWellFormed(g, size);
    SerializedCells(g, size);
    ParseGives(Serialize(g), ReloadedGrid(g));
  }

  /** `Parse` yields the grid whose every cell is the parse of its word. */
  lemma ParseGives(s: string, want: Grid)
    requires WellFormed(s)
    requires |want| == |WordRows(s)|
    requires forall i | 0 <= i < |want| :: |want[i]| == |WordRows(s)[i]|
    requires forall i, k | 0 <= i < |want| && 0 <= k < |want[i]| ::
      ParseCell(WordRows(s)[i][k]) == Some(want[i][k])
    ensures Parse(s) == Some(want)
  {
    var r := Parse(s);
    assert r.Some?;
    forall i | 0 <= i < |want|
      ensures r.value[i] == want[i]
    {
      forall k | 0 <= k < |want[i]|
        ensures r.value[i][k] == want[i][k]
      {
        assert Some(r.value[i][k]) == ParseCell(WordRows(s)[i][k]);
      }
    }
    assert r.value == want;
  }

  /** An unrecognised cell makes the reader fail. */
  lemma JunkRejected(s: string, i: nat, k: nat)
    requires WellFormed(s)
    requires i < |WordRows(s)| && k < |WordRows(s)[i]|
    requires var w := WordRows(s)[i][k]; w != [WallCharacter] && !AllDigits(w)
    ensures Parse(s).None?
  {
  }
}
