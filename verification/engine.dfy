/**
 * The `Game2048` engine of script.js as a class. The board is the field `grid`, a list of
 * rows that the methods replace row by row or cell by cell, as the source does; the score,
 * the best score and the `gameOver`, `isPaused` and `lastMoveChanged` flags are fields too.
 * Each method is specified by the value functions of modules Line and Board, whose
 * properties are proved there.
 *
 * Randomness is a parameter: `choice` picks the empty cell (any index into the list of empty
 * cells is reachable, see Board.SpawnReachesEveryEmptyCell) and `four` says whether the new
 * tile is a 4 rather than a 2.
 */
module Engine {
  import opened Line
  import opened Board

  /** `this.gridSize` */
  const GridSize: nat := 4

  function Max(a: int, b: int): int {
    if a >= b then a else b
  }

  /** `arraysEqual`: the two lines have the same length and the same entry at every position. */
  method ArraysEqual(a: seq<int>, b: seq<int>) returns (eq: bool)
    ensures eq <==> a == b
  {
    if |a| != |b| {
      return false;
    }
    var i := 0;
    while i < |a|
      invariant 0 <= i <= |a|
      invariant a[..i] == b[..i]
    {
      if a[i] != b[i] {
        return false;
      }
      i := i + 1;
    }
    assert a == a[..i] && b == b[..i];
    return true;
  }

  /** A row differs from a reversed line exactly when its reversal differs from the line. */
  lemma ReverseChanges(row: seq<int>, line: seq<int>)
    ensures (Reverse(line) != row) == (line != Reverse(row))
  {
    ReverseReverse(row);
    ReverseReverse(line);
  }

  /** The board g with column j replaced by col. */
  function SetColumn(g: Grid, j: nat, col: seq<int>): (h: Grid)
    requires IsGrid(g) && j < |g| && |col| == |g|
    ensures IsGrid(h) && |h| == |g|
  {
    seq(|g|, r requires 0 <= r < |g| => g[r][j := col[r]])
  }

  /** The board whose columns before j come from s and whose other columns come from g. */
  function ColumnsFrom(s: Grid, g: Grid, j: nat): (h: Grid)
    requires IsGrid(s) && IsGrid(g) && |s| == |g| && j <= |g|
    ensures IsGrid(h) && |h| == |g|
  {
    seq(|g|, r requires 0 <= r < |g| => s[r][..j] + g[r][j..])
  }

  lemma ColumnsFromEnds(s: Grid, g: Grid)
    requires IsGrid(s) && IsGrid(g) && |s| == |g|
    ensures ColumnsFrom(s, g, 0) == g && ColumnsFrom(s, g, |g|) == s
  {
    forall r | 0 <= r < |g| ensures ColumnsFrom(s, g, 0)[r] == g[r] && ColumnsFrom(s, g, |g|)[r] == s[r] {
      assert s[r][..0] + g[r][0..] == g[r];
      assert s[r][..|g|] + g[r][|g|..] == s[r];
    }
  }

  /** Column j is still the old one until it is stored, and storing it moves the boundary by one. */
  lemma ColumnsFromStep(s: Grid, g: Grid, j: nat)
    requires IsGrid(s) && IsGrid(g) && |s| == |g| && j < |g|
    ensures Column(ColumnsFrom(s, g, j), j) == Column(g, j)
    ensures SetColumn(ColumnsFrom(s, g, j), j, Column(s, j)) == ColumnsFrom(s, g, j + 1)
  {
    var h := ColumnsFrom(s, g, j);
    forall r | 0 <= r < |g| ensures h[r][j] == g[r][j] && h[r][j := s[r][j]] == ColumnsFrom(s, g, j + 1)[r] {
      assert h[r] == s[r][..j] + g[r][j..];
      assert h[r][j := s[r][j]] == s[r][..j + 1] + g[r][j + 1..];
    }
  }

  /** The board whose rows before i come from s and whose other rows come from g. */
  lemma RowsFromStep(s: Grid, g: Grid, i: nat)
    requires |s| == |g| && i < |g|
    ensures (s[..i] + g[i..])[i] == g[i]
    ensures (s[..i] + g[i..])[i := s[i]] == s[..i + 1] + g[i + 1..]
  {
  }

  class Game2048 {
    var grid: Grid
    var score: int
    var bestScore: int
    var gameOver: bool
    var isPaused: bool
    var lastMoveChanged: bool

    /** The board has been built: gridSize rows of gridSize cells. */
    ghost predicate Shaped()
      reads this
    {
      IsGrid(grid) && |grid| == GridSize
    }

    /** The score is not negative and the best score is at least the score. */
    ghost predicate Scores()
      reads this
    {
      0 <= score <= bestScore
    }

    /** The board is built, every cell is 0 or a power of two of at least 2, and Scores holds. */
    ghost predicate Valid()
      reads this
    {
      Shaped() && GridTiles(grid) && Scores()
    }

    /**
     * The constructor, with the best score read from storage passed in as `storedBest` (0
     * when nothing is stored). Its call of `updateScores` raises a negative stored value to
     * the score 0. The board is the empty list until `startGame` builds it.
     */
    constructor (storedBest: int)
      ensures grid == [] && score == 0 && bestScore == Max(storedBest, 0)
      ensures !gameOver && !isPaused && !lastMoveChanged
      ensures Scores()
    {
      grid := [];
      score := 0;
      bestScore := storedBest;
      gameOver := false;
      isPaused := false;
      lastMoveChanged := false;
      new;
      UpdateScores();
    }

    /** `startGame`: build and seed the board; the scores and flags stay. */
    method StartGame(c1: nat, f1: bool, c2: nat, f2: bool)
      requires Scores()
      modifies this`grid
      ensures Valid()
      ensures grid == Spawn(Spawn(ZeroGrid(GridSize), c1, f1), c2, f2)
      ensures TwoStartTiles(grid)
    {
      InitializeGrid(c1, f1, c2, f2);
    }

    /** The loops of `initializeGrid` that build a gridSize by gridSize board of zeros row by row. */
    method BuildEmptyGrid()
      modifies this`grid
      ensures grid == ZeroGrid(GridSize)
    {
      grid := [];
      var i := 0;
      while i < GridSize
        invariant 0 <= i <= GridSize && |grid| == i
        invariant forall r :: 0 <= r < i ==> grid[r] == Zeros(GridSize)
      {
        grid := grid + [[]];
        var j := 0;
        while j < GridSize
          invariant 0 <= j <= GridSize && |grid| == i + 1
          invariant forall r :: 0 <= r < i ==> grid[r] == Zeros(GridSize)
          invariant grid[i] == Zeros(j)
        {
          grid := grid[i := grid[i] + [0]];
          j := j + 1;
        }
        i := i + 1;
      }
    }

    /** `initializeGrid`: a fresh board of zeros with two tiles spawned on it. */
    method InitializeGrid(c1: nat, f1: bool, c2: nat, f2: bool)
      modifies this`grid
      ensures Shaped() && GridTiles(grid)
      ensures grid == Spawn(Spawn(ZeroGrid(GridSize), c1, f1), c2, f2)
      ensures TwoStartTiles(grid)
    {
      BuildEmptyGrid();
      ghost var zero := grid;
      AddRandomTile(c1, f1);
      AddRandomTile(c2, f2);
      SeedingPlacesTwoTiles(GridSize, c1, f1, c2, f2);
      SpawnKeepsTiles(zero, c1, f1);
      SpawnKeepsTiles(Spawn(zero, c1, f1), c2, f2);
    }

    /** `addRandomTile`: collect the empty cells row by row and fill the chosen one with a 2 or a 4. */
    method AddRandomTile(choice: nat, four: bool)
      requires Shaped()
      modifies this`grid
      ensures grid == Spawn(old(grid), choice, four)
    {
      var emptyCells: seq<Cell> := [];
      var i := 0;
      while i < GridSize
        invariant 0 <= i <= GridSize
        invariant emptyCells == EmptyInRows(grid, i)
      {
        var j := 0;
        while j < GridSize
          invariant 0 <= j <= GridSize
          invariant emptyCells == EmptyInRows(grid, i) + EmptyInRow(grid, i, j)
        {
          if grid[i][j] == 0 {
            emptyCells := emptyCells + [Cell(i, j)];
          }
          j := j + 1;
        }
        i := i + 1;
      }
      if |emptyCells| > 0 {
        var cell := emptyCells[choice % |emptyCells|];
        assert cell in EmptyCells(grid);
        grid := grid[cell.row := grid[cell.row][cell.col := SeedValue(four)]];
      }
    }

    /**
     * `mergeRow`: drop the zeros, merge equal neighbours in one pass from the front (adding
     * each merged value to the score), drop the new zeros and pad with zeros to gridSize.
     */
    method MergeRow(row: seq<int>) returns (mergedRow: seq<int>)
      modifies this`score
      ensures mergedRow == MergedRow(row, GridSize)
      ensures score == old(score) + RowGain(row)
    {
      var filteredRow := Compact(row);
      filteredRow := MergePass(filteredRow);
      mergedRow := Compact(filteredRow);
      mergedRow := PadWithZeros(mergedRow);
    }

    /**
     * The merge loop of `mergeRow` on the zero-free line c: a tile equal to its right
     * neighbour is doubled, the neighbour set to 0 and the doubled value added to the score.
     * Its tiles, once the zeros are dropped, are those of Combine(c).
     */
    method MergePass(c: seq<int>) returns (filteredRow: seq<int>)
      requires NoZeros(c)
      modifies this`score
      ensures Compact(filteredRow) == Combine(c)
      ensures score == old(score) + CombineGain(c)
    {
      PassIsCombine(c);
      filteredRow := c;
      var i := 0;
      while i + 1 < |filteredRow|
        invariant PassFrom(filteredRow, i) == PassFrom(c, 0)
        invariant score + PassGainFrom(filteredRow, i) == old(score) + PassGainFrom(c, 0)
      {
        if filteredRow[i] == filteredRow[i + 1] {
          filteredRow := filteredRow[i := filteredRow[i] * 2];
          filteredRow := filteredRow[i + 1 := 0];
          score := score + filteredRow[i];
        }
        i := i + 1;
      }
    }

    /** The closing loop of `mergeRow`: push zeros until the line has gridSize entries. */
    method PadWithZeros(m0: seq<int>) returns (mergedRow: seq<int>)
      ensures mergedRow == Pad(m0, GridSize)
    {
      mergedRow := m0;
      while |mergedRow| < GridSize
        invariant |m0| <= |mergedRow| && mergedRow == m0 + Zeros(|mergedRow| - |m0|)
        invariant |m0| >= GridSize ==> mergedRow == m0
        invariant |m0| < GridSize ==> |mergedRow| <= GridSize
        decreases GridSize - |mergedRow|
      {
        mergedRow := mergedRow + [0];
      }
    }

    /** The loop of `moveUp` and `moveDown` that copies column j out of the board. */
    method ReadColumn(j: nat) returns (column: seq<int>)
      requires Shaped() && j < GridSize
      ensures column == Column(grid, j)
    {
      column := [];
      var i := 0;
      while i < GridSize
        invariant 0 <= i <= GridSize
        invariant column == Column(grid, j)[..i]
      {
        column := column + [grid[i][j]];
        i := i + 1;
      }
    }

    /**
     * The inner loop of `moveUp` and `moveDown` that writes the new column back cell by cell,
     * setting `lastMoveChanged` when a cell changes.
     */
    method StoreColumn(j: nat, newColumn: seq<int>)
      requires Shaped() && j < GridSize && |newColumn| == GridSize
      modifies this`grid, this`lastMoveChanged
      ensures grid == SetColumn(old(grid), j, newColumn)
      ensures lastMoveChanged == (old(lastMoveChanged) || Column(old(grid), j) != newColumn)
    {
      ghost var g := grid;
      ghost var col0 := Column(grid, j);
      var i := 0;
      while i < GridSize
        invariant 0 <= i <= GridSize && Shaped()
        invariant forall r, c :: 0 <= r < GridSize && 0 <= c < GridSize ==>
          grid[r][c] == if c == j && r < i then newColumn[r] else g[r][c]
        invariant lastMoveChanged == (old(lastMoveChanged) || col0[..i] != newColumn[..i])
      {
        assert col0[..i + 1] == col0[..i] + [col0[i]] && newColumn[..i + 1] == newColumn[..i] + [newColumn[i]];
        if grid[i][j] != newColumn[i] {
          grid := grid[i := grid[i][j := newColumn[i]]];
          lastMoveChanged := true;
        }
        i := i + 1;
      }
      assert col0[..i] == col0 && newColumn[..i] == newColumn;
      forall r | 0 <= r < GridSize ensures grid[r] == g[r][j := newColumn[r]] {
        assert forall c :: 0 <= c < GridSize ==> grid[r][c] == g[r][j := newColumn[r]][c];
      }
    }

    /**
     * The store step of `moveLeft` and `moveRight`: row i is replaced by newRow when the two
     * differ, and `lastMoveChanged` is set then.
     */
    method StoreRow(i: nat, newRow: seq<int>)
      requires i < |grid|
      modifies this`grid, this`lastMoveChanged
      ensures grid == old(grid)[i := newRow]
      ensures lastMoveChanged == (old(lastMoveChanged) || old(grid[i]) != newRow)
    {
      var same := ArraysEqual(grid[i], newRow);
      if !same {
        grid := grid[i := newRow];
        lastMoveChanged := true;
      }
    }

    /**
     * The body of the row loop of `moveLeft` (d = Left) and `moveRight` (d = Right): row i,
     * still as on the board g0 the move started from, becomes row i of the moved board; the
     * line's points are added and the changed flag is set if the row changed.
     */
    method MoveRow(i: nat, d: Direction, ghost g0: Grid)
      requires d == Left || d == Right
      requires IsGrid(g0) && |g0| == GridSize && |grid| == GridSize && i < GridSize && grid[i] == g0[i]
      modifies this`grid, this`score, this`lastMoveChanged
      ensures grid == old(grid)[i := Slide(d, g0)[i]]
      ensures score == old(score) + LineGains(d, g0)[i]
      ensures lastMoveChanged == (old(lastMoveChanged) || LineChangeFlags(d, g0)[i])
    {
      ghost var s := Slide(d, g0);
      SlideLine(d, g0, i);
      var newRow;
      if d == Left {
        newRow := MergeRow(grid[i]);
      } else {
        var merged := MergeRow(Reverse(grid[i]));
        newRow := Reverse(merged);
        ReverseChanges(grid[i], merged);
        ReverseReverse(s[i]);
      }
      assert LineChangeFlags(d, g0)[i] == LineChanges(d, g0, i);
      StoreRow(i, newRow);
    }

    /**
     * The body of the column loop of `moveUp` (d = Up) and `moveDown` (d = Down): column j,
     * still as on the board g0 the move started from, becomes column j of the moved board;
     * the line's points are added and the changed flag is set if the column changed.
     */
    method MoveColumn(j: nat, d: Direction, ghost g0: Grid)
      requires d == Up || d == Down
      requires Shaped() && IsGrid(g0) && |g0| == GridSize && j < GridSize
      requires Column(grid, j) == Column(g0, j)
      modifies this`grid, this`score, this`lastMoveChanged
      ensures grid == SetColumn(old(grid), j, Column(Slide(d, g0), j))
      ensures score == old(score) + LineGains(d, g0)[j]
      ensures lastMoveChanged == (old(lastMoveChanged) || LineChangeFlags(d, g0)[j])
    {
      ghost var s := Slide(d, g0);
      SlideLine(d, g0, j);
      var column := ReadColumn(j);
      var newColumn;
      if d == Up {
        newColumn := MergeRow(column);
      } else {
        var merged := MergeRow(Reverse(column));
        newColumn := Reverse(merged);
        ReverseChanges(column, merged);
        ReverseReverse(Column(s, j));
      }
      assert LineChangeFlags(d, g0)[j] == LineChanges(d, g0, j);
      StoreColumn(j, newColumn);
    }

    /** `moveLeft`: every row is merged toward the left and stored if it changed. */
    method MoveLeft()
      requires Shaped()
      modifies this`grid, this`score, this`lastMoveChanged
      ensures Shaped()
      ensures grid == Slide(Left, old(grid))
      ensures score == old(score) + Gain(Left, old(grid))
      ensures lastMoveChanged == (old(lastMoveChanged) || grid != old(grid))
    {
      ghost var g0 := grid;
      ghost var s := Slide(Left, g0);
      ghost var flags := LineChangeFlags(Left, g0);
      ghost var gains := LineGains(Left, g0);
      assert s[..0] + g0[0..] == g0;
      var i := 0;
      while i < GridSize
        invariant 0 <= i <= GridSize
        invariant grid == s[..i] + g0[i..]
        invariant score == old(score) + Total(gains[..i])
        invariant lastMoveChanged == (old(lastMoveChanged) || Any(flags[..i]))
      {
        RowsFromStep(s, g0, i);
        MoveRow(i, Left, g0);
        TotalStep(gains, i);
        AnyStep(flags, i);
        i := i + 1;
      }
      assert s[..GridSize] + g0[GridSize..] == s;
      MoveDone(Left, g0, old(score), old(lastMoveChanged));
    }

    /** `moveRight`: every row is reversed, merged, reversed back and stored if it changed. */
    method MoveRight()
      requires Shaped()
      modifies this`grid, this`score, this`lastMoveChanged
      ensures Shaped()
      ensures grid == Slide(Right, old(grid))
      ensures score == old(score) + Gain(Right, old(grid))
      ensures lastMoveChanged == (old(lastMoveChanged) || grid != old(grid))
    {
      ghost var g0 := grid;
      ghost var s := Slide(Right, g0);
      ghost var flags := LineChangeFlags(Right, g0);
      ghost var gains := LineGains(Right, g0);
      assert s[..0] + g0[0..] == g0;
      var i := 0;
      while i < GridSize
        invariant 0 <= i <= GridSize
        invariant grid == s[..i] + g0[i..]
        invariant score == old(score) + Total(gains[..i])
        invariant lastMoveChanged == (old(lastMoveChanged) || Any(flags[..i]))
      {
        RowsFromStep(s, g0, i);
        MoveRow(i, Right, g0);
        TotalStep(gains, i);
        AnyStep(flags, i);
        i := i + 1;
      }
      assert s[..GridSize] + g0[GridSize..] == s;
      MoveDone(Right, g0, old(score), old(lastMoveChanged));
    }

    /** `moveUp`: every column is read out, merged toward the top and written back cell by cell. */
    method MoveUp()
      requires Shaped()
      modifies this`grid, this`score, this`lastMoveChanged
      ensures Shaped()
      ensures grid == Slide(Up, old(grid))
      ensures score == old(score) + Gain(Up, old(grid))
      ensures lastMoveChanged == (old(lastMoveChanged) || grid != old(grid))
    {
      ghost var g0 := grid;
      ghost var s := Slide(Up, g0);
      ghost var flags := LineChangeFlags(Up, g0);
      ghost var gains := LineGains(Up, g0);
      ColumnsFromEnds(s, g0);
      var j := 0;
      while j < GridSize
        invariant 0 <= j <= GridSize
        invariant grid == ColumnsFrom(s, g0, j)
        invariant score == old(score) + Total(gains[..j])
        invariant lastMoveChanged == (old(lastMoveChanged) || Any(flags[..j]))
      {
        ColumnsFromStep(s, g0, j);
        MoveColumn(j, Up, g0);
        TotalStep(gains, j);
        AnyStep(flags, j);
        j := j + 1;
      }
      MoveDone(Up, g0, old(score), old(lastMoveChanged));
    }

    /** `moveDown`: every column is read out, reversed, merged, reversed back and written back cell by cell. */
    method MoveDown()
      requires Shaped()
      modifies this`grid, this`score, this`lastMoveChanged
      ensures Shaped()
      ensures grid == Slide(Down, old(grid))
      ensures score == old(score) + Gain(Down, old(grid))
      ensures lastMoveChanged == (old(lastMoveChanged) || grid != old(grid))
    {
      ghost var g0 := grid;
      ghost var s := Slide(Down, g0);
      ghost var flags := LineChangeFlags(Down, g0);
      ghost var gains := LineGains(Down, g0);
      ColumnsFromEnds(s, g0);
      var j := 0;
      while j < GridSize
        invariant 0 <= j <= GridSize
        invariant grid == ColumnsFrom(s, g0, j)
        invariant score == old(score) + Total(gains[..j])
        invariant lastMoveChanged == (old(lastMoveChanged) || Any(flags[..j]))
      {
        ColumnsFromStep(s, g0, j);
        MoveColumn(j, Down, g0);
        TotalStep(gains, j);
        AnyStep(flags, j);
        j := j + 1;
      }
      MoveDone(Down, g0, old(score), old(lastMoveChanged));
    }

    /**
     * What the loop of a move in direction d leaves behind once the board is the moved board
     * g0: the points of the move, and the changed flag set exactly when the board changed.
     */
    lemma MoveDone(d: Direction, g0: Grid, score0: int, changed0: bool)
      requires IsGrid(g0) && |g0| == GridSize && grid == Slide(d, g0)
      requires score == score0 + Total(LineGains(d, g0)[..GridSize])
      requires lastMoveChanged == (changed0 || Any(LineChangeFlags(d, g0)[..GridSize]))
      ensures score == score0 + Gain(d, g0)
      ensures lastMoveChanged == (changed0 || grid != g0)
    {
      assert LineGains(d, g0)[..GridSize] == LineGains(d, g0);
      assert LineChangeFlags(d, g0)[..GridSize] == LineChangeFlags(d, g0);
      SlideChangesIff(d, g0);
    }

    /** `saveGridState`: the non-empty cells with their values, row by row. */
    method SaveGridState() returns (state: seq<Tile>)
      requires Shaped()
      ensures state == TilesOf(grid)
    {
      state := [];
      var i := 0;
      while i < GridSize
        invariant 0 <= i <= GridSize
        invariant state == TilesInRows(grid, i)
      {
        var j := 0;
        while j < GridSize
          invariant 0 <= j <= GridSize
          invariant state == TilesInRows(grid, i) + TilesInRow(grid, i, j)
        {
          var value := grid[i][j];
          if value != 0 {
            state := state + [Tile(i, j, value)];
          }
          j := j + 1;
        }
        i := i + 1;
      }
    }

    /** The score/best part of `updateScores`. */
    method UpdateScores()
      modifies this`bestScore
      ensures bestScore == Max(old(bestScore), score)
    {
      if score > bestScore {
        bestScore := score;
      }
    }

    /** `checkGameOver`: any empty cell, then any equal neighbours, mean the game goes on. */
    method CheckGameOver() returns (over: bool)
      requires Shaped()
      modifies this`gameOver
      ensures over == Stuck(grid)
      ensures gameOver == (old(gameOver) || over)
    {
      var i := 0;
      while i < GridSize
        invariant 0 <= i <= GridSize
        invariant forall r, c :: 0 <= r < i && 0 <= c < GridSize ==> grid[r][c] != 0
      {
        var j := 0;
        while j < GridSize
          invariant 0 <= j <= GridSize
          invariant forall r, c :: (0 <= r < i && 0 <= c < GridSize) || (r == i && 0 <= c < j) ==> grid[r][c] != 0
        {
          if grid[i][j] == 0 {
            return false;
          }
          j := j + 1;
        }
        i := i + 1;
      }
      i := 0;
      while i < GridSize
        invariant 0 <= i <= GridSize
        invariant forall r, c :: 0 <= r < i && 0 <= c < GridSize ==> NoMergeAt(grid, r, c)
      {
        var j := 0;
        while j < GridSize
          invariant 0 <= j <= GridSize
          invariant forall r, c :: (0 <= r < i && 0 <= c < GridSize) || (r == i && 0 <= c < j) ==> NoMergeAt(grid, r, c)
        {
          var current := grid[i][j];
          if i < GridSize - 1 && current == grid[i + 1][j] {
            assert !NoMergeAt(grid, i, j);
            return false;
          }
          if j < GridSize - 1 && current == grid[i][j + 1] {
            assert !NoMergeAt(grid, i, j);
            return false;
          }
          j := j + 1;
        }
        i := i + 1;
      }
      gameOver := true;
      return true;
    }

    /**
     * `move`: nothing happens while the game is over or paused; otherwise every line is
     * merged, and only if some line changed is a tile spawned, the best score updated and the
     * terminal test run.
     */
    method Move(d: Direction, choice: nat, four: bool)
      requires Valid()
      modifies this`grid, this`score, this`bestScore, this`gameOver, this`lastMoveChanged
      ensures Valid()
      ensures score >= old(score) && bestScore >= old(bestScore)
      ensures old(gameOver) || old(isPaused) ==>
        grid == old(grid) && score == old(score) && bestScore == old(bestScore) &&
        gameOver == old(gameOver) && lastMoveChanged == old(lastMoveChanged)
      ensures !old(gameOver) && !old(isPaused) ==>
        lastMoveChanged == (Slide(d, old(grid)) != old(grid)) &&
        score == old(score) + Gain(d, old(grid))
      ensures !old(gameOver) && !old(isPaused) && lastMoveChanged ==>
        grid == Spawn(Slide(d, old(grid)), choice, four) &&
        bestScore == Max(old(bestScore), score) && gameOver == Stuck(grid)
      ensures !old(gameOver) && !old(isPaused) && !lastMoveChanged ==>
        grid == old(grid) && score == old(score) && bestScore == old(bestScore) && !gameOver
    {
      if gameOver || isPaused {
        return;
      }
      ghost var g0 := grid;
      lastMoveChanged := false;
      match d {
        case Up => MoveUp();
        case Down => MoveDown();
        case Left => MoveLeft();
        case Right => MoveRight();
      }
      SlideKeepsTiles(d, g0);
      GainNonNegative(d, g0);
      if lastMoveChanged {
        ghost var moved := grid;
        AddRandomTile(choice, four);
        SpawnKeepsTiles(moved, choice, four);
        UpdateScores();
        var over := CheckGameOver();
      } else if Gain(d, g0) != 0 {
        ScoringSlideIsEffective(d, g0);
      }
    }

    /** `newGame`: score 0, flags cleared, a freshly built and seeded board; the best score stays. */
    method NewGame(c1: nat, f1: bool, c2: nat, f2: bool)
      requires 0 <= bestScore
      modifies this`grid, this`score, this`gameOver, this`isPaused
      ensures Valid()
      ensures score == 0 && !gameOver && !isPaused && bestScore == old(bestScore)
      ensures grid == Spawn(Spawn(ZeroGrid(GridSize), c1, f1), c2, f2)
      ensures TwoStartTiles(grid)
    {
      score := 0;
      gameOver := false;
      isPaused := false;
      InitializeGrid(c1, f1, c2, f2);
    }

    /**
     * `exitGame`: score 0 and flags cleared; the board and the best score stay, so a built
     * board stays Valid.
     */
    method ExitGame()
      requires 0 <= bestScore
      modifies this`score, this`gameOver, this`isPaused
      ensures Scores()
      ensures score == 0 && !gameOver && !isPaused
      ensures grid == old(grid) && bestScore == old(bestScore)
    {
      score := 0;
      gameOver := false;
      isPaused := false;
    }

    /** `pauseGame`: pauses only a running game that is not already paused. */
    method PauseGame()
      modifies this`isPaused
      ensures isPaused == (old(isPaused) || !gameOver)
    {
      if !gameOver && !isPaused {
        isPaused := true;
      }
    }

    /** `resumeGame` */
    method ResumeGame()
      modifies this`isPaused
      ensures !isPaused
    {
      isPaused := false;
    }
  }
}
