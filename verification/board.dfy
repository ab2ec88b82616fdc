/**
 * The 4x4 board of the 2048 engine as a value: the four moves (`moveLeft`, `moveRight`,
 * `moveUp`, `moveDown` in script.js) as functions that merge every row or column, the
 * tile spawn of `addRandomTile`, and the terminal test of `checkGameOver`.
 *
 * The lemmas state how the moves relate (right is left on the mirrored board, up and down
 * are left and right on the transposed board), when a move changes nothing, that a move
 * which earns points is effective and leaves an empty cell, and that the terminal test holds
 * exactly when no direction can change a non-empty board.
 */
module Board {
  import opened Line

  /** Row-major: g[i][j] is the cell in row i, column j. */
  type Grid = seq<seq<int>>

  datatype Direction = Up | Down | Left | Right

  datatype Cell = Cell(row: nat, col: nat)

  /** An entry of the list `saveGridState` returns: a non-empty cell and its value. */
  datatype Tile = Tile(row: nat, col: nat, value: int)

  predicate IsGrid(g: Grid) {
    forall i :: 0 <= i < |g| ==> |g[i]| == |g|
  }

  predicate GridTiles(g: Grid) {
    forall i, j :: 0 <= i < |g| && 0 <= j < |g[i]| ==> IsTile(g[i][j])
  }

  predicate HasEmpty(g: Grid) {
    exists i, j :: 0 <= i < |g| && 0 <= j < |g[i]| && g[i][j] == 0
  }

  predicate HasTile(g: Grid) {
    exists i, j :: 0 <= i < |g| && 0 <= j < |g[i]| && g[i][j] != 0
  }

  function ZeroGrid(n: nat): (g: Grid)
    ensures IsGrid(g) && |g| == n
  {
    seq(n, _ => Zeros(n))
  }

  function Reverse(s: seq<int>): (r: seq<int>)
    ensures |r| == |s|
  {
    seq(|s|, k requires 0 <= k < |s| => s[|s| - 1 - k])
  }

  function Column(g: Grid, j: nat): seq<int>
    requires IsGrid(g) && j < |g|
  {
    seq(|g|, i requires 0 <= i < |g| => g[i][j])
  }

  function Transpose(g: Grid): (t: Grid)
    requires IsGrid(g)
    ensures IsGrid(t) && |t| == |g|
  {
    seq(|g|, j requires 0 <= j < |g| => Column(g, j))
  }

  function Mirror(g: Grid): (m: Grid)
    requires IsGrid(g)
    ensures IsGrid(m) && |m| == |g|
  {
    seq(|g|, i requires 0 <= i < |g| => Reverse(g[i]))
  }

  // ---------------------------------------------------------------------------------------
  // The four moves

  /** moveLeft: every row is replaced by its merged row. */
  function SlideLeft(g: Grid): (s: Grid)
    requires IsGrid(g)
    ensures IsGrid(s) && |s| == |g|
  {
    seq(|g|, i requires 0 <= i < |g| => MergedRow(g[i], |g|))
  }

  /** moveRight: every row is reversed, merged and reversed back. */
  function SlideRight(g: Grid): (s: Grid)
    requires IsGrid(g)
    ensures IsGrid(s) && |s| == |g|
  {
    seq(|g|, i requires 0 <= i < |g| => Reverse(MergedRow(Reverse(g[i]), |g|)))
  }

  /** moveUp: cell (i, j) gets entry i of the merged column j. */
  function SlideUp(g: Grid): (s: Grid)
    requires IsGrid(g)
    ensures IsGrid(s) && |s| == |g|
  {
    seq(|g|, i requires 0 <= i < |g| =>
      seq(|g|, j requires 0 <= j < |g| => MergedRow(Column(g, j), |g|)[i]))
  }

  /** moveDown: cell (i, j) gets entry i of column j reversed, merged and reversed back. */
  function SlideDown(g: Grid): (s: Grid)
    requires IsGrid(g)
    ensures IsGrid(s) && |s| == |g|
  {
    seq(|g|, i requires 0 <= i < |g| =>
      seq(|g|, j requires 0 <= j < |g| => Reverse(MergedRow(Reverse(Column(g, j)), |g|))[i]))
  }

  function Slide(d: Direction, g: Grid): (s: Grid)
    requires IsGrid(g)
    ensures IsGrid(s) && |s| == |g|
  {
    match d
    case Left => SlideLeft(g)
    case Right => SlideRight(g)
    case Up => SlideUp(g)
    case Down => SlideDown(g)
  }

  /** Line k as direction d hands it to mergeRow: row or column k, front first. */
  function LineOf(d: Direction, g: Grid, k: nat): (line: seq<int>)
    requires IsGrid(g) && k < |g|
    ensures |line| == |g|
  {
    match d
    case Left => g[k]
    case Right => Reverse(g[k])
    case Up => Column(g, k)
    case Down => Reverse(Column(g, k))
  }

  /** The points mergeRow awards for each line of a move in direction d, in the order they are merged. */
  function LineGains(d: Direction, g: Grid): (gs: seq<int>)
    requires IsGrid(g)
    ensures |gs| == |g|
  {
    seq(|g|, k requires 0 <= k < |g| => RowGain(LineOf(d, g, k)))
  }

  /** The sum of a sequence of points, added front to back. */
  function Total(xs: seq<int>): int {
    if |xs| == 0 then 0 else Total(xs[..|xs| - 1]) + xs[|xs| - 1]
  }

  /** What a move in direction d adds to the score. */
  function Gain(d: Direction, g: Grid): int
    requires IsGrid(g)
  {
    Total(LineGains(d, g))
  }

  // ---------------------------------------------------------------------------------------
  // Lemmas about the moves

  lemma ReverseReverse(s: seq<int>)
    ensures Reverse(Reverse(s)) == s
  {
  }

  /** Right is left on the mirrored board, mirrored back. */
  lemma SlideRightMirrorsLeft(g: Grid)
    requires IsGrid(g)
    ensures SlideRight(g) == Mirror(SlideLeft(Mirror(g)))
    ensures Gain(Right, g) == Gain(Left, Mirror(g))
  {
    assert LineGains(Right, g) == LineGains(Left, Mirror(g));
  }

  /** Up is left on the transposed board, transposed back. */
  lemma SlideUpTransposesLeft(g: Grid)
    requires IsGrid(g)
    ensures SlideUp(g) == Transpose(SlideLeft(Transpose(g)))
    ensures Gain(Up, g) == Gain(Left, Transpose(g))
  {
    var n := |g|;
    var h := SlideLeft(Transpose(g));
    forall i, j | 0 <= i < n && 0 <= j < n ensures SlideUp(g)[i][j] == Transpose(h)[i][j] {
      assert Transpose(h)[i][j] == Column(h, i)[j] == h[j][i];
      assert Transpose(g)[j] == Column(g, j);
    }
    forall i | 0 <= i < n ensures SlideUp(g)[i] == Transpose(h)[i] {
    }
    assert LineGains(Up, g) == LineGains(Left, Transpose(g));
  }

  /** Down is right on the transposed board, transposed back. */
  lemma SlideDownTransposesRight(g: Grid)
    requires IsGrid(g)
    ensures SlideDown(g) == Transpose(SlideRight(Transpose(g)))
    ensures Gain(Down, g) == Gain(Right, Transpose(g))
  {
    var n := |g|;
    var h := SlideRight(Transpose(g));
    forall i, j | 0 <= i < n && 0 <= j < n ensures SlideDown(g)[i][j] == Transpose(h)[i][j] {
      assert Transpose(h)[i][j] == Column(h, i)[j] == h[j][i];
      assert Transpose(g)[j] == Column(g, j);
    }
    forall i | 0 <= i < n ensures SlideDown(g)[i] == Transpose(h)[i] {
    }
    assert LineGains(Down, g) == LineGains(Right, Transpose(g));
  }

  /** Each line of the moved board is the merge of the same line of the old board, and of nothing else. */
  lemma SlideLine(d: Direction, g: Grid, k: nat)
    requires IsGrid(g) && k < |g|
    ensures LineOf(d, Slide(d, g), k) == MergedRow(LineOf(d, g, k), |g|)
  {
    var n := |g|;
    match d
    case Left =>
    case Right =>
      ReverseReverse(MergedRow(Reverse(g[k]), n));
    case Up =>
      assert Column(SlideUp(g), k) == MergedRow(Column(g, k), n);
    case Down =>
      var m := MergedRow(Reverse(Column(g, k)), n);
      assert Column(SlideDown(g), k) == Reverse(m);
      ReverseReverse(m);
  }

  /** The index of the line in direction d that holds cell (i, j). */
  function LineIndex(d: Direction, i: nat, j: nat): nat {
    if d == Left || d == Right then i else j
  }

  /** Two boards that agree on the line in direction d through cell (i, j) agree on that cell. */
  lemma CellFromLine(d: Direction, a: Grid, b: Grid, i: nat, j: nat)
    requires IsGrid(a) && IsGrid(b) && |a| == |b| && i < |a| && j < |a|
    requires LineOf(d, a, LineIndex(d, i, j)) == LineOf(d, b, LineIndex(d, i, j))
    ensures a[i][j] == b[i][j]
  {
    var n := |a|;
    match d
    case Left =>
    case Right =>
      assert LineOf(d, a, i)[n - 1 - j] == LineOf(d, b, i)[n - 1 - j];
    case Up =>
      assert LineOf(d, a, j)[i] == LineOf(d, b, j)[i];
    case Down =>
      assert LineOf(d, a, j)[n - 1 - i] == LineOf(d, b, j)[n - 1 - i];
  }

  /** A board is determined by its lines in any one direction. */
  lemma LinesDetermineGrid(d: Direction, a: Grid, b: Grid)
    requires IsGrid(a) && IsGrid(b) && |a| == |b|
    requires forall k :: 0 <= k < |a| ==> LineOf(d, a, k) == LineOf(d, b, k)
    ensures a == b
  {
    forall i | 0 <= i < |a| ensures a[i] == b[i] {
      forall j | 0 <= j < |a| ensures a[i][j] == b[i][j] {
        CellFromLine(d, a, b, i, j);
      }
    }
  }

  /** A move leaves the board as it is exactly when every line it merges is settled. */
  lemma SlideFixedIff(d: Direction, g: Grid)
    requires IsGrid(g)
    ensures Slide(d, g) == g <==> forall k :: 0 <= k < |g| ==> Settled(LineOf(d, g, k))
  {
    var n := |g|;
    forall k | 0 <= k < n
      ensures LineOf(d, Slide(d, g), k) == MergedRow(LineOf(d, g, k), n)
      ensures MergedRow(LineOf(d, g, k), n) == LineOf(d, g, k) <==> Settled(LineOf(d, g, k))
    {
      SlideLine(d, g, k);
      MergedRowFixedIff(LineOf(d, g, k), n);
    }
    if forall k :: 0 <= k < n ==> Settled(LineOf(d, g, k)) {
      LinesDetermineGrid(d, Slide(d, g), g);
    }
  }

  lemma TotalStep(xs: seq<int>, i: nat)
    requires i < |xs|
    ensures Total(xs[..i + 1]) == Total(xs[..i]) + xs[i]
  {
    assert xs[..i + 1][..i] == xs[..i];
  }

  lemma {:induction false} TotalNonZero(xs: seq<int>)
    requires Total(xs) != 0
    ensures exists k :: 0 <= k < |xs| && xs[k] != 0
  {
    var m := |xs| - 1;
    if xs[m] == 0 {
      TotalNonZero(xs[..m]);
      var k :| 0 <= k < m && xs[..m][k] != 0;
      assert xs[..m][k] == xs[k];
    }
  }

  /** A move that earns points is effective: a merge always changes its line. */
  lemma ScoringSlideIsEffective(d: Direction, g: Grid)
    requires IsGrid(g)
    requires Gain(d, g) != 0
    ensures Slide(d, g) != g
  {
    TotalNonZero(LineGains(d, g));
    var k :| 0 <= k < |g| && LineGains(d, g)[k] != 0;
    ScoringRowChanges(LineOf(d, g, k), |g|);
    MergedRowFixedIff(LineOf(d, g, k), |g|);
    SlideFixedIff(d, g);
  }

  /** The cells of a line of a board of tiles are tiles. */
  lemma LineTiles(d: Direction, g: Grid, k: nat)
    requires IsGrid(g) && k < |g| && GridTiles(g)
    ensures AllTiles(LineOf(d, g, k))
  {
  }

  lemma {:induction false} TotalNonNegative(xs: seq<int>)
    requires forall k :: 0 <= k < |xs| ==> xs[k] >= 0
    ensures Total(xs) >= 0
  {
    if |xs| > 0 {
      var m := |xs| - 1;
      assert forall k :: 0 <= k < m ==> xs[..m][k] == xs[k];
      TotalNonNegative(xs[..m]);
    }
  }

  /** On a board of tiles no move loses points. */
  lemma GainNonNegative(d: Direction, g: Grid)
    requires IsGrid(g) && GridTiles(g)
    ensures Gain(d, g) >= 0
  {
    forall k | 0 <= k < |g| ensures LineGains(d, g)[k] >= 0 {
      LineTiles(d, g, k);
      RowGainBounds(LineOf(d, g, k), |g|);
    }
    TotalNonNegative(LineGains(d, g));
  }

  /** A move keeps every cell 0 or a power of two of at least 2. */
  lemma SlideKeepsTiles(d: Direction, g: Grid)
    requires IsGrid(g) && GridTiles(g)
    ensures GridTiles(Slide(d, g))
  {
    var n := |g|;
    var s := Slide(d, g);
    forall k | 0 <= k < n ensures AllTiles(LineOf(d, s, k)) {
      LineTiles(d, g, k);
      MergedRowKeepsTiles(LineOf(d, g, k), n);
      SlideLine(d, g, k);
    }
    forall i, j | 0 <= i < n && 0 <= j < n ensures IsTile(s[i][j]) {
      match d
      case Left => assert LineOf(d, s, i)[j] == s[i][j];
      case Right => assert LineOf(d, s, i)[n - 1 - j] == s[i][j];
      case Up => assert LineOf(d, s, j)[i] == s[i][j];
      case Down => assert LineOf(d, s, j)[n - 1 - i] == s[i][j];
    }
  }

  /** An effective move always leaves an empty cell, so the spawn that follows it always happens. */
  lemma EffectiveSlideLeavesEmpty(d: Direction, g: Grid)
    requires IsGrid(g)
    requires Slide(d, g) != g
    ensures HasEmpty(Slide(d, g))
  {
    var n := |g|;
    var s := Slide(d, g);
    SlideFixedIff(d, g);
    var k :| 0 <= k < n && !Settled(LineOf(d, g, k));
    MergedRowFixedIff(LineOf(d, g, k), n);
    ChangedRowHasGap(LineOf(d, g, k), n);
    SlideLine(d, g, k);
    var p :| 0 <= p < n && LineOf(d, s, k)[p] == 0;
    EmptyLineCell(d, s, k, p);
  }

  /** An empty entry of a line is an empty cell of the board. */
  lemma EmptyLineCell(d: Direction, g: Grid, k: nat, p: nat)
    requires IsGrid(g) && k < |g| && p < |g| && LineOf(d, g, k)[p] == 0
    ensures HasEmpty(g)
  {
    var n := |g|;
    match d
    case Left => assert g[k][p] == 0;
    case Right => assert g[k][n - 1 - p] == 0;
    case Up => assert g[p][k] == 0;
    case Down => assert g[n - 1 - p][k] == 0;
  }

  /** The merge changes line k of g. */
  predicate LineChanges(d: Direction, g: Grid, k: nat)
    requires IsGrid(g) && k < |g|
  {
    MergedRow(LineOf(d, g, k), |g|) != LineOf(d, g, k)
  }

  /** For each line in direction d, whether the merge changes it. */
  function LineChangeFlags(d: Direction, g: Grid): (fs: seq<bool>)
    requires IsGrid(g)
    ensures |fs| == |g|
  {
    seq(|g|, k requires 0 <= k < |g| => LineChanges(d, g, k))
  }

  /** Some entry of xs is set; defined, like Total, by peeling off the last entry. */
  predicate Any(xs: seq<bool>) {
    |xs| > 0 && (Any(xs[..|xs| - 1]) || xs[|xs| - 1])
  }

  lemma AnyStep(xs: seq<bool>, i: nat)
    requires i < |xs|
    ensures Any(xs[..i + 1]) == (Any(xs[..i]) || xs[i])
  {
    assert xs[..i + 1][..i] == xs[..i];
  }

  /** An entry that is set, when Any holds. */
  lemma {:induction false} AnyWitness(xs: seq<bool>) returns (k: nat)
    requires Any(xs)
    ensures k < |xs| && xs[k]
  {
    var n := |xs| - 1;
    if Any(xs[..n]) {
      k := AnyWitness(xs[..n]);
      assert xs[..n][k] == xs[k];
    } else {
      k := n;
    }
  }

  /** When Any fails, no entry is set. */
  lemma {:induction false} NoneSet(xs: seq<bool>, k: nat)
    requires !Any(xs) && k < |xs|
    ensures !xs[k]
  {
    var n := |xs| - 1;
    if k < n {
      NoneSet(xs[..n], k);
      assert xs[..n][k] == xs[k];
    }
  }

  /** A move changes the board exactly when the merge changes one of its lines. */
  lemma SlideChangesIff(d: Direction, g: Grid)
    requires IsGrid(g)
    ensures Slide(d, g) != g <==> Any(LineChangeFlags(d, g))
  {
    var fs := LineChangeFlags(d, g);
    if Any(fs) {
      var k := AnyWitness(fs);
      assert LineChanges(d, g, k);
      SlideLine(d, g, k);
    } else {
      forall k | 0 <= k < |g| ensures LineOf(d, Slide(d, g), k) == LineOf(d, g, k) {
        NoneSet(fs, k);
        assert !LineChanges(d, g, k);
        SlideLine(d, g, k);
      }
      LinesDetermineGrid(d, Slide(d, g), g);
    }
  }

  // ---------------------------------------------------------------------------------------
  // Terminal test

  /** The cell (i, j) equals neither its lower nor its right neighbour. */
  predicate NoMergeAt(g: Grid, i: nat, j: nat)
    requires IsGrid(g) && i < |g| && j < |g|
  {
    (i + 1 < |g| ==> g[i][j] != g[i + 1][j]) && (j + 1 < |g| ==> g[i][j] != g[i][j + 1])
  }

  /** `checkGameOver`'s condition: no empty cell and no two equal horizontal or vertical neighbours. */
  predicate Stuck(g: Grid)
    requires IsGrid(g)
  {
    (forall i, j :: 0 <= i < |g| && 0 <= j < |g| ==> g[i][j] != 0) &&
    (forall i, j :: 0 <= i < |g| && 0 <= j < |g| ==> NoMergeAt(g, i, j))
  }

  /** On a terminal board no direction changes anything. */
  lemma StuckBoardCannotMove(d: Direction, g: Grid)
    requires IsGrid(g) && Stuck(g)
    ensures Slide(d, g) == g
  {
    var n := |g|;
    forall k | 0 <= k < n ensures Settled(LineOf(d, g, k)) {
      var line := LineOf(d, g, k);
      forall p | 0 <= p < n ensures line[p] != 0 && (p + 1 < n ==> line[p] != line[p + 1]) {
        match d
        case Left =>
          if p + 1 < n { assert NoMergeAt(g, k, p); }
        case Right =>
          if p + 1 < n { assert NoMergeAt(g, k, n - 2 - p); }
        case Up =>
          if p + 1 < n { assert NoMergeAt(g, p, k); }
        case Down =>
          if p + 1 < n { assert NoMergeAt(g, n - 2 - p, k); }
      }
    }
    SlideFixedIff(d, g);
  }

  /** A line that is settled read both ways is all tiles or all empty. */
  lemma SettledBothWays(s: seq<int>, x: nat, y: nat)
    requires Settled(s) && Settled(Reverse(s))
    requires x < |s| && y < |s| && s[x] == 0
    ensures s[y] == 0
  {
    if y < x {
      var n := |s|;
      assert Reverse(s)[n - 1 - x] == 0;
      assert Reverse(s)[n - 1 - y] == s[y];
    }
  }

  /**
   * On a board with at least one tile, some direction changes the board unless the terminal
   * test holds: `checkGameOver` declares the game over exactly when no move is possible.
   */
  lemma MovableUnlessStuck(g: Grid)
    requires IsGrid(g) && HasTile(g) && !Stuck(g)
    ensures exists d :: Slide(d, g) != g
  {
    if forall d :: Slide(d, g) == g {
      var n := |g|;
      forall d, k | 0 <= k < n ensures Settled(LineOf(d, g, k)) {
        SlideFixedIff(d, g);
      }
      var a, b :| 0 <= a < n && 0 <= b < n && g[a][b] != 0;
      forall i, j | 0 <= i < n && 0 <= j < n ensures g[i][j] != 0 {
        if g[i][j] == 0 {
          assert LineOf(Up, g, j) == Column(g, j) && LineOf(Down, g, j) == Reverse(Column(g, j));
          SettledBothWays(Column(g, j), i, a);
          assert LineOf(Left, g, a) == g[a] && LineOf(Right, g, a) == Reverse(g[a]);
          SettledBothWays(g[a], j, b);
        }
      }
      forall i, j | 0 <= i < n && 0 <= j < n ensures NoMergeAt(g, i, j) {
        assert Settled(LineOf(Left, g, i)) && Settled(LineOf(Up, g, j));
        assert Column(g, j)[i] == g[i][j];
        if i + 1 < n { assert Column(g, j)[i + 1] == g[i + 1][j]; }
      }
      assert Stuck(g);
    }
  }

  // ---------------------------------------------------------------------------------------
  // Spawn

  /** The empty cells of row i among its first j columns, left to right. */
  function EmptyInRow(g: Grid, i: nat, j: nat): (cells: seq<Cell>)
    requires i < |g| && j <= |g[i]|
    ensures forall c :: c in cells ==> c.row == i && c.col < j && g[i][c.col] == 0
  {
    if j == 0 then []
    else EmptyInRow(g, i, j - 1) + (if g[i][j - 1] == 0 then [Cell(i, j - 1)] else [])
  }

  /** The empty cells of the first i rows, in row-major order. */
  function EmptyInRows(g: Grid, i: nat): (cells: seq<Cell>)
    requires IsGrid(g) && i <= |g|
    ensures forall c :: c in cells ==> c.row < i && c.col < |g| && g[c.row][c.col] == 0
  {
    if i == 0 then [] else EmptyInRows(g, i - 1) + EmptyInRow(g, i - 1, |g|)
  }

  /** The list `addRandomTile` collects: every empty cell, row by row. */
  function EmptyCells(g: Grid): (cells: seq<Cell>)
    requires IsGrid(g)
    ensures forall c :: c in cells ==> c.row < |g| && c.col < |g| && g[c.row][c.col] == 0
  {
    EmptyInRows(g, |g|)
  }

  /** The cell `addRandomTile` fills when its random index is `choice` reduced modulo the number of empty cells. */
  function SpawnCell(g: Grid, choice: nat): Cell
    requires IsGrid(g) && |EmptyCells(g)| > 0
  {
    EmptyCells(g)[choice % |EmptyCells(g)|]
  }

  function SeedValue(four: bool): int {
    if four then 4 else 2
  }

  /** `addRandomTile`: a 2 (or a 4) in one empty cell; a full board is left as it is. */
  function Spawn(g: Grid, choice: nat, four: bool): (h: Grid)
    requires IsGrid(g)
    ensures IsGrid(h) && |h| == |g|
  {
    if |EmptyCells(g)| == 0 then g
    else
      var c := SpawnCell(g, choice);
      assert c in EmptyCells(g);
      g[c.row := g[c.row][c.col := SeedValue(four)]]
  }

  lemma {:induction false} EmptyInRowComplete(g: Grid, i: nat, j: nat, c: nat)
    requires i < |g| && j <= |g[i]|
    requires c < j && g[i][c] == 0
    ensures Cell(i, c) in EmptyInRow(g, i, j)
  {
    if c < j - 1 {
      EmptyInRowComplete(g, i, j - 1, c);
    }
  }

  lemma {:induction false} EmptyInRowsComplete(g: Grid, i: nat, c: Cell)
    requires IsGrid(g) && i <= |g|
    requires c.row < i && c.col < |g| && g[c.row][c.col] == 0
    ensures c in EmptyInRows(g, i)
  {
    var before, last := EmptyInRows(g, i - 1), EmptyInRow(g, i - 1, |g|);
    assert EmptyInRows(g, i) == before + last;
    if c.row < i - 1 {
      EmptyInRowsComplete(g, i - 1, c);
      assert c in before;
    } else {
      EmptyInRowComplete(g, i - 1, |g|, c.col);
      assert c in last;
    }
  }

  /** The collected list holds exactly the empty cells; it is non-empty exactly when the board has an empty cell. */
  lemma EmptyCellsExact(g: Grid)
    requires IsGrid(g)
    ensures forall c: Cell :: c in EmptyCells(g) <==> c.row < |g| && c.col < |g| && g[c.row][c.col] == 0
    ensures HasEmpty(g) <==> |EmptyCells(g)| > 0
  {
    forall c: Cell | c.row < |g| && c.col < |g| && g[c.row][c.col] == 0 ensures c in EmptyCells(g) {
      EmptyInRowsComplete(g, |g|, c);
    }
    if HasEmpty(g) {
      var i, j :| 0 <= i < |g| && 0 <= j < |g[i]| && g[i][j] == 0;
      assert Cell(i, j) in EmptyCells(g);
    }
    if |EmptyCells(g)| > 0 {
      var c := EmptyCells(g)[0];
      assert c in EmptyCells(g);
      assert g[c.row][c.col] == 0;
    }
  }

  /** h is g with only cell c changed, from empty to v. */
  predicate PlacedAt(g: Grid, h: Grid, c: Cell, v: int)
    requires IsGrid(g) && IsGrid(h) && |h| == |g|
  {
    c.row < |g| && c.col < |g| && g[c.row][c.col] == 0 && h[c.row][c.col] == v &&
    forall i, j :: 0 <= i < |g| && 0 <= j < |g| && Cell(i, j) != c ==> h[i][j] == g[i][j]
  }

  /**
   * A spawn on a board with an empty cell puts a 2 or a 4 into exactly one cell that was
   * empty and leaves every other cell as it was; on a full board it changes nothing.
   */
  lemma SpawnFillsOneEmptyCell(g: Grid, choice: nat, four: bool)
    requires IsGrid(g)
    ensures !HasEmpty(g) ==> Spawn(g, choice, four) == g
    ensures HasEmpty(g) ==>
      |EmptyCells(g)| > 0 && PlacedAt(g, Spawn(g, choice, four), SpawnCell(g, choice), SeedValue(four))
    ensures HasEmpty(g) ==> var v := Spawn(g, choice, four)[SpawnCell(g, choice).row][SpawnCell(g, choice).col]; v == 2 || v == 4
  {
    EmptyCellsExact(g);
    if HasEmpty(g) {
      var c := SpawnCell(g, choice);
      assert c in EmptyCells(g);
    }
  }

  /** The random choice is unrestricted: every empty cell is the spawn cell for some choice. */
  lemma SpawnReachesEveryEmptyCell(g: Grid, c: Cell)
    requires IsGrid(g)
    requires c.row < |g| && c.col < |g| && g[c.row][c.col] == 0
    ensures |EmptyCells(g)| > 0 && exists choice: nat :: SpawnCell(g, choice) == c
  {
    EmptyCellsExact(g);
    var e := EmptyCells(g);
    assert c in e;
    var k :| 0 <= k < |e| && e[k] == c;
    SmallMod(k, |e|);
    assert SpawnCell(g, k) == c;
  }

  lemma SmallMod(k: nat, m: nat)
    requires k < m
    ensures k % m == k
  {
  }

  lemma SeedIsTile(four: bool)
    ensures IsTile(SeedValue(four))
  {
    assert IsPow2(1);
    assert IsPow2(2);
    assert IsPow2(4);
  }

  /** A spawn keeps every cell 0 or a power of two of at least 2. */
  lemma SpawnKeepsTiles(g: Grid, choice: nat, four: bool)
    requires IsGrid(g) && GridTiles(g)
    ensures GridTiles(Spawn(g, choice, four))
  {
    SpawnFillsOneEmptyCell(g, choice, four);
    SeedIsTile(four);
  }

  /** v is a tile a new game can start with. */
  predicate IsSeed(v: int) {
    v == 2 || v == 4
  }

  /** Exactly two cells hold a tile, each a 2 or a 4; every other cell is empty. */
  ghost predicate TwoStartTiles(g: Grid)
    requires IsGrid(g)
  {
    exists p: Cell, q: Cell :: p != q && p.row < |g| && p.col < |g| && q.row < |g| && q.col < |g| &&
      IsSeed(g[p.row][p.col]) && IsSeed(g[q.row][q.col]) &&
      forall i, j :: 0 <= i < |g| && 0 <= j < |g| && Cell(i, j) != p && Cell(i, j) != q ==> g[i][j] == 0
  }

  /** Two placements of start values, one after the other, on an empty board leave exactly two start tiles. */
  lemma TwoPlacements(g0: Grid, g1: Grid, g2: Grid, p: Cell, q: Cell, v1: int, v2: int)
    requires IsGrid(g0) && IsGrid(g1) && IsGrid(g2) && |g1| == |g0| && |g2| == |g0|
    requires forall i, j :: 0 <= i < |g0| && 0 <= j < |g0| ==> g0[i][j] == 0
    requires PlacedAt(g0, g1, p, v1) && PlacedAt(g1, g2, q, v2) && IsSeed(v1) && IsSeed(v2)
    ensures TwoStartTiles(g2)
  {
    assert p != q;
    assert g2[p.row][p.col] == v1;
    forall i, j | 0 <= i < |g0| && 0 <= j < |g0| && Cell(i, j) != p && Cell(i, j) != q ensures g2[i][j] == 0 {
      assert g1[i][j] == g0[i][j];
    }
  }

  /** `initializeGrid`: two spawns on an empty board of side at least 2 leave exactly two start tiles. */
  lemma SeedingPlacesTwoTiles(n: nat, c1: nat, f1: bool, c2: nat, f2: bool)
    requires n >= 2
    ensures TwoStartTiles(Spawn(Spawn(ZeroGrid(n), c1, f1), c2, f2))
  {
    var g0 := ZeroGrid(n);
    assert g0[0][0] == 0;
    SpawnFillsOneEmptyCell(g0, c1, f1);
    var p := SpawnCell(g0, c1);
    var g1 := Spawn(g0, c1, f1);
    var other := if p == Cell(0, 0) then Cell(0, 1) else Cell(0, 0);
    assert g1[other.row][other.col] == 0;
    SpawnFillsOneEmptyCell(g1, c2, f2);
    TwoPlacements(g0, g1, Spawn(g1, c2, f2), p, SpawnCell(g1, c2), SeedValue(f1), SeedValue(f2));
  }

  // ---------------------------------------------------------------------------------------
  // Saved state

  /** The tiles of the first j cells of row i, in order. */
  function TilesInRow(g: Grid, i: nat, j: nat): seq<Tile>
    requires i < |g| && j <= |g[i]|
  {
    if j == 0 then []
    else TilesInRow(g, i, j - 1) + (if g[i][j - 1] != 0 then [Tile(i, j - 1, g[i][j - 1])] else [])
  }

  /** The tiles of the first i rows, in row-major order. */
  function TilesInRows(g: Grid, i: nat): seq<Tile>
    requires IsGrid(g) && i <= |g|
  {
    if i == 0 then [] else TilesInRows(g, i - 1) + TilesInRow(g, i - 1, |g|)
  }

  /** The list `saveGridState` returns: every non-empty cell with its value, row by row. */
  function TilesOf(g: Grid): (ts: seq<Tile>)
    requires IsGrid(g)
    ensures forall t :: t in ts ==> t.row < |g| && t.col < |g| && t.value == g[t.row][t.col] != 0
  {
    TilesInRowsSound(g, |g|);
    TilesInRows(g, |g|)
  }

  lemma {:induction false} TilesInRowSound(g: Grid, i: nat, j: nat)
    requires i < |g| && j <= |g[i]|
    ensures forall t :: t in TilesInRow(g, i, j) ==> t.row == i && t.col < j && t.value == g[i][t.col] != 0
  {
    if j > 0 {
      TilesInRowSound(g, i, j - 1);
    }
  }

  lemma {:induction false} TilesInRowsSound(g: Grid, i: nat)
    requires IsGrid(g) && i <= |g|
    ensures forall t :: t in TilesInRows(g, i) ==> t.row < i && t.col < |g| && t.value == g[t.row][t.col] != 0
  {
    if i > 0 {
      TilesInRowsSound(g, i - 1);
      TilesInRowSound(g, i - 1, |g|);
    }
  }

  lemma {:induction false} TilesInRowComplete(g: Grid, i: nat, j: nat, c: nat)
    requires i < |g| && j <= |g[i]|
    requires c < j && g[i][c] != 0
    ensures Tile(i, c, g[i][c]) in TilesInRow(g, i, j)
  {
    if c < j - 1 {
      TilesInRowComplete(g, i, j - 1, c);
    }
  }

  lemma {:induction false} TilesInRowsComplete(g: Grid, i: nat, t: Tile)
    requires IsGrid(g) && i <= |g|
    requires t.row < i && t.col < |g| && t.value == g[t.row][t.col] != 0
    ensures t in TilesInRows(g, i)
  {
    var before, last := TilesInRows(g, i - 1), TilesInRow(g, i - 1, |g|);
    assert TilesInRows(g, i) == before + last;
    if t.row < i - 1 {
      TilesInRowsComplete(g, i - 1, t);
      assert t in before;
    } else {
      TilesInRowComplete(g, i - 1, |g|, t.col);
      assert t in last;
    }
  }

  /** The saved list holds exactly the non-empty cells, each with its value. */
  lemma TilesOfExact(g: Grid)
    requires IsGrid(g)
    ensures forall t: Tile :: t in TilesOf(g) <==>
      t.row < |g| && t.col < |g| && g[t.row][t.col] != 0 && t.value == g[t.row][t.col]
  {
    forall t: Tile | t.row < |g| && t.col < |g| && g[t.row][t.col] != 0 && t.value == g[t.row][t.col]
      ensures t in TilesOf(g)
    {
      TilesInRowsComplete(g, |g|, t);
    }
    TilesInRowsSound(g, |g|);
  }

  /** A cell is saved as a tile exactly when `addRandomTile` would not list it as empty. */
  lemma TilesComplementEmptyCells(g: Grid, i: nat, j: nat)
    requires IsGrid(g) && i < |g| && j < |g|
    ensures Tile(i, j, g[i][j]) in TilesOf(g) <==> Cell(i, j) !in EmptyCells(g)
  {
    TilesOfExact(g);
    EmptyCellsExact(g);
  }
}
