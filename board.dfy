/** The Minesweeper board: a rows x cols grid of cells, deferred mine
    placement, neighbour queries, reveal with flood-fill, flagging, and the
    win and loss bookkeeping. */
module GameEngine {
  import opened Cells
  import opened Grids
  import opened Layout

  class Board {
    const rows: nat
    const cols: nat
    const mineCount: nat
    const cells: array2<Cell>
    var isGameOver: bool
    var isWon: bool
    /** True until the first reveal has placed the mines. */
    var firstClick: bool

    /** The contents of cells as a value, for specifications. */
    ghost var grid: seq<seq<Cell>>

    /** cells is rows x cols, mirrored by grid, each cell labelled with its position. */
    ghost predicate Shape()
      reads this, cells
    {
      cells.Length0 == rows && cells.Length1 == cols &&
      IsGrid(grid, rows, cols) && Labelled(grid) &&
      forall r, c :: 0 <= r < rows && 0 <= c < cols ==> cells[r, c] == grid[r][c]
    }

    /** The board invariant: before the first reveal there are no mines and
        nothing is revealed; afterwards there are exactly mineCount mines and
        every non-mine cell holds the number of mines around it. */
    ghost predicate Valid()
      reads this, cells
    {
      Shape() &&
      (isWon ==> isGameOver) &&
      (firstClick ==> Pristine(grid) && !isGameOver) &&
      (!firstClick ==> MinesCounted(grid, rows, cols) && CountGrid(grid, Mine) == mineCount)
    }

    constructor (rows: nat, cols: nat, mineCount: nat)
      ensures Valid() && fresh(cells)
      ensures this.rows == rows && this.cols == cols && this.mineCount == mineCount
      ensures grid == FreshGrid(rows, cols)
      ensures !isGameOver && !isWon && firstClick
    {
      this.rows := rows;
      this.cols := cols;
      this.mineCount := mineCount;
      cells := new Cell[rows, cols];
      isGameOver := false;
      isWon := false;
      firstClick := true;
      new;
      InitializeCells();
    }

    /** Fills every position with a fresh cell. */
    method InitializeCells()
      requires cells.Length0 == rows && cells.Length1 == cols
      modifies this`grid, cells
      ensures Shape() && grid == FreshGrid(rows, cols)
    {
      for r := 0 to rows
        invariant forall i, j :: 0 <= i < r && 0 <= j < cols ==> cells[i, j] == NewCell(i, j)
      {
        for c := 0 to cols
          invariant forall i, j :: 0 <= i < r && 0 <= j < cols ==> cells[i, j] == NewCell(i, j)
          invariant forall j :: 0 <= j < c ==> cells[r, j] == NewCell(r, j)
        {
          cells[r, c] := NewCell(r, c);
        }
      }
      grid := FreshGrid(rows, cols);
    }

    /** Writes back the cell at (r, c). */
    method SetCell(r: int, c: int, x: Cell)
      requires Shape() && InBounds(rows, cols, (r, c)) && x.row == r && x.col == c
      modifies this`grid, cells
      ensures Shape()
      ensures grid == old(grid)[r := old(grid)[r][c := x]]
    {
      cells[r, c] := x;
      grid := grid[r := grid[r][c := x]];
    }

    /** (row, col) lies on the board. */
    predicate IsValidPosition(row: int, col: int)
      ensures IsValidPosition(row, col) <==> row >= 0 && row < rows && col >= 0 && col < cols
    {
      InBounds(rows, cols, (row, col))
    }

    /** The positions around (row, col) that lie on the board, in scan order. */
    method GetNeighbors(row: int, col: int) returns (neighbors: seq<Pos>)
      ensures neighbors == Neighbors(rows, cols, row, col)
      ensures forall q :: q in neighbors <==> InBounds(rows, cols, q) && Adjacent((row, col), q)
      ensures |neighbors| <= 8 && (row, col) !in neighbors
    {
      neighbors := [];
      for i := 0 to |Directions|
        invariant neighbors == Clip(rows, cols, row, col, Directions[..i])
      {
        var (dr, dc) := Directions[i];
        var newRow, newCol := row + dr, col + dc;
        if IsValidPosition(newRow, newCol) {
          neighbors := neighbors + [(newRow, newCol)];
        }
        assert Directions[..i + 1][..i] == Directions[..i];
      }
      assert Directions[..|Directions|] == Directions;
      NeighborsExactly(rows, cols, row, col);
    }

    /** The number of mines around (row, col). */
    method CountAdjacentMines(row: int, col: int) returns (count: nat)
      requires Shape()
      ensures count == NeighborMines(grid, rows, cols, row, col)
      ensures count <= 8
    {
      var neighbors := GetNeighbors(row, col);
      count := 0;
      for i := 0 to |neighbors|
        invariant count == MinesAmong(grid, neighbors[..i])
      {
        var (r, c) := neighbors[i];
        assert neighbors[i] in neighbors;
        if cells[r, c].isMine {
          count := count + 1;
        }
        assert neighbors[..i + 1][..i] == neighbors[..i];
      }
      assert neighbors[..|neighbors|] == neighbors;
      NeighborMinesBound(grid, rows, cols, row, col);
    }

    /** Stores in every non-mine cell the number of mines around it. */
    method CalculateAdjacentMines()
      requires Shape()
      modifies this`grid, cells
      ensures Shape()
      ensures grid == Annotate(old(grid), rows, cols)
    {
      ghost var g0 := grid;
      ghost var h := Annotate(g0, rows, cols);
      AnnotateCells(g0, rows, cols);
      for r := 0 to rows
        invariant Shape()
        invariant forall i, j :: 0 <= i < rows && 0 <= j < cols ==>
          grid[i][j] == if i < r then h[i][j] else g0[i][j]
      {
        for c := 0 to cols
          invariant Shape()
          invariant forall i, j :: 0 <= i < rows && 0 <= j < cols ==>
            grid[i][j] == if i < r || (i == r && j < c) then h[i][j] else g0[i][j]
        {
          if !cells[r, c].isMine {
            assert SameMines(g0, grid, rows, cols);
            NeighborMinesSame(g0, grid, rows, cols);
            var count := CountAdjacentMines(r, c);
            SetCell(r, c, cells[r, c].(adjacentMines := count));
          }
        }
      }
      GridExt(grid, h, rows, cols);
    }

    /** Places mineCount mines, never at (avoidRow, avoidCol), taking
        positions from draws (the stream the random generator yields) and
        rejecting the avoided cell and cells that are already mines; then
        computes the adjacent-mine counts. */
    method PlaceMines(avoidRow: int, avoidCol: int, draws: seq<Pos>)
      requires Shape() && Pristine(grid)
      requires forall i :: 0 <= i < |draws| ==> InBounds(rows, cols, draws[i])
      requires mineCount <= |SafeDraws(draws, (avoidRow, avoidCol))|
      modifies this`grid, cells
      ensures Shape()
      ensures grid == Armed(old(grid), rows, cols, (avoidRow, avoidCol), draws, mineCount)
      ensures CountGrid(grid, Mine) == mineCount
    {
      LayMines(avoidRow, avoidCol, draws);
      AnnotateCounts(grid, rows, cols);
      CalculateAdjacentMines();
    }

    /** The drawing loop of PlaceMines: takes the draws in order, skipping
        the avoided position and positions already mined, until mineCount
        mines are set. */
    method LayMines(avoidRow: int, avoidCol: int, draws: seq<Pos>)
      requires Shape() && Pristine(grid)
      requires forall i :: 0 <= i < |draws| ==> InBounds(rows, cols, draws[i])
      requires mineCount <= |SafeDraws(draws, (avoidRow, avoidCol))|
      modifies this`grid, cells
      ensures Shape()
      ensures grid == Lay(old(grid), Sample(draws, (avoidRow, avoidCol), mineCount))
      ensures CountGrid(grid, Mine) == mineCount
    {
      ghost var g0 := grid;
      ghost var avoid := (avoidRow, avoidCol);
      ghost var mines: set<Pos> := {};
      SampleExact(draws, avoid, mineCount);
      CountGridNone(g0, Mine);
      LayCells(g0, {});
      GridExt(g0, Lay(g0, {}), rows, cols);
      var minesPlaced := 0;
      var i := 0;
      while minesPlaced < mineCount
        invariant 0 <= i <= |draws|
        invariant minesPlaced == |mines| <= mineCount
        invariant avoid !in mines
        invariant SampleFrom(draws[i..], avoid, mineCount, mines) == Sample(draws, avoid, mineCount)
        invariant Shape()
        invariant grid == Lay(g0, mines)
        invariant CountGrid(grid, Mine) == minesPlaced
        decreases |draws| - i
      {
        DrawsLeft(draws, i, avoid, mineCount, mines);
        var placed;
        placed, mines := TryMine(draws, i, avoidRow, avoidCol, g0, mines);
        if placed {
          minesPlaced := minesPlaced + 1;
        }
        i := i + 1;
      }
    }

    /** One draw of the placement loop: sets a mine at draws[i] unless it is
        the avoided position or already a mine. */
    method TryMine(draws: seq<Pos>, i: nat, avoidRow: int, avoidCol: int,
                   ghost g0: seq<seq<Cell>>, ghost mines: set<Pos>) returns (placed: bool, ghost next: set<Pos>)
      requires Shape() && IsGrid(g0, rows, cols) && Pristine(g0)
      requires i < |draws| && InBounds(rows, cols, draws[i])
      requires |mines| < mineCount && (avoidRow, avoidCol) !in mines
      requires grid == Lay(g0, mines)
      modifies this`grid, cells
      ensures Shape()
      ensures placed <==> draws[i] != (avoidRow, avoidCol) && draws[i] !in mines
      ensures next == if placed then mines + {draws[i]} else mines
      ensures (avoidRow, avoidCol) !in next && |next| == |mines| + (if placed then 1 else 0)
      ensures SampleFrom(draws[i..], (avoidRow, avoidCol), mineCount, mines)
           == SampleFrom(draws[i + 1..], (avoidRow, avoidCol), mineCount, next)
      ensures grid == Lay(g0, next)
      ensures CountGrid(grid, Mine) == CountGrid(old(grid), Mine) + (if placed then 1 else 0)
    {
      var (row, col) := draws[i];
      LayStep(g0, rows, cols, mines, (row, col));
      if (row == avoidRow && col == avoidCol) || cells[row, col].isMine {
        placed, next := false, mines;
      } else {
        SetCell(row, col, cells[row, col].SetMine());
        placed, next := true, mines + {(row, col)};
      }
      SampleStep(draws, i, (avoidRow, avoidCol), mineCount, mines, next);
    }

    /** Shows every mine, whether flagged or not. */
    method RevealAllMines()
      requires Shape()
      modifies this`grid, cells
      ensures Shape()
      ensures grid == RevealMines(old(grid))
    {
      ghost var g0 := grid;
      for r := 0 to rows
        invariant Shape()
        invariant forall i, j :: 0 <= i < rows && 0 <= j < cols ==>
          grid[i][j] == if i < r then Exposed(g0[i][j]) else g0[i][j]
      {
        for c := 0 to cols
          invariant Shape()
          invariant forall i, j :: 0 <= i < rows && 0 <= j < cols ==>
            grid[i][j] == if i < r || (i == r && j < c) then Exposed(g0[i][j]) else g0[i][j]
        {
          if cells[r, c].isMine {
            SetCell(r, c, cells[r, c].(isRevealed := true));
          }
        }
      }
      GridExt(grid, RevealMines(g0), rows, cols);
    }

    /** The number of cells with trait t. */
    method CountCells(t: Trait) returns (count: nat)
      requires Shape()
      ensures count == CountGrid(grid, t)
    {
      count := 0;
      for r := 0 to rows
        invariant count == CountGrid(grid[..r], t)
      {
        for c := 0 to cols
          invariant count == CountGrid(grid[..r], t) + CountRow(grid[r][..c], t)
        {
          if Has(cells[r, c], t) {
            count := count + 1;
          }
          assert grid[r][..c + 1][..c] == grid[r][..c];
        }
        assert grid[..r + 1][..r] == grid[..r];
        assert grid[r][..cols] == grid[r];
      }
      assert grid[..rows] == grid;
    }

    /** Declares the game won once every non-mine cell is revealed. */
    method CheckWinCondition()
      requires Shape()
      modifies this`isWon, this`isGameOver
      ensures old(Valid()) && !firstClick ==> Valid()
      ensures var won := CountGrid(grid, RevealedSafe) == rows * cols - mineCount;
        isWon == (old(isWon) || won) && isGameOver == (old(isGameOver) || won)
    {
      var revealedCount := CountCells(RevealedSafe);
      var totalNonMines := rows * cols - mineCount;
      if revealedCount == totalNonMines {
        isWon := true;
        isGameOver := true;
      }
    }

    /** mineCount minus the number of flagged cells; negative when the
        player has placed more flags than there are mines. */
    method GetRemainingFlags() returns (remaining: int)
      requires Shape()
      ensures remaining == mineCount - CountGrid(grid, Flagged)
      ensures remaining >= mineCount - rows * cols
    {
      var flaggedCount := CountCells(Flagged);
      remaining := mineCount - flaggedCount;
      CountGridMono(grid, grid, Flagged, Any);
      CountGridAll(grid, rows, cols);
    }

    /** Flips the flag of an unrevealed cell, unless the game is over. */
    method ToggleFlag(row: int, col: int)
      requires Valid() && InBounds(rows, cols, (row, col))
      modifies this`grid, cells
      ensures Valid()
      ensures grid == if old(isGameOver) then old(grid)
        else old(grid)[row := old(grid)[row][col := old(grid)[row][col].ToggleFlag()]]
    {
      if !isGameOver {
        ghost var g0 := grid;
        SetCell(row, col, cells[row, col].ToggleFlag());
        assert SameLayout(g0, grid, rows, cols);
        SameLayoutKeeps(g0, grid, rows, cols);
        assert firstClick ==> Pristine(grid);
      }
    }

    /** Reveals every hidden, unflagged, non-mine neighbour of (row, col),
        continuing from each one that has no mine around it. */
    method FloodFill(row: int, col: int)
      requires Shape() && InBounds(rows, cols, (row, col))
      modifies this`grid, cells
      ensures Shape()
      ensures FloodGrows(old(grid), grid, rows, cols)
      ensures Closed(grid, rows, cols, row, col)
      ensures NewZerosClosed(old(grid), grid, rows, cols)
      decreases CountGrid(grid, Hidden)
    {
      ghost var g0 := grid;
      var neighbors := GetNeighbors(row, col);
      for i := 0 to |neighbors|
        invariant Shape()
        invariant FloodGrows(g0, grid, rows, cols)
        invariant forall q :: q in neighbors[..i] ==> Settled(grid, q)
        invariant NewZerosClosed(g0, grid, rows, cols)
      {
        var (r, c) := neighbors[i];
        assert neighbors[i] in neighbors;
        assert neighbors[..i + 1] == neighbors[..i] + [(r, c)];
        var neighbor := cells[r, c];
        if !neighbor.isRevealed && !neighbor.isFlagged && !neighbor.isMine {
          ghost var g1 := grid;
          RevealOne(g0, g1, rows, cols, (r, c));
          SetCell(r, c, neighbor.Reveal().0);
          if neighbor.adjacentMines == 0 {
            FloodFill(r, c);
          }
          NeighborDone(g0, g1, grid, rows, cols, (r, c), neighbors[..i]);
        }
      }
      assert neighbors[..|neighbors|] == neighbors;
      NeighborsExactly(rows, cols, row, col);
    }

    /** Reveals (row, col). The first call places the mines away from it.
        Returns false exactly when a mine was revealed, which ends the game
        and shows every mine; otherwise floods from a cell with no mine
        around it and checks whether the game is won. A flagged or revealed
        cell is left alone and the call returns true. */
    method RevealCell(row: int, col: int, draws: seq<Pos>) returns (safe: bool)
      requires Valid() && InBounds(rows, cols, (row, col))
      requires firstClick ==> (forall i :: 0 <= i < |draws| ==> InBounds(rows, cols, draws[i]))
      requires firstClick ==> mineCount <= |SafeDraws(draws, (row, col))|
      modifies this, cells
      ensures Valid() && !firstClick
      ensures old(firstClick) ==> safe && !grid[row][col].isMine
      ensures old(firstClick) ==> RevealOutcome(Armed(old(grid), rows, cols, (row, col), draws, mineCount),
        grid, rows, cols, mineCount, row, col, safe, old(isGameOver), old(isWon), isGameOver, isWon)
      ensures !old(firstClick) ==> RevealOutcome(old(grid),
        grid, rows, cols, mineCount, row, col, safe, old(isGameOver), old(isWon), isGameOver, isWon)
    {
      ghost var start := if firstClick then Armed(grid, rows, cols, (row, col), draws, mineCount) else grid;
      if firstClick {
        ArmMines(row, col, draws);
      }
      safe := RevealPlaced(row, col, start);
    }

    /** The first reveal: places the mines away from (row, col) and ends the
        first-click phase. */
    method ArmMines(row: int, col: int, draws: seq<Pos>)
      requires Valid() && firstClick && InBounds(rows, cols, (row, col))
      requires forall i :: 0 <= i < |draws| ==> InBounds(rows, cols, draws[i])
      requires mineCount <= |SafeDraws(draws, (row, col))|
      modifies this`grid, cells, this`firstClick
      ensures Valid() && !firstClick
      ensures grid == Armed(old(grid), rows, cols, (row, col), draws, mineCount)
      ensures !grid[row][col].isMine
    {
      ArmedCounted(grid, rows, cols, (row, col), draws, mineCount);
      PlaceMines(row, col, draws);
      firstClick := false;
    }

    /** Revealing on a board whose mines are placed: the outcome of
        RevealCell, stated against the grid before this call. */
    method RevealPlaced(row: int, col: int, ghost start: seq<seq<Cell>>) returns (safe: bool)
      requires Valid() && !firstClick && InBounds(rows, cols, (row, col)) && grid == start
      modifies this`grid, cells, this`isGameOver, this`isWon
      ensures Valid()
      ensures !start[row][col].isMine ==> safe && !grid[row][col].isMine
      ensures RevealOutcome(start, grid, rows, cols, mineCount, row, col, safe,
                            old(isGameOver), old(isWon), isGameOver, isWon)
    {
      var cell := cells[row, col];
      var (next, ok) := cell.Reveal();
      if !ok {
        return true;
      }
      if next.isMine {
        Explode(row, col);
        return false;
      }
      Uncover(row, col);
      return true;
    }

    /** Revealing a hidden mine: the game is lost and every mine is shown. */
    method Explode(row: int, col: int)
      requires Valid() && !firstClick && InBounds(rows, cols, (row, col))
      requires var t := grid[row][col]; !t.isFlagged && !t.isRevealed && t.isMine
      modifies this`grid, cells, this`isGameOver
      ensures Valid() && isGameOver
      ensures grid == RevealMines(old(grid))
    {
      ghost var start := grid;
      SetCell(row, col, cells[row, col].Reveal().0);
      isGameOver := true;
      RevealAllMines();
      GridExt(grid, RevealMines(start), rows, cols);
      assert SameLayout(start, grid, rows, cols);
      SameLayoutKeeps(start, grid, rows, cols);
      assert !firstClick && MinesCounted(grid, rows, cols);
    }

    /** Revealing a hidden safe cell: it is shown, a zero count floods its
        surroundings, and the win condition is checked. */
    method Uncover(row: int, col: int)
      requires Valid() && !firstClick && InBounds(rows, cols, (row, col))
      requires var t := grid[row][col]; !t.isFlagged && !t.isRevealed && !t.isMine
      modifies this`grid, cells, this`isGameOver, this`isWon
      ensures Valid()
      ensures FloodGrows(old(grid), grid, rows, cols) && grid[row][col].isRevealed
      ensures old(grid)[row][col].adjacentMines == 0 ==>
        Closed(grid, rows, cols, row, col) && NewZerosClosed(old(grid), grid, rows, cols)
      ensures old(grid)[row][col].adjacentMines != 0 ==> grid == RevealAt(old(grid), (row, col))
      ensures var wins := CountGrid(grid, RevealedSafe) == rows * cols - mineCount;
        isWon == (old(isWon) || wins) && isGameOver == (old(isGameOver) || wins)
    {
      ghost var start := grid;
      Open(row, col);
      FloodGrowsHidden(start, grid, rows, cols);
      SameLayoutKeeps(start, grid, rows, cols);
      assert !firstClick && MinesCounted(grid, rows, cols) && CountGrid(grid, Mine) == mineCount;
      CheckWinCondition();
    }

    /** Reveals a hidden safe cell and, when no mine touches it, flood-fills
        from it. */
    method Open(row: int, col: int)
      requires Shape() && InBounds(rows, cols, (row, col))
      requires var t := grid[row][col]; !t.isFlagged && !t.isRevealed && !t.isMine
      modifies this`grid, cells
      ensures Shape()
      ensures FloodGrows(old(grid), grid, rows, cols) && grid[row][col].isRevealed
      ensures old(grid)[row][col].adjacentMines == 0 ==>
        Closed(grid, rows, cols, row, col) && NewZerosClosed(old(grid), grid, rows, cols)
      ensures old(grid)[row][col].adjacentMines != 0 ==> grid == RevealAt(old(grid), (row, col))
    {
      ghost var start := grid;
      var next := cells[row, col].Reveal().0;
      RevealOne(start, start, rows, cols, (row, col));
      SetCell(row, col, next);
      ghost var g1 := grid;
      if next.adjacentMines == 0 {
        FloodFill(row, col);
        RevealThenFlood(start, g1, grid, rows, cols, (row, col));
        FloodGrowsTrans(start, g1, grid, rows, cols);
      }
    }
  }
}
