/** The state of one grid position of a Minesweeper board.

    A `Cell` is a value; the board stores one per position in its grid and
    writes back the updated value wherever the JavaScript `Cell` method
    mutates the object. No cell object is ever shared between two positions,
    so writing the slot back has the same effect as the in-place update. */
module Cells {

  datatype Cell = Cell(
    row: int,
    col: int,
    isMine: bool,
    isRevealed: bool,
    isFlagged: bool,
    adjacentMines: int)
  {
    /** Reveals the cell unless it is flagged or already revealed. The second
        component reports whether the transition happened. */
    function Reveal(): (r: (Cell, bool))
      ensures r.1 <==> !isFlagged && !isRevealed
      ensures r.1 ==> r.0.isRevealed && r.0.(isRevealed := false) == this
      ensures !r.1 ==> r.0 == this
    {
      if isFlagged || isRevealed then (this, false)
      else (this.(isRevealed := true), true)
    }

    /** Flips the flag of an unrevealed cell; a revealed cell is left alone. */
    function ToggleFlag(): (r: Cell)
      ensures r.isFlagged == (if isRevealed then isFlagged else !isFlagged)
      ensures r.(isFlagged := isFlagged) == this
    {
      if isRevealed then this else this.(isFlagged := !isFlagged)
    }

    /** Marks the cell as a mine; nothing else about it changes. */
    function SetMine(): (r: Cell)
      ensures r.isMine && r.(isMine := isMine) == this
    {
      this.(isMine := true)
    }

    /** Adds one to the adjacent-mine count; nothing else about it changes. */
    function IncrementAdjacentMines(): (r: Cell)
      ensures r.adjacentMines == adjacentMines + 1
      ensures r.(adjacentMines := adjacentMines) == this
    {
      this.(adjacentMines := adjacentMines + 1)
    }
  }

  /** A freshly constructed cell at (row, col): no mine, hidden, unflagged. */
  function NewCell(row: int, col: int): (c: Cell)
    ensures c.row == row && c.col == col
    ensures !c.isMine && !c.isRevealed && !c.isFlagged && c.adjacentMines == 0
  {
    Cell(row, col, false, false, false, 0)
  }

  /** Revealing twice is the same as revealing once, and the second attempt
      always reports that nothing happened. */
  lemma RevealIdempotent(c: Cell)
    ensures c.Reveal().0.Reveal() == (c.Reveal().0, false)
  {
  }

  /** Toggling a flag twice gives back the original cell. */
  lemma ToggleFlagInvolution(c: Cell)
    ensures c.ToggleFlag().ToggleFlag() == c
  {
  }

  /** A flagged cell cannot be revealed, and a revealed cell cannot be
      flagged or unflagged. */
  lemma FlagAndRevealExclude(c: Cell)
    ensures c.isFlagged ==> c.Reveal() == (c, false)
    ensures c.isRevealed ==> c.ToggleFlag() == c
  {
  }
}
