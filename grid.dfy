/** The rectangular grid of lettered, valued cells the words are read from. */
module Grid {

  /** The program stores a cell's point value as a signed 32-bit integer. */
  newtype i32 = x: int | -0x8000_0000 <= x < 0x8000_0000

  datatype Cell = Cell(letter: char, value: i32)

  /** Cell::default: the cell every position of a new grid starts with. */
  const DefaultCell: Cell := Cell('a', 0)

  /** The rows that result from writing `cell` at (row, col): the same number of rows,
      each of its old length, `cell` at (row, col) and every other cell as before. */
  function Written(cells: seq<seq<Cell>>, row: nat, col: nat, cell: Cell): (r: seq<seq<Cell>>)
    requires row < |cells| && col < |cells[row]|
    ensures |r| == |cells|
    ensures forall i | 0 <= i < |r| :: |r[i]| == |cells[i]|
    ensures r[row][col] == cell
    ensures forall i, j | 0 <= i < |r| && 0 <= j < |r[i]| && (i, j) != (row, col) :: r[i][j] == cells[i][j]
  {
    cells[row := cells[row][col := cell]]
  }

  /** Of two writes to the same cell, the second one wins. */
  lemma LastWriteWins(cells: seq<seq<Cell>>, row: nat, col: nat, first: Cell, second: Cell)
    requires row < |cells| && col < |cells[row]|
    ensures Written(Written(cells, row, col, first), row, col, second) == Written(cells, row, col, second)
  {
    assert cells[row][col := first][col := second] == cells[row][col := second];
  }

  /** Writes to two different cells do not interfere. */
  lemma DistinctWritesCommute(cells: seq<seq<Cell>>, r1: nat, c1: nat, x: Cell, r2: nat, c2: nat, y: Cell)
    requires r1 < |cells| && c1 < |cells[r1]| && r2 < |cells| && c2 < |cells[r2]|
    requires (r1, c1) != (r2, c2)
    ensures Written(Written(cells, r1, c1, x), r2, c2, y) == Written(Written(cells, r2, c2, y), r1, c1, x)
  {
    var a := Written(Written(cells, r1, c1, x), r2, c2, y);
    var b := Written(Written(cells, r2, c2, y), r1, c1, x);
    assert forall i | 0 <= i < |a| :: a[i] == b[i];
  }

  class Grid {
    var cells: seq<seq<Cell>>
    const width: nat
    const height: nat

    /** `height` rows of `width` cells each. */
    ghost predicate Valid()
      reads this
    {
      |cells| == height && forall r | 0 <= r < |cells| :: |cells[r]| == width
    }

    /** Grid::init: `height` rows of `width` default cells. */
    constructor Init(width: nat, height: nat)
      ensures Valid()
      ensures this.width == width && this.height == height
      ensures forall r, c | 0 <= r < height && 0 <= c < width :: cells[r][c] == DefaultCell
    {
      this.width := width;
      this.height := height;
      cells := seq(height, _ => seq(width, _ => DefaultCell));
    }

    /** Grid::set_cell: overwrite the letter, then the value, of the cell at (row, col).
        Indexing outside the grid aborts the program, so the indices must be in
        range. */
    method SetCell(letter: char, value: i32, row: nat, col: nat)
      requires Valid()
      requires row < height && col < width
      modifies this
      ensures Valid()
      ensures cells == Written(old(cells), row, col, Cell(letter, value))
      ensures cells[row][col] == Cell(letter, value)
      ensures forall r, c | 0 <= r < height && 0 <= c < width && (r, c) != (row, col) ::
                cells[r][c] == old(cells[r][c])
    {
      cells := cells[row := cells[row][col := cells[row][col].(letter := letter)]];
      cells := cells[row := cells[row][col := cells[row][col].(value := value)]];
      assert cells[row] == old(cells)[row][col := Cell(letter, value)];
    }
  }
}
