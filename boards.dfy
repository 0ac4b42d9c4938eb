/** The minefield: class Board of minesweeper.rb, a rows-by-columns grid of cells with
    a bomb count and the two counters `num_flags` and `num_exposed`. */
module Boards {
  import opened Value
  import opened Cells

  const MIN_ROWS := 4
  const MIN_COLUMNS := 4
  const MIN_BOMBS := 1
  const MAX_ROWS := 16
  const MAX_COLUMNS := 30
  const DEFAULT_ROWS := 9
  const DEFAULT_COLUMNS := 16

  /** A (row, column) coordinate. */
  type Pos = (int, int)

  /** The board's cells as a value: every in-bounds position to that cell's fields. */
  type Grid = map<Pos, CellState>

  /** The in-bounds positions of a rows-by-columns board. */
  function Positions(rows: int, columns: int): (r: set<Pos>)
    ensures forall p :: p in r <==> 0 <= p.0 < rows && 0 <= p.1 < columns
  {
    set i, j | 0 <= i < rows && 0 <= j < columns :: (i, j)
  }

  function RowPositions(row: int, columns: int): (r: set<Pos>)
    ensures forall p :: p in r <==> p.0 == row && 0 <= p.1 < columns
  {
    set j | 0 <= j < columns :: (row, j)
  }

  lemma {:induction false} RowPositionsCount(row: int, columns: nat)
    ensures |RowPositions(row, columns)| == columns
  {
    if columns > 0 {
      assert RowPositions(row, columns) == RowPositions(row, columns - 1) + {(row, columns - 1)};
      RowPositionsCount(row, columns - 1);
    }
  }

  /** The number of cells of a rows-by-columns board, added up row by row; it equals
      rows * columns (AreaIsProduct). */
  function Area(rows: int, columns: int): int
  {
    if rows <= 0 then 0 else Area(rows - 1, columns) + columns
  }

  lemma {:induction false} AreaIsProduct(rows: nat, columns: int)
    ensures Area(rows, columns) == rows * columns
  {
    if rows > 0 {
      AreaIsProduct(rows - 1, columns);
      assert rows * columns == (rows - 1) * columns + columns;
    }
  }

  /** A rows-by-columns board has Area(rows, columns) cells. */
  lemma {:induction false} PositionsCount(rows: nat, columns: nat)
    ensures |Positions(rows, columns)| == Area(rows, columns)
  {
    if rows > 0 {
      var top, last := Positions(rows - 1, columns), RowPositions(rows - 1, columns);
      assert Positions(rows, columns) == top + last;
      assert top !! last;
      PositionsCount(rows - 1, columns);
      RowPositionsCount(rows - 1, columns);
    }
  }

  // Sets of positions picked out of a grid value.

  function Bombs(g: Grid): set<Pos> { set p | p in g && g[p].content == Bomb }
  function Safe(g: Grid): set<Pos> { set p | p in g && g[p].content != Bomb }
  function HiddenCells(g: Grid): set<Pos> { set p | p in g && !g[p].exposed }
  function Exposed(g: Grid): set<Pos> { set p | p in g && g[p].exposed }
  function ExposedSafe(g: Grid): set<Pos> { set p | p in g && g[p].exposed && g[p].content != Bomb }
  function FlaggedCells(g: Grid): set<Pos> { set p | p in g && g[p].marking == FlagMark }

  /** The block given to apply_to_all_cells: `cell.expose` (expose_all) or
      `cell.expose if cell.bomb?` (expose_all_bombs). */
  datatype CellOp = ExposeEach | ExposeBombs

  function ApplyOp(op: CellOp, s: CellState): CellState
  {
    match op
    case ExposeEach => AfterExpose(s)
    case ExposeBombs => if s.content == Bomb then AfterExpose(s) else s
  }

  /** The grid after the block has been applied to every cell. */
  function Applied(g: Grid, op: CellOp): (r: Grid)
    ensures r.Keys == g.Keys
  {
    map p | p in g :: ApplyOp(op, g[p])
  }

  /** The block has been applied to the cells before (i, j) in row-major order. */
  ghost predicate AppliedUpTo(g0: Grid, g: Grid, op: CellOp, i: int, j: int)
  {
    g.Keys == g0.Keys &&
    forall p | p in g0 :: g[p] == if p.0 < i || (p.0 == i && p.1 < j) then ApplyOp(op, g0[p]) else g0[p]
  }

  lemma AppliedStep(g0: Grid, g: Grid, op: CellOp, i: int, j: int)
    requires AppliedUpTo(g0, g, op, i, j) && (i, j) in g
    ensures AppliedUpTo(g0, g[(i, j) := ApplyOp(op, g[(i, j)])], op, i, j + 1)
  {
  }

  lemma AppliedNextRow(g0: Grid, g: Grid, op: CellOp, i: int, columns: int)
    requires AppliedUpTo(g0, g, op, i, columns) && forall p | p in g0 :: 0 <= p.1 < columns
    ensures AppliedUpTo(g0, g, op, i + 1, 0)
  {
    forall p | p in g0
      ensures g[p] == if p.0 < i + 1 then ApplyOp(op, g0[p]) else g0[p]
    {
      assert 0 <= p.1 < columns;
    }
  }

  lemma AppliedEnd(g0: Grid, g: Grid, op: CellOp, rows: int)
    requires AppliedUpTo(g0, g, op, rows, 0) && forall p | p in g0 :: p.0 < rows
    ensures g == Applied(g0, op)
  {
  }

  class Board {
    /** @board: the rows of cells; the arrays are filled once, in the constructor. */
    const grid: seq<seq<Cell>>
    /** Where each cell object sits; it shows that no cell appears twice. */
    ghost const index: map<Cell, Pos>
    const numBombs: int
    var numFlags: int
    var numExposed: int

    function Rows(): nat
    {
      |grid|
    }

    function Columns(): nat
    {
      if |grid| == 0 then 0 else |grid[0]|
    }

    /** The shape the constructor gives a board; it never changes afterwards. */
    ghost predicate WellFormed()
    {
      && MIN_ROWS <= Rows() <= MAX_ROWS
      && MIN_COLUMNS <= Columns() <= MAX_COLUMNS
      && (forall i | 0 <= i < |grid| :: |grid[i]| == Columns())
      && (forall i, j | 0 <= i < |grid| && 0 <= j < |grid[i]| :: grid[i][j] in index && index[grid[i][j]] == (i, j))
      && MIN_BOMBS <= numBombs <= Area(Rows(), Columns()) - 9
    }

    /** The board's cells as a value. */
    ghost function Snap(): (g: Grid)
      requires WellFormed()
      reads index.Keys
      ensures g.Keys == Positions(Rows(), Columns())
      ensures forall p | p in g :: g[p] == grid[p.0][p.1].State()
    {
      map p | p in Positions(Rows(), Columns()) :: grid[p.0][p.1].State()
    }

    /** The constructor builds a new Cell for every position, so no two positions share one. */
    lemma CellsDistinct()
      requires WellFormed()
      ensures forall p, q | p in Positions(Rows(), Columns()) && q in Positions(Rows(), Columns()) && p != q ::
        grid[p.0][p.1] != grid[q.0][q.1]
    {
    }

    /** Board.new: the dimensions and the bomb count are clamped, every cell is EMPTY, hidden
        and unmarked, and both counters are zero. The skin argument only affects rendering. */
    constructor (rows: int := DEFAULT_ROWS, columns: int := DEFAULT_COLUMNS, numBombs: int := 0)
      ensures WellFormed() && fresh(index.Keys)
      ensures Rows() == Adjust(rows, MIN_ROWS, MAX_ROWS)
      ensures Columns() == Adjust(columns, MIN_COLUMNS, MAX_COLUMNS)
      ensures this.numBombs == Adjust(numBombs, MIN_BOMBS, Max(Rows() * Columns() - 9, MIN_BOMBS))
      ensures MIN_BOMBS <= this.numBombs <= Max(Rows() * Columns() - 9, MIN_BOMBS)
      ensures this.numFlags == 0 && this.numExposed == 0
      ensures forall p | p in Snap() :: Snap()[p] == CellState(Empty, false, NoMark)
    {
      var rs := Adjust(rows, MIN_ROWS, MAX_ROWS);
      var cs := Adjust(columns, MIN_COLUMNS, MAX_COLUMNS);
      var g: seq<seq<Cell>> := [];
      ghost var idx: map<Cell, Pos> := map[];
      for row := 0 to rs
        invariant |g| == row
        invariant forall i | 0 <= i < row :: |g[i]| == cs
        invariant forall i, j | 0 <= i < row && 0 <= j < cs :: g[i][j] in idx && idx[g[i][j]] == (i, j)
        invariant forall c | c in idx :: fresh(c) && c.State() == CellState(Empty, false, NoMark)
      {
        var line: seq<Cell> := [];
        ghost var before := idx;
        for column := 0 to cs
          invariant |line| == column
          invariant forall j | 0 <= j < column :: line[j] in idx && idx[line[j]] == (row, j)
          invariant forall c | c in before :: c in idx && idx[c] == before[c]
          invariant forall c | c in idx :: fresh(c) && c.State() == CellState(Empty, false, NoMark)
        {
          var cell := new Cell();
          line := line + [cell];
          idx := idx[cell := (row, column)];
        }
        g := g + [line];
      }
      grid := g;
      index := idx;
      MaxBombsIsArea(rs, cs);
      AreaIsProduct(rs, cs);
      this.numBombs := Adjust(numBombs, MIN_BOMBS, Max(rs * cs - 9, MIN_BOMBS));
      numFlags := 0;
      numExposed := 0;
    }

    /** Board#cell. */
    function CellAt(row: int, column: int): (c: Cell)
      requires WellFormed() && InBounds(row, column)
      ensures c in index.Keys && index[c] == (row, column)
    {
      grid[row][column]
    }

    /** Board#in_bounds?: exactly the positions of the board. */
    predicate InBounds(row: int, column: int)
      ensures InBounds(row, column) <==> (row, column) in Positions(Rows(), Columns())
    {
      row >= 0 && column >= 0 && row < Rows() && column < Columns()
    }

    /** Board#out_of_bounds?. */
    predicate OutOfBounds(row: int, column: int)
      ensures OutOfBounds(row, column) <==> (row, column) !in Positions(Rows(), Columns())
    {
      !InBounds(row, column)
    }

    /** Board#num_cells: rows * columns, the number of positions on the board. */
    function NumCells(): (n: int)
      ensures n == |Positions(Rows(), Columns())|
    {
      PositionsCount(Rows(), Columns());
      Area(Rows(), Columns())
    }

    /** Board#won?: the counter of exposed cells has reached the number of non-bomb cells. */
    predicate Won()
      reads this
      ensures Won() <==> numExposed + numBombs == Rows() * Columns()
    {
      AreaIsProduct(Rows(), Columns());
      numExposed == NumCells() - numBombs
    }

    /** Board#apply_to_all_cells with the block `op`, row by row. */
    method ApplyToAllCells(op: CellOp)
      requires WellFormed()
      modifies index.Keys
      ensures Snap() == Applied(old(Snap()), op)
    {
      ghost var g0 := Snap();
      for i := 0 to |grid|
        invariant AppliedUpTo(g0, Snap(), op, i, 0)
      {
        for j := 0 to |grid[i]|
          invariant AppliedUpTo(g0, Snap(), op, i, j)
        {
          var cell := grid[i][j];
          ghost var g := Snap();
          label Before:
          match op {
            case ExposeEach =>
              cell.Expose();
            case ExposeBombs =>
              if cell.IsBomb() {
                cell.Expose();
              }
          }
          SnapUpdate@Before(cell);
          AppliedStep(g0, g, op, i, j);
        }
        AppliedNextRow(g0, Snap(), op, i, Columns());
      }
      AppliedEnd(g0, Snap(), op, Rows());
    }

    /** Board#expose_all: every cell exposed and unmarked; neither counter is touched. */
    method ExposeAll()
      requires WellFormed()
      modifies index.Keys
      ensures Snap() == Applied(old(Snap()), ExposeEach)
      ensures forall p | p in Snap() :: Snap()[p].exposed
    {
      ApplyToAllCells(ExposeEach);
    }

    /** Board#expose_all_bombs: every bomb exposed and unmarked, every other cell unchanged. */
    method ExposeAllBombs()
      requires WellFormed()
      modifies index.Keys
      ensures Snap() == Applied(old(Snap()), ExposeBombs)
      ensures forall p | p in Snap() ::
        Snap()[p].exposed == (old(Snap())[p].exposed || old(Snap())[p].content == Bomb)
    {
      ApplyToAllCells(ExposeBombs);
    }

    /** After a call that changed at most the cell `c`, the grid value differs from the one
        at the labelled state in that cell only. */
    twostate lemma SnapUpdate(c: Cell)
      requires WellFormed() && c in index && index[c] in Positions(Rows(), Columns())
      requires grid[index[c].0][index[c].1] == c
      requires forall d | d in index.Keys && d != c :: old(d.State()) == d.State()
      ensures Snap() == old(Snap())[index[c] := c.State()]
    {
      var p := index[c];
      forall q | q in Snap()
        ensures Snap()[q] == old(Snap())[p := c.State()][q]
      {
        if q != p {
          assert index[grid[q.0][q.1]] == q;
        }
      }
    }
  }

  /** With at least 4 rows and 4 columns, `[rows * columns - 9, MIN_BOMBS].max` is the first. */
  lemma MaxBombsIsArea(rows: int, columns: int)
    requires rows >= MIN_ROWS && columns >= MIN_COLUMNS
    ensures rows * columns >= 16
    ensures Max(rows * columns - 9, MIN_BOMBS) == rows * columns - 9
  {
    assert rows * columns >= 4 * columns >= 16;
  }
}
