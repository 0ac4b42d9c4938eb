/** Class Move of minesweeper.rb: the moves a player makes on a Board, the placement of the
    bombs on the first expose, and the flood fill that exposes the area around an EMPTY cell. */
module Moves {
  import opened Cells
  import opened Boards
  import opened MoveSpec

  class Move {
    const board: Board
    var status: Status
    var firstExpose: bool

    /** The move and its board as a value. */
    ghost function Abs(): (s: Snapshot)
      requires board.WellFormed()
      reads this, board, board.index.Keys
      ensures Shaped(s)
    {
      Snapshot(board.Rows(), board.Columns(), board.Snap(), board.numBombs, board.numFlags,
               board.numExposed, status, firstExpose)
    }

    ghost predicate Valid()
      reads this, board, board.index.Keys
    {
      board.WellFormed() && Sound(Abs())
    }

    /** Move.new on a freshly built board: status CONTINUE, bombs still to be placed. */
    constructor (board: Board)
      requires board.WellFormed() && board.numFlags == 0 && board.numExposed == 0
      requires forall p | p in board.Snap() :: board.Snap()[p] == CellState(Empty, false, NoMark)
      ensures this.board == board && status == Continue && firstExpose
      ensures Valid()
    {
      this.board := board;
      status := Continue;
      firstExpose := true;
      new;
      FreshIsSound(Abs());
    }

    /** Move#go: nothing happens off the board; otherwise the chosen move is made on the cell,
        and the invariant between moves is kept. */
    method Go(action: Action, row: int, column: int)
      requires Valid()
      modifies this, board, board.index.Keys
      ensures Valid()
      ensures !board.InBounds(row, column) ==> Abs() == old(Abs())
      ensures board.InBounds(row, column) ==>
        match action
        case ExposeMove => ExposeOutcome(old(Abs()), Abs(), (row, column))
        case FlagMove => Abs() == FlagResult(old(Abs()), (row, column))
        case QuestionMove => Abs() == QuestionResult(old(Abs()), (row, column))
        case UnmarkMove => Abs() == UnmarkResult(old(Abs()), (row, column))
    {
      ghost var s0 := Abs();
      if board.OutOfBounds(row, column) {
        return;
      }
      match action {
        case ExposeMove =>
          Expose(row, column, {});
          ExposeKeepsSound(s0, Abs(), (row, column));
        case FlagMove =>
          Flag(row, column);
          FlagKeepsSound(s0, (row, column));
        case QuestionMove =>
          Question(row, column);
          QuestionKeepsSound(s0, (row, column));
        case UnmarkMove =>
          Unmark(row, column);
          UnmarkKeepsSound(s0, (row, column));
      }
    }

    /** Move#expose. `pending` holds the EMPTY cells whose neighbour loop is still running
        further up the recursion; it exists for the proof only. */
    method Expose(row: int, column: int, ghost pending: set<Pos>)
      requires board.WellFormed() && board.InBounds(row, column)
      requires Inv(Abs(), pending)
      modifies this, board, board.index.Keys
      decreases |HiddenCells(board.Snap())|, 1
      ensures Inv(Abs(), pending) && !firstExpose
      ensures ExposeOutcome(old(Abs()), Abs(), (row, column))
    {
      ghost var s0 := Abs();
      ghost var p := (row, column);
      var cell := board.CellAt(row, column);
      if firstExpose {
        FirstExposeUntouched(s0, pending);
        InitializeBombs(row, column);
      }
      ghost var sP := Abs();
      assert Prepared(s0, sP, p);
      PreparedFacts(s0, sP, pending, p);
      if !cell.Hidden() {
        ExposedAlready(s0, sP, pending, p);
      } else if cell.IsBomb() {
        Lose();
        LossAfterPrepared(s0, sP, Abs(), pending, p);
      } else {
        ExposeSafe(row, column, pending);
        AssembleSafe(s0, sP, Abs(), pending, p);
      }
    }

    /** The safe branch of Move#expose, on a hidden non-bomb cell after the bombs are placed:
        the cell is exposed, the flood fill runs if it is EMPTY, then won? is tested. */
    method ExposeSafe(row: int, column: int, ghost pending: set<Pos>)
      requires board.WellFormed() && board.InBounds(row, column) && !firstExpose
      requires Inv(Abs(), pending)
      requires !Abs().grid[(row, column)].exposed && Abs().grid[(row, column)].content != Bomb
      modifies this, board, board.index.Keys
      decreases |HiddenCells(board.Snap())|, 0
      ensures Inv(Abs(), pending) && !firstExpose
      ensures Progress(ExposedOne(old(Abs()), (row, column)), Abs())
      ensures Flooded(ExposedOne(old(Abs()), (row, column)), Abs(), (row, column))
      ensures WonCount(Abs()) ==> status == Won
    {
      ghost var p := (row, column);
      ghost var s0 := Abs();
      var cell := board.CellAt(row, column);
      ExposeCell(row, column);
      ghost var sA := Abs();
      ExposeOneStep(s0, pending, p);
      ExposeOneProgress(s0, p);
      if cell.IsEmpty() {
        ExposeNeighbors(row, column, pending);
      } else {
        CloseAround(sA, pending, p);
        ProgressRefl(sA);
      }
      ghost var sF := Abs();
      assert Flooded(sA, sF, p);
      CheckWon(pending);
      ProgressTrans(sA, sF, Abs());
    }

    /** The bomb branch of Move#expose: expose_all_bombs, then status LOST. */
    method Lose()
      requires board.WellFormed()
      modifies this, board.index.Keys
      ensures Abs() == old(Abs()).(grid := Applied(old(Abs()).grid, ExposeBombs), status := Lost)
    {
      board.ExposeAllBombs();
      status := Lost;
    }

    /** The first steps of the safe branch of Move#expose: a flag on the cell is given back to
        num_flags, the cell is exposed, and num_exposed goes up by one. */
    method ExposeCell(row: int, column: int)
      requires board.WellFormed() && board.InBounds(row, column)
      modifies board, board.index.Keys
      ensures Abs() == ExposedOne(old(Abs()), (row, column))
    {
      ghost var s := Abs();
      ghost var p := (row, column);
      var cell := board.CellAt(row, column);
      if cell.Flagged() {
        board.numFlags := board.numFlags - 1;
      }
      assert board.numFlags == if s.grid[p].marking == FlagMark then s.numFlags - 1 else s.numFlags;
      label BeforeExpose:
      assert board.Snap() == s.grid && cell.State() == s.grid[p];
      cell.Expose();
      assert board.Snap() == s.grid[p := AfterExpose(s.grid[p])] by {
        board.SnapUpdate@BeforeExpose(cell);
      }
      ghost var g1 := board.Snap();
      board.numExposed := board.numExposed + 1;
      assert board.Snap() == g1;
    }

    /** The won? test at the end of the safe branch of Move#expose. */
    method CheckWon(ghost pending: set<Pos>)
      requires board.WellFormed() && Inv(Abs(), pending) && !firstExpose
      modifies this, board.index.Keys
      ensures Inv(Abs(), pending) && Progress(old(Abs()), Abs())
      ensures !firstExpose && status == (if WonCount(Abs()) then Won else old(status))
      ensures status != Won ==> Abs() == old(Abs())
    {
      if board.Won() {
        Win();
        WonStep(old(Abs()), Abs(), pending);
      } else {
        ProgressRefl(Abs());
      }
    }

    /** The won? branch of Move#expose: status WON, then expose_all. */
    method Win()
      requires board.WellFormed()
      modifies this, board.index.Keys
      ensures Abs() == old(Abs()).(grid := Applied(old(Abs()).grid, ExposeEach), status := Won)
    {
      status := Won;
      board.ExposeAll();
    }

    /** Move#apply_function_to_neighbors(:expose, row, column): expose every in-bounds cell
        around the EMPTY cell at (row, column), row offset outer, column offset inner. */
    method ExposeNeighbors(row: int, column: int, ghost pending: set<Pos>)
      requires board.WellFormed() && board.InBounds(row, column) && !firstExpose
      requires Inv(Abs(), pending + {(row, column)})
      requires Abs().grid[(row, column)].exposed && Abs().grid[(row, column)].content == Empty
      modifies this, board, board.index.Keys
      decreases |HiddenCells(board.Snap())|, 3
      ensures Inv(Abs(), pending)
      ensures Progress(old(Abs()), Abs())
      ensures Flooded(old(Abs()), Abs(), (row, column))
      ensures !firstExpose
    {
      ghost var p := (row, column);
      ghost var s0 := Abs();
      assert FlagsLost(s0.grid, s0.grid) == {};
      ExposedUpToStart(s0.grid, p);
      assert Flooded(s0, s0, p);
      for i := -1 to 2
        invariant Inv(Abs(), pending + {p}) && Progress(s0, Abs()) && !firstExpose && ExposedUpTo(Abs().grid, p, i, -1)
        invariant Flooded(s0, Abs(), p)
      {
        for j := -1 to 2
          invariant Inv(Abs(), pending + {p}) && Progress(s0, Abs()) && !firstExpose && ExposedUpTo(Abs().grid, p, i, j)
          invariant Flooded(s0, Abs(), p)
        {
          ExposeNeighbor(row, column, i, j, s0, pending);
        }
        ExposedUpToNextRow(Abs().grid, p, i);
      }
      FloodDone(Abs(), pending, p);
    }

    /** One round of the neighbour loops of apply_function_to_neighbors(:expose, row, column):
        the cell at offset (i, j) is exposed when it is on the board and not the centre. */
    method ExposeNeighbor(row: int, column: int, i: int, j: int, ghost s0: Snapshot, ghost pending: set<Pos>)
      requires board.WellFormed() && !s0.firstExpose && !firstExpose && -1 <= i <= 1 && -1 <= j <= 1
      requires (row, column) in s0.grid && s0.grid[(row, column)].content == Empty
      requires Inv(Abs(), pending + {(row, column)}) && Progress(s0, Abs())
      requires ExposedUpTo(Abs().grid, (row, column), i, j) && Flooded(s0, Abs(), (row, column))
      modifies this, board, board.index.Keys
      decreases |HiddenCells(s0.grid)|, 2
      ensures board.WellFormed() && !firstExpose
      ensures Inv(Abs(), pending + {(row, column)}) && Progress(s0, Abs())
      ensures ExposedUpTo(Abs().grid, (row, column), i, j + 1) && Flooded(s0, Abs(), (row, column))
    {
      ghost var p := (row, column);
      ghost var cur := Abs();
      if !(i == 0 && j == 0) && board.InBounds(row + i, column + j) {
        assert cur.grid[(row + i, column + j)].content != Bomb && |HiddenCells(cur.grid)| <= |HiddenCells(s0.grid)| by {
          OffsetAdjacent(row, column, i, j);
          NeighborSafe(s0, cur, pending + {p}, p, (row + i, column + j));
        }
        label L:
        Expose(row + i, column + j, pending + {p});
        assert Progress(s0, Abs()) && ExposedUpTo(Abs().grid, p, i, j + 1) && Flooded(s0, Abs(), p) by {
          NeighborVisit(s0, old@L(Abs()), Abs(), row, column, i, j);
        }
      } else {
        ExposedUpToSkip(cur.grid, p, i, j);
      }
    }

    /** Move#flag. */
    method Flag(row: int, column: int)
      requires board.WellFormed() && board.InBounds(row, column)
      modifies board, board.index.Keys
      ensures Abs() == FlagResult(old(Abs()), (row, column))
    {
      ghost var g := board.Snap();
      var cell := board.CellAt(row, column);
      if cell.Hidden() && !cell.Flagged() {
        label BeforeFlag:
        cell.Flag();
        assert board.Snap() == g[(row, column) := AfterMark(g[(row, column)], FlagMark)] by {
          board.SnapUpdate@BeforeFlag(cell);
        }
        ghost var g1 := board.Snap();
        board.numFlags := board.numFlags + 1;
        assert board.Snap() == g1;
      }
    }

    /** Move#question. */
    method Question(row: int, column: int)
      requires board.WellFormed() && board.InBounds(row, column)
      modifies board.index.Keys
      ensures Abs() == QuestionResult(old(Abs()), (row, column))
    {
      ghost var g := board.Snap();
      var cell := board.CellAt(row, column);
      label BeforeQuestion:
      cell.Question();
      assert board.Snap() == g[(row, column) := AfterMark(g[(row, column)], QuestionMark)] by {
        board.SnapUpdate@BeforeQuestion(cell);
      }
    }

    /** Move#unmark. */
    method Unmark(row: int, column: int)
      requires board.WellFormed() && board.InBounds(row, column)
      modifies board, board.index.Keys
      ensures Abs() == UnmarkResult(old(Abs()), (row, column))
    {
      ghost var g := board.Snap();
      var cell := board.CellAt(row, column);
      assert cell.State() == g[(row, column)];
      if cell.Marked() {
        if cell.Flagged() {
          board.numFlags := board.numFlags - 1;
        }
        assert board.numFlags == if g[(row, column)].marking == FlagMark then old(board.numFlags) - 1 else old(board.numFlags);
        label BeforeUnmark:
        cell.Unmark();
        assert board.Snap() == g[(row, column) := AfterMark(g[(row, column)], NoMark)] by {
          board.SnapUpdate@BeforeUnmark(cell);
        }
      }
    }

    /** The test initialize_bombs puts on a draw: its cell is neither a bomb yet nor at or
        next to (row, column). */
    predicate Eligible(number: int, row: int, column: int)
      requires board.WellFormed()
      reads board.index.Keys
      ensures Eligible(number, row, column) <==>
        && 0 <= number < board.NumCells()
        && var at := ConvertToIndices(board.Rows(), number);
        && at in board.Snap() && !Neighbors(at, (row, column)) && board.Snap()[at].content != Bomb
    {
      && 0 <= number < board.NumCells()
      && var at := ConvertToIndices(board.Rows(), number);
      && board.InBounds(at.0, at.1) && !Neighbors(at, (row, column)) && !board.CellAt(at.0, at.1).IsBomb()
    }

    /** Move#initialize_bombs: place num_bombs bombs, one per round, each on a cell that is
        neither a bomb yet nor at or next to (row, column), incrementing its neighbours; then
        clear first_expose. Each round stands for the draws of `rand` up to the first one that
        passes the test. */
    method InitializeBombs(row: int, column: int)
      requires board.WellFormed() && board.InBounds(row, column)
      requires Bombs(board.Snap()) == {} && Consistent(board.Snap())
      modifies this, board.index.Keys
      ensures !firstExpose && status == old(status)
      ensures Placed(old(board.Snap()), board.Snap(), board.numBombs, (row, column))
    {
      ghost var p := (row, column);
      ghost var g0 := board.Snap();
      assert Placed(g0, g0, 0, p) by { PlacedStart(g0, p); }
      var countdown := board.numBombs;
      while countdown > 0
        invariant 0 <= countdown <= board.numBombs
        invariant Placed(g0, board.Snap(), board.numBombs - countdown, p)
        modifies board.index.Keys
        decreases countdown
      {
        PlaceOneBomb(row, column, g0, board.numBombs - countdown);
        countdown := countdown - 1;
      }
      firstExpose := false;
    }

    /** One round of the loop of Move#initialize_bombs: a cell passing the test is drawn,
        gets a bomb, and its neighbours are incremented. */
    method PlaceOneBomb(row: int, column: int, ghost g0: Grid, ghost placed: int)
      requires board.WellFormed()
      requires Placed(g0, board.Snap(), placed, (row, column)) && placed < board.numBombs
      modifies board.index.Keys
      ensures Placed(g0, board.Snap(), placed + 1, (row, column))
    {
      ghost var p := (row, column);
      ghost var g := board.Snap();
      assert exists q :: q in g && !Neighbors(q, p) && g[q].content != Bomb by {
        RoomForBomb(board.Rows(), board.Columns(), board.numBombs, g, p);
      }
      ghost var q :| q in g && !Neighbors(q, p) && g[q].content != Bomb;
      ghost var n := q.1 * board.Rows() + q.0;
      assert 0 <= n < Area(board.Rows(), board.Columns()) && ConvertToIndices(board.Rows(), n) == q by {
        ConvertToIndicesOnto(board.Rows(), board.Columns(), q);
      }
      assert Eligible(n, row, column);
      var newRandom :| Eligible(newRandom, row, column);
      assert Eligible(newRandom, row, column);
      var newIndices := ConvertToIndices(board.Rows(), newRandom);
      var newRow, newColumn := newIndices.0, newIndices.1;
      var cell := board.CellAt(newRow, newColumn);
      label BeforePlace:
      cell.PlaceBomb();
      assert board.Snap() == g[newIndices := AfterPlaceBomb(g[newIndices])] by {
        board.SnapUpdate@BeforePlace(cell);
      }
      IncrementNeighbors(newRow, newColumn);
      assert Placed(g0, board.Snap(), placed + 1, p) by {
        PlaceBombStep(g0, g, placed, p, newIndices);
      }
    }

    /** Move#apply_function_to_neighbors(:increment_cell, row, column): every in-bounds cell
        around (row, column) is incremented once. */
    method IncrementNeighbors(row: int, column: int)
      requires board.WellFormed()
      modifies board.index.Keys
      ensures board.Snap() == IncrementedAround(old(board.Snap()), (row, column))
    {
      ghost var p := (row, column);
      ghost var g0 := board.Snap();
      IncrementedUpToStart(g0, p);
      for i := -1 to 2
        invariant IncrementedUpTo(g0, board.Snap(), p, i, -1)
      {
        for j := -1 to 2
          invariant IncrementedUpTo(g0, board.Snap(), p, i, j)
        {
          IncrementNeighbor(row, column, i, j, g0);
        }
        IncrementedUpToNextRow(g0, board.Snap(), p, i);
      }
      IncrementedUpToEnd(g0, board.Snap(), p);
    }

    /** One round of the neighbour loops of apply_function_to_neighbors(:increment_cell,
        row, column): the cell at offset (i, j) is incremented when it is on the board and not
        the centre. */
    method IncrementNeighbor(row: int, column: int, i: int, j: int, ghost g0: Grid)
      requires board.WellFormed() && -1 <= i <= 1 && -1 <= j <= 1
      requires IncrementedUpTo(g0, board.Snap(), (row, column), i, j)
      modifies board.index.Keys
      ensures IncrementedUpTo(g0, board.Snap(), (row, column), i, j + 1)
    {
      ghost var g := board.Snap();
      if !(i == 0 && j == 0) && board.InBounds(row + i, column + j) {
        IncrementCell(row + i, column + j);
      }
      IncrementStep(g0, g, board.Snap(), (row, column), i, j);
    }

    /** Move#increment_cell: the cell at (row, column), when on the board, is incremented. */
    method IncrementCell(row: int, column: int)
      requires board.WellFormed()
      modifies board.index.Keys
      ensures board.Snap() ==
        if board.InBounds(row, column) then
          old(board.Snap())[(row, column) := AfterIncrement(old(board.Snap())[(row, column)])]
        else old(board.Snap())
    {
      if board.InBounds(row, column) {
        var cell := board.CellAt(row, column);
        label BeforeIncrement:
        cell.Increment();
        board.SnapUpdate@BeforeIncrement(cell);
      }
    }
  }
}
