/** The state of class Move of minesweeper.rb together with the Board it plays on, as a value;
    the invariants every move keeps; the value-level effect of each move; the pure helpers of
    Move (contiguous?, neighbors?, convert_to_indices and the neighbour enumeration of
    apply_function_to_neighbors); and the lemmas about all of them. */
module MoveSpec {
  import opened Value
  import opened Cells
  import opened Boards

  // Guards. Each of the large predicates Inv, Progress, ExposeOutcome, IncrementedUpTo and
  // Flooded is written `forall u :: Key(..., u) ==> body`, so the verifier does not unfold
  // its body at every use; a proof that needs the body states `assert Key(..., 0);` first.
  // Progress and ExposeOutcome keep their clauses in ProgressEffect and ExposeEffect, so
  // passing one of them on to a caller is a single fact rather than each clause again.
  predicate InvKey(s: Snapshot, pending: set<Pos>, u: int) { true }
  predicate ProgressKey(s0: Snapshot, s1: Snapshot, u: int) { true }
  predicate OutcomeKey(s0: Snapshot, s1: Snapshot, p: Pos, u: int) { true }
  predicate IncKey(g0: Grid, g: Grid, p: Pos, i: int, j: int, u: int) { true }
  predicate FloodKey(s0: Snapshot, s1: Snapshot, p: Pos, u: int) { true }

  datatype Status = Continue | Won | Lost

  /** TYPE_OF_MOVE: "1" Expose, "2" Flag, "3" Question, "4" Unmark. */
  datatype Action = ExposeMove | FlagMove | QuestionMove | UnmarkMove

  /** A Move and its Board at one moment: the board's shape, its cells, its bomb count and
      counters, the move's status and whether bombs are still to be placed. */
  datatype Snapshot = Snapshot(rows: int, columns: int, grid: Grid, numBombs: int,
                               numFlags: int, numExposed: int, status: Status, firstExpose: bool)

  // ---------------------------------------------------------------------------------------
  // Neighbourhoods

  /** Move#contiguous?: |a - b| <= 1. */
  predicate Contiguous(a: int, b: int)
    ensures Contiguous(a, b) <==> a == b - 1 || a == b || a == b + 1
  {
    -1 <= a - b <= 1
  }

  /** Move#neighbors?: within Chebyshev distance 1; a cell is its own neighbour here. */
  predicate Neighbors(p: Pos, q: Pos)
  {
    Contiguous(p.0, q.0) && Contiguous(p.1, q.1)
  }

  /** neighbors? is symmetric, and holds of a cell and itself. */
  lemma NeighborsSymmetric(p: Pos, q: Pos)
    ensures Neighbors(p, q) <==> Neighbors(q, p)
    ensures Neighbors(p, p)
  {
  }

  /** One of the (up to) eight cells around `p`. */
  predicate Adjacent(p: Pos, q: Pos)
  {
    Neighbors(p, q) && p != q
  }

  /** Move#convert_to_indices: row `number % rows`, column `number / rows` (column-major).
      Ruby's % and / floor; for a positive divisor they agree with Dafny's. */
  function ConvertToIndices(rows: int, number: int): (r: Pos)
    requires rows > 0
    ensures 0 <= r.0 < rows
    ensures number == r.1 * rows + r.0
  {
    (number % rows, number / rows)
  }

  /** Every draw in [0, rows * columns) names an in-bounds cell. */
  lemma ConvertToIndicesInBounds(rows: int, columns: int, number: int)
    requires rows > 0 && 0 <= number < Area(rows, columns)
    ensures ConvertToIndices(rows, number) in Positions(rows, columns)
  {
    AreaIsProduct(rows, columns);
    var r := ConvertToIndices(rows, number);
    if r.1 < 0 {
      assert r.1 * rows <= -rows by { MulMonotone(r.1, -1, rows); }
    }
    if r.1 >= columns {
      assert r.1 * rows >= columns * rows by { MulMonotone(columns, r.1, rows); }
    }
  }

  /** Every cell of the board is named by exactly one draw: column * rows + row. */
  lemma ConvertToIndicesOnto(rows: int, columns: int, q: Pos)
    requires rows > 0 && q in Positions(rows, columns)
    ensures 0 <= q.1 * rows + q.0 < Area(rows, columns)
    ensures ConvertToIndices(rows, q.1 * rows + q.0) == q
  {
    AreaIsProduct(rows, columns);
    MulMonotone(q.1 + 1, columns, rows);
    MulMonotone(0, q.1, rows);
    DivModUnique(q.1 * rows + q.0, rows, q.1, q.0);
  }

  /** Euclidean division has one quotient and one remainder. */
  lemma DivModUnique(n: int, d: int, a: int, b: int)
    requires d > 0 && 0 <= b < d && n == a * d + b
    ensures n / d == a && n % d == b
  {
    var a', b' := n / d, n % d;
    assert (a - a') * d == b' - b;
    if a > a' {
      MulMonotone(1, a - a', d);
    } else if a < a' {
      MulMonotone(1, a' - a, d);
    }
  }

  lemma MulMonotone(a: int, b: int, c: int)
    requires a <= b && c >= 0
    ensures a * c <= b * c
  {
  }

  // ---------------------------------------------------------------------------------------
  // Counting bombs and the board invariants

  /** The bombs adjacent to `p`. */
  function BombsAround(bombs: set<Pos>, p: Pos): set<Pos>
  {
    set q | q in bombs && Adjacent(p, q)
  }

  /** The content `increment` builds from EMPTY after k calls. */
  function CountContent(k: nat): Content
  {
    if k == 0 then Empty else Number(k)
  }

  /** Every non-bomb cell holds the number of bombs around it, EMPTY for none. */
  ghost predicate Consistent(g: Grid)
  {
    forall p {:trigger BombsAround(Bombs(g), p)} | p in g && g[p].content != Bomb ::
      g[p].content == CountContent(|BombsAround(Bombs(g), p)|)
  }

  /** No bomb lies at `p` or next to it. */
  ghost predicate NoBombNear(g: Grid, p: Pos)
  {
    forall q | q in g && Neighbors(q, p) :: g[q].content != Bomb
  }

  /** Every exposed EMPTY cell outside `pending` has all its neighbours exposed. */
  ghost predicate ClosedExcept(g: Grid, pending: set<Pos>)
  {
    forall p, q {:trigger Adjacent(p, q)} | p in g && q in g && p !in pending && g[p].exposed && g[p].content == Empty && Adjacent(p, q) ::
      g[q].exposed
  }

  /** The shape Board.new gives: clamped dimensions, a cell per position, a clamped bomb count. */
  ghost predicate Shaped(s: Snapshot)
  {
    && MIN_ROWS <= s.rows <= MAX_ROWS && MIN_COLUMNS <= s.columns <= MAX_COLUMNS
    && s.grid.Keys == Positions(s.rows, s.columns)
    && MIN_BOMBS <= s.numBombs <= Area(s.rows, s.columns) - 9
  }

  /** Exposed cells carry no marking: expose unmarks, and marking an exposed cell does nothing. */
  ghost predicate MarksClear(g: Grid)
  {
    forall p | p in g && g[p].exposed :: g[p].marking == NoMark
  }

  /** num_exposed counts the exposed non-bomb cells; num_flags is at least the flagged cells. */
  ghost predicate Counted(s: Snapshot)
  {
    s.numExposed == |ExposedSafe(s.grid)| && s.numFlags >= |FlaggedCells(s.grid)|
  }

  /** Every cell EMPTY and hidden: the board before the first expose. */
  ghost predicate Untouched(g: Grid)
  {
    forall p | p in g :: g[p].content == Empty && !g[p].exposed
  }

  /** Before the first expose the board is untouched; afterwards it holds num_bombs bombs and
      every other cell counts them. */
  ghost predicate Mined(s: Snapshot)
  {
    && (s.firstExpose ==> s.status == Continue && Untouched(s.grid))
    && (!s.firstExpose ==> |Bombs(s.grid)| == s.numBombs && Consistent(s.grid))
  }

  ghost predicate BombsHidden(g: Grid)
  {
    forall p | p in g && g[p].content == Bomb :: !g[p].exposed
  }

  ghost predicate BombsShown(g: Grid)
  {
    forall p | p in g && g[p].content == Bomb :: g[p].exposed
  }

  ghost predicate SafeExposed(g: Grid)
  {
    forall p | p in g && g[p].content != Bomb :: g[p].exposed
  }

  ghost predicate AllExposed(g: Grid)
  {
    forall p | p in g :: g[p].exposed
  }

  /** While the game goes on every bomb is hidden; once it ends every bomb is shown; a won
      board is exposed entirely. */
  ghost predicate StatusShown(s: Snapshot)
  {
    && (s.status == Continue ==> BombsHidden(s.grid))
    && (s.status != Continue ==> BombsShown(s.grid))
    && (s.status == Won ==> AllExposed(s.grid))
  }

  /** What holds between moves (with `pending` empty) and, with `pending` the cells on the
      recursion stack of expose, at every recursive call. */
  ghost predicate Inv(s: Snapshot, pending: set<Pos>)
  {
    forall u {:trigger InvKey(s, pending, u)} :: InvKey(s, pending, u) ==>
    Shaped(s) && MarksClear(s.grid) && Counted(s) && Mined(s) && StatusShown(s) && ClosedExcept(s.grid, pending)
  }

  /** Board#won?: the exposed counter equals num_cells - num_bombs, that is, once num_bombs
      bombs are placed, the number of non-bomb cells. */
  ghost predicate WonCount(s: Snapshot)
  {
    s.numExposed == Area(s.rows, s.columns) - s.numBombs
  }

  /** The invariant between moves: Inv, and the status is WON exactly when won? holds. */
  ghost predicate Sound(s: Snapshot)
  {
    Inv(s, {}) && (s.status == Won <==> WonCount(s))
  }

  // ---------------------------------------------------------------------------------------
  // Set facts

  lemma SubsetCard<T>(a: set<T>, b: set<T>)
    requires a <= b
    ensures |a| <= |b|
    ensures |a| == |b| ==> a == b
  {
    assert b == a + (b - a);
    assert a !! (b - a);
    if |a| == |b| {
      assert |b - a| == 0;
    }
  }

  /** The cells of a grid are its bombs and its non-bombs. */
  lemma SafeCount(s: Snapshot)
    requires Shaped(s)
    ensures |Safe(s.grid)| == Area(s.rows, s.columns) - |Bombs(s.grid)|
  {
    assert s.grid.Keys == Safe(s.grid) + Bombs(s.grid);
    assert Safe(s.grid) !! Bombs(s.grid);
    PositionsCount(s.rows, s.columns);
  }

  /** Once num_bombs bombs are on the board, won? says that every non-bomb cell is counted. */
  lemma WonCountSafe(s: Snapshot)
    requires Shaped(s) && |Bombs(s.grid)| == s.numBombs
    ensures WonCount(s) <==> s.numExposed == |Safe(s.grid)|
  {
    SafeCount(s);
  }

  // ---------------------------------------------------------------------------------------
  // What the invariant gives

  /** won? holds exactly when every non-bomb cell is exposed. */
  lemma WonCountIffAllSafeExposed(s: Snapshot, pending: set<Pos>)
    requires Inv(s, pending) && !s.firstExpose
    ensures WonCount(s) <==> SafeExposed(s.grid)
  {
    assert InvKey(s, pending, 0);
    SafeCount(s);
    assert ExposedSafe(s.grid) <= Safe(s.grid);
    SubsetCard(ExposedSafe(s.grid), Safe(s.grid));
    if SafeExposed(s.grid) {
      assert ExposedSafe(s.grid) == Safe(s.grid);
    }
    if WonCount(s) {
      forall p | p in s.grid && s.grid[p].content != Bomb
        ensures s.grid[p].exposed
      {
        assert p in Safe(s.grid);
      }
    }
  }

  /** While the game goes on no bomb is exposed, so num_exposed counts every exposed cell. */
  lemma ContinueCountsExposed(s: Snapshot, pending: set<Pos>)
    requires Inv(s, pending) && s.status == Continue
    ensures s.numExposed == |Exposed(s.grid)|
  {
    assert InvKey(s, pending, 0);
    assert Exposed(s.grid) == ExposedSafe(s.grid);
  }

  /** A WON status means every cell, bomb or not, is exposed and unmarked, and won? holds. */
  lemma WonMeansAllExposed(s: Snapshot)
    requires Sound(s) && s.status == Won
    ensures WonCount(s)
    ensures forall p | p in s.grid :: s.grid[p].exposed && s.grid[p].marking == NoMark
  {
    assert InvKey(s, {}, 0);
  }

  /** An EMPTY cell has no bomb around it, so the flood fill never reaches a bomb. */
  lemma EmptyHasSafeNeighbors(g: Grid, p: Pos, q: Pos)
    requires Consistent(g) && p in g && q in g && g[p].content == Empty && Adjacent(p, q)
    ensures g[q].content != Bomb
  {
    assert g[p].content == CountContent(|BombsAround(Bombs(g), p)|);
    assert BombsAround(Bombs(g), p) == {};
    assert q !in BombsAround(Bombs(g), p);
  }

  /** With no bomb at or next to `p`, the cell at `p` is EMPTY. */
  lemma NoBombNearMeansEmpty(g: Grid, p: Pos)
    requires Consistent(g) && NoBombNear(g, p) && p in g
    ensures g[p].content == Empty
  {
    assert g[p].content != Bomb by { assert Neighbors(p, p); }
    forall q | q in BombsAround(Bombs(g), p)
      ensures false
    {
      assert Neighbors(q, p);
    }
    assert BombsAround(Bombs(g), p) == {};
  }

  // ---------------------------------------------------------------------------------------
  // Relations between two grids

  ghost predicate SameContents(g0: Grid, g1: Grid)
  {
    g0.Keys == g1.Keys && forall q | q in g0 :: g1[q].content == g0[q].content
  }

  /** Contents and exposure as before; only markings may differ. */
  ghost predicate SameLayout(g0: Grid, g1: Grid)
  {
    SameContents(g0, g1) && forall q | q in g0 :: g1[q].exposed == g0[q].exposed
  }

  /** Exposure and marking of every cell as before; only contents may differ. */
  ghost predicate SameCover(g0: Grid, g1: Grid)
  {
    g0.Keys == g1.Keys && forall q | q in g0 :: g1[q].exposed == g0[q].exposed && g1[q].marking == g0[q].marking
  }

  /** Exposure only grows, and a cell still hidden keeps its marking. */
  ghost predicate Grows(g0: Grid, g1: Grid)
  {
    g0.Keys == g1.Keys &&
    forall q | q in g0 :: (g0[q].exposed ==> g1[q].exposed) && (!g1[q].exposed ==> g1[q].marking == g0[q].marking)
  }

  lemma ConsistentSameContents(g0: Grid, g1: Grid)
    requires SameContents(g0, g1)
    ensures Bombs(g1) == Bombs(g0)
    ensures Consistent(g0) ==> Consistent(g1)
  {
    assert Bombs(g1) == Bombs(g0);
  }

  /** A change of markings alone keeps the invariant, given the marks and flag counter agree. */
  lemma LayoutKeeps(s: Snapshot, r: Snapshot, pending: set<Pos>)
    requires Inv(s, pending) && SameLayout(s.grid, r.grid)
    requires r == s.(grid := r.grid, numFlags := r.numFlags)
    requires MarksClear(r.grid) && r.numFlags >= |FlaggedCells(r.grid)|
    ensures Inv(r, pending)
  {
    assert InvKey(s, pending, 0);
    assert ExposedSafe(r.grid) == ExposedSafe(s.grid);
    ConsistentSameContents(s.grid, r.grid);
  }

  lemma MarkLayout(g: Grid, p: Pos, m: Marking)
    requires p in g
    ensures SameLayout(g, g[p := AfterMark(g[p], m)])
    ensures MarksClear(g) ==> MarksClear(g[p := AfterMark(g[p], m)])
  {
  }

  // ---------------------------------------------------------------------------------------
  // Flag, question, unmark

  /** Move#flag: a hidden cell not yet flagged is flagged and num_flags goes up by one;
      otherwise nothing changes. The difference num_flags - (flagged cells) is kept. */
  function FlagResult(s: Snapshot, p: Pos): (r: Snapshot)
    requires p in s.grid
    ensures r.grid.Keys == s.grid.Keys
    ensures s.grid[p].exposed || s.grid[p].marking == FlagMark ==> r == s
    ensures r.numFlags - |FlaggedCells(r.grid)| == s.numFlags - |FlaggedCells(s.grid)|
  {
    var c := s.grid[p];
    if !c.exposed && c.marking != FlagMark then
      assert FlaggedCells(s.grid[p := AfterMark(c, FlagMark)]) == FlaggedCells(s.grid) + {p};
      s.(grid := s.grid[p := AfterMark(c, FlagMark)], numFlags := s.numFlags + 1)
    else s
  }

  /** Move#question: Cell#question marks the cell if it is hidden; num_flags is not touched,
      so questioning a flagged cell leaves num_flags one above the flagged cells. */
  function QuestionResult(s: Snapshot, p: Pos): (r: Snapshot)
    requires p in s.grid
    ensures r.grid.Keys == s.grid.Keys
    ensures r.numFlags == s.numFlags
    ensures |FlaggedCells(r.grid)| == |FlaggedCells(s.grid)| - (if !s.grid[p].exposed && s.grid[p].marking == FlagMark then 1 else 0)
  {
    var c := s.grid[p];
    var g := s.grid[p := AfterMark(c, QuestionMark)];
    if !c.exposed && c.marking == FlagMark then
      assert FlaggedCells(g) == FlaggedCells(s.grid) - {p};
      s.(grid := g)
    else
      assert FlaggedCells(g) == FlaggedCells(s.grid);
      s.(grid := g)
  }

  /** Move#unmark: a marked cell loses its marking, and num_flags goes down by one if it was
      a flag. The difference num_flags - (flagged cells) is kept. */
  function UnmarkResult(s: Snapshot, p: Pos): (r: Snapshot)
    requires p in s.grid
    ensures r.grid.Keys == s.grid.Keys
    ensures s.grid[p].marking == NoMark ==> r == s
    ensures r.numFlags - |FlaggedCells(r.grid)| == s.numFlags - |FlaggedCells(s.grid)| || s.grid[p].exposed
  {
    var c := s.grid[p];
    if c.marking != NoMark then
      var g := s.grid[p := AfterMark(c, NoMark)];
      if c.marking == FlagMark then
        assert !c.exposed ==> FlaggedCells(g) == FlaggedCells(s.grid) - {p};
        s.(grid := g, numFlags := s.numFlags - 1)
      else
        assert FlaggedCells(g) == FlaggedCells(s.grid);
        s.(grid := g)
    else s
  }

  /** Flagging a hidden, unflagged cell and then unmarking it restores num_flags, and leaves
      the cell hidden and unmarked. */
  lemma FlagThenUnmark(s: Snapshot, p: Pos)
    requires p in s.grid && !s.grid[p].exposed && s.grid[p].marking != FlagMark
    ensures FlagResult(s, p).numFlags == s.numFlags + 1
    ensures UnmarkResult(FlagResult(s, p), p).numFlags == s.numFlags
    ensures UnmarkResult(FlagResult(s, p), p).grid == s.grid[p := s.grid[p].(marking := NoMark)]
  {
  }

  /** Questioning a flagged hidden cell breaks `num_flags == flagged cells`. */
  lemma QuestionOnFlagMiscounts(s: Snapshot, p: Pos)
    requires p in s.grid && !s.grid[p].exposed && s.grid[p].marking == FlagMark
    requires s.numFlags == |FlaggedCells(s.grid)|
    ensures QuestionResult(s, p).numFlags == |FlaggedCells(QuestionResult(s, p).grid)| + 1
  {
  }

  lemma FlagKeepsSound(s: Snapshot, p: Pos)
    requires Sound(s) && p in s.grid
    ensures Sound(FlagResult(s, p))
  {
    assert InvKey(s, {}, 0);
    var r := FlagResult(s, p);
    if r != s {
      MarkLayout(s.grid, p, FlagMark);
      LayoutKeeps(s, r, {});
    }
  }

  lemma QuestionKeepsSound(s: Snapshot, p: Pos)
    requires Sound(s) && p in s.grid
    ensures Sound(QuestionResult(s, p))
  {
    assert InvKey(s, {}, 0);
    MarkLayout(s.grid, p, QuestionMark);
    LayoutKeeps(s, QuestionResult(s, p), {});
  }

  lemma UnmarkKeepsSound(s: Snapshot, p: Pos)
    requires Sound(s) && p in s.grid
    ensures Sound(UnmarkResult(s, p))
  {
    assert InvKey(s, {}, 0);
    var r := UnmarkResult(s, p);
    if r != s {
      MarkLayout(s.grid, p, NoMark);
      LayoutKeeps(s, r, {});
    }
  }

  // ---------------------------------------------------------------------------------------
  // Bomb placement

  /** The grid after a bomb placed at `q` has incremented every cell around it. */
  function IncrementedAround(g: Grid, q: Pos): (r: Grid)
    ensures r.Keys == g.Keys
  {
    map x | x in g :: if Adjacent(x, q) then AfterIncrement(g[x]) else g[x]
  }

  /** What initialize_bombs promises: only contents changed, exactly `numBombs` bombs,
      none at or next to the first exposed cell, every other cell counting its bombs. */
  ghost predicate Placed(g0: Grid, g1: Grid, numBombs: int, p: Pos)
  {
    SameCover(g0, g1) && |Bombs(g1)| == numBombs && NoBombNear(g1, p) && Consistent(g1)
  }

  /** A bomb-free board of EMPTY cells counts its bombs correctly. */
  lemma UntouchedConsistent(g: Grid)
    requires Untouched(g)
    ensures Consistent(g) && Bombs(g) == {}
  {
    assert Bombs(g) == {};
    forall p | p in g
      ensures BombsAround(Bombs(g), p) == {}
    {
    }
  }

  /** Before the first expose no bomb has been placed and every count is right. */
  lemma FirstExposeUntouched(s: Snapshot, pending: set<Pos>)
    requires Inv(s, pending) && s.firstExpose
    ensures Bombs(s.grid) == {} && Consistent(s.grid)
  {
    assert InvKey(s, pending, 0);
    UntouchedConsistent(s.grid);
  }

  /** Placing one more bomb and incrementing its neighbours keeps every count right. */
  lemma PlaceBombKeepsConsistent(g: Grid, q: Pos)
    requires Consistent(g) && q in g && g[q].content != Bomb
    ensures Bombs(IncrementedAround(g[q := AfterPlaceBomb(g[q])], q)) == Bombs(g) + {q}
    ensures Consistent(IncrementedAround(g[q := AfterPlaceBomb(g[q])], q))
    ensures SameCover(g, IncrementedAround(g[q := AfterPlaceBomb(g[q])], q))
  {
    var g1 := IncrementedAround(g[q := AfterPlaceBomb(g[q])], q);
    assert Bombs(g1) == Bombs(g) + {q};
    forall x | x in g1 && g1[x].content != Bomb
      ensures g1[x].content == CountContent(|BombsAround(Bombs(g1), x)|)
    {
      var k := |BombsAround(Bombs(g), x)|;
      assert g[x].content == CountContent(k);
      if Adjacent(x, q) {
        assert BombsAround(Bombs(g1), x) == BombsAround(Bombs(g), x) + {q};
      } else {
        assert BombsAround(Bombs(g1), x) == BombsAround(Bombs(g), x);
      }
    }
  }

  /** Before the first round of initialize_bombs: no bomb yet, and every count right. */
  lemma PlacedStart(g0: Grid, p: Pos)
    requires Bombs(g0) == {} && Consistent(g0)
    ensures Placed(g0, g0, 0, p)
  {
    forall q | q in g0
      ensures g0[q].content != Bomb
    {
      assert q !in Bombs(g0);
    }
  }

  /** One round of the initialize_bombs loop that places the k+1-th bomb at `q`, away from `p`. */
  lemma PlaceBombStep(g0: Grid, g: Grid, k: int, p: Pos, q: Pos)
    requires Placed(g0, g, k, p)
    requires q in g && g[q].content != Bomb && !Neighbors(q, p)
    ensures Placed(g0, IncrementedAround(g[q := AfterPlaceBomb(g[q])], q), k + 1, p)
  {
    PlaceBombKeepsConsistent(g, q);
  }

  /** At most nine cells lie at or next to `p`. */
  lemma ZoneSize(g: Grid, p: Pos)
    ensures |set q | q in g && Neighbors(q, p)| <= 9
  {
    var zone := set q | q in g && Neighbors(q, p);
    var nine := {(p.0 - 1, p.1 - 1), (p.0 - 1, p.1), (p.0 - 1, p.1 + 1),
                 (p.0, p.1 - 1), (p.0, p.1), (p.0, p.1 + 1),
                 (p.0 + 1, p.1 - 1), (p.0 + 1, p.1), (p.0 + 1, p.1 + 1)};
    forall q | q in zone
      ensures q in nine
    {
      assert q.0 == p.0 - 1 || q.0 == p.0 || q.0 == p.0 + 1;
      assert q.1 == p.1 - 1 || q.1 == p.1 || q.1 == p.1 + 1;
    }
    SubsetCard(zone, nine);
  }

  /** While fewer than num_bombs bombs are placed, some cell is free and away from `p`:
      at most 9 cells lie at or next to `p`, and num_bombs <= rows * columns - 9. */
  lemma RoomForBomb(rows: nat, columns: nat, numBombs: int, g: Grid, p: Pos)
    requires g.Keys == Positions(rows, columns) && numBombs <= Area(rows, columns) - 9
    requires |Bombs(g)| < numBombs && NoBombNear(g, p)
    ensures exists q :: q in g && !Neighbors(q, p) && g[q].content != Bomb
  {
    var zone := set q | q in g && Neighbors(q, p);
    ZoneSize(g, p);
    var free := g.Keys - zone - Bombs(g);
    assert g.Keys <= free + zone + Bombs(g);
    PositionsCount(rows, columns);
    assert |g.Keys| <= |free| + |zone| + |Bombs(g)| by {
      SubsetCard(g.Keys, free + zone + Bombs(g));
    }
    var q :| q in free;
  }

  // ---------------------------------------------------------------------------------------
  // The neighbour loops of apply_function_to_neighbors: offsets (i, j) run over -1..1 with
  // i outer and j inner, skipping (0, 0).

  /** The offset of `q` from `p` comes before (i, j) in the loop order. */
  predicate Visited(p: Pos, q: Pos, i: int, j: int)
  {
    q.0 - p.0 < i || (q.0 - p.0 == i && q.1 - p.1 < j)
  }

  /** The grid after increment_cell has been called on every neighbour of `p` before (i, j). */
  ghost predicate IncrementedUpTo(g0: Grid, g: Grid, p: Pos, i: int, j: int)
  {
    forall u {:trigger IncKey(g0, g, p, i, j, u)} :: IncKey(g0, g, p, i, j, u) ==>
    g.Keys == g0.Keys &&
    forall x | x in g0 :: g[x] == if Adjacent(x, p) && Visited(p, x, i, j) then AfterIncrement(g0[x]) else g0[x]
  }

  lemma IncrementedUpToStart(g0: Grid, p: Pos)
    ensures IncrementedUpTo(g0, g0, p, -1, -1)
  {
  }

  /** One pass of the inner loop: the cell at offset (i, j) is incremented if it is a
      neighbour on the board. */
  lemma IncrementStep(g0: Grid, g: Grid, g1: Grid, p: Pos, i: int, j: int)
    requires IncrementedUpTo(g0, g, p, i, j) && -1 <= i <= 1 && -1 <= j <= 1
    requires var q := (p.0 + i, p.1 + j);
      g1 == if !(i == 0 && j == 0) && q in g then g[q := AfterIncrement(g[q])] else g
    ensures IncrementedUpTo(g0, g1, p, i, j + 1)
  {
    assert IncKey(g0, g, p, i, j, 0);
  }

  lemma IncrementedUpToNextRow(g0: Grid, g: Grid, p: Pos, i: int)
    requires IncrementedUpTo(g0, g, p, i, 2)
    ensures IncrementedUpTo(g0, g, p, i + 1, -1)
  {
    assert IncKey(g0, g, p, i, 2, 0);
  }

  /** After the last offset every cell around `p` has been incremented once. */
  lemma IncrementedUpToEnd(g0: Grid, g: Grid, p: Pos)
    requires IncrementedUpTo(g0, g, p, 2, -1)
    ensures g == IncrementedAround(g0, p)
  {
    assert IncKey(g0, g, p, 2, -1, 0);
  }

  /** Every neighbour of `p` before (i, j) is exposed. */
  ghost predicate ExposedUpTo(g: Grid, p: Pos, i: int, j: int)
  {
    forall q | q in g && Adjacent(p, q) && Visited(p, q, i, j) :: g[q].exposed
  }

  lemma ExposedUpToStart(g: Grid, p: Pos)
    ensures ExposedUpTo(g, p, -1, -1)
  {
  }

  /** An offset the inner loop passes over: (0, 0), or off the board. */
  lemma ExposedUpToSkip(g: Grid, p: Pos, i: int, j: int)
    requires ExposedUpTo(g, p, i, j) && ((i == 0 && j == 0) || (p.0 + i, p.1 + j) !in g)
    ensures ExposedUpTo(g, p, i, j + 1)
  {
  }

  lemma ExposedUpToNextRow(g: Grid, p: Pos, i: int)
    requires ExposedUpTo(g, p, i, 2)
    ensures ExposedUpTo(g, p, i + 1, -1)
  {
  }

  // ---------------------------------------------------------------------------------------
  // Expose

  /** The flags removed from non-bomb cells between two grids. */
  function FlagsLost(g0: Grid, g1: Grid): set<Pos>
  {
    (FlaggedCells(g0) - FlaggedCells(g1)) - Bombs(g1)
  }

  /** The non-bomb cells exposed between two grids. */
  function NewlyExposedSafe(g0: Grid, g1: Grid): set<Pos>
  {
    set q | q in g0 && q in g1 && g1[q].exposed && !g0[q].exposed && g1[q].content != Bomb
  }

  /** A route the recursion of expose can take: from cell to adjacent cell, leaving only
      cells that are EMPTY in `g`, and passing only through cells hidden in `h` (the first
      cell, where the route starts, may already be exposed). */
  ghost predicate FloodPath(h: Grid, g: Grid, path: seq<Pos>)
  {
    && |path| >= 1
    && (forall k | 0 <= k < |path| :: path[k] in h && path[k] in g)
    && (forall k | 0 <= k < |path| - 1 :: Adjacent(path[k], path[k + 1]) && g[path[k]].content == Empty)
    && (forall k | 0 < k < |path| - 1 :: !h[path[k]].exposed)
  }

  /** `q` is `p` itself, or lies next to an EMPTY cell the flood from `p` reaches through
      cells hidden in `h`. */
  ghost predicate Reaches(h: Grid, g: Grid, p: Pos, q: Pos)
  {
    exists path {:trigger FloodPath(h, g, path)} :: FloodPath(h, g, path) && path[0] == p && path[|path| - 1] == q
  }

  /** Short of WON, every cell exposed between `s0` and `s1` is reached by the flood from `p`
      over the cells hidden in `s0`: expose recurses only into the neighbours of an EMPTY cell
      it has just exposed. */
  ghost predicate Flooded(s0: Snapshot, s1: Snapshot, p: Pos)
  {
    forall u {:trigger FloodKey(s0, s1, p, u)} :: FloodKey(s0, s1, p, u) ==>
    s1.status != Won ==>
      forall q | q in s1.grid && s1.grid[q].exposed && q in s0.grid && !s0.grid[q].exposed :: Reaches(s0.grid, s1.grid, p, q)
  }

  lemma ReachesSelf(h: Grid, g: Grid, p: Pos)
    requires p in h && p in g
    ensures Reaches(h, g, p, p)
  {
    assert FloodPath(h, g, [p]);
  }

  /** A route through cells hidden in `h2` is a route through cells hidden in `h` when every
      cell hidden in `h2` is hidden in `h`; its contents may be read off any grid with the same
      contents. */
  lemma ReachesWiden(h: Grid, h2: Grid, g: Grid, g2: Grid, p: Pos, q: Pos)
    requires Reaches(h2, g, p, q)
    requires h2.Keys <= h.Keys && forall x | x in h2 && !h2[x].exposed :: !h[x].exposed
    requires SameContents(g, g2)
    ensures Reaches(h, g2, p, q)
  {
    var path :| FloodPath(h2, g, path) && path[0] == p && path[|path| - 1] == q;
    assert FloodPath(h, g2, path);
  }

  /** A route from the hidden neighbour `q` of the EMPTY cell `p` extends back to `p`. */
  lemma ReachesPrepend(h: Grid, g: Grid, p: Pos, q: Pos, y: Pos)
    requires Reaches(h, g, q, y)
    requires p in h && p in g && g[p].content == Empty && Adjacent(p, q)
    requires q in h && !h[q].exposed
    ensures Reaches(h, g, p, y)
  {
    var path :| FloodPath(h, g, path) && path[0] == q && path[|path| - 1] == y;
    var path2 := [p] + path;
    assert forall k | 0 < k < |path2| :: path2[k] == path[k - 1];
    assert FloodPath(h, g, path2);
  }

  /** How a stretch of flood fill (and the final WON step) changes the state: contents stay,
      exposure grows, num_flags loses one per flag on a newly exposed non-bomb cell, the status
      stays or becomes WON, and short of WON only non-bomb cells are newly exposed. */
  ghost predicate Progress(s0: Snapshot, s1: Snapshot)
  {
    forall u {:trigger ProgressKey(s0, s1, u)} :: ProgressKey(s0, s1, u) ==> ProgressEffect(s0, s1)
  }

  /** The clauses of Progress. */
  ghost predicate ProgressEffect(s0: Snapshot, s1: Snapshot)
  {
    && s1.rows == s0.rows && s1.columns == s0.columns && s1.numBombs == s0.numBombs
    && s1.firstExpose == s0.firstExpose
    && SameContents(s0.grid, s1.grid)
    && Grows(s0.grid, s1.grid)
    && FlaggedCells(s1.grid) <= FlaggedCells(s0.grid)
    && s1.numFlags == s0.numFlags - |FlagsLost(s0.grid, s1.grid)|
    && (s1.status == s0.status || s1.status == Won)
    && (s1.status != Won ==> forall q | q in s1.grid && s1.grid[q].exposed && !s0.grid[q].exposed :: s1.grid[q].content != Bomb)
  }

  /** What Move#expose at `p` does, from `s0` to `s1`:
      - bombs get placed on the first call, none at or next to `p`;
      - an exposed cell: nothing changes;
      - a hidden bomb: every bomb is exposed and unmarked, nothing else changes, status LOST;
      - a hidden non-bomb cell: it is exposed, the flood fill exposes more but (short of WON)
        only cells it reaches from `p` through EMPTY cells, and the status is WON exactly when
        won? holds afterwards, otherwise what it was. */
  ghost predicate ExposeOutcome(s0: Snapshot, s1: Snapshot, p: Pos)
    requires p in s0.grid
  {
    forall u {:trigger OutcomeKey(s0, s1, p, u)} :: OutcomeKey(s0, s1, p, u) ==> ExposeEffect(s0, s1, p)
  }

  /** The clauses of ExposeOutcome. */
  ghost predicate ExposeEffect(s0: Snapshot, s1: Snapshot, p: Pos)
    requires p in s0.grid
  {
    && s1.rows == s0.rows && s1.columns == s0.columns && s1.numBombs == s0.numBombs
    && s1.grid.Keys == s0.grid.Keys
    && !s1.firstExpose
    && (if s0.firstExpose then NoBombNear(s1.grid, p) else SameContents(s0.grid, s1.grid))
    && Grows(s0.grid, s1.grid)
    && FlaggedCells(s1.grid) <= FlaggedCells(s0.grid)
    && s1.numFlags == s0.numFlags - |FlagsLost(s0.grid, s1.grid)|
    && (s0.grid[p].exposed ==> s1 == s0)
    && (!s0.grid[p].exposed && s1.grid[p].content == Bomb ==>
          s1 == s0.(grid := Applied(s0.grid, ExposeBombs), status := Lost))
    && (!s0.grid[p].exposed && s1.grid[p].content != Bomb ==>
          && s1.grid[p].exposed
          && Flooded(s0, s1, p)
          && s1.status == (if WonCount(s1) then Won else s0.status)
          && (s1.status != Won ==> forall q | q in s1.grid && s1.grid[q].exposed && !s0.grid[q].exposed :: s1.grid[q].content != Bomb))
  }

  /** Between entering expose at `p` and testing `cell.hidden?`: on the first expose the bombs
      have been placed away from `p` and first_expose cleared; otherwise nothing has changed. */
  ghost predicate Prepared(s0: Snapshot, sP: Snapshot, p: Pos)
  {
    if s0.firstExpose then Placed(s0.grid, sP.grid, s0.numBombs, p) && sP == s0.(grid := sP.grid, firstExpose := false)
    else sP == s0
  }

  lemma SplitRemoved<T>(fa: set<T>, fb: set<T>, fc: set<T>, bombs: set<T>)
    requires fc <= fb <= fa
    ensures (fa - fc) - bombs == ((fa - fb) - bombs) + ((fb - fc) - bombs)
    ensures ((fa - fb) - bombs) !! ((fb - fc) - bombs)
  {
  }

  lemma FlagsLostTrans(a: Grid, b: Grid, c: Grid)
    requires SameContents(b, c) && FlaggedCells(c) <= FlaggedCells(b) <= FlaggedCells(a)
    ensures |FlagsLost(a, c)| == |FlagsLost(a, b)| + |FlagsLost(b, c)|
  {
    ConsistentSameContents(b, c);
    SplitRemoved(FlaggedCells(a), FlaggedCells(b), FlaggedCells(c), Bombs(c));
  }

  lemma GrowsTrans(a: Grid, b: Grid, c: Grid)
    requires Grows(a, b) && Grows(b, c)
    ensures Grows(a, c)
  {
  }

  lemma ProgressRefl(s: Snapshot)
    ensures Progress(s, s)
  {
    assert FlagsLost(s.grid, s.grid) == {};
  }

  lemma ProgressTrans(a: Snapshot, b: Snapshot, c: Snapshot)
    requires Progress(a, b) && Progress(b, c)
    ensures Progress(a, c)
  {
    assert ProgressKey(a, b, 0) && ProgressKey(b, c, 0);
    FlagsLostTrans(a.grid, b.grid, c.grid);
    GrowsTrans(a.grid, b.grid, c.grid);
  }

  /** After the first-expose placement (or none): the invariant carries over, first_expose is
      false, no cell was exposed, and on the first expose the cell at `p` is hidden and EMPTY. */
  lemma PreparedFacts(s0: Snapshot, sP: Snapshot, pending: set<Pos>, p: Pos)
    requires Inv(s0, pending) && p in s0.grid && Prepared(s0, sP, p)
    ensures Inv(sP, pending) && !sP.firstExpose
    ensures sP.grid.Keys == s0.grid.Keys && HiddenCells(sP.grid) == HiddenCells(s0.grid)
    ensures s0.firstExpose ==> sP.grid[p].content == Empty && !sP.grid[p].exposed
  {
    assert InvKey(s0, pending, 0);
    if s0.firstExpose {
      assert ExposedSafe(sP.grid) == {};
      assert ExposedSafe(s0.grid) == {};
      assert FlaggedCells(sP.grid) == FlaggedCells(s0.grid);
      assert HiddenCells(sP.grid) == HiddenCells(s0.grid);
      NoBombNearMeansEmpty(sP.grid, p);
    }
  }

  /** expose on a cell already exposed changes nothing (and that cannot be the first expose). */
  lemma ExposedAlready(s0: Snapshot, sP: Snapshot, pending: set<Pos>, p: Pos)
    requires Inv(s0, pending) && p in s0.grid && Prepared(s0, sP, p) && sP.grid[p].exposed
    ensures ExposeOutcome(s0, sP, p)
  {
    PreparedFacts(s0, sP, pending, p);
    assert sP == s0;
    assert FlagsLost(s0.grid, s0.grid) == {};
  }

  /** expose_all_bombs on a grid. */
  lemma ExposeBombsFacts(g: Grid, pending: set<Pos>)
    ensures var g1 := Applied(g, ExposeBombs);
      && SameContents(g, g1) && Grows(g, g1) && BombsShown(g1)
      && ExposedSafe(g1) == ExposedSafe(g) && FlaggedCells(g1) <= FlaggedCells(g) && FlagsLost(g, g1) == {}
      && (MarksClear(g) ==> MarksClear(g1))
      && (ClosedExcept(g, pending) ==> ClosedExcept(g1, pending))
  {
    var g1 := Applied(g, ExposeBombs);
    assert ExposedSafe(g1) == ExposedSafe(g);
    assert FlagsLost(g, g1) == {};
  }

  /** Exposing a hidden bomb: expose_all_bombs and LOST keep the invariant. */
  lemma LossStep(s: Snapshot, s1: Snapshot, pending: set<Pos>, p: Pos)
    requires Inv(s, pending) && !s.firstExpose && p in s.grid
    requires !s.grid[p].exposed && s.grid[p].content == Bomb
    requires s1 == s.(grid := Applied(s.grid, ExposeBombs), status := Lost)
    ensures Inv(s1, pending) && ExposeOutcome(s, s1, p)
  {
    LossKeepsInv(s, s1, pending, p);
    LossOutcome(s, s1, pending, p);
  }

  lemma LossKeepsInv(s: Snapshot, s1: Snapshot, pending: set<Pos>, p: Pos)
    requires Inv(s, pending) && !s.firstExpose && p in s.grid
    requires !s.grid[p].exposed && s.grid[p].content == Bomb
    requires s1 == s.(grid := Applied(s.grid, ExposeBombs), status := Lost)
    ensures Inv(s1, pending)
  {
    assert InvKey(s, pending, 0);
    ExposeBombsFacts(s.grid, pending);
    SubsetCard(FlaggedCells(s1.grid), FlaggedCells(s.grid));
    ConsistentSameContents(s.grid, s1.grid);
  }

  lemma LossOutcome(s: Snapshot, s1: Snapshot, pending: set<Pos>, p: Pos)
    requires Inv(s, pending) && !s.firstExpose && p in s.grid
    requires !s.grid[p].exposed && s.grid[p].content == Bomb
    requires s1 == s.(grid := Applied(s.grid, ExposeBombs), status := Lost)
    ensures ExposeOutcome(s, s1, p)
  {
    assert InvKey(s, pending, 0);
    ExposeBombsFacts(s.grid, pending);
    SubsetCard(FlaggedCells(s1.grid), FlaggedCells(s.grid));
    ConsistentSameContents(s.grid, s1.grid);
  }

  /** The hidden cell tested is a bomb: that is never the first expose, so nothing was placed. */
  lemma LossAfterPrepared(s0: Snapshot, sP: Snapshot, s1: Snapshot, pending: set<Pos>, p: Pos)
    requires Inv(s0, pending) && p in s0.grid && Prepared(s0, sP, p)
    requires !sP.grid[p].exposed && sP.grid[p].content == Bomb
    requires s1 == sP.(grid := Applied(sP.grid, ExposeBombs), status := Lost)
    ensures Inv(s1, pending) && ExposeOutcome(s0, s1, p)
  {
    PreparedFacts(s0, sP, pending, p);
    assert sP == s0;
    LossStep(sP, s1, pending, p);
  }

  /** Exposing one hidden non-bomb cell: the sets it changes. */
  lemma ExposeCellSets(g: Grid, p: Pos)
    requires p in g && !g[p].exposed && g[p].content != Bomb
    ensures var g1 := g[p := AfterExpose(g[p])];
      && ExposedSafe(g1) == ExposedSafe(g) + {p} && p !in ExposedSafe(g)
      && HiddenCells(g1) == HiddenCells(g) - {p} && p in HiddenCells(g)
      && FlaggedCells(g1) == FlaggedCells(g) - {p}
      && FlagsLost(g, g1) == (if g[p].marking == FlagMark then {p} else {})
  {
    var g1 := g[p := AfterExpose(g[p])];
    assert ExposedSafe(g1) == ExposedSafe(g) + {p};
    assert HiddenCells(g1) == HiddenCells(g) - {p};
    assert FlaggedCells(g1) == FlaggedCells(g) - {p};
    assert Bombs(g1) == Bombs(g);
  }

  /** Exposing one hidden non-bomb cell: the parts of the invariant it keeps. */
  lemma ExposeCellKeeps(g: Grid, p: Pos, pending: set<Pos>)
    requires p in g && !g[p].exposed && g[p].content != Bomb
    ensures var g1 := g[p := AfterExpose(g[p])];
      && SameContents(g, g1) && Grows(g, g1)
      && (MarksClear(g) ==> MarksClear(g1))
      && (ClosedExcept(g, pending) ==> ClosedExcept(g1, pending + {p}))
      && (BombsHidden(g) ==> BombsHidden(g1)) && (BombsShown(g) ==> BombsShown(g1))
      && (forall q | q in g1 && g1[q].exposed && !g[q].exposed :: q == p)
  {
  }

  /** The state after exposing the hidden non-bomb cell `p` itself, before its neighbours:
      the cell exposed and unmarked, a flag on it given back, one more cell counted. */
  function ExposedOne(s: Snapshot, p: Pos): Snapshot
    requires p in s.grid
  {
    s.(grid := s.grid[p := AfterExpose(s.grid[p])],
       numFlags := if s.grid[p].marking == FlagMark then s.numFlags - 1 else s.numFlags,
       numExposed := s.numExposed + 1)
  }

  lemma ExposeOneProgress(s: Snapshot, p: Pos)
    requires p in s.grid && !s.grid[p].exposed && s.grid[p].content != Bomb
    ensures Progress(s, ExposedOne(s, p))
    ensures |HiddenCells(ExposedOne(s, p).grid)| < |HiddenCells(s.grid)|
  {
    ExposeCellSets(s.grid, p);
    ExposeCellKeeps(s.grid, p, {});
    assert ProgressEffect(s, ExposedOne(s, p));
  }

  /** Exposing a hidden non-bomb cell keeps num_exposed and num_flags in step with the grid. */
  lemma ExposeOneCounted(s: Snapshot, p: Pos)
    requires Counted(s) && p in s.grid && !s.grid[p].exposed && s.grid[p].content != Bomb
    ensures Counted(ExposedOne(s, p))
  {
    ExposeCellSets(s.grid, p);
  }

  /** Exposing the hidden non-bomb cell `p` itself keeps the invariant, with `p` pending. */
  lemma ExposeOneStep(s: Snapshot, pending: set<Pos>, p: Pos)
    requires Inv(s, pending) && !s.firstExpose && p in s.grid
    requires !s.grid[p].exposed && s.grid[p].content != Bomb
    ensures Inv(ExposedOne(s, p), pending + {p})
  {
    assert InvKey(s, pending, 0);
    var s1 := ExposedOne(s, p);
    ExposeOneCounted(s, p);
    ExposeCellKeeps(s.grid, p, pending);
    ConsistentSameContents(s.grid, s1.grid);
    var c := s.grid[p];
    assert s.status == Won ==> c.exposed;
    assert Shaped(s1);
    assert MarksClear(s1.grid);
    assert Counted(s1);
    assert Mined(s1);
    assert StatusShown(s1);
    assert ClosedExcept(s1.grid, pending + {p});
  }

  /** The neighbour at offset (i, j) of (row, column), other than the cell itself. */
  lemma OffsetAdjacent(row: int, column: int, i: int, j: int)
    requires -1 <= i <= 1 && -1 <= j <= 1 && !(i == 0 && j == 0)
    ensures Adjacent((row, column), (row + i, column + j))
  {
  }

  /** Before the recursive call on the neighbour `q` of the EMPTY cell `p`: `q` is no bomb,
      and no cell has been hidden again since the loop began. */
  lemma NeighborSafe(s: Snapshot, cur: Snapshot, pending: set<Pos>, p: Pos, q: Pos)
    requires Inv(cur, pending) && Progress(s, cur) && !s.firstExpose
    requires p in s.grid && s.grid[p].content == Empty && q in cur.grid && Adjacent(p, q)
    ensures cur.grid[q].content != Bomb && !cur.firstExpose
    ensures |HiddenCells(cur.grid)| <= |HiddenCells(s.grid)|
  {
    assert InvKey(cur, pending, 0) && ProgressKey(s, cur, 0);
    EmptyHasSafeNeighbors(cur.grid, p, q);
    ProgressHidden(s, cur);
  }

  /** The recursive call on the neighbour at offset (i, j) of (row, column) extends the
      progress and the exposed prefix of the neighbourhood. */
  lemma NeighborVisit(s: Snapshot, cur: Snapshot, next: Snapshot, row: int, column: int, i: int, j: int)
    requires Progress(s, cur) && !cur.firstExpose && ExposedUpTo(cur.grid, (row, column), i, j)
    requires (row + i, column + j) in cur.grid && cur.grid[(row + i, column + j)].content != Bomb
    requires ExposeOutcome(cur, next, (row + i, column + j))
    requires -1 <= i <= 1 && -1 <= j <= 1 && !(i == 0 && j == 0)
    requires (row, column) in s.grid && s.grid[(row, column)].content == Empty && Flooded(s, cur, (row, column))
    ensures Progress(s, next) && ExposedUpTo(next.grid, (row, column), i, j + 1)
    ensures Flooded(s, next, (row, column))
  {
    var p, q := (row, column), (row + i, column + j);
    SafeOutcome(cur, next, q);
    OffsetAdjacent(row, column, i, j);
    FloodVisit(s, cur, next, p, q);
    ProgressTrans(s, cur, next);
    ExposedUpToStep(cur.grid, next.grid, p, i, j);
  }

  /** The recursive expose of the neighbour `q` of the EMPTY cell `p` keeps the flood from `p`
      bounded: what it exposes, it reaches from `q`, hence from `p`. */
  lemma FloodVisit(s: Snapshot, cur: Snapshot, next: Snapshot, p: Pos, q: Pos)
    requires Flooded(s, cur, p) && Progress(s, cur) && Progress(cur, next) && Flooded(cur, next, q)
    requires p in s.grid && s.grid[p].content == Empty && Adjacent(p, q) && q in cur.grid
    requires cur.grid[q].exposed ==> next == cur
    ensures Flooded(s, next, p)
  {
    assert ProgressKey(s, cur, 0) && ProgressKey(cur, next, 0);
    assert FloodKey(s, cur, p, 0) && FloodKey(cur, next, q, 0);
    if next.status != Won {
      forall y | y in next.grid && next.grid[y].exposed && y in s.grid && !s.grid[y].exposed
        ensures Reaches(s.grid, next.grid, p, y)
      {
        if cur.grid[y].exposed {
          ReachesWiden(s.grid, s.grid, cur.grid, next.grid, p, y);
        } else {
          ReachesWiden(s.grid, cur.grid, next.grid, next.grid, q, y);
          ReachesPrepend(s.grid, next.grid, p, q, y);
        }
      }
    }
  }

  /** Expose on a cell that is no bomb, after the bombs are placed, makes progress and leaves
      the cell exposed. */
  lemma SafeOutcome(s0: Snapshot, s1: Snapshot, p: Pos)
    requires p in s0.grid && !s0.firstExpose && s0.grid[p].content != Bomb
    requires ExposeOutcome(s0, s1, p)
    ensures Progress(s0, s1) && Grows(s0.grid, s1.grid)
    ensures p in s1.grid && s1.grid[p].exposed
    ensures s0.grid[p].exposed ==> s1 == s0
    ensures Flooded(s0, s1, p)
  {
    assert OutcomeKey(s0, s1, p, 0);
    if s0.grid[p].exposed {
      ProgressRefl(s0);
    } else {
      assert ProgressKey(s0, s1, 0);
    }
  }

  /** Exposing the neighbour at offset (i, j) extends the exposed prefix of the neighbourhood,
      as long as nothing exposed is hidden again. */
  lemma ExposedUpToStep(g: Grid, g1: Grid, p: Pos, i: int, j: int)
    requires ExposedUpTo(g, p, i, j) && Grows(g, g1)
    requires (p.0 + i, p.1 + j) in g1 && g1[(p.0 + i, p.1 + j)].exposed
    ensures ExposedUpTo(g1, p, i, j + 1)
  {
    forall x | x in g1 && Adjacent(p, x) && Visited(p, x, i, j + 1)
      ensures g1[x].exposed
    {
      if x != (p.0 + i, p.1 + j) {
        assert Visited(p, x, i, j);
      }
    }
  }

  lemma ProgressHidden(s: Snapshot, s1: Snapshot)
    requires Progress(s, s1)
    ensures |HiddenCells(s1.grid)| <= |HiddenCells(s.grid)|
  {
    assert ProgressKey(s, s1, 0);
    SubsetCard(HiddenCells(s1.grid), HiddenCells(s.grid));
  }

  /** Once every neighbour of `p` is exposed (or `p` is not EMPTY), `p` leaves `pending`. */
  lemma CloseAround(s: Snapshot, pending: set<Pos>, p: Pos)
    requires Inv(s, pending + {p}) && p in s.grid
    requires s.grid[p].content == Empty ==> forall q | q in s.grid && Adjacent(p, q) :: s.grid[q].exposed
    ensures Inv(s, pending)
  {
    assert InvKey(s, pending + {p}, 0);
  }

  /** The neighbour loops are done: every neighbour is exposed, and `p` leaves `pending`. */
  lemma FloodDone(s: Snapshot, pending: set<Pos>, p: Pos)
    requires Inv(s, pending + {p}) && p in s.grid && ExposedUpTo(s.grid, p, 2, -1)
    ensures Inv(s, pending)
  {
    CloseAround(s, pending, p);
  }

  /** expose_all on a grid. */
  lemma ExposeAllFacts(g: Grid, pending: set<Pos>)
    ensures var g1 := Applied(g, ExposeEach);
      && SameContents(g, g1) && Grows(g, g1) && AllExposed(g1) && BombsShown(g1) && ClosedExcept(g1, pending)
      && (MarksClear(g) ==> MarksClear(g1) && FlaggedCells(g1) == {})
      && (SafeExposed(g) ==> ExposedSafe(g1) == ExposedSafe(g))
      && (SafeExposed(g) && MarksClear(g) ==> FlagsLost(g, g1) == {})
  {
    var g1 := Applied(g, ExposeEach);
    if MarksClear(g) {
      assert FlaggedCells(g1) == {};
    }
    if SafeExposed(g) {
      assert ExposedSafe(g1) == ExposedSafe(g);
    }
  }

  /** won? holds: expose_all and WON keep the invariant, and num_flags is not touched because
      every flag left sits on a bomb. */
  lemma WonStep(s: Snapshot, s1: Snapshot, pending: set<Pos>)
    requires Inv(s, pending) && !s.firstExpose && WonCount(s)
    requires s1 == s.(grid := Applied(s.grid, ExposeEach), status := Won)
    ensures Inv(s1, pending) && Progress(s, s1)
  {
    assert InvKey(s, pending, 0);
    WonCountIffAllSafeExposed(s, pending);
    ExposeAllFacts(s.grid, pending);
    ConsistentSameContents(s.grid, s1.grid);
  }

  /** Placement followed by flood fill, on grids. */
  lemma CoverThenProgress(g0: Grid, gP: Grid, g1: Grid, p: Pos)
    requires SameCover(g0, gP) && SameContents(gP, g1) && Grows(gP, g1) && FlaggedCells(g1) <= FlaggedCells(gP)
    requires NoBombNear(gP, p)
    ensures Grows(g0, g1) && FlaggedCells(g1) <= FlaggedCells(g0) && FlagsLost(g0, g1) == FlagsLost(gP, g1)
    ensures NoBombNear(g1, p)
  {
    assert FlaggedCells(gP) == FlaggedCells(g0);
  }

  /** The pieces of a non-bomb expose put together: preparation, the cell itself, then the
      flood fill and the won? test. */
  lemma AssembleSafe(s0: Snapshot, sP: Snapshot, s1: Snapshot, pending: set<Pos>, p: Pos)
    requires p in s0.grid
    requires Prepared(s0, sP, p)
    requires !sP.firstExpose && !sP.grid[p].exposed && sP.grid[p].content != Bomb
    requires Progress(ExposedOne(sP, p), s1) && Inv(s1, pending)
    requires Flooded(ExposedOne(sP, p), s1, p)
    requires WonCount(s1) ==> s1.status == Won
    ensures ExposeOutcome(s0, s1, p)
  {
    var sA := ExposedOne(sP, p);
    AssembleFlood(s0, sP, s1, p);
    ExposeOneProgress(sP, p);
    ProgressTrans(sP, sA, s1);
    assert ProgressKey(sA, s1, 0) && ProgressKey(sP, s1, 0) && InvKey(s1, pending, 0);
    if s1.status == Won && !WonCount(s1) {
      WonCountIffAllSafeExposed(s1, pending);
    }
    if s0.firstExpose {
      CoverThenProgress(s0.grid, sP.grid, s1.grid, p);
    }
  }

  /** The flood from the cell itself, once exposed, bounds what the whole expose exposes. */
  lemma AssembleFlood(s0: Snapshot, sP: Snapshot, s1: Snapshot, p: Pos)
    requires p in s0.grid && Prepared(s0, sP, p) && !sP.grid[p].exposed
    requires Progress(ExposedOne(sP, p), s1) && Flooded(ExposedOne(sP, p), s1, p)
    ensures Flooded(s0, s1, p)
  {
    var sA := ExposedOne(sP, p);
    assert ProgressKey(sA, s1, 0) && FloodKey(sA, s1, p, 0);
    assert sP.grid.Keys == s0.grid.Keys && forall x | x in sP.grid :: sP.grid[x].exposed == s0.grid[x].exposed;
    if s1.status != Won {
      forall y | y in s1.grid && s1.grid[y].exposed && y in s0.grid && !s0.grid[y].exposed
        ensures Reaches(s0.grid, s1.grid, p, y)
      {
        if y == p {
          ReachesSelf(s0.grid, s1.grid, p);
        } else {
          ReachesWiden(s0.grid, sA.grid, s1.grid, s1.grid, p, y);
        }
      }
    }
  }

  /** Exposing a hidden numbered cell, short of winning, exposes that cell and no other. */
  lemma NumberExposesOnlyItself(s0: Snapshot, s1: Snapshot, p: Pos)
    requires p in s0.grid && !s0.firstExpose && !s0.grid[p].exposed && s0.grid[p].content.Number?
    requires ExposeOutcome(s0, s1, p) && s1.status != Won
    ensures s1.grid.Keys == s0.grid.Keys
    ensures forall q | q in s1.grid && s1.grid[q].exposed :: s0.grid[q].exposed || q == p
  {
    assert OutcomeKey(s0, s1, p, 0) && FloodKey(s0, s1, p, 0);
    forall q | q in s1.grid && s1.grid[q].exposed && !s0.grid[q].exposed
      ensures q == p
    {
      assert Reaches(s0.grid, s1.grid, p, q);
      var path :| FloodPath(s0.grid, s1.grid, path) && path[0] == p && path[|path| - 1] == q;
    }
  }

  /** Move#expose keeps the invariant between moves. */
  lemma ExposeKeepsSound(s0: Snapshot, s1: Snapshot, p: Pos)
    requires Sound(s0) && p in s0.grid && Inv(s1, {}) && ExposeOutcome(s0, s1, p)
    ensures Sound(s1)
  {
    assert InvKey(s0, {}, 0) && InvKey(s1, {}, 0) && OutcomeKey(s0, s1, p, 0);
  }

  /** The first expose never loses: bombs avoid the first cell and its neighbours, so that
      cell is EMPTY and the flood fill starts from it. */
  lemma FirstExposeNeverLoses(s0: Snapshot, s1: Snapshot, p: Pos)
    requires Inv(s0, {}) && s0.firstExpose && p in s0.grid
    requires Inv(s1, {}) && ExposeOutcome(s0, s1, p)
    ensures p in s1.grid && s1.grid[p].content == Empty && s1.grid[p].exposed
    ensures s1.status != Lost
  {
    assert InvKey(s0, {}, 0) && InvKey(s1, {}, 0) && OutcomeKey(s0, s1, p, 0);
    NoBombNearMeansEmpty(s1.grid, p);
  }

  /** Exposed non-bomb cells before and after a growth of exposure. */
  lemma GrowthCount(g0: Grid, g1: Grid)
    requires Grows(g0, g1)
    requires SameContents(g0, g1) || Exposed(g0) == {}
    ensures |ExposedSafe(g1)| == |ExposedSafe(g0)| + |NewlyExposedSafe(g0, g1)|
  {
    var before := set q | q in g0 && q in g1 && g0[q].exposed && g1[q].content != Bomb;
    assert ExposedSafe(g1) == before + NewlyExposedSafe(g0, g1);
    assert before !! NewlyExposedSafe(g0, g1);
    if SameContents(g0, g1) {
      assert before == ExposedSafe(g0);
    } else {
      assert before == {};
      assert ExposedSafe(g0) == {};
    }
  }

  /** Each newly exposed non-bomb cell adds exactly one to num_exposed. */
  lemma ExposedCountGrowth(s0: Snapshot, s1: Snapshot, p: Pos)
    requires Inv(s0, {}) && p in s0.grid && Inv(s1, {}) && ExposeOutcome(s0, s1, p)
    ensures s1.numExposed == s0.numExposed + |NewlyExposedSafe(s0.grid, s1.grid)|
  {
    assert InvKey(s0, {}, 0) && InvKey(s1, {}, 0) && OutcomeKey(s0, s1, p, 0);
    if s0.firstExpose {
      assert Exposed(s0.grid) == {};
    }
    GrowthCount(s0.grid, s1.grid);
  }

  /** Exposing a hidden bomb exposes exactly the bombs besides what was exposed. */
  lemma LossExposesOnlyBombs(s0: Snapshot, s1: Snapshot, p: Pos)
    requires p in s0.grid && ExposeOutcome(s0, s1, p)
    requires !s0.grid[p].exposed && p in s1.grid && s1.grid[p].content == Bomb
    ensures s1.status == Lost && s1.numExposed == s0.numExposed && s1.numFlags == s0.numFlags
    ensures s1.grid.Keys == s0.grid.Keys
    ensures forall q | q in s1.grid :: s1.grid[q].exposed == (s0.grid[q].exposed || s0.grid[q].content == Bomb)
  {
    assert OutcomeKey(s0, s1, p, 0);
  }

  /** A new board with a fresh Move satisfies the invariant. */
  lemma FreshIsSound(s: Snapshot)
    requires Shaped(s) && s.numFlags == 0 && s.numExposed == 0 && s.status == Continue && s.firstExpose
    requires forall p | p in s.grid :: s.grid[p] == CellState(Empty, false, NoMark)
    ensures Sound(s)
  {
    assert ExposedSafe(s.grid) == {};
    assert FlaggedCells(s.grid) == {};
  }
}
