/**
 * One generation of the Game of Life as the controller computes it:
 * `evalCell` counts the live cells among a cell's neighbours and applies
 * Conway's rule as four ordered checks; `evalCells` maps that over every cell
 * into a brand-new grid.
 */
module Step {
  import opened Grid
  import opened Neighborhood

  function Bit(b: bool): nat { if b then 1 else 0 }

  /**
   * `nAlive` in `evalCell`: the neighbours' cells mapped to 1 or 0 and summed
   * from the left.
   */
  function LiveCount(cells: Cells, neighbors: seq<CellPos>): (n: int)
    ensures 0 <= n <= |neighbors|
  {
    if |neighbors| == 0 then
      0
    else
      var last := neighbors[|neighbors| - 1];
      LiveCount(cells, neighbors[..|neighbors| - 1]) + Bit(Alive(cells, last.row, last.col))
  }

  /**
   * The four ordered checks of `evalCell` on the live-neighbour count. The
   * checks cover every integer, so the logged error fallback is unreachable.
   * Together they are Conway's rule: alive next exactly on three live
   * neighbours, or on two when alive now.
   */
  function NextState(nAlive: int, current: bool): (alive: bool)
    ensures nAlive == 3 ==> alive
    ensures nAlive <= 1 ==> !alive
    ensures nAlive >= 4 ==> !alive
    ensures nAlive == 2 ==> alive == current
    ensures alive <==> nAlive == 3 || (nAlive == 2 && current)
  {
    if nAlive == 3 then
      true
    else if nAlive <= 1 then
      false
    else if nAlive >= 4 then
      false
    else if nAlive == 2 || nAlive == 3 then
      current
    else
      assert false;
      false
  }

  /** `evalCell`: the next state of cell (row, col) given its neighbour list. */
  function EvalCell(neighbors: seq<CellPos>, cells: Cells, row: int, col: int): (alive: bool)
    requires forall p :: p in neighbors ==> 0 <= p.row < |cells|
    requires InBounds(cells, row, col)
    ensures alive <==> LiveCount(cells, neighbors) == 3 || (LiveCount(cells, neighbors) == 2 && cells[row][col])
  {
    NextState(LiveCount(cells, neighbors), cells[row][col])
  }

  /** One mapped cell of `evalCells`: `findNeighbors` then `evalCell`. */
  function EvalAt(cells: Cells, row: int, col: int): (alive: bool)
    requires InBounds(cells, row, col)
    ensures 0 <= LiveCount(cells, Neighbors(CellPos(row, col), |cells|, |cells[0]|)) <= 8
  {
    var neighbors := Neighbors(CellPos(row, col), |cells|, |cells[0]|);
    NeighborsSpec(CellPos(row, col), |cells|, |cells[0]|);
    EvalCell(neighbors, cells, row, col)
  }

  /**
   * `evalCells`: a new grid with the same number of rows as the input and each
   * row as long as the input's. The input is a value and is left as it was.
   */
  function EvalCells(cells: Cells): (next: Cells)
    ensures |next| == |cells|
    ensures forall i :: 0 <= i < |cells| ==> |next[i]| == |cells[i]|
  {
    seq(|cells|, i requires 0 <= i < |cells| =>
      seq(|cells[i]|, j requires 0 <= j < |cells[i]| => EvalAt(cells, i, j)))
  }

  /** The next generation keeps the grid's shape, so the rectangular invariant too. */
  lemma EvalCellsShape(cells: Cells, rows: nat, cols: nat)
    requires HasShape(cells, rows, cols)
    ensures HasShape(EvalCells(cells), rows, cols)
    ensures Rectangular(cells) && Rectangular(EvalCells(cells))
  {
  }

  /**
   * Reference count of live neighbours of (row, col): the eight surrounding
   * positions, anything outside the grid dead.
   */
  function RefCount(g: Cells, row: int, col: int): int
  {
    Bit(Alive(g, row - 1, col - 1)) + Bit(Alive(g, row - 1, col)) + Bit(Alive(g, row - 1, col + 1)) +
    Bit(Alive(g, row, col - 1)) + Bit(Alive(g, row, col + 1)) +
    Bit(Alive(g, row + 1, col - 1)) + Bit(Alive(g, row + 1, col)) + Bit(Alive(g, row + 1, col + 1))
  }

  /** What step k of the scan adds to the live count. */
  function ScanTerm(g: Cells, pos: CellPos, k: nat): nat
    requires k < 9 && |g| > 0
  {
    if Kept(pos, |g|, |g[0]|, k) then Bit(Alive(g, Candidate(pos, k).row, Candidate(pos, k).col)) else 0
  }

  /** Counting along the first k steps of the scan. */
  lemma LiveCountScanStep(g: Cells, pos: CellPos, k: nat)
    requires 0 < k <= 9 && |g| > 0
    ensures LiveCount(g, Scan(pos, |g|, |g[0]|, k)) ==
      LiveCount(g, Scan(pos, |g|, |g[0]|, k - 1)) + ScanTerm(g, pos, k - 1)
  {
    var s := Scan(pos, |g|, |g[0]|, k);
    var prev := Scan(pos, |g|, |g[0]|, k - 1);
    if Kept(pos, |g|, |g[0]|, k - 1) {
      assert s[..|s| - 1] == prev;
    } else {
      assert s == prev;
    }
  }

  /**
   * On a rectangular grid a position the scan drops is dead anyway, except
   * the centre, which is never counted.
   */
  lemma ScanTermValue(g: Cells, pos: CellPos, k: nat)
    requires k < 9 && Rectangular(g) && |g| > 0
    ensures ScanTerm(g, pos, k) == if k == 4 then 0 else Bit(Alive(g, Candidate(pos, k).row, Candidate(pos, k).col))
  {
  }

  /** The live count over the whole scan, step by step. */
  lemma LiveCountOverScan(g: Cells, pos: CellPos)
    requires |g| > 0
    ensures LiveCount(g, Neighbors(pos, |g|, |g[0]|)) ==
      ScanTerm(g, pos, 0) + ScanTerm(g, pos, 1) + ScanTerm(g, pos, 2) + ScanTerm(g, pos, 3) + ScanTerm(g, pos, 4) +
      ScanTerm(g, pos, 5) + ScanTerm(g, pos, 6) + ScanTerm(g, pos, 7) + ScanTerm(g, pos, 8)
  {
    LiveCountScanStep(g, pos, 1);
    LiveCountScanStep(g, pos, 2);
    LiveCountScanStep(g, pos, 3);
    LiveCountScanStep(g, pos, 4);
    LiveCountScanStep(g, pos, 5);
    LiveCountScanStep(g, pos, 6);
    LiveCountScanStep(g, pos, 7);
    LiveCountScanStep(g, pos, 8);
    LiveCountScanStep(g, pos, 9);
  }

  /**
   * On a rectangular grid the count `evalCell` computes from `findNeighbors`
   * is the number of live cells among the true (in-grid) neighbours.
   */
  lemma LiveCountIsRefCount(g: Cells, pos: CellPos)
    requires Rectangular(g) && |g| > 0
    ensures LiveCount(g, Neighbors(pos, |g|, |g[0]|)) == RefCount(g, pos.row, pos.col)
  {
    LiveCountOverScan(g, pos);
    ScanTermValue(g, pos, 0);
    ScanTermValue(g, pos, 1);
    ScanTermValue(g, pos, 2);
    ScanTermValue(g, pos, 3);
    ScanTermValue(g, pos, 4);
    ScanTermValue(g, pos, 5);
    ScanTermValue(g, pos, 6);
    ScanTermValue(g, pos, 7);
    ScanTermValue(g, pos, 8);
  }

  /**
   * Every cell of the next generation follows Conway's rule over its true
   * neighbours: alive on exactly three live neighbours, kept on two, dead
   * otherwise.
   */
  lemma EvalCellsIsLife(g: Cells, row: int, col: int)
    requires Rectangular(g) && InBounds(g, row, col)
    ensures EvalCells(g)[row][col] <==>
      RefCount(g, row, col) == 3 || (RefCount(g, row, col) == 2 && g[row][col])
  {
    LiveCountIsRefCount(g, CellPos(row, col));
  }

  /** A grid with at most one live cell, at (r, c), dies out in one generation. */
  lemma LoneCellDies(g: Cells, r: int, c: int)
    requires Rectangular(g)
    requires forall i, j :: 0 <= i < |g| && 0 <= j < |g[i]| && g[i][j] ==> i == r && j == c
    ensures IsAllDead(EvalCells(g))
  {
    forall i, j | 0 <= i < |g| && 0 <= j < |g[i]|
      ensures !EvalCells(g)[i][j]
    {
      EvalCellsIsLife(g, i, j);
    }
  }

  /** The three-cell row centred on (r, c): a horizontal blinker. */
  ghost predicate HorizontalTriple(g: Cells, r: int, c: int)
  {
    forall i, j :: 0 <= i < |g| && 0 <= j < |g[i]| ==> (g[i][j] <==> i == r && c - 1 <= j <= c + 1)
  }

  /** The three-cell column centred on (r, c): a vertical blinker. */
  ghost predicate VerticalTriple(g: Cells, r: int, c: int)
  {
    forall i, j :: 0 <= i < |g| && 0 <= j < |g[i]| ==> (g[i][j] <==> j == c && r - 1 <= i <= r + 1)
  }

  /** A blinker away from the grid's edges turns from horizontal to vertical. */
  lemma BlinkerTurnsVertical(g: Cells, r: int, c: int)
    requires Rectangular(g) && 0 < r < |g| - 1 && 0 < c < |g[0]| - 1
    requires HorizontalTriple(g, r, c)
    ensures VerticalTriple(EvalCells(g), r, c)
  {
    var next := EvalCells(g);
    forall i, j | 0 <= i < |next| && 0 <= j < |next[i]|
      ensures next[i][j] <==> j == c && r - 1 <= i <= r + 1
    {
      EvalCellsIsLife(g, i, j);
    }
  }

  /** ... and back from vertical to horizontal. */
  lemma BlinkerTurnsHorizontal(g: Cells, r: int, c: int)
    requires Rectangular(g) && 0 < r < |g| - 1 && 0 < c < |g[0]| - 1
    requires VerticalTriple(g, r, c)
    ensures HorizontalTriple(EvalCells(g), r, c)
  {
    var next := EvalCells(g);
    forall i, j | 0 <= i < |next| && 0 <= j < |next[i]|
      ensures next[i][j] <==> i == r && c - 1 <= j <= c + 1
    {
      EvalCellsIsLife(g, i, j);
    }
  }

  /** So a blinker away from the edges has period two. */
  lemma BlinkerPeriodTwo(g: Cells, r: int, c: int)
    requires Rectangular(g) && 0 < r < |g| - 1 && 0 < c < |g[0]| - 1
    requires HorizontalTriple(g, r, c)
    ensures EvalCells(EvalCells(g)) == g
  {
    BlinkerTurnsVertical(g, r, c);
    var next := EvalCells(g);
    assert Rectangular(next);
    BlinkerTurnsHorizontal(next, r, c);
    var back := EvalCells(next);
    assert forall i :: 0 <= i < |g| ==> back[i] == g[i];
  }
}

/** Worked examples of one generation. */
module StepExamples {
  import opened Grid
  import opened Step

  /** A 3 x 3 grid whose only live cell is the centre becomes all dead. */
  lemma SingleCellExample()
    ensures EvalCells([[false, false, false], [false, true, false], [false, false, false]]) == AllDead(3, 3)
  {
    var g := [[false, false, false], [false, true, false], [false, false, false]];
    LoneCellDies(g, 1, 1);
    var next := EvalCells(g);
    assert forall i :: 0 <= i < 3 ==> next[i] == AllDead(3, 3)[i];
  }

  /** The row [false, true, true, true, false] in the middle of a dead 5 x 5 grid turns into a column. */
  lemma BlinkerExample()
    ensures EvalCells([[false, false, false, false, false],
                       [false, false, false, false, false],
                       [false, true, true, true, false],
                       [false, false, false, false, false],
                       [false, false, false, false, false]]) ==
                      [[false, false, false, false, false],
                       [false, false, true, false, false],
                       [false, false, true, false, false],
                       [false, false, true, false, false],
                       [false, false, false, false, false]]
  {
    var g := [[false, false, false, false, false],
              [false, false, false, false, false],
              [false, true, true, true, false],
              [false, false, false, false, false],
              [false, false, false, false, false]];
    var v := [[false, false, false, false, false],
              [false, false, true, false, false],
              [false, false, true, false, false],
              [false, false, true, false, false],
              [false, false, false, false, false]];
    BlinkerTurnsVertical(g, 2, 2);
    var next := EvalCells(g);
    assert forall i :: 0 <= i < 5 ==> next[i] == v[i];
  }
}
