/**
 * Neighbour enumeration of the controller (`findNeighbors`): the positions
 * around a cell, found by scanning the offsets {-1, 0, 1} x {-1, 0, 1},
 * skipping the cell itself and keeping only positions inside the grid. Grid
 * edges are hard boundaries: nothing wraps around. The source's outer loop
 * variable is the column offset and the inner one the row offset, so the scan
 * runs column offset by column offset.
 */
module Neighborhood {
  import opened Grid

  /** The nine (column offset, row offset) pairs in the order the two loops visit them. */
  const Offsets: seq<(int, int)> :=
    [(-1, -1), (-1, 0), (-1, 1), (0, -1), (0, 0), (0, 1), (1, -1), (1, 0), (1, 1)]

  /** Offset pair (dc, dr) is visited at step (dc + 1) * 3 + (dr + 1) of the scan. */
  lemma OffsetAt(dc: int, dr: int)
    requires -1 <= dc <= 1 && -1 <= dr <= 1
    ensures Offsets[(dc + 1) * 3 + (dr + 1)] == (dc, dr)
  {
  }

  /** The position the scan looks at in step k. */
  function Candidate(pos: CellPos, k: nat): CellPos
    requires k < 9
  {
    CellPos(pos.row + Offsets[k].1, pos.col + Offsets[k].0)
  }

  /** Whether step k keeps its position: not the cell itself, and inside the grid. */
  predicate Kept(pos: CellPos, rows: int, cols: int, k: nat)
    requires k < 9
  {
    var (i, j) := Offsets[k];
    !(i == 0 && j == 0) &&
    pos.col + i < cols && pos.row + j < rows &&
    pos.col + i >= 0 && pos.row + j >= 0
  }

  /** The neighbours collected by the first k steps of the scan. */
  function Scan(pos: CellPos, rows: int, cols: int, k: nat): seq<CellPos>
    requires k <= 9
  {
    if k == 0 then
      []
    else
      var kept := if Kept(pos, rows, cols, k - 1) then [Candidate(pos, k - 1)] else [];
      Scan(pos, rows, cols, k - 1) + kept
  }

  /** What `findNeighbors` returns for a grid of `rows` rows and `cols` columns. */
  function Neighbors(pos: CellPos, rows: int, cols: int): seq<CellPos>
  {
    Scan(pos, rows, cols, 9)
  }

  /** p is one of the up to eight cells adjacent to pos (diagonals included) inside the grid. */
  ghost predicate Adjacent(pos: CellPos, p: CellPos, rows: int, cols: int)
  {
    p != pos &&
    -1 <= p.row - pos.row <= 1 && -1 <= p.col - pos.col <= 1 &&
    0 <= p.row < rows && 0 <= p.col < cols
  }

  /** The step of the scan at which an adjacent position is looked at. */
  function StepOf(pos: CellPos, p: CellPos): int
  {
    (p.col - pos.col + 1) * 3 + (p.row - pos.row + 1)
  }

  ghost predicate NoDuplicates(s: seq<CellPos>)
  {
    forall a, b :: 0 <= a < b < |s| ==> s[a] != s[b]
  }

  /** Step k looks at a position whose step is k, and keeps it exactly when it is adjacent. */
  lemma CandidateFacts(pos: CellPos, rows: int, cols: int, k: nat)
    requires k < 9
    ensures StepOf(pos, Candidate(pos, k)) == k
    ensures Kept(pos, rows, cols, k) <==> Adjacent(pos, Candidate(pos, k), rows, cols)
  {
  }

  /**
   * The first k steps collect exactly the adjacent positions whose step is
   * below k, each once, and at most k - 1 of them once the centre is passed.
   */
  lemma {:induction false} ScanSpec(pos: CellPos, rows: int, cols: int, k: nat)
    requires k <= 9
    ensures forall p :: p in Scan(pos, rows, cols, k) <==> Adjacent(pos, p, rows, cols) && StepOf(pos, p) < k
    ensures NoDuplicates(Scan(pos, rows, cols, k))
    ensures |Scan(pos, rows, cols, k)| <= if k > 4 then k - 1 else k
  {
    if k > 0 {
      ScanSpec(pos, rows, cols, k - 1);
      CandidateFacts(pos, rows, cols, k - 1);
      var prev := Scan(pos, rows, cols, k - 1);
      var c := Candidate(pos, k - 1);
      forall p | Adjacent(pos, p, rows, cols) && StepOf(pos, p) == k - 1
        ensures p == c
      {
        OffsetAt(p.col - pos.col, p.row - pos.row);
      }
      assert Kept(pos, rows, cols, 4) == false;
    }
  }

  /**
   * `findNeighbors` returns exactly the in-grid cells adjacent to pos, never
   * pos itself, without repetition, and at most eight of them.
   */
  lemma NeighborsSpec(pos: CellPos, rows: int, cols: int)
    ensures forall p :: p in Neighbors(pos, rows, cols) <==> Adjacent(pos, p, rows, cols)
    ensures pos !in Neighbors(pos, rows, cols)
    ensures NoDuplicates(Neighbors(pos, rows, cols))
    ensures |Neighbors(pos, rows, cols)| <= 8
  {
    ScanSpec(pos, rows, cols, 9);
    forall p | Adjacent(pos, p, rows, cols)
      ensures StepOf(pos, p) < 9
    {
    }
  }

  /** How many of v - 1, v, v + 1 lie in [0, n), for 0 <= v < n. */
  function Span(v: int, n: int): int
  {
    (if v > 0 then 1 else 0) + 1 + (if v + 1 < n then 1 else 0)
  }

  /**
   * An in-grid cell has (rows it can reach) * (columns it can reach) - 1
   * neighbours: 8 inside, at most 5 on an edge, at most 3 in a corner.
   */
  lemma NeighborCount(pos: CellPos, rows: int, cols: int)
    requires 0 <= pos.row < rows && 0 <= pos.col < cols
    ensures |Neighbors(pos, rows, cols)| == Span(pos.row, rows) * Span(pos.col, cols) - 1
  {
    var ind := (k: nat) requires k < 9 => if Kept(pos, rows, cols, k) then 1 else 0;
    forall k: nat | 0 < k <= 9
      ensures |Scan(pos, rows, cols, k)| == |Scan(pos, rows, cols, k - 1)| + ind(k - 1)
    {
    }
    assert |Scan(pos, rows, cols, 9)| ==
      ind(0) + ind(1) + ind(2) + ind(3) + ind(4) + ind(5) + ind(6) + ind(7) + ind(8);
  }

  /** Edge and corner cells are counted only over their true in-grid neighbours. */
  lemma BorderNeighborCount(pos: CellPos, rows: int, cols: int)
    requires 0 <= pos.row < rows && 0 <= pos.col < cols
    ensures (pos.row == 0 || pos.row == rows - 1 || pos.col == 0 || pos.col == cols - 1) ==>
      |Neighbors(pos, rows, cols)| <= 5
    ensures (pos.row == 0 || pos.row == rows - 1) && (pos.col == 0 || pos.col == cols - 1) ==>
      |Neighbors(pos, rows, cols)| <= 3
    ensures 0 < pos.row < rows - 1 && 0 < pos.col < cols - 1 ==> |Neighbors(pos, rows, cols)| == 8
  {
    NeighborCount(pos, rows, cols);
  }

  /** `findNeighbors`: the two nested loops pushing each in-grid neighbour. */
  method FindNeighbors(pos: CellPos, cells: Cells) returns (neighbors: seq<CellPos>)
    requires |cells| > 0
    ensures neighbors == Neighbors(pos, |cells|, |cells[0]|)
  {
    neighbors := [];
    var rows := |cells|;
    var cols := |cells[0]|;
    for i := -1 to 2
      invariant neighbors == Scan(pos, rows, cols, (i + 1) * 3)
    {
      for j := -1 to 2
        invariant neighbors == Scan(pos, rows, cols, (i + 1) * 3 + (j + 1))
      {
        OffsetAt(i, j);
        if i == 0 && j == 0 {
          continue;
        }
        var inBottomRightBounds := pos.col + i < cols && pos.row + j < rows;
        var inTopLeftBounds := pos.col + i >= 0 && pos.row + j >= 0;
        if inBottomRightBounds && inTopLeftBounds {
          neighbors := neighbors + [CellPos(pos.row + j, pos.col + i)];
        }
      }
    }
  }
}
