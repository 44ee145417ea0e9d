/**
 * The mutable driver of src/CanvasController.ts: the `CanvasController`
 * object holding the grid, the simulation speed and the handle of the
 * running interval timer, with its click handler and its start / stop /
 * speed / reset / destroy transitions.
 *
 * The browser's timer functions are not code of this model. A call to
 * `setInterval` is represented by the handle it returns, passed in as a
 * parameter; the intervals the controller has scheduled and not yet cleared
 * are kept in `scheduled`, each with the period it fires at.
 */
module Controller {
  import opened Wrappers
  import opened Grid
  import opened Step

  /** An interval handle: `setInterval` hands out positive integers, so a handle is never falsy. */
  type TimerId = x: int | x > 0 witness 1

  /** The initial `simulationSpeed`, in milliseconds per generation. */
  const InitialSpeed: int := 1000

  /** The floor `setSimulationSpeed` puts under the interval. */
  const MinSpeed: int := 10

  /** `Math.ceil` on a finite number. */
  function Ceil(v: real): (n: int)
    ensures (n - 1) as real < v <= n as real
  {
    if v.Floor as real == v then v.Floor else v.Floor + 1
  }

  /**
   * `Math.max(Math.ceil(interval), 10)`: the least integer that is neither
   * below the requested interval nor below the floor.
   */
  function ClampedSpeed(interval: real): (speed: int)
    ensures speed >= MinSpeed && interval <= speed as real
    ensures speed > MinSpeed ==> (speed - 1) as real < interval
  {
    var num := Ceil(interval);
    if num > MinSpeed then num else MinSpeed
  }

  class CanvasController {
    /** The canvas size in pixels, fixed when the controller is built. */
    const width: nat
    const height: nat

    var cells: Cells
    var simulationSpeed: int
    var intervalId: Option<TimerId>
    /** Intervals scheduled by this controller and not cleared, with their periods. */
    var scheduled: map<TimerId, int>

    /**
     * The grid covers the canvas with the extra row and column, the speed is
     * never below the floor, and at most one interval is scheduled: the one
     * `intervalId` holds.
     */
    ghost predicate Valid()
      reads this
    {
      HasShape(cells, GridRows(height), GridCols(width)) &&
      simulationSpeed >= MinSpeed &&
      (scheduled == map[] || (intervalId.Some? && scheduled.Keys == {intervalId.value}))
    }

    /** `if (this.intervalId)`: a handle is held. */
    predicate Running()
      reads this
    {
      intervalId.Some?
    }

    /**
     * The constructor and `init`: size the canvas and build the all-dead grid.
     * Acquiring the drawing context, the background fill and the listener
     * registration are not part of this model.
     */
    constructor (width: nat, height: nat)
      ensures Valid()
      ensures this.width == width && this.height == height
      ensures cells == AllDead(GridRows(height), GridCols(width))
      ensures simulationSpeed == InitialSpeed && intervalId == None && scheduled == map[]
    {
      this.width := width;
      this.height := height;
      cells := [];
      simulationSpeed := InitialSpeed;
      intervalId := None;
      scheduled := map[];
      new;
      ResetCells();
    }

    /**
     * `resetCells`: row by row, a fresh empty row is written (or appended)
     * and filled with dead cells, each write at index `j == cells[i].length`
     * extending the row. Rows beyond the new row count are left as they were;
     * since the canvas size never changes they exist only if the grid had
     * been sized for a taller canvas.
     */
    method ResetCells()
      modifies this`cells
      ensures cells == AllDead(GridRows(height), GridCols(width)) +
        (if |old(cells)| > GridRows(height) then old(cells)[GridRows(height)..] else [])
    {
      var rows := GridRows(height);
      var cols := GridCols(width);
      for i := 0 to rows
        invariant |cells| == if i < |old(cells)| then |old(cells)| else i
        invariant forall k :: 0 <= k < i ==> cells[k] == DeadRow(cols)
        invariant forall k :: i <= k < |cells| ==> cells[k] == old(cells)[k]
      {
        cells := if i < |cells| then cells[i := []] else cells + [[]];
        for j := 0 to cols
          invariant |cells| == if i < |old(cells)| then |old(cells)| else i + 1
          invariant cells[i] == DeadRow(j)
          invariant forall k :: 0 <= k < i ==> cells[k] == DeadRow(cols)
          invariant forall k :: i < k < |cells| ==> cells[k] == old(cells)[k]
        {
          cells := cells[i := cells[i] + [false]];
        }
      }
      var expected := AllDead(rows, cols) + (if |old(cells)| > rows then old(cells)[rows..] else []);
      assert forall k :: 0 <= k < |cells| ==> cells[k] == expected[k];
    }

    /**
     * The click handler: the pixel is mapped to its cell, which is toggled in
     * place. A click inside the canvas always lands on a cell of the grid.
     */
    method Click(x: int, y: int)
      requires Valid()
      requires 0 <= x <= width && 0 <= y <= height
      modifies this`cells
      ensures Valid()
      ensures var p := FindCell(x, y, CellSize);
        InBounds(old(cells), p.row, p.col) && cells == Toggled(old(cells), p.row, p.col)
    {
      var pos := FindCell(x, y, CellSize);
      ClickInGrid(width, height, x, y);
      cells := cells[pos.row := cells[pos.row][pos.col := !cells[pos.row][pos.col]]];
    }

    /** One firing of the interval (`simulate`): the grid is replaced by the next generation. */
    method Tick()
      requires Valid()
      modifies this`cells
      ensures Valid()
      ensures cells == EvalCells(old(cells))
    {
      EvalCellsShape(cells, GridRows(height), GridCols(width));
      cells := EvalCells(cells);
    }

    /**
     * `start`: nothing happens when already running; otherwise `timer` is the
     * handle of a fresh interval firing every `simulationSpeed` milliseconds.
     */
    method Start(timer: TimerId)
      requires Valid()
      modifies this`intervalId, this`scheduled
      ensures Valid()
      ensures old(Running()) ==> intervalId == old(intervalId) && scheduled == old(scheduled)
      ensures !old(Running()) ==> intervalId == Some(timer) && scheduled == map[timer := simulationSpeed]
    {
      if intervalId.Some? {
        return;
      }
      scheduled := scheduled[timer := simulationSpeed];
      intervalId := Some(timer);
    }

    /** `stop`: the held interval, if any, is cleared, and the controller is stopped. */
    method Stop()
      requires Valid()
      modifies this`intervalId, this`scheduled
      ensures Valid() && !Running()
      ensures scheduled == (if old(Running()) then old(scheduled) - {old(intervalId).value} else old(scheduled))
      ensures scheduled == map[]
    {
      if intervalId.Some? {
        scheduled := scheduled - {intervalId.value};
      }
      intervalId := None;
    }

    /** `getInterval`. */
    function GetInterval(): (speed: int)
      reads this
      requires Valid()
      ensures speed >= MinSpeed
    {
      simulationSpeed
    }

    /**
     * `setSimulationSpeed`: the speed becomes `Math.max(Math.ceil(interval), 10)`;
     * a running simulation is stopped and started again (with `timer`, the
     * handle of the new interval) so that it fires at the new speed. Whether
     * the controller is running does not change.
     */
    method SetSimulationSpeed(interval: real, timer: TimerId)
      requires Valid()
      modifies this`simulationSpeed, this`intervalId, this`scheduled
      ensures Valid()
      ensures simulationSpeed == ClampedSpeed(interval)
      ensures Running() == old(Running())
      ensures old(Running()) ==> intervalId == Some(timer) && scheduled == map[timer := simulationSpeed]
      ensures !old(Running()) ==> intervalId == None && scheduled == map[]
    {
      simulationSpeed := ClampedSpeed(interval);
      if intervalId.Some? {
        Stop();
        Start(timer);
      }
    }

    /** `reset`: the grid is all dead again, with the same dimensions; the run state is untouched. */
    method Reset()
      requires Valid()
      modifies this`cells
      ensures Valid()
      ensures cells == AllDead(GridRows(height), GridCols(width))
      ensures HasShape(cells, |old(cells)|, |old(cells)[0]|) && IsAllDead(cells)
    {
      ResetCells();
    }

    /**
     * `destroy`: the held interval is cleared, leaving nothing scheduled, but
     * `intervalId` keeps the stale handle, so a later `start` does nothing.
     */
    method Destroy()
      requires Valid()
      modifies this`scheduled
      ensures Valid() && scheduled == map[]
    {
      if intervalId.Some? {
        scheduled := scheduled - {intervalId.value};
      }
    }
  }

  /** Two clicks on the same pixel leave the grid as it was. */
  method ClickTwice(c: CanvasController, x: int, y: int)
    requires c.Valid()
    requires 0 <= x <= c.width && 0 <= y <= c.height
    modifies c`cells
    ensures c.Valid() && c.cells == old(c.cells)
  {
    c.Click(x, y);
    c.Click(x, y);
    var p := FindCell(x, y, CellSize);
    ToggleTwice(old(c.cells), p.row, p.col);
  }
}
