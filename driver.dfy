/** The animation driver: the program's mutable state (the grid, its
    dimensions and the time of the last drawn frame) and the operations that
    change it, each proved against the pure definitions of the other modules. */
module AnimationDriver {
  import opened GridModel
  import opened RuleEngine
  import opened Renderer

  /** Side of a cell in pixels. */
  const CellSize: nat := 10

  /** Minimum time between two drawn frames, in milliseconds. */
  const FrameInterval: int := 500

  datatype Option<T> = None | Some(value: T)

  /** Whether a refresh callback at `currentTime` draws and steps. */
  function Due(currentTime: int, lastDrawTime: int): (due: bool)
    ensures due ==> currentTime > lastDrawTime
  {
    currentTime - lastDrawTime >= FrameInterval
  }

  /** The start-up call `animate(0)`, with nothing drawn yet, is not due; the
      first frame is drawn at the first timestamp 500 ms or more after it. */
  lemma StartupTickIsIdle(t: int)
    ensures !Due(0, 0)
    ensures Due(t, 0) <==> t >= 500
  {
  }

  /** The floored cell counts cover the surface up to a strip narrower than one
      cell on each axis. */
  lemma GridFitsSurface(width: nat, height: nat)
    ensures (width / CellSize) * CellSize <= width < (width / CellSize) * CellSize + CellSize
    ensures (height / CellSize) * CellSize <= height < (height / CellSize) * CellSize + CellSize
  {
  }

  class Simulation {
    var grid: Grid
    var cols: nat
    var rows: nat
    var lastDrawTime: int

    /** The grid has `cols` columns of `rows` cells each. */
    ghost predicate Valid()
      reads this
      ensures Valid() ==> WellFormed(grid) && |grid| == cols && (cols > 0 ==> Rows(grid) == rows)
    {
      HasShape(grid, cols, rows)
    }

    /** Program start: an empty grid and no frame drawn yet, then one resize to
        the initial surface. */
    constructor (width: nat, height: nat, random: nat -> real)
      ensures Valid()
      ensures cols == width / CellSize && rows == height / CellSize
      ensures grid == Seed(cols, rows, random)
      ensures lastDrawTime == 0
    {
      grid := [];
      cols, rows := 0, 0;
      lastDrawTime := 0;
      new;
      Resize(width, height, random);
    }

    /** A resize: new dimensions from the surface size, then a freshly seeded
        grid; the current generation is discarded. */
    method Resize(width: nat, height: nat, random: nat -> real)
      modifies this
      ensures Valid()
      ensures cols == width / CellSize && rows == height / CellSize
      ensures grid == Seed(cols, rows, random)
      ensures lastDrawTime == old(lastDrawTime)
    {
      cols := width / CellSize;
      rows := height / CellSize;
      InitializeGrid(random);
    }

    /** Reseeds a `cols` x `rows` grid, one draw per cell, column by column. */
    method InitializeGrid(random: nat -> real)
      modifies this
      ensures Valid() && grid == Seed(cols, rows, random)
      ensures cols == old(cols) && rows == old(rows) && lastDrawTime == old(lastDrawTime)
    {
      grid := Seed(cols, rows, random);
    }

    /** The live cells among the eight wrapped neighbours of (x, y). */
    method CountLiveNeighbors(x: nat, y: nat) returns (sum: nat)
      requires Valid() && x < cols && y < rows
      ensures InBounds(grid, x, y) && sum == Neighbors(grid, x, y)
    {
      ShapeIsWellFormed(grid, cols, rows);
      sum := 0;
      var i := -1;
      while i <= 1
        invariant -1 <= i <= 2
        invariant sum == CountSoFar(grid, x, y, i)
      {
        var j := -1;
        while j <= 1
          invariant -1 <= j <= 2
          invariant sum == CountSoFar(grid, x, y, i) + RowSoFar(grid, x, y, i, j)
        {
          if i == 0 && j == 0 {
          } else {
            var col := Wrap(x, i, cols);
            var row := Wrap(y, j, rows);
            sum := sum + CellValue(grid[col][row]);
          }
          j := j + 1;
        }
        i := i + 1;
      }
      CountSoFarCompletes(grid, x, y);
    }

    /** Paints every live cell with the colour its count selects, column by
        column; the paints are returned in the order they are made. */
    method DrawGrid() returns (paints: seq<Paint>)
      requires Valid()
      ensures WellFormed(grid) && paints == Frame(grid)
    {
      ShapeIsWellFormed(grid, cols, rows);
      paints := [];
      var i := 0;
      while i < cols
        invariant 0 <= i <= cols
        invariant paints == PaintsBefore(grid, i)
      {
        var j := 0;
        while j < rows
          invariant 0 <= j <= rows
          invariant paints == PaintsBefore(grid, i) + ColumnPaints(grid, i, j)
        {
          if grid[i][j] {
            var neighbors := CountLiveNeighbors(i, j);
            paints := paints + [Paint(i, j, Colors[ColorIndex(neighbors)])];
          }
          j := j + 1;
        }
        i := i + 1;
      }
    }

    /** Replaces the grid by its next generation, built in full in a fresh grid
        before it is swapped in. */
    method UpdateGrid()
      requires Valid()
      modifies this
      ensures Valid()
      ensures grid == NextGeneration(old(grid))
      ensures cols == old(cols) && rows == old(rows) && lastDrawTime == old(lastDrawTime)
    {
      ShapeIsWellFormed(grid, cols, rows);
      ghost var next := NextGeneration(grid);
      var nextGrid: Grid := [];
      var i := 0;
      while i < cols
        invariant 0 <= i <= cols
        invariant |nextGrid| == i
        invariant unchanged(this)
        invariant forall x :: 0 <= x < i ==> nextGrid[x] == next[x]
      {
        var column := NextColumn(i);
        nextGrid := nextGrid + [column];
        i := i + 1;
      }
      assert nextGrid == next;
      grid := nextGrid;
    }

    /** Column x of the next generation, cell by cell, from the current grid. */
    method NextColumn(x: nat) returns (column: seq<bool>)
      requires Valid() && x < cols
      ensures WellFormed(grid) && column == NextGeneration(grid)[x]
    {
      ShapeIsWellFormed(grid, cols, rows);
      column := [];
      var j := 0;
      while j < rows
        invariant 0 <= j <= rows
        invariant |column| == j
        invariant forall y :: 0 <= y < j ==> column[y] == NextCell(grid[x][y], Neighbors(grid, x, y))
      {
        var neighbors := CountLiveNeighbors(x, j);
        column := column + [NextCell(grid[x][j], neighbors)];
        j := j + 1;
      }
    }

    /** One refresh callback: when a full frame interval has passed since the
        last drawn frame, draws the grid, steps it and records the time; the
        result is the frame drawn, or None when nothing was drawn. */
    method Animate(currentTime: int) returns (frame: Option<seq<Paint>>)
      requires Valid()
      modifies this
      ensures Valid() && cols == old(cols) && rows == old(rows)
      ensures !Due(currentTime, old(lastDrawTime)) ==>
                frame == None && grid == old(grid) && lastDrawTime == old(lastDrawTime)
      ensures Due(currentTime, old(lastDrawTime)) ==>
                WellFormed(old(grid)) && frame == Some(Frame(old(grid))) &&
                grid == NextGeneration(old(grid)) && lastDrawTime == currentTime
    {
      ShapeIsWellFormed(grid, cols, rows);
      if Due(currentTime, lastDrawTime) {
        var painted := DrawGrid();
        UpdateGrid();
        lastDrawTime := currentTime;
        frame := Some(painted);
      } else {
        frame := None;
      }
    }
  }
}
