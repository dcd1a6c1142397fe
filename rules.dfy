/** The rule engine: Conway's B3/S23 transition for one cell and for a whole
    generation, computed from the old grid only. */
module RuleEngine {
  import opened GridModel

  /** The next state of one cell with `neighbors` live neighbours, tested in the
      source's order: a live cell outside 2..3 dies, a dead cell with exactly 3
      is born, anything else keeps its state. */
  function NextCell(alive: bool, neighbors: nat): (r: bool)
    ensures alive && neighbors < 2 ==> !r
    ensures alive && neighbors > 3 ==> !r
    ensures alive && (neighbors == 2 || neighbors == 3) ==> r
    ensures !alive ==> (r <==> neighbors == 3)
    ensures r <==> neighbors == 3 || (alive && neighbors == 2)
  {
    if alive && (neighbors < 2 || neighbors > 3) then false
    else if !alive && neighbors == 3 then true
    else alive
  }

  /** The generation after `g`: a fresh grid of the same shape whose every cell is
      the transition of the old cell under its count in the old grid. */
  function NextGeneration(g: Grid): (r: Grid)
    requires WellFormed(g)
    ensures HasShape(r, |g|, Rows(g)) && WellFormed(r) && Rows(r) == Rows(g)
    ensures forall x, y :: 0 <= x < |g| && 0 <= y < Rows(g) ==>
              r[x][y] == NextCell(g[x][y], Neighbors(g, x, y))
  {
    seq(|g|, x requires 0 <= x < |g| =>
      seq(Rows(g), y requires 0 <= y < Rows(g) => NextCell(g[x][y], Neighbors(g, x, y))))
  }

  /** An empty world stays empty: no dead cell ever sees three live neighbours. */
  lemma DeadGridStaysDead(g: Grid)
    requires WellFormed(g) && AllDead(g)
    ensures AllDead(NextGeneration(g))
  {
    forall x, y | 0 <= x < |g| && 0 <= y < Rows(g)
      ensures !NextGeneration(g)[x][y]
    {
      DeadGridNeighbors(g, x, y);
    }
  }

  /** A fully alive world dies out in one step: every cell has eight live
      neighbours (by aliasing when an axis is shorter than 3). */
  lemma FullGridDies(g: Grid)
    requires WellFormed(g)
    requires AllAlive(g)
    ensures AllDead(NextGeneration(g))
  {
    forall x, y | 0 <= x < |g| && 0 <= y < Rows(g)
      ensures !NextGeneration(g)[x][y]
    {
      FullGridNeighbors(g, x, y);
    }
  }

  /** A 3 x 3 grid whose only live cell is the centre. */
  predicate OnlyCentreAlive(g: Grid) {
    HasShape(g, 3, 3) && forall x, y :: 0 <= x < 3 && 0 <= y < 3 ==> g[x][y] == (x == 1 && y == 1)
  }

  /** The lone centre cell has no live neighbour and dies of isolation; every
      other cell sees exactly the centre, so no cell is born. */
  lemma LoneCentreDies(g: Grid)
    requires OnlyCentreAlive(g)
    ensures WellFormed(g)
    ensures forall x, y :: 0 <= x < 3 && 0 <= y < 3 ==>
              Neighbors(g, x, y) == if x == 1 && y == 1 then 0 else 1
    ensures AllDead(NextGeneration(g))
  {
    ShapeIsWellFormed(g, 3, 3);
    forall x, y | 0 <= x < 3 && 0 <= y < 3
      ensures Neighbors(g, x, y) == if x == 1 && y == 1 then 0 else 1
    {
      LoneCentreCount(g, x, y);
    }
  }

  /** The count of one cell of the lone centre. */
  lemma LoneCentreCount(g: Grid, x: nat, y: nat)
    requires OnlyCentreAlive(g) && x < 3 && y < 3
    ensures InBounds(g, x, y) && Neighbors(g, x, y) == if x == 1 && y == 1 then 0 else 1
  {
    ShapeIsWellFormed(g, 3, 3);
    WrapOnThree(x);
    WrapOnThree(y);
    NeighborsWrittenOut(g, x, y, Wrap(x, -1, 3), Wrap(x, 1, 3), Wrap(y, -1, 3), Wrap(y, 1, 3));
  }

  /** A 3 x 3 grid alive everywhere except its centre. */
  predicate OnlyCentreDead(g: Grid) {
    HasShape(g, 3, 3) && forall x, y :: 0 <= x < 3 && 0 <= y < 3 ==> g[x][y] == !(x == 1 && y == 1)
  }

  /** The centre sees all eight live cells and stays dead (8 is not 3); every
      other cell sees seven (on a 3 x 3 torus the eight offsets reach the eight
      other cells) and dies of overcrowding. */
  lemma HollowSquareDies(g: Grid)
    requires OnlyCentreDead(g)
    ensures WellFormed(g)
    ensures forall x, y :: 0 <= x < 3 && 0 <= y < 3 ==>
              Neighbors(g, x, y) == if x == 1 && y == 1 then 8 else 7
    ensures AllDead(NextGeneration(g))
  {
    ShapeIsWellFormed(g, 3, 3);
    forall x, y | 0 <= x < 3 && 0 <= y < 3
      ensures Neighbors(g, x, y) == if x == 1 && y == 1 then 8 else 7
    {
      HollowSquareCount(g, x, y);
    }
  }

  /** The count of one cell of the hollow square. */
  lemma HollowSquareCount(g: Grid, x: nat, y: nat)
    requires OnlyCentreDead(g) && x < 3 && y < 3
    ensures InBounds(g, x, y) && Neighbors(g, x, y) == if x == 1 && y == 1 then 8 else 7
  {
    ShapeIsWellFormed(g, 3, 3);
    WrapOnThree(x);
    WrapOnThree(y);
    NeighborsWrittenOut(g, x, y, Wrap(x, -1, 3), Wrap(x, 1, 3), Wrap(y, -1, 3), Wrap(y, 1, 3));
  }

  /** The two wrapped neighbours of each coordinate on an axis of length 3. */
  lemma WrapOnThree(v: nat)
    requires v < 3
    ensures v == 0 ==> Wrap(v, -1, 3) == 2 && Wrap(v, 1, 3) == 1
    ensures v == 1 ==> Wrap(v, -1, 3) == 0 && Wrap(v, 1, 3) == 2
    ensures v == 2 ==> Wrap(v, -1, 3) == 1 && Wrap(v, 1, 3) == 0
  {
  }
}
