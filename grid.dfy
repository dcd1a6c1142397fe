/** The grid model: a toroidal field of live/dead cells, its wrap-around
    arithmetic, the neighbour count every other component relies on, and the
    random seeding of a fresh grid. */
module GridModel {

  /** One generation: `g[x][y]` is the cell in column x, row y; true is alive. */
  type Grid = seq<seq<bool>>

  /** The number of rows, read off the first column (0 when there are no columns). */
  function Rows(g: Grid): nat {
    if |g| == 0 then 0 else |g[0]|
  }

  /** Every column has the same length. */
  predicate WellFormed(g: Grid) {
    forall c :: 0 <= c < |g| ==> |g[c]| == Rows(g)
  }

  /** `g` has exactly `cols` columns, each of length `rows`. */
  predicate HasShape(g: Grid, cols: nat, rows: nat) {
    |g| == cols && forall c :: 0 <= c < cols ==> |g[c]| == rows
  }

  /** (x, y) names a cell of the well-formed grid `g`. */
  predicate InBounds(g: Grid, x: nat, y: nat) {
    WellFormed(g) && x < |g| && y < Rows(g)
  }

  /** Every cell of `g` is `b`. */
  predicate AllCells(g: Grid, b: bool) {
    forall x, y :: 0 <= x < |g| && 0 <= y < |g[x]| ==> g[x][y] == b
  }

  /** A grid with no live cell. */
  predicate AllDead(g: Grid) {
    AllCells(g, false)
  }

  /** A grid with no dead cell. */
  predicate AllAlive(g: Grid) {
    AllCells(g, true)
  }

  lemma ShapeIsWellFormed(g: Grid, cols: nat, rows: nat)
    requires HasShape(g, cols, rows)
    ensures WellFormed(g)
    ensures cols > 0 ==> Rows(g) == rows
  {
  }

  /** JavaScript's `%` on a positive divisor: the remainder has the sign of the
      dividend, because the quotient is truncated toward zero. */
  function JsRem(a: int, n: int): (r: int)
    requires n > 0
    ensures a >= 0 ==> 0 <= r < n
    ensures a < 0 ==> -n < r <= 0
    ensures -n < a < n ==> r == a
    ensures n <= a < 2 * n ==> r == a - n
    ensures -2 * n < a <= -n ==> r == a + n
  {
    if a >= 0 then RemainderFacts(a, n); a % n
    else RemainderFacts(-a, n); -((-a) % n)
  }

  /** Euclidean remainder of a dividend below twice the divisor. */
  lemma RemainderFacts(b: int, n: int)
    requires n > 0 && b >= 0
    ensures b < n ==> b % n == b
    ensures n <= b < 2 * n ==> b % n == b - n
  {
    if b < n {
      RemainderOfSmall(b, n);
    } else if b < 2 * n {
      RemainderOfSmall(b - n, n);
      assert b % n == (b - n) % n;
    }
  }

  lemma RemainderOfSmall(b: int, n: int)
    requires 0 <= b < n
    ensures b % n == b
  {
  }

  /** The wrapped coordinate `(v + d + n) % n` of the neighbour at offset d
      along an axis of length n: one step past either edge lands on the other. */
  function Wrap(v: nat, d: int, n: nat): (r: nat)
    requires v < n && -1 <= d <= 1
    ensures r < n
    ensures r == (if v + d < 0 then n - 1 else if v + d == n then 0 else v + d)
  {
    JsRem(v + d + n, n)
  }

  /** A wrapped step of -1 or +1 moves off the starting coordinate as soon as the
      axis has two or more positions; on an axis of length 1 it stays put. */
  lemma WrapMoves(v: nat, d: int, n: nat)
    requires v < n && -1 <= d <= 1 && d != 0
    ensures Wrap(v, d, n) == v <==> n == 1
  {
  }

  /** An offset of at most one step along each axis. */
  predicate IsUnitOffset(o: (int, int)) {
    -1 <= o.0 <= 1 && -1 <= o.1 <= 1
  }

  predicate AllUnitOffsets(offs: seq<(int, int)>) {
    forall k :: 0 <= k < |offs| ==> IsUnitOffset(offs[k])
  }

  /** The eight surrounding offsets, in the order the neighbour loop visits them
      (column offset outermost, the centre (0, 0) left out). */
  const Offsets: seq<(int, int)> :=
    [(-1, -1), (-1, 0), (-1, 1), (0, -1), (0, 1), (1, -1), (1, 0), (1, 1)]

  /** Eight unit steps, none of them the centre. */
  lemma OffsetsAreTheEightNeighbours()
    ensures |Offsets| == 8 && AllUnitOffsets(Offsets)
    ensures forall k :: 0 <= k < |Offsets| ==> Offsets[k] != (0, 0)
  {
  }

  /** Every unit step other than the centre is listed ... */
  lemma OffsetsCoverNeighbourhood(i: int, j: int)
    requires -1 <= i <= 1 && -1 <= j <= 1 && (i, j) != (0, 0)
    ensures (i, j) in Offsets
  {
  }

  /** The order of the double loop: column offset first, then row offset. */
  predicate LoopOrderBefore(o: (int, int), p: (int, int)) {
    o.0 < p.0 || (o.0 == p.0 && o.1 < p.1)
  }

  /** ... listed once, in the order the loop visits them. */
  lemma OffsetsAreDistinct()
    ensures forall k, l :: 0 <= k < l < |Offsets| ==> LoopOrderBefore(Offsets[k], Offsets[l])
    ensures forall k, l :: 0 <= k < l < |Offsets| ==> Offsets[k] != Offsets[l]
  {
  }

  /** A cell's contribution to a sum: JavaScript adds `true` as 1 and `false` as 0. */
  function CellValue(b: bool): nat {
    if b then 1 else 0
  }

  /** Adding a cell to the sum adds 1 exactly when the cell is alive. */
  lemma CellValueCountsLiveCells(b: bool)
    ensures CellValue(b) <= 1
    ensures CellValue(b) == 1 <==> b
  {
  }

  /** The 0/1 value of the cell at offset `o` from (x, y), indices wrapped. */
  function Contribution(g: Grid, x: nat, y: nat, o: (int, int)): (v: nat)
    requires InBounds(g, x, y) && IsUnitOffset(o)
    ensures v <= 1
  {
    CellValue(g[Wrap(x, o.0, |g|)][Wrap(y, o.1, Rows(g))])
  }

  /** The number of live cells at the offsets `offs` from (x, y). */
  function CountOver(g: Grid, x: nat, y: nat, offs: seq<(int, int)>): (n: nat)
    requires InBounds(g, x, y) && AllUnitOffsets(offs)
    ensures n <= |offs|
  {
    if offs == [] then 0
    else Contribution(g, x, y, offs[0]) + CountOver(g, x, y, offs[1..])
  }

  /** The number of live cells among the eight toroidal neighbours of (x, y). */
  function Neighbors(g: Grid, x: nat, y: nat): (n: nat)
    requires InBounds(g, x, y)
    ensures n <= 8
  {
    CountOver(g, x, y, Offsets)
  }

  /** What the neighbour loop adds at step (i, j): nothing at the centre,
      otherwise the 0/1 value of the wrapped cell. */
  function StepValue(g: Grid, x: nat, y: nat, i: int, j: int): (v: nat)
    requires InBounds(g, x, y) && -1 <= i <= 1 && -1 <= j <= 1
    ensures v <= 1
  {
    if i == 0 && j == 0 then 0 else Contribution(g, x, y, (i, j))
  }

  /** What the loop has added in row i of the offsets before reaching column j
      (j == 2 is the end of the row). */
  function RowSoFar(g: Grid, x: nat, y: nat, i: int, j: int): (n: nat)
    requires InBounds(g, x, y) && -1 <= i <= 1 && -1 <= j <= 2
    ensures n <= j + 1
    ensures i == 0 ==> n <= 2
  {
    (if j > -1 then StepValue(g, x, y, i, -1) else 0) +
    (if j > 0 then StepValue(g, x, y, i, 0) else 0) +
    (if j > 1 then StepValue(g, x, y, i, 1) else 0)
  }

  /** What the loop has added in the rows of offsets before row i (i == 2 is the
      end of the loop). */
  function CountSoFar(g: Grid, x: nat, y: nat, i: int): (n: nat)
    requires InBounds(g, x, y) && -1 <= i <= 2
    ensures n <= 3 * (i + 1)
    ensures n <= 8
  {
    (if i > -1 then RowSoFar(g, x, y, -1, 2) else 0) +
    (if i > 0 then RowSoFar(g, x, y, 0, 2) else 0) +
    (if i > 1 then RowSoFar(g, x, y, 1, 2) else 0)
  }

  /** The loop order agrees with the list of offsets: once the loop has run
      through all nine steps it has added exactly the neighbour count. */
  lemma CountSoFarCompletes(g: Grid, x: nat, y: nat)
    requires InBounds(g, x, y)
    ensures CountSoFar(g, x, y, 2) == Neighbors(g, x, y)
  {
    OffsetsAreTheEightNeighbours();
    CountOverEight(g, x, y, Offsets);
  }

  /** The neighbour count as the sum of its eight wrapped cells, where l and r
      are the wrapped columns either side of x and d and u the wrapped rows
      either side of y. */
  lemma NeighborsWrittenOut(g: Grid, x: nat, y: nat, l: nat, r: nat, d: nat, u: nat)
    requires InBounds(g, x, y)
    requires l == Wrap(x, -1, |g|) && r == Wrap(x, 1, |g|)
    requires d == Wrap(y, -1, Rows(g)) && u == Wrap(y, 1, Rows(g))
    ensures Neighbors(g, x, y) ==
      CellValue(g[l][d]) + CellValue(g[l][y]) + CellValue(g[l][u]) +
      CellValue(g[x][d]) + CellValue(g[x][u]) +
      CellValue(g[r][d]) + CellValue(g[r][y]) + CellValue(g[r][u])
  {
    OffsetsAreTheEightNeighbours();
    CountOverEight(g, x, y, Offsets);
    assert Wrap(x, 0, |g|) == x && Wrap(y, 0, Rows(g)) == y;
  }

  /** The count over eight offsets, written out term by term. */
  lemma CountOverEight(g: Grid, x: nat, y: nat, s: seq<(int, int)>)
    requires InBounds(g, x, y) && AllUnitOffsets(s) && |s| == 8
    ensures CountOver(g, x, y, s) ==
      Contribution(g, x, y, s[0]) + Contribution(g, x, y, s[1]) + Contribution(g, x, y, s[2]) +
      Contribution(g, x, y, s[3]) + Contribution(g, x, y, s[4]) + Contribution(g, x, y, s[5]) +
      Contribution(g, x, y, s[6]) + Contribution(g, x, y, s[7])
  {
    assert s[0..] == s && s[8..] == [];
    CountOverStep(g, x, y, s, 0);
    CountOverStep(g, x, y, s, 1);
    CountOverStep(g, x, y, s, 2);
    CountOverStep(g, x, y, s, 3);
    CountOverStep(g, x, y, s, 4);
    CountOverStep(g, x, y, s, 5);
    CountOverStep(g, x, y, s, 6);
    CountOverStep(g, x, y, s, 7);
  }

  /** One unfolding of the count over a suffix of the offsets. */
  lemma CountOverStep(g: Grid, x: nat, y: nat, s: seq<(int, int)>, k: nat)
    requires InBounds(g, x, y) && AllUnitOffsets(s) && k < |s|
    ensures AllUnitOffsets(s[k..]) && AllUnitOffsets(s[k + 1..])
    ensures CountOver(g, x, y, s[k..]) == Contribution(g, x, y, s[k]) + CountOver(g, x, y, s[k + 1..])
  {
    assert s[k..][0] == s[k] && s[k..][1..] == s[k + 1..];
  }

  /** Every listed offset whose cell is alive adds to the count. */
  lemma {:induction false} CountOverAtLeast(g: Grid, x: nat, y: nat, offs: seq<(int, int)>, k: nat)
    requires InBounds(g, x, y) && AllUnitOffsets(offs) && k < |offs|
    ensures CountOver(g, x, y, offs) >= Contribution(g, x, y, offs[k])
  {
    if k > 0 {
      CountOverAtLeast(g, x, y, offs[1..], k - 1);
    }
  }

  /** Two grids whose cells agree at every listed offset give the same count. */
  lemma {:induction false} CountOverAgrees(g: Grid, h: Grid, x: nat, y: nat, offs: seq<(int, int)>)
    requires InBounds(g, x, y) && InBounds(h, x, y) && AllUnitOffsets(offs)
    requires |g| == |h| && Rows(g) == Rows(h)
    requires forall k :: 0 <= k < |offs| ==> Contribution(g, x, y, offs[k]) == Contribution(h, x, y, offs[k])
    ensures CountOver(g, x, y, offs) == CountOver(h, x, y, offs)
  {
    if offs != [] {
      assert Contribution(g, x, y, offs[0]) == Contribution(h, x, y, offs[0]);
      CountOverAgrees(g, h, x, y, offs[1..]);
    }
  }

  /** On a grid whose cells are all `b`, every listed offset counts when b is true
      and none does when b is false. */
  lemma {:induction false} CountOverUniform(g: Grid, x: nat, y: nat, offs: seq<(int, int)>, b: bool)
    requires InBounds(g, x, y) && AllUnitOffsets(offs)
    requires AllCells(g, b)
    ensures CountOver(g, x, y, offs) == if b then |offs| else 0
  {
    if offs != [] {
      CountOverUniform(g, x, y, offs[1..], b);
    }
  }

  /** Toroidal wrap in both axes at once: a live cell at the origin is a
      neighbour of the opposite corner. */
  lemma OriginNeighboursFarCorner(g: Grid)
    requires WellFormed(g) && |g| > 0 && Rows(g) > 0 && g[0][0]
    ensures Neighbors(g, |g| - 1, Rows(g) - 1) >= 1
  {
    var x, y := |g| - 1, Rows(g) - 1;
    assert Offsets[7] == (1, 1);
    assert Wrap(x, 1, |g|) == 0 && Wrap(y, 1, Rows(g)) == 0;
    assert Contribution(g, x, y, Offsets[7]) == 1;
    CountOverAtLeast(g, x, y, Offsets, 7);
  }

  /** Any live cell one wrapped step away (in a direction other than the centre)
      is counted. */
  lemma LiveNeighbourCounts(g: Grid, x: nat, y: nat, i: int, j: int)
    requires InBounds(g, x, y) && -1 <= i <= 1 && -1 <= j <= 1 && (i, j) != (0, 0)
    requires g[Wrap(x, i, |g|)][Wrap(y, j, Rows(g))]
    ensures Neighbors(g, x, y) >= 1
  {
    OffsetsAreTheEightNeighbours();
    OffsetsCoverNeighbourhood(i, j);
    var k :| 0 <= k < |Offsets| && Offsets[k] == (i, j);
    CountOverAtLeast(g, x, y, Offsets, k);
  }

  /** The centre is never counted: once both axes have at least two positions,
      changing the cell itself leaves its count unchanged. */
  lemma NeighborsIgnoreOwnCell(g: Grid, x: nat, y: nat, b: bool)
    requires InBounds(g, x, y) && |g| >= 2 && Rows(g) >= 2
    ensures InBounds(g[x := g[x][y := b]], x, y)
    ensures Neighbors(g[x := g[x][y := b]], x, y) == Neighbors(g, x, y)
  {
    var h := g[x := g[x][y := b]];
    assert Rows(h) == Rows(g);
    assert WellFormed(h);
    OffsetsAreTheEightNeighbours();
    forall k | 0 <= k < |Offsets|
      ensures Contribution(h, x, y, Offsets[k]) == Contribution(g, x, y, Offsets[k])
    {
      var o := Offsets[k];
      if o.0 != 0 {
        WrapMoves(x, o.0, |g|);
      } else {
        WrapMoves(y, o.1, Rows(g));
      }
    }
    CountOverAgrees(h, g, x, y, Offsets);
  }

  /** On a fully alive grid every cell has eight live neighbours, whatever its
      size: on an axis of length 1 or 2 the wrapped offsets alias the same
      cells, possibly the cell itself, and each position is counted. */
  lemma FullGridNeighbors(g: Grid, x: nat, y: nat)
    requires InBounds(g, x, y)
    requires AllAlive(g)
    ensures Neighbors(g, x, y) == 8
  {
    OffsetsAreTheEightNeighbours();
    CountOverUniform(g, x, y, Offsets, true);
  }

  /** On an all-dead grid every count is zero. */
  lemma DeadGridNeighbors(g: Grid, x: nat, y: nat)
    requires InBounds(g, x, y)
    requires AllDead(g)
    ensures Neighbors(g, x, y) == 0
  {
    OffsetsAreTheEightNeighbours();
    CountOverUniform(g, x, y, Offsets, false);
  }

  /** A single live cell on a 1 x 1 grid is its own neighbour eight times over. */
  lemma LoneCellCountsItself()
    ensures InBounds([[true]], 0, 0) && Neighbors([[true]], 0, 0) == 8
  {
    FullGridNeighbors([[true]], 0, 0);
  }

  /** `Math.random() > 0.7`: a cell starts alive with probability 0.3. */
  const AliveThreshold: real := 0.7

  /** The position, among the `Math.random()` calls made while seeding, of the
      call for cell (x, y): columns are filled one after the other. */
  function DrawIndex(x: nat, y: nat, rows: nat): (k: nat)
    ensures y < rows ==> x * rows <= k < x * rows + rows
  {
    x * rows + y
  }

  /** A fresh `cols` x `rows` grid whose cell (x, y) is alive exactly when the
      random draw made for it exceeds the threshold; `random(k)` is the value
      the k-th call returns. */
  function Seed(cols: nat, rows: nat, random: nat -> real): (g: Grid)
    ensures HasShape(g, cols, rows)
    ensures forall x, y :: 0 <= x < cols && 0 <= y < rows ==>
              g[x][y] == (random(DrawIndex(x, y, rows)) > AliveThreshold)
  {
    seq(cols, x requires 0 <= x < cols =>
      seq(rows, y requires 0 <= y < rows => random(DrawIndex(x, y, rows)) > AliveThreshold))
  }

  /** Every cell of a `cols` x `rows` seeding is decided by one of the first
      cols * rows draws. */
  lemma DrawIndexInRange(x: nat, y: nat, cols: nat, rows: nat)
    requires x < cols && y < rows
    ensures DrawIndex(x, y, rows) < cols * rows
  {
    assert x * rows + rows == (x + 1) * rows;
    assert (x + 1) * rows <= cols * rows by {
      assert x + 1 <= cols;
    }
  }

  /** No draw decides two different cells, so the cells are seeded independently. */
  lemma DrawIndexInjective(x1: nat, y1: nat, x2: nat, y2: nat, rows: nat)
    requires y1 < rows && y2 < rows
    requires DrawIndex(x1, y1, rows) == DrawIndex(x2, y2, rows)
    ensures x1 == x2 && y1 == y2
  {
    if x1 < x2 {
      DrawIndexInRange(x1, y1, x2, rows);
    } else if x2 < x1 {
      DrawIndexInRange(x2, y2, x1, rows);
    }
  }

  /** The draw index of a cell gives back its column and row. */
  lemma DrawIndexDecodes(x: nat, y: nat, rows: nat)
    requires y < rows
    ensures DrawIndex(x, y, rows) / rows == x && DrawIndex(x, y, rows) % rows == y
  {
    var k := DrawIndex(x, y, rows);
    DrawIndexInRange(x, y, x + 1, rows);
    DrawIndexOnto(k, x + 1, rows);
    DrawIndexInjective(k / rows, k % rows, x, y, rows);
  }

  /** The threshold is strict: draws never above 0.7 (0.7 itself included)
      seed an all-dead grid, draws all above it an all-alive one. */
  lemma SeedThreshold(cols: nat, rows: nat, random: nat -> real)
    ensures AliveThreshold == 0.7
    ensures (forall k :: random(k) <= AliveThreshold) ==> AllDead(Seed(cols, rows, random))
    ensures (forall k :: random(k) > AliveThreshold) ==> AllAlive(Seed(cols, rows, random))
  {
  }

  /** Every one of the first cols * rows draws decides some cell. */
  lemma DrawIndexOnto(k: nat, cols: nat, rows: nat)
    requires k < cols * rows
    ensures rows > 0 && k / rows < cols && k % rows < rows
    ensures DrawIndex(k / rows, k % rows, rows) == k
  {
  }
}
