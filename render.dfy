/** The renderer's checkable part: which cells a frame paints, in which order,
    and with which palette colour. The raster calls themselves are not modelled. */
module Renderer {
  import opened GridModel

  /** The four fill colours, from sparse to crowded neighbourhoods. */
  const Colors: seq<string> := ["#9be9a8", "#40c463", "#30a14e", "#216e39"]

  /** `Math.min` on integers. */
  function Min(a: int, b: int): (m: int)
    ensures m <= a && m <= b
    ensures m == a || m == b
  {
    if a <= b then a else b
  }

  /** The palette index used for a live cell with `neighbors` live neighbours:
      the count itself, saturating at the last colour. */
  function ColorIndex(neighbors: nat): (c: nat)
    ensures c < |Colors|
    ensures neighbors <= 3 ==> c == neighbors
    ensures neighbors >= 3 ==> c == |Colors| - 1
  {
    Min(3, neighbors)
  }

  /** One filled cell: its grid position and the fill style set before it. */
  datatype Paint = Paint(col: nat, row: nat, fill: string)

  /** The paint for the live cell (x, y) of `g`. */
  function PaintFor(g: Grid, x: nat, y: nat): (p: Paint)
    requires InBounds(g, x, y)
    ensures p.col == x && p.row == y && p.fill in Colors
  {
    Paint(x, y, Colors[ColorIndex(Neighbors(g, x, y))])
  }

  /** The paints for the live cells among the first `n` rows of column x, top down. */
  function ColumnPaints(g: Grid, x: nat, n: nat): (s: seq<Paint>)
    requires WellFormed(g) && x < |g| && n <= Rows(g)
    ensures |s| <= n
  {
    if n == 0 then []
    else ColumnPaints(g, x, n - 1) + (if g[x][n - 1] then [PaintFor(g, x, n - 1)] else [])
  }

  /** The paints for the live cells of the first `m` columns, column by column. */
  function PaintsBefore(g: Grid, m: nat): (s: seq<Paint>)
    requires WellFormed(g) && m <= |g|
    ensures |s| <= m * Rows(g)
  {
    if m == 0 then [] else PaintsBefore(g, m - 1) + ColumnPaints(g, m - 1, Rows(g))
  }

  /** Everything one frame paints, in the order it is painted. */
  function Frame(g: Grid): (s: seq<Paint>)
    requires WellFormed(g)
    ensures |s| <= |g| * Rows(g)
  {
    PaintsBefore(g, |g|)
  }

  /** p is the paint of a live cell of g, with the colour its count selects. */
  predicate PaintsLiveCell(g: Grid, p: Paint) {
    InBounds(g, p.col, p.row) && g[p.col][p.row] && p == PaintFor(g, p.col, p.row)
  }

  /** Column-major order on painted positions. */
  predicate Before(p: Paint, q: Paint) {
    p.col < q.col || (p.col == q.col && p.row < q.row)
  }

  predicate StrictlyOrdered(s: seq<Paint>) {
    forall k, l :: 0 <= k < l < |s| ==> Before(s[k], s[l])
  }

  lemma {:induction false} ColumnPaintsFacts(g: Grid, x: nat, n: nat)
    requires WellFormed(g) && x < |g| && n <= Rows(g)
    ensures forall p :: p in ColumnPaints(g, x, n) ==> PaintsLiveCell(g, p) && p.col == x && p.row < n
    ensures StrictlyOrdered(ColumnPaints(g, x, n))
    ensures forall y :: 0 <= y < n && g[x][y] ==> PaintFor(g, x, y) in ColumnPaints(g, x, n)
  {
    if n > 0 {
      ColumnPaintsFacts(g, x, n - 1);
    }
  }

  lemma {:induction false} PaintsBeforeFacts(g: Grid, m: nat)
    requires WellFormed(g) && m <= |g|
    ensures forall p :: p in PaintsBefore(g, m) ==> PaintsLiveCell(g, p) && p.col < m
    ensures StrictlyOrdered(PaintsBefore(g, m))
    ensures forall x, y :: 0 <= x < m && 0 <= y < Rows(g) && g[x][y] ==> PaintFor(g, x, y) in PaintsBefore(g, m)
  {
    if m > 0 {
      PaintsBeforeFacts(g, m - 1);
      ColumnPaintsFacts(g, m - 1, Rows(g));
      var a, b := PaintsBefore(g, m - 1), ColumnPaints(g, m - 1, Rows(g));
      assert PaintsBefore(g, m) == a + b;
      forall k, l | 0 <= k < l < |a + b| ensures Before((a + b)[k], (a + b)[l]) {
        if l < |a| {
        } else if k < |a| {
          assert a[k] in a && b[l - |a|] in b;
        } else {
          assert (a + b)[k] == b[k - |a|] && (a + b)[l] == b[l - |a|];
        }
      }
    }
  }

  /** A frame paints only live cells, each with the colour of its own count. */
  lemma FramePaintsOnlyLiveCells(g: Grid, p: Paint)
    requires WellFormed(g) && p in Frame(g)
    ensures PaintsLiveCell(g, p)
  {
    PaintsBeforeFacts(g, |g|);
  }

  /** A frame paints every live cell, and no position twice: the paints are in
      strict column-major order. */
  lemma FramePaintsEveryLiveCellOnce(g: Grid)
    requires WellFormed(g)
    ensures forall x, y :: 0 <= x < |g| && 0 <= y < Rows(g) && g[x][y] ==> PaintFor(g, x, y) in Frame(g)
    ensures StrictlyOrdered(Frame(g))
  {
    PaintsBeforeFacts(g, |g|);
  }

  /** The palette gives the four counts 0, 1, 2 and 3 four different colours;
      every count from 3 on shares the last one. */
  lemma ColoursDistinguishCounts(n: nat, m: nat)
    ensures |Colors| == 4
    ensures n <= 3 && m <= 3 && n != m ==> Colors[ColorIndex(n)] != Colors[ColorIndex(m)]
    ensures n >= 3 && m >= 3 ==> Colors[ColorIndex(n)] == Colors[ColorIndex(m)]
  {
  }

  /** A live cell with five live neighbours takes the last palette colour. */
  lemma CrowdedCellTakesLastColour()
    ensures Colors[ColorIndex(5)] == "#216e39"
  {
  }
}
