/** `CellMap` of the lights example: a grid of cells, some of which exist,
    turned into wall segments. Every side of an interior existing cell whose
    neighbour across that side is empty gets an edge; runs of such sides
    along a column (west and east sides) or along a row (north and south
    sides) share one edge, which each further cell of the run extends by a
    block. Coordinates are integers and the block width a natural number. */
module CellMap {

  const North: int := 0
  const South: int := 1
  const East: int := 2
  const West: int := 3

  /** A wall segment from (sx, sy) to (ex, ey). */
  datatype Edge = Edge(sx: int, sy: int, ex: int, ey: int)

  /** A cell: per side, the id of its edge and whether it has one, and
      whether the cell itself is there (the source's `exists` flag). */
  datatype Cell = Cell(edgeId: seq<int>, edgeExist: seq<bool>, present: bool)

  type Cell4 = c: Cell | |c.edgeId| == 4 && |c.edgeExist| == 4
    witness Cell([0, 0, 0, 0], [false, false, false, false], false)

  /** A cell that does not exist and has no edges. */
  const Blank: Cell4 := Cell([0, 0, 0, 0], [false, false, false, false], false)

  /** A cell with no edges recorded. */
  predicate IsClear(c: Cell4)
  {
    c.edgeId == [0, 0, 0, 0] && c.edgeExist == [false, false, false, false]
  }

  /** Side `d` of the cell now holds edge `id`. */
  function Mark(c: Cell4, d: int, id: int): Cell4
    requires 0 <= d < 4
  {
    c.(edgeId := c.edgeId[d := id], edgeExist := c.edgeExist[d := true])
  }

  /** The arguments of one pass: the width and height of the grid the
      cells are indexed by, and the block width. */
  datatype Grid = Grid(w: int, h: int, bw: nat)

  /** How far the pass has got: all cells of columns before `x`, the cells
      of column `x` above row `y`, and the first `k` sides of cell (x, y) in
      the order west, east, north, south. */
  datatype Pos = Pos(x: int, y: int, k: int)

  /** Side `d` of cell (x, y). */
  datatype Face = Face(x: int, y: int, d: int)

  /** `y * w + x`: where cell (x, y) sits in the array. */
  function Idx(w: int, x: int, y: int): int
  {
    y * w + x
  }

  /** The number of cells the pass indexes. */
  function Area(w: int, h: int): nat
  {
    if w <= 0 || h <= 0 then 0 else w * h
  }

  predicate InGrid(g: Grid, x: int, y: int)
  {
    0 <= x < g.w && 0 <= y < g.h
  }

  /** The cells the second pass visits: all but the outer ring. */
  predicate Interior(g: Grid, x: int, y: int)
  {
    1 <= x < g.w - 1 && 1 <= y < g.h - 1
  }

  /** The neighbour across side `d`. */
  function NbX(x: int, d: int): int
  {
    if d == East then x + 1 else if d == West then x - 1 else x
  }

  function NbY(y: int, d: int): int
  {
    if d == North then y - 1 else if d == South then y + 1 else y
  }

  /** The cell whose edge on side `d` this cell extends: the one to the
      north for west and east sides, the one to the west for north and
      south sides. */
  function PrevX(x: int, d: int): int
  {
    if d == North || d == South then x - 1 else x
  }

  function PrevY(y: int, d: int): int
  {
    if d == West || d == East then y - 1 else y
  }

  /** The order in which a cell's sides are handled. */
  function Rank(d: int): int
  {
    if d == West then 0 else if d == East then 1 else if d == North then 2 else 3
  }

  /** Whether side `d` of cell (x, y) comes before position `p`. */
  predicate Done(p: Pos, x: int, y: int, d: int)
  {
    x < p.x || (x == p.x && (y < p.y || (y == p.y && Rank(d) < p.k)))
  }

  /** Whether the cell at (x, y) exists, reading nothing outside `ex`. */
  function ExAt(ex: seq<bool>, w: int, x: int, y: int): bool
  {
    var i := Idx(w, x, y);
    0 <= i < |ex| && ex[i]
  }

  /** The cell at (x, y), or a blank one outside `cells`. */
  function CellAt(cells: seq<Cell4>, w: int, x: int, y: int): Cell4
  {
    var i := Idx(w, x, y);
    if 0 <= i < |cells| then cells[i] else Blank
  }

  /** The sides that get an edge: those of an interior existing cell whose
      neighbour across the side is empty. */
  predicate Boundary(g: Grid, ex: seq<bool>, x: int, y: int, d: int)
  {
    Interior(g, x, y) && ExAt(ex, g.w, x, y) && !ExAt(ex, g.w, NbX(x, d), NbY(y, d))
  }

  /** The edge a side starts when the side before it has none. */
  function NewEdge(x: int, y: int, d: int, bw: nat): Edge
  {
    if d == West then Edge(x * bw, y * bw, x * bw, y * bw + bw)
    else if d == East then Edge(x * bw + bw, y * bw, x * bw + bw, y * bw + bw)
    else if d == North then Edge(x * bw, y * bw, x * bw + bw, y * bw)
    else Edge(x * bw, y * bw + bw, x * bw + bw, y * bw + bw)
  }

  /** A west or east edge grows down by a block, a north or south one
      right. */
  function Grow(e: Edge, d: int, bw: nat): Edge
  {
    if d == West || d == East then e.(ey := e.ey + bw) else e.(ex := e.ex + bw)
  }

  /** Edge `e` lies on the line of side `d` of cell (x, y) and covers it: a
      west or east edge is vertical, a north or south one horizontal. */
  predicate Fits(e: Edge, x: int, y: int, d: int, bw: nat)
  {
    if d == West || d == East then
      var cx := if d == West then x * bw else x * bw + bw;
      e.sx == cx && e.ex == cx && e.sy <= y * bw && y * bw + bw <= e.ey
    else
      var cy := if d == North then y * bw else y * bw + bw;
      e.sy == cy && e.ey == cy && e.sx <= x * bw && x * bw + bw <= e.ex
  }

  /** Edge `e` starts where face `f`'s new edge would. */
  predicate Starts(e: Edge, f: Face, bw: nat)
  {
    var n := NewEdge(f.x, f.y, f.d, bw);
    e.sx == n.sx && e.sy == n.sy
  }

  /** Edge `e` ends where face `f`'s new edge would: at the far corner of
      that side. */
  predicate Ends(e: Edge, f: Face, bw: nat)
  {
    var n := NewEdge(f.x, f.y, f.d, bw);
    e.ex == n.ex && e.ey == n.ey
  }

  /** The edge from the corner of side `f` to the far corner of side `l`. */
  function Span(f: Face, l: Face, bw: nat): Edge
  {
    var a, b := NewEdge(f.x, f.y, f.d, bw), NewEdge(l.x, l.y, l.d, bw);
    Edge(a.sx, a.sy, b.ex, b.ey)
  }

  /** The same side of the next cell along a run: the one to the south for
      west and east sides, the one to the east for north and south sides. */
  function NextX(x: int, d: int): int
  {
    if d == North || d == South then x + 1 else x
  }

  function NextY(y: int, d: int): int
  {
    if d == West || d == East then y + 1 else y
  }

  /** The sides an edge runs along: the one that started it and the last
      one that extended it. */
  datatype Run = Run(first: Face, last: Face)

  /** Side `f.d` of cell (f.x, f.y) holds edge `id`. */
  predicate Holds(cells: seq<Cell4>, w: int, f: Face, id: int)
    requires 0 <= f.d < 4
  {
    CellAt(cells, w, f.x, f.y).edgeExist[f.d] && CellAt(cells, w, f.x, f.y).edgeId[f.d] == id
  }

  /** Side `d` of cell (x, y) once the pass has reached `p`:
      - it has an edge exactly when it has been handled and is a boundary;
      - without an edge its id is 0;
      - with one, the id is an index of `edges`, the edge covers the side,
        was started by a side of the same direction, is either the edge of
        the previous cell's same side or was started by this side, and is
        either carried on by the next cell's same side or was last extended
        by this side. */
  ghost predicate SideOk(g: Grid, ex: seq<bool>, cells: seq<Cell4>, edges: seq<Edge>, runs: seq<Run>,
                         p: Pos, x: int, y: int, d: int)
    requires 0 <= d < 4
  {
    var c := CellAt(cells, g.w, x, y);
    && (c.edgeExist[d] <==> Done(p, x, y, d) && Boundary(g, ex, x, y, d))
    && (!c.edgeExist[d] ==> c.edgeId[d] == 0)
    && (c.edgeExist[d] ==>
          var id := c.edgeId[d];
          var q := CellAt(cells, g.w, PrevX(x, d), PrevY(y, d));
          var r := CellAt(cells, g.w, NextX(x, d), NextY(y, d));
          && 0 <= id < |edges| && id < |runs|
          && Fits(edges[id], x, y, d, g.bw) && runs[id].first.d == d
          && (if q.edgeExist[d] then q.edgeId[d] == id else runs[id].first == Face(x, y, d))
          && (r.edgeExist[d] || runs[id].last == Face(x, y, d)))
  }

  /** Edge `id` runs from the corner of the handled side that started it,
      whose previous cell has no edge on that side, to the far corner of the
      last side that extended it, whose next cell has no edge on that side;
      both sides still hold it. */
  ghost predicate RunOk(g: Grid, cells: seq<Cell4>, edges: seq<Edge>, runs: seq<Run>, p: Pos, id: int)
    requires 0 <= id < |edges| && id < |runs|
  {
    var f, l := runs[id].first, runs[id].last;
    && Interior(g, f.x, f.y) && 0 <= f.d < 4 && Done(p, f.x, f.y, f.d)
    && Holds(cells, g.w, f, id) && Starts(edges[id], f, g.bw)
    && !CellAt(cells, g.w, PrevX(f.x, f.d), PrevY(f.y, f.d)).edgeExist[f.d]
    && Interior(g, l.x, l.y) && l.d == f.d
    && Holds(cells, g.w, l, id) && Ends(edges[id], l, g.bw)
    && !CellAt(cells, g.w, NextX(l.x, l.d), NextY(l.y, l.d)).edgeExist[l.d]
  }

  /** The state of the second pass at position `p`: `ex` are the existence
      flags, `runs[id]` the first and last sides of edge `id`. */
  ghost predicate Scan(g: Grid, ex: seq<bool>, cells: seq<Cell4>, edges: seq<Edge>, runs: seq<Run>, p: Pos)
  {
    && |ex| == |cells| && Area(g.w, g.h) <= |cells| && |runs| == |edges|
    && (forall i :: 0 <= i < |cells| ==> cells[i].present == ex[i])
    && (forall x, y, d :: InGrid(g, x, y) && 0 <= d < 4 ==> SideOk(g, ex, cells, edges, runs, p, x, y, d))
    && (forall id :: 0 <= id < |edges| ==> RunOk(g, cells, edges, runs, p, id))
  }

  /** The result of convertTileMapToVectorMap: every side of every cell of
      the grid has been handled. */
  ghost predicate Extracted(g: Grid, ex: seq<bool>, cells: seq<Cell4>, edges: seq<Edge>, runs: seq<Run>)
  {
    Scan(g, ex, cells, edges, runs, Pos(g.w, 0, 0))
  }

  /** The existence flags of the cells. */
  function ExistsOf(cells: seq<Cell4>): (ex: seq<bool>)
    ensures |ex| == |cells| && forall i :: 0 <= i < |cells| ==> ex[i] == cells[i].present
  {
    seq(|cells|, i requires 0 <= i < |cells| => cells[i].present)
  }

  function Max0(n: int): nat
  {
    if n < 0 then 0 else n
  }

  // Index arithmetic.

  /** A cell of the grid sits inside the first `w * h` entries. */
  lemma IdxIn(w: int, h: int, x: int, y: int)
    requires 0 <= x < w && 0 <= y < h
    ensures 0 <= Idx(w, x, y) < Area(w, h)
  {
    var k := h - 1 - y;
    assert k * w >= 0;
    assert (h - 1) * w == y * w + k * w;
    assert h * w == (h - 1) * w + w;
  }

  /** Two cells of one row width share no index. */
  lemma IdxInjective(w: int, x: int, y: int, x': int, y': int)
    requires 0 <= x < w && 0 <= x' < w && Idx(w, x, y) == Idx(w, x', y')
    ensures x == x' && y == y'
  {
    var k := y - y';
    assert k * w == x' - x by {
      assert y * w - y' * w == (y - y') * w;
    }
  }

  /** The cells after side `d` of cell (X, Y) takes edge `id`. */
  function MarkAt(cells: seq<Cell4>, w: int, X: int, Y: int, d: int, id: int): seq<Cell4>
    requires 0 <= d < 4
  {
    var i := Idx(w, X, Y);
    if 0 <= i < |cells| then cells[i := Mark(cells[i], d, id)] else cells
  }

  /** The edges after edge `id` grows. */
  function GrowAt(edges: seq<Edge>, id: int, d: int, bw: nat): seq<Edge>
  {
    if 0 <= id < |edges| then edges[id := Grow(edges[id], d, bw)] else edges
  }

  /** The runs after side `f` extends edge `id`. */
  function Lengthen(runs: seq<Run>, id: int, f: Face): seq<Run>
  {
    if 0 <= id < |runs| then runs[id := runs[id].(last := f)] else runs
  }

  /** Marking one cell leaves every other cell of the grid as it was. */
  lemma CellAtMark(g: Grid, cells: seq<Cell4>, X: int, Y: int, d: int, id: int, x: int, y: int)
    requires 0 <= d < 4 && Area(g.w, g.h) <= |cells| && InGrid(g, X, Y) && InGrid(g, x, y)
    ensures CellAt(MarkAt(cells, g.w, X, Y, d, id), g.w, x, y)
         == if x == X && y == Y then Mark(CellAt(cells, g.w, X, Y), d, id) else CellAt(cells, g.w, x, y)
  {
    IdxIn(g.w, g.h, X, Y);
    IdxIn(g.w, g.h, x, y);
    if x != X || y != Y {
      if Idx(g.w, x, y) == Idx(g.w, X, Y) {
        IdxInjective(g.w, x, y, X, Y);
      }
    }
  }

  // Geometry of one step.

  lemma NewFits(x: int, y: int, d: int, bw: nat)
    requires 0 <= d < 4
    ensures Fits(NewEdge(x, y, d, bw), x, y, d, bw)
  {
  }

  lemma GrowFits(e: Edge, x: int, y: int, d: int, bw: nat)
    requires 0 <= d < 4 && Fits(e, x, y, d, bw)
    ensures Fits(Grow(e, d, bw), x, y, d, bw)
  {
  }

  /** The edge of the previous cell's side, grown by a block, covers this
      cell's side. */
  lemma GrowCovers(e: Edge, x: int, y: int, d: int, bw: nat)
    requires 0 <= d < 4 && Fits(e, PrevX(x, d), PrevY(y, d), d, bw)
    ensures Fits(Grow(e, d, bw), x, y, d, bw)
  {
    assert (y - 1) * bw + bw == y * bw;
    assert (x - 1) * bw + bw == x * bw;
  }

  /** An edge ending at the previous cell's side, grown by a block, ends at
      this cell's side and starts where it did. */
  lemma GrowEnds(e: Edge, x: int, y: int, d: int, bw: nat)
    requires 0 <= d < 4 && Ends(e, Face(PrevX(x, d), PrevY(y, d), d), bw)
    ensures Ends(Grow(e, d, bw), Face(x, y, d), bw)
    ensures Grow(e, d, bw).sx == e.sx && Grow(e, d, bw).sy == e.sy
  {
    assert (y - 1) * bw + bw == y * bw;
    assert (x - 1) * bw + bw == x * bw;
  }

  // The invariant across the steps of the pass.

  /** Positions that agree on every boundary side give the same state. */
  lemma Transfer(g: Grid, ex: seq<bool>, cells: seq<Cell4>, edges: seq<Edge>, runs: seq<Run>, p: Pos, q: Pos)
    requires Scan(g, ex, cells, edges, runs, p)
    requires forall x, y, d :: 0 <= d < 4 && Boundary(g, ex, x, y, d) ==> (Done(p, x, y, d) <==> Done(q, x, y, d))
    ensures Scan(g, ex, cells, edges, runs, q)
  {
    forall x, y, d | InGrid(g, x, y) && 0 <= d < 4
      ensures SideOk(g, ex, cells, edges, runs, q, x, y, d)
    {
      assert SideOk(g, ex, cells, edges, runs, p, x, y, d);
    }
    forall id | 0 <= id < |edges|
      ensures RunOk(g, cells, edges, runs, q, id)
    {
      assert RunOk(g, cells, edges, runs, p, id);
      var f := runs[id].first;
      assert SideOk(g, ex, cells, edges, runs, p, f.x, f.y, f.d);
    }
  }

  /** A side that is not a boundary is passed over. */
  lemma StepNone(g: Grid, ex: seq<bool>, cells: seq<Cell4>, edges: seq<Edge>, runs: seq<Run>, X: int, Y: int, d: int)
    requires 0 <= d < 4 && Scan(g, ex, cells, edges, runs, Pos(X, Y, Rank(d)))
    requires !Boundary(g, ex, X, Y, d)
    ensures Scan(g, ex, cells, edges, runs, Pos(X, Y, Rank(d) + 1))
  {
    Transfer(g, ex, cells, edges, runs, Pos(X, Y, Rank(d)), Pos(X, Y, Rank(d) + 1));
  }

  /** A missing cell has none of its sides marked. */
  lemma SkipCell(g: Grid, ex: seq<bool>, cells: seq<Cell4>, edges: seq<Edge>, runs: seq<Run>, X: int, Y: int)
    requires Scan(g, ex, cells, edges, runs, Pos(X, Y, 0)) && !ExAt(ex, g.w, X, Y)
    ensures Scan(g, ex, cells, edges, runs, Pos(X, Y, 4))
  {
    Transfer(g, ex, cells, edges, runs, Pos(X, Y, 0), Pos(X, Y, 4));
  }

  /** In the extend case, the previous cell's side is the last side of its
      edge's run, and neither this side nor the next cell's has an edge yet. */
  lemma PrevRun(g: Grid, ex: seq<bool>, cells: seq<Cell4>, edges: seq<Edge>, runs: seq<Run>, X: int, Y: int, d: int)
    requires 0 <= d < 4 && Scan(g, ex, cells, edges, runs, Pos(X, Y, Rank(d))) && Boundary(g, ex, X, Y, d)
    requires CellAt(cells, g.w, PrevX(X, d), PrevY(Y, d)).edgeExist[d]
    ensures var id := CellAt(cells, g.w, PrevX(X, d), PrevY(Y, d)).edgeId[d];
      && 0 <= id < |edges| && runs[id].last == Face(PrevX(X, d), PrevY(Y, d), d)
      && Fits(edges[id], PrevX(X, d), PrevY(Y, d), d, g.bw) && runs[id].first.d == d
      && !CellAt(cells, g.w, X, Y).edgeExist[d]
      && !CellAt(cells, g.w, NextX(X, d), NextY(Y, d)).edgeExist[d]
  {
    var p := Pos(X, Y, Rank(d));
    assert SideOk(g, ex, cells, edges, runs, p, PrevX(X, d), PrevY(Y, d), d);
    assert SideOk(g, ex, cells, edges, runs, p, X, Y, d);
    assert SideOk(g, ex, cells, edges, runs, p, NextX(X, d), NextY(Y, d), d);
  }

  /** The extended side itself. */
  lemma ExtendSideAt(g: Grid, ex: seq<bool>, cells: seq<Cell4>, edges: seq<Edge>, runs: seq<Run>, X: int, Y: int, d: int)
    requires 0 <= d < 4 && Scan(g, ex, cells, edges, runs, Pos(X, Y, Rank(d))) && Boundary(g, ex, X, Y, d)
    requires CellAt(cells, g.w, PrevX(X, d), PrevY(Y, d)).edgeExist[d]
    ensures var id := CellAt(cells, g.w, PrevX(X, d), PrevY(Y, d)).edgeId[d];
      SideOk(g, ex, MarkAt(cells, g.w, X, Y, d, id), GrowAt(edges, id, d, g.bw),
             Lengthen(runs, id, Face(X, Y, d)), Pos(X, Y, Rank(d) + 1), X, Y, d)
  {
    var px, py := PrevX(X, d), PrevY(Y, d);
    PrevRun(g, ex, cells, edges, runs, X, Y, d);
    var id := CellAt(cells, g.w, px, py).edgeId[d];
    CellAtMark(g, cells, X, Y, d, id, X, Y);
    CellAtMark(g, cells, X, Y, d, id, px, py);
    GrowCovers(edges[id], X, Y, d, g.bw);
  }

  /** Any other side in the extend case. */
  lemma ExtendSideOther(g: Grid, ex: seq<bool>, cells: seq<Cell4>, edges: seq<Edge>, runs: seq<Run>,
                        X: int, Y: int, d: int, x: int, y: int, dd: int)
    requires 0 <= d < 4 && Scan(g, ex, cells, edges, runs, Pos(X, Y, Rank(d))) && Boundary(g, ex, X, Y, d)
    requires CellAt(cells, g.w, PrevX(X, d), PrevY(Y, d)).edgeExist[d]
    requires InGrid(g, x, y) && 0 <= dd < 4 && !(x == X && y == Y && dd == d)
    ensures var id := CellAt(cells, g.w, PrevX(X, d), PrevY(Y, d)).edgeId[d];
      SideOk(g, ex, MarkAt(cells, g.w, X, Y, d, id), GrowAt(edges, id, d, g.bw),
             Lengthen(runs, id, Face(X, Y, d)), Pos(X, Y, Rank(d) + 1), x, y, dd)
  {
    var p := Pos(X, Y, Rank(d));
    PrevRun(g, ex, cells, edges, runs, X, Y, d);
    assert SideOk(g, ex, cells, edges, runs, p, x, y, dd);
    var id := CellAt(cells, g.w, PrevX(X, d), PrevY(Y, d)).edgeId[d];
    CellAtMark(g, cells, X, Y, d, id, x, y);
    if Interior(g, x, y) {
      CellAtMark(g, cells, X, Y, d, id, PrevX(x, dd), PrevY(y, dd));
      CellAtMark(g, cells, X, Y, d, id, NextX(x, dd), NextY(y, dd));
    }
    var c := CellAt(cells, g.w, x, y);
    if c.edgeExist[dd] && c.edgeId[dd] == id {
      GrowFits(edges[id], x, y, d, g.bw);
    }
  }

  /** One side of the extend case. */
  lemma ExtendSide(g: Grid, ex: seq<bool>, cells: seq<Cell4>, edges: seq<Edge>, runs: seq<Run>,
                   X: int, Y: int, d: int, x: int, y: int, dd: int)
    requires 0 <= d < 4 && Scan(g, ex, cells, edges, runs, Pos(X, Y, Rank(d))) && Boundary(g, ex, X, Y, d)
    requires CellAt(cells, g.w, PrevX(X, d), PrevY(Y, d)).edgeExist[d]
    requires InGrid(g, x, y) && 0 <= dd < 4
    ensures var id := CellAt(cells, g.w, PrevX(X, d), PrevY(Y, d)).edgeId[d];
      SideOk(g, ex, MarkAt(cells, g.w, X, Y, d, id), GrowAt(edges, id, d, g.bw),
             Lengthen(runs, id, Face(X, Y, d)), Pos(X, Y, Rank(d) + 1), x, y, dd)
  {
    if x == X && y == Y && dd == d {
      ExtendSideAt(g, ex, cells, edges, runs, X, Y, d);
    } else {
      ExtendSideOther(g, ex, cells, edges, runs, X, Y, d, x, y, dd);
    }
  }

  /** The extended edge in the extend case: it now ends at this side. */
  lemma ExtendRunSame(g: Grid, ex: seq<bool>, cells: seq<Cell4>, edges: seq<Edge>, runs: seq<Run>, X: int, Y: int, d: int)
    requires 0 <= d < 4 && Scan(g, ex, cells, edges, runs, Pos(X, Y, Rank(d))) && Boundary(g, ex, X, Y, d)
    requires CellAt(cells, g.w, PrevX(X, d), PrevY(Y, d)).edgeExist[d]
    ensures var id := CellAt(cells, g.w, PrevX(X, d), PrevY(Y, d)).edgeId[d];
      && 0 <= id < |edges|
      && RunOk(g, MarkAt(cells, g.w, X, Y, d, id), GrowAt(edges, id, d, g.bw),
               Lengthen(runs, id, Face(X, Y, d)), Pos(X, Y, Rank(d) + 1), id)
  {
    PrevRun(g, ex, cells, edges, runs, X, Y, d);
    var id := CellAt(cells, g.w, PrevX(X, d), PrevY(Y, d)).edgeId[d];
    assert RunOk(g, cells, edges, runs, Pos(X, Y, Rank(d)), id);
    var f := runs[id].first;
    CellAtMark(g, cells, X, Y, d, id, f.x, f.y);
    CellAtMark(g, cells, X, Y, d, id, PrevX(f.x, f.d), PrevY(f.y, f.d));
    CellAtMark(g, cells, X, Y, d, id, X, Y);
    CellAtMark(g, cells, X, Y, d, id, NextX(X, d), NextY(Y, d));
    GrowEnds(edges[id], X, Y, d, g.bw);
  }

  /** Any other edge in the extend case. */
  lemma ExtendRunOther(g: Grid, ex: seq<bool>, cells: seq<Cell4>, edges: seq<Edge>, runs: seq<Run>,
                       X: int, Y: int, d: int, id0: int)
    requires 0 <= d < 4 && Scan(g, ex, cells, edges, runs, Pos(X, Y, Rank(d))) && Boundary(g, ex, X, Y, d)
    requires CellAt(cells, g.w, PrevX(X, d), PrevY(Y, d)).edgeExist[d]
    requires 0 <= id0 < |edges| && id0 != CellAt(cells, g.w, PrevX(X, d), PrevY(Y, d)).edgeId[d]
    ensures var id := CellAt(cells, g.w, PrevX(X, d), PrevY(Y, d)).edgeId[d];
      RunOk(g, MarkAt(cells, g.w, X, Y, d, id), GrowAt(edges, id, d, g.bw),
            Lengthen(runs, id, Face(X, Y, d)), Pos(X, Y, Rank(d) + 1), id0)
  {
    PrevRun(g, ex, cells, edges, runs, X, Y, d);
    var id := CellAt(cells, g.w, PrevX(X, d), PrevY(Y, d)).edgeId[d];
    assert RunOk(g, cells, edges, runs, Pos(X, Y, Rank(d)), id0);
    var f, l := runs[id0].first, runs[id0].last;
    CellAtMark(g, cells, X, Y, d, id, f.x, f.y);
    CellAtMark(g, cells, X, Y, d, id, PrevX(f.x, f.d), PrevY(f.y, f.d));
    CellAtMark(g, cells, X, Y, d, id, l.x, l.y);
    CellAtMark(g, cells, X, Y, d, id, NextX(l.x, l.d), NextY(l.y, l.d));
  }

  /** The extend case: side `d` takes the edge of the previous cell's side,
      which grows by a block and now ends at this side. */
  lemma StepExtend(g: Grid, ex: seq<bool>, cells: seq<Cell4>, edges: seq<Edge>, runs: seq<Run>, X: int, Y: int, d: int)
    requires 0 <= d < 4 && Scan(g, ex, cells, edges, runs, Pos(X, Y, Rank(d))) && Boundary(g, ex, X, Y, d)
    requires CellAt(cells, g.w, PrevX(X, d), PrevY(Y, d)).edgeExist[d]
    ensures var id := CellAt(cells, g.w, PrevX(X, d), PrevY(Y, d)).edgeId[d];
      && 0 <= id < |edges|
      && Scan(g, ex, MarkAt(cells, g.w, X, Y, d, id), GrowAt(edges, id, d, g.bw),
              Lengthen(runs, id, Face(X, Y, d)), Pos(X, Y, Rank(d) + 1))
  {
    var p, p' := Pos(X, Y, Rank(d)), Pos(X, Y, Rank(d) + 1);
    var px, py := PrevX(X, d), PrevY(Y, d);
    assert SideOk(g, ex, cells, edges, runs, p, px, py, d);
    var id := CellAt(cells, g.w, px, py).edgeId[d];
    var cells', edges', runs' := MarkAt(cells, g.w, X, Y, d, id), GrowAt(edges, id, d, g.bw), Lengthen(runs, id, Face(X, Y, d));
    IdxIn(g.w, g.h, X, Y);
    forall i | 0 <= i < |cells'|
      ensures cells'[i].present == ex[i]
    {
    }
    forall x, y, dd | InGrid(g, x, y) && 0 <= dd < 4
      ensures SideOk(g, ex, cells', edges', runs', p', x, y, dd)
    {
      ExtendSide(g, ex, cells, edges, runs, X, Y, d, x, y, dd);
    }
    forall id0 | 0 <= id0 < |edges'|
      ensures RunOk(g, cells', edges', runs', p', id0)
    {
      if id0 == id {
        ExtendRunSame(g, ex, cells, edges, runs, X, Y, d);
      } else {
        ExtendRunOther(g, ex, cells, edges, runs, X, Y, d, id0);
      }
    }
  }

  /** One side of the new-edge case. */
  lemma NewSide(g: Grid, ex: seq<bool>, cells: seq<Cell4>, edges: seq<Edge>, runs: seq<Run>,
                X: int, Y: int, d: int, x: int, y: int, dd: int)
    requires 0 <= d < 4 && Scan(g, ex, cells, edges, runs, Pos(X, Y, Rank(d))) && Boundary(g, ex, X, Y, d)
    requires !CellAt(cells, g.w, PrevX(X, d), PrevY(Y, d)).edgeExist[d]
    requires InGrid(g, x, y) && 0 <= dd < 4
    ensures var f := Face(X, Y, d);
      SideOk(g, ex, MarkAt(cells, g.w, X, Y, d, |edges|), edges + [NewEdge(X, Y, d, g.bw)],
             runs + [Run(f, f)], Pos(X, Y, Rank(d) + 1), x, y, dd)
  {
    var p := Pos(X, Y, Rank(d));
    assert SideOk(g, ex, cells, edges, runs, p, X, Y, d);
    assert SideOk(g, ex, cells, edges, runs, p, x, y, dd);
    CellAtMark(g, cells, X, Y, d, |edges|, x, y);
    CellAtMark(g, cells, X, Y, d, |edges|, PrevX(X, d), PrevY(Y, d));
    if Interior(g, x, y) {
      CellAtMark(g, cells, X, Y, d, |edges|, PrevX(x, dd), PrevY(y, dd));
      CellAtMark(g, cells, X, Y, d, |edges|, NextX(x, dd), NextY(y, dd));
    }
    NewFits(X, Y, d, g.bw);
  }

  /** One edge in the new-edge case; the new edge starts and ends at this
      side. */
  lemma NewRun(g: Grid, ex: seq<bool>, cells: seq<Cell4>, edges: seq<Edge>, runs: seq<Run>,
               X: int, Y: int, d: int, id0: int)
    requires 0 <= d < 4 && Scan(g, ex, cells, edges, runs, Pos(X, Y, Rank(d))) && Boundary(g, ex, X, Y, d)
    requires !CellAt(cells, g.w, PrevX(X, d), PrevY(Y, d)).edgeExist[d]
    requires 0 <= id0 <= |edges|
    ensures var f := Face(X, Y, d);
      RunOk(g, MarkAt(cells, g.w, X, Y, d, |edges|), edges + [NewEdge(X, Y, d, g.bw)],
            runs + [Run(f, f)], Pos(X, Y, Rank(d) + 1), id0)
  {
    var p, n := Pos(X, Y, Rank(d)), |edges|;
    var px, py := PrevX(X, d), PrevY(Y, d);
    var nx, ny := NextX(X, d), NextY(Y, d);
    assert SideOk(g, ex, cells, edges, runs, p, X, Y, d);
    assert SideOk(g, ex, cells, edges, runs, p, nx, ny, d);
    CellAtMark(g, cells, X, Y, d, n, X, Y);
    CellAtMark(g, cells, X, Y, d, n, px, py);
    CellAtMark(g, cells, X, Y, d, n, nx, ny);
    if id0 < n {
      assert RunOk(g, cells, edges, runs, p, id0);
      var f, l := runs[id0].first, runs[id0].last;
      CellAtMark(g, cells, X, Y, d, n, f.x, f.y);
      CellAtMark(g, cells, X, Y, d, n, PrevX(f.x, f.d), PrevY(f.y, f.d));
      CellAtMark(g, cells, X, Y, d, n, l.x, l.y);
      CellAtMark(g, cells, X, Y, d, n, NextX(l.x, l.d), NextY(l.y, l.d));
    }
  }

  /** The new-edge case: side `d` starts an edge of its own, appended to
      `edges`. */
  lemma StepNew(g: Grid, ex: seq<bool>, cells: seq<Cell4>, edges: seq<Edge>, runs: seq<Run>, X: int, Y: int, d: int)
    requires 0 <= d < 4 && Scan(g, ex, cells, edges, runs, Pos(X, Y, Rank(d))) && Boundary(g, ex, X, Y, d)
    requires !CellAt(cells, g.w, PrevX(X, d), PrevY(Y, d)).edgeExist[d]
    ensures var f := Face(X, Y, d);
      Scan(g, ex, MarkAt(cells, g.w, X, Y, d, |edges|), edges + [NewEdge(X, Y, d, g.bw)],
           runs + [Run(f, f)], Pos(X, Y, Rank(d) + 1))
  {
    var p' := Pos(X, Y, Rank(d) + 1);
    var n, f := |edges|, Face(X, Y, d);
    var cells', edges', runs' := MarkAt(cells, g.w, X, Y, d, n), edges + [NewEdge(X, Y, d, g.bw)], runs + [Run(f, f)];
    IdxIn(g.w, g.h, X, Y);
    forall i | 0 <= i < |cells'|
      ensures cells'[i].present == ex[i]
    {
    }
    forall x, y, dd | InGrid(g, x, y) && 0 <= dd < 4
      ensures SideOk(g, ex, cells', edges', runs', p', x, y, dd)
    {
      NewSide(g, ex, cells, edges, runs, X, Y, d, x, y, dd);
    }
    forall id0 | 0 <= id0 < |edges'|
      ensures RunOk(g, cells', edges', runs', p', id0)
    {
      NewRun(g, ex, cells, edges, runs, X, Y, d, id0);
    }
  }

  /** After the reset, no side has been handled and none has an edge. */
  lemma ScanStart(g: Grid, ex: seq<bool>, cells: seq<Cell4>)
    requires |ex| == |cells| && Area(g.w, g.h) <= |cells|
    requires forall i :: 0 <= i < |cells| ==> cells[i].present == ex[i]
    requires forall x, y :: InGrid(g, x, y) ==> IsClear(CellAt(cells, g.w, x, y))
    ensures Scan(g, ex, cells, [], [], Pos(1, 1, 0))
  {
    forall x, y, d | InGrid(g, x, y) && 0 <= d < 4
      ensures SideOk(g, ex, cells, [], [], Pos(1, 1, 0), x, y, d)
    {
      assert IsClear(CellAt(cells, g.w, x, y));
    }
  }

  /** Reading the existence flags of the whole array. */
  lemma ExAtIs(g: Grid, ex: seq<bool>, cells: seq<Cell4>, x: int, y: int)
    requires |ex| == |cells| && Area(g.w, g.h) <= |cells| && InGrid(g, x, y)
    requires forall i :: 0 <= i < |cells| ==> cells[i].present == ex[i]
    ensures 0 <= Idx(g.w, x, y) < |cells| && ExAt(ex, g.w, x, y) == cells[Idx(g.w, x, y)].present
    ensures CellAt(cells, g.w, x, y) == cells[Idx(g.w, x, y)]
  {
    IdxIn(g.w, g.h, x, y);
  }

  // What the result says.

  /** In the result, a side of a cell of the grid has an edge exactly when
      the cell is interior and exists and its neighbour across the side does
      not; an edge-less side has id 0; an edge's id indexes `edges`, and the
      edge lies along the side and covers it. So the outer ring and the
      missing cells have no edges. */
  lemma ExtractedSide(g: Grid, ex: seq<bool>, cells: seq<Cell4>, edges: seq<Edge>, runs: seq<Run>, x: int, y: int, d: int)
    requires Extracted(g, ex, cells, edges, runs) && InGrid(g, x, y) && 0 <= d < 4
    ensures var c := CellAt(cells, g.w, x, y);
      && (c.edgeExist[d] <==> Interior(g, x, y) && ExAt(ex, g.w, x, y) && !ExAt(ex, g.w, NbX(x, d), NbY(y, d)))
      && (!Interior(g, x, y) || !ExAt(ex, g.w, x, y) ==> !c.edgeExist[d] && c.edgeId[d] == 0)
      && (c.edgeExist[d] ==> 0 <= c.edgeId[d] < |edges| && Fits(edges[c.edgeId[d]], x, y, d, g.bw))
  {
    assert SideOk(g, ex, cells, edges, runs, Pos(g.w, 0, 0), x, y, d);
  }

  /** In the result, consecutive boundary sides share one edge: a side
      whose previous cell has the same side takes its id, and any other
      edge-holding side is the one that started its edge; a side whose next
      cell has the same side passes its id on, and any other edge-holding
      side is the one its edge ends at. */
  lemma ExtractedRuns(g: Grid, ex: seq<bool>, cells: seq<Cell4>, edges: seq<Edge>, runs: seq<Run>, x: int, y: int, d: int)
    requires Extracted(g, ex, cells, edges, runs) && InGrid(g, x, y) && 0 <= d < 4
    requires CellAt(cells, g.w, x, y).edgeExist[d]
    ensures var id, q := CellAt(cells, g.w, x, y).edgeId[d], CellAt(cells, g.w, PrevX(x, d), PrevY(y, d));
      var r := CellAt(cells, g.w, NextX(x, d), NextY(y, d));
      && 0 <= id < |edges|
      && (q.edgeExist[d] ==> q.edgeId[d] == id)
      && (!q.edgeExist[d] ==> Starts(edges[id], Face(x, y, d), g.bw))
      && (r.edgeExist[d] ==> r.edgeId[d] == id)
      && (!r.edgeExist[d] ==> Ends(edges[id], Face(x, y, d), g.bw))
  {
    var p := Pos(g.w, 0, 0);
    assert SideOk(g, ex, cells, edges, runs, p, x, y, d);
    assert SideOk(g, ex, cells, edges, runs, p, NextX(x, d), NextY(y, d), d);
    var id := CellAt(cells, g.w, x, y).edgeId[d];
    assert RunOk(g, cells, edges, runs, p, id);
  }

  /** In the result, every edge runs from the corner of the boundary side
      that started it, whose previous cell has no edge on that side, to the
      far corner of the boundary side that ends it, whose next cell has no
      edge on that side; both sides hold it, and it is vertical for west and
      east sides and horizontal for north and south sides. */
  lemma ExtractedEdges(g: Grid, ex: seq<bool>, cells: seq<Cell4>, edges: seq<Edge>, runs: seq<Run>, id: int)
    requires Extracted(g, ex, cells, edges, runs) && 0 <= id < |edges|
    ensures var f, l := runs[id].first, runs[id].last;
      && Boundary(g, ex, f.x, f.y, f.d) && 0 <= f.d < 4 && Holds(cells, g.w, f, id)
      && Boundary(g, ex, l.x, l.y, l.d) && l.d == f.d && Holds(cells, g.w, l, id)
      && !CellAt(cells, g.w, PrevX(f.x, f.d), PrevY(f.y, f.d)).edgeExist[f.d]
      && !CellAt(cells, g.w, NextX(l.x, l.d), NextY(l.y, l.d)).edgeExist[l.d]
      && edges[id] == Span(f, l, g.bw)
      && (f.d == West || f.d == East ==> edges[id].sx == edges[id].ex)
      && (f.d == North || f.d == South ==> edges[id].sy == edges[id].ey)
  {
    var p := Pos(g.w, 0, 0);
    assert RunOk(g, cells, edges, runs, p, id);
    var f, l := runs[id].first, runs[id].last;
    assert SideOk(g, ex, cells, edges, runs, p, f.x, f.y, f.d);
    assert SideOk(g, ex, cells, edges, runs, p, l.x, l.y, l.d);
  }

  class CellMap {
    /** world: worldWidth * worldHeight cells. */
    const world: array<Cell4>
    const worldWidth: int
    const worldHeight: int
    var edges: seq<Edge>

    /** CellMap(width, height). A new cell does not exist; its edge arrays,
        which the source leaves uninitialised, start cleared here. */
    constructor (width: nat, height: nat)
      ensures worldWidth == width && worldHeight == height
      ensures fresh(world) && world.Length == width * height
      ensures forall i :: 0 <= i < world.Length ==> world[i] == Blank
      ensures edges == []
    {
      worldWidth, worldHeight := width, height;
      world := new Cell4[width * height](_ => Blank);
      edges := [];
    }

    /** The innermost reset loop: clear the four sides of one cell. */
    method ResetCell(i: nat)
      requires i < world.Length
      modifies world
      ensures IsClear(world[i]) && world[i].present == old(world[i].present)
      ensures forall j :: 0 <= j < world.Length && j != i ==> world[j] == old(world[j])
    {
      for k := 0 to 4
        invariant world[i].present == old(world[i].present)
        invariant forall j :: 0 <= j < k ==> !world[i].edgeExist[j] && world[i].edgeId[j] == 0
        invariant forall j :: 0 <= j < world.Length && j != i ==> world[j] == old(world[j])
      {
        world[i] := world[i].(edgeExist := world[i].edgeExist[k := false], edgeId := world[i].edgeId[k := 0]);
      }
      assert world[i].edgeId == [0, 0, 0, 0];
      assert world[i].edgeExist == [false, false, false, false];
    }

    /** The first pass: clear every cell of the `w` by `h` grid. */
    method Reset(w: int, h: int)
      requires Area(w, h) <= world.Length
      modifies world
      ensures forall x, y :: 0 <= x < w && 0 <= y < h ==> IsClear(CellAt(world[..], w, x, y))
      ensures forall i :: 0 <= i < world.Length ==> world[i].present == old(world[i].present)
      ensures forall i :: Area(w, h) <= i < world.Length ==> world[i] == old(world[i])
    {
      var x := 0;
      while x < w
        invariant 0 <= x && (x <= w || x == 0)
        invariant forall x', y' :: 0 <= x' < x && 0 <= y' < h ==> IsClear(CellAt(world[..], w, x', y'))
        invariant forall i :: 0 <= i < world.Length ==> world[i].present == old(world[i].present)
        invariant forall i :: Area(w, h) <= i < world.Length ==> world[i] == old(world[i])
      {
        var y := 0;
        while y < h
          invariant 0 <= y && (y <= h || y == 0)
          invariant forall x', y' :: 0 <= y' < h && (0 <= x' < x || (x' == x && y' < y)) ==> IsClear(CellAt(world[..], w, x', y'))
          invariant forall i :: 0 <= i < world.Length ==> world[i].present == old(world[i].present)
          invariant forall i :: Area(w, h) <= i < world.Length ==> world[i] == old(world[i])
        {
          IdxIn(w, h, x, y);
          ghost var before := world[..];
          ResetCell(y * w + x);
          forall x', y' | 0 <= y' < h && (0 <= x' < x || (x' == x && y' < y + 1))
            ensures IsClear(CellAt(world[..], w, x', y'))
          {
            IdxIn(w, h, x', y');
            if x' != x || y' != y {
              if Idx(w, x', y') == Idx(w, x, y) {
                IdxInjective(w, x', y', x, y);
              }
              assert CellAt(before, w, x', y') == CellAt(world[..], w, x', y');
            }
          }
          y := y + 1;
        }
        x := x + 1;
      }
    }

    /** Handle side `d` of the existing interior cell (x, y): nothing when
        its neighbour exists; otherwise extend the previous cell's edge on
        that side if it has one, or append a new edge. */
    method HandleSide(g: Grid, x: int, y: int, d: int, ghost ex: seq<bool>, ghost runs: seq<Run>)
      returns (ghost runs': seq<Run>)
      requires 0 <= d < 4 && Interior(g, x, y) && ExAt(ex, g.w, x, y)
      requires Scan(g, ex, world[..], edges, runs, Pos(x, y, Rank(d)))
      modifies this, world
      ensures Scan(g, ex, world[..], edges, runs', Pos(x, y, Rank(d) + 1))
      ensures |edges| <= old(|edges|) + 1
      ensures forall j :: Area(g.w, g.h) <= j < world.Length ==> world[j] == old(world[j])
    {
      ExAtIs(g, ex, world[..], NbX(x, d), NbY(y, d));
      ExAtIs(g, ex, world[..], PrevX(x, d), PrevY(y, d));
      var n := NbY(y, d) * g.w + NbX(x, d);
      var q := PrevY(y, d) * g.w + PrevX(x, d);
      if !world[n].present {
        if world[q].edgeExist[d] {
          runs' := ExtendEdge(g, x, y, d, ex, runs);
        } else {
          runs' := AppendEdge(g, x, y, d, ex, runs);
        }
      } else {
        StepNone(g, ex, world[..], edges, runs, x, y, d);
        runs' := runs;
      }
    }

    /** Side `d` of (x, y) is a boundary and the previous cell's side has
        edge `id`: that edge alone grows by a block, the side alone takes
        its id, and the edge's run now ends at this side. */
    method ExtendEdge(g: Grid, x: int, y: int, d: int, ghost ex: seq<bool>, ghost runs: seq<Run>)
      returns (ghost runs': seq<Run>)
      requires 0 <= d < 4 && Boundary(g, ex, x, y, d)
      requires Scan(g, ex, world[..], edges, runs, Pos(x, y, Rank(d)))
      requires CellAt(world[..], g.w, PrevX(x, d), PrevY(y, d)).edgeExist[d]
      modifies this, world
      ensures Scan(g, ex, world[..], edges, runs', Pos(x, y, Rank(d) + 1))
      ensures var id := CellAt(old(world[..]), g.w, PrevX(x, d), PrevY(y, d)).edgeId[d];
        && 0 <= id < |edges| == old(|edges|)
        && edges == old(edges)[id := Grow(old(edges)[id], d, g.bw)]
        && world[..] == MarkAt(old(world[..]), g.w, x, y, d, id)
        && runs' == Lengthen(runs, id, Face(x, y, d))
      ensures forall j :: Area(g.w, g.h) <= j < world.Length ==> world[j] == old(world[j])
    {
      ghost var cells := world[..];
      ExAtIs(g, ex, cells, x, y);
      ExAtIs(g, ex, cells, PrevX(x, d), PrevY(y, d));
      IdxIn(g.w, g.h, x, y);
      var i := y * g.w + x;
      var q := PrevY(y, d) * g.w + PrevX(x, d);
      var id := world[q].edgeId[d];
      StepExtend(g, ex, cells, edges, runs, x, y, d);
      edges := edges[id := Grow(edges[id], d, g.bw)];
      world[i] := Mark(world[i], d, id);
      assert world[..] == MarkAt(cells, g.w, x, y, d, id);
      runs' := Lengthen(runs, id, Face(x, y, d));
    }

    /** Side `d` of (x, y) is a boundary and the previous cell's side has no
        edge: append the one-block edge of this side, whose id is the old
        length of `edges`, and give the side that id. */
    method AppendEdge(g: Grid, x: int, y: int, d: int, ghost ex: seq<bool>, ghost runs: seq<Run>)
      returns (ghost runs': seq<Run>)
      requires 0 <= d < 4 && Boundary(g, ex, x, y, d)
      requires Scan(g, ex, world[..], edges, runs, Pos(x, y, Rank(d)))
      requires !CellAt(world[..], g.w, PrevX(x, d), PrevY(y, d)).edgeExist[d]
      modifies this, world
      ensures Scan(g, ex, world[..], edges, runs', Pos(x, y, Rank(d) + 1))
      ensures edges == old(edges) + [NewEdge(x, y, d, g.bw)]
      ensures world[..] == MarkAt(old(world[..]), g.w, x, y, d, old(|edges|))
      ensures runs' == runs + [Run(Face(x, y, d), Face(x, y, d))]
      ensures forall j :: Area(g.w, g.h) <= j < world.Length ==> world[j] == old(world[j])
    {
      ghost var cells := world[..];
      ExAtIs(g, ex, cells, x, y);
      IdxIn(g.w, g.h, x, y);
      var i := y * g.w + x;
      StepNew(g, ex, cells, edges, runs, x, y, d);
      var eId := |edges|;
      edges := edges + [NewEdge(x, y, d, g.bw)];
      world[i] := Mark(world[i], d, eId);
      assert world[..] == MarkAt(cells, g.w, x, y, d, eId);
      runs' := runs + [Run(Face(x, y, d), Face(x, y, d))];
    }

    /** The body of the second pass for cell (x, y). */
    method Visit(g: Grid, x: int, y: int, ghost ex: seq<bool>, ghost runs: seq<Run>) returns (ghost runs': seq<Run>)
      requires Interior(g, x, y) && Scan(g, ex, world[..], edges, runs, Pos(x, y, 0))
      modifies this, world
      ensures Scan(g, ex, world[..], edges, runs', Pos(x, y, 4))
      ensures |edges| <= old(|edges|) + 4
      ensures forall j :: Area(g.w, g.h) <= j < world.Length ==> world[j] == old(world[j])
    {
      ExAtIs(g, ex, world[..], x, y);
      if world[y * g.w + x].present {
        runs' := HandleSide(g, x, y, West, ex, runs);
        runs' := HandleSide(g, x, y, East, ex, runs');
        runs' := HandleSide(g, x, y, North, ex, runs');
        runs' := HandleSide(g, x, y, South, ex, runs');
      } else {
        SkipCell(g, ex, world[..], edges, runs, x, y);
        runs' := runs;
      }
    }

    /** The inner loop of the second pass: visit the interior cells of
        column `x` from the top. */
    method VisitColumn(g: Grid, x: int, ghost ex: seq<bool>, ghost runs: seq<Run>) returns (ghost runs': seq<Run>)
      requires 1 <= x < g.w - 1 && Scan(g, ex, world[..], edges, runs, Pos(x, 1, 0))
      modifies this, world
      ensures Scan(g, ex, world[..], edges, runs', Pos(x + 1, 1, 0))
      ensures |edges| <= old(|edges|) + 4 * Max0(g.h - 2)
      ensures forall j :: Area(g.w, g.h) <= j < world.Length ==> world[j] == old(world[j])
    {
      runs' := runs;
      var y := 1;
      while y < g.h - 1
        invariant 1 <= y && (y <= g.h - 1 || y == 1)
        invariant Scan(g, ex, world[..], edges, runs', Pos(x, y, 0))
        invariant forall j :: Area(g.w, g.h) <= j < world.Length ==> world[j] == old(world[j])
        invariant |edges| <= old(|edges|) + 4 * (y - 1)
      {
        runs' := Visit(g, x, y, ex, runs');
        Transfer(g, ex, world[..], edges, runs', Pos(x, y, 4), Pos(x, y + 1, 0));
        y := y + 1;
      }
      Transfer(g, ex, world[..], edges, runs', Pos(x, y, 0), Pos(x + 1, 1, 0));
    }

    /** convertTileMapToVectorMap(w, h, blockWidth): clear `edges`, reset
        the cells of the grid, then visit every interior cell column by
        column. `runs` names, for each edge, the side that started it and
        the side it ends at. */
    method ConvertTileMapToVectorMap(w: int, h: int, blockWidth: nat) returns (ghost runs: seq<Run>)
      requires Area(w, h) <= world.Length
      modifies this, world
      ensures Extracted(Grid(w, h, blockWidth), ExistsOf(old(world[..])), world[..], edges, runs)
      ensures forall i :: Area(w, h) <= i < world.Length ==> world[i] == old(world[i])
      ensures |edges| <= 4 * Max0(w - 2) * Max0(h - 2)
    {
      ghost var ex := ExistsOf(world[..]);
      edges := [];
      Reset(w, h);
      var g := Grid(w, h, blockWidth);
      ScanStart(g, ex, world[..]);
      runs := [];
      var x := 1;
      while x < w - 1
        invariant 1 <= x && (x <= w - 1 || x == 1)
        invariant Scan(g, ex, world[..], edges, runs, Pos(x, 1, 0))
        invariant forall i :: Area(w, h) <= i < world.Length ==> world[i] == old(world[i])
        invariant |edges| <= 4 * ((x - 1) * Max0(h - 2))
      {
        runs := VisitColumn(g, x, ex, runs);
        assert (x - 1) * Max0(h - 2) + Max0(h - 2) == x * Max0(h - 2);
        x := x + 1;
      }
      Transfer(g, ex, world[..], edges, runs, Pos(x, 1, 0), Pos(w, 0, 0));
      assert (x - 1) * Max0(h - 2) == Max0(w - 2) * Max0(h - 2);
    }
  }
}
