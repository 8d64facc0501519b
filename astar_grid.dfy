/**
 * The grid of the A* planner (python/robotSimulator/algorithms/AStar.py):
 * nodes, the rounding between game points and map cells, Python's list
 * indexing, the clipped window of `findBorders`, and the freshly built map
 * of `initNodeMap`.
 */
module AStarGrid {
  import opened Common

  /** Edge of one grid cell in game units (`AStar.nodeSize`). */
  const NODE_SIZE: int := 250
  /** Half-width, in cells, of the square blocked around each hive (`AStar.HIVE_RADIUS`). */
  const HIVE_RADIUS: nat := 1

  /** A cell of the grid, by its two indices. */
  datatype Pos = Pos(x: int, y: int)

  datatype NodeType = Empty | Hive | Closed

  /**
   * One node of the map. `parent` is the position of the parent node: every
   * node lives in the map, so a position names the node object the source
   * points to.
   */
  datatype Node = Node(x: int, y: int, gCost: nat, hCost: nat, kind: NodeType, parent: Option<Pos>)
  {
    function FCost(): nat { gCost + hCost }
    predicate HasParent() { parent.Some? }
    predicate IsClosed() { kind == Closed }
    /** Closing a node changes its type only: the position, costs and parent stay. */
    function SetClosed(): (r: Node)
      ensures r.IsClosed() && r.Equals(this)
      ensures r.gCost == gCost && r.hCost == hCost && r.parent == parent
    {
      this.(kind := Closed)
    }
    /** Node equality (`__eq__`) compares coordinates only. */
    predicate Equals(other: Node) { x == other.x && y == other.y }
  }

  /** A node as `Node(x, y)` creates it. */
  function NewNode(x: int, y: int): Node { Node(x, y, 0, 0, Empty, None) }

  function Min(a: int, b: int): int { if a <= b then a else b }
  function Max(a: int, b: int): int { if a >= b then a else b }

  // ---------------------------------------------------------------------
  // Game points and map cells

  /** Python's `round(a / d)` for an integer `a` and a positive `d`: the nearest integer, ties to even. */
  function RoundDiv(a: int, d: int): (r: int)
    requires d > 0
    ensures 2 * (d * r - a) <= d && 2 * (a - d * r) <= d
    ensures (2 * (d * r - a) == d || 2 * (a - d * r) == d) ==> r % 2 == 0
  {
    var q, rem := a / d, a % d;
    if 2 * rem < d then q
    else if 2 * rem > d then q + 1
    else if q % 2 == 0 then q
    else q + 1
  }

  /** `toMapPoint`: the cell whose centre is nearest to a game point. */
  function ToMapPoint(p: Point): (c: Pos)
    ensures 2 * (NODE_SIZE * c.x - p.x) <= NODE_SIZE && 2 * (p.x - NODE_SIZE * c.x) <= NODE_SIZE
    ensures 2 * (NODE_SIZE * c.y - p.y) <= NODE_SIZE && 2 * (p.y - NODE_SIZE * c.y) <= NODE_SIZE
  {
    Pos(RoundDiv(p.x, NODE_SIZE), RoundDiv(p.y, NODE_SIZE))
  }

  /** `toGamePoint`: the game point of a cell, a multiple of the cell size that divides back to the cell. */
  function ToGamePoint(c: Pos): (p: Point)
    ensures p.x % NODE_SIZE == 0 && p.y % NODE_SIZE == 0
    ensures p.x / NODE_SIZE == c.x && p.y / NODE_SIZE == c.y
  {
    Point(c.x * NODE_SIZE, c.y * NODE_SIZE)
  }

  /** A cell maps to a game point that maps back to the same cell. */
  lemma MapPointOfGamePoint(c: Pos)
    ensures ToMapPoint(ToGamePoint(c)) == c
  {
    var p := ToGamePoint(c);
    var r := RoundDiv(p.x, NODE_SIZE);
    assert 2 * (NODE_SIZE * r - NODE_SIZE * c.x) <= NODE_SIZE;
    assert 2 * (NODE_SIZE * c.x - NODE_SIZE * r) <= NODE_SIZE;
    var s := RoundDiv(p.y, NODE_SIZE);
    assert 2 * (NODE_SIZE * s - NODE_SIZE * c.y) <= NODE_SIZE;
    assert 2 * (NODE_SIZE * c.y - NODE_SIZE * s) <= NODE_SIZE;
  }

  /** A game point is at most half a cell away from the game point of its cell, on each axis. */
  lemma GamePointOfMapPoint(p: Point)
    ensures var q := ToGamePoint(ToMapPoint(p));
      2 * (q.x - p.x) <= NODE_SIZE && 2 * (p.x - q.x) <= NODE_SIZE &&
      2 * (q.y - p.y) <= NODE_SIZE && 2 * (p.y - q.y) <= NODE_SIZE
  {
  }

  // ---------------------------------------------------------------------
  // Python list indexing

  /** Python accepts an index `i` into a list of length `n` when `-n <= i < n`. */
  predicate PyIndexOk(i: int, n: int) { -n <= i < n }

  /** The element Python selects: negative indices count from the end. */
  function PyIndex(i: int, n: int): (r: int)
    requires PyIndexOk(i, n)
    ensures 0 <= r < n
  {
    if i < 0 then i + n else i
  }

  // ---------------------------------------------------------------------
  // The window of findBorders

  /** The four corners `findBorders` returns. */
  datatype Window = Window(startX: int, startY: int, endX: int, endY: int)

  /** The lower edge after `r` steps of "move down unless that goes below 0". */
  function LowEdge(p: int, r: nat): int
  {
    if p <= 0 then p else Max(p - r, 0)
  }

  /** The upper edge after `r` steps of "move up unless that reaches `n`". */
  function HighEdge(p: int, r: nat, n: int): int
  {
    if p >= n - 1 then p else Min(p + r, n - 1)
  }

  /**
   * The window `findBorders(p, r)` yields on a map of `w` by `h` cells. It
   * always holds `p` and reaches at most `r` cells from it on each side.
   */
  function Borders(p: Pos, r: nat, w: int, h: int): (b: Window)
    ensures InWindow(p, b)
    ensures p.x - r <= b.startX && b.endX <= p.x + r && p.y - r <= b.startY && b.endY <= p.y + r
  {
    Window(LowEdge(p.x, r), LowEdge(p.y, r), HighEdge(p.x, r, w), HighEdge(p.y, r, h))
  }

  predicate InGrid(p: Pos, w: int, h: int) { 0 <= p.x < w && 0 <= p.y < h }

  predicate InWindow(q: Pos, b: Window) { b.startX <= q.x <= b.endX && b.startY <= q.y <= b.endY }

  /** Two cells are neighbours (or equal) when each coordinate differs by at most one. */
  predicate Adjacent(a: Pos, b: Pos) { -1 <= a.x - b.x <= 1 && -1 <= a.y - b.y <= 1 }

  /**
   * For a point of the grid the window is the square of radius `r` around it,
   * clipped to the grid.
   */
  lemma BordersInGrid(p: Pos, r: nat, w: int, h: int)
    requires InGrid(p, w, h)
    ensures var b := Borders(p, r, w, h);
      && 0 <= b.startX <= p.x <= b.endX < w
      && 0 <= b.startY <= p.y <= b.endY < h
      && b.startX == Max(0, p.x - r) && b.endX == Min(w - 1, p.x + r)
      && b.startY == Max(0, p.y - r) && b.endY == Min(h - 1, p.y + r)
  {
  }

  /** The radius-1 window of a grid cell holds exactly its neighbours in the grid. */
  lemma WindowIsNeighbourhood(c: Pos, q: Pos, w: int, h: int)
    requires InGrid(c, w, h)
    ensures InWindow(q, Borders(c, 1, w, h)) <==> InGrid(q, w, h) && Adjacent(c, q)
  {
  }

  // ---------------------------------------------------------------------
  // The map

  type Grid = seq<seq<Node>>

  /** The map has `w` columns of `h` nodes. */
  predicate Shaped(m: Grid, w: int, h: int)
  {
    |m| == w && forall i :: 0 <= i < |m| ==> |m[i]| == h
  }

  /**
   * The node `m[p.x][p.y]`. Off the map it yields a fresh node: no
   * well-formed map ever links to such a cell, so this only spares the
   * proofs an index check at every use.
   */
  function At(m: Grid, p: Pos): Node
  {
    if 0 <= p.x < |m| && 0 <= p.y < |m[p.x]| then m[p.x][p.y] else NewNode(p.x, p.y)
  }

  /** The map with the node at `p` replaced. */
  function Put(m: Grid, p: Pos, n: Node): (r: Grid)
    requires 0 <= p.x < |m| && 0 <= p.y < |m[p.x]|
    ensures |r| == |m| && forall i :: 0 <= i < |m| ==> |r[i]| == |m[i]|
    ensures At(r, p) == n
    ensures forall q: Pos {:trigger At(r, q)} :: q != p ==> At(r, q) == At(m, q)
  {
    m[p.x := m[p.x][p.y := n]]
  }

  /** The node at `p` knows its own coordinates, and its parent is a cell of the map. */
  ghost predicate CellWf(m: Grid, w: int, h: int, p: Pos)
  {
    var n := At(m, p);
    n.x == p.x && n.y == p.y && (n.parent.Some? ==> InGrid(n.parent.value, w, h))
  }

  ghost predicate Wf(m: Grid, w: int, h: int)
  {
    Shaped(m, w, h) && forall p: Pos {:trigger CellWf(m, w, h, p)} :: InGrid(p, w, h) ==> CellWf(m, w, h, p)
  }

  /** Replacing a node by one with the same coordinates and an in-grid parent keeps the map well formed. */
  lemma PutWf(m: Grid, w: int, h: int, q: Pos, n: Node)
    requires Wf(m, w, h) && InGrid(q, w, h)
    requires n.x == q.x && n.y == q.y && (n.parent.Some? ==> InGrid(n.parent.value, w, h))
    ensures Wf(Put(m, q, n), w, h)
  {
    var r := Put(m, q, n);
    forall p: Pos | InGrid(p, w, h) ensures CellWf(r, w, h, p) {
      if p != q { assert CellWf(m, w, h, p); }
    }
  }

  /** Two maps of one shape that agree on every cell are equal. */
  lemma GridExt(a: Grid, b: Grid, w: int, h: int)
    requires Shaped(a, w, h) && Shaped(b, w, h)
    requires forall q: Pos {:trigger At(a, q)} :: InGrid(q, w, h) ==> At(a, q) == At(b, q)
    ensures a == b
  {
    forall i | 0 <= i < w ensures a[i] == b[i] {
      forall j | 0 <= j < h ensures a[i][j] == b[i][j] {
        assert At(a, Pos(i, j)) == At(b, Pos(i, j));
      }
    }
  }

  /** In a well-formed map node equality is equality of positions. */
  lemma NodeEqualsIsSamePosition(m: Grid, w: int, h: int, p: Pos, q: Pos)
    requires Wf(m, w, h) && InGrid(p, w, h) && InGrid(q, w, h)
    ensures At(m, p).Equals(At(m, q)) <==> p == q
  {
    assert CellWf(m, w, h, p) && CellWf(m, w, h, q);
  }

  // ---------------------------------------------------------------------
  // The hive marking of initNodeMap

  /** The window of a hive: `findBorders` around its map point with `HIVE_RADIUS`. */
  function HiveWindow(hive: Point, w: int, h: int): Window
  {
    Borders(ToMapPoint(hive), HIVE_RADIUS, w, h)
  }

  /** Every index of the hive's window is one Python accepts. */
  predicate HiveIndexable(hive: Point, w: int, h: int)
  {
    var b := HiveWindow(hive, w, h);
    PyIndexOk(b.startX, w) && PyIndexOk(b.endX, w) && PyIndexOk(b.startY, h) && PyIndexOk(b.endY, h)
  }

  predicate AllHivesIndexable(hives: seq<Point>, w: int, h: int)
  {
    forall k :: 0 <= k < |hives| ==> HiveIndexable(hives[k], w, h)
  }

  /** Some index in `lo..hi` selects element `i` of a list of length `n`. */
  predicate Hits(lo: int, hi: int, i: int, n: int)
  {
    (lo <= i <= hi) || (lo <= i - n <= hi)
  }

  /** `Hits` is the set of elements Python selects with the indices `lo..hi`. */
  lemma HitsIsSelected(lo: int, hi: int, i: int, n: int)
    requires PyIndexOk(lo, n) && PyIndexOk(hi, n) && 0 <= i < n
    ensures Hits(lo, hi, i, n) <==> exists a :: lo <= a <= hi && PyIndex(a, n) == i
  {
    if lo <= i <= hi {
      assert PyIndex(i, n) == i;
    } else if lo <= i - n <= hi {
      assert PyIndex(i - n, n) == i;
    }
  }

  /** Extending the index range `lo..i-1` by `i` adds exactly the element `i` selects. */
  lemma HitsStep(lo: int, i: int, x: int, n: int)
    requires lo <= i && PyIndexOk(i, n) && 0 <= x < n
    ensures Hits(lo, i, x, n) <==> Hits(lo, i - 1, x, n) || x == PyIndex(i, n)
  {
  }

  /** The hive's marking loop sets the node at `p` to HIVE. */
  predicate Covers(hive: Point, p: Pos, w: int, h: int)
  {
    var b := HiveWindow(hive, w, h);
    Hits(b.startX, b.endX, p.x, w) && Hits(b.startY, b.endY, p.y, h)
  }

  /** The cell is marked by some hive. */
  predicate HiveCell(hives: seq<Point>, p: Pos, w: int, h: int)
  {
    exists k :: 0 <= k < |hives| && Covers(hives[k], p, w, h)
  }

  /** For a hive whose map point is a cell of the grid, the marked cells are the square of radius `HIVE_RADIUS` around it. */
  lemma CoversInGrid(hive: Point, p: Pos, w: int, h: int)
    requires InGrid(ToMapPoint(hive), w, h) && InGrid(p, w, h)
    ensures var c := ToMapPoint(hive);
      Covers(hive, p, w, h) <==> -(HIVE_RADIUS as int) <= p.x - c.x <= HIVE_RADIUS && -(HIVE_RADIUS as int) <= p.y - c.y <= HIVE_RADIUS
  {
    BordersInGrid(ToMapPoint(hive), HIVE_RADIUS, w, h);
  }

  /** The map `initNodeMap` builds: `Node(j, i)` at `[j][i]`, HIVE where some hive marks it. */
  ghost function InitialGrid(hives: seq<Point>, w: nat, h: nat): Grid
  {
    seq(w, i => seq(h, j => NewNode(i, j).(kind := if HiveCell(hives, Pos(i, j), w, h) then Hive else Empty)))
  }

  /** The map is well formed, HIVE exactly at the marked cells, and every other node is a fresh EMPTY node with no parent. */
  lemma InitialGridCells(hives: seq<Point>, w: nat, h: nat, p: Pos)
    requires InGrid(p, w, h)
    ensures Wf(InitialGrid(hives, w, h), w, h)
    ensures var n := At(InitialGrid(hives, w, h), p);
      && n.x == p.x && n.y == p.y && n.parent == None && n.gCost == 0 && n.hCost == 0
      && (n.kind == Hive <==> HiveCell(hives, p, w, h))
      && n.kind != Closed
  {
  }
}
