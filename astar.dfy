/**
 * The planner object of python/robotSimulator/algorithms/AStar.py: the class
 * `AStar` with its open set, its node map, its start and goal nodes and the
 * planned path, and the methods that change them.
 */
module AStar {
  import opened Common
  import opened AStarGrid
  import opened AStarRelax
  import opened AStarSearch

  /** How `run` ends: an `IndexError`, an exhausted open set (`None`), or the path `getPathA` returns. */
  datatype Outcome = IndexError | NoPath | Found(path: seq<Point>)

  /** Python can index the map with the map point of `p`. */
  predicate PointIndexable(p: Point, w: int, h: int)
  {
    var c := ToMapPoint(p);
    PyIndexOk(c.x, w) && PyIndexOk(c.y, h)
  }

  /** The cell `nodeMap[c[0]][c[1]]` selects for the map point `c` of `p`. */
  function CellOf(p: Point, w: int, h: int): (r: Pos)
    requires PointIndexable(p, w, h)
    ensures InGrid(r, w, h)
  {
    var c := ToMapPoint(p);
    Pos(PyIndex(c.x, w), PyIndex(c.y, h))
  }

  /** The cells of a sequence of game points. */
  function MapCells(ps: seq<Point>): (r: seq<Pos>)
    ensures |r| == |ps| && forall i :: 0 <= i < |ps| ==> r[i] == ToMapPoint(ps[i])
  {
    seq(|ps|, i requires 0 <= i < |ps| => ToMapPoint(ps[i]))
  }

  /** Game points of cells map back to the same cells. */
  lemma MapCellsOfGamePoints(c: seq<Pos>)
    ensures MapCells(GamePoints(c)) == c
  {
    forall i | 0 <= i < |c| ensures MapCells(GamePoints(c))[i] == c[i] {
      MapPointOfGamePoint(c[i]);
    }
  }

  /** The first index of an open entry of least `fCost`: the entry `heappop` removes. */
  function MinIndex(m: Grid, open: seq<Pos>): (r: nat)
    requires |open| > 0
    ensures r < |open|
    ensures forall k :: 0 <= k < |open| ==> At(m, open[r]).FCost() <= At(m, open[k]).FCost()
    ensures forall k :: 0 <= k < r ==> At(m, open[k]).FCost() > At(m, open[r]).FCost()
  {
    if |open| == 1 then 0
    else
      var r := MinIndex(m, open[..|open| - 1]);
      if At(m, open[|open| - 1]).FCost() < At(m, open[r]).FCost() then |open| - 1 else r
  }

  /**
   * The two loops of `checkNeighbours` over the window `b` of the current
   * node `c`, column by column, on the map `m0` with goal `e`.
   */
  method RelaxWindow(m0: Grid, w: nat, h: nat, c: Pos, e: Pos, cost: Cost, b: Window) returns (m: Grid, pushed: seq<Pos>)
    requires Shaped(m0, w, h) && InGrid(c, w, h)
    requires 0 <= b.startX <= b.endX + 1 <= w && 0 <= b.startY <= b.endY + 1 <= h
    ensures Relaxation(m, pushed) == WinFold(Relaxation(m0, []), w, h, c, e, cost, b.startX, b.endX + 1, b.startY, b.endY + 1)
  {
    m, pushed := m0, [];
    for i := b.startX to b.endX + 1
      invariant Relaxation(m, pushed) == WinFold(Relaxation(m0, []), w, h, c, e, cost, b.startX, i, b.startY, b.endY + 1)
    {
      m, pushed := RelaxColumn(m, pushed, w, h, c, e, cost, i, b.startY, b.endY + 1);
    }
  }

  /** The inner loop of `checkNeighbours`: column `i`, rows `lo..hi-1`, after the cells `pushed0` were pushed. */
  method RelaxColumn(m0: Grid, pushed0: seq<Pos>, w: nat, h: nat, c: Pos, e: Pos, cost: Cost, i: int, lo: int, hi: int)
    returns (m: Grid, pushed: seq<Pos>)
    requires Shaped(m0, w, h) && InGrid(c, w, h) && 0 <= i < w && 0 <= lo <= hi <= h
    ensures Relaxation(m, pushed) == ColFold(Relaxation(m0, pushed0), w, h, c, e, cost, i, lo, hi)
  {
    m, pushed := m0, pushed0;
    for j := lo to hi
      invariant Relaxation(m, pushed) == ColFold(Relaxation(m0, pushed0), w, h, c, e, cost, i, lo, j)
    {
      var node := At(m, Pos(i, j));
      var g := At(m, c).gCost;
      if node.kind != Hive && !node.IsClosed() && (!node.HasParent() || At(m, node.parent.value).gCost > g) {
        m := Put(m, Pos(i, j), Relaxed(node, c, Pos(i, j), e, g, cost));
        pushed := pushed + [Pos(i, j)];
      }
    }
  }

  /** The node at `q` of `m` is that of `m0`, set to HIVE where `mark` holds. */
  ghost predicate MarkedFrom(m0: Grid, m: Grid, q: Pos, mark: bool)
  {
    At(m, q) == if mark then At(m0, q).(kind := Hive) else At(m0, q)
  }

  /**
   * The inner marking loop of `initNodeMap` for column `x`: the nodes at
   * rows `lo..hi` become HIVE. It stops with `ok` false at the first row
   * index Python refuses.
   */
  method MarkColumn(m0: Grid, w: nat, h: nat, x: int, lo: int, hi: int) returns (m: Grid, ok: bool)
    requires Shaped(m0, w, h) && 0 <= x < w && lo <= hi
    ensures Shaped(m, w, h)
    ensures ok <==> PyIndexOk(lo, h) && PyIndexOk(hi, h)
    ensures ok ==> forall q: Pos {:trigger At(m, q)} :: InGrid(q, w, h) ==> MarkedFrom(m0, m, q, q.x == x && Hits(lo, hi, q.y, h))
  {
    m := m0;
    forall q: Pos | InGrid(q, w, h) ensures MarkedFrom(m0, m, q, q.x == x && Hits(lo, lo - 1, q.y, h)) {
      assert !Hits(lo, lo - 1, q.y, h);
    }
    for j := lo to hi + 1
      invariant Shaped(m, w, h)
      invariant j > lo ==> PyIndexOk(lo, h) && PyIndexOk(j - 1, h)
      invariant forall q: Pos {:trigger At(m, q)} :: InGrid(q, w, h) ==> MarkedFrom(m0, m, q, q.x == x && Hits(lo, j - 1, q.y, h))
    {
      if !PyIndexOk(j, h) {
        return m, false;
      }
      var y := PyIndex(j, h);
      m := Put(m, Pos(x, y), At(m, Pos(x, y)).(kind := Hive));
      forall q: Pos | InGrid(q, w, h) ensures MarkedFrom(m0, m, q, q.x == x && Hits(lo, j, q.y, h)) {
        HitsStep(lo, j, q.y, h);
      }
    }
    forall q: Pos | InGrid(q, w, h) ensures MarkedFrom(m0, m, q, q.x == x && Hits(lo, hi, q.y, h)) {
      assert MarkedFrom(m0, m, q, q.x == x && Hits(lo, hi + 1 - 1, q.y, h));
    }
    ok := true;
  }

  /**
   * The two marking loops of `initNodeMap` for one hive window `b`: every
   * node Python selects with indices in the window becomes HIVE. It stops
   * with `ok` false at the first index Python refuses.
   */
  method MarkWindow(m0: Grid, w: nat, h: nat, b: Window) returns (m: Grid, ok: bool)
    requires Shaped(m0, w, h) && b.startX <= b.endX && b.startY <= b.endY
    ensures Shaped(m, w, h)
    ensures ok <==> PyIndexOk(b.startX, w) && PyIndexOk(b.endX, w) && PyIndexOk(b.startY, h) && PyIndexOk(b.endY, h)
    ensures ok ==> forall q: Pos {:trigger At(m, q)} :: InGrid(q, w, h) ==>
      MarkedFrom(m0, m, q, Hits(b.startX, b.endX, q.x, w) && Hits(b.startY, b.endY, q.y, h))
  {
    m := m0;
    forall q: Pos | InGrid(q, w, h) ensures MarkedFrom(m0, m, q, Hits(b.startX, b.startX - 1, q.x, w) && Hits(b.startY, b.endY, q.y, h)) {
      assert !Hits(b.startX, b.startX - 1, q.x, w);
    }
    for i := b.startX to b.endX + 1
      invariant Shaped(m, w, h)
      invariant i > b.startX ==> PyIndexOk(b.startX, w) && PyIndexOk(i - 1, w) && PyIndexOk(b.startY, h) && PyIndexOk(b.endY, h)
      invariant forall q: Pos {:trigger At(m, q)} :: InGrid(q, w, h) ==>
        MarkedFrom(m0, m, q, Hits(b.startX, i - 1, q.x, w) && Hits(b.startY, b.endY, q.y, h))
    {
      if !PyIndexOk(i, w) {
        return m, false;
      }
      var x := PyIndex(i, w);
      var m', okc := MarkColumn(m, w, h, x, b.startY, b.endY);
      if !okc {
        return m', false;
      }
      forall q: Pos | InGrid(q, w, h) ensures MarkedFrom(m0, m', q, Hits(b.startX, i, q.x, w) && Hits(b.startY, b.endY, q.y, h)) {
        HitsStep(b.startX, i, q.x, w);
        assert MarkedFrom(m0, m, q, Hits(b.startX, i - 1, q.x, w) && Hits(b.startY, b.endY, q.y, h));
        assert MarkedFrom(m, m', q, q.x == x && Hits(b.startY, b.endY, q.y, h));
      }
      m := m';
    }
    forall q: Pos | InGrid(q, w, h) ensures MarkedFrom(m0, m, q, Hits(b.startX, b.endX, q.x, w) && Hits(b.startY, b.endY, q.y, h)) {
      assert MarkedFrom(m0, m, q, Hits(b.startX, b.endX + 1 - 1, q.x, w) && Hits(b.startY, b.endY, q.y, h));
    }
    ok := true;
  }

  /** A map whose nodes are fresh, HIVE exactly where `marked` holds. */
  predicate FreshAt(m: Grid, q: Pos, marked: bool)
  {
    At(m, q) == NewNode(q.x, q.y).(kind := if marked then Hive else Empty)
  }

  /** A cell is marked by the first `k + 1` hives exactly when it is marked by the first `k` or by hive `k`. */
  lemma HiveCellSnoc(hives: seq<Point>, k: int, q: Pos, w: int, h: int)
    requires 0 <= k < |hives|
    ensures HiveCell(hives[..k + 1], q, w, h) <==> HiveCell(hives[..k], q, w, h) || Covers(hives[k], q, w, h)
  {
    if HiveCell(hives[..k + 1], q, w, h) {
      var t :| 0 <= t < k + 1 && Covers(hives[..k + 1][t], q, w, h);
      if t < k {
        assert hives[..k][t] == hives[t];
      }
    }
    if HiveCell(hives[..k], q, w, h) {
      var t :| 0 <= t < k && Covers(hives[..k][t], q, w, h);
      assert hives[..k + 1][t] == hives[t];
    }
    if Covers(hives[k], q, w, h) {
      assert hives[..k + 1][k] == hives[k];
    }
  }

  /** Column-major list of the HIVE cells of columns `0..i-1`. */
  function HiveCellsUpTo(m: Grid, w: nat, h: nat, i: int): (r: seq<Pos>)
    requires Shaped(m, w, h) && 0 <= i <= w
    ensures forall k :: 0 <= k < |r| ==> InGrid(r[k], w, h) && r[k].x < i && At(m, r[k]).kind == Hive
    decreases i
  {
    if i == 0 then [] else HiveCellsUpTo(m, w, h, i - 1) + ColumnHives(m, w, h, i - 1, h)
  }

  /** The HIVE cells of column `i`, rows `0..j-1`, in order. */
  function ColumnHives(m: Grid, w: nat, h: nat, i: int, j: int): (r: seq<Pos>)
    requires Shaped(m, w, h) && 0 <= i < w && 0 <= j <= h
    ensures forall k :: 0 <= k < |r| ==> r[k].x == i && 0 <= r[k].y < j && m[i][r[k].y].kind == Hive
    decreases j
  {
    if j == 0 then []
    else ColumnHives(m, w, h, i, j - 1) + (if m[i][j - 1].kind == Hive then [Pos(i, j - 1)] else [])
  }

  /** Column-major order of cells. */
  predicate Before(a: Pos, b: Pos)
  {
    a.x < b.x || (a.x == b.x && a.y < b.y)
  }

  /** The HIVE cells of column `i`, rows `0..j-1`: every HIVE node there and no other cell. */
  lemma {:induction false} ColumnHivesMembers(m: Grid, w: nat, h: nat, i: int, j: int)
    requires Shaped(m, w, h) && 0 <= i < w && 0 <= j <= h
    ensures forall q: Pos :: q in ColumnHives(m, w, h, i, j) <==> q.x == i && 0 <= q.y < j && m[i][q.y].kind == Hive
    decreases j
  {
    if j > 0 {
      ColumnHivesMembers(m, w, h, i, j - 1);
    }
  }

  /** Cells of column `i` with rows strictly ascending. */
  predicate RowsAscending(c: seq<Pos>, i: int)
  {
    forall a, b :: 0 <= a < b < |c| ==> c[a].x == i && c[b].x == i && c[a].y < c[b].y
  }

  /** The HIVE cells of a column are listed with rows ascending. */
  lemma {:induction false} ColumnHivesOrdered(m: Grid, w: nat, h: nat, i: int, j: int)
    requires Shaped(m, w, h) && 0 <= i < w && 0 <= j <= h
    ensures RowsAscending(ColumnHives(m, w, h, i, j), i)
    decreases j
  {
    if j > 0 {
      ColumnHivesOrdered(m, w, h, i, j - 1);
      ColumnHivesMembers(m, w, h, i, j - 1);
      var c0, c := ColumnHives(m, w, h, i, j - 1), ColumnHives(m, w, h, i, j);
      var tail := if m[i][j - 1].kind == Hive then [Pos(i, j - 1)] else [];
      assert c == c0 + tail;
      forall a, b | 0 <= a < b < |c| ensures c[a].x == i && c[b].x == i && c[a].y < c[b].y {
        assert c[a] == c0[a] && c0[a] in c0;
        if b < |c0| {
          assert c[b] == c0[b];
          assert RowsAscending(c0, i);
        } else {
          assert c[b] == tail[b - |c0|] == Pos(i, j - 1);
        }
      }
    }
  }

  /** The HIVE cells of columns `0..i-1`: every HIVE node of those columns and no other cell. */
  lemma {:induction false} HiveCellsMembers(m: Grid, w: nat, h: nat, i: int)
    requires Shaped(m, w, h) && 0 <= i <= w
    ensures forall q: Pos :: q in HiveCellsUpTo(m, w, h, i) <==> 0 <= q.x < i && 0 <= q.y < h && At(m, q).kind == Hive
    decreases i
  {
    if i > 0 {
      HiveCellsMembers(m, w, h, i - 1);
      ColumnHivesMembers(m, w, h, i - 1, h);
      var c0, c1 := HiveCellsUpTo(m, w, h, i - 1), ColumnHives(m, w, h, i - 1, h);
      assert HiveCellsUpTo(m, w, h, i) == c0 + c1;
      forall q: Pos ensures q in c0 + c1 <==> 0 <= q.x < i && 0 <= q.y < h && At(m, q).kind == Hive {
        assert q in c0 + c1 <==> q in c0 || q in c1;
        assert q in c0 <==> 0 <= q.x < i - 1 && 0 <= q.y < h && At(m, q).kind == Hive;
        if q.x == i - 1 && 0 <= q.y < h {
          assert At(m, q) == m[i - 1][q.y];
          assert q in c1 <==> At(m, q).kind == Hive;
        } else {
          assert q !in c1;
        }
      }
    }
  }

  /** The cells come in strictly increasing column-major order. */
  predicate ColumnMajor(c: seq<Pos>)
  {
    forall a, b :: 0 <= a < b < |c| ==> Before(c[a], c[b])
  }

  /** The HIVE cells come in column-major order, each once. */
  lemma {:induction false} HiveCellsOrdered(m: Grid, w: nat, h: nat, i: int)
    requires Shaped(m, w, h) && 0 <= i <= w
    ensures ColumnMajor(HiveCellsUpTo(m, w, h, i))
    decreases i
  {
    if i > 0 {
      HiveCellsOrdered(m, w, h, i - 1);
      ColumnHivesOrdered(m, w, h, i - 1, h);
      var c0 := HiveCellsUpTo(m, w, h, i - 1);
      var c1 := ColumnHives(m, w, h, i - 1, h);
      var c := c0 + c1;
      assert c == HiveCellsUpTo(m, w, h, i);
      forall a, b | 0 <= a < b < |c| ensures Before(c[a], c[b]) {
        if b < |c0| {
          assert c[a] == c0[a] && c[b] == c0[b];
          assert ColumnMajor(c0);
        } else if a < |c0| {
          assert c[a] == c0[a] && c[b] == c1[b - |c0|];
        } else {
          assert c[a] == c1[a - |c0|] && c[b] == c1[b - |c0|];
          assert 0 <= a - |c0| < b - |c0| < |c1|;
          assert RowsAscending(c1, i - 1);
        }
      }
    }
  }

  /** On the map `initNodeMap` builds, the HIVE cells are exactly the cells some hive marks. */
  lemma InitialHiveCells(hives: seq<Point>, w: nat, h: nat, q: Pos)
    ensures q in HiveCellsUpTo(InitialGrid(hives, w, h), w, h, w) <==> InGrid(q, w, h) && HiveCell(hives, q, w, h)
  {
    HiveCellsMembers(InitialGrid(hives, w, h), w, h, w);
    if InGrid(q, w, h) {
      InitialGridCells(hives, w, h, q);
    }
  }

  class AStar {
    /** `mapShape`: the number of columns and rows of the map. */
    const w: nat
    const h: nat
    /** `Node.cost`: the Euclidean distance between two cells. */
    const cost: Cost

    var openNodes: seq<Pos>
    var nodeMap: Grid
    var start: Option<Pos>
    var end: Option<Pos>
    var path: seq<Point>

    /** `AStar(game)`, up to its first call of `run`. */
    constructor (gameWidth: nat, gameHeight: nat, distance: Cost)
      ensures w == gameWidth / NODE_SIZE && h == gameHeight / NODE_SIZE && cost == distance
      ensures openNodes == [] && nodeMap == [] && start == None && end == None && path == []
    {
      w := gameWidth / NODE_SIZE;
      h := gameHeight / NODE_SIZE;
      cost := distance;
      openNodes := [];
      nodeMap := [];
      start := None;
      end := None;
      path := [];
    }

    /** `findBorders(point, radius)`: the window of `radius` steps around `point`, clipped to the map. */
    method FindBorders(point: Pos, radius: nat) returns (b: Window)
      ensures b == Borders(point, radius, w, h)
    {
      var startX, startY, endX, endY := point.x, point.y, point.x, point.y;
      for k := 0 to radius
        invariant startX == LowEdge(point.x, k) && startY == LowEdge(point.y, k)
        invariant endX == HighEdge(point.x, k, w) && endY == HighEdge(point.y, k, h)
      {
        if startX - 1 >= 0 {
          startX := startX - 1;
        }
        if startY - 1 >= 0 {
          startY := startY - 1;
        }
        if endX + 1 < w {
          endX := endX + 1;
        }
        if endY + 1 < h {
          endY := endY + 1;
        }
      }
      b := Window(startX, startY, endX, endY);
    }

    /**
     * `initNodeMap()` for the hives of the game: a fresh map, then the
     * window of each hive marked HIVE. It raises `IndexError` (`ok` false)
     * exactly when some hive's window holds an index Python refuses.
     */
    method InitNodeMap(hives: seq<Point>) returns (ok: bool)
      modifies this`nodeMap
      ensures ok <==> AllHivesIndexable(hives, w, h)
      ensures ok ==> nodeMap == InitialGrid(hives, w, h)
    {
      var m: Grid := seq(w, j => seq(h, i => NewNode(j, i)));
      forall q: Pos | InGrid(q, w, h) ensures FreshAt(m, q, HiveCell(hives[..0], q, w, h)) {
      }
      for k := 0 to |hives|
        invariant Shaped(m, w, h)
        invariant forall t :: 0 <= t < k ==> HiveIndexable(hives[t], w, h)
        invariant forall q: Pos {:trigger At(m, q)} :: InGrid(q, w, h) ==> FreshAt(m, q, HiveCell(hives[..k], q, w, h))
      {
        var b := FindBorders(ToMapPoint(hives[k]), HIVE_RADIUS);
        assert b == HiveWindow(hives[k], w, h);
        var m', marked := MarkWindow(m, w, h, b);
        if !marked {
          nodeMap, ok := m', false;
          return;
        }
        forall q: Pos | InGrid(q, w, h) ensures FreshAt(m', q, HiveCell(hives[..k + 1], q, w, h)) {
          HiveCellSnoc(hives, k, q, w, h);
          assert FreshAt(m, q, HiveCell(hives[..k], q, w, h));
          assert MarkedFrom(m, m', q, Covers(hives[k], q, w, h));
        }
        m := m';
      }
      assert hives[..|hives|] == hives;
      forall q: Pos | InGrid(q, w, h) ensures At(m, q) == At(InitialGrid(hives, w, h), q) {
        InitialGridCells(hives, w, h, q);
      }
      GridExt(m, InitialGrid(hives, w, h), w, h);
      nodeMap, ok := m, true;
    }

    /**
     * `checkNeighbours(current)`: each node of the window around the
     * current node that is not HIVE, not closed, and has no parent or a
     * dearer one, takes the current node as parent and is pushed.
     */
    method CheckNeighbours(c: Pos)
      requires end.Some? && Wf(nodeMap, w, h) && InGrid(c, w, h)
      modifies this`nodeMap, this`openNodes
      ensures var r := Relax(old(nodeMap), w, h, c, end.value, cost);
        nodeMap == r.grid && openNodes == old(openNodes) + r.pushed
    {
      var current := At(nodeMap, c);
      assert CellWf(nodeMap, w, h, c);
      var b := FindBorders(Pos(current.x, current.y), 1);
      BordersInGrid(c, 1, w, h);
      var m, pushed := RelaxWindow(nodeMap, w, h, c, end.value, cost, b);
      nodeMap, openNodes := m, openNodes + pushed;
    }

    /** `getPathA(current)`: the game points of `current` and its ancestors, up to the node without a parent. */
    method GetPathA(c: Pos, ghost s: Pos, ghost hives: seq<Point>) returns (p: seq<Point>)
      requires TreeInv(nodeMap, w, h, s, hives, cost) && PositiveCost(cost) && InGrid(c, w, h)
      ensures p == GamePoints(PathCells(nodeMap, w, h, s, hives, cost, c))
      ensures s !in MapCells(p)
    {
      p := [];
      var current := c;
      while At(nodeMap, current).parent.Some?
        invariant InGrid(current, w, h)
        invariant p + GamePoints(PathCells(nodeMap, w, h, s, hives, cost, current)) == GamePoints(PathCells(nodeMap, w, h, s, hives, cost, c))
        decreases At(nodeMap, current).gCost
      {
        var node := At(nodeMap, current);
        assert CellWf(nodeMap, w, h, current);
        ParentCheaper(nodeMap, w, h, s, hives, cost, current);
        var next := node.parent.value;
        assert GamePoints(PathCells(nodeMap, w, h, s, hives, cost, current))
            == [ToGamePoint(current)] + GamePoints(PathCells(nodeMap, w, h, s, hives, cost, next));
        p := p + [ToGamePoint(Pos(node.x, node.y))];
        current := next;
      }
      assert p + [] == p;
      MapCellsOfGamePoints(PathCells(nodeMap, w, h, s, hives, cost, c));
      PathCellsChain(nodeMap, w, h, s, hives, cost, c);
    }

    /** `getHivePositions()`: the game points of the HIVE nodes, column by column. */
    method GetHivePositions() returns (hives: seq<Point>)
      requires Shaped(nodeMap, w, h)
      ensures hives == GamePoints(HiveCellsUpTo(nodeMap, w, h, w))
    {
      hives := [];
      for i := 0 to w
        invariant hives == GamePoints(HiveCellsUpTo(nodeMap, w, h, i))
      {
        for j := 0 to h
          invariant hives == GamePoints(HiveCellsUpTo(nodeMap, w, h, i) + ColumnHives(nodeMap, w, h, i, j))
        {
          if nodeMap[i][j].kind == Hive {
            hives := hives + [ToGamePoint(Pos(i, j))];
          }
        }
      }
    }

    /** `getMotion(...)`: the last point of the path, removed from it, or `(-1, -1)` once the path is empty. */
    method GetMotion() returns (point: Point)
      modifies this`path
      ensures old(path) != [] ==> point == old(path)[|old(path)| - 1] && path == old(path)[..|old(path)| - 1]
      ensures old(path) == [] ==> point == Point(-1, -1) && path == []
    {
      if |path| != 0 {
        point := path[|path| - 1];
        path := path[..|path| - 1];
      } else {
        point := Point(-1, -1);
      }
    }

    /**
     * `run(startPos, endPos)` for the hives of the game. It raises
     * `IndexError` exactly when a hive window, the start or the goal holds
     * an index Python refuses. A found path, read from its end, leads from
     * the start cell to the goal cell through neighbouring cells outside
     * every hive area, and its step costs add up to the goal's `gCost`.
     * When the open set runs empty there is no such walk at all.
     */
    method Run(startPos: Point, endPos: Point, hives: seq<Point>) returns (o: Outcome)
      requires PositiveCost(cost)
      modifies this`openNodes, this`nodeMap, this`start, this`end
      ensures o.IndexError? <==>
        !(AllHivesIndexable(hives, w, h) && PointIndexable(startPos, w, h) && PointIndexable(endPos, w, h))
      ensures o.Found? ==>
        var s, e := CellOf(startPos, w, h), CellOf(endPos, w, h);
        var ws := [s] + Reverse(MapCells(o.path));
        && GamePoints(MapCells(o.path)) == o.path
        && IsWalk(ws, s, e, hives, w, h) && s !in MapCells(o.path)
        && Shaped(nodeMap, w, h) && At(nodeMap, e).gCost == WalkCost(ws, cost)
      ensures o.NoPath? ==>
        && openNodes == []
        && forall ws :: !IsWalk(ws, CellOf(startPos, w, h), CellOf(endPos, w, h), hives, w, h)
      ensures !o.IndexError? ==>
        && start == Some(CellOf(startPos, w, h)) && end == Some(CellOf(endPos, w, h))
        && Shaped(nodeMap, w, h)
        && forall q: Pos :: InGrid(q, w, h) ==>
             (At(nodeMap, q).kind == Hive <==> HiveCell(hives, q, w, h) && q != CellOf(startPos, w, h))
    {
      openNodes := [];
      var ok := InitNodeMap(hives);
      if !ok {
        return IndexError;
      }
      var sp, ep := ToMapPoint(startPos), ToMapPoint(endPos);
      if !(PyIndexOk(sp.x, w) && PyIndexOk(sp.y, h)) {
        return IndexError;
      }
      var s := Pos(PyIndex(sp.x, w), PyIndex(sp.y, h));
      start := Some(s);
      if !(PyIndexOk(ep.x, w) && PyIndexOk(ep.y, h)) {
        return IndexError;
      }
      var e := Pos(PyIndex(ep.x, w), PyIndex(ep.y, h));
      end := Some(e);
      openNodes := openNodes + [s];
      SearchStarts(hives, w, h, s, e, cost);
      InitialGridCells(hives, w, h, s);
      while openNodes != []
        invariant start == Some(s) && end == Some(e)
        invariant SearchInv(nodeMap, w, h, openNodes, s, e, hives, cost)
        invariant At(nodeMap, s).gCost == 0
        decreases Open(nodeMap, w, h), |openNodes|
      {
        var k := MinIndex(nodeMap, openNodes);
        var current := openNodes[k];
        SearchStep(nodeMap, w, h, openNodes, s, e, hives, cost, k);
        openNodes := openNodes[..k] + openNodes[k + 1..];
        nodeMap := Put(nodeMap, current, At(nodeMap, current).SetClosed());
        NodeEqualsIsSamePosition(nodeMap, w, h, current, e);
        if At(nodeMap, current).Equals(At(nodeMap, e)) {
          var p := GetPathA(current, s, hives);
          MapCellsOfGamePoints(PathCells(nodeMap, w, h, s, hives, cost, e));
          HiveKindsOnceStarted(nodeMap, w, h, s, hives, cost);
          return Found(p);
        }
        CheckNeighbours(current);
      }
      forall ws ensures !IsWalk(ws, s, e, hives, w, h) {
        NoWalkWhenExhausted(nodeMap, w, h, s, e, hives, cost, ws);
      }
      HiveKindsOnceStarted(nodeMap, w, h, s, hives, cost);
      return NoPath;
    }
  }
}
