/**
 * The search loop of `AStar.run` (python/robotSimulator/algorithms/AStar.py):
 * the invariant it keeps, the parent chain `getPathA` follows, and what a
 * finished search says about walks from the start to the goal.
 */
module AStarSearch {
  import opened Common
  import opened AStarGrid
  import opened AStarRelax

  /** Distinct cells are a positive distance apart, as with the Euclidean distance. */
  ghost predicate PositiveCost(cost: Cost)
  {
    forall a: Pos, b: Pos :: a != b ==> cost(a, b) > 0
  }

  /** The cells whose nodes are not closed. */
  ghost function Open(m: Grid, w: int, h: int): set<Pos>
  {
    set i, j | 0 <= i < w && 0 <= j < h && At(m, Pos(i, j)).kind != Closed :: Pos(i, j)
  }

  // ---------------------------------------------------------------------
  // The search invariant

  /**
   * The parent links at a cell: a parent is a closed neighbour distinct from
   * the node, the node's `gCost` is the parent's plus the step, and a node
   * with a parent is not HIVE. HIVE nodes are the marked cells (the start
   * cell, once closed, is the one marked cell that is not HIVE), and every
   * closed node but the start has a parent.
   */
  ghost predicate TreeAt(m: Grid, w: int, h: int, s: Pos, hives: seq<Point>, cost: Cost, p: Pos)
  {
    var n := At(m, p);
    && (n.parent.Some? ==>
         var q := n.parent.value;
         && At(m, q).kind == Closed && q != p && Adjacent(q, p)
         && n.gCost == At(m, q).gCost + cost(q, p)
         && n.kind != Hive)
    && (HiveCell(hives, p, w, h) ==> n.kind == Hive || p == s)
    && (n.kind == Hive ==> HiveCell(hives, p, w, h))
    && (n.kind == Closed && p != s ==> n.parent.Some?)
  }

  ghost predicate TreeInv(m: Grid, w: int, h: int, s: Pos, hives: seq<Point>, cost: Cost)
  {
    && Wf(m, w, h) && InGrid(s, w, h)
    && At(m, s).parent.None?
    && forall p: Pos {:trigger TreeAt(m, w, h, s, hives, cost, p)} :: InGrid(p, w, h) ==> TreeAt(m, w, h, s, hives, cost, p)
  }

  /**
   * A closed node has been expanded: each neighbour is HIVE, closed, or has a
   * parent no dearer than the closed node.
   */
  ghost predicate Expanded(m: Grid, w: int, h: int, c: Pos)
  {
    forall t: Pos {:trigger Covered(m, w, h, c, t)} :: InGrid(t, w, h) && Adjacent(c, t) ==> Covered(m, w, h, c, t)
  }

  /** The neighbour `t` of the closed node `c` is HIVE, closed, or has a parent no dearer than `c`. */
  ghost predicate Covered(m: Grid, w: int, h: int, c: Pos, t: Pos)
  {
    var n := At(m, t);
    n.kind == Hive || n.kind == Closed || (n.parent.Some? && At(m, n.parent.value).gCost <= At(m, c).gCost)
  }

  /** A node with a parent that is still open to expansion is in the open set; a closed node has been expanded. */
  ghost predicate FrontierAt(m: Grid, w: int, h: int, open: seq<Pos>, p: Pos)
  {
    && (At(m, p).parent.Some? && At(m, p).kind != Closed ==> p in open)
    && (At(m, p).kind == Closed ==> Expanded(m, w, h, p))
  }

  /** Each entry of the open set is a cell of the map, and the start or a node with a parent. */
  ghost predicate OpenEntries(m: Grid, w: int, h: int, open: seq<Pos>, s: Pos)
  {
    forall k :: 0 <= k < |open| ==> InGrid(open[k], w, h) && (open[k] == s || At(m, open[k]).parent.Some?)
  }

  /** What holds at the head of every iteration of the loop of `run`. */
  ghost predicate SearchInv(m: Grid, w: int, h: int, open: seq<Pos>, s: Pos, e: Pos, hives: seq<Point>, cost: Cost)
  {
    && TreeInv(m, w, h, s, hives, cost)
    && InGrid(e, w, h) && At(m, e).kind != Closed
    && OpenEntries(m, w, h, open, s)
    && (At(m, s).kind != Closed ==> open == [s] && m == InitialGrid(hives, |m|, h))
    && forall p: Pos {:trigger FrontierAt(m, w, h, open, p)} :: InGrid(p, w, h) ==> FrontierAt(m, w, h, open, p)
  }

  /** The invariant holds when the loop starts: the fresh map with the start alone in the open set. */
  lemma SearchStarts(hives: seq<Point>, w: nat, h: nat, s: Pos, e: Pos, cost: Cost)
    requires InGrid(s, w, h) && InGrid(e, w, h)
    ensures SearchInv(InitialGrid(hives, w, h), w, h, [s], s, e, hives, cost)
  {
    var m := InitialGrid(hives, w, h);
    forall p: Pos | InGrid(p, w, h) ensures At(m, p).parent.None? && At(m, p).kind != Closed {
      InitialGridCells(hives, w, h, p);
    }
    InitialGridCells(hives, w, h, s);
    forall p: Pos | InGrid(p, w, h) ensures TreeAt(m, w, h, s, hives, cost, p) && FrontierAt(m, w, h, [s], p) {
      InitialGridCells(hives, w, h, p);
    }
  }

  // ---------------------------------------------------------------------
  // One iteration of the loop

  lemma TreeParentsClosed(m: Grid, w: int, h: int, s: Pos, hives: seq<Point>, cost: Cost)
    requires TreeInv(m, w, h, s, hives, cost)
    ensures ParentsClosed(m, w, h)
  {
    forall q: Pos | InGrid(q, w, h) && At(m, q).parent.Some?
      ensures InGrid(At(m, q).parent.value, w, h) && At(m, At(m, q).parent.value).kind == Closed
    {
      assert TreeAt(m, w, h, s, hives, cost, q);
      assert CellWf(m, w, h, q);
    }
  }

  /** `current.setClosed()` on a popped node keeps the parent links. */
  lemma CloseKeepsTree(m: Grid, w: int, h: int, open: seq<Pos>, s: Pos, e: Pos, hives: seq<Point>, cost: Cost, k: int)
    requires SearchInv(m, w, h, open, s, e, hives, cost) && 0 <= k < |open|
    ensures var p := open[k]; var m1 := Put(m, p, At(m, p).SetClosed());
      && TreeInv(m1, w, h, s, hives, cost) && ParentsClosed(m1, w, h)
      && At(m1, p).kind == Closed && At(m1, s).kind == Closed
  {
    var p := open[k];
    assert InGrid(p, w, h) && (p == s || At(m, p).parent.Some?);
    var n := At(m, p);
    var m1 := Put(m, p, n.SetClosed());
    assert CellWf(m, w, h, p);
    PutWf(m, w, h, p, n.SetClosed());
    assert TreeAt(m, w, h, s, hives, cost, p);
    forall q: Pos | InGrid(q, w, h) ensures TreeAt(m1, w, h, s, hives, cost, q) {
      assert TreeAt(m, w, h, s, hives, cost, q);
      assert CellWf(m, w, h, q);
      if At(m, q).parent.Some? {
        var pq := At(m, q).parent.value;
        assert At(m1, pq).gCost == At(m, pq).gCost;
      }
    }
    TreeParentsClosed(m1, w, h, s, hives, cost);
    if At(m, s).kind != Closed {
      assert open == [s];
    }
  }

  /** The relaxation by a closed current node keeps the parent links. */
  lemma RelaxKeepsTree(m: Grid, w: int, h: int, s: Pos, hives: seq<Point>, cost: Cost, p: Pos, e: Pos)
    requires TreeInv(m, w, h, s, hives, cost) && InGrid(p, w, h)
    requires At(m, p).kind == Closed && At(m, s).kind == Closed
    ensures TreeInv(Relax(m, w, h, p, e, cost).grid, w, h, s, hives, cost)
  {
    TreeParentsClosed(m, w, h, s, hives, cost);
    RelaxExact(m, w, h, p, e, cost);
    RelaxWf(m, w, h, p, e, cost);
    var r := Relax(m, w, h, p, e, cost);
    var b := Borders(p, 1, w, h);
    var g := At(m, p).gCost;
    assert At(r.grid, p) == At(m, p);
    assert At(r.grid, s) == At(m, s);
    forall q: Pos | InGrid(q, w, h) ensures TreeAt(r.grid, w, h, s, hives, cost, q) {
      assert TreeAt(m, w, h, s, hives, cost, q);
      assert CellWf(m, w, h, q);
      if InWindow(q, b) && Eligible(m, w, h, q, g) {
        WindowIsNeighbourhood(p, q, w, h);
      } else {
        assert At(r.grid, q) == At(m, q);
        if At(m, q).parent.Some? {
          var pq := At(m, q).parent.value;
          assert At(r.grid, pq) == Expected(m, w, h, p, e, cost, pq, InWindow(pq, b));
        }
      }
    }
  }

  /** Removing entry `k` keeps every other entry. */
  lemma RemoveKeeps(open: seq<Pos>, k: int, q: Pos)
    requires 0 <= k < |open| && q in open && q != open[k]
    ensures q in open[..k] + open[k+1..]
  {
    var j :| 0 <= j < |open| && open[j] == q;
    if j < k {
      assert open[..k][j] == q;
    } else {
      assert open[k+1..][j - k - 1] == q;
    }
  }

  /** After the pop of `p`, a neighbour of a closed node `q` is still covered. */
  lemma PopCovered(m: Grid, m1: Grid, r: Relaxation, w: int, h: int, open: seq<Pos>, s: Pos, e: Pos,
                   hives: seq<Point>, cost: Cost, p: Pos, q: Pos, t: Pos)
    requires SearchInv(m, w, h, open, s, e, hives, cost) && p in open
    requires InGrid(p, w, h) && m1 == Put(m, p, At(m, p).SetClosed())
    requires TreeInv(m1, w, h, s, hives, cost) && ParentsClosed(m1, w, h) && At(m1, p).kind == Closed
    requires r == Relax(m1, w, h, p, e, cost)
    requires InGrid(q, w, h) && At(m1, q).kind == Closed && InGrid(t, w, h) && Adjacent(q, t)
    ensures Wf(r.grid, w, h) && Covered(r.grid, w, h, q, t)
  {
    RelaxKeepsTree(m1, w, h, s, hives, cost, p, e);
    RelaxExact(m1, w, h, p, e, cost);
    var b := Borders(p, 1, w, h);
    var g := At(m1, p).gCost;
    assert At(r.grid, q) == At(m1, q);
    assert At(r.grid, p) == At(m1, p);
    assert At(r.grid, t) == Expected(m1, w, h, p, e, cost, t, InWindow(t, b));
    assert CellWf(m1, w, h, t);
    if At(m1, t).parent.Some? {
      var pt := At(m1, t).parent.value;
      assert At(m1, pt).kind == Closed;
      assert At(r.grid, pt) == At(m1, pt);
      assert At(m1, pt).gCost == At(m, pt).gCost;
    }
    if q == p {
      WindowIsNeighbourhood(p, t, w, h);
    } else if t != p {
      assert FrontierAt(m, w, h, open, q);
      assert Covered(m, w, h, q, t);
      assert At(m1, t) == At(m, t);
    }
  }

  /** After the pop of `p`, the frontier condition holds at `q`. */
  lemma PopFrontier(m: Grid, m1: Grid, r: Relaxation, w: int, h: int, open: seq<Pos>, s: Pos, e: Pos,
                    hives: seq<Point>, cost: Cost, k: int, q: Pos)
    requires SearchInv(m, w, h, open, s, e, hives, cost) && 0 <= k < |open|
    requires m1 == Put(m, open[k], At(m, open[k]).SetClosed())
    requires TreeInv(m1, w, h, s, hives, cost) && ParentsClosed(m1, w, h) && At(m1, open[k]).kind == Closed
    requires r == Relax(m1, w, h, open[k], e, cost) && InGrid(q, w, h)
    ensures Wf(r.grid, w, h) && FrontierAt(r.grid, w, h, open[..k] + open[k+1..] + r.pushed, q)
  {
    var p := open[k];
    RelaxKeepsTree(m1, w, h, s, hives, cost, p, e);
    RelaxExact(m1, w, h, p, e, cost);
    var b := Borders(p, 1, w, h);
    var g := At(m1, p).gCost;
    assert At(r.grid, q) == Expected(m1, w, h, p, e, cost, q, InWindow(q, b));
    assert FrontierAt(m, w, h, open, q);
    if At(r.grid, q).parent.Some? && At(r.grid, q).kind != Closed {
      if InWindow(q, b) && Eligible(m1, w, h, q, g) {
        RelaxPushed(m1, w, h, p, e, cost, q);
      } else {
        assert q != p;
        RemoveKeeps(open, k, q);
      }
    }
    if At(r.grid, q).kind == Closed {
      assert At(r.grid, q) == At(m1, q);
      forall t: Pos | InGrid(t, w, h) && Adjacent(q, t) ensures Covered(r.grid, w, h, q, t) {
        PopCovered(m, m1, r, w, h, open, s, e, hives, cost, p, q, t);
      }
    }
  }

  /** After the pop, every entry left in or pushed onto the open set is still a cell with a parent, or the start. */
  lemma PopOpenEntries(m: Grid, m1: Grid, r: Relaxation, w: int, h: int, open: seq<Pos>, s: Pos, e: Pos, cost: Cost, k: int)
    requires Shaped(m, w, h) && OpenEntries(m, w, h, open, s) && 0 <= k < |open| && InGrid(open[k], w, h)
    requires m1 == Put(m, open[k], At(m, open[k]).SetClosed()) && Shaped(m1, w, h)
    requires r == Relax(m1, w, h, open[k], e, cost)
    requires FrameAll(m1, r.grid, w, h, open[k], e, cost, Borders(open[k], 1, w, h))
    requires forall j :: 0 <= j < |r.pushed| ==> PushedOk(m1, r.grid, w, h, open[k], r.pushed[j], Borders(open[k], 1, w, h))
    ensures OpenEntries(r.grid, w, h, open[..k] + open[k+1..] + r.pushed, s)
  {
    var p := open[k];
    var rest := open[..k] + open[k+1..];
    var open' := rest + r.pushed;
    var b := Borders(p, 1, w, h);
    forall j | 0 <= j < |open'| ensures InGrid(open'[j], w, h) && (open'[j] == s || At(r.grid, open'[j]).parent.Some?) {
      var q := open'[j];
      if j < |rest| {
        assert q == open[j] || q == open[j + 1];
        assert InGrid(q, w, h) && (q == s || At(m, q).parent.Some?);
        assert At(m1, q).parent == At(m, q).parent;
        assert CellFrame(m1, r.grid, w, h, p, e, cost, q, InWindow(q, b));
      } else {
        assert q == r.pushed[j - |rest|];
      }
    }
  }

  /** A popped node that is not the goal is closed, expanded, and the invariant holds again. */
  lemma PopKeepsSearch(m: Grid, w: int, h: int, open: seq<Pos>, s: Pos, e: Pos, hives: seq<Point>, cost: Cost, k: int)
    requires SearchInv(m, w, h, open, s, e, hives, cost) && 0 <= k < |open| && open[k] != e
    ensures var p := open[k]; var m1 := Put(m, p, At(m, p).SetClosed()); var r := Relax(m1, w, h, p, e, cost);
      && SearchInv(r.grid, w, h, open[..k] + open[k+1..] + r.pushed, s, e, hives, cost)
      && At(r.grid, s).gCost == At(m, s).gCost
  {
    var p := open[k];
    var m1 := Put(m, p, At(m, p).SetClosed());
    CloseKeepsTree(m, w, h, open, s, e, hives, cost, k);
    RelaxKeepsTree(m1, w, h, s, hives, cost, p, e);
    var r := Relax(m1, w, h, p, e, cost);
    RelaxFrame(m1, w, h, p, e, cost);
    var rest := open[..k] + open[k+1..];
    var open' := rest + r.pushed;
    var b := Borders(p, 1, w, h);
    assert CellFrame(m1, r.grid, w, h, p, e, cost, e, InWindow(e, b));
    assert CellFrame(m1, r.grid, w, h, p, e, cost, s, InWindow(s, b));
    PopOpenEntries(m, m1, r, w, h, open, s, e, cost, k);
    forall q: Pos | InGrid(q, w, h) ensures FrontierAt(r.grid, w, h, open', q) {
      PopFrontier(m, m1, r, w, h, open, s, e, hives, cost, k, q);
    }
  }

  /** The two kinds of iteration: a node closed now for the first time, or a stale entry that changes nothing. */
  lemma PopDecreases(m: Grid, w: int, h: int, open: seq<Pos>, s: Pos, e: Pos, hives: seq<Point>, cost: Cost, k: int)
    requires SearchInv(m, w, h, open, s, e, hives, cost) && 0 <= k < |open|
    ensures var p := open[k]; var m1 := Put(m, p, At(m, p).SetClosed()); var r := Relax(m1, w, h, p, e, cost);
      || Open(r.grid, w, h) < Open(m, w, h)
      || (Open(r.grid, w, h) == Open(m, w, h) && |open[..k] + open[k+1..] + r.pushed| < |open|)
  {
    var p := open[k];
    var m1 := Put(m, p, At(m, p).SetClosed());
    CloseKeepsTree(m, w, h, open, s, e, hives, cost, k);
    var r := Relax(m1, w, h, p, e, cost);
    RelaxFrame(m1, w, h, p, e, cost);
    var b := Borders(p, 1, w, h);
    assert forall q: Pos {:trigger At(r.grid, q)} :: InGrid(q, w, h) ==> At(r.grid, q).kind == At(m1, q).kind by {
      forall q: Pos | InGrid(q, w, h) ensures At(r.grid, q).kind == At(m1, q).kind {
        assert CellFrame(m1, r.grid, w, h, p, e, cost, q, InWindow(q, b));
      }
    }
    OpenOfKinds(r.grid, m1, w, h);
    if At(m, p).kind == Closed {
      GridExt(m1, m, w, h);
      StaleChangesNothing(m, w, h, open, s, e, hives, cost, p);
    } else {
      assert p in Open(m, w, h) && p !in Open(m1, w, h);
      assert Open(m1, w, h) <= Open(m, w, h);
    }
  }

  /** Popping a node that is already closed (a stale entry) changes nothing: it has been expanded before. */
  lemma StaleChangesNothing(m: Grid, w: int, h: int, open: seq<Pos>, s: Pos, e: Pos, hives: seq<Point>, cost: Cost, p: Pos)
    requires SearchInv(m, w, h, open, s, e, hives, cost) && InGrid(p, w, h) && At(m, p).kind == Closed
    ensures Relax(m, w, h, p, e, cost) == Relaxation(m, [])
  {
    TreeParentsClosed(m, w, h, s, hives, cost);
    assert FrontierAt(m, w, h, open, p);
    forall t: Pos | InGrid(t, w, h) && InWindow(t, Borders(p, 1, w, h)) ensures !Eligible(m, w, h, t, At(m, p).gCost) {
      WindowIsNeighbourhood(p, t, w, h);
      assert Covered(m, w, h, p, t);
    }
    RelaxNothingEligible(m, w, h, p, e, cost);
  }

  /** The open cells depend only on the kinds. */
  lemma OpenOfKinds(a: Grid, b: Grid, w: int, h: int)
    requires forall q: Pos {:trigger At(a, q)} :: InGrid(q, w, h) ==> At(a, q).kind == At(b, q).kind
    ensures Open(a, w, h) == Open(b, w, h)
  {
  }

  // ---------------------------------------------------------------------
  // The path `getPathA` reads off the parent links

  /** A parent is strictly cheaper than its child. */
  lemma ParentCheaper(m: Grid, w: int, h: int, s: Pos, hives: seq<Point>, cost: Cost, p: Pos)
    requires TreeInv(m, w, h, s, hives, cost) && PositiveCost(cost) && InGrid(p, w, h) && At(m, p).parent.Some?
    ensures InGrid(At(m, p).parent.value, w, h) && At(m, At(m, p).parent.value).gCost < At(m, p).gCost
  {
    assert CellWf(m, w, h, p);
    assert TreeAt(m, w, h, s, hives, cost, p);
  }

  /** The cells `getPathA` visits from `p`: `p` and its ancestors, up to but excluding the node without a parent. */
  ghost function PathCells(m: Grid, w: int, h: int, s: Pos, hives: seq<Point>, cost: Cost, p: Pos): (r: seq<Pos>)
    requires TreeInv(m, w, h, s, hives, cost) && PositiveCost(cost) && InGrid(p, w, h)
    ensures r != [] <==> At(m, p).parent.Some?
    ensures r != [] ==> r[0] == p
    decreases At(m, p).gCost
  {
    if At(m, p).parent.None? then []
    else
      ParentCheaper(m, w, h, s, hives, cost, p);
      [p] + PathCells(m, w, h, s, hives, cost, At(m, p).parent.value)
  }

  /**
   * The chain `getPathA` follows: every listed cell has a parent, the next
   * cell listed is that parent, and the start, which has no parent, is not
   * listed.
   */
  lemma {:induction false} PathCellsChain(m: Grid, w: int, h: int, s: Pos, hives: seq<Point>, cost: Cost, p: Pos)
    requires TreeInv(m, w, h, s, hives, cost) && PositiveCost(cost) && InGrid(p, w, h)
    ensures var r := PathCells(m, w, h, s, hives, cost, p);
      && s !in r
      && (forall i :: 0 <= i < |r| ==> At(m, r[i]).parent.Some?)
      && (forall i :: 0 <= i < |r| - 1 ==> At(m, r[i]).parent == Some(r[i + 1]))
    decreases At(m, p).gCost
  {
    if At(m, p).parent.Some? {
      ParentCheaper(m, w, h, s, hives, cost, p);
      var q := At(m, p).parent.value;
      PathCellsChain(m, w, h, s, hives, cost, q);
      var c := PathCells(m, w, h, s, hives, cost, q);
      assert PathCells(m, w, h, s, hives, cost, p) == [p] + c;
      if c != [] {
        assert c[0] == q;
      }
    }
  }

  /** The game coordinates of a sequence of cells. */
  function GamePoints(c: seq<Pos>): (r: seq<Point>)
    ensures |r| == |c| && forall i :: 0 <= i < |c| ==> r[i] == ToGamePoint(c[i])
  {
    seq(|c|, i requires 0 <= i < |c| => ToGamePoint(c[i]))
  }

  function Reverse<T>(xs: seq<T>): (r: seq<T>)
    ensures |r| == |xs| && forall i :: 0 <= i < |xs| ==> r[i] == xs[|xs| - 1 - i]
  {
    if xs == [] then [] else Reverse(xs[1..]) + [xs[0]]
  }

  /**
   * A walk from `s` to `e` on the map: cells of the grid, each a neighbour
   * of the one before (moving to any of the eight surrounding cells), none
   * but the first inside the area of a hive.
   */
  ghost predicate IsWalk(ws: seq<Pos>, s: Pos, e: Pos, hives: seq<Point>, w: int, h: int)
  {
    && |ws| > 0 && ws[0] == s && ws[|ws| - 1] == e
    && (forall i :: 0 <= i < |ws| ==> InGrid(ws[i], w, h))
    && (forall i :: 0 < i < |ws| ==> !HiveCell(hives, ws[i], w, h))
    && (forall i :: 0 < i < |ws| ==> Adjacent(ws[i - 1], ws[i]))
  }

  /** The sum of the step costs along a walk. */
  function WalkCost(ws: seq<Pos>, cost: Cost): nat
  {
    if |ws| < 2 then 0 else WalkCost(ws[..|ws| - 1], cost) + cost(ws[|ws| - 2], ws[|ws| - 1])
  }

  /**
   * From a node reached by the search, the start followed by the reversed
   * path is a walk to it, and the node's `gCost` is the start's plus the
   * cost of that walk.
   */
  lemma {:induction false} PathIsWalk(m: Grid, w: int, h: int, s: Pos, hives: seq<Point>, cost: Cost, p: Pos)
    requires TreeInv(m, w, h, s, hives, cost) && PositiveCost(cost) && InGrid(p, w, h)
    requires p == s || At(m, p).parent.Some?
    ensures var ws := [s] + Reverse(PathCells(m, w, h, s, hives, cost, p));
      IsWalk(ws, s, p, hives, w, h) && At(m, p).gCost == At(m, s).gCost + WalkCost(ws, cost)
    decreases At(m, p).gCost
  {
    if At(m, p).parent.Some? {
      ParentCheaper(m, w, h, s, hives, cost, p);
      var q := At(m, p).parent.value;
      assert TreeAt(m, w, h, s, hives, cost, p);
      assert TreeAt(m, w, h, s, hives, cost, q);
      PathIsWalk(m, w, h, s, hives, cost, q);
      var c := PathCells(m, w, h, s, hives, cost, q);
      var vs := [s] + Reverse(c);
      var ws := [s] + Reverse(PathCells(m, w, h, s, hives, cost, p));
      assert PathCells(m, w, h, s, hives, cost, p) == [p] + c;
      ReverseCons(p, c);
      assert ws == vs + [p];
      WalkSnoc(vs, s, q, p, hives, w, h, cost);
    } else {
      assert PathCells(m, w, h, s, hives, cost, p) == [];
      assert [s] + Reverse<Pos>([]) == [s];
    }
  }

  /** A walk to `q` extended by a neighbouring cell `p` outside every hive area is a walk to `p`, dearer by the step. */
  lemma WalkSnoc(vs: seq<Pos>, s: Pos, q: Pos, p: Pos, hives: seq<Point>, w: int, h: int, cost: Cost)
    requires IsWalk(vs, s, q, hives, w, h) && InGrid(p, w, h) && !HiveCell(hives, p, w, h) && Adjacent(q, p)
    ensures IsWalk(vs + [p], s, p, hives, w, h)
    ensures WalkCost(vs + [p], cost) == WalkCost(vs, cost) + cost(q, p)
  {
    var ws := vs + [p];
    assert ws[..|ws| - 1] == vs;
  }

  /** `Reverse` of a sequence with one more element in front. */
  lemma ReverseCons<T>(x: T, xs: seq<T>)
    ensures Reverse([x] + xs) == Reverse(xs) + [x]
  {
    assert ([x] + xs)[1..] == xs;
  }

  // ---------------------------------------------------------------------
  // What an exhausted open set says

  /** With the open set empty, every cell of a walk from the start is closed. */
  lemma {:induction false} ClosedAlongWalk(m: Grid, w: int, h: int, s: Pos, e: Pos, hives: seq<Point>, cost: Cost,
                                           ws: seq<Pos>, t: Pos, i: int)
    requires SearchInv(m, w, h, [], s, e, hives, cost) && IsWalk(ws, s, t, hives, w, h) && 0 <= i < |ws|
    ensures At(m, ws[i]).kind == Closed
    decreases i
  {
    if i == 0 {
      assert ws[0] == s;
    } else {
      ClosedAlongWalk(m, w, h, s, e, hives, cost, ws, t, i - 1);
      var c, d := ws[i - 1], ws[i];
      assert InGrid(c, w, h) && InGrid(d, w, h) && Adjacent(c, d) && !HiveCell(hives, d, w, h);
      assert FrontierAt(m, w, h, [], c);
      assert Covered(m, w, h, c, d);
      assert FrontierAt(m, w, h, [], d);
      assert TreeAt(m, w, h, s, hives, cost, d);
    }
  }

  /** A search whose open set runs empty before the goal is closed leaves no walk from the start to the goal. */
  lemma NoWalkWhenExhausted(m: Grid, w: int, h: int, s: Pos, e: Pos, hives: seq<Point>, cost: Cost, ws: seq<Pos>)
    requires SearchInv(m, w, h, [], s, e, hives, cost)
    ensures !IsWalk(ws, s, e, hives, w, h)
  {
    if IsWalk(ws, s, e, hives, w, h) {
      ClosedAlongWalk(m, w, h, s, e, hives, cost, ws, e, |ws| - 1);
    }
  }

  // ---------------------------------------------------------------------
  // One iteration of the loop of `run`, as a whole

  /**
   * Once the start is closed, the HIVE nodes are exactly the marked cells
   * other than the start: relaxing never marks a cell, and `setClosed` on
   * the start is the only write that can clear a mark.
   */
  lemma HiveKindsOnceStarted(m: Grid, w: int, h: int, s: Pos, hives: seq<Point>, cost: Cost)
    requires TreeInv(m, w, h, s, hives, cost) && At(m, s).kind == Closed
    ensures forall q: Pos :: InGrid(q, w, h) ==> (At(m, q).kind == Hive <==> HiveCell(hives, q, w, h) && q != s)
  {
    forall q: Pos | InGrid(q, w, h)
      ensures At(m, q).kind == Hive <==> HiveCell(hives, q, w, h) && q != s
    {
      assert TreeAt(m, w, h, s, hives, cost, q);
    }
  }

  /**
   * Popping entry `k` and closing it: if it is the goal, the start followed
   * by the reversed path is a walk to it whose cost is the goal's `gCost`;
   * otherwise, after `checkNeighbours`, the invariant holds again, the
   * start's `gCost` is still 0 and the loop measure has decreased.
   */
  lemma SearchStep(m: Grid, w: int, h: int, open: seq<Pos>, s: Pos, e: Pos, hives: seq<Point>, cost: Cost, k: int)
    requires SearchInv(m, w, h, open, s, e, hives, cost) && PositiveCost(cost) && 0 <= k < |open|
    requires At(m, s).gCost == 0
    ensures InGrid(open[k], w, h)
    ensures var p := open[k]; var m1 := Put(m, p, At(m, p).SetClosed());
      && TreeInv(m1, w, h, s, hives, cost) && At(m1, s).kind == Closed
      && At(m1, p).parent == At(m, p).parent
      && (p == e ==>
            var ws := [s] + Reverse(PathCells(m1, w, h, s, hives, cost, e));
            IsWalk(ws, s, e, hives, w, h) && At(m1, e).gCost == WalkCost(ws, cost))
      && (p != e ==>
            var r := Relax(m1, w, h, p, e, cost);
            var open' := open[..k] + open[k+1..] + r.pushed;
            && SearchInv(r.grid, w, h, open', s, e, hives, cost)
            && At(r.grid, s).gCost == 0
            && (Open(r.grid, w, h) < Open(m, w, h) || (Open(r.grid, w, h) == Open(m, w, h) && |open'| < |open|)))
  {
    var p := open[k];
    CloseKeepsTree(m, w, h, open, s, e, hives, cost, k);
    var m1 := Put(m, p, At(m, p).SetClosed());
    assert At(m1, s).gCost == At(m, s).gCost;
    if p == e {
      PathIsWalk(m1, w, h, s, hives, cost, e);
    } else {
      PopKeepsSearch(m, w, h, open, s, e, hives, cost, k);
      PopDecreases(m, w, h, open, s, e, hives, cost, k);
    }
  }
}
