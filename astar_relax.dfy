/**
 * `checkNeighbours` of python/robotSimulator/algorithms/AStar.py as a fold
 * over the radius-1 window of the current node, visited column by column
 * (`i` outer, `j` inner) as the source's two loops do.
 */
module AStarRelax {
  import opened Common
  import opened AStarGrid

  /** The distance between two cells (the source's Euclidean `Node.cost`). */
  type Cost = (Pos, Pos) -> nat

  /** The map and the cells pushed onto the open set so far. */
  datatype Relaxation = Relaxation(grid: Grid, pushed: seq<Pos>)

  /** The test `checkNeighbours` applies to the node at `q`, for a current node of cost `g`. */
  ghost predicate Eligible(m: Grid, w: int, h: int, q: Pos, g: nat)
  {
    var n := At(m, q);
    n.kind != Hive && !n.IsClosed() && (!n.HasParent() || At(m, n.parent.value).gCost > g)
  }

  /** The node at `q` after it takes the node at `c`, of cost `g`, as its parent. */
  function Relaxed(n: Node, c: Pos, q: Pos, e: Pos, g: nat, cost: Cost): Node
  {
    n.(parent := Some(c), gCost := cost(c, q) + g, hCost := cost(q, e))
  }

  /** One pass of the inner loop body, at cell `q`; `c` is the current node and `e` the goal. */
  ghost function RelaxCell(st: Relaxation, w: int, h: int, c: Pos, e: Pos, cost: Cost, q: Pos): (r: Relaxation)
    requires Shaped(st.grid, w, h) && InGrid(c, w, h) && InGrid(q, w, h)
    ensures Shaped(r.grid, w, h)
  {
    var g := At(st.grid, c).gCost;
    if Eligible(st.grid, w, h, q, g) then
      var n := Relaxed(At(st.grid, q), c, q, e, g, cost);
      Relaxation(Put(st.grid, q, n), st.pushed + [q])
    else st
  }

  /** The inner loop over `j` in `lo..hi-1` for column `i`. */
  ghost function ColFold(st: Relaxation, w: int, h: int, c: Pos, e: Pos, cost: Cost, i: int, lo: int, hi: int): (r: Relaxation)
    requires Shaped(st.grid, w, h) && InGrid(c, w, h) && 0 <= i < w && 0 <= lo && hi <= h
    ensures Shaped(r.grid, w, h)
    decreases hi - lo
  {
    if hi <= lo then st
    else RelaxCell(ColFold(st, w, h, c, e, cost, i, lo, hi - 1), w, h, c, e, cost, Pos(i, hi - 1))
  }

  /** Both loops: columns `ilo..ihi-1`, each over rows `jlo..jhi-1`. */
  ghost function WinFold(st: Relaxation, w: int, h: int, c: Pos, e: Pos, cost: Cost,
                         ilo: int, ihi: int, jlo: int, jhi: int): (r: Relaxation)
    requires Shaped(st.grid, w, h) && InGrid(c, w, h) && 0 <= ilo && ihi <= w && 0 <= jlo && jhi <= h
    ensures Shaped(r.grid, w, h)
    decreases ihi - ilo
  {
    if ihi <= ilo then st
    else ColFold(WinFold(st, w, h, c, e, cost, ilo, ihi - 1, jlo, jhi), w, h, c, e, cost, ihi - 1, jlo, jhi)
  }

  /** `checkNeighbours(current)` for the current node at `c` and the goal `e`. */
  ghost function Relax(m: Grid, w: int, h: int, c: Pos, e: Pos, cost: Cost): (r: Relaxation)
    requires Shaped(m, w, h) && InGrid(c, w, h)
    ensures Shaped(r.grid, w, h)
  {
    var b := Borders(c, 1, w, h);
    BordersInGrid(c, 1, w, h);
    WinFold(Relaxation(m, []), w, h, c, e, cost, b.startX, b.endX + 1, b.startY, b.endY + 1)
  }

  // ---------------------------------------------------------------------
  // What any relaxation preserves

  /**
   * From `a` to `b` the node at `q` keeps its coordinates and kind; it is
   * unchanged outside the region and when it is HIVE or closed; and when it
   * changes, only its parent (now `c`) and its costs change, with `hCost`
   * the cost to the goal.
   */
  ghost predicate CellFrame(a: Grid, b: Grid, w: int, h: int, c: Pos, e: Pos, cost: Cost, q: Pos, inRegion: bool)
  {
    var n, n' := At(a, q), At(b, q);
    && n'.kind == n.kind
    && (!inRegion ==> n' == n)
    && (n.kind == Hive || n.kind == Closed ==> n' == n)
    && (n' == n || n' == n.(parent := Some(c), gCost := n'.gCost, hCost := cost(q, e)))
  }

  /** `CellFrame` for every cell of the grid, with the window `win` as region. */
  ghost predicate FrameAll(a: Grid, b: Grid, w: int, h: int, c: Pos, e: Pos, cost: Cost, win: Window)
  {
    forall q: Pos {:trigger At(b, q)} :: InGrid(q, w, h) ==> CellFrame(a, b, w, h, c, e, cost, q, InWindow(q, win))
  }

  /** A pushed cell lies in the region, was neither HIVE nor closed, and ends with parent `c`. */
  ghost predicate PushedOk(a: Grid, b: Grid, w: int, h: int, c: Pos, q: Pos, win: Window)
  {
    && InWindow(q, win) && InGrid(q, w, h)
    && At(a, q).kind != Hive && At(a, q).kind != Closed
    && At(b, q).parent == Some(c)
  }

  /** The open set only grows, and by cells that satisfy `PushedOk`. */
  ghost predicate PushedFrame(st: Relaxation, r: Relaxation, w: int, h: int, c: Pos, win: Window)
  {
    && |st.pushed| <= |r.pushed| && r.pushed[..|st.pushed|] == st.pushed
    && forall k :: |st.pushed| <= k < |r.pushed| ==> PushedOk(st.grid, r.grid, w, h, c, r.pushed[k], win)
  }

  lemma CellFrameTrans(a: Grid, b: Grid, d: Grid, w: int, h: int, c: Pos, e: Pos, cost: Cost, q: Pos, in1: bool, in2: bool)
    requires CellFrame(a, b, w, h, c, e, cost, q, in1) && CellFrame(b, d, w, h, c, e, cost, q, in2)
    ensures CellFrame(a, d, w, h, c, e, cost, q, in1 || in2)
  {
  }

  lemma RelaxCellFrame(st: Relaxation, w: int, h: int, c: Pos, e: Pos, cost: Cost, q0: Pos)
    requires Shaped(st.grid, w, h) && InGrid(c, w, h) && InGrid(q0, w, h)
    ensures var r := RelaxCell(st, w, h, c, e, cost, q0);
      && FrameAll(st.grid, r.grid, w, h, c, e, cost, Window(q0.x, q0.y, q0.x, q0.y))
      && (r.pushed == st.pushed || (r.pushed == st.pushed + [q0] && PushedOk(st.grid, r.grid, w, h, c, q0, Window(q0.x, q0.y, q0.x, q0.y))))
  {
    var r := RelaxCell(st, w, h, c, e, cost, q0);
    forall q: Pos | InGrid(q, w, h) ensures CellFrame(st.grid, r.grid, w, h, c, e, cost, q, InWindow(q, Window(q0.x, q0.y, q0.x, q0.y))) {
    }
  }

  lemma {:induction false} ColFoldFrame(st: Relaxation, w: int, h: int, c: Pos, e: Pos, cost: Cost, i: int, lo: int, hi: int)
    requires Shaped(st.grid, w, h) && InGrid(c, w, h) && 0 <= i < w && 0 <= lo && hi <= h
    ensures var r := ColFold(st, w, h, c, e, cost, i, lo, hi);
      && FrameAll(st.grid, r.grid, w, h, c, e, cost, Window(i, lo, i, hi - 1))
      && PushedFrame(st, r, w, h, c, Window(i, lo, i, hi - 1))
    decreases hi - lo
  {
    var r := ColFold(st, w, h, c, e, cost, i, lo, hi);
    var win := Window(i, lo, i, hi - 1);
    if hi <= lo {
      forall q: Pos | InGrid(q, w, h) ensures CellFrame(st.grid, r.grid, w, h, c, e, cost, q, InWindow(q, win)) {
      }
    } else {
      var r' := ColFold(st, w, h, c, e, cost, i, lo, hi - 1);
      var q0 := Pos(i, hi - 1);
      var win' := Window(i, lo, i, hi - 2);
      ColFoldFrame(st, w, h, c, e, cost, i, lo, hi - 1);
      RelaxCellFrame(r', w, h, c, e, cost, q0);
      assert r == RelaxCell(r', w, h, c, e, cost, q0);
      forall q: Pos | InGrid(q, w, h) ensures CellFrame(st.grid, r.grid, w, h, c, e, cost, q, InWindow(q, win)) {
        assert CellFrame(st.grid, r'.grid, w, h, c, e, cost, q, InWindow(q, win'));
        assert CellFrame(r'.grid, r.grid, w, h, c, e, cost, q, InWindow(q, Window(i, hi - 1, i, hi - 1)));
        CellFrameTrans(st.grid, r'.grid, r.grid, w, h, c, e, cost, q, InWindow(q, win'), InWindow(q, Window(i, hi - 1, i, hi - 1)));
      }
      forall k | |st.pushed| <= k < |r.pushed| ensures PushedOk(st.grid, r.grid, w, h, c, r.pushed[k], win) {
        var q := r.pushed[k];
        if k < |r'.pushed| {
          assert q == r'.pushed[k];
          assert PushedOk(st.grid, r'.grid, w, h, c, q, win');
          assert CellFrame(r'.grid, r.grid, w, h, c, e, cost, q, InWindow(q, Window(i, hi - 1, i, hi - 1)));
        } else {
          assert q == q0;
          assert CellFrame(st.grid, r'.grid, w, h, c, e, cost, q, InWindow(q, win'));
        }
      }
    }
  }

  lemma {:induction false} WinFoldFrame(st: Relaxation, w: int, h: int, c: Pos, e: Pos, cost: Cost,
                                        ilo: int, ihi: int, jlo: int, jhi: int)
    requires Shaped(st.grid, w, h) && InGrid(c, w, h) && 0 <= ilo && ihi <= w && 0 <= jlo && jhi <= h
    ensures var r := WinFold(st, w, h, c, e, cost, ilo, ihi, jlo, jhi);
      && FrameAll(st.grid, r.grid, w, h, c, e, cost, Window(ilo, jlo, ihi - 1, jhi - 1))
      && PushedFrame(st, r, w, h, c, Window(ilo, jlo, ihi - 1, jhi - 1))
    decreases ihi - ilo
  {
    var r := WinFold(st, w, h, c, e, cost, ilo, ihi, jlo, jhi);
    var win := Window(ilo, jlo, ihi - 1, jhi - 1);
    if ihi <= ilo {
      forall q: Pos | InGrid(q, w, h) ensures CellFrame(st.grid, r.grid, w, h, c, e, cost, q, InWindow(q, win)) {
      }
    } else {
      var r' := WinFold(st, w, h, c, e, cost, ilo, ihi - 1, jlo, jhi);
      var win' := Window(ilo, jlo, ihi - 2, jhi - 1);
      var col := Window(ihi - 1, jlo, ihi - 1, jhi - 1);
      WinFoldFrame(st, w, h, c, e, cost, ilo, ihi - 1, jlo, jhi);
      ColFoldFrame(r', w, h, c, e, cost, ihi - 1, jlo, jhi);
      assert r == ColFold(r', w, h, c, e, cost, ihi - 1, jlo, jhi);
      forall q: Pos | InGrid(q, w, h) ensures CellFrame(st.grid, r.grid, w, h, c, e, cost, q, InWindow(q, win)) {
        assert CellFrame(st.grid, r'.grid, w, h, c, e, cost, q, InWindow(q, win'));
        assert CellFrame(r'.grid, r.grid, w, h, c, e, cost, q, InWindow(q, col));
        CellFrameTrans(st.grid, r'.grid, r.grid, w, h, c, e, cost, q, InWindow(q, win'), InWindow(q, col));
      }
      forall k | |st.pushed| <= k < |r.pushed| ensures PushedOk(st.grid, r.grid, w, h, c, r.pushed[k], win) {
        var q := r.pushed[k];
        if k < |r'.pushed| {
          assert q == r'.pushed[k];
          assert PushedOk(st.grid, r'.grid, w, h, c, q, win');
          assert CellFrame(r'.grid, r.grid, w, h, c, e, cost, q, InWindow(q, col));
        } else {
          assert PushedOk(r'.grid, r.grid, w, h, c, q, col);
          assert CellFrame(st.grid, r'.grid, w, h, c, e, cost, q, InWindow(q, win'));
        }
      }
    }
  }

  /**
   * `checkNeighbours` changes only nodes of the current node's window; it
   * never changes a HIVE or closed node and never pushes one; every node it
   * changes or pushes ends with the current node as parent and its cost to
   * the goal as `hCost`; coordinates and kinds are untouched.
   */
  lemma RelaxFrame(m: Grid, w: int, h: int, c: Pos, e: Pos, cost: Cost)
    requires Shaped(m, w, h) && InGrid(c, w, h)
    ensures var r := Relax(m, w, h, c, e, cost); var b := Borders(c, 1, w, h);
      && FrameAll(m, r.grid, w, h, c, e, cost, b)
      && (forall k :: 0 <= k < |r.pushed| ==> PushedOk(m, r.grid, w, h, c, r.pushed[k], b))
  {
    var b := Borders(c, 1, w, h);
    BordersInGrid(c, 1, w, h);
    WinFoldFrame(Relaxation(m, []), w, h, c, e, cost, b.startX, b.endX + 1, b.startY, b.endY + 1);
  }

  /** `checkNeighbours` keeps the map well formed. */
  lemma RelaxWf(m: Grid, w: int, h: int, c: Pos, e: Pos, cost: Cost)
    requires Wf(m, w, h) && InGrid(c, w, h)
    ensures Wf(Relax(m, w, h, c, e, cost).grid, w, h)
  {
    RelaxFrame(m, w, h, c, e, cost);
    var r := Relax(m, w, h, c, e, cost);
    forall q: Pos | InGrid(q, w, h) ensures CellWf(r.grid, w, h, q) {
      assert CellWf(m, w, h, q);
      assert CellFrame(m, r.grid, w, h, c, e, cost, q, InWindow(q, Borders(c, 1, w, h)));
    }
  }

  // ---------------------------------------------------------------------
  // The relaxation during a search, where the current node and all parents are closed

  /** Every parent is a closed node of the grid. */
  ghost predicate ParentsClosed(m: Grid, w: int, h: int)
  {
    forall q: Pos {:trigger At(m, q).parent} :: InGrid(q, w, h) && At(m, q).parent.Some? ==>
      InGrid(At(m, q).parent.value, w, h) && At(m, At(m, q).parent.value).kind == Closed
  }

  /** The node at `q` after the relaxation, when eligibility is judged on the map before it. */
  ghost function Expected(m: Grid, w: int, h: int, c: Pos, e: Pos, cost: Cost, q: Pos, inRegion: bool): Node
  {
    var g := At(m, c).gCost;
    if inRegion && Eligible(m, w, h, q, g) then Relaxed(At(m, q), c, q, e, g, cost) else At(m, q)
  }

  /** Map `b` holds, in every cell, the node `Expected` from `a` for the region `win`. */
  ghost predicate Agrees(b: Grid, a: Grid, w: int, h: int, c: Pos, e: Pos, cost: Cost, win: Window)
  {
    forall q: Pos {:trigger At(b, q)} :: InGrid(q, w, h) ==> At(b, q) == Expected(a, w, h, c, e, cost, q, InWindow(q, win))
  }

  /** The eligible cells of column `i`, rows `lo..hi-1`, in visiting order. */
  ghost function EligibleCol(m: Grid, w: int, h: int, c: Pos, i: int, lo: int, hi: int): seq<Pos>
    decreases hi - lo
  {
    if hi <= lo then []
    else EligibleCol(m, w, h, c, i, lo, hi - 1) + (if Eligible(m, w, h, Pos(i, hi - 1), At(m, c).gCost) then [Pos(i, hi - 1)] else [])
  }

  /** The eligible cells of the region, in visiting order. */
  ghost function EligibleWin(m: Grid, w: int, h: int, c: Pos, ilo: int, ihi: int, jlo: int, jhi: int): seq<Pos>
    decreases ihi - ilo
  {
    if ihi <= ilo then []
    else EligibleWin(m, w, h, c, ilo, ihi - 1, jlo, jhi) + EligibleCol(m, w, h, c, ihi - 1, jlo, jhi)
  }

  lemma {:induction false} EligibleColMembers(m: Grid, w: int, h: int, c: Pos, i: int, lo: int, hi: int, q: Pos)
    ensures q in EligibleCol(m, w, h, c, i, lo, hi) <==> q.x == i && lo <= q.y < hi && Eligible(m, w, h, q, At(m, c).gCost)
    decreases hi - lo
  {
    if hi > lo {
      EligibleColMembers(m, w, h, c, i, lo, hi - 1, q);
    }
  }

  lemma {:induction false} EligibleWinMembers(m: Grid, w: int, h: int, c: Pos, ilo: int, ihi: int, jlo: int, jhi: int, q: Pos)
    ensures q in EligibleWin(m, w, h, c, ilo, ihi, jlo, jhi) <==>
      ilo <= q.x < ihi && jlo <= q.y < jhi && Eligible(m, w, h, q, At(m, c).gCost)
    decreases ihi - ilo
  {
    if ihi > ilo {
      EligibleWinMembers(m, w, h, c, ilo, ihi - 1, jlo, jhi, q);
      EligibleColMembers(m, w, h, c, ihi - 1, jlo, jhi, q);
    }
  }

  lemma {:induction false} EligibleColEmpty(m: Grid, w: int, h: int, c: Pos, i: int, lo: int, hi: int)
    requires forall j {:trigger Pos(i, j)} :: lo <= j < hi ==> !Eligible(m, w, h, Pos(i, j), At(m, c).gCost)
    ensures EligibleCol(m, w, h, c, i, lo, hi) == []
    decreases hi - lo
  {
    if hi > lo {
      EligibleColEmpty(m, w, h, c, i, lo, hi - 1);
      assert !Eligible(m, w, h, Pos(i, hi - 1), At(m, c).gCost);
    }
  }

  lemma {:induction false} EligibleWinEmpty(m: Grid, w: int, h: int, c: Pos, ilo: int, ihi: int, jlo: int, jhi: int)
    requires forall q: Pos {:trigger Eligible(m, w, h, q, At(m, c).gCost)} :: ilo <= q.x < ihi && jlo <= q.y < jhi ==> !Eligible(m, w, h, q, At(m, c).gCost)
    ensures EligibleWin(m, w, h, c, ilo, ihi, jlo, jhi) == []
    decreases ihi - ilo
  {
    if ihi > ilo {
      EligibleWinEmpty(m, w, h, c, ilo, ihi - 1, jlo, jhi);
      EligibleColEmpty(m, w, h, c, ihi - 1, jlo, jhi);
    }
  }

  /** Eligibility at `q` depends only on the node at `q`, its parent and the current node. */
  lemma SameEligibility(a: Grid, b: Grid, w: int, h: int, c: Pos, q: Pos)
    requires At(b, q) == At(a, q) && At(b, c) == At(a, c)
    requires At(a, q).parent.Some? ==> At(b, At(a, q).parent.value) == At(a, At(a, q).parent.value)
    ensures Eligible(b, w, h, q, At(b, c).gCost) == Eligible(a, w, h, q, At(a, c).gCost)
  {
  }

  /** Hence the node expected at `q` of the window is the same for both maps. */
  lemma SameExpected(a: Grid, b: Grid, w: int, h: int, c: Pos, e: Pos, cost: Cost, q: Pos)
    requires At(b, q) == At(a, q) && At(b, c) == At(a, c)
    requires At(a, q).parent.Some? ==> At(b, At(a, q).parent.value) == At(a, At(a, q).parent.value)
    ensures Expected(b, w, h, c, e, cost, q, true) == Expected(a, w, h, c, e, cost, q, true)
  {
    SameEligibility(a, b, w, h, c, q);
  }

  /** The closed nodes of a map are unchanged in another. */
  ghost predicate ClosedKept(a: Grid, b: Grid, w: int, h: int)
  {
    forall p: Pos {:trigger At(b, p)} :: InGrid(p, w, h) && At(a, p).kind == Closed ==> At(b, p) == At(a, p)
  }

  /** One inner-loop step extends the agreement by the cell `(i, hi-1)`. */
  lemma ColStepExact(a: Grid, st: Relaxation, w: int, h: int, c: Pos, e: Pos, cost: Cost, i: int, lo: int, hi: int)
    requires Shaped(st.grid, w, h) && InGrid(c, w, h) && 0 <= i < w && 0 <= lo < hi <= h
    requires At(a, c).kind == Closed && ParentsClosed(a, w, h)
    requires Agrees(st.grid, a, w, h, c, e, cost, Window(i, lo, i, hi - 2))
    ensures var r := RelaxCell(st, w, h, c, e, cost, Pos(i, hi - 1));
      && Agrees(r.grid, a, w, h, c, e, cost, Window(i, lo, i, hi - 1))
      && r.pushed == st.pushed + (if Eligible(a, w, h, Pos(i, hi - 1), At(a, c).gCost) then [Pos(i, hi - 1)] else [])
  {
    var q0 := Pos(i, hi - 1);
    var b := st.grid;
    var win', win := Window(i, lo, i, hi - 2), Window(i, lo, i, hi - 1);
    assert At(b, c) == Expected(a, w, h, c, e, cost, c, InWindow(c, win'));
    assert At(b, q0) == Expected(a, w, h, c, e, cost, q0, InWindow(q0, win'));
    if At(a, q0).parent.Some? {
      var p := At(a, q0).parent.value;
      assert At(b, p) == Expected(a, w, h, c, e, cost, p, InWindow(p, win'));
    }
    SameExpected(a, b, w, h, c, e, cost, q0);
    SameEligibility(a, b, w, h, c, q0);
    var r := RelaxCell(st, w, h, c, e, cost, q0);
    forall q: Pos | InGrid(q, w, h) ensures At(r.grid, q) == Expected(a, w, h, c, e, cost, q, InWindow(q, win)) {
      if q != q0 {
        assert At(r.grid, q) == At(b, q);
        assert At(b, q) == Expected(a, w, h, c, e, cost, q, InWindow(q, win'));
      }
    }
  }

  lemma {:induction false} ColFoldExact(st: Relaxation, w: int, h: int, c: Pos, e: Pos, cost: Cost, i: int, lo: int, hi: int)
    requires Shaped(st.grid, w, h) && InGrid(c, w, h) && 0 <= i < w && 0 <= lo && hi <= h
    requires At(st.grid, c).kind == Closed && ParentsClosed(st.grid, w, h)
    ensures var r := ColFold(st, w, h, c, e, cost, i, lo, hi);
      && Agrees(r.grid, st.grid, w, h, c, e, cost, Window(i, lo, i, hi - 1))
      && r.pushed == st.pushed + EligibleCol(st.grid, w, h, c, i, lo, hi)
    decreases hi - lo
  {
    var a := st.grid;
    if hi <= lo {
      forall q: Pos | InGrid(q, w, h) ensures At(a, q) == Expected(a, w, h, c, e, cost, q, InWindow(q, Window(i, lo, i, hi - 1))) {
      }
    } else {
      var r' := ColFold(st, w, h, c, e, cost, i, lo, hi - 1);
      ColFoldExact(st, w, h, c, e, cost, i, lo, hi - 1);
      ColStepExact(a, r', w, h, c, e, cost, i, lo, hi);
      assert ColFold(st, w, h, c, e, cost, i, lo, hi) == RelaxCell(r', w, h, c, e, cost, Pos(i, hi - 1));
      var last := if Eligible(a, w, h, Pos(i, hi - 1), At(a, c).gCost) then [Pos(i, hi - 1)] else [];
      assert st.pushed + EligibleCol(a, w, h, c, i, lo, hi - 1) + last == st.pushed + (EligibleCol(a, w, h, c, i, lo, hi - 1) + last);
    }
  }

  /** Maps that agree with `a` on the region `win`, where only non-closed nodes change, keep `a`'s closed nodes and parents. */
  lemma AgreesKeepsClosed(a: Grid, b: Grid, w: int, h: int, c: Pos, e: Pos, cost: Cost, win: Window)
    requires InGrid(c, w, h) && At(a, c).kind == Closed && ParentsClosed(a, w, h)
    requires Agrees(b, a, w, h, c, e, cost, win)
    ensures At(b, c) == At(a, c) && ClosedKept(a, b, w, h) && ParentsClosed(b, w, h)
  {
    assert At(b, c) == Expected(a, w, h, c, e, cost, c, InWindow(c, win));
    forall p: Pos | InGrid(p, w, h) && At(a, p).kind == Closed ensures At(b, p) == At(a, p) {
      assert At(b, p) == Expected(a, w, h, c, e, cost, p, InWindow(p, win));
    }
    forall q: Pos | InGrid(q, w, h) && At(b, q).parent.Some?
      ensures InGrid(At(b, q).parent.value, w, h) && At(b, At(b, q).parent.value).kind == Closed
    {
      assert At(b, q) == Expected(a, w, h, c, e, cost, q, InWindow(q, win));
      var p := At(b, q).parent.value;
      assert At(a, p).kind == Closed;
      assert At(b, p) == Expected(a, w, h, c, e, cost, p, InWindow(p, win));
    }
  }

  /** One outer-loop step extends the agreement by column `ihi-1`. */
  lemma WinStepExact(a: Grid, st: Relaxation, w: int, h: int, c: Pos, e: Pos, cost: Cost, ilo: int, ihi: int, jlo: int, jhi: int)
    requires Shaped(st.grid, w, h) && InGrid(c, w, h) && 0 <= ilo < ihi <= w && 0 <= jlo && jhi <= h
    requires At(a, c).kind == Closed && ParentsClosed(a, w, h)
    requires Agrees(st.grid, a, w, h, c, e, cost, Window(ilo, jlo, ihi - 2, jhi - 1))
    ensures var r := ColFold(st, w, h, c, e, cost, ihi - 1, jlo, jhi);
      && Agrees(r.grid, a, w, h, c, e, cost, Window(ilo, jlo, ihi - 1, jhi - 1))
      && r.pushed == st.pushed + EligibleCol(a, w, h, c, ihi - 1, jlo, jhi)
  {
    var b := st.grid;
    var win', col, win := Window(ilo, jlo, ihi - 2, jhi - 1), Window(ihi - 1, jlo, ihi - 1, jhi - 1), Window(ilo, jlo, ihi - 1, jhi - 1);
    AgreesKeepsClosed(a, b, w, h, c, e, cost, win');
    ColFoldExact(st, w, h, c, e, cost, ihi - 1, jlo, jhi);
    var r := ColFold(st, w, h, c, e, cost, ihi - 1, jlo, jhi);
    forall q: Pos | InGrid(q, w, h) ensures At(r.grid, q) == Expected(a, w, h, c, e, cost, q, InWindow(q, win)) {
      assert At(b, q) == Expected(a, w, h, c, e, cost, q, InWindow(q, win'));
      assert At(r.grid, q) == Expected(b, w, h, c, e, cost, q, InWindow(q, col));
      if InWindow(q, col) {
        if At(a, q).parent.Some? {
          assert At(b, At(a, q).parent.value) == At(a, At(a, q).parent.value);
        }
        SameExpected(a, b, w, h, c, e, cost, q);
      }
    }
    EligibleColSame(a, b, w, h, c, ihi - 1, jlo, jhi);
  }

  lemma {:induction false} WinFoldExact(st: Relaxation, w: int, h: int, c: Pos, e: Pos, cost: Cost,
                                        ilo: int, ihi: int, jlo: int, jhi: int)
    requires Shaped(st.grid, w, h) && InGrid(c, w, h) && 0 <= ilo && ihi <= w && 0 <= jlo && jhi <= h
    requires At(st.grid, c).kind == Closed && ParentsClosed(st.grid, w, h)
    ensures var r := WinFold(st, w, h, c, e, cost, ilo, ihi, jlo, jhi);
      && Agrees(r.grid, st.grid, w, h, c, e, cost, Window(ilo, jlo, ihi - 1, jhi - 1))
      && r.pushed == st.pushed + EligibleWin(st.grid, w, h, c, ilo, ihi, jlo, jhi)
    decreases ihi - ilo
  {
    var a := st.grid;
    if ihi <= ilo {
      forall q: Pos | InGrid(q, w, h) ensures At(a, q) == Expected(a, w, h, c, e, cost, q, InWindow(q, Window(ilo, jlo, ihi - 1, jhi - 1))) {
      }
    } else {
      var r' := WinFold(st, w, h, c, e, cost, ilo, ihi - 1, jlo, jhi);
      WinFoldExact(st, w, h, c, e, cost, ilo, ihi - 1, jlo, jhi);
      WinStepExact(a, r', w, h, c, e, cost, ilo, ihi, jlo, jhi);
      assert WinFold(st, w, h, c, e, cost, ilo, ihi, jlo, jhi) == ColFold(r', w, h, c, e, cost, ihi - 1, jlo, jhi);
      var done, col := EligibleWin(a, w, h, c, ilo, ihi - 1, jlo, jhi), EligibleCol(a, w, h, c, ihi - 1, jlo, jhi);
      assert st.pushed + done + col == st.pushed + (done + col);
    }
  }

  /** A column's eligible cells are the same in two maps that agree on that column, the parents and the current node. */
  lemma {:induction false} EligibleColSame(a: Grid, b: Grid, w: int, h: int, c: Pos, i: int, lo: int, hi: int)
    requires InGrid(c, w, h) && 0 <= i < w && 0 <= lo && hi <= h
    requires At(b, c) == At(a, c) && ClosedKept(a, b, w, h) && ParentsClosed(a, w, h)
    requires forall j {:trigger Pos(i, j)} :: lo <= j < hi ==> At(b, Pos(i, j)) == At(a, Pos(i, j))
    ensures EligibleCol(b, w, h, c, i, lo, hi) == EligibleCol(a, w, h, c, i, lo, hi)
    decreases hi - lo
  {
    if hi > lo {
      EligibleColSame(a, b, w, h, c, i, lo, hi - 1);
      var q := Pos(i, hi - 1);
      assert At(b, q) == At(a, q);
      if At(a, q).parent.Some? {
        assert At(b, At(a, q).parent.value) == At(a, At(a, q).parent.value);
      }
      SameEligibility(a, b, w, h, c, q);
    }
  }

  /**
   * During a search (the current node and every parent closed), a node of the
   * window takes the current node as parent, with `gCost` the current
   * node's plus the step and `hCost` the cost to the goal, exactly when it is
   * neither HIVE nor closed and has no parent or a parent dearer than the
   * current node; every other node is unchanged; the eligible nodes are
   * pushed in visiting order.
   */
  lemma RelaxExact(m: Grid, w: int, h: int, c: Pos, e: Pos, cost: Cost)
    requires Shaped(m, w, h) && InGrid(c, w, h)
    requires At(m, c).kind == Closed && ParentsClosed(m, w, h)
    ensures Agrees(Relax(m, w, h, c, e, cost).grid, m, w, h, c, e, cost, Borders(c, 1, w, h))
    ensures var b := Borders(c, 1, w, h);
      Relax(m, w, h, c, e, cost).pushed == EligibleWin(m, w, h, c, b.startX, b.endX + 1, b.startY, b.endY + 1)
  {
    var b := Borders(c, 1, w, h);
    BordersInGrid(c, 1, w, h);
    var st := Relaxation(m, []);
    var r := WinFold(st, w, h, c, e, cost, b.startX, b.endX + 1, b.startY, b.endY + 1);
    assert r == Relax(m, w, h, c, e, cost);
    WinFoldExact(st, w, h, c, e, cost, b.startX, b.endX + 1, b.startY, b.endY + 1);
    assert Window(b.startX, b.startY, b.endX + 1 - 1, b.endY + 1 - 1) == b;
    var pushed := EligibleWin(m, w, h, c, b.startX, b.endX + 1, b.startY, b.endY + 1);
    assert r.pushed == [] + pushed == pushed;
  }

  /** During a search, the pushed nodes are exactly the eligible nodes of the window. */
  lemma RelaxPushed(m: Grid, w: int, h: int, c: Pos, e: Pos, cost: Cost, q: Pos)
    requires Shaped(m, w, h) && InGrid(c, w, h)
    requires At(m, c).kind == Closed && ParentsClosed(m, w, h)
    ensures q in Relax(m, w, h, c, e, cost).pushed <==>
      InWindow(q, Borders(c, 1, w, h)) && InGrid(q, w, h) && Eligible(m, w, h, q, At(m, c).gCost)
  {
    var b := Borders(c, 1, w, h);
    BordersInGrid(c, 1, w, h);
    RelaxExact(m, w, h, c, e, cost);
    EligibleWinMembers(m, w, h, c, b.startX, b.endX + 1, b.startY, b.endY + 1, q);
  }

  /** A relaxation with no eligible node in the window changes nothing and pushes nothing. */
  lemma RelaxNothingEligible(m: Grid, w: int, h: int, c: Pos, e: Pos, cost: Cost)
    requires Shaped(m, w, h) && InGrid(c, w, h)
    requires At(m, c).kind == Closed && ParentsClosed(m, w, h)
    requires forall q: Pos {:trigger Eligible(m, w, h, q, At(m, c).gCost)} :: InGrid(q, w, h) && InWindow(q, Borders(c, 1, w, h)) ==> !Eligible(m, w, h, q, At(m, c).gCost)
    ensures Relax(m, w, h, c, e, cost) == Relaxation(m, [])
  {
    var r := Relax(m, w, h, c, e, cost);
    var b := Borders(c, 1, w, h);
    BordersInGrid(c, 1, w, h);
    RelaxExact(m, w, h, c, e, cost);
    forall q: Pos | InGrid(q, w, h) ensures At(r.grid, q) == At(m, q) {
      assert At(r.grid, q) == Expected(m, w, h, c, e, cost, q, InWindow(q, b));
    }
    GridExt(r.grid, m, w, h);
    EligibleWinEmpty(m, w, h, c, b.startX, b.endX + 1, b.startY, b.endY + 1);
  }
}
