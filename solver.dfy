/**
 * The solver object: the requested and current grid dimensions, the grid of
 * cells, and the per-frame sequence of resetting the grid when the requested
 * dimensions changed, collapsing one cell and propagating.
 */
module Solver {
  import opened Rules
  import opened Tiles
  import opened Grid
  import opened Propagation
  import opened Narrowing

  /** The largest 32-bit signed integer, the scan's starting minimum. */
  const INT_MAX := 0x7FFF_FFFF

  /**
   * What a collapse did: nothing (no grid, or no uncollapsed cell), fixed a
   * cell to a state, or found the chosen cell without any possibility. In the
   * last case the solver's list indexing fails; the grid is left as it was.
   */
  datatype CollapseOutcome = Idle | Committed(cell: nat, state: int) | Contradiction(cell: nat)

  class WaveFunctionCollapse {
    /** The dimensions asked for. */
    var width: nat
    var height: nat
    /** The dimensions the grid was built with. */
    var currentWidth: nat
    var currentHeight: nat
    /** The cells, row by row; null before the first build. */
    var grid: array?<Tile>
    /** The grid as the last collapse left it, before the last sweep. */
    ghost var prior: seq<Tile>

    /** The grid has the current dimensions and every cell keeps the cell invariant. */
    ghost predicate Valid()
      reads this, grid
    {
      grid != null ==> grid.Length == currentHeight * currentWidth && GridOk(grid[..])
    }

    /** Between frames: the grid is also the sweep of the grid the last collapse left. */
    ghost predicate Stable()
      reads this, grid
    {
      Valid() && (grid != null ==> Settled(grid[..], prior, currentHeight, currentWidth))
    }

    constructor (w: nat, h: nat)
      ensures width == w && height == h
      ensures currentWidth == 0 && currentHeight == 0 && grid == null
      ensures Stable()
    {
      width, height := w, h;
      currentWidth, currentHeight := 0, 0;
      grid := null;
      prior := [];
    }

    /**
     * Rebuild the grid at the requested dimensions, every cell fresh. Any
     * collapse progress on the old grid is discarded.
     */
    method CreateGrid()
      modifies this
      ensures width == old(width) && height == old(height)
      ensures currentWidth == width && currentHeight == height
      ensures grid != null && fresh(grid)
      ensures grid[..] == FreshGrid(height * width)
      ensures Stable()
    {
      currentWidth := width;
      currentHeight := height;
      grid := null;
      var h, w := currentHeight, currentWidth;
      var cells := new Tile[h * w];
      for i := 0 to h
        modifies cells
        invariant forall k :: 0 <= k < i * w ==> cells[k] == NewTile()
      {
        RowMajorBound(i, w, h, w);
        for j := 0 to w
          modifies cells
          invariant forall k :: 0 <= k < i * w + j ==> cells[k] == NewTile()
        {
          cells[i * w + j] := NewTile();
        }
        assert i * w + w == (i + 1) * w;
      }
      grid := cells;
      assert grid[..] == FreshGrid(height * width);
      prior := grid[..];
      FreshSettled(height, width);
    }

    /** The first frame: build the grid. */
    method Start()
      modifies this
      ensures width == old(width) && height == old(height)
      ensures currentWidth == width && currentHeight == height
      ensures grid != null && fresh(grid) && grid[..] == FreshGrid(height * width)
      ensures Stable()
    {
      CreateGrid();
    }

    /**
     * The scan of a collapse: the uncollapsed cells whose number of
     * possibilities is least, in grid order, and that least number.
     */
    method ScanMinimum() returns (possibleTiles: seq<nat>, min: int)
      requires grid != null
      requires forall k :: 0 <= k < grid.Length ==> |grid[k].Possible| <= INT_MAX
      ensures forall k :: k in possibleTiles <==>
        0 <= k < grid.Length && !grid[k].Collapsed && |grid[k].Possible| == min
      ensures forall k :: 0 <= k < grid.Length && !grid[k].Collapsed ==> min <= |grid[k].Possible|
      ensures possibleTiles == [] <==> forall k :: 0 <= k < grid.Length ==> grid[k].Collapsed
      ensures possibleTiles == [] ==> min == INT_MAX
      ensures Increasing(possibleTiles)
    {
      possibleTiles := [];
      min := INT_MAX;
      var k := 0;
      while k < grid.Length
        invariant 0 <= k <= grid.Length
        invariant min <= INT_MAX
        invariant forall t :: t in possibleTiles <==>
          0 <= t < k && !grid[t].Collapsed && |grid[t].Possible| == min
        invariant forall m :: 0 <= m < k && !grid[m].Collapsed ==> min <= |grid[m].Possible|
        invariant possibleTiles == [] <==> forall m :: 0 <= m < k ==> grid[m].Collapsed
        invariant possibleTiles == [] ==> min == INT_MAX
        invariant Increasing(possibleTiles)
      {
        var tile := grid[k];
        if !tile.Collapsed {
          if |tile.Possible| < min {
            possibleTiles := [];
            min := |tile.Possible|;
          }
          if |tile.Possible| == min {
            SnocIncreasing(possibleTiles, k);
            possibleTiles := possibleTiles + [k];
          }
        }
        k := k + 1;
      }
    }

    /**
     * Collapse one cell of least entropy to one of its own possibilities,
     * both picked at random. Nothing happens without a grid or without an
     * uncollapsed cell; a chosen cell with no possibility is a contradiction.
     */
    method Collapse() returns (outcome: CollapseOutcome)
      requires Valid()
      modifies grid
      ensures Valid()
      ensures grid == null ==> outcome == Idle
      ensures grid != null ==>
        (outcome == Idle <==> forall k :: 0 <= k < grid.Length ==> old(grid[k]).Collapsed)
      ensures !outcome.Committed? ==> grid == null || grid[..] == old(grid[..])
      ensures outcome.Contradiction? ==>
        grid != null && MinEntropy(old(grid[..]), outcome.cell) && old(grid[outcome.cell]).Possible == []
      ensures outcome.Committed? ==>
        grid != null && MinEntropy(old(grid[..]), outcome.cell) &&
        outcome.state in old(grid[outcome.cell]).Possible &&
        grid[..] == old(grid[..])[outcome.cell := CollapseTo(outcome.state)]
      ensures grid != null && (exists k :: 0 <= k < grid.Length && !old(grid[k]).Collapsed && old(grid[k]).Possible == []) ==>
        outcome.Contradiction?
    {
      if grid == null {
        return Idle;
      }
      forall k | 0 <= k < grid.Length ensures |grid[k].Possible| <= INT_MAX {
        assert ValidTile(grid[..][k]);
        PossibleBound(grid[k].Possible);
      }
      var possibleTiles, min := ScanMinimum();
      if possibleTiles == [] {
        return Idle;
      }
      var r :| 0 <= r < |possibleTiles|;
      var cell := possibleTiles[r];
      assert cell in possibleTiles;
      var p := grid[cell].Possible;
      if p == [] {
        return Contradiction(cell);
      }
      var idx :| 0 <= idx < |p|;
      var state := p[idx];
      assert ValidTile(grid[..][cell]);
      grid[cell] := grid[cell].(Possible := [state]);
      grid[cell] := grid[cell].(Collapsed := true);
      outcome := Committed(cell, state);
      assert grid[..] == old(grid[..])[cell := CollapseTo(state)];
    }

    /**
     * The list UpdateTile computes for cell (i, j): start from every state and
     * keep, for each in-range neighbour, the states that some possibility of
     * that neighbour allows on the side facing (i, j); drop repeats. It is the
     * reference list of the cell: the states every in-range neighbour allows.
     */
    method TileOptions(i: int, j: int) returns (options: seq<int>)
      requires Valid() && grid != null
      ensures options == Admissible(grid[..], currentHeight, currentWidth, i, j)
    {
      ghost var g := grid[..];
      var h, w := currentHeight, currentWidth;
      var initialOptions := ALL_STATES;
      MulDistributes(i + 1, i, w);
      MulDistributes(i, i - 1, w);

      var up := i * w + j + 1;
      if InRange(h, w, i, j + 1) {
        assert ValidTile(g[up]);
        var possibleUp := AllowedBy(grid[up].Possible, DOWN - 1);
        initialOptions := KeepIf(initialOptions, possibleUp);
      }
      assert initialOptions == NarrowBy(g, h, w, ALL_STATES, i, j + 1, DOWN - 1);
      ghost var afterUp := initialOptions;

      var right := (i + 1) * w + j;
      if InRange(h, w, i + 1, j) {
        assert ValidTile(g[right]);
        var possibleRight := AllowedBy(grid[right].Possible, LEFT - 1);
        initialOptions := KeepIf(initialOptions, possibleRight);
      }
      assert initialOptions == NarrowBy(g, h, w, afterUp, i + 1, j, LEFT - 1);
      ghost var afterRight := initialOptions;

      var down := i * w + j - 1;
      if InRange(h, w, i, j - 1) {
        assert ValidTile(g[down]);
        var possibleDown := AllowedBy(grid[down].Possible, UP - 1);
        initialOptions := KeepIf(initialOptions, possibleDown);
      }
      assert initialOptions == NarrowBy(g, h, w, afterRight, i, j - 1, UP - 1);
      ghost var afterDown := initialOptions;

      var left := (i - 1) * w + j;
      if InRange(h, w, i - 1, j) {
        assert ValidTile(g[left]);
        var possibleLeft := AllowedBy(grid[left].Possible, RIGHT - 1);
        initialOptions := KeepIf(initialOptions, possibleLeft);
      }
      assert initialOptions == NarrowBy(g, h, w, afterDown, i - 1, j, RIGHT - 1);

      options := Distinct(initialOptions);
      assert options == Chain(g, h, w, i, j);
      ChainIsAdmissible(g, h, w, i, j);
    }

    /** Recompute the possibilities of cell (i, j) from its neighbours, in place. */
    method UpdateTile(i: int, j: int)
      requires Valid()
      requires InRange(currentHeight, currentWidth, i, j)
      modifies grid
      ensures grid != null ==> grid[..] == old(grid[..])[i * currentWidth + j :=
        old(grid[i * currentWidth + j]).(Possible := Admissible(old(grid[..]), currentHeight, currentWidth, i, j))]
      ensures grid != null && !old(grid[i * currentWidth + j]).Collapsed ==> Valid()
    {
      if grid == null {
        return;
      }
      var options := TileOptions(i, j);
      var me := i * currentWidth + j;
      ghost var g := grid[..];
      AdmissibleShape(g, currentHeight, currentWidth, i, j);
      grid[me] := grid[me].(Possible := options);
      if !g[me].Collapsed {
        forall k | 0 <= k < grid.Length ensures ValidTile(grid[..][k]) {
          if k != me {
            assert grid[..][k] == g[k];
          }
        }
      }
    }

    /**
     * One propagation pass: visit the cells in row-major order and recompute
     * each uncollapsed one from the grid as it stands, so that a cell sees
     * the new lists of the cells visited before it.
     */
    method UpdatePossibilities()
      requires Valid()
      modifies grid
      ensures Valid()
      ensures grid != null ==> grid[..] == Sweep(old(grid[..]), currentHeight, currentWidth)
    {
      if grid == null {
        return;
      }
      ghost var g0 := grid[..];
      var h, w := currentHeight, currentWidth;
      for i := 0 to h
        invariant i * w <= h * w
        invariant grid[..] == SweepTo(g0, h, w, i * w)
        invariant GridOk(grid[..])
      {
        RowMajorBound(i, w, h, w);
        for j := 0 to w
          invariant grid[..] == SweepTo(g0, h, w, i * w + j)
          invariant GridOk(grid[..])
        {
          var index := i * w + j;
          RowMajor(i, j, w);
          ghost var before := grid[..];
          if !grid[index].Collapsed {
            UpdateTile(i, j);
          }
          assert grid[..] == Step(before, h, w, index);
          StepOk(before, h, w, index);
          SweepToUnfold(g0, h, w, index + 1);
        }
        assert i * w + w == (i + 1) * w;
      }
    }

    /**
     * The work of one frame on the grid as it stands: collapse one cell, then
     * propagate unless the collapse found a contradiction. It only removes
     * possibilities and never touches a collapsed cell.
     */
    method CollapseAndPropagate() returns (outcome: CollapseOutcome)
      requires Stable()
      modifies this, grid
      ensures Stable()
      ensures width == old(width) && height == old(height)
      ensures currentWidth == old(currentWidth) && currentHeight == old(currentHeight)
      ensures grid == old(grid)
      ensures grid == null ==> outcome == Idle
      ensures grid != null ==>
        PointwiseSub(grid[..], old(grid[..])) &&
        (forall k :: 0 <= k < grid.Length && old(grid[k]).Collapsed ==> grid[k] == old(grid[k]))
      ensures grid != null ==>
        (outcome == Idle <==> forall k :: 0 <= k < grid.Length ==> old(grid[k]).Collapsed) &&
        ((exists k :: 0 <= k < grid.Length && !old(grid[k]).Collapsed && old(grid[k]).Possible == []) ==>
          outcome.Contradiction?)
      ensures outcome.Committed? ==>
        grid != null && MinEntropy(old(grid[..]), outcome.cell) &&
        outcome.state in old(grid[outcome.cell]).Possible &&
        grid[outcome.cell] == CollapseTo(outcome.state) &&
        grid[..] == Sweep(old(grid[..])[outcome.cell := CollapseTo(outcome.state)], currentHeight, currentWidth)
      ensures outcome.Contradiction? ==>
        grid != null && MinEntropy(old(grid[..]), outcome.cell) &&
        old(grid[outcome.cell]).Possible == [] && grid[..] == old(grid[..])
      ensures outcome == Idle && grid != null ==> grid[..] == Sweep(old(grid[..]), currentHeight, currentWidth)
    {
      ghost var start := if grid != null then grid[..] else [];
      outcome := Collapse();
      if !outcome.Contradiction? && grid != null {
        ghost var c := grid[..];
        assert CollapseStep(start, c) by {
          if outcome.Committed? {
            forall k | 0 <= k < |start| ensures
              c[k] == start[k] ||
              (!start[k].Collapsed && c[k].Collapsed && |c[k].Possible| == 1 && SubsetOf(c[k].Possible, start[k].Possible))
            {
            }
          }
        }
        UpdatePossibilities();
        TickNarrows(start, prior, c, currentHeight, currentWidth);
        SweepKeepsCollapsed(c, currentHeight, currentWidth);
        prior := c;
      }
    }

    /**
     * One frame: rebuild the grid if the requested dimensions differ from
     * the current ones, collapse one cell, then propagate. A contradiction
     * ends the frame before propagation. Without a rebuild, the frame only
     * removes possibilities and never touches a collapsed cell.
     */
    method Tick() returns (outcome: CollapseOutcome)
      requires Stable()
      modifies this, grid
      ensures Stable()
      ensures width == old(width) && height == old(height)
      ensures currentWidth == width && currentHeight == height
      ensures old(currentWidth != width || currentHeight != height) ==> grid != null && fresh(grid)
      ensures old(currentWidth == width && currentHeight == height) ==> grid == old(grid)
      ensures grid != null ==>
        var start := if old(currentWidth == width && currentHeight == height) then old(grid[..]) else FreshGrid(height * width);
        |start| == grid.Length &&
        PointwiseSub(grid[..], start) &&
        (forall k :: 0 <= k < grid.Length && start[k].Collapsed ==> grid[k] == start[k]) &&
        (outcome.Committed? ==>
          MinEntropy(start, outcome.cell) && outcome.state in start[outcome.cell].Possible &&
          grid[outcome.cell] == CollapseTo(outcome.state)) &&
        (outcome.Contradiction? ==>
          MinEntropy(start, outcome.cell) && start[outcome.cell].Possible == [] && grid[..] == start)
      ensures grid != null ==>
        var start := if old(currentWidth == width && currentHeight == height) then old(grid[..]) else FreshGrid(height * width);
        (outcome == Idle <==> forall k :: 0 <= k < |start| ==> start[k].Collapsed) &&
        ((exists k :: 0 <= k < |start| && !start[k].Collapsed && start[k].Possible == []) ==> outcome.Contradiction?)
      ensures grid != null && !outcome.Contradiction? ==>
        var start := if old(currentWidth == width && currentHeight == height) then old(grid[..]) else FreshGrid(height * width);
        grid[..] == Sweep(if outcome.Committed? then start[outcome.cell := CollapseTo(outcome.state)] else start,
                          currentHeight, currentWidth)
    {
      if currentWidth != width || currentHeight != height {
        CreateGrid();
      }
      outcome := CollapseAndPropagate();
    }
  }
}
