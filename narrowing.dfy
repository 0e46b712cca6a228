/**
 * What repeated ticks do to the grid: each collapse followed by a sweep only
 * ever removes possibilities. The solver never re-widens a cell, although a
 * sweep recomputes every uncollapsed cell from the full state list; this
 * holds because a sweep is monotone and the grid it starts from is itself
 * the result of a sweep.
 */
module Narrowing {
  import opened Rules
  import opened Tiles
  import opened Grid
  import opened Propagation

  /** a has the Collapsed flags of b, and each cell of a allows no more than that of b. */
  predicate Narrower(a: seq<Tile>, b: seq<Tile>)
  {
    PointwiseSub(a, b) && forall k :: 0 <= k < |a| ==> a[k].Collapsed == b[k].Collapsed
  }

  /**
   * c is g after collapsing: every cell is either unchanged or an uncollapsed
   * cell of g now collapsed to one of its own possibilities.
   */
  predicate CollapseStep(g: seq<Tile>, c: seq<Tile>)
  {
    |c| == |g| &&
    forall k :: 0 <= k < |g| ==>
      c[k] == g[k] ||
      (!g[k].Collapsed && c[k].Collapsed && |c[k].Possible| == 1 && SubsetOf(c[k].Possible, g[k].Possible))
  }

  /**
   * The grid g is what the last sweep produced from prior, the grid as the
   * last collapse left it, and that sweep only narrowed prior.
   */
  predicate Settled(g: seq<Tile>, prior: seq<Tile>, h: nat, w: nat)
  {
    |prior| == h * w && g == Sweep(prior, h, w) && Narrower(g, prior)
  }

  /** A fresh grid is settled with respect to itself. */
  lemma FreshSettled(h: nat, w: nat)
    ensures Settled(FreshGrid(h * w), FreshGrid(h * w), h, w)
  {
    SweepFresh(h, w);
  }

  /**
   * One visit is monotone, provided the visited cell of a is collapsed
   * whenever that of b is, and a collapsed cell of a that is uncollapsed in b
   * allows no more than b's cell is recomputed to.
   */
  lemma StepMonotone(a: seq<Tile>, b: seq<Tile>, h: nat, w: nat, k: nat)
    requires |a| == h * w && |b| == h * w && k < h * w
    requires PointwiseSub(a, b)
    requires b[k].Collapsed ==> a[k].Collapsed
    requires a[k].Collapsed && !b[k].Collapsed ==> SubsetOf(a[k].Possible, Admissible(b, h, w, k / w, k % w))
    ensures PointwiseSub(Step(a, h, w, k), Step(b, h, w, k))
  {
    StepFrame(a, h, w, k);
    StepFrame(b, h, w, k);
    if !a[k].Collapsed {
      AdmissibleMonotone(a, b, h, w, k / w, k % w);
    }
  }

  /**
   * The sweep is monotone in the same sense: started from a grid a that
   * allows no more than b cell by cell, has every collapsed cell of b
   * collapsed, and whose extra collapsed cells allow no more than the sweep
   * of b gives them, it ends allowing no more than the sweep of b.
   */
  lemma {:induction false} SweepToMonotone(a: seq<Tile>, b: seq<Tile>, h: nat, w: nat, n: nat)
    requires |a| == h * w && |b| == h * w && n <= h * w
    requires PointwiseSub(a, b)
    requires forall k :: 0 <= k < h * w && b[k].Collapsed ==> a[k].Collapsed
    requires forall k :: 0 <= k < h * w && a[k].Collapsed && !b[k].Collapsed ==>
      SubsetOf(a[k].Possible, Sweep(b, h, w)[k].Possible)
    ensures PointwiseSub(SweepTo(a, h, w, n), SweepTo(b, h, w, n))
  {
    if n > 0 {
      var k := n - 1;
      SweepToMonotone(a, b, h, w, k);
      var sa, sb := SweepTo(a, h, w, k), SweepTo(b, h, w, k);
      SweepToCell(a, h, w, k, k);
      SweepToCell(b, h, w, k, k);
      SweepToCell(b, h, w, h * w, k);
      StepMonotone(sa, sb, h, w, k);
      SweepToUnfold(a, h, w, n);
      SweepToUnfold(b, h, w, n);
    }
  }

  lemma SweepMonotone(a: seq<Tile>, b: seq<Tile>, h: nat, w: nat)
    requires |a| == h * w && |b| == h * w
    requires PointwiseSub(a, b)
    requires forall k :: 0 <= k < h * w && b[k].Collapsed ==> a[k].Collapsed
    requires forall k :: 0 <= k < h * w && a[k].Collapsed && !b[k].Collapsed ==>
      SubsetOf(a[k].Possible, Sweep(b, h, w)[k].Possible)
    ensures PointwiseSub(Sweep(a, h, w), Sweep(b, h, w))
  {
    SweepToMonotone(a, b, h, w, h * w);
  }

  /**
   * A tick on a settled grid g: collapsing some cells to c and sweeping
   * gives a grid that again is settled (with c as its prior), allows no more
   * than g cell by cell, and leaves every collapsed cell of g as it was.
   */
  lemma TickNarrows(g: seq<Tile>, prior: seq<Tile>, c: seq<Tile>, h: nat, w: nat)
    requires |g| == h * w && Settled(g, prior, h, w) && CollapseStep(g, c)
    ensures Settled(Sweep(c, h, w), c, h, w)
    ensures PointwiseSub(Sweep(c, h, w), g)
    ensures forall k :: 0 <= k < |g| && g[k].Collapsed ==> Sweep(c, h, w)[k] == g[k]
  {
    var s := Sweep(c, h, w);
    assert PointwiseSub(c, prior) by {
      forall k | 0 <= k < h * w ensures SubsetOf(c[k].Possible, prior[k].Possible) {
        assert SubsetOf(g[k].Possible, prior[k].Possible);
      }
    }
    forall k | 0 <= k < h * w && c[k].Collapsed && !prior[k].Collapsed
      ensures SubsetOf(c[k].Possible, Sweep(prior, h, w)[k].Possible)
    {
      assert !g[k].Collapsed;
    }
    SweepMonotone(c, prior, h, w);
    SweepKeepsCollapsed(c, h, w);
    forall k | 0 <= k < h * w ensures SubsetOf(s[k].Possible, c[k].Possible) {
      if c[k] == g[k] && !c[k].Collapsed {
        assert SubsetOf(s[k].Possible, g[k].Possible);
      }
    }
  }
}
