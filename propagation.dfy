/**
 * Constraint propagation: the set computation that recomputes one cell from
 * its neighbours, and the row-major sweep that recomputes every uncollapsed
 * cell in turn, reading the grid as already updated by the sweep.
 */
module Propagation {
  import opened Rules
  import opened Tiles
  import opened Grid

  // ---------------------------------------------------------------------------
  // The list operations the solver chains together (SelectMany, Where, Distinct)

  /**
   * Some state of p allows o on side d of it. This is what a neighbour with
   * possibilities p tolerates in the cell lying on its side d.
   */
  predicate Supports(p: seq<int>, d: int, o: int)
    requires IsDirection(d)
  {
    exists s :: s in p && IsState(s) && o in RULES[s][d]
  }

  /**
   * The concatenation of the rule lists RULES[s][d] over the states s of p,
   * in the order of p (duplicates kept).
   */
  function AllowedBy(p: seq<int>, d: int): (r: seq<int>)
    requires StateList(p) && IsDirection(d)
    ensures r == [] <==> p == []
  {
    if p == [] then
      []
    else
      assert p[0] in p;
      TableWellFormed();
      RULES[p[0]][d] + AllowedBy(p[1..], d)
  }

  /** A state occurs in the concatenation exactly when some state of p allows it on side d. */
  lemma {:induction false} AllowedByMembers(p: seq<int>, d: int)
    requires StateList(p) && IsDirection(d)
    ensures StateList(AllowedBy(p, d))
    ensures forall o :: o in AllowedBy(p, d) <==> Supports(p, d, o)
  {
    if p != [] {
      AllowedByMembers(p[1..], d);
      assert p == [p[0]] + p[1..];
      assert p[0] in p;
      TableWellFormed();
    }
  }

  /** The elements of opts that occur in allowed, in the order of opts. */
  function KeepIf(opts: seq<int>, allowed: seq<int>): (r: seq<int>)
    ensures |r| <= |opts|
  {
    if opts == [] then
      []
    else
      var rest := KeepIf(opts[1..], allowed);
      if opts[0] in allowed then [opts[0]] + rest else rest
  }

  /** Filtering keeps exactly the common elements, and keeps an increasing list increasing. */
  lemma {:induction false} KeepIfMembers(opts: seq<int>, allowed: seq<int>)
    ensures forall o :: o in KeepIf(opts, allowed) <==> o in opts && o in allowed
    ensures Increasing(opts) ==> Increasing(KeepIf(opts, allowed))
  {
    if opts != [] {
      KeepIfMembers(opts[1..], allowed);
      var rest := KeepIf(opts[1..], allowed);
      assert opts == [opts[0]] + opts[1..];
      if Increasing(opts) {
        forall x | x in rest ensures opts[0] < x {
          HeadIsLeast(opts, x);
        }
        ConsIncreasing(opts[0], rest);
      }
    }
  }

  /** The list without repeats, each element kept at its first occurrence. */
  function Distinct(s: seq<int>): (r: seq<int>)
    ensures forall x :: x in r <==> x in s
    ensures forall a, b :: 0 <= a < b < |r| ==> r[a] != r[b]
    ensures |r| <= |s|
    ensures Increasing(s) ==> r == s
  {
    if s == [] then
      []
    else
      var init := s[..|s| - 1];
      var last := s[|s| - 1];
      var r := Distinct(init);
      assert s == init + [last];
      if last in r then r else r + [last]
  }

  // ---------------------------------------------------------------------------
  // The reference meaning of one cell update

  /**
   * The cell (x, y), if it is inside the grid, allows state o in the cell
   * beside it: some state (x, y) may still take lists o in its rule list d,
   * where d is the side of (x, y) that faces the cell being recomputed.
   */
  predicate NeighbourAllows(g: seq<Tile>, h: nat, w: nat, x: int, y: int, d: int, o: int)
    requires |g| == h * w && IsDirection(d)
  {
    InRange(h, w, x, y) ==> Supports(g[x * w + y].Possible, d, o)
  }

  /**
   * Every in-range neighbour of (i, j) allows o. The solver calls (i, j + 1)
   * the cell above, (i + 1, j) the one to the right, (i, j - 1) the one below
   * and (i - 1, j) the one to the left, and reads each neighbour's rule list
   * for the side facing back: down, left, up and right respectively.
   */
  predicate Fits(g: seq<Tile>, h: nat, w: nat, i: int, j: int, o: int)
    requires |g| == h * w
  {
    NeighbourAllows(g, h, w, i, j + 1, DOWN - 1, o) && NeighbourAllows(g, h, w, i + 1, j, LEFT - 1, o) &&
    NeighbourAllows(g, h, w, i, j - 1, UP - 1, o) && NeighbourAllows(g, h, w, i - 1, j, RIGHT - 1, o)
  }

  /** The states from s up to LEFT that fit at (i, j), in increasing order. */
  function FittingFrom(g: seq<Tile>, h: nat, w: nat, i: int, j: int, s: nat): (r: seq<int>)
    requires |g| == h * w
    decreases STATE_COUNT - s
  {
    if s >= STATE_COUNT then
      []
    else
      var rest := FittingFrom(g, h, w, i, j, s + 1);
      if Fits(g, h, w, i, j, s) then [s] + rest else rest
  }

  lemma {:induction false} FittingFromShape(g: seq<Tile>, h: nat, w: nat, i: int, j: int, s: nat)
    requires |g| == h * w
    ensures Increasing(FittingFrom(g, h, w, i, j, s))
    ensures forall o :: o in FittingFrom(g, h, w, i, j, s) ==> s <= o < STATE_COUNT
    decreases STATE_COUNT - s
  {
    if s < STATE_COUNT {
      FittingFromShape(g, h, w, i, j, s + 1);
      var rest := FittingFrom(g, h, w, i, j, s + 1);
      if Fits(g, h, w, i, j, s) {
        ConsIncreasing(s, rest);
      }
    }
  }

  lemma {:induction false} FittingFromMembers(g: seq<Tile>, h: nat, w: nat, i: int, j: int, s: nat, o: int)
    requires |g| == h * w
    ensures o in FittingFrom(g, h, w, i, j, s) <==> s <= o < STATE_COUNT && Fits(g, h, w, i, j, o)
    decreases STATE_COUNT - s
  {
    if s < STATE_COUNT {
      FittingFromMembers(g, h, w, i, j, s + 1, o);
    }
  }

  /**
   * The possibilities of cell (i, j) recomputed from the grid g: the states,
   * in order, that every in-range neighbour allows.
   */
  function Admissible(g: seq<Tile>, h: nat, w: nat, i: int, j: int): (r: seq<int>)
    requires |g| == h * w
  {
    FittingFrom(g, h, w, i, j, 0)
  }

  /** A recomputed list is a valid possibility list: states, increasing. */
  lemma AdmissibleShape(g: seq<Tile>, h: nat, w: nat, i: int, j: int)
    requires |g| == h * w
    ensures StateList(Admissible(g, h, w, i, j)) && Increasing(Admissible(g, h, w, i, j))
  {
    FittingFromShape(g, h, w, i, j, 0);
  }

  /** A state survives the recomputation exactly when every in-range neighbour allows it. */
  lemma AdmissibleMembers(g: seq<Tile>, h: nat, w: nat, i: int, j: int, o: int)
    requires |g| == h * w
    ensures o in Admissible(g, h, w, i, j) <==> IsState(o) && Fits(g, h, w, i, j, o)
  {
    FittingFromMembers(g, h, w, i, j, 0, o);
  }

  lemma IsolatedFits(g: seq<Tile>, h: nat, w: nat, i: int, j: int, o: int)
    requires |g| == h * w
    requires !InRange(h, w, i, j + 1) && !InRange(h, w, i + 1, j)
    requires !InRange(h, w, i, j - 1) && !InRange(h, w, i - 1, j)
    ensures Fits(g, h, w, i, j, o)
  {
  }

  /** A cell with no neighbour inside the grid keeps every state. */
  lemma AdmissibleIsolated(g: seq<Tile>, h: nat, w: nat, i: int, j: int)
    requires |g| == h * w
    requires !InRange(h, w, i, j + 1) && !InRange(h, w, i + 1, j)
    requires !InRange(h, w, i, j - 1) && !InRange(h, w, i - 1, j)
    ensures Admissible(g, h, w, i, j) == ALL_STATES
  {
    var r := Admissible(g, h, w, i, j);
    forall o ensures o in r <==> o in ALL_STATES {
      IsolatedFits(g, h, w, i, j, o);
      AdmissibleMembers(g, h, w, i, j, o);
    }
    AdmissibleShape(g, h, w, i, j);
    IncreasingUnique(r, ALL_STATES);
  }

  lemma NeighbourAllowsMonotone(a: seq<Tile>, b: seq<Tile>, h: nat, w: nat, x: int, y: int, d: int, o: int)
    requires |a| == h * w && |b| == h * w && IsDirection(d)
    requires PointwiseSub(a, b)
    requires NeighbourAllows(a, h, w, x, y, d, o)
    ensures NeighbourAllows(b, h, w, x, y, d, o)
  {
    if InRange(h, w, x, y) {
      var s :| s in a[x * w + y].Possible && IsState(s) && o in RULES[s][d];
      assert s in b[x * w + y].Possible;
    }
  }

  /**
   * Recomputing a cell is monotone: neighbours with fewer possibilities
   * leave the cell fewer possibilities.
   */
  lemma AdmissibleMonotone(a: seq<Tile>, b: seq<Tile>, h: nat, w: nat, i: int, j: int)
    requires |a| == h * w && |b| == h * w
    requires PointwiseSub(a, b)
    ensures SubsetOf(Admissible(a, h, w, i, j), Admissible(b, h, w, i, j))
  {
    forall o | o in Admissible(a, h, w, i, j) ensures o in Admissible(b, h, w, i, j) {
      AdmissibleMembers(a, h, w, i, j, o);
      AdmissibleMembers(b, h, w, i, j, o);
      NeighbourAllowsMonotone(a, b, h, w, i, j + 1, DOWN - 1, o);
      NeighbourAllowsMonotone(a, b, h, w, i + 1, j, LEFT - 1, o);
      NeighbourAllowsMonotone(a, b, h, w, i, j - 1, UP - 1, o);
      NeighbourAllowsMonotone(a, b, h, w, i - 1, j, RIGHT - 1, o);
    }
  }

  lemma FreshAllows(h: nat, w: nat, x: int, y: int, d: int, o: int)
    requires IsDirection(d) && IsState(o)
    ensures NeighbourAllows(FreshGrid(h * w), h, w, x, y, d, o)
  {
    ColumnCovers(d, o);
  }

  /** On a fresh grid every cell keeps every state. */
  lemma AdmissibleOfFresh(h: nat, w: nat, i: int, j: int)
    ensures Admissible(FreshGrid(h * w), h, w, i, j) == ALL_STATES
  {
    var g := FreshGrid(h * w);
    forall o ensures o in Admissible(g, h, w, i, j) <==> o in ALL_STATES {
      AdmissibleMembers(g, h, w, i, j, o);
      if IsState(o) {
        FreshAllows(h, w, i, j + 1, DOWN - 1, o);
        FreshAllows(h, w, i + 1, j, LEFT - 1, o);
        FreshAllows(h, w, i, j - 1, UP - 1, o);
        FreshAllows(h, w, i - 1, j, RIGHT - 1, o);
      }
    }
    AdmissibleShape(g, h, w, i, j);
    IncreasingUnique(Admissible(g, h, w, i, j), ALL_STATES);
  }

  // ---------------------------------------------------------------------------
  // The solver's chain of list operations computes the same list

  /**
   * One link of the solver's chain: if (x, y) is in range, keep the states
   * of opts found in the concatenated rule lists d of (x, y)'s possibilities.
   */
  function NarrowBy(g: seq<Tile>, h: nat, w: nat, opts: seq<int>, x: int, y: int, d: int): (r: seq<int>)
    requires |g| == h * w && GridOk(g) && IsDirection(d)
    ensures |r| <= |opts|
  {
    if InRange(h, w, x, y) then
      assert ValidTile(g[x * w + y]);
      KeepIf(opts, AllowedBy(g[x * w + y].Possible, d))
    else
      opts
  }

  lemma NarrowByMembers(g: seq<Tile>, h: nat, w: nat, opts: seq<int>, x: int, y: int, d: int)
    requires |g| == h * w && GridOk(g) && IsDirection(d)
    ensures Increasing(opts) ==> Increasing(NarrowBy(g, h, w, opts, x, y, d))
    ensures forall o :: o in NarrowBy(g, h, w, opts, x, y, d) <==> o in opts && NeighbourAllows(g, h, w, x, y, d, o)
  {
    if InRange(h, w, x, y) {
      assert ValidTile(g[x * w + y]);
      AllowedByMembers(g[x * w + y].Possible, d);
      KeepIfMembers(opts, AllowedBy(g[x * w + y].Possible, d));
    }
  }

  /**
   * The solver's chain for cell (i, j): every state, narrowed by the cell
   * above, to the right, below and to the left, in that order, then with
   * repeats dropped.
   */
  function Chain(g: seq<Tile>, h: nat, w: nat, i: int, j: int): (r: seq<int>)
    requires |g| == h * w && GridOk(g)
    ensures |r| <= STATE_COUNT
  {
    var afterUp := NarrowBy(g, h, w, ALL_STATES, i, j + 1, DOWN - 1);
    var afterRight := NarrowBy(g, h, w, afterUp, i + 1, j, LEFT - 1);
    var afterDown := NarrowBy(g, h, w, afterRight, i, j - 1, UP - 1);
    var afterLeft := NarrowBy(g, h, w, afterDown, i - 1, j, RIGHT - 1);
    Distinct(afterLeft)
  }

  /** The chain computes exactly the reference list of the cell. */
  lemma ChainIsAdmissible(g: seq<Tile>, h: nat, w: nat, i: int, j: int)
    requires |g| == h * w && GridOk(g)
    ensures Chain(g, h, w, i, j) == Admissible(g, h, w, i, j)
  {
    var afterUp := NarrowBy(g, h, w, ALL_STATES, i, j + 1, DOWN - 1);
    var afterRight := NarrowBy(g, h, w, afterUp, i + 1, j, LEFT - 1);
    var afterDown := NarrowBy(g, h, w, afterRight, i, j - 1, UP - 1);
    var afterLeft := NarrowBy(g, h, w, afterDown, i - 1, j, RIGHT - 1);
    assert ValidTile(NewTile());
    NarrowByMembers(g, h, w, ALL_STATES, i, j + 1, DOWN - 1);
    NarrowByMembers(g, h, w, afterUp, i + 1, j, LEFT - 1);
    NarrowByMembers(g, h, w, afterRight, i, j - 1, UP - 1);
    NarrowByMembers(g, h, w, afterDown, i - 1, j, RIGHT - 1);
    forall o ensures o in afterLeft <==> o in Admissible(g, h, w, i, j) {
      AdmissibleMembers(g, h, w, i, j, o);
    }
    AdmissibleShape(g, h, w, i, j);
    IncreasingUnique(afterLeft, Admissible(g, h, w, i, j));
  }

  // ---------------------------------------------------------------------------
  // The row-major sweep

  /**
   * Visit cell k of the sweep: an uncollapsed cell gets its possibilities
   * recomputed from the grid as it stands; a collapsed cell is skipped.
   */
  function Step(g: seq<Tile>, h: nat, w: nat, k: nat): (r: seq<Tile>)
    requires |g| == h * w && k < h * w
    ensures |r| == |g|
  {
    if g[k].Collapsed then g else g[k := g[k].(Possible := Admissible(g, h, w, k / w, k % w))]
  }

  /** A visit keeps the cell invariant. */
  lemma StepOk(g: seq<Tile>, h: nat, w: nat, k: nat)
    requires |g| == h * w && GridOk(g) && k < h * w
    ensures GridOk(Step(g, h, w, k))
  {
    if !g[k].Collapsed {
      AdmissibleShape(g, h, w, k / w, k % w);
    }
  }

  /** A visit changes no Collapsed flag, and no cell but the visited one. */
  lemma StepFrame(g: seq<Tile>, h: nat, w: nat, k: nat)
    requires |g| == h * w && k < h * w
    ensures forall m :: 0 <= m < |g| ==> Step(g, h, w, k)[m].Collapsed == g[m].Collapsed
    ensures forall m :: 0 <= m < |g| && m != k ==> Step(g, h, w, k)[m] == g[m]
  {
  }

  /**
   * The grid after the sweep has visited cells 0 .. n - 1 in row-major order,
   * each visit reading the grid as left by the visits before it.
   */
  function SweepTo(g: seq<Tile>, h: nat, w: nat, n: nat): (r: seq<Tile>)
    requires |g| == h * w && n <= h * w
    ensures |r| == |g|
    decreases n
  {
    if n == 0 then g else Step(SweepTo(g, h, w, n - 1), h, w, n - 1)
  }

  lemma SweepToUnfold(g: seq<Tile>, h: nat, w: nat, n: nat)
    requires |g| == h * w && 0 < n <= h * w
    ensures SweepTo(g, h, w, n) == Step(SweepTo(g, h, w, n - 1), h, w, n - 1)
  {
  }

  /** One full propagation pass over the grid. */
  function Sweep(g: seq<Tile>, h: nat, w: nat): (r: seq<Tile>)
    requires |g| == h * w
    ensures |r| == |g|
  {
    SweepTo(g, h, w, h * w)
  }

  /**
   * What the sweep does to cell k. A collapsed cell is never changed. Once
   * the sweep has passed an uncollapsed cell k, that cell holds what it was
   * recomputed to from the grid as it stood when the sweep reached it: the
   * cells before k already updated, the cells after k not yet (a live read,
   * not a two-phase update). Cells the sweep has not reached are untouched.
   */
  lemma {:induction false} SweepToCell(g: seq<Tile>, h: nat, w: nat, n: nat, k: nat)
    requires |g| == h * w && n <= h * w && k < h * w
    ensures n <= k || g[k].Collapsed ==> SweepTo(g, h, w, n)[k] == g[k]
    ensures k < n && !g[k].Collapsed ==>
      SweepTo(g, h, w, n)[k] == g[k].(Possible := Admissible(SweepTo(g, h, w, k), h, w, k / w, k % w))
  {
    if n > 0 {
      var before := SweepTo(g, h, w, n - 1);
      SweepToUnfold(g, h, w, n);
      SweepToCell(g, h, w, n - 1, k);
      StepFrame(before, h, w, n - 1);
    }
  }

  /** Every prefix of the sweep keeps the cell invariant. */
  lemma SweepToOk(g: seq<Tile>, h: nat, w: nat, n: nat)
    requires |g| == h * w && GridOk(g) && n <= h * w
    ensures GridOk(SweepTo(g, h, w, n))
  {
    var r := SweepTo(g, h, w, n);
    forall k | 0 <= k < |r| ensures ValidTile(r[k]) {
      SweepToCell(g, h, w, n, k);
      if k < n && !g[k].Collapsed {
        AdmissibleShape(SweepTo(g, h, w, k), h, w, k / w, k % w);
      }
    }
  }

  /** The sweep keeps the cell invariant. */
  lemma SweepOk(g: seq<Tile>, h: nat, w: nat)
    requires |g| == h * w && GridOk(g)
    ensures GridOk(Sweep(g, h, w))
  {
    SweepToOk(g, h, w, h * w);
  }

  /** The sweep changes no Collapsed flag and no collapsed cell. */
  lemma SweepKeepsCollapsed(g: seq<Tile>, h: nat, w: nat)
    requires |g| == h * w
    ensures forall k :: 0 <= k < |g| ==> Sweep(g, h, w)[k].Collapsed == g[k].Collapsed
    ensures forall k :: 0 <= k < |g| && g[k].Collapsed ==> Sweep(g, h, w)[k] == g[k]
  {
    forall k | 0 <= k < |g|
      ensures Sweep(g, h, w)[k].Collapsed == g[k].Collapsed
      ensures g[k].Collapsed ==> Sweep(g, h, w)[k] == g[k]
    {
      SweepToCell(g, h, w, h * w, k);
    }
  }

  lemma StepFresh(h: nat, w: nat, k: nat)
    requires k < h * w
    ensures Step(FreshGrid(h * w), h, w, k) == FreshGrid(h * w)
  {
    var g := FreshGrid(h * w);
    AdmissibleOfFresh(h, w, k / w, k % w);
    assert g[k].(Possible := ALL_STATES) == g[k];
    assert g[k := g[k]] == g;
  }

  /** A grid that every single visit leaves alone is left alone by the sweep. */
  lemma {:induction false} SweepToFixpoint(g: seq<Tile>, h: nat, w: nat, n: nat)
    requires |g| == h * w && n <= h * w
    requires forall k :: 0 <= k < h * w ==> Step(g, h, w, k) == g
    ensures SweepTo(g, h, w, n) == g
  {
    if n > 0 {
      SweepToFixpoint(g, h, w, n - 1);
      SweepToUnfold(g, h, w, n);
    }
  }

  /** A fresh grid is left as it is by the sweep. */
  lemma SweepFresh(h: nat, w: nat)
    ensures Sweep(FreshGrid(h * w), h, w) == FreshGrid(h * w)
  {
    var g := FreshGrid(h * w);
    forall k | 0 <= k < h * w ensures Step(g, h, w, k) == g {
      StepFresh(h, w, k);
    }
    SweepToFixpoint(g, h, w, h * w);
  }
}
