/**
 * The adjacency rule table of the Wave Function Collapse solver: for each of
 * the five tile states and each of the four directions, the list of states
 * allowed in the neighbour lying in that direction.
 */
module Rules {

  const BLANK := 0
  const UP := 1
  const RIGHT := 2
  const DOWN := 3
  const LEFT := 4

  /** The states are 0 .. STATE_COUNT - 1. */
  const STATE_COUNT := 5

  /** Every state, in the order BLANK, UP, RIGHT, DOWN, LEFT. */
  const ALL_STATES: seq<int> := [BLANK, UP, RIGHT, DOWN, LEFT]

  predicate IsState(s: int) { 0 <= s < STATE_COUNT }

  /**
   * Directions index the inner lists of the table: 0 = up, 1 = right,
   * 2 = down, 3 = left. The solver looks a direction up as the state
   * constant of the same name minus one (DOWN - 1 == 2, and so on).
   */
  predicate IsDirection(d: int) { 0 <= d < 4 }

  /**
   * RULES[s][d] lists the states that may sit next to a cell in state s,
   * on its side d. The table is literal data, indexed by state as the
   * source's dictionary is keyed by state.
   */
  const RULES: seq<seq<seq<int>>> := [
    /* BLANK */ [[BLANK, UP], [BLANK, RIGHT], [BLANK, DOWN], [BLANK, LEFT]],
    /* UP    */ [[RIGHT, DOWN, LEFT], [UP, DOWN, LEFT], [BLANK, DOWN], [UP, DOWN, RIGHT]],
    /* RIGHT */ [[RIGHT, DOWN, LEFT], [UP, DOWN, LEFT], [UP, RIGHT, LEFT], [BLANK, LEFT]],
    /* DOWN  */ [[BLANK, UP], [UP, LEFT, DOWN], [UP, RIGHT, LEFT], [UP, RIGHT, DOWN]],
    /* LEFT  */ [[LEFT, DOWN, RIGHT], [BLANK, RIGHT], [LEFT, UP, RIGHT], [UP, RIGHT, DOWN]]
  ]

  /** The direction pointing back: up and down, right and left. */
  function Opposite(d: int): (e: int)
    requires IsDirection(d)
    ensures IsDirection(e) && (e == d + 2 || e == d - 2)
  {
    (d + 2) % 4
  }

  /** The table is complete and closed: five states, four lists each, every entry a state. */
  lemma TableWellFormed()
    ensures |RULES| == STATE_COUNT
    ensures forall s :: IsState(s) ==> |RULES[s]| == 4
    ensures forall s, d, x :: IsState(s) && IsDirection(d) && x in RULES[s][d] ==> IsState(x)
    ensures forall s, d :: IsState(s) && IsDirection(d) ==> RULES[s][d] != []
  {
  }

  /**
   * The side the solver reads for each neighbour is the one facing back:
   * the cell above is read on its down side, the cell to the right on its
   * left side, and so on, as the lookups DOWN - 1, LEFT - 1, UP - 1 and
   * RIGHT - 1 write it.
   */
  lemma FacingSides()
    ensures Opposite(UP - 1) == DOWN - 1 && Opposite(RIGHT - 1) == LEFT - 1
    ensures Opposite(DOWN - 1) == UP - 1 && Opposite(LEFT - 1) == RIGHT - 1
  {
  }

  /**
   * The table is reciprocal as written: b may lie on side d of a exactly when
   * a may lie on the opposite side of b. The solver never checks this; it
   * holds of the literal data.
   */
  lemma Reciprocal(a: int, b: int, d: int)
    requires IsState(a) && IsState(b) && IsDirection(d)
    ensures b in RULES[a][d] <==> a in RULES[b][Opposite(d)]
  {
  }

  /**
   * Every state is allowed on every side by some state: the union of any
   * column of the table is the whole state set.
   */
  lemma ColumnCovers(d: int, o: int)
    requires IsDirection(d) && IsState(o)
    ensures exists s :: s in ALL_STATES && o in RULES[s][d]
  {
    var s := if o in RULES[BLANK][d] then BLANK else if d == 2 then RIGHT else UP;
    assert s in ALL_STATES && o in RULES[s][d];
  }
}
