/**
 * One cell of the grid: whether it has been collapsed, and the list of
 * states still possible for it.
 */
module Tiles {
  import opened Rules

  /** A cell. A fresh cell is uncollapsed and allows every state. */
  datatype Tile = Tile(Collapsed: bool, Possible: seq<int>)

  /** Every element of the list is a state. */
  predicate StateList(p: seq<int>)
  {
    forall s :: s in p ==> IsState(s)
  }

  /** Strictly increasing, hence duplicate-free and ordered as BLANK .. LEFT. */
  predicate Increasing(p: seq<int>)
  {
    forall a, b :: 0 <= a < b < |p| ==> p[a] < p[b]
  }

  predicate SubsetOf(a: seq<int>, b: seq<int>)
  {
    forall x :: x in a ==> x in b
  }

  /**
   * What every cell satisfies throughout a run: its possibilities are
   * states, listed once each in state order, and a collapsed cell has
   * exactly one.
   */
  predicate ValidTile(t: Tile)
  {
    StateList(t.Possible) && Increasing(t.Possible) && (t.Collapsed ==> |t.Possible| == 1)
  }

  /** The cell as the solver creates it. */
  function NewTile(): (t: Tile)
    ensures !t.Collapsed && ValidTile(t)
    ensures forall s :: s in t.Possible <==> IsState(s)
  {
    Tile(false, ALL_STATES)
  }

  /** The cell after it has been forced to state s. */
  function CollapseTo(s: int): (t: Tile)
    requires IsState(s)
    ensures t.Collapsed && ValidTile(t) && t.Possible == [s]
  {
    Tile(true, [s])
  }

  lemma {:induction false} AtLeastIndex(p: seq<int>, k: int)
    requires StateList(p) && Increasing(p) && 0 <= k < |p|
    ensures p[k] >= k
  {
    if k > 0 {
      AtLeastIndex(p, k - 1);
    } else {
      assert p[0] in p;
    }
  }

  /** A possibility list never holds more than the five states. */
  lemma PossibleBound(p: seq<int>)
    requires StateList(p) && Increasing(p)
    ensures |p| <= STATE_COUNT
  {
    if |p| > 0 {
      AtLeastIndex(p, |p| - 1);
      assert p[|p| - 1] in p;
    }
  }

  lemma HeadIsMember(a: seq<int>)
    requires a != []
    ensures a[0] in a
  {
  }

  /** The head of an increasing list is its least element. */
  lemma HeadIsLeast(a: seq<int>, x: int)
    requires Increasing(a) && x in a
    ensures a[0] <= x
    ensures x in a[1..] ==> a[0] < x
  {
    var i :| 0 <= i < |a| && a[i] == x;
    if x in a[1..] {
      var k :| 0 <= k < |a[1..]| && a[1..][k] == x;
      assert a[k + 1] == x;
    }
  }

  lemma ConsIncreasing(x: int, s: seq<int>)
    requires Increasing(s) && forall y :: y in s ==> x < y
    ensures Increasing([x] + s)
  {
    forall a, b | 0 <= a < b < |[x] + s| ensures ([x] + s)[a] < ([x] + s)[b] {
      assert s[b - 1] in s;
    }
  }

  lemma SnocIncreasing(s: seq<int>, x: int)
    requires Increasing(s) && forall y :: y in s ==> y < x
    ensures Increasing(s + [x])
  {
    forall a, b | 0 <= a < b < |s + [x]| ensures (s + [x])[a] < (s + [x])[b] {
      assert s[a] in s;
    }
  }

  /** Two increasing lists with the same elements are the same list. */
  lemma {:induction false} IncreasingUnique(a: seq<int>, b: seq<int>)
    requires Increasing(a) && Increasing(b)
    requires forall x :: x in a <==> x in b
    ensures a == b
  {
    if a != [] {
      assert a[0] in a;
      assert b[0] in b;
      HeadIsLeast(a, b[0]);
      HeadIsLeast(b, a[0]);
      assert a == [a[0]] + a[1..];
      assert b == [b[0]] + b[1..];
      forall x ensures x in a[1..] <==> x in b[1..] {
        if x in a[1..] {
          HeadIsLeast(a, x);
          HeadIsLeast(b, x);
        }
        if x in b[1..] {
          HeadIsLeast(b, x);
          HeadIsLeast(a, x);
        }
      }
      IncreasingUnique(a[1..], b[1..]);
    } else if b != [] {
      HeadIsMember(b);
      assert false;
    }
  }
}
