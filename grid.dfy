/**
 * Positions on a rectangular character grid, orthogonal adjacency and walks.
 * Shared by the city maps of UninformedSearch.py / InformedSearch.py and the
 * maze of Activity1.py: in all three a cell is a `(row, col)` tuple and a cell
 * is open when it lies inside the grid and does not hold `'#'`.
 */
module Grid {

  /** A cell coordinate `(row, col)`. */
  type Pos = (int, int)

  /** Every row has the length of row 0, the Python `COLS = len(city[0])`. */
  predicate Rectangular(g: seq<string>)
  {
    |g| > 0 && forall i :: 0 <= i < |g| ==> |g[i]| == |g[0]|
  }

  /** A list of rows, one character per cell. */
  type Map = g: seq<string> | Rectangular(g) witness ["."]

  predicate InBounds(g: Map, p: Pos)
  {
    0 <= p.0 < |g| && 0 <= p.1 < |g[0]|
  }

  /** `is_valid(r, c)`: inside the grid and not a wall. */
  predicate IsValid(g: Map, p: Pos)
  {
    InBounds(g, p) && g[p.0][p.1] != '#'
  }

  function Add(p: Pos, d: Pos): Pos
  {
    (p.0 + d.0, p.1 + d.1)
  }

  function Abs(x: int): nat
  {
    if x < 0 then -x else x
  }

  /** `abs(x - g0) + abs(y - g1)`. */
  function Manhattan(a: Pos, b: Pos): nat
  {
    Abs(a.0 - b.0) + Abs(a.1 - b.1)
  }

  /** Tuple order on positions: row first, then column. */
  predicate PosLt(a: Pos, b: Pos)
  {
    a.0 < b.0 || (a.0 == b.0 && a.1 < b.1)
  }

  /** One unit step up, down, left or right. */
  predicate Adjacent(a: Pos, b: Pos)
  {
    Manhattan(a, b) == 1
  }

  /** The four unit offsets; every move list of the sources is an ordering of these. */
  const Offsets: set<Pos> := {(0, 1), (1, 0), (0, -1), (-1, 0)}

  lemma AdjacentIsOffset(a: Pos, b: Pos)
    ensures Adjacent(a, b) <==> (b.0 - a.0, b.1 - a.1) in Offsets
    ensures Adjacent(a, b) ==> b == Add(a, (b.0 - a.0, b.1 - a.1))
  {
  }

  /**
   * A walk through open cells: consecutive cells are adjacent and every cell
   * entered is open (the first cell is where the search starts and is not
   * checked, as in the sources).
   */
  ghost predicate IsWalk(g: Map, path: seq<Pos>)
  {
    |path| >= 1 &&
    forall i :: 1 <= i < |path| ==> Adjacent(path[i - 1], path[i]) && IsValid(g, path[i])
  }

  lemma WalkPrefix(g: Map, path: seq<Pos>, n: nat)
    requires IsWalk(g, path) && 1 <= n <= |path|
    ensures IsWalk(g, path[..n])
  {
  }

  lemma WalkExtend(g: Map, path: seq<Pos>, p: Pos)
    requires IsWalk(g, path) && Adjacent(path[|path| - 1], p) && IsValid(g, p)
    ensures IsWalk(g, path + [p])
  {
  }

  /** Manhattan distance changes by at most one per step of a walk. */
  lemma ManhattanStep(a: Pos, b: Pos, t: Pos)
    requires Adjacent(a, b)
    ensures Manhattan(a, t) <= Manhattan(b, t) + 1
    ensures Manhattan(b, t) <= Manhattan(a, t) + 1
  {
  }

  /** A walk of `k` moves covers a Manhattan distance of at most `k`. */
  lemma {:induction false} WalkCoversManhattan(g: Map, path: seq<Pos>, i: nat, j: nat)
    requires IsWalk(g, path) && i <= j < |path|
    ensures Manhattan(path[i], path[j]) <= j - i
  {
    if i < j {
      WalkCoversManhattan(g, path, i, j - 1);
      ManhattanStep(path[j - 1], path[j], path[i]);
    }
  }
}
