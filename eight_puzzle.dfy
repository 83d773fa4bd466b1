/**
 * The 8-puzzle of 8Puzzle.py: 3x3 boards of tiles with 0 as the blank, the
 * helpers `board_to_string`, `find_blank`, `swap` and `is_goal`, and the two
 * searches `bfs_limited` and `dfs_limited`. Both searches stop at the goal,
 * do not expand a board whose depth has reached `max_depth`, stop after 1000
 * pops, and keep a `visited` set of board strings that a board must be absent
 * from before it is pushed.
 */
module EightPuzzle {
  import opened Wrappers
  import opened Collections

  type Tile = nat

  /** A board: three rows of three tiles. */
  type Board = b: seq<seq<Tile>> | |b| == 3 && |b[0]| == 3 && |b[1]| == 3 && |b[2]| == 3
    witness [[0, 0, 0], [0, 0, 0], [0, 0, 0]]

  predicate InBoard(x: int, y: int)
  {
    0 <= x < 3 && 0 <= y < 3
  }

  /** The tiles in row-major order. */
  function Flatten(b: Board): (cells: seq<Tile>)
    ensures |cells| == 9
    ensures forall i, j :: InBoard(i, j) ==> cells[3 * i + j] == b[i][j]
  {
    b[0] + b[1] + b[2]
  }

  /** Two boards with the same row-major tiles are equal. */
  lemma FlattenInjective(a: Board, b: Board)
    requires Flatten(a) == Flatten(b)
    ensures a == b
  {
    forall i | 0 <= i < 3
      ensures a[i] == b[i]
    {
      forall j | 0 <= j < 3
        ensures a[i][j] == b[i][j]
      {
        assert Flatten(a)[3 * i + j] == a[i][j];
      }
    }
  }

  // ---------------- board_to_string ----------------

  function DigitChar(n: nat): (c: char)
    requires n < 10
    ensures '0' <= c <= '9'
  {
    (48 + n) as char
  }

  /** `str(n)`: the decimal numeral of `n`, without leading zeros. */
  function Decimal(n: nat): (s: string)
    ensures |s| >= 1
    ensures n < 10 <==> |s| == 1
    ensures n < 10 ==> s == [DigitChar(n)]
  {
    if n < 10 then [DigitChar(n)] else Decimal(n / 10) + [DigitChar(n % 10)]
  }

  /** The cell at row-major index `k`. */
  function Cell(b: Board, k: nat): Tile
    requires k < 9
  {
    b[k / 3][k % 3]
  }

  /**
   * The numerals of the first `n` cells in row-major order, the order of the
   * nested `for row in board for cell in row` comprehension.
   */
  function CellsString(b: Board, n: nat): (s: string)
    requires n <= 9
    ensures |s| >= n
  {
    if n == 0 then "" else CellsString(b, n - 1) + Decimal(Cell(b, n - 1))
  }

  /** `board_to_string(board)`: the numerals of the tiles, row by row; at least one character per cell. */
  function BoardToString(b: Board): (s: string)
    ensures |s| >= 9
  {
    CellsString(b, 9)
  }

  /** Every tile is a single digit, as in the boards of the demo. */
  ghost predicate Digits(b: Board)
  {
    forall i, j :: InBoard(i, j) ==> b[i][j] < 10
  }

  /** For single-digit tiles, the first `n` cells give exactly `n` characters, one per cell. */
  lemma {:induction false} CellsDigits(b: Board, n: nat)
    requires Digits(b) && n <= 9
    ensures |CellsString(b, n)| == n
    ensures forall k :: 0 <= k < n ==> CellsString(b, n)[k] == DigitChar(Cell(b, k))
  {
    if n > 0 {
      CellsDigits(b, n - 1);
      assert Cell(b, n - 1) == b[(n - 1) / 3][(n - 1) % 3];
    }
  }

  /** For single-digit boards the string has nine characters, one per cell in row-major order. */
  lemma BoardString(b: Board)
    requires Digits(b)
    ensures |BoardToString(b)| == 9
    ensures forall i, j :: InBoard(i, j) ==> BoardToString(b)[3 * i + j] == DigitChar(b[i][j])
  {
    CellsDigits(b, 9);
    forall i, j | InBoard(i, j)
      ensures BoardToString(b)[3 * i + j] == DigitChar(b[i][j])
    {
      assert Cell(b, 3 * i + j) == b[i][j];
    }
  }

  /** For single-digit boards `board_to_string` is injective, so `visited` tells boards apart. */
  lemma BoardStringInjective(a: Board, b: Board)
    requires Digits(a) && Digits(b) && BoardToString(a) == BoardToString(b)
    ensures a == b
  {
    BoardString(a);
    BoardString(b);
    forall i | 0 <= i < 3
      ensures a[i] == b[i]
    {
      forall j | 0 <= j < 3
        ensures a[i][j] == b[i][j]
      {
        assert DigitChar(a[i][j]) == BoardToString(a)[3 * i + j];
      }
    }
  }

  // ---------------- find_blank, swap, is_goal ----------------

  /** Cell `a` comes before cell `c` in row-major order. */
  predicate Before(a: (int, int), c: (int, int))
  {
    a.0 < c.0 || (a.0 == c.0 && a.1 < c.1)
  }

  /** The first blank at or after cell `(i, j)` in row-major order (`i == 3` past the end). */
  function BlankFrom(b: Board, i: int, j: int): (r: Option<(int, int)>)
    requires 0 <= i <= 3 && 0 <= j < 3
    ensures r.Some? ==> InBoard(r.value.0, r.value.1) && b[r.value.0][r.value.1] == 0 && !Before(r.value, (i, j))
    ensures r.Some? ==> forall i', j' :: InBoard(i', j') && !Before((i', j'), (i, j)) && Before((i', j'), r.value) ==> b[i'][j'] != 0
    ensures r.None? ==> forall i', j' :: InBoard(i', j') && !Before((i', j'), (i, j)) ==> b[i'][j'] != 0
    decreases 3 - i, 3 - j
  {
    if i == 3 then None
    else if b[i][j] == 0 then Some((i, j))
    else if j < 2 then BlankFrom(b, i, j + 1)
    else BlankFrom(b, i + 1, 0)
  }

  /** The blank's cell: the first 0 in row-major order, or None on a board without one. */
  function Blank(b: Board): (r: Option<(int, int)>)
    ensures r.Some? ==> InBoard(r.value.0, r.value.1) && b[r.value.0][r.value.1] == 0
    ensures r.Some? ==> forall i, j :: InBoard(i, j) && Before((i, j), r.value) ==> b[i][j] != 0
    ensures r.None? <==> forall i, j :: InBoard(i, j) ==> b[i][j] != 0
  {
    BlankFrom(b, 0, 0)
  }

  /** `find_blank(board)`: the nested row and column scan. */
  method FindBlank(b: Board) returns (r: Option<(int, int)>)
    ensures r == Blank(b)
  {
    for i := 0 to 3
      invariant BlankFrom(b, i, 0) == Blank(b)
    {
      for j := 0 to 3
        invariant j < 3 ==> BlankFrom(b, i, j) == Blank(b)
        invariant j == 3 ==> BlankFrom(b, i + 1, 0) == Blank(b)
      {
        if b[i][j] == 0 {
          return Some((i, j));
        }
      }
    }
    return None;
  }

  /** `swap(board, x1, y1, x2, y2)`: a copy of the board with the two cells exchanged. */
  function Swap(b: Board, x1: int, y1: int, x2: int, y2: int): (nb: Board)
    requires InBoard(x1, y1) && InBoard(x2, y2)
    ensures nb[x1][y1] == b[x2][y2] && nb[x2][y2] == b[x1][y1]
    ensures forall i, j :: InBoard(i, j) && (i, j) != (x1, y1) && (i, j) != (x2, y2) ==> nb[i][j] == b[i][j]
  {
    var v1, v2 := b[x1][y1], b[x2][y2];
    var r := b[x1 := b[x1][y1 := v2]];
    r[x2 := r[x2][y2 := v1]]
  }

  /** Swapping the same two cells again restores the board. */
  lemma SwapTwice(b: Board, x1: int, y1: int, x2: int, y2: int)
    requires InBoard(x1, y1) && InBoard(x2, y2)
    ensures Swap(Swap(b, x1, y1, x2, y2), x1, y1, x2, y2) == b
  {
    var nb := Swap(Swap(b, x1, y1, x2, y2), x1, y1, x2, y2);
    forall i | 0 <= i < 3
      ensures nb[i] == b[i]
    {
      assert forall j :: 0 <= j < 3 ==> nb[i][j] == b[i][j];
    }
  }

  /** The tiles of a board, row by row. */
  ghost function Tiles(b: Board): multiset<Tile>
  {
    multiset(b[0]) + multiset(b[1]) + multiset(b[2])
  }

  lemma TilesFlatten(b: Board)
    ensures Tiles(b) == multiset(Flatten(b))
  {
  }

  /** Writing `v` into one cell replaces that cell's tile in the multiset. */
  lemma TilesUpdate(b: Board, x: int, y: int, v: Tile, nb: Board)
    requires InBoard(x, y) && nb[x] == b[x][y := v]
    requires forall i :: 0 <= i < 3 && i != x ==> nb[i] == b[i]
    ensures Tiles(nb) == Tiles(b) - multiset{b[x][y]} + multiset{v}
  {
    assert multiset(nb[x]) == multiset(b[x]) - multiset{b[x][y]} + multiset{v};
    assert b[x][y] in multiset(b[x]);
  }

  /** Replacing `a` by `c` and then `c` by `a` gives the multiset back. */
  lemma ReplaceBack(m: multiset<Tile>, a: Tile, c: Tile)
    requires a in m
    ensures m - multiset{a} + multiset{c} - multiset{c} + multiset{a} == m
  {
    var r := m - multiset{a} + multiset{c} - multiset{c} + multiset{a};
    forall x
      ensures r[x] == m[x]
    {
    }
  }

  /** `swap` as two single-cell writes through the intermediate board `r`. */
  lemma SwapWrites(b: Board, x1: int, y1: int, x2: int, y2: int) returns (r: Board)
    requires InBoard(x1, y1) && InBoard(x2, y2)
    ensures r[x1] == b[x1][y1 := b[x2][y2]] && forall i :: 0 <= i < 3 && i != x1 ==> r[i] == b[i]
    ensures r[x2][y2] == b[x2][y2]
    ensures var nb := Swap(b, x1, y1, x2, y2);
      nb[x2] == r[x2][y2 := b[x1][y1]] && forall i :: 0 <= i < 3 && i != x2 ==> nb[i] == r[i]
  {
    r := b[x1 := b[x1][y1 := b[x2][y2]]];
  }

  /** Swapping keeps the multiset of tiles. */
  lemma SwapTiles(b: Board, x1: int, y1: int, x2: int, y2: int)
    requires InBoard(x1, y1) && InBoard(x2, y2)
    ensures multiset(Flatten(Swap(b, x1, y1, x2, y2))) == multiset(Flatten(b))
  {
    var r := SwapWrites(b, x1, y1, x2, y2);
    TilesUpdate(b, x1, y1, b[x2][y2], r);
    TilesUpdate(r, x2, y2, b[x1][y1], Swap(b, x1, y1, x2, y2));
    assert b[x1][y1] in multiset(b[x1]);
    ReplaceBack(Tiles(b), b[x1][y1], b[x2][y2]);
    TilesFlatten(b);
    TilesFlatten(Swap(b, x1, y1, x2, y2));
  }

  /** `is_goal(board, goal)`: list equality, which holds exactly when every cell agrees. */
  predicate IsGoal(b: Board, goal: Board): (r: bool)
    ensures r <==> forall i, j :: InBoard(i, j) ==> b[i][j] == goal[i][j]
  {
    assert (forall i, j :: InBoard(i, j) ==> b[i][j] == goal[i][j]) ==> b == goal by {
      if forall i, j :: InBoard(i, j) ==> b[i][j] == goal[i][j] {
        assert forall i :: 0 <= i < 3 ==> b[i] == goal[i];
      }
    }
    b == goal
  }

  // ---------------- Moves of the blank ----------------

  /** `moves`: down, up, right, left. */
  const Moves: seq<(int, int)> := [(1, 0), (-1, 0), (0, 1), (0, -1)]

  /** The blank can move by `Moves[k]` without leaving the board. */
  predicate CanMove(b: Board, k: nat)
    requires k < |Moves|
  {
    Blank(b).Some? && InBoard(Blank(b).value.0 + Moves[k].0, Blank(b).value.1 + Moves[k].1)
  }

  /** The board after moving the blank by `Moves[k]`. */
  function Move(b: Board, k: nat): Board
    requires k < |Moves| && CanMove(b, k)
  {
    var (x, y) := Blank(b).value;
    Swap(b, x, y, x + Moves[k].0, y + Moves[k].1)
  }

  /**
   * A move carries the blank to an orthogonally adjacent cell inside the
   * board, puts the tile from there where the blank was, and leaves every
   * other cell alone.
   */
  lemma MoveShiftsBlank(b: Board, k: nat)
    requires k < |Moves| && CanMove(b, k)
    ensures var (x, y) := Blank(b).value;
      var (nx, ny) := (x + Moves[k].0, y + Moves[k].1);
      InBoard(nx, ny) && (nx - x) * (nx - x) + (ny - y) * (ny - y) == 1 &&
      Move(b, k)[nx][ny] == 0 && Move(b, k)[x][y] == b[nx][ny] &&
      forall i, j :: InBoard(i, j) && (i, j) != (x, y) && (i, j) != (nx, ny) ==> Move(b, k)[i][j] == b[i][j]
  {
  }

  /** The board after moving the blank by `Moves[ks[0]]`, `Moves[ks[1]]`, ... from `start`, or None at an illegal move. */
  function Apply(start: Board, ks: seq<nat>): Option<Board>
  {
    if ks == [] then Some(start)
    else match Apply(start, ks[..|ks| - 1])
      case None => None
      case Some(b) =>
        var k := ks[|ks| - 1];
        if k < |Moves| && CanMove(b, k) then Some(Move(b, k)) else None
  }

  /** `b` is reachable from `start` in exactly `d` moves. */
  ghost predicate ReachIn(start: Board, b: Board, d: nat)
  {
    exists ks :: |ks| == d && Apply(start, ks) == Some(b)
  }

  /** Extending a move sequence by one more legal move. */
  lemma ApplyExtend(start: Board, ks: seq<nat>, b: Board, k: nat)
    requires Apply(start, ks) == Some(b) && k < |Moves| && CanMove(b, k)
    ensures Apply(start, ks + [k]) == Some(Move(b, k))
  {
    assert (ks + [k])[..|ks|] == ks;
  }

  /** The last move of a legal sequence. */
  lemma ApplyLast(start: Board, ks: seq<nat>, b: Board) returns (p: Board, k: nat)
    requires |ks| > 0 && Apply(start, ks) == Some(b)
    ensures Apply(start, ks[..|ks| - 1]) == Some(p) && k < |Moves| && CanMove(p, k) && b == Move(p, k)
  {
    p := Apply(start, ks[..|ks| - 1]).value;
    k := ks[|ks| - 1];
  }

  ghost predicate HasBlank(b: Board)
  {
    0 in multiset(Flatten(b))
  }

  lemma HasBlankIff(b: Board)
    ensures HasBlank(b) <==> Blank(b).Some?
  {
    if HasBlank(b) {
      var k :| 0 <= k < 9 && Flatten(b)[k] == 0;
      var i := if k < 3 then 0 else if k < 6 then 1 else 2;
      assert Flatten(b)[3 * i + (k - 3 * i)] == b[i][k - 3 * i];
    }
  }

  /** A move keeps the tiles. */
  lemma MoveTiles(p: Board, k: nat)
    requires k < |Moves| && CanMove(p, k)
    ensures multiset(Flatten(Move(p, k))) == multiset(Flatten(p))
  {
    var (x, y) := Blank(p).value;
    SwapTiles(p, x, y, x + Moves[k].0, y + Moves[k].1);
  }

  /** Every reachable board holds the tiles of the start board. */
  lemma {:induction false} ApplyTiles(start: Board, ks: seq<nat>, b: Board)
    requires Apply(start, ks) == Some(b)
    ensures multiset(Flatten(b)) == multiset(Flatten(start))
    decreases |ks|
  {
    if ks != [] {
      var p, k := ApplyLast(start, ks, b);
      ApplyTiles(start, ks[..|ks| - 1], p);
      MoveTiles(p, k);
    }
  }

  /** Single-digit boards are those whose row-major tiles are all below ten. */
  lemma DigitsFlatten(b: Board)
    ensures Digits(b) <==> forall k :: 0 <= k < 9 ==> Flatten(b)[k] < 10
  {
    if Digits(b) {
      forall k | 0 <= k < 9
        ensures Flatten(b)[k] < 10
      {
        var i := if k < 3 then 0 else if k < 6 then 1 else 2;
        assert Flatten(b)[3 * i + (k - 3 * i)] == b[i][k - 3 * i];
      }
    }
    if forall k :: 0 <= k < 9 ==> Flatten(b)[k] < 10 {
      forall i, j | InBoard(i, j)
        ensures b[i][j] < 10
      {
        assert Flatten(b)[3 * i + j] == b[i][j];
      }
    }
  }

  /** Boards with the same tiles agree on having a blank and on being single-digit. */
  lemma SameTiles(a: Board, b: Board)
    requires multiset(Flatten(a)) == multiset(Flatten(b))
    ensures HasBlank(a) <==> HasBlank(b)
    ensures Digits(a) <==> Digits(b)
  {
    DigitsFlatten(a);
    DigitsFlatten(b);
    if Digits(a) {
      forall k | 0 <= k < 9
        ensures Flatten(b)[k] < 10
      {
        assert Flatten(b)[k] in multiset(Flatten(a));
      }
    }
    if Digits(b) {
      forall k | 0 <= k < 9
        ensures Flatten(a)[k] < 10
      {
        assert Flatten(a)[k] in multiset(Flatten(b));
      }
    }
  }

  // ---------------- Expanding one board ----------------

  datatype Node = Node(board: Board, depth: nat)

  /**
   * The first `k` rounds of the `for dx, dy in moves` loop from the blank at
   * `(x, y)`: each in-bounds swap whose string is not yet visited is marked
   * and queued one level deeper.
   */
  function Spread(cur: Board, x: int, y: int, d: nat, visited: set<string>, todo: seq<Node>, k: nat)
    : (set<string>, seq<Node>)
    requires InBoard(x, y) && k <= |Moves|
  {
    if k == 0 then (visited, todo)
    else
      var (v, t) := Spread(cur, x, y, d, visited, todo, k - 1);
      var (nx, ny) := (x + Moves[k - 1].0, y + Moves[k - 1].1);
      if InBoard(nx, ny) && BoardToString(Swap(cur, x, y, nx, ny)) !in v then
        (v + {BoardToString(Swap(cur, x, y, nx, ny))}, t + [Node(Swap(cur, x, y, nx, ny), d + 1)])
      else (v, t)
  }

  /** One more move of the loop: `Spread` over `k + 1` moves in terms of `Spread` over `k`. */
  lemma SpreadStep(cur: Board, x: int, y: int, d: nat, visited: set<string>, todo: seq<Node>, k: nat)
    requires InBoard(x, y) && k < |Moves|
    ensures var (v, t) := Spread(cur, x, y, d, visited, todo, k);
      var (nx, ny) := (x + Moves[k].0, y + Moves[k].1);
      Spread(cur, x, y, d, visited, todo, k + 1) ==
        if InBoard(nx, ny) && BoardToString(Swap(cur, x, y, nx, ny)) !in v then
          (v + {BoardToString(Swap(cur, x, y, nx, ny))}, t + [Node(Swap(cur, x, y, nx, ny), d + 1)])
        else (v, t)
  {
  }

  /** The inner loop of `bfs_limited` and `dfs_limited`. */
  method Expand(cur: Board, x: int, y: int, d: nat, visited: set<string>, todo: seq<Node>)
    returns (visited': set<string>, todo': seq<Node>)
    requires InBoard(x, y)
    ensures (visited', todo') == Spread(cur, x, y, d, visited, todo, |Moves|)
  {
    visited', todo' := visited, todo;
    for k := 0 to |Moves|
      invariant (visited', todo') == Spread(cur, x, y, d, visited, todo, k)
    {
      var newX, newY := x + Moves[k].0, y + Moves[k].1;
      if 0 <= newX < 3 && 0 <= newY < 3 {
        var newBoard := Swap(cur, x, y, newX, newY);
        var newStr := BoardToString(newBoard);
        if newStr !in visited' {
          visited' := visited' + {newStr};
          todo' := todo' + [Node(newBoard, d + 1)];
        }
      }
      SpreadStep(cur, x, y, d, visited, todo, k);
    }
  }

  /** The entries of `t` past `|todo|`: what a call to Spread queued. */
  ghost predicate Queued(todo: seq<Node>, t: seq<Node>)
  {
    |todo| <= |t| && forall i :: 0 <= i < |todo| ==> t[i] == todo[i]
  }

  /** The old queue is a prefix of `t`; new entries are one level deeper, with strings newly visited. */
  ghost predicate Fresh(visited: set<string>, d: nat, todo: seq<Node>, v: set<string>, t: seq<Node>)
  {
    Queued(todo, t) && visited <= v &&
    forall i :: |todo| <= i < |t| ==>
      (t[i].depth == d + 1 && BoardToString(t[i].board) !in visited && BoardToString(t[i].board) in v)
  }

  /** No string is queued twice, and every newly visited string was queued. */
  ghost predicate FreshDistinct(visited: set<string>, todo: seq<Node>, v: set<string>, t: seq<Node>)
  {
    (forall i, i' :: |todo| <= i < i' < |t| ==> BoardToString(t[i].board) != BoardToString(t[i'].board)) &&
    (forall s :: s in v ==> s in visited || exists i :: |todo| <= i < |t| && s == BoardToString(t[i].board))
  }

  /** The old queue is a prefix; new entries are one level deeper, with strings newly visited. */
  lemma {:induction false} SpreadQueues(cur: Board, x: int, y: int, d: nat, visited: set<string>, todo: seq<Node>, k: nat)
    requires InBoard(x, y) && k <= |Moves|
    ensures var (v, t) := Spread(cur, x, y, d, visited, todo, k); Fresh(visited, d, todo, v, t)
  {
    if k > 0 {
      SpreadQueues(cur, x, y, d, visited, todo, k - 1);
    }
  }

  /** No string is queued twice in one expansion, and every newly visited string was queued. */
  lemma {:induction false} SpreadDistinct(cur: Board, x: int, y: int, d: nat, visited: set<string>, todo: seq<Node>, k: nat)
    requires InBoard(x, y) && k <= |Moves|
    ensures var (v, t) := Spread(cur, x, y, d, visited, todo, k); FreshDistinct(visited, todo, v, t)
  {
    if k > 0 {
      SpreadDistinct(cur, x, y, d, visited, todo, k - 1);
      SpreadQueues(cur, x, y, d, visited, todo, k - 1);
      var (v1, t1) := Spread(cur, x, y, d, visited, todo, k - 1);
      var (nx, ny) := (x + Moves[k - 1].0, y + Moves[k - 1].1);
      if InBoard(nx, ny) && BoardToString(Swap(cur, x, y, nx, ny)) !in v1 {
        DistinctStep(visited, d, todo, v1, t1, Swap(cur, x, y, nx, ny));
      }
    }
  }

  /** Queueing one board whose string is not yet visited keeps the strings distinct and accounted for. */
  lemma DistinctStep(visited: set<string>, d: nat, todo: seq<Node>, v: set<string>, t: seq<Node>, b: Board)
    requires Fresh(visited, d, todo, v, t) && FreshDistinct(visited, todo, v, t) && BoardToString(b) !in v
    ensures FreshDistinct(visited, todo, v + {BoardToString(b)}, t + [Node(b, d + 1)])
  {
    var v', t' := v + {BoardToString(b)}, t + [Node(b, d + 1)];
    forall s | s in v'
      ensures s in visited || exists i :: |todo| <= i < |t'| && s == BoardToString(t'[i].board)
    {
      if s in v && s !in visited {
        var i :| |todo| <= i < |t| && s == BoardToString(t[i].board);
        assert t'[i] == t[i];
      } else if s !in v {
        assert s == BoardToString(t'[|t|].board);
      }
    }
  }

  /** The cell the blank at `(x, y)` moves to under `Moves[j]`. */
  function Target(x: int, y: int, j: nat): (int, int)
    requires j < |Moves|
  {
    (x + Moves[j].0, y + Moves[j].1)
  }

  /** `b` is the swap of the blank at `(x, y)` with its in-bounds neighbour in one of the first `k` directions. */
  ghost predicate SwapOf(cur: Board, x: int, y: int, b: Board, k: nat)
    requires InBoard(x, y) && k <= |Moves|
  {
    exists j :: 0 <= j < k && InBoard(Target(x, y, j).0, Target(x, y, j).1) &&
      (b == Swap(cur, x, y, Target(x, y, j).0, Target(x, y, j).1))
  }

  /** Every queued board is a swap of the blank with an in-bounds neighbour. */
  lemma {:induction false} SpreadMoves(cur: Board, x: int, y: int, d: nat, visited: set<string>, todo: seq<Node>, k: nat)
    requires InBoard(x, y) && k <= |Moves|
    ensures var (v, t) := Spread(cur, x, y, d, visited, todo, k);
      forall i :: |todo| <= i < |t| ==> SwapOf(cur, x, y, t[i].board, k)
  {
    if k > 0 {
      SpreadMoves(cur, x, y, d, visited, todo, k - 1);
      var (v1, t1) := Spread(cur, x, y, d, visited, todo, k - 1);
      assert var (v2, t2) := Spread(cur, x, y, d, visited, todo, k - 1);
        forall i :: |todo| <= i < |t2| ==> SwapOf(cur, x, y, t2[i].board, k - 1);
      assert forall i :: |todo| <= i < |t1| ==> SwapOf(cur, x, y, t1[i].board, k - 1);
      var (v, t) := Spread(cur, x, y, d, visited, todo, k);
      forall i | |todo| <= i < |t|
        ensures SwapOf(cur, x, y, t[i].board, k)
      {
        if i < |t1| {
          assert t[i] == t1[i];
          assert SwapOf(cur, x, y, t1[i].board, k - 1);
          var j :| 0 <= j < k - 1 && InBoard(Target(x, y, j).0, Target(x, y, j).1) &&
            (t1[i].board == Swap(cur, x, y, Target(x, y, j).0, Target(x, y, j).1));
        } else {
          assert InBoard(Target(x, y, k - 1).0, Target(x, y, k - 1).1) &&
            (t[i].board == Swap(cur, x, y, Target(x, y, k - 1).0, Target(x, y, k - 1).1));
        }
      }
    }
  }

  /** After the first `k` moves, the string of every in-bounds swap among them is visited. */
  lemma {:induction false} SpreadCovers(cur: Board, x: int, y: int, d: nat, visited: set<string>, todo: seq<Node>, k: nat)
    requires InBoard(x, y) && k <= |Moves|
    ensures var (v, t) := Spread(cur, x, y, d, visited, todo, k);
      forall j :: 0 <= j < k && InBoard(Target(x, y, j).0, Target(x, y, j).1) ==>
        BoardToString(Swap(cur, x, y, Target(x, y, j).0, Target(x, y, j).1)) in v
  {
    if k > 0 {
      SpreadCovers(cur, x, y, d, visited, todo, k - 1);
      SpreadQueues(cur, x, y, d, visited, todo, k - 1);
    }
  }

  /** A move of the blank is the swap Spread performs. */
  lemma MoveIsSwap(b: Board, j: nat)
    requires j < |Moves| && Blank(b).Some?
    ensures var (x, y) := Blank(b).value;
      CanMove(b, j) <==> InBoard(Target(x, y, j).0, Target(x, y, j).1)
    ensures CanMove(b, j) ==> var (x, y) := Blank(b).value;
      Move(b, j) == Swap(b, x, y, Target(x, y, j).0, Target(x, y, j).1)
  {
  }

  /** Every board queued past `todo` is a legal move of `cur`. */
  ghost predicate Successors(cur: Board, todo: seq<Node>, t: seq<Node>)
  {
    forall i {:trigger MoveOf(cur, t[i].board)} :: |todo| <= i < |t| ==> MoveOf(cur, t[i].board)
  }

  /** `b` is the board after one legal move of the blank of `cur`. */
  ghost predicate MoveOf(cur: Board, b: Board)
  {
    exists k :: 0 <= k < |Moves| && CanMove(cur, k) && b == Move(cur, k)
  }

  /** The string of every legal move of `cur` is in `v`. */
  ghost predicate Covers(cur: Board, v: set<string>)
  {
    forall k :: 0 <= k < |Moves| && CanMove(cur, k) ==> BoardToString(Move(cur, k)) in v
  }

  /**
   * What one run of the inner loop does, in terms of moves: new entries are
   * one level deeper, newly visited, pairwise distinct legal moves of `cur`,
   * and every legal move of `cur` ends up visited.
   */
  lemma ExpandFacts(cur: Board, d: nat, visited: set<string>, todo: seq<Node>, v: set<string>, t: seq<Node>)
    requires Blank(cur).Some?
    requires (v, t) == Spread(cur, Blank(cur).value.0, Blank(cur).value.1, d, visited, todo, |Moves|)
    ensures Fresh(visited, d, todo, v, t) && FreshDistinct(visited, todo, v, t)
    ensures Successors(cur, todo, t) && Covers(cur, v)
  {
    var (x, y) := Blank(cur).value;
    SpreadQueues(cur, x, y, d, visited, todo, |Moves|);
    SpreadDistinct(cur, x, y, d, visited, todo, |Moves|);
    SpreadMoves(cur, x, y, d, visited, todo, |Moves|);
    SpreadCovers(cur, x, y, d, visited, todo, |Moves|);
    assert forall i :: |todo| <= i < |t| ==> SwapOf(cur, x, y, t[i].board, |Moves|);
    forall i | |todo| <= i < |t|
      ensures MoveOf(cur, t[i].board)
    {
      var j :| 0 <= j < |Moves| && InBoard(Target(x, y, j).0, Target(x, y, j).1) &&
        (t[i].board == Swap(cur, x, y, Target(x, y, j).0, Target(x, y, j).1));
      MoveIsSwap(cur, j);
    }
    forall k | 0 <= k < |Moves| && CanMove(cur, k)
      ensures BoardToString(Move(cur, k)) in v
    {
      MoveIsSwap(cur, k);
    }
  }

  // ---------------- The search invariants ----------------

  /** The strings of the boards seen so far. */
  ghost function Strs(seen: map<Board, nat>): set<string>
  {
    set b | b in seen :: BoardToString(b)
  }

  ghost function Boards(q: seq<Node>): set<Board>
  {
    set i | 0 <= i < |q| :: q[i].board
  }

  /** The seen boards that have left the frontier. */
  ghost function Popped(seen: map<Board, nat>, q: seq<Node>): set<Board>
  {
    seen.Keys - Boards(q)
  }

  /**
   * Shared by both searches. `seen` gives each board whose string is in
   * `visited` the depth at which it was queued: every queued string is
   * marked, no string is queued twice, and each seen board is reachable from
   * the start in that many moves, which never exceeds `max_depth` except for
   * the start itself.
   */
  ghost predicate SearchInv(start: Board, maxDepth: int, q: seq<Node>, visited: set<string>, seen: map<Board, nat>)
  {
    start in seen && seen[start] == 0 &&
    visited == Strs(seen) &&
    (forall i :: 0 <= i < |q| ==> q[i].board in seen && seen[q[i].board] == q[i].depth) &&
    (forall i, j :: 0 <= i < j < |q| ==> BoardToString(q[i].board) != BoardToString(q[j].board)) &&
    (forall b :: b in seen ==> seen[b] == 0 || seen[b] <= maxDepth) &&
    (forall b {:trigger ReachIn(start, b, seen[b])} :: b in seen ==> ReachIn(start, b, seen[b]))
  }

  /** Queue depths never fall and span at most one level. */
  ghost predicate Layered(q: seq<Node>)
  {
    forall i, j :: 0 <= i <= j < |q| ==> q[i].depth <= q[j].depth <= q[0].depth + 1
  }

  /** Every popped board below the depth limit has its moves seen at most one level deeper. */
  ghost predicate Closed(maxDepth: int, seen: map<Board, nat>, popped: set<Board>)
    requires popped <= seen.Keys
  {
    forall v {:trigger MovesSeen(seen, v)} :: v in popped && seen[v] < maxDepth ==> MovesSeen(seen, v)
  }

  /** Every legal move of the seen board `v` is seen at most one level deeper. */
  ghost predicate MovesSeen(seen: map<Board, nat>, v: Board)
    requires v in seen
  {
    forall k :: 0 <= k < |Moves| && CanMove(v, k) ==> Move(v, k) in seen && seen[Move(v, k)] <= seen[v] + 1
  }

  /**
   * The breadth-first part: layered queue, popped boards no deeper than the
   * front, none of them the goal, and, for single-digit boards, closed.
   */
  ghost predicate BfsInv(start: Board, goal: Board, maxDepth: int, q: seq<Node>, visited: set<string>, seen: map<Board, nat>)
  {
    SearchInv(start, maxDepth, q, visited, seen) && Layered(q) &&
    (|q| > 0 ==> forall b :: b in Popped(seen, q) ==> seen[b] <= q[0].depth) &&
    (forall b :: b in Popped(seen, q) ==> b != goal) &&
    (Digits(start) ==> Closed(maxDepth, seen, Popped(seen, q)))
  }

  /** `seen` extended with the boards newly queued at depth `d`. */
  ghost function Deepen(seen: map<Board, nat>, added: set<Board>, d: nat): (seen': map<Board, nat>)
    ensures seen'.Keys == seen.Keys + added
    ensures forall b :: b in seen ==> seen'[b] == seen[b]
    ensures forall b :: b in added && b !in seen ==> seen'[b] == d
  {
    map b | b in seen.Keys + added :: if b in seen then seen[b] else d
  }

  ghost function Added(todo: seq<Node>, t: seq<Node>): set<Board>
  {
    set i | |todo| <= i < |t| :: t[i].board
  }

  lemma SearchInit(start: Board, maxDepth: int, goal: Board)
    ensures BfsInv(start, goal, maxDepth, [Node(start, 0)], {BoardToString(start)}, map[start := 0])
  {
    var seen := map[start := 0];
    assert Apply(start, []) == Some(start);
    assert Strs(seen) == {BoardToString(start)};
    assert [Node(start, 0)][0].board == start;
    assert Boards([Node(start, 0)]) == {start};
    assert Popped(seen, [Node(start, 0)]) == {};
  }

  /** Every seen board has a blank when the start has one, and is single-digit when the start is. */
  lemma SeenTiles(start: Board, maxDepth: int, q: seq<Node>, visited: set<string>, seen: map<Board, nat>, b: Board)
    requires SearchInv(start, maxDepth, q, visited, seen) && b in seen
    ensures HasBlank(b) <==> HasBlank(start)
    ensures Digits(b) <==> Digits(start)
  {
    assert ReachIn(start, b, seen[b]);
    var ks :| |ks| == seen[b] && Apply(start, ks) == Some(b);
    ApplyTiles(start, ks, b);
    SameTiles(b, start);
  }

  /** Every seen board is reached from `start` by at most `maxDepth` moves, or by none. */
  lemma SeenReached(start: Board, maxDepth: int, q: seq<Node>, visited: set<string>, seen: map<Board, nat>, b: Board)
    requires SearchInv(start, maxDepth, q, visited, seen) && b in seen
    ensures exists ks :: (|ks| == 0 || |ks| <= maxDepth) && Apply(start, ks) == Some(b)
  {
    assert ReachIn(start, b, seen[b]);
    var ks :| |ks| == seen[b] && Apply(start, ks) == Some(b);
    assert |ks| == 0 || |ks| <= maxDepth;
  }

  /** `seen'` is `seen` with the boards appended after `rest` seen at depth `d + 1`. */
  ghost predicate Deepened(seen: map<Board, nat>, rest: seq<Node>, t: seq<Node>, d: nat, seen': map<Board, nat>)
  {
    seen' == Deepen(seen, Added(rest, t), d + 1)
  }

  /** The entries an expansion appended after `rest` hold boards outside `seen`. */
  ghost predicate Unseen(seen: map<Board, nat>, rest: seq<Node>, t: seq<Node>)
  {
    forall i :: |rest| <= i < |t| ==> t[i].board !in seen
  }

  /** Boards queued by an expansion were not seen before. */
  lemma StepUnseen(seen: map<Board, nat>, visited: set<string>, d: nat, rest: seq<Node>, v: set<string>, t: seq<Node>)
    requires visited == Strs(seen) && Fresh(visited, d, rest, v, t)
    ensures Unseen(seen, rest, t)
  {
    assert forall b :: b in seen ==> BoardToString(b) in Strs(seen);
  }

  /** After an expansion, `visited` is still exactly the strings of the seen boards. */
  lemma StepStrs(seen: map<Board, nat>, visited: set<string>, d: nat, rest: seq<Node>, v: set<string>, t: seq<Node>)
    requires visited == Strs(seen) && Fresh(visited, d, rest, v, t) && FreshDistinct(visited, rest, v, t)
    ensures Strs(Deepen(seen, Added(rest, t), d + 1)) == v
  {
    var seen' := Deepen(seen, Added(rest, t), d + 1);
    forall s | s in v
      ensures s in Strs(seen')
    {
      if s !in visited {
        var i :| |rest| <= i < |t| && s == BoardToString(t[i].board);
        assert t[i].board in Added(rest, t);
      }
    }
    forall s | s in Strs(seen')
      ensures s in v
    {
      var b :| b in seen' && s == BoardToString(b);
      if b !in seen {
        var i :| |rest| <= i < |t| && t[i].board == b;
      }
    }
  }

  /** After an expansion, queued boards carry their seen depth and queued strings stay distinct. */
  lemma StepQueue(q: seq<Node>, rest: seq<Node>, off: nat, d: nat, seen: map<Board, nat>, visited: set<string>,
                  v: set<string>, t: seq<Node>)
    requires Dropped(q, rest, off)
    requires forall i :: 0 <= i < |q| ==> q[i].board in seen && seen[q[i].board] == q[i].depth
    requires forall i, j :: 0 <= i < j < |q| ==> BoardToString(q[i].board) != BoardToString(q[j].board)
    requires forall i :: 0 <= i < |q| ==> BoardToString(q[i].board) in visited
    requires Fresh(visited, d, rest, v, t) && FreshDistinct(visited, rest, v, t)
    requires Unseen(seen, rest, t)
    ensures forall i :: 0 <= i < |t| ==>
      (t[i].board in Deepen(seen, Added(rest, t), d + 1) &&
       Deepen(seen, Added(rest, t), d + 1)[t[i].board] == t[i].depth)
    ensures forall i, j :: 0 <= i < j < |t| ==> BoardToString(t[i].board) != BoardToString(t[j].board)
  {
    var seen' := Deepen(seen, Added(rest, t), d + 1);
    forall i | 0 <= i < |t|
      ensures t[i].board in seen' && seen'[t[i].board] == t[i].depth
    {
      if i >= |rest| {
        assert t[i].board in Added(rest, t);
      }
    }
    forall i, j | 0 <= i < j < |t|
      ensures BoardToString(t[i].board) != BoardToString(t[j].board)
    {
      if j < |rest| {
        assert rest[i] == q[i + off] && rest[j] == q[j + off];
      } else if i < |rest| {
        assert rest[i] == q[i + off];
      }
    }
  }

  /** After expanding `cur`, every seen board is still reachable within the depth limit. */
  lemma StepReach(start: Board, maxDepth: int, cur: Board, d: nat, seen: map<Board, nat>, rest: seq<Node>, t: seq<Node>)
    requires ReachIn(start, cur, d) && d < maxDepth
    requires forall b :: b in seen ==> seen[b] == 0 || seen[b] <= maxDepth
    requires forall b {:trigger ReachIn(start, b, seen[b])} :: b in seen ==> ReachIn(start, b, seen[b])
    requires Successors(cur, rest, t)
    ensures var seen' := Deepen(seen, Added(rest, t), d + 1);
      forall b :: b in seen' ==> seen'[b] == 0 || seen'[b] <= maxDepth
    ensures var seen' := Deepen(seen, Added(rest, t), d + 1);
      forall b {:trigger ReachIn(start, b, seen'[b])} :: b in seen' ==> ReachIn(start, b, seen'[b])
  {
    var seen' := Deepen(seen, Added(rest, t), d + 1);
    forall b | b in seen'
      ensures ReachIn(start, b, seen'[b])
    {
      if b in seen {
        assert ReachIn(start, b, seen[b]);
      } else {
        var i := AddedIndex(rest, t, b);
        assert MoveOf(cur, t[i].board);
        var k :| 0 <= k < |Moves| && CanMove(cur, k) && b == Move(cur, k);
        ReachMove(start, cur, d, k);
      }
    }
  }

  /** A board in `Added(todo, t)` sits at some index of `t` past `todo`. */
  lemma AddedIndex(todo: seq<Node>, t: seq<Node>, b: Board) returns (i: nat)
    requires b in Added(todo, t)
    ensures |todo| <= i < |t| && t[i].board == b
  {
    i :| |todo| <= i < |t| && t[i].board == b;
  }

  /** A move from a board reachable in `d` moves is reachable in `d + 1`. */
  lemma ReachMove(start: Board, cur: Board, d: nat, k: nat)
    requires ReachIn(start, cur, d) && k < |Moves| && CanMove(cur, k)
    ensures ReachIn(start, Move(cur, k), d + 1)
  {
    var ks :| |ks| == d && Apply(start, ks) == Some(cur);
    ApplyExtend(start, ks, cur, k);
  }

  /** Every queued string is visited. */
  lemma QueueVisited(start: Board, maxDepth: int, q: seq<Node>, visited: set<string>, seen: map<Board, nat>)
    requires SearchInv(start, maxDepth, q, visited, seen)
    ensures forall i :: 0 <= i < |q| ==> BoardToString(q[i].board) in visited
  {
    forall i | 0 <= i < |q|
      ensures BoardToString(q[i].board) in visited
    {
      assert q[i].board in seen;
    }
  }

  /**
   * Expanding `cur`, seen at depth `d < max_depth`, onto the rest of the
   * frontier keeps the shared invariant, with the new boards seen at `d + 1`.
   */
  lemma SearchStep(start: Board, maxDepth: int, q: seq<Node>, rest: seq<Node>, off: nat, cur: Board, d: nat,
                   visited: set<string>, seen: map<Board, nat>, v: set<string>, t: seq<Node>)
    returns (seen': map<Board, nat>)
    requires SearchInv(start, maxDepth, q, visited, seen)
    requires Dropped(q, rest, off) && cur in seen && seen[cur] == d && d < maxDepth
    requires Fresh(visited, d, rest, v, t) && FreshDistinct(visited, rest, v, t) && Successors(cur, rest, t)
    ensures Deepened(seen, rest, t, d, seen')
    ensures SearchInv(start, maxDepth, t, v, seen')
    ensures Unseen(seen, rest, t)
  {
    StepUnseen(seen, visited, d, rest, v, t);
    StepStrs(seen, visited, d, rest, v, t);
    QueueVisited(start, maxDepth, q, visited, seen);
    StepQueue(q, rest, off, d, seen, visited, v, t);
    StepReach(start, maxDepth, cur, d, seen, rest, t);
    seen' := Deepen(seen, Added(rest, t), d + 1);
  }

  /** `rest` is `q` without its first entry (`off == 1`) or without its last (`off == 0`). */
  ghost predicate Dropped(q: seq<Node>, rest: seq<Node>, off: nat)
  {
    off <= 1 && |rest| + 1 == |q| && forall i :: 0 <= i < |rest| ==> rest[i] == q[i + off]
  }

  /** Dropping the popped entry keeps the shared invariant. */
  lemma SearchDrop(start: Board, maxDepth: int, q: seq<Node>, rest: seq<Node>, off: nat, visited: set<string>,
                   seen: map<Board, nat>)
    requires SearchInv(start, maxDepth, q, visited, seen) && Dropped(q, rest, off)
    ensures SearchInv(start, maxDepth, rest, visited, seen)
  {
    forall i, j | 0 <= i < j < |rest|
      ensures BoardToString(rest[i].board) != BoardToString(rest[j].board)
    {
      assert rest[i] == q[i + off] && rest[j] == q[j + off];
    }
  }

  // ---------------- The breadth-first order ----------------

  /** The boards of the frontier after an expansion of `q[0]`: the rest of the old frontier and the new ones. */
  lemma PoppedStep(q: seq<Node>, seen: map<Board, nat>, seen': map<Board, nat>, rest: seq<Node>, t: seq<Node>)
    requires |q| > 0 && rest == q[1..] && Queued(rest, t)
    requires forall i :: 0 <= i < |q| ==> q[i].board in seen
    requires forall i, j :: 0 <= i < j < |q| ==> BoardToString(q[i].board) != BoardToString(q[j].board)
    requires seen'.Keys == seen.Keys + Added(rest, t)
    requires Unseen(seen, rest, t)
    ensures Popped(seen', t) == Popped(seen, q) + {q[0].board}
  {
    forall b | b in Popped(seen, q) + {q[0].board}
      ensures b in Popped(seen', t)
    {
      forall i | 0 <= i < |t|
        ensures t[i].board != b
      {
        if i < |rest| {
          assert t[i] == q[i + 1];
          if b != q[0].board {
            assert q[i + 1].board in Boards(q);
          }
        }
      }
    }
    assert Added(rest, t) <= Boards(t);
    assert Boards(q) <= Boards(t) + {q[0].board} by {
      forall i | 1 <= i < |q|
        ensures q[i].board in Boards(t)
      {
        assert t[i - 1] == q[i];
      }
    }
  }

  /** The layered order survives popping the front and queueing boards one level deeper. */
  lemma LayeredStep(q: seq<Node>, rest: seq<Node>, t: seq<Node>)
    requires |q| > 0 && Layered(q) && rest == q[1..] && Queued(rest, t)
    requires forall i :: |rest| <= i < |t| ==> t[i].depth == q[0].depth + 1
    ensures Layered(t)
    ensures |t| > 0 ==> q[0].depth <= t[0].depth
  {
    forall i | 0 <= i < |t|
      ensures q[0].depth <= t[i].depth <= q[0].depth + 1
    {
      if i < |rest| {
        assert t[i] == q[i + 1];
      }
    }
    forall i, j | 0 <= i <= j < |t|
      ensures t[i].depth <= t[j].depth
    {
      if j < |rest| {
        assert t[i] == q[i + 1] && t[j] == q[j + 1];
      }
    }
  }

  /** Every board reachable from a single-digit start is single-digit. */
  lemma ReachDigits(start: Board, b: Board, d: nat)
    requires ReachIn(start, b, d) && Digits(start)
    ensures Digits(b)
  {
    var ks :| |ks| == d && Apply(start, ks) == Some(b);
    ApplyTiles(start, ks, b);
    SameTiles(b, start);
  }

  /**
   * For single-digit boards, the popped board's moves are all seen at most
   * one level deeper once it is expanded: their strings are visited, and a
   * visited string names exactly one seen board.
   */
  lemma ClosedCur(start: Board, maxDepth: int, q: seq<Node>, visited: set<string>, seen: map<Board, nat>,
                  v: set<string>, t: seq<Node>, seen': map<Board, nat>)
    requires SearchInv(start, maxDepth, q, visited, seen) && Layered(q) && |q| > 0 && Digits(start)
    requires forall b :: b in Popped(seen, q) ==> seen[b] <= q[0].depth
    requires Covers(q[0].board, v)
    requires Deepened(seen, q[1..], t, q[0].depth, seen')
    requires SearchInv(start, maxDepth, t, v, seen')
    ensures q[0].board in seen' && MovesSeen(seen', q[0].board)
  {
    var cur, d := q[0].board, q[0].depth;
    assert cur in seen && seen'[cur] == d;
    forall k | 0 <= k < |Moves| && CanMove(cur, k)
      ensures Move(cur, k) in seen' && seen'[Move(cur, k)] <= d + 1
    {
      var u := Move(cur, k);
      ReachMove(start, cur, d, k);
      var w := StrsWitness(seen', BoardToString(u));
      ReachDigits(start, u, d + 1);
      ReachDigits(start, w, seen'[w]);
      BoardStringInjective(w, u);
      if u in seen {
        SeenBound(start, maxDepth, q, visited, seen, u);
      }
    }
  }

  /** A string of `Strs(seen)` is the string of some seen board. */
  lemma StrsWitness(seen: map<Board, nat>, s: string) returns (b: Board)
    requires s in Strs(seen)
    ensures b in seen && BoardToString(b) == s
  {
    b :| b in seen && BoardToString(b) == s;
  }

  /** In the breadth-first order every seen board is at most one level below the front. */
  lemma SeenBound(start: Board, maxDepth: int, q: seq<Node>, visited: set<string>, seen: map<Board, nat>, b: Board)
    requires SearchInv(start, maxDepth, q, visited, seen) && Layered(q) && |q| > 0
    requires forall b :: b in Popped(seen, q) ==> seen[b] <= q[0].depth
    requires b in seen
    ensures seen[b] <= q[0].depth + 1
  {
    if b in Boards(q) {
      var i :| 0 <= i < |q| && q[i].board == b;
    }
  }

  /** Expanding the front board below the depth limit keeps the breadth-first invariant. */
  lemma BfsStep(start: Board, goal: Board, maxDepth: int, q: seq<Node>, visited: set<string>, seen: map<Board, nat>,
                v: set<string>, t: seq<Node>) returns (seen': map<Board, nat>)
    requires BfsInv(start, goal, maxDepth, q, visited, seen) && |q| > 0 && q[0].board != goal
    requires q[0].depth < maxDepth
    requires Fresh(visited, q[0].depth, q[1..], v, t) && FreshDistinct(visited, q[1..], v, t)
    requires Successors(q[0].board, q[1..], t) && Covers(q[0].board, v)
    ensures Deepened(seen, q[1..], t, q[0].depth, seen')
    ensures BfsInv(start, goal, maxDepth, t, v, seen')
  {
    assert q[0].board in seen;
    seen' := SearchStep(start, maxDepth, q, q[1..], 1, q[0].board, q[0].depth, visited, seen, v, t);
    OrderStep(start, goal, maxDepth, q, visited, seen, v, t, seen');
    if Digits(start) {
      ClosedStep(start, goal, maxDepth, q, visited, seen, v, t, seen');
    }
  }

  /** For single-digit boards, expanding the front keeps the popped boards closed. */
  lemma ClosedStep(start: Board, goal: Board, maxDepth: int, q: seq<Node>, visited: set<string>, seen: map<Board, nat>,
                   v: set<string>, t: seq<Node>, seen': map<Board, nat>)
    requires BfsInv(start, goal, maxDepth, q, visited, seen) && |q| > 0 && Digits(start)
    requires Queued(q[1..], t) && Covers(q[0].board, v)
    requires Unseen(seen, q[1..], t)
    requires Deepened(seen, q[1..], t, q[0].depth, seen')
    requires SearchInv(start, maxDepth, t, v, seen')
    ensures Closed(maxDepth, seen', Popped(seen', t))
  {
    ClosedCur(start, maxDepth, q, visited, seen, v, t, seen');
    PoppedStep(q, seen, seen', q[1..], t);
    ClosedKeep(maxDepth, seen, Popped(seen, q), seen', q[0].board);
  }

  /** The breadth-first order of the frontier and of the popped boards survives an expansion of the front. */
  lemma OrderStep(start: Board, goal: Board, maxDepth: int, q: seq<Node>, visited: set<string>, seen: map<Board, nat>,
                  v: set<string>, t: seq<Node>, seen': map<Board, nat>)
    requires BfsInv(start, goal, maxDepth, q, visited, seen) && |q| > 0 && q[0].board != goal
    requires Fresh(visited, q[0].depth, q[1..], v, t)
    requires Unseen(seen, q[1..], t)
    requires Deepened(seen, q[1..], t, q[0].depth, seen')
    ensures Layered(t)
    ensures |t| > 0 ==> forall b :: b in Popped(seen', t) ==> seen'[b] <= t[0].depth
    ensures forall b :: b in Popped(seen', t) ==> b != goal
  {
    PoppedStep(q, seen, seen', q[1..], t);
    LayeredStep(q, q[1..], t);
  }

  /** Popped boards keep their seen depths, and `cur` joins them, so Closed carries over. */
  lemma ClosedKeep(maxDepth: int, seen: map<Board, nat>, popped: set<Board>, seen': map<Board, nat>, cur: Board)
    requires popped <= seen.Keys && Closed(maxDepth, seen, popped)
    requires forall b :: b in seen ==> b in seen' && seen'[b] == seen[b]
    requires cur in seen' && MovesSeen(seen', cur)
    ensures Closed(maxDepth, seen', popped + {cur})
  {
    forall u | u in popped + {cur} && seen'[u] < maxDepth
      ensures MovesSeen(seen', u)
    {
      if u != cur {
        assert MovesSeen(seen, u);
      }
    }
  }

  /** Popping a board at the depth limit without expanding it keeps the breadth-first invariant. */
  lemma BfsSkip(start: Board, goal: Board, maxDepth: int, q: seq<Node>, visited: set<string>, seen: map<Board, nat>)
    requires BfsInv(start, goal, maxDepth, q, visited, seen) && |q| > 0 && q[0].board != goal
    requires q[0].depth >= maxDepth
    ensures BfsInv(start, goal, maxDepth, q[1..], visited, seen)
  {
    var rest := q[1..];
    assert Queued(rest, rest);
    SearchDrop(start, maxDepth, q, rest, 1, visited, seen);
    PoppedStep(q, seen, seen, rest, rest);
    LayeredStep(q, rest, rest);
  }

  /** With the frontier empty, every board within `max_depth` moves has been seen no deeper than its distance. */
  lemma {:induction false} ReachSeen(start: Board, goal: Board, maxDepth: int, visited: set<string>, seen: map<Board, nat>,
                                     ks: seq<nat>, b: Board)
    requires BfsInv(start, goal, maxDepth, [], visited, seen) && Digits(start)
    requires Apply(start, ks) == Some(b) && |ks| <= maxDepth
    ensures b in seen && seen[b] <= |ks|
    decreases |ks|
  {
    if ks != [] {
      var p, k := ApplyLast(start, ks, b);
      ReachSeen(start, goal, maxDepth, visited, seen, ks[..|ks| - 1], p);
      assert Popped(seen, []) == seen.Keys;
      assert MovesSeen(seen, p);
    }
  }

  /** An exhausted breadth-first search within the cap proves the goal unreachable within `max_depth` moves. */
  lemma BfsExhausted(start: Board, goal: Board, maxDepth: int, visited: set<string>, seen: map<Board, nat>)
    requires BfsInv(start, goal, maxDepth, [], visited, seen) && Digits(start)
    ensures forall ks :: |ks| <= maxDepth ==> Apply(start, ks) != Some(goal)
  {
    forall ks | |ks| <= maxDepth
      ensures Apply(start, ks) != Some(goal)
    {
      if Apply(start, ks).Some? {
        ReachSeen(start, goal, maxDepth, visited, seen, ks, Apply(start, ks).value);
        assert Popped(seen, []) == seen.Keys;
      }
    }
  }

  // ---------------- The searches ----------------

  /** The strings of the boards `t` holds past `todo`, in queue order. */
  ghost function NewStrs(todo: seq<Node>, t: seq<Node>): seq<string>
    requires |todo| <= |t|
  {
    seq(|t| - |todo|, i requires 0 <= i < |t| - |todo| => BoardToString(t[|todo| + i].board))
  }

  /** An expansion queues each string once. */
  lemma NewStrsDistinct(visited: set<string>, todo: seq<Node>, v: set<string>, t: seq<Node>)
    requires |todo| <= |t| && FreshDistinct(visited, todo, v, t)
    ensures Distinct(NewStrs(todo, t))
  {
    var n := NewStrs(todo, t);
    forall i, j | 0 <= i < j < |n|
      ensures n[i] != n[j]
    {
      assert n[i] == BoardToString(t[|todo| + i].board) && n[j] == BoardToString(t[|todo| + j].board);
    }
  }

  /** The strings an expansion queues are newly visited. */
  lemma NewStrsFresh(visited: set<string>, d: nat, todo: seq<Node>, v: set<string>, t: seq<Node>)
    requires Fresh(visited, d, todo, v, t)
    ensures Elems(NewStrs(todo, t)) <= v - visited
  {
    var n := NewStrs(todo, t);
    forall x | x in Elems(n)
      ensures x in v && x !in visited
    {
      var i :| 0 <= i < |n| && n[i] == x;
      assert x == BoardToString(t[|todo| + i].board);
    }
  }

  /** Every newly visited string is among those an expansion queues. */
  lemma NewStrsCover(visited: set<string>, todo: seq<Node>, v: set<string>, t: seq<Node>)
    requires |todo| <= |t| && FreshDistinct(visited, todo, v, t)
    ensures v - visited <= Elems(NewStrs(todo, t))
  {
    var n := NewStrs(todo, t);
    forall x | x in v && x !in visited
      ensures x in Elems(n)
    {
      assert exists i :: |todo| <= i < |t| && x == BoardToString(t[i].board);
      var i :| |todo| <= i < |t| && x == BoardToString(t[i].board);
      assert n[i - |todo|] == x;
    }
  }

  /** `pushed` lists the strings in `keys` in push order: `first` first, none of them twice. */
  ghost predicate PushLog(first: string, pushed: seq<string>, keys: set<string>)
  {
    |pushed| >= 1 && pushed[0] == first && Distinct(pushed) && Elems(pushed) == keys
  }

  /**
   * The push log of the visited strings stays one after an expansion: the
   * strings it queues are new, and each is queued once.
   */
  lemma PushedStep(visited: set<string>, d: nat, todo: seq<Node>, v: set<string>, t: seq<Node>,
                   first: string, pushed: seq<string>) returns (pushed': seq<string>)
    requires Fresh(visited, d, todo, v, t) && FreshDistinct(visited, todo, v, t)
    requires PushLog(first, pushed, visited)
    ensures pushed' == pushed + NewStrs(todo, t)
    ensures PushLog(first, pushed', v)
  {
    NewStrsDistinct(visited, todo, v, t);
    NewStrsFresh(visited, d, todo, v, t);
    NewStrsCover(visited, todo, v, t);
    DistinctConcat(pushed, NewStrs(todo, t));
    pushed' := pushed + NewStrs(todo, t);
  }

  /** `s` is the string of a board reachable from `start` in no moves, or in at most `maxDepth`. */
  ghost predicate ReachedString(start: Board, maxDepth: int, s: string)
  {
    exists ks :: (|ks| == 0 || |ks| <= maxDepth) && Apply(start, ks).Some? && BoardToString(Apply(start, ks).value) == s
  }

  /** Every visited string is the string of a board reachable within the depth limit. */
  lemma PushedReached(start: Board, maxDepth: int, q: seq<Node>, visited: set<string>, seen: map<Board, nat>,
                      pushed: seq<string>)
    requires SearchInv(start, maxDepth, q, visited, seen) && PushLog(BoardToString(start), pushed, visited)
    ensures |pushed| >= 1 && pushed[0] == BoardToString(start) && Distinct(pushed)
    ensures forall i :: 0 <= i < |pushed| ==> ReachedString(start, maxDepth, pushed[i])
  {
    forall i | 0 <= i < |pushed|
      ensures ReachedString(start, maxDepth, pushed[i])
    {
      assert pushed[i] in Elems(pushed);
      var b := StrsWitness(seen, pushed[i]);
      SeenReached(start, maxDepth, q, visited, seen, b);
      var ks :| (|ks| == 0 || |ks| <= maxDepth) && Apply(start, ks) == Some(b);
      assert Apply(start, ks).Some? && BoardToString(Apply(start, ks).value) == pushed[i];
    }
  }

  /** One expanding round of `bfs_limited`: the invariant and the push log carry over to the new queue. */
  lemma BfsRound(start: Board, goal: Board, maxDepth: int, q: seq<Node>, visited: set<string>, seen: map<Board, nat>,
                 v: set<string>, t: seq<Node>, pushed: seq<string>)
    returns (seen': map<Board, nat>, pushed': seq<string>)
    requires BfsInv(start, goal, maxDepth, q, visited, seen) && PushLog(BoardToString(start), pushed, visited)
    requires |q| > 0 && q[0].board != goal && q[0].depth < maxDepth && Blank(q[0].board).Some?
    requires (v, t) == Spread(q[0].board, Blank(q[0].board).value.0, Blank(q[0].board).value.1, q[0].depth,
                              visited, q[1..], |Moves|)
    ensures BfsInv(start, goal, maxDepth, t, v, seen')
    ensures |q| - 1 <= |t| && pushed' == pushed + NewStrs(q[1..], t) && PushLog(BoardToString(start), pushed', v)
    ensures |pushed'| + |q| - 1 == |pushed| + |t|
  {
    ExpandFacts(q[0].board, q[0].depth, visited, q[1..], v, t);
    seen' := BfsStep(start, goal, maxDepth, q, visited, seen, v, t);
    pushed' := PushedStep(visited, q[0].depth, q[1..], v, t, BoardToString(start), pushed);
  }

  /**
   * `bfs_limited(start, goal, max_depth)`. `explored` is the final value of
   * `nodes_explored`. A True answer names a board reachable within the depth
   * limit; a False answer given before the cap, from a single-digit start,
   * means no sequence of at most `max_depth` moves reaches the goal.
   */
  method BfsLimited(start: Board, goal: Board, maxDepth: int := 20)
    returns (found: bool, ghost explored: nat, ghost pushed: seq<string>)
    requires Blank(start).Some? || start == goal || maxDepth <= 0
    ensures explored <= 1000
    ensures found ==> exists ks :: (|ks| == 0 || |ks| <= maxDepth) && Apply(start, ks) == Some(goal)
    ensures !found && explored < 1000 && Digits(start) ==>
      forall ks :: |ks| <= maxDepth ==> Apply(start, ks) != Some(goal)
    ensures |pushed| >= 1 && pushed[0] == BoardToString(start) && Distinct(pushed)
    ensures forall i :: 0 <= i < |pushed| ==> ReachedString(start, maxDepth, pushed[i])
    ensures explored <= |pushed|
  {
    var q := [Node(start, 0)];
    var visited := {BoardToString(start)};
    var nodesExplored := 0;
    ghost var seen: map<Board, nat> := map[start := 0];
    pushed := [BoardToString(start)];
    assert Elems(pushed) == visited;
    SearchInit(start, maxDepth, goal);
    HasBlankIff(start);
    while |q| > 0 && nodesExplored < 1000
      invariant BfsInv(start, goal, maxDepth, q, visited, seen)
      invariant nodesExplored <= 1000
      invariant Blank(start).None? && maxDepth > 0 ==> q == [Node(start, 0)]
      invariant PushLog(BoardToString(start), pushed, visited)
      invariant nodesExplored + |q| == |pushed|
      decreases 1000 - nodesExplored
    {
      ghost var q0, v0, s0 := q, visited, seen;
      var current, depth := q[0].board, q[0].depth;
      q := q[1..];
      nodesExplored := nodesExplored + 1;
      if IsGoal(current, goal) {
        SeenReached(start, maxDepth, q0, v0, s0, current);
        PushedReached(start, maxDepth, q0, v0, s0, pushed);
        return true, nodesExplored, pushed;
      }
      if depth < maxDepth {
        SeenTiles(start, maxDepth, q0, v0, s0, current);
        HasBlankIff(current);
        var blank := FindBlank(current);
        var (x, y) := blank.value;
        visited, q := Expand(current, x, y, depth, visited, q);
        seen, pushed := BfsRound(start, goal, maxDepth, q0, v0, s0, visited, q, pushed);
      } else {
        BfsSkip(start, goal, maxDepth, q0, v0, s0);
      }
    }
    if nodesExplored < 1000 && Digits(start) {
      BfsExhausted(start, goal, maxDepth, visited, seen);
    }
    PushedReached(start, maxDepth, q, visited, seen, pushed);
    return false, nodesExplored, pushed;
  }

  /** Popping the top of the stack: the rest is the stack without it, and its board was seen at its depth. */
  lemma DfsPop(start: Board, maxDepth: int, q: seq<Node>, visited: set<string>, seen: map<Board, nat>)
    requires SearchInv(start, maxDepth, q, visited, seen) && |q| > 0
    ensures Dropped(q, q[..|q| - 1], 0)
    ensures q[|q| - 1].board in seen && seen[q[|q| - 1].board] == q[|q| - 1].depth
  {
  }

  /** One expanding round of `dfs_limited`: the invariant and the push log carry over to the new stack. */
  lemma DfsRound(start: Board, maxDepth: int, q: seq<Node>, rest: seq<Node>, cur: Board, d: nat,
                 visited: set<string>, seen: map<Board, nat>, v: set<string>, t: seq<Node>, pushed: seq<string>)
    returns (seen': map<Board, nat>, pushed': seq<string>)
    requires SearchInv(start, maxDepth, q, visited, seen) && PushLog(BoardToString(start), pushed, visited)
    requires Dropped(q, rest, 0) && cur in seen && seen[cur] == d && d < maxDepth && Blank(cur).Some?
    requires (v, t) == Spread(cur, Blank(cur).value.0, Blank(cur).value.1, d, visited, rest, |Moves|)
    ensures SearchInv(start, maxDepth, t, v, seen')
    ensures |rest| <= |t| && pushed' == pushed + NewStrs(rest, t) && PushLog(BoardToString(start), pushed', v)
    ensures |pushed'| + |rest| == |pushed| + |t|
  {
    ExpandFacts(cur, d, visited, rest, v, t);
    seen' := SearchStep(start, maxDepth, q, rest, 0, cur, d, visited, seen, v, t);
    pushed' := PushedStep(visited, d, rest, v, t, BoardToString(start), pushed);
  }

  /**
   * `dfs_limited(start, goal, max_depth)`: the same loop over a stack popped
   * from its end. A True answer names a board reachable within the depth
   * limit.
   */
  method DfsLimited(start: Board, goal: Board, maxDepth: int := 15)
    returns (found: bool, ghost explored: nat, ghost pushed: seq<string>)
    requires Blank(start).Some? || start == goal || maxDepth <= 0
    ensures explored <= 1000
    ensures found ==> exists ks :: (|ks| == 0 || |ks| <= maxDepth) && Apply(start, ks) == Some(goal)
    ensures |pushed| >= 1 && pushed[0] == BoardToString(start) && Distinct(pushed)
    ensures forall i :: 0 <= i < |pushed| ==> ReachedString(start, maxDepth, pushed[i])
    ensures explored <= |pushed|
  {
    var stack := [Node(start, 0)];
    var visited := {BoardToString(start)};
    var nodesExplored := 0;
    ghost var seen: map<Board, nat> := map[start := 0];
    pushed := [BoardToString(start)];
    assert Elems(pushed) == visited;
    SearchInit(start, maxDepth, goal);
    HasBlankIff(start);
    while |stack| > 0 && nodesExplored < 1000
      invariant SearchInv(start, maxDepth, stack, visited, seen)
      invariant nodesExplored <= 1000
      invariant Blank(start).None? && maxDepth > 0 ==> stack == [Node(start, 0)]
      invariant PushLog(BoardToString(start), pushed, visited)
      invariant nodesExplored + |stack| == |pushed|
      decreases 1000 - nodesExplored
    {
      ghost var q0, v0, s0 := stack, visited, seen;
      var current, depth := stack[|stack| - 1].board, stack[|stack| - 1].depth;
      stack := stack[..|stack| - 1];
      DfsPop(start, maxDepth, q0, v0, s0);
      nodesExplored := nodesExplored + 1;
      if IsGoal(current, goal) {
        SeenReached(start, maxDepth, q0, v0, s0, current);
        PushedReached(start, maxDepth, q0, v0, s0, pushed);
        return true, nodesExplored, pushed;
      }
      if depth < maxDepth {
        SeenTiles(start, maxDepth, q0, v0, s0, current);
        HasBlankIff(current);
        var blank := FindBlank(current);
        var (x, y) := blank.value;
        ghost var rest := stack;
        visited, stack := Expand(current, x, y, depth, visited, stack);
        seen, pushed := DfsRound(start, maxDepth, q0, rest, current, depth, v0, s0, visited, stack, pushed);
      } else {
        SearchDrop(start, maxDepth, q0, stack, 0, v0, s0);
      }
    }
    PushedReached(start, maxDepth, stack, visited, seen, pushed);
    return false, nodesExplored, pushed;
  }

  // ---------------- The demo boards ----------------

  /** The start board of the demo. */
  const DemoStart: Board := [[1, 2, 3], [4, 0, 6], [7, 5, 8]]

  /** The goal board of the demo. */
  const DemoGoal: Board := [[1, 2, 3], [4, 5, 6], [7, 8, 0]]

  /** The middle board of the demo: the blank moved down once. */
  const DemoMid: Board := [[1, 2, 3], [4, 5, 6], [7, 0, 8]]

  /** Moving the demo blank down. */
  lemma DemoDown()
    ensures CanMove(DemoStart, 0) && Move(DemoStart, 0) == DemoMid
  {
    assert Blank(DemoStart) == Some((1, 1));
    var m := Move(DemoStart, 0);
    assert m[0] == DemoMid[0] && m[1] == DemoMid[1] && m[2] == DemoMid[2];
  }

  /** Then moving it right. */
  lemma DemoRight()
    ensures CanMove(DemoMid, 2) && Move(DemoMid, 2) == DemoGoal
  {
    assert Blank(DemoMid) == Some((2, 1));
    var m := Move(DemoMid, 2);
    assert m[0] == DemoGoal[0] && m[1] == DemoGoal[1] && m[2] == DemoGoal[2];
  }

  /** No single move turns the demo start into the demo goal: the bottom-right cell stays 8. */
  lemma DemoOneMove(k: nat)
    requires k < |Moves| && CanMove(DemoStart, k)
    ensures Move(DemoStart, k) != DemoGoal
  {
    assert Blank(DemoStart) == Some((1, 1));
    assert Move(DemoStart, k)[2][2] == 8;
  }

  /** The demo start holds single-digit tiles only. */
  lemma DemoDigits()
    ensures Digits(DemoStart)
  {
    forall i, j | InBoard(i, j)
      ensures DemoStart[i][j] < 10
    {
      assert DemoStart[i] == [[1, 2, 3], [4, 0, 6], [7, 5, 8]][i];
    }
  }

  /**
   * The demo goal is two moves from the demo start (down, then right) and no
   * fewer, and the start is single-digit, so a `bfs_limited` run with
   * `max_depth >= 2` that stops before the cap answers True.
   */
  lemma DemoDepthTwo()
    ensures Apply(DemoStart, [0, 2]) == Some(DemoGoal)
    ensures forall ks :: |ks| < 2 ==> Apply(DemoStart, ks) != Some(DemoGoal)
    ensures Blank(DemoStart).Some?
  {
    DemoTwoMoves();
    DemoNoFewer();
    assert Blank(DemoStart) == Some((1, 1));
  }

  /** Down, then right, turns the demo start into the demo goal. */
  lemma DemoTwoMoves()
    ensures Apply(DemoStart, [0, 2]) == Some(DemoGoal)
  {
    assert [0] + [2] == [0, 2];
    DemoFirstMove();
    DemoRight();
    ApplyExtend(DemoStart, [0], DemoMid, 2);
  }

  /** The first move of the demo solution reaches the middle board. */
  lemma DemoFirstMove()
    ensures Apply(DemoStart, [0]) == Some(DemoMid)
  {
    assert [] + [0] == [0];
    DemoDown();
    ApplyExtend(DemoStart, [], DemoStart, 0);
  }

  /** No sequence of fewer than two moves turns the demo start into the demo goal. */
  lemma DemoNoFewer()
    ensures forall ks :: |ks| < 2 ==> Apply(DemoStart, ks) != Some(DemoGoal)
  {
    forall ks | |ks| < 2
      ensures Apply(DemoStart, ks) != Some(DemoGoal)
    {
      if |ks| == 1 && Apply(DemoStart, ks).Some? {
        var p, k := ApplyLast(DemoStart, ks, Apply(DemoStart, ks).value);
        assert ks[..0] == [];
        DemoOneMove(k);
      }
    }
  }

  /**
   * The demo run `bfs_limited(start, goal, max_depth=10)`: it answers True
   * unless it stops at the node cap, and a True answer is backed by a move
   * sequence of at most 10 moves.
   */
  method DemoRun() returns (found: bool, ghost explored: nat)
    ensures found || explored == 1000
    ensures found ==> exists ks :: |ks| <= 10 && Apply(DemoStart, ks) == Some(DemoGoal)
  {
    DemoDepthTwo();
    DemoDigits();
    ghost var pushed;
    found, explored, pushed := BfsLimited(DemoStart, DemoGoal, 10);
  }
}
