/**
 * The vacuum-cleaner reflex agent of VacuumCleaner.py: a square grid of
 * Dirty/Clean cells (`environment`) and an agent at a cell (`VacuumAgent`)
 * that cleans a dirty cell and otherwise tries one move in a given
 * direction. The random choices of the source (the initial grid, the start
 * cell, the direction) are parameters here.
 */
module VacuumCleaner {

  /** The two strings a cell of the grid ever holds, 'Dirty' and 'Clean'. */
  datatype Cell = Dirty | Clean

  /** The four strings `random.choice` picks from. */
  datatype Direction = Up | Down | Left | Right

  /** A `size` x `size` grid, given as its rows. */
  ghost predicate Square(g: seq<seq<Cell>>, size: nat)
  {
    |g| == size && forall i :: 0 <= i < |g| ==> |g[i]| == size
  }

  /** The number of dirty cells of one row. */
  function RowDirt(row: seq<Cell>): (n: nat)
    ensures n <= |row|
    ensures n == 0 <==> Dirty !in row
  {
    if row == [] then 0
    else RowDirt(row[..|row| - 1]) + (if row[|row| - 1] == Dirty then 1 else 0)
  }

  /** The number of dirty cells of the grid. */
  function DirtCount(g: seq<seq<Cell>>): (n: nat)
  {
    if g == [] then 0 else DirtCount(g[..|g| - 1]) + RowDirt(g[|g| - 1])
  }

  /** No cell of the grid is dirty. */
  ghost predicate NoDirt(g: seq<seq<Cell>>)
  {
    forall i :: 0 <= i < |g| ==> Dirty !in g[i]
  }

  /** A grid holds no dirt exactly when its dirt count is zero. */
  lemma {:induction false} NoDirtCount(g: seq<seq<Cell>>)
    ensures NoDirt(g) <==> DirtCount(g) == 0
  {
    if g != [] {
      NoDirtCount(g[..|g| - 1]);
      assert forall i :: 0 <= i < |g| - 1 ==> g[..|g| - 1][i] == g[i];
    }
  }

  /** Setting `row[y]` to Clean removes exactly the dirt that was there. */
  lemma {:induction false} RowClean(row: seq<Cell>, y: nat)
    requires y < |row|
    ensures RowDirt(row[y := Clean]) == RowDirt(row) - (if row[y] == Dirty then 1 else 0)
  {
    var r := row[y := Clean];
    if y < |row| - 1 {
      RowClean(row[..|row| - 1], y);
      assert r[..|r| - 1] == row[..|row| - 1][y := Clean];
    } else {
      assert r[..|r| - 1] == row[..|row| - 1];
    }
  }

  /** Cleaning cell `(x, y)` of the grid removes exactly the dirt that was there. */
  lemma {:induction false} GridClean(g: seq<seq<Cell>>, x: nat, y: nat)
    requires x < |g| && y < |g[x]|
    ensures DirtCount(g[x := g[x][y := Clean]]) == DirtCount(g) - (if g[x][y] == Dirty then 1 else 0)
  {
    var h := g[x := g[x][y := Clean]];
    if x < |g| - 1 {
      GridClean(g[..|g| - 1], x, y);
      assert h[..|h| - 1] == g[..|g| - 1][x := g[x][y := Clean]];
    } else {
      RowClean(g[x], y);
      assert h[..|h| - 1] == g[..|g| - 1];
    }
  }

  /** What `all_clean` answers: the first row holds no dirt (the answer is None, read as false, for no rows). */
  ghost predicate FirstRowClean(g: seq<seq<Cell>>)
  {
    |g| > 0 && Dirty !in g[0]
  }

  /** A grid without dirt passes the first-row test whenever it has a row. */
  lemma NoDirtFirstRow(g: seq<seq<Cell>>)
    requires NoDirt(g) && |g| > 0
    ensures FirstRowClean(g)
  {
    assert Dirty !in g[0];
  }

  /** The first-row test also passes on a grid whose second row is dirty. */
  lemma FirstRowMissesDirt()
    ensures FirstRowClean([[Clean, Clean], [Dirty, Clean]])
    ensures !NoDirt([[Clean, Clean], [Dirty, Clean]])
  {
    var g := [[Clean, Clean], [Dirty, Clean]];
    assert g[0] == [Clean, Clean];
    assert g[1][0] == Dirty;
  }

  /** The move the agent makes in `direction` on a `size` x `size` grid from `(x, y)`. */
  function Step(x: int, y: int, direction: Direction, size: nat): (p: (int, int))
    ensures p == (x, y) || (p.0 == x && (p.1 == y - 1 || p.1 == y + 1)) || (p.1 == y && (p.0 == x - 1 || p.0 == x + 1))
    ensures 0 <= x < size && 0 <= y < size ==> 0 <= p.0 < size && 0 <= p.1 < size
    ensures direction == Up ==> p == (if x > 0 then (x - 1, y) else (x, y))
    ensures direction == Down ==> p == (if x < size - 1 then (x + 1, y) else (x, y))
    ensures direction == Left ==> p == (if y > 0 then (x, y - 1) else (x, y))
    ensures direction == Right ==> p == (if y < size - 1 then (x, y + 1) else (x, y))
  {
    if direction == Up && x > 0 then (x - 1, y)
    else if direction == Down && x < size - 1 then (x + 1, y)
    else if direction == Left && y > 0 then (x, y - 1)
    else if direction == Right && y < size - 1 then (x, y + 1)
    else (x, y)
  }

  /** The grid world: `environment`. */
  class Environment {
    var size: nat
    var grid: seq<seq<Cell>>

    ghost predicate Valid()
      reads this
    {
      Square(grid, size)
    }

    /** `environment(size)` with the randomly drawn grid given as `init`. */
    constructor(size: nat, init: seq<seq<Cell>>)
      requires Square(init, size)
      ensures Valid() && this.size == size && grid == init
    {
      this.size := size;
      grid := init;
    }

    /** `is_dirty(x, y)`. */
    function IsDirty(x: nat, y: nat): (r: bool)
      reads this
      requires Valid() && x < size && y < size
      ensures r <==> grid[x][y] == Dirty
      ensures r ==> DirtCount(grid) > 0
    {
      if grid[x][y] == Dirty then GridClean(grid, x, y); true else false
    }

    /** `clean(x, y)`: cell `(x, y)` becomes Clean and no other cell changes. */
    method Clean(x: nat, y: nat)
      modifies this
      requires Valid() && x < size && y < size
      ensures Valid() && size == old(size)
      ensures grid == old(grid)[x := old(grid)[x][y := Cell.Clean]]
      ensures grid[x][y] == Cell.Clean
      ensures forall i, j :: 0 <= i < size && 0 <= j < size && (i, j) != (x, y) ==> grid[i][j] == old(grid)[i][j]
      ensures DirtCount(grid) == old(DirtCount(grid)) - (if old(grid)[x][y] == Dirty then 1 else 0)
    {
      GridClean(grid, x, y);
      grid := grid[x := grid[x][y := Cell.Clean]];
    }

    /** `all_clean()` as written: it answers after looking at the first row only. */
    method AllClean() returns (r: bool)
      ensures r <==> FirstRowClean(grid)
    {
      for i := 0 to |grid|
        invariant i == 0
      {
        if Dirty in grid[i] {
          return false;
        }
        return true;
      }
      return false;
    }

    /** `all_clean()` with the `return True` after the loop: every row is inspected. */
    method AllCleanCorrected() returns (r: bool)
      ensures r <==> NoDirt(grid)
      ensures r <==> DirtCount(grid) == 0
    {
      NoDirtCount(grid);
      for i := 0 to |grid|
        invariant forall k :: 0 <= k < i ==> Dirty !in grid[k]
      {
        if Dirty in grid[i] {
          return false;
        }
      }
      return true;
    }
  }

  /** The reflex agent: `VacuumAgent`. */
  class VacuumAgent {
    var env: Environment
    var x: int
    var y: int

    ghost predicate Valid()
      reads this, env
    {
      env.Valid() && 0 <= x < env.size && 0 <= y < env.size
    }

    /** `VacuumAgent(env)` with the randomly drawn start cell given as `(x0, y0)`. */
    constructor(env: Environment, x0: int, y0: int)
      requires env.Valid() && 0 <= x0 < env.size && 0 <= y0 < env.size
      ensures Valid() && this.env == env && x == x0 && y == y0
    {
      this.env := env;
      x := x0;
      y := y0;
    }

    /**
     * `perceive_and_act()` with the randomly chosen direction given as
     * `direction`: a dirty cell is cleaned and the agent stays; on a clean
     * cell the grid stays and the agent makes the move `Step` describes.
     */
    method PerceiveAndAct(direction: Direction)
      modifies this, env
      requires Valid()
      ensures Valid() && env == old(env) && env.size == old(env.size)
      ensures old(env.grid[x][y]) == Dirty ==>
        x == old(x) && y == old(y) && env.grid == old(env.grid)[old(x) := old(env.grid)[old(x)][old(y) := Cell.Clean]]
      ensures old(env.grid[x][y]) == Cell.Clean ==>
        env.grid == old(env.grid) && (x, y) == Step(old(x), old(y), direction, env.size)
      ensures DirtCount(env.grid) == old(DirtCount(env.grid)) - (if old(env.grid[x][y]) == Dirty then 1 else 0)
    {
      if env.IsDirty(x, y) {
        env.Clean(x, y);
      } else {
        var p := Step(x, y, direction, env.size);
        x, y := p.0, p.1;
      }
    }
  }
}
