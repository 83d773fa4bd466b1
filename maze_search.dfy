/**
 * Activity1.py, sections 1 and 2: breadth-first and depth-first search over a
 * character maze, the two `reconstruct_path` helpers, and A* with the
 * Manhattan heuristic. The maze is a parameter; `Maze` is the one the script
 * searches. Unlike the city searches, `bfs` and `dfs` here mark a cell as
 * seen when it is pushed, recording its parent in the `visited` dictionary.
 */
module MazeSearch {
  import opened Wrappers
  import opened Grid
  import opened Collections

  /** The maze of Activity1.py:24-29 (4 rows, 7 columns). */
  const Maze: Map := ["S..#...", "##.#.#.", ".....#.", ".###..G"]

  /** Down, Up, Right, Left. */
  const Directions: seq<Pos> := [(1, 0), (-1, 0), (0, 1), (0, -1)]

  predicate IsGoalCell(maze: Map, p: Pos)
  {
    InBounds(maze, p) && maze[p.0][p.1] == 'G'
  }

  /** A walk from `start` that ends on a `'G'` cell. */
  ghost predicate GoalWalk(maze: Map, start: Pos, w: seq<Pos>)
  {
    IsWalk(maze, w) && w[0] == start && IsGoalCell(maze, w[|w| - 1])
  }

  ghost predicate GoalReachable(maze: Map, start: Pos)
  {
    exists w :: GoalWalk(maze, start, w)
  }

  /** Every in-bounds cell. */
  ghost function Cells(maze: Map): set<Pos>
  {
    set r: int, c: int | 0 <= r < |maze| && 0 <= c < |maze[0]| :: (r, c)
  }

  function Reverse<T>(s: seq<T>): (r: seq<T>)
    ensures |r| == |s| && forall i :: 0 <= i < |s| ==> r[i] == s[|s| - 1 - i]
  {
    if s == [] then [] else Reverse(s[1..]) + [s[0]]
  }

  // ---------------- reconstruct_path, first version ----------------

  /** Every parent link leads to a cell of smaller rank, so following links stops. */
  ghost predicate Ranked(visited: map<Pos, Option<Pos>>, rank: map<Pos, nat>)
  {
    forall p :: p in visited ==>
      p in rank && (visited[p].Some? ==>
        visited[p].value in visited && visited[p].value in rank && rank[visited[p].value] < rank[p])
  }

  /**
   * `reconstruct_path(visited, end)` of Activity1.py:41: follow parent links
   * from `end` until the link is None, then reverse. The result starts at a
   * cell without parent, ends at `end`, and each cell is the parent of the next.
   */
  method ReconstructVisited(visited: map<Pos, Option<Pos>>, end: Pos, ghost rank: map<Pos, nat>)
    returns (path: seq<Pos>)
    requires end in visited && Ranked(visited, rank)
    ensures |path| >= 1 && path[|path| - 1] == end
    ensures forall i :: 0 <= i < |path| ==> path[i] in visited
    ensures visited[path[0]] == None
    ensures forall i :: 1 <= i < |path| ==> visited[path[i]] == Some(path[i - 1])
  {
    var rev: seq<Pos> := [];
    var cur: Option<Pos> := Some(end);
    while cur.Some?
      invariant cur.Some? ==> cur.value in visited
      invariant forall i :: 0 <= i < |rev| ==> rev[i] in visited
      invariant |rev| == 0 ==> cur == Some(end)
      invariant |rev| > 0 ==> rev[0] == end && cur == visited[rev[|rev| - 1]]
      invariant forall i :: 0 <= i < |rev| - 1 ==> visited[rev[i]] == Some(rev[i + 1])
      decreases if cur.Some? then rank[cur.value] + 1 else 0
    {
      rev := rev + [cur.value];
      cur := visited[cur.value];
    }
    path := Reverse(rev);
  }

  // ---------------- reconstruct_path, second version ----------------

  /**
   * `reconstruct_path(came_from, current)` of Activity1.py:95: follow
   * `came_from` until a cell has no entry, then reverse. The result starts at
   * a cell without entry, ends at `current`, and each cell is the recorded
   * predecessor of the next.
   */
  method ReconstructCameFrom(cameFrom: map<Pos, Pos>, current: Pos, ghost rank: map<Pos, nat>)
    returns (path: seq<Pos>)
    requires current in rank
    requires forall p :: p in cameFrom ==> p in rank && cameFrom[p] in rank && rank[cameFrom[p]] < rank[p]
    ensures |path| >= 1 && path[|path| - 1] == current && path[0] !in cameFrom
    ensures forall i :: 1 <= i < |path| ==> path[i] in cameFrom && cameFrom[path[i]] == path[i - 1]
  {
    var cur := current;
    var rev := [cur];
    while cur in cameFrom
      invariant |rev| >= 1 && cur in rank && rev[0] == current && rev[|rev| - 1] == cur
      invariant forall i :: 0 <= i < |rev| - 1 ==> rev[i] in cameFrom && cameFrom[rev[i]] == rev[i + 1]
      decreases rank[cur]
    {
      cur := cameFrom[cur];
      rev := rev + [cur];
    }
    path := Reverse(rev);
  }

  // ---------------- Discovery shared by bfs and dfs ----------------

  /**
   * The `visited` map and the frontier after the inner `for dx, dy in
   * directions` loop has looked at the first `k` directions out of `cur`: an
   * open cell not yet seen gets `cur` as parent and is appended.
   */
  function Discover(maze: Map, cur: Pos, visited: map<Pos, Option<Pos>>, todo: seq<Pos>, k: nat)
    : (map<Pos, Option<Pos>>, seq<Pos>)
    requires k <= |Directions|
  {
    if k == 0 then (visited, todo)
    else
      var (v, t) := Discover(maze, cur, visited, todo, k - 1);
      var n := Add(cur, Directions[k - 1]);
      if IsValid(maze, n) && n !in v then (v[n := Some(cur)], t + [n]) else (v, t)
  }

  /**
   * Discovery keeps old links, links each new cell to `cur`, appends exactly
   * the new cells (each once), and leaves no open neighbour of `cur` unseen.
   */
  lemma {:induction false} DiscoverOk(maze: Map, cur: Pos, visited: map<Pos, Option<Pos>>, todo: seq<Pos>, k: nat)
    requires k <= |Directions|
    ensures var (v, t) := Discover(maze, cur, visited, todo, k);
      (forall p :: p in visited ==> p in v && v[p] == visited[p]) &&
      (forall p :: p in v && p !in visited ==> v[p] == Some(cur) && Adjacent(cur, p) && IsValid(maze, p)) &&
      |t| >= |todo| && t[..|todo|] == todo &&
      Distinct(t[|todo|..]) && Elems(t[|todo|..]) == v.Keys - visited.Keys &&
      (forall j :: 0 <= j < k && IsValid(maze, Add(cur, Directions[j])) ==> Add(cur, Directions[j]) in v)
  {
    if k > 0 {
      DiscoverOk(maze, cur, visited, todo, k - 1);
      var (v, t) := Discover(maze, cur, visited, todo, k - 1);
      var n := Add(cur, Directions[k - 1]);
      if IsValid(maze, n) && n !in v {
        var t' := t + [n];
        assert t'[..|todo|] == t[..|todo|];
        assert t'[|todo|..] == t[|todo|..] + [n];
        DistinctAppend(t[|todo|..], n);
      }
    }
  }

  /** The inner loop of `bfs` and `dfs`. */
  method Expand(maze: Map, cur: Pos, visited: map<Pos, Option<Pos>>, todo: seq<Pos>)
    returns (visited': map<Pos, Option<Pos>>, todo': seq<Pos>)
    ensures (visited', todo') == Discover(maze, cur, visited, todo, |Directions|)
  {
    visited', todo' := visited, todo;
    for k := 0 to |Directions|
      invariant (visited', todo') == Discover(maze, cur, visited, todo, k)
    {
      var dx, dy := Directions[k].0, Directions[k].1;
      var nx, ny := cur.0 + dx, cur.1 + dy;
      if 0 <= nx < |maze| && 0 <= ny < |maze[0]| && maze[nx][ny] != '#' && (nx, ny) !in visited' {
        visited' := visited'[(nx, ny) := Some(cur)];
        todo' := todo' + [(nx, ny)];
      }
    }
  }

  // ---------------- The search tree ----------------

  /**
   * `visited` is a tree rooted at `start`: `depth` counts the links from each
   * cell back to `start`, and every link joins adjacent cells, the child open.
   */
  ghost predicate Tree(maze: Map, start: Pos, visited: map<Pos, Option<Pos>>, depth: map<Pos, nat>)
  {
    start in visited && visited[start] == None && visited.Keys == depth.Keys && depth[start] == 0 &&
    forall p :: p in visited && p != start ==>
      visited[p].Some? && visited[p].value in visited && Adjacent(visited[p].value, p) && IsValid(maze, p) &&
      depth[p] == depth[visited[p].value] + 1
  }

  /** The path rebuilt from a tree is a walk from `start` of `depth` moves. */
  lemma TreePath(maze: Map, start: Pos, visited: map<Pos, Option<Pos>>, depth: map<Pos, nat>, path: seq<Pos>)
    requires Tree(maze, start, visited, depth) && |path| >= 1
    requires (forall i :: 0 <= i < |path| ==> path[i] in visited) && visited[path[0]] == None
    requires forall i :: 1 <= i < |path| ==> visited[path[i]] == Some(path[i - 1])
    ensures IsWalk(maze, path) && path[0] == start && depth[path[|path| - 1]] == |path| - 1
  {
    var i := 0;
    while i < |path| - 1
      invariant 0 <= i < |path| && depth[path[i]] == i && path[0] == start
      invariant forall j :: 1 <= j <= i ==> Adjacent(path[j - 1], path[j]) && IsValid(maze, path[j])
    {
      i := i + 1;
    }
  }

  /** Trees are ranked by depth, so `reconstruct_path` terminates on them. */
  lemma TreeRanked(maze: Map, start: Pos, visited: map<Pos, Option<Pos>>, depth: map<Pos, nat>)
    requires Tree(maze, start, visited, depth)
    ensures Ranked(visited, depth)
  {
  }

  /** Levels after discovery: old cells keep theirs, new cells get `d`. */
  ghost function Deepen(depth: map<Pos, nat>, visited: map<Pos, Option<Pos>>, v: map<Pos, Option<Pos>>, d: nat)
    : map<Pos, nat>
    requires visited.Keys <= depth.Keys
  {
    map p | p in v.Keys :: if p in visited then depth[p] else d
  }

  /** Adding the cells Discover found, one link deeper than `cur`, keeps the tree. */
  lemma DiscoverTree(maze: Map, start: Pos, cur: Pos, visited: map<Pos, Option<Pos>>, depth: map<Pos, nat>, todo: seq<Pos>)
    requires Tree(maze, start, visited, depth) && cur in visited
    ensures var (v, t) := Discover(maze, cur, visited, todo, |Directions|);
      Tree(maze, start, v, Deepen(depth, visited, v, depth[cur] + 1))
  {
    DiscoverOk(maze, cur, visited, todo, |Directions|);
  }

  lemma InCells(maze: Map, p: Pos)
    requires InBounds(maze, p)
    ensures p in Cells(maze)
  {
    assert p == (p.0, p.1);
  }

  /** Discovery either adds a cell of the maze or changes nothing. */
  lemma DiscoverProgress(maze: Map, cur: Pos, visited: map<Pos, Option<Pos>>, todo: seq<Pos>)
    requires visited.Keys <= Cells(maze)
    ensures var (v, t) := Discover(maze, cur, visited, todo, |Directions|);
      v.Keys <= Cells(maze) &&
      ((v == visited && t == todo) || Cells(maze) - v.Keys < Cells(maze) - visited.Keys)
  {
    DiscoverOk(maze, cur, visited, todo, |Directions|);
    var (v, t) := Discover(maze, cur, visited, todo, |Directions|);
    forall p | p in v.Keys
      ensures p in Cells(maze)
    {
      if p !in visited {
        InCells(maze, p);
      }
    }
    if v.Keys - visited.Keys == {} {
      forall p | p in v.Keys
        ensures p in visited.Keys
      {
        assert p !in v.Keys - visited.Keys;
      }
      assert v.Keys == visited.Keys;
      assert v == visited;
      var added := t[|todo|..];
      ElemsEmpty(added);
      assert t == t[..|todo|] + added;
    } else {
      var y :| y in v.Keys - visited.Keys;
      assert y in Cells(maze) - visited.Keys;
    }
  }

  /** Every adjacent cell is one of the four directions away. */
  lemma AdjacentIsDirection(p: Pos, u: Pos) returns (j: nat)
    requires Adjacent(p, u)
    ensures j < |Directions| && u == Add(p, Directions[j])
  {
    AdjacentIsOffset(p, u);
    var d := (u.0 - p.0, u.1 - p.1);
    j := if d == (1, 0) then 0 else if d == (-1, 0) then 1 else if d == (0, 1) then 2 else 3;
  }

  /**
   * Popping `x` off the front (or top) of a frontier and appending what
   * Discover found: the frontier stays distinct and `x` joins the popped cells.
   */
  lemma DiscoverFrontier(maze: Map, x: Pos, rest: seq<Pos>, visited: map<Pos, Option<Pos>>)
    requires Distinct([x] + rest) || Distinct(rest + [x])
    requires Elems(rest) + {x} <= visited.Keys
    ensures var (v, t) := Discover(maze, x, visited, rest, |Directions|);
      Distinct(t) && Elems(t) <= v.Keys &&
      Popped(v, t) == (visited.Keys - Elems(rest)) &&
      x in Popped(v, t) &&
      (forall u :: Adjacent(x, u) && IsValid(maze, u) ==> u in v)
  {
    DiscoverOk(maze, x, visited, rest, |Directions|);
    var (v, t) := Discover(maze, x, visited, rest, |Directions|);
    var added := t[|rest|..];
    assert t == rest + added;
    if Distinct([x] + rest) {
      forall i, j | 0 <= i < j < |rest|
        ensures rest[i] != rest[j]
      {
        assert ([x] + rest)[i + 1] == rest[i] && ([x] + rest)[j + 1] == rest[j];
      }
      forall i | 0 <= i < |rest|
        ensures rest[i] != x
      {
        assert ([x] + rest)[i + 1] == rest[i] && ([x] + rest)[0] == x;
      }
    } else {
      forall i, j | 0 <= i < j < |rest|
        ensures rest[i] != rest[j]
      {
        assert (rest + [x])[i] == rest[i] && (rest + [x])[j] == rest[j];
      }
      forall i | 0 <= i < |rest|
        ensures rest[i] != x
      {
        assert (rest + [x])[i] == rest[i] && (rest + [x])[|rest|] == x;
      }
    }
    DistinctConcat(rest, added);
    forall u | Adjacent(x, u) && IsValid(maze, u)
      ensures u in v
    {
      var j := AdjacentIsDirection(x, u);
    }
  }

  /**
   * A walk from `start` whose last cell is not expanded leaves the expanded
   * set at some index `i` onto a seen cell whose level is at most `i`, given
   * that levels grow by at most one from an expanded cell to its open
   * neighbours.
   */
  lemma CellExit(maze: Map, start: Pos, w: seq<Pos>, expanded: set<Pos>, level: map<Pos, nat>)
    returns (i: nat)
    requires IsWalk(maze, w) && w[0] == start && start in level && level[start] == 0 && expanded <= level.Keys
    requires forall v, u :: v in expanded && Adjacent(v, u) && IsValid(maze, u) ==> u in level && level[u] <= level[v] + 1
    requires w[|w| - 1] !in expanded
    ensures i < |w| && w[i] !in expanded && w[i] in level && level[w[i]] <= i
  {
    i := 0;
    while w[i] in expanded
      invariant i < |w| && w[i] in level && level[w[i]] <= i
      decreases |w| - i
    {
      i := i + 1;
    }
  }

  // ---------------- bfs ----------------

  /** The queue holds levels `d, ..., d, d+1, ..., d+1`. */
  ghost predicate Layered(q: seq<Pos>, depth: map<Pos, nat>)
    requires forall i :: 0 <= i < |q| ==> q[i] in depth
  {
    (forall i, j :: 0 <= i <= j < |q| ==> depth[q[i]] <= depth[q[j]]) &&
    (forall i :: 0 <= i < |q| ==> depth[q[i]] <= depth[q[0]] + 1)
  }

  /** The seen cells not on the frontier: those already popped. */
  ghost function Popped(visited: map<Pos, Option<Pos>>, q: seq<Pos>): set<Pos>
  {
    visited.Keys - Elems(q)
  }

  /** What `bfs` and `dfs` keep true: a tree, a frontier of distinct seen cells, no popped goal. */
  ghost predicate SearchInv(maze: Map, start: Pos, q: seq<Pos>, visited: map<Pos, Option<Pos>>, depth: map<Pos, nat>)
  {
    Tree(maze, start, visited, depth) &&
    Distinct(q) && Elems(q) <= visited.Keys && visited.Keys <= Cells(maze) &&
    (forall v :: v in Popped(visited, q) ==> !IsGoalCell(maze, v)) &&
    (forall v, u :: v in Popped(visited, q) && Adjacent(v, u) && IsValid(maze, u) ==> u in visited)
  }

  /** The breadth-first part: levels are layered and popped cells are no deeper than the frontier. */
  ghost predicate BfsInv(maze: Map, start: Pos, q: seq<Pos>, visited: map<Pos, Option<Pos>>, depth: map<Pos, nat>)
  {
    SearchInv(maze, start, q, visited, depth) &&
    Layered(q, depth) &&
    (|q| > 0 ==> forall v :: v in Popped(visited, q) ==> depth[v] <= depth[q[0]]) &&
    (forall v, u :: v in Popped(visited, q) && Adjacent(v, u) && IsValid(maze, u) ==> depth[u] <= depth[v] + 1)
  }

  /** Some frontier cell is no deeper than any walk from `start` to a goal is long. */
  lemma BfsFrontier(maze: Map, start: Pos, q: seq<Pos>, visited: map<Pos, Option<Pos>>, depth: map<Pos, nat>, w: seq<Pos>)
    requires BfsInv(maze, start, q, visited, depth) && GoalWalk(maze, start, w)
    ensures |q| > 0 && depth[q[0]] <= |w| - 1
  {
    var i := CellExit(maze, start, w, Popped(visited, q), depth);
    assert w[i] in Elems(q);
    var j :| 0 <= j < |q| && q[j] == w[i];
  }

  /** The queue with its front popped and the discovered cells, one level deeper, appended. */
  lemma LayersAppend(q: seq<Pos>, t: seq<Pos>, depth: map<Pos, nat>, d: map<Pos, nat>, popped: set<Pos>)
    requires |q| > 0 && (forall i :: 0 <= i < |q| ==> q[i] in depth) && Layered(q, depth)
    requires forall v :: v in popped ==> v in depth && depth[v] <= depth[q[0]]
    requires |t| >= |q| - 1 && (forall i :: 1 <= i < |q| ==> t[i - 1] == q[i])
    requires forall i :: 0 <= i < |t| ==> t[i] in d
    requires forall i :: 1 <= i < |q| ==> d[q[i]] == depth[q[i]]
    requires forall i :: |q| - 1 <= i < |t| ==> d[t[i]] == depth[q[0]] + 1
    requires forall v :: v in popped ==> v in d && d[v] == depth[v]
    requires q[0] in d && d[q[0]] == depth[q[0]]
    ensures Layered(t, d)
    ensures |t| > 0 ==> forall v :: v in popped + {q[0]} ==> d[v] <= d[t[0]]
  {
    var n := |q| - 1;
    forall i | 0 <= i < |t|
      ensures depth[q[0]] <= d[t[i]] <= depth[q[0]] + 1
    {
      if i < n {
        assert t[i] == q[i + 1];
      }
    }
    forall i, j | 0 <= i <= j < |t|
      ensures d[t[i]] <= d[t[j]]
    {
      if j < n {
        assert t[i] == q[i + 1] && t[j] == q[j + 1];
      }
    }
  }

  /** The frontier half of `SearchStep`: everything in `SearchInv` but the tree. */
  lemma SearchFrontier(maze: Map, start: Pos, q: seq<Pos>, x: Pos, rest: seq<Pos>,
                       visited: map<Pos, Option<Pos>>, depth: map<Pos, nat>,
                       v: map<Pos, Option<Pos>>, t: seq<Pos>)
    requires SearchInv(maze, start, q, visited, depth) && !IsGoalCell(maze, x)
    requires q == [x] + rest || q == rest + [x]
    requires (v, t) == Discover(maze, x, visited, rest, |Directions|)
    ensures Distinct(t) && Elems(t) <= v.Keys && v.Keys <= Cells(maze)
    ensures Popped(v, t) == Popped(visited, q) + {x}
    ensures forall w :: w in Popped(v, t) ==> !IsGoalCell(maze, w)
    ensures forall w, u :: w in Popped(v, t) && Adjacent(w, u) && IsValid(maze, u) ==> u in v
  {
    if q == [x] + rest {
      ElemsConcat([x], rest);
    } else {
      ElemsConcat(rest, [x]);
    }
    assert Elems([x]) == {x};
    DiscoverOk(maze, x, visited, rest, |Directions|);
    DiscoverFrontier(maze, x, rest, visited);
    DiscoverProgress(maze, x, visited, rest);
  }

  /**
   * Popping `x` off the front or the back of the frontier and discovering its
   * neighbours keeps the search invariant; `x` joins the popped cells.
   */
  lemma SearchStep(maze: Map, start: Pos, q: seq<Pos>, x: Pos, rest: seq<Pos>,
                   visited: map<Pos, Option<Pos>>, depth: map<Pos, nat>,
                   v: map<Pos, Option<Pos>>, t: seq<Pos>)
    requires SearchInv(maze, start, q, visited, depth) && !IsGoalCell(maze, x)
    requires q == [x] + rest || q == rest + [x]
    requires (v, t) == Discover(maze, x, visited, rest, |Directions|)
    ensures SearchInv(maze, start, t, v, Deepen(depth, visited, v, depth[x] + 1))
    ensures Popped(v, t) == Popped(visited, q) + {x}
  {
    SearchFrontier(maze, start, q, x, rest, visited, depth, v, t);
    DiscoverTree(maze, start, x, visited, depth, rest);
  }

  /** Discovery appends cells that were unseen and are now seen. */
  lemma DiscoverAppends(maze: Map, cur: Pos, visited: map<Pos, Option<Pos>>, rest: seq<Pos>,
                        v: map<Pos, Option<Pos>>, t: seq<Pos>)
    requires (v, t) == Discover(maze, cur, visited, rest, |Directions|)
    ensures |t| >= |rest| && visited.Keys <= v.Keys
    ensures forall i :: 0 <= i < |rest| ==> t[i] == rest[i]
    ensures forall i :: |rest| <= i < |t| ==> t[i] in v && t[i] !in visited
  {
    DiscoverOk(maze, cur, visited, rest, |Directions|);
    forall i | 0 <= i < |rest|
      ensures t[i] == rest[i]
    {
      assert t[..|rest|][i] == t[i];
    }
    forall i | |rest| <= i < |t|
      ensures t[i] in v && t[i] !in visited
    {
      assert t[i] == t[|rest|..][i - |rest|];
      assert t[i] in Elems(t[|rest|..]);
    }
  }

  /** Popping `q[0]` and appending its new neighbours keeps the queue layered. */
  lemma BfsLayers(maze: Map, start: Pos, q: seq<Pos>, visited: map<Pos, Option<Pos>>, depth: map<Pos, nat>,
                  v: map<Pos, Option<Pos>>, t: seq<Pos>, d: map<Pos, nat>)
    requires BfsInv(maze, start, q, visited, depth) && |q| > 0
    requires (v, t) == Discover(maze, q[0], visited, q[1..], |Directions|)
    requires d == Deepen(depth, visited, v, depth[q[0]] + 1)
    ensures (forall i :: 0 <= i < |t| ==> t[i] in d) && Layered(t, d)
    ensures |t| > 0 ==> forall y :: y in Popped(visited, q) + {q[0]} ==> y in d && d[y] <= d[t[0]]
  {
    var x := q[0];
    var rest := q[1..];
    DiscoverAppends(maze, x, visited, rest, v, t);
    forall i | 0 <= i < |t|
      ensures t[i] in d
      ensures i >= |rest| ==> d[t[i]] == depth[x] + 1
    {
      if i < |rest| {
        assert q[i + 1] in Elems(q);
      }
    }
    forall i | 1 <= i < |q|
      ensures t[i - 1] == q[i] && d[q[i]] == depth[q[i]]
    {
      assert q[i] in Elems(q);
    }
    assert q[0] in Elems(q);
    LayersAppend(q, t, depth, d, Popped(visited, q));
  }

  /** Popping `q[0]` keeps levels within one across the neighbours of popped cells. */
  lemma BfsDepthClosed(maze: Map, start: Pos, q: seq<Pos>, visited: map<Pos, Option<Pos>>, depth: map<Pos, nat>,
                       v: map<Pos, Option<Pos>>, t: seq<Pos>, d: map<Pos, nat>)
    requires BfsInv(maze, start, q, visited, depth) && |q| > 0
    requires (v, t) == Discover(maze, q[0], visited, q[1..], |Directions|)
    requires d == Deepen(depth, visited, v, depth[q[0]] + 1)
    ensures forall y, u :: y in Popped(visited, q) + {q[0]} && Adjacent(y, u) && IsValid(maze, u) ==>
      y in d && u in d && d[u] <= d[y] + 1
  {
    var x := q[0];
    var rest := q[1..];
    assert q == [x] + rest;
    assert x in Elems(q);
    DiscoverFrontier(maze, x, rest, visited);
    DiscoverAppends(maze, x, visited, rest, v, t);
    var popped := Popped(visited, q);
    forall y, u | y in popped + {x} && Adjacent(y, u) && IsValid(maze, u)
      ensures y in d && u in d && d[u] <= d[y] + 1
    {
      if y == x && u in visited && u in Elems(q) {
        var i :| 0 <= i < |q| && q[i] == u;
      }
    }
  }

  /** Popping `q[0]` and discovering its neighbours keeps the breadth-first invariant. */
  lemma BfsStep(maze: Map, start: Pos, q: seq<Pos>, visited: map<Pos, Option<Pos>>, depth: map<Pos, nat>,
                v: map<Pos, Option<Pos>>, t: seq<Pos>, d: map<Pos, nat>)
    requires BfsInv(maze, start, q, visited, depth) && |q| > 0 && !IsGoalCell(maze, q[0])
    requires (v, t) == Discover(maze, q[0], visited, q[1..], |Directions|)
    requires d == Deepen(depth, visited, v, depth[q[0]] + 1)
    ensures BfsInv(maze, start, t, v, d)
  {
    assert q == [q[0]] + q[1..];
    SearchStep(maze, start, q, q[0], q[1..], visited, depth, v, t);
    BfsLayers(maze, start, q, visited, depth, v, t, d);
    BfsDepthClosed(maze, start, q, visited, depth, v, t, d);
  }

  /** Frontier cells lie in the maze, so `bfs` may read the cell it pops. */
  lemma FrontInBounds(maze: Map, start: Pos, q: seq<Pos>, visited: map<Pos, Option<Pos>>, depth: map<Pos, nat>)
    requires SearchInv(maze, start, q, visited, depth) && |q| > 0
    ensures InBounds(maze, q[0]) && q[0] in visited
    ensures InBounds(maze, q[|q| - 1]) && q[|q| - 1] in visited
  {
    assert q[0] in Elems(q) && q[|q| - 1] in Elems(q);
  }

  /** One round of `bfs` past a non-goal cell: the invariant holds again and the measure drops. */
  lemma BfsNext(maze: Map, start: Pos, q: seq<Pos>, visited: map<Pos, Option<Pos>>, depth: map<Pos, nat>,
                v: map<Pos, Option<Pos>>, t: seq<Pos>, d: map<Pos, nat>)
    requires BfsInv(maze, start, q, visited, depth) && |q| > 0 && !IsGoalCell(maze, q[0])
    requires (v, t) == Discover(maze, q[0], visited, q[1..], |Directions|)
    requires d == Deepen(depth, visited, v, depth[q[0]] + 1)
    ensures BfsInv(maze, start, t, v, d)
    ensures Cells(maze) - v.Keys < Cells(maze) - visited.Keys || (v.Keys == visited.Keys && |t| < |q|)
  {
    BfsStep(maze, start, q, visited, depth, v, t, d);
    DiscoverProgress(maze, q[0], visited, q[1..]);
  }

  /** The search starts with `start` alone, seen and on the frontier. */
  lemma SearchInit(maze: Map, start: Pos)
    requires InBounds(maze, start)
    ensures BfsInv(maze, start, [start], map[start := None], map[start := 0])
  {
    assert Elems([start]) == {start};
    InCells(maze, start);
  }

  /** With the frontier empty, no goal is reachable. */
  lemma SearchExhausted(maze: Map, start: Pos, visited: map<Pos, Option<Pos>>, depth: map<Pos, nat>)
    requires SearchInv(maze, start, [], visited, depth)
    ensures !GoalReachable(maze, start)
  {
    forall w | GoalWalk(maze, start, w)
      ensures false
    {
      var zero := map p | p in visited :: 0;
      var i := CellExit(maze, start, w, visited.Keys, zero);
    }
  }

  /** Some walk from `start` ends on `c`. */
  ghost predicate Reaches(maze: Map, start: Pos, c: Pos)
  {
    exists w :: IsWalk(maze, w) && w[0] == start && w[|w| - 1] == c
  }

  /** Following the links of a tree from `p` back to `start` gives a walk to `p`. */
  lemma {:induction false} TreeWalk(maze: Map, start: Pos, visited: map<Pos, Option<Pos>>, depth: map<Pos, nat>, p: Pos)
    returns (w: seq<Pos>)
    requires Tree(maze, start, visited, depth) && p in visited
    ensures IsWalk(maze, w) && w[0] == start && w[|w| - 1] == p
    decreases depth[p]
  {
    if p == start {
      w := [start];
    } else {
      var w0 := TreeWalk(maze, start, visited, depth, visited[p].value);
      WalkExtend(maze, w0, p);
      w := w0 + [p];
    }
  }

  /**
   * With the frontier empty, the seen cells are exactly those reachable from
   * `start`, and so are the cells of the push log.
   */
  lemma ExhaustedReach(maze: Map, start: Pos, visited: map<Pos, Option<Pos>>, depth: map<Pos, nat>, pushed: seq<Pos>)
    requires SearchInv(maze, start, [], visited, depth) && PushLog(start, pushed, visited.Keys)
    ensures forall c :: c in Elems(pushed) <==> Reaches(maze, start, c)
  {
    forall c | c in visited
      ensures Reaches(maze, start, c)
    {
      var w := TreeWalk(maze, start, visited, depth, c);
    }
    forall c | Reaches(maze, start, c)
      ensures c in visited
    {
      var w :| IsWalk(maze, w) && w[0] == start && w[|w| - 1] == c;
      if c !in visited {
        var zero := map p | p in visited :: 0;
        var i := CellExit(maze, start, w, visited.Keys, zero);
      }
    }
  }

  /** The path `bfs` rebuilds on popping a goal cell is a shortest walk to a goal. */
  lemma BfsFound(maze: Map, start: Pos, q: seq<Pos>, visited: map<Pos, Option<Pos>>, depth: map<Pos, nat>,
                 path: seq<Pos>)
    requires BfsInv(maze, start, q, visited, depth) && |q| > 0 && IsGoalCell(maze, q[0])
    requires |path| >= 1 && path[|path| - 1] == q[0]
    requires (forall i :: 0 <= i < |path| ==> path[i] in visited) && visited[path[0]] == None
    requires forall i :: 1 <= i < |path| ==> visited[path[i]] == Some(path[i - 1])
    ensures GoalWalk(maze, start, path)
    ensures forall w :: GoalWalk(maze, start, w) ==> |path| <= |w|
  {
    TreePath(maze, start, visited, depth, path);
    forall w | GoalWalk(maze, start, w)
      ensures |path| <= |w|
    {
      BfsFrontier(maze, start, q, visited, depth, w);
    }
  }

  /** `pushed` lists the cells in `keys` in push order: `start` first, none of them twice. */
  ghost predicate PushLog(start: Pos, pushed: seq<Pos>, keys: set<Pos>)
  {
    |pushed| >= 1 && pushed[0] == start && Distinct(pushed) && Elems(pushed) == keys
  }

  /**
   * The cells one expansion pushes are the newly seen ones, each once: the
   * push log of `visited`'s keys, extended by them, is the push log of the
   * new keys.
   */
  lemma PushedStep(maze: Map, cur: Pos, visited: map<Pos, Option<Pos>>, rest: seq<Pos>,
                   v: map<Pos, Option<Pos>>, t: seq<Pos>, start: Pos, pushed: seq<Pos>) returns (pushed': seq<Pos>)
    requires (v, t) == Discover(maze, cur, visited, rest, |Directions|)
    requires PushLog(start, pushed, visited.Keys)
    ensures |rest| <= |t| && pushed' == pushed + t[|rest|..]
    ensures PushLog(start, pushed', v.Keys)
  {
    DiscoverOk(maze, cur, visited, rest, |Directions|);
    DistinctConcat(pushed, t[|rest|..]);
    pushed' := pushed + t[|rest|..];
  }

  /** Every logged cell is a cell of the maze, and every one after `start` is open. */
  lemma PushedOpen(maze: Map, start: Pos, q: seq<Pos>, visited: map<Pos, Option<Pos>>, depth: map<Pos, nat>,
                   pushed: seq<Pos>)
    requires SearchInv(maze, start, q, visited, depth)
    requires PushLog(start, pushed, visited.Keys)
    ensures |pushed| >= 1 && pushed[0] == start && Distinct(pushed) && Elems(pushed) <= Cells(maze)
    ensures forall i :: 1 <= i < |pushed| ==> IsValid(maze, pushed[i])
  {
    forall i | 1 <= i < |pushed|
      ensures IsValid(maze, pushed[i])
    {
      assert pushed[i] in Elems(pushed);
    }
  }

  /**
   * `bfs(start)` of Activity1.py:49: breadth-first search that marks cells
   * when they are pushed. It returns a walk from `start` to a `'G'` cell with
   * the fewest moves, and None exactly when no `'G'` cell can be reached.
   * `pushed` lists, in push order, the cells that entered `visited` and the
   * queue: `start` first, then open cells only, none of them twice. When
   * the search fails, they are exactly the cells reachable from `start`.
   */
  method Bfs(maze: Map, start: Pos) returns (r: Option<seq<Pos>>, ghost pushed: seq<Pos>)
    requires InBounds(maze, start)
    ensures r.Some? ==> GoalWalk(maze, start, r.value)
    ensures r.Some? ==> forall w :: GoalWalk(maze, start, w) ==> |r.value| <= |w|
    ensures r.None? <==> !GoalReachable(maze, start)
    ensures |pushed| >= 1 && pushed[0] == start && Distinct(pushed) && Elems(pushed) <= Cells(maze)
    ensures forall i :: 1 <= i < |pushed| ==> IsValid(maze, pushed[i])
    ensures r.None? ==> forall c :: c in Elems(pushed) <==> Reaches(maze, start, c)
  {
    var queue := [start];
    var visited: map<Pos, Option<Pos>> := map[start := None];
    ghost var depth: map<Pos, nat> := map[start := 0];
    pushed := [start];
    SearchInit(maze, start);
    while queue != []
      invariant BfsInv(maze, start, queue, visited, depth)
      invariant PushLog(start, pushed, visited.Keys)
      decreases Cells(maze) - visited.Keys, |queue|
    {
      FrontInBounds(maze, start, queue, visited, depth);
      var cur := queue[0];
      if maze[cur.0][cur.1] == 'G' {
        TreeRanked(maze, start, visited, depth);
        var path := ReconstructVisited(visited, cur, depth);
        BfsFound(maze, start, queue, visited, depth, path);
        PushedOpen(maze, start, queue, visited, depth, pushed);
        return Some(path), pushed;
      }
      ghost var q0, v0, d0 := queue, visited, depth;
      visited, queue := Expand(maze, cur, visited, queue[1..]);
      pushed := PushedStep(maze, cur, v0, q0[1..], visited, queue, start, pushed);
      depth := Deepen(d0, v0, visited, d0[q0[0]] + 1);
      BfsNext(maze, start, q0, v0, d0, visited, queue, depth);
    }
    SearchExhausted(maze, start, visited, depth);
    PushedOpen(maze, start, queue, visited, depth, pushed);
    ExhaustedReach(maze, start, visited, depth, pushed);
    return None, pushed;
  }

  // ---------------- dfs ----------------

  /** One round of `dfs` past a non-goal cell popped off the top of the stack. */
  lemma DfsNext(maze: Map, start: Pos, q: seq<Pos>, visited: map<Pos, Option<Pos>>, depth: map<Pos, nat>,
                v: map<Pos, Option<Pos>>, t: seq<Pos>, d: map<Pos, nat>)
    requires SearchInv(maze, start, q, visited, depth) && |q| > 0 && !IsGoalCell(maze, q[|q| - 1])
    requires (v, t) == Discover(maze, q[|q| - 1], visited, q[..|q| - 1], |Directions|)
    requires d == Deepen(depth, visited, v, depth[q[|q| - 1]] + 1)
    ensures SearchInv(maze, start, t, v, d)
    ensures Cells(maze) - v.Keys < Cells(maze) - visited.Keys || (v.Keys == visited.Keys && |t| < |q|)
  {
    assert q == q[..|q| - 1] + [q[|q| - 1]];
    SearchStep(maze, start, q, q[|q| - 1], q[..|q| - 1], visited, depth, v, t);
    DiscoverProgress(maze, q[|q| - 1], visited, q[..|q| - 1]);
  }

  /**
   * `dfs(start)` of Activity1.py:65: the same search with a stack. It returns
   * a walk from `start` to a `'G'` cell (not necessarily a shortest one), and
   * None exactly when no `'G'` cell can be reached. `pushed` lists the cells
   * that entered `visited` and the stack, each once; when the search fails,
   * they are exactly the cells reachable from `start`.
   */
  method Dfs(maze: Map, start: Pos) returns (r: Option<seq<Pos>>, ghost pushed: seq<Pos>)
    requires InBounds(maze, start)
    ensures r.Some? ==> GoalWalk(maze, start, r.value)
    ensures r.None? <==> !GoalReachable(maze, start)
    ensures |pushed| >= 1 && pushed[0] == start && Distinct(pushed) && Elems(pushed) <= Cells(maze)
    ensures forall i :: 1 <= i < |pushed| ==> IsValid(maze, pushed[i])
    ensures r.None? ==> forall c :: c in Elems(pushed) <==> Reaches(maze, start, c)
  {
    var stack := [start];
    var visited: map<Pos, Option<Pos>> := map[start := None];
    ghost var depth: map<Pos, nat> := map[start := 0];
    pushed := [start];
    SearchInit(maze, start);
    while stack != []
      invariant SearchInv(maze, start, stack, visited, depth)
      invariant PushLog(start, pushed, visited.Keys)
      decreases Cells(maze) - visited.Keys, |stack|
    {
      FrontInBounds(maze, start, stack, visited, depth);
      ghost var q0, v0, d0 := stack, visited, depth;
      var cur := stack[|stack| - 1];
      stack := stack[..|stack| - 1];
      if maze[cur.0][cur.1] == 'G' {
        TreeRanked(maze, start, visited, depth);
        var path := ReconstructVisited(visited, cur, depth);
        TreePath(maze, start, visited, depth, path);
        PushedOpen(maze, start, q0, visited, depth, pushed);
        return Some(path), pushed;
      }
      ghost var rest := stack;
      visited, stack := Expand(maze, cur, visited, stack);
      pushed := PushedStep(maze, cur, v0, rest, visited, stack, start, pushed);
      depth := Deepen(d0, v0, visited, d0[q0[|q0| - 1]] + 1);
      DfsNext(maze, start, q0, v0, d0, visited, stack, depth);
    }
    SearchExhausted(maze, start, visited, depth);
    PushedOpen(maze, start, stack, visited, depth, pushed);
    ExhaustedReach(maze, start, visited, depth, pushed);
    return None, pushed;
  }
}
