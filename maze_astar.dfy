/**
 * Activity1.py, section 2: `a_star(start, goal)` over the maze with the
 * Manhattan heuristic. There is no closed set: a cell is pushed again
 * whenever a strictly cheaper route to it is found, and popping a stale
 * entry expands the cell once more. The priority queue is a sequence from
 * which `heappop` takes a least `(f, node)` tuple.
 */
module MazeAStar {
  import opened Wrappers
  import opened Grid
  import opened Collections
  import opened MazeSearch

  /** `heuristic(a, b)` of Activity1.py:91: the Manhattan distance. */
  function Heuristic(a: Pos, b: Pos): (h: nat)
    ensures h == 0 <==> a == b
  {
    Manhattan(a, b)
  }

  /** One move changes the heuristic by at most one. */
  lemma HeuristicConsistent(a: Pos, c: Pos, b: Pos)
    requires Adjacent(a, c)
    ensures Heuristic(a, b) <= Heuristic(c, b) + 1
  {
    ManhattanStep(a, c, b);
  }

  /** The heuristic never overestimates the number of moves a walk needs. */
  lemma HeuristicAdmissible(maze: Map, w: seq<Pos>, i: nat)
    requires IsWalk(maze, w) && i < |w|
    ensures Heuristic(w[i], w[|w| - 1]) <= |w| - 1 - i
  {
    WalkCoversManhattan(maze, w, i, |w| - 1);
  }

  /** A walk from `start` ending at `goal`. */
  ghost predicate WalkTo(maze: Map, start: Pos, goal: Pos, w: seq<Pos>)
  {
    IsWalk(maze, w) && w[0] == start && w[|w| - 1] == goal
  }

  ghost predicate Reachable(maze: Map, start: Pos, goal: Pos)
  {
    exists w :: WalkTo(maze, start, goal, w)
  }

  // ---------------- The open set ----------------

  /** A heap entry `(f, node)`. */
  datatype OpenEntry = OpenEntry(f: int, cell: Pos)

  /** Tuple order on entries. */
  predicate EntryLe(x: OpenEntry, y: OpenEntry)
  {
    x.f < y.f || (x.f == y.f && (x.cell == y.cell || PosLt(x.cell, y.cell)))
  }

  /** The index of a least entry: the entry `heapq.heappop` returns. */
  function MinIndex(open: seq<OpenEntry>): (m: nat)
    requires |open| > 0
    ensures m < |open| && forall i :: 0 <= i < |open| ==> EntryLe(open[m], open[i])
  {
    if |open| == 1 then 0
    else
      var m' := MinIndex(open[1..]) + 1;
      assert forall i :: 1 <= i < |open| ==> open[i] == open[1..][i - 1];
      if EntryLe(open[0], open[m']) then 0 else m'
  }

  // ---------------- Relaxing the neighbours of one cell ----------------

  /**
   * The state after the inner `for dx, dy in directions` loop has looked at
   * the first `k` directions out of `cur`, whose cost is `gc`: an open
   * neighbour not yet scored, or reached more cheaply now, gets cost
   * `gc + 1`, an entry on the heap and `cur` as predecessor.
   */
  function Relax(maze: Map, goal: Pos, cur: Pos, gc: nat,
                 g: map<Pos, nat>, cameFrom: map<Pos, Pos>, open: seq<OpenEntry>, k: nat)
    : (map<Pos, nat>, map<Pos, Pos>, seq<OpenEntry>)
    requires k <= |Directions|
  {
    if k == 0 then (g, cameFrom, open)
    else
      var (g1, c1, o1) := Relax(maze, goal, cur, gc, g, cameFrom, open, k - 1);
      var n := Add(cur, Directions[k - 1]);
      if IsValid(maze, n) && (n !in g1 || gc + 1 < g1[n]) then
        (g1[n := gc + 1], c1[n := cur], o1 + [OpenEntry(gc + 1 + Heuristic(n, goal), n)])
      else (g1, c1, o1)
  }

  /** `p` received cost `gc + 1` through `cur` in this round. */
  ghost predicate Updated(maze: Map, goal: Pos, cur: Pos, gc: nat, g: map<Pos, nat>, p: Pos,
                          g': map<Pos, nat>, cameFrom': map<Pos, Pos>, open': seq<OpenEntry>)
  {
    p in g' && g'[p] == gc + 1 && (p !in g || gc + 1 < g[p]) &&
    p in cameFrom' && cameFrom'[p] == cur && Adjacent(cur, p) && IsValid(maze, p) &&
    OpenEntry(gc + 1 + Heuristic(p, goal), p) in open'
  }

  /** Costs only fall, scored cells stay scored, and entries are only added. */
  ghost predicate Monotone(g: map<Pos, nat>, cameFrom: map<Pos, Pos>, open: seq<OpenEntry>,
                           g': map<Pos, nat>, cameFrom': map<Pos, Pos>, open': seq<OpenEntry>)
  {
    (forall p :: p in g ==> p in g' && g'[p] <= g[p]) &&
    (forall p :: p in cameFrom ==> p in cameFrom') &&
    (forall e :: e in open ==> e in open')
  }

  /** Every cell whose cost changed was updated through `cur`. */
  ghost predicate CostsChanged(maze: Map, goal: Pos, cur: Pos, gc: nat, g: map<Pos, nat>,
                               g': map<Pos, nat>, cameFrom': map<Pos, Pos>, open': seq<OpenEntry>)
  {
    forall p :: p in g' ==> (p in g && g'[p] == g[p]) || Updated(maze, goal, cur, gc, g, p, g', cameFrom', open')
  }

  /** Every cell whose predecessor changed was updated through `cur`. */
  ghost predicate LinksChanged(maze: Map, goal: Pos, cur: Pos, gc: nat, g: map<Pos, nat>, cameFrom: map<Pos, Pos>,
                               g': map<Pos, nat>, cameFrom': map<Pos, Pos>, open': seq<OpenEntry>)
  {
    forall p :: p in cameFrom' ==>
      (p in cameFrom && cameFrom'[p] == cameFrom[p] && (p in g ==> p in g' && g'[p] == g[p])) ||
      Updated(maze, goal, cur, gc, g, p, g', cameFrom', open')
  }

  /** New entries carry cost `gc + 1` and name cells whose cost is now at most that. */
  ghost predicate FreshEntries(goal: Pos, gc: nat, open: seq<OpenEntry>, g': map<Pos, nat>, open': seq<OpenEntry>)
  {
    forall e :: e in open' ==>
      (e in open || (e.cell in g' && g'[e.cell] <= gc + 1 && e.f == gc + 1 + Heuristic(e.cell, goal)))
  }

  /** Every open neighbour in the first `k` directions has cost at most `gc + 1`. */
  ghost predicate Covers(maze: Map, cur: Pos, gc: nat, g': map<Pos, nat>, k: nat)
    requires k <= |Directions|
  {
    forall j :: 0 <= j < k && IsValid(maze, Add(cur, Directions[j])) ==>
      Add(cur, Directions[j]) in g' && g'[Add(cur, Directions[j])] <= gc + 1
  }

  /** Either nothing changed or some cell was updated. */
  ghost predicate IdleOrUpdated(maze: Map, goal: Pos, cur: Pos, gc: nat, g: map<Pos, nat>, open: seq<OpenEntry>,
                                g': map<Pos, nat>, cameFrom': map<Pos, Pos>, open': seq<OpenEntry>)
  {
    (g' == g && open' == open) || exists p :: Updated(maze, goal, cur, gc, g, p, g', cameFrom', open')
  }

  lemma {:induction false} RelaxMonotone(maze: Map, goal: Pos, cur: Pos, gc: nat,
                                         g: map<Pos, nat>, cameFrom: map<Pos, Pos>, open: seq<OpenEntry>, k: nat)
    requires k <= |Directions|
    ensures var (g', c', o') := Relax(maze, goal, cur, gc, g, cameFrom, open, k);
      Monotone(g, cameFrom, open, g', c', o')
  {
    if k > 0 {
      RelaxMonotone(maze, goal, cur, gc, g, cameFrom, open, k - 1);
    }
  }

  /** Applying the update to `n` keeps every earlier update recorded. */
  lemma UpdatedKept(maze: Map, goal: Pos, cur: Pos, gc: nat, g: map<Pos, nat>, p: Pos, n: Pos,
                    g1: map<Pos, nat>, c1: map<Pos, Pos>, o1: seq<OpenEntry>)
    requires Updated(maze, goal, cur, gc, g, p, g1, c1, o1)
    ensures Updated(maze, goal, cur, gc, g, p, g1[n := gc + 1], c1[n := cur],
                    o1 + [OpenEntry(gc + 1 + Heuristic(n, goal), n)])
  {
    assert OpenEntry(gc + 1 + Heuristic(p, goal), p) in o1;
  }

  /** One update step keeps CostsChanged. */
  lemma ChangedStep(maze: Map, goal: Pos, cur: Pos, gc: nat, g: map<Pos, nat>, n: Pos,
                    g1: map<Pos, nat>, c1: map<Pos, Pos>, o1: seq<OpenEntry>)
    requires CostsChanged(maze, goal, cur, gc, g, g1, c1, o1)
    requires forall p :: p in g ==> p in g1 && g1[p] <= g[p]
    requires Adjacent(cur, n) && IsValid(maze, n) && (n !in g1 || gc + 1 < g1[n])
    ensures CostsChanged(maze, goal, cur, gc, g, g1[n := gc + 1], c1[n := cur],
                         o1 + [OpenEntry(gc + 1 + Heuristic(n, goal), n)])
  {
    var g2, c2 := g1[n := gc + 1], c1[n := cur];
    var o2 := o1 + [OpenEntry(gc + 1 + Heuristic(n, goal), n)];
    forall p | p in g2
      ensures (p in g && g2[p] == g[p]) || Updated(maze, goal, cur, gc, g, p, g2, c2, o2)
    {
      if p == n {
        assert o2[|o1|] == OpenEntry(gc + 1 + Heuristic(n, goal), n);
      } else if !(p in g && g1[p] == g[p]) {
        UpdatedKept(maze, goal, cur, gc, g, p, n, g1, c1, o1);
      }
    }
  }

  lemma {:induction false} RelaxChanged(maze: Map, goal: Pos, cur: Pos, gc: nat,
                                        g: map<Pos, nat>, cameFrom: map<Pos, Pos>, open: seq<OpenEntry>, k: nat)
    requires k <= |Directions|
    ensures var (g', c', o') := Relax(maze, goal, cur, gc, g, cameFrom, open, k);
      CostsChanged(maze, goal, cur, gc, g, g', c', o')
  {
    if k > 0 {
      RelaxChanged(maze, goal, cur, gc, g, cameFrom, open, k - 1);
      RelaxMonotone(maze, goal, cur, gc, g, cameFrom, open, k - 1);
      var (g1, c1, o1) := Relax(maze, goal, cur, gc, g, cameFrom, open, k - 1);
      var n := Add(cur, Directions[k - 1]);
      if IsValid(maze, n) && (n !in g1 || gc + 1 < g1[n]) {
        ChangedStep(maze, goal, cur, gc, g, n, g1, c1, o1);
      }
    }
  }

  lemma {:induction false} RelaxRelinked(maze: Map, goal: Pos, cur: Pos, gc: nat,
                                         g: map<Pos, nat>, cameFrom: map<Pos, Pos>, open: seq<OpenEntry>, k: nat)
    requires k <= |Directions|
    ensures var (g', c', o') := Relax(maze, goal, cur, gc, g, cameFrom, open, k);
      LinksChanged(maze, goal, cur, gc, g, cameFrom, g', c', o')
  {
    if k > 0 {
      RelaxRelinked(maze, goal, cur, gc, g, cameFrom, open, k - 1);
      var (g1, c1, o1) := Relax(maze, goal, cur, gc, g, cameFrom, open, k - 1);
      var n := Add(cur, Directions[k - 1]);
      if IsValid(maze, n) && (n !in g1 || gc + 1 < g1[n]) {
        var g2, c2 := g1[n := gc + 1], c1[n := cur];
        var o2 := o1 + [OpenEntry(gc + 1 + Heuristic(n, goal), n)];
        RelaxMonotone(maze, goal, cur, gc, g, cameFrom, open, k - 1);
        forall p | p in c2
          ensures (p in cameFrom && c2[p] == cameFrom[p] && (p in g ==> p in g2 && g2[p] == g[p])) ||
            Updated(maze, goal, cur, gc, g, p, g2, c2, o2)
        {
          if p == n {
            assert o2[|o1|] == OpenEntry(gc + 1 + Heuristic(n, goal), n);
          } else if !(p in cameFrom && c1[p] == cameFrom[p] && (p in g ==> p in g1 && g1[p] == g[p])) {
            UpdatedKept(maze, goal, cur, gc, g, p, n, g1, c1, o1);
          }
        }
      }
    }
  }

  lemma {:induction false} RelaxEntries(maze: Map, goal: Pos, cur: Pos, gc: nat,
                                        g: map<Pos, nat>, cameFrom: map<Pos, Pos>, open: seq<OpenEntry>, k: nat)
    requires k <= |Directions|
    ensures var (g', c', o') := Relax(maze, goal, cur, gc, g, cameFrom, open, k);
      FreshEntries(goal, gc, open, g', o')
  {
    if k > 0 {
      RelaxEntries(maze, goal, cur, gc, g, cameFrom, open, k - 1);
    }
  }

  lemma {:induction false} RelaxCovers(maze: Map, goal: Pos, cur: Pos, gc: nat,
                                       g: map<Pos, nat>, cameFrom: map<Pos, Pos>, open: seq<OpenEntry>, k: nat)
    requires k <= |Directions|
    ensures var (g', c', o') := Relax(maze, goal, cur, gc, g, cameFrom, open, k);
      Covers(maze, cur, gc, g', k)
  {
    if k > 0 {
      RelaxCovers(maze, goal, cur, gc, g, cameFrom, open, k - 1);
    }
  }

  lemma {:induction false} RelaxIdle(maze: Map, goal: Pos, cur: Pos, gc: nat,
                                     g: map<Pos, nat>, cameFrom: map<Pos, Pos>, open: seq<OpenEntry>, k: nat)
    requires k <= |Directions|
    ensures var (g', c', o') := Relax(maze, goal, cur, gc, g, cameFrom, open, k);
      IdleOrUpdated(maze, goal, cur, gc, g, open, g', c', o')
  {
    if k > 0 {
      RelaxIdle(maze, goal, cur, gc, g, cameFrom, open, k - 1);
      RelaxChanged(maze, goal, cur, gc, g, cameFrom, open, k);
      var (g1, c1, o1) := Relax(maze, goal, cur, gc, g, cameFrom, open, k - 1);
      var (g2, c2, o2) := Relax(maze, goal, cur, gc, g, cameFrom, open, k);
      var n := Add(cur, Directions[k - 1]);
      if IsValid(maze, n) && (n !in g1 || gc + 1 < g1[n]) {
        assert n in g2 && !(n in g && g2[n] == g[n]) by {
          RelaxMonotone(maze, goal, cur, gc, g, cameFrom, open, k - 1);
        }
      } else if p :| Updated(maze, goal, cur, gc, g, p, g1, c1, o1) {
        assert Updated(maze, goal, cur, gc, g, p, g2, c2, o2);
      }
    }
  }

  /** The inner loop of `a_star`. */
  method RelaxAll(maze: Map, goal: Pos, cur: Pos, g: map<Pos, nat>, cameFrom: map<Pos, Pos>, open: seq<OpenEntry>)
    returns (g': map<Pos, nat>, cameFrom': map<Pos, Pos>, open': seq<OpenEntry>)
    requires cur in g
    ensures (g', cameFrom', open') == Relax(maze, goal, cur, g[cur], g, cameFrom, open, |Directions|)
  {
    g', cameFrom', open' := g, cameFrom, open;
    for k := 0 to |Directions|
      invariant (g', cameFrom', open') == Relax(maze, goal, cur, g[cur], g, cameFrom, open, k)
      invariant cur in g' && g'[cur] == g[cur]
    {
      var dx, dy := Directions[k].0, Directions[k].1;
      var nx, ny := cur.0 + dx, cur.1 + dy;
      if 0 <= nx < |maze| && 0 <= ny < |maze[0]| && maze[nx][ny] != '#' {
        var tentative := g'[cur] + 1;
        if (nx, ny) !in g' || tentative < g'[(nx, ny)] {
          g' := g'[(nx, ny) := tentative];
          var f := tentative + Heuristic((nx, ny), goal);
          open' := open' + [OpenEntry(f, (nx, ny))];
          cameFrom' := cameFrom'[(nx, ny) := cur];
        }
      }
    }
  }

  // ---------------- The invariant of a_star ----------------

  /**
   * `g_score` and `came_from` form a tree rooted at `start`: each recorded
   * predecessor is an adjacent cell at least one cheaper, and every scored
   * cell other than `start` has one.
   */
  ghost predicate Links(maze: Map, start: Pos, g: map<Pos, nat>, cameFrom: map<Pos, Pos>)
  {
    start in g && g[start] == 0 && start !in cameFrom &&
    (forall v :: v in g ==> v == start || v in cameFrom) &&
    forall c :: c in cameFrom ==>
      c in g && cameFrom[c] in g && g[cameFrom[c]] + 1 <= g[c] && Adjacent(cameFrom[c], c) && IsValid(maze, c)
  }

  /** Scored cells lie in `cells`, and no cost reaches the number of scored cells. */
  ghost predicate Bounded(cells: set<Pos>, g: map<Pos, nat>)
  {
    g.Keys <= cells && forall v :: v in g ==> g[v] < |g.Keys|
  }

  /** Entries name scored cells and never underestimate `g + h` (the initial `(0, start)` aside). */
  ghost predicate EntriesOk(start: Pos, goal: Pos, g: map<Pos, nat>, open: seq<OpenEntry>)
  {
    forall e :: e in open ==>
      e.cell in g && (e == OpenEntry(0, start) || g[e.cell] + Heuristic(e.cell, goal) <= e.f)
  }

  /**
   * Every scored cell is either still pending, with an entry no larger than
   * its `g + h`, or is not the goal and has all its open neighbours scored
   * at most one more than itself.
   */
  ghost predicate Settled(maze: Map, goal: Pos, g: map<Pos, nat>, open: seq<OpenEntry>)
  {
    forall v :: v in g ==>
      (exists e :: e in open && e.cell == v && e.f <= g[v] + Heuristic(v, goal)) ||
      (v != goal && forall u :: Adjacent(v, u) && IsValid(maze, u) ==> u in g && g[u] <= g[v] + 1)
  }

  ghost predicate AInv(maze: Map, start: Pos, goal: Pos, cells: set<Pos>,
                       g: map<Pos, nat>, cameFrom: map<Pos, Pos>, open: seq<OpenEntry>)
  {
    Links(maze, start, g, cameFrom) && Bounded(cells, g) && EntriesOk(start, goal, g, open) &&
    Settled(maze, goal, g, open)
  }

  /** The cells of the maze and the start cell. */
  ghost function Universe(maze: Map, start: Pos): set<Pos>
  {
    Cells(maze) + {start}
  }

  /** The termination measure: every (cell, cost) pair the cell's score could still fall to. */
  ghost function Pot(cells: set<Pos>, g: map<Pos, nat>): set<(Pos, int)>
  {
    set c, k | c in cells && 0 <= k <= |cells| && (c !in g || k < g[c]) :: (c, k)
  }

  // ---------------- Maintaining the invariant ----------------

  lemma AInit(maze: Map, start: Pos, goal: Pos)
    ensures AInv(maze, start, goal, Universe(maze, start), map[start := 0], map[], [OpenEntry(0, start)])
  {
    var open := [OpenEntry(0, start)];
    assert open[0].cell == start;
  }

  /** The tree property survives a round of relaxation through `cur`. */
  lemma LinksNext(maze: Map, start: Pos, goal: Pos, cur: Pos,
                  g: map<Pos, nat>, cameFrom: map<Pos, Pos>, open: seq<OpenEntry>,
                  g': map<Pos, nat>, cameFrom': map<Pos, Pos>, open': seq<OpenEntry>)
    requires Links(maze, start, g, cameFrom) && cur in g
    requires Monotone(g, cameFrom, open, g', cameFrom', open')
    requires CostsChanged(maze, goal, cur, g[cur], g, g', cameFrom', open')
    requires LinksChanged(maze, goal, cur, g[cur], g, cameFrom, g', cameFrom', open')
    ensures Links(maze, start, g', cameFrom')
  {
    assert !Updated(maze, goal, cur, g[cur], g, start, g', cameFrom', open');
    assert !Updated(maze, goal, cur, g[cur], g, cur, g', cameFrom', open');
  }

  /** The cost bound survives a round of relaxation. */
  lemma BoundedNext(maze: Map, start: Pos, goal: Pos, cur: Pos,
                    g: map<Pos, nat>, open: seq<OpenEntry>,
                    g': map<Pos, nat>, cameFrom': map<Pos, Pos>, open': seq<OpenEntry>)
    requires Bounded(Universe(maze, start), g) && cur in g
    requires forall p :: p in g ==> p in g' && g'[p] <= g[p]
    requires CostsChanged(maze, goal, cur, g[cur], g, g', cameFrom', open')
    ensures Bounded(Universe(maze, start), g')
  {
    SubsetCard(g.Keys, g'.Keys);
    forall p | p in g'
      ensures p in Universe(maze, start) && g'[p] < |g'.Keys|
    {
      if p !in g {
        InCells(maze, p);
        SubsetCard(g.Keys + {p}, g'.Keys);
      }
    }
  }

  /** Entry priorities stay no smaller than `g + h`. */
  lemma EntriesNext(start: Pos, goal: Pos, gc: nat, g: map<Pos, nat>, open: seq<OpenEntry>,
                    g': map<Pos, nat>, open': seq<OpenEntry>)
    requires EntriesOk(start, goal, g, open)
    requires forall p :: p in g ==> p in g' && g'[p] <= g[p]
    requires FreshEntries(goal, gc, open, g', open')
    ensures EntriesOk(start, goal, g', open')
  {
  }

  /** The popped cell, which is not the goal, is settled once its neighbours are relaxed. */
  lemma SettledCur(maze: Map, goal: Pos, cur: Pos, g: map<Pos, nat>,
                   g': map<Pos, nat>, cameFrom': map<Pos, Pos>, open': seq<OpenEntry>)
    requires cur in g && cur != goal
    requires CostsChanged(maze, goal, cur, g[cur], g, g', cameFrom', open')
    requires Covers(maze, cur, g[cur], g', |Directions|) && cur in g'
    ensures forall u :: Adjacent(cur, u) && IsValid(maze, u) ==> u in g' && g'[u] <= g'[cur] + 1
  {
    assert !Updated(maze, goal, cur, g[cur], g, cur, g', cameFrom', open');
    forall u | Adjacent(cur, u) && IsValid(maze, u)
      ensures u in g' && g'[u] <= g'[cur] + 1
    {
      var j := AdjacentIsDirection(cur, u);
    }
  }

  /** A cell other than the popped one keeps its pending entry or its settled neighbourhood. */
  lemma SettledOther(maze: Map, goal: Pos, cur: Pos, g: map<Pos, nat>, open: seq<OpenEntry>, m: nat,
                     g': map<Pos, nat>, cameFrom': map<Pos, Pos>, open': seq<OpenEntry>, v: Pos)
    requires Settled(maze, goal, g, open) && m < |open| && cur == open[m].cell
    requires forall p :: p in g ==> p in g' && g'[p] <= g[p]
    requires forall e :: e in RemoveAt(open, m) ==> e in open'
    requires v in g && v in g' && g'[v] == g[v] && v != cur
    ensures (exists e :: e in open' && e.cell == v && e.f <= g'[v] + Heuristic(v, goal)) ||
      (v != goal && forall u :: Adjacent(v, u) && IsValid(maze, u) ==> u in g' && g'[u] <= g'[v] + 1)
  {
    if e :| e in open && e.cell == v && e.f <= g[v] + Heuristic(v, goal) {
      assert e in RemoveAt(open, m);
    }
  }

  /**
   * Popping the entry at `m` and relaxing its cell, which is not the goal,
   * keeps every scored cell pending or settled: the popped cell itself is
   * now settled.
   */
  lemma SettledNext(maze: Map, goal: Pos, g: map<Pos, nat>, open: seq<OpenEntry>, m: nat,
                    g': map<Pos, nat>, cameFrom': map<Pos, Pos>, open': seq<OpenEntry>)
    requires Settled(maze, goal, g, open) && m < |open| && open[m].cell in g && open[m].cell != goal
    requires forall p :: p in g ==> p in g' && g'[p] <= g[p]
    requires forall e :: e in RemoveAt(open, m) ==> e in open'
    requires CostsChanged(maze, goal, open[m].cell, g[open[m].cell], g, g', cameFrom', open')
    requires Covers(maze, open[m].cell, g[open[m].cell], g', |Directions|)
    ensures Settled(maze, goal, g', open')
  {
    var cur := open[m].cell;
    forall v | v in g'
      ensures (exists e :: e in open' && e.cell == v && e.f <= g'[v] + Heuristic(v, goal)) ||
        (v != goal && forall u :: Adjacent(v, u) && IsValid(maze, u) ==> u in g' && g'[u] <= g'[v] + 1)
    {
      if Updated(maze, goal, cur, g[cur], g, v, g', cameFrom', open') {
        var e := OpenEntry(g[cur] + 1 + Heuristic(v, goal), v);
        assert e in open' && e.cell == v;
      } else if v == cur {
        SettledCur(maze, goal, cur, g, g', cameFrom', open');
      } else {
        SettledOther(maze, goal, cur, g, open, m, g', cameFrom', open', v);
      }
    }
  }

  /** A round that updates some cell shrinks the potential; one that updates none leaves the heap as it was. */
  lemma ProgressNext(maze: Map, start: Pos, goal: Pos, cur: Pos, g: map<Pos, nat>, open: seq<OpenEntry>,
                     g': map<Pos, nat>, cameFrom': map<Pos, Pos>, open': seq<OpenEntry>)
    requires Bounded(Universe(maze, start), g) && cur in g
    requires forall p :: p in g ==> p in g' && g'[p] <= g[p]
    requires IdleOrUpdated(maze, goal, cur, g[cur], g, open, g', cameFrom', open')
    ensures Pot(Universe(maze, start), g') < Pot(Universe(maze, start), g) || (g' == g && open' == open)
  {
    var cells := Universe(maze, start);
    if p :| Updated(maze, goal, cur, g[cur], g, p, g', cameFrom', open') {
      InCells(maze, p);
      SubsetCard(g.Keys, cells);
      assert (p, g'[p]) in Pot(cells, g);
      assert (p, g'[p]) !in Pot(cells, g');
      forall x | x in Pot(cells, g')
        ensures x in Pot(cells, g)
      {
      }
    }
  }

  /** One round of `a_star` past a non-goal cell: the invariant holds again and the measure drops. */
  lemma ANext(maze: Map, start: Pos, goal: Pos, g: map<Pos, nat>, cameFrom: map<Pos, Pos>, open: seq<OpenEntry>,
              m: nat, g': map<Pos, nat>, cameFrom': map<Pos, Pos>, open': seq<OpenEntry>)
    requires AInv(maze, start, goal, Universe(maze, start), g, cameFrom, open) && m < |open|
    requires open[m].cell != goal
    requires (g', cameFrom', open') ==
      Relax(maze, goal, open[m].cell, g[open[m].cell], g, cameFrom, RemoveAt(open, m), |Directions|)
    ensures AInv(maze, start, goal, Universe(maze, start), g', cameFrom', open')
    ensures Pot(Universe(maze, start), g') < Pot(Universe(maze, start), g) ||
      (Pot(Universe(maze, start), g') == Pot(Universe(maze, start), g) && |open'| < |open|)
  {
    var cur := open[m].cell;
    var rest := RemoveAt(open, m);
    assert open[m] in open;
    var gc := g[cur];
    RelaxMonotone(maze, goal, cur, gc, g, cameFrom, rest, |Directions|);
    RelaxChanged(maze, goal, cur, gc, g, cameFrom, rest, |Directions|);
    RelaxRelinked(maze, goal, cur, gc, g, cameFrom, rest, |Directions|);
    RelaxEntries(maze, goal, cur, gc, g, cameFrom, rest, |Directions|);
    RelaxCovers(maze, goal, cur, gc, g, cameFrom, rest, |Directions|);
    RelaxIdle(maze, goal, cur, gc, g, cameFrom, rest, |Directions|);
    ANextFacts(maze, start, goal, g, cameFrom, open, m, g', cameFrom', open');
  }

  /**
   * The conclusion of `ANext`, given what the relaxation lemmas say about the
   * round (costs only fall, changed costs come with a new parent and a new
   * open entry, every neighbour is covered) instead of the `Relax` call itself.
   */
  lemma ANextFacts(maze: Map, start: Pos, goal: Pos, g: map<Pos, nat>, cameFrom: map<Pos, Pos>, open: seq<OpenEntry>,
                   m: nat, g': map<Pos, nat>, cameFrom': map<Pos, Pos>, open': seq<OpenEntry>)
    requires AInv(maze, start, goal, Universe(maze, start), g, cameFrom, open) && m < |open|
    requires open[m].cell != goal && open[m].cell in g
    requires Monotone(g, cameFrom, RemoveAt(open, m), g', cameFrom', open')
    requires CostsChanged(maze, goal, open[m].cell, g[open[m].cell], g, g', cameFrom', open')
    requires LinksChanged(maze, goal, open[m].cell, g[open[m].cell], g, cameFrom, g', cameFrom', open')
    requires FreshEntries(goal, g[open[m].cell], RemoveAt(open, m), g', open')
    requires Covers(maze, open[m].cell, g[open[m].cell], g', |Directions|)
    requires IdleOrUpdated(maze, goal, open[m].cell, g[open[m].cell], g, RemoveAt(open, m), g', cameFrom', open')
    ensures AInv(maze, start, goal, Universe(maze, start), g', cameFrom', open')
    ensures Pot(Universe(maze, start), g') < Pot(Universe(maze, start), g) ||
      (Pot(Universe(maze, start), g') == Pot(Universe(maze, start), g) && |open'| < |open|)
  {
    var cur := open[m].cell;
    var rest := RemoveAt(open, m);
    LinksNext(maze, start, goal, cur, g, cameFrom, rest, g', cameFrom', open');
    BoundedNext(maze, start, goal, cur, g, rest, g', cameFrom', open');
    EntriesNext(start, goal, g[cur], g, rest, g', open');
    SettledNext(maze, goal, g, open, m, g', cameFrom', open');
    ProgressNext(maze, start, goal, cur, g, rest, g', cameFrom', open');
  }

  // ---------------- The frontier argument ----------------

  /**
   * Along any walk from `start` to `goal` some pending entry has priority at
   * most the walk's number of moves: walk forward through settled cells,
   * whose costs are at most their index, until the first pending one.
   */
  lemma AFrontier(maze: Map, start: Pos, goal: Pos, g: map<Pos, nat>, cameFrom: map<Pos, Pos>, open: seq<OpenEntry>,
                  w: seq<Pos>) returns (e: OpenEntry)
    requires AInv(maze, start, goal, Universe(maze, start), g, cameFrom, open) && WalkTo(maze, start, goal, w)
    ensures e in open && e.f <= |w| - 1
  {
    var i := 0;
    while !exists e :: e in open && e.cell == w[i] && e.f <= g[w[i]] + Heuristic(w[i], goal)
      invariant i < |w| && w[i] in g && g[w[i]] <= i
      decreases |w| - i
    {
      assert w[i] != goal;
      i := i + 1;
    }
    e :| e in open && e.cell == w[i] && e.f <= g[w[i]] + Heuristic(w[i], goal);
    HeuristicAdmissible(maze, w, i);
  }

  /** When the least entry names the goal, the goal's cost is no more than any walk to it. */
  lemma AGoalCost(maze: Map, start: Pos, goal: Pos, g: map<Pos, nat>, cameFrom: map<Pos, Pos>, open: seq<OpenEntry>,
                  m: nat, w: seq<Pos>)
    requires AInv(maze, start, goal, Universe(maze, start), g, cameFrom, open)
    requires m < |open| && open[m].cell == goal && forall i :: 0 <= i < |open| ==> EntryLe(open[m], open[i])
    requires WalkTo(maze, start, goal, w)
    ensures goal in g && g[goal] <= |w| - 1
  {
    var e := AFrontier(maze, start, goal, g, cameFrom, open, w);
    var i :| 0 <= i < |open| && open[i] == e;
    assert EntryLe(open[m], open[i]);
    assert open[m] in open;
  }

  /** The path rebuilt from `came_from` is a walk from `start` whose length is bounded by the cost. */
  lemma CameFromPath(maze: Map, start: Pos, g: map<Pos, nat>, cameFrom: map<Pos, Pos>, goal: Pos, path: seq<Pos>)
    requires Links(maze, start, g, cameFrom) && goal in g
    requires |path| >= 1 && path[|path| - 1] == goal && path[0] !in cameFrom
    requires forall i :: 1 <= i < |path| ==> path[i] in cameFrom && cameFrom[path[i]] == path[i - 1]
    ensures WalkTo(maze, start, goal, path) && |path| - 1 <= g[goal]
  {
    var i := 0;
    assert path[0] in g by {
      if |path| > 1 {
        assert cameFrom[path[1]] == path[0];
      }
    }
    while i < |path| - 1
      invariant 0 <= i < |path| && path[i] in g && i <= g[path[i]] && path[0] == start
      invariant forall j :: 1 <= j <= i ==> Adjacent(path[j - 1], path[j]) && IsValid(maze, path[j])
    {
      i := i + 1;
    }
  }

  // ---------------- a_star ----------------

  /**
   * `a_star(start, goal)` of Activity1.py:103. It returns a walk from
   * `start` to `goal` with the fewest moves, and None exactly when no walk
   * reaches `goal`.
   */
  method AStar(maze: Map, start: Pos, goal: Pos) returns (r: Option<seq<Pos>>)
    ensures r.Some? ==> WalkTo(maze, start, goal, r.value)
    ensures r.Some? ==> forall w :: WalkTo(maze, start, goal, w) ==> |r.value| <= |w|
    ensures r.None? <==> !Reachable(maze, start, goal)
  {
    var open := [OpenEntry(0, start)];
    var g: map<Pos, nat> := map[start := 0];
    var cameFrom: map<Pos, Pos> := map[];
    ghost var cells := Universe(maze, start);
    AInit(maze, start, goal);
    while open != []
      invariant AInv(maze, start, goal, cells, g, cameFrom, open)
      decreases Pot(cells, g), |open|
    {
      var m := MinIndex(open);
      var current := open[m].cell;
      ghost var g0, c0, open0 := g, cameFrom, open;
      assert open[m] in open;
      open := RemoveAt(open, m);
      if current == goal {
        var path := ReconstructCameFrom(cameFrom, current, g);
        CameFromPath(maze, start, g, cameFrom, goal, path);
        forall w | WalkTo(maze, start, goal, w)
          ensures |path| <= |w|
        {
          AGoalCost(maze, start, goal, g0, c0, open0, m, w);
        }
        return Some(path);
      }
      g, cameFrom, open := RelaxAll(maze, goal, current, g, cameFrom, open);
      ANext(maze, start, goal, g0, c0, open0, m, g, cameFrom, open);
    }
    forall w | WalkTo(maze, start, goal, w)
      ensures false
    {
      var e := AFrontier(maze, start, goal, g, cameFrom, open, w);
    }
    return None;
  }
}
