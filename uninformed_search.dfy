/**
 * UninformedSearch.py: breadth-first, depth-first and iterative-deepening
 * search for a pickup-before-delivery route through the city map. The map and
 * the three landmarks (`start`, `restaurant`, `customer`, found with `find` at
 * module level) are parameters.
 */
module UninformedSearch {
  import opened Wrappers
  import opened Grid
  import opened City
  import opened Collections

  /** A frontier entry `(position, has_pizza, path)`. */
  datatype Item = Item(pos: Pos, hasPizza: bool, path: seq<Pos>)

  function ItemState(it: Item): State
  {
    State(it.pos, it.hasPizza)
  }

  /** Number of moves behind an entry. */
  function Depth(it: Item): int
  {
    |it.path| - 1
  }

  /** The entry records a walk from `start` and the state at its end. */
  ghost predicate ItemOk(city: Map, restaurant: Pos, start: Pos, it: Item)
  {
    IsWalk(city, it.path) && it.path[0] == start && ItemState(it) == StateOf(restaurant, it.path)
  }

  ghost predicate AllOk(city: Map, restaurant: Pos, start: Pos, q: seq<Item>)
  {
    forall i :: 0 <= i < |q| ==> ItemOk(city, restaurant, start, q[i])
  }

  /** Some entry for state `s` lies at most `b` moves deep. */
  ghost predicate InFrontier(q: seq<Item>, s: State, b: int)
  {
    exists i :: 0 <= i < |q| && ItemState(q[i]) == s && Depth(q[i]) <= b
  }

  lemma InFrontierPop(q: seq<Item>, s: State, b: int)
    requires InFrontier(q, s, b) && |q| > 0
    ensures (ItemState(q[0]) == s && Depth(q[0]) <= b) || InFrontier(q[1..], s, b)
  {
    var i :| 0 <= i < |q| && ItemState(q[i]) == s && Depth(q[i]) <= b;
    if i > 0 {
      assert q[1..][i - 1] == q[i];
    }
  }

  lemma InFrontierAppend(q: seq<Item>, extra: seq<Item>, s: State, b: int)
    requires InFrontier(q, s, b)
    ensures InFrontier(q + extra, s, b)
  {
    var i :| 0 <= i < |q| && ItemState(q[i]) == s && Depth(q[i]) <= b;
    assert (q + extra)[i] == q[i];
  }

  /** Every successor of a visited state is visited no deeper, or waits in the frontier. */
  ghost predicate Closed(city: Map, restaurant: Pos, q: seq<Item>, visited: set<State>, level: map<State, nat>)
    requires visited <= level.Keys
  {
    forall v, w :: v in visited && Step(city, restaurant, v, w) ==>
      (w in visited && level[w] <= level[v] + 1) || InFrontier(q, w, level[v] + 1)
  }

  /** The FIFO queue holds depths `d, ..., d, d+1, ..., d+1`. */
  ghost predicate Layered(q: seq<Item>)
  {
    (forall i, j :: 0 <= i <= j < |q| ==> Depth(q[i]) <= Depth(q[j])) &&
    (forall i :: 0 <= i < |q| ==> Depth(q[i]) <= Depth(q[0]) + 1)
  }

  /** Every visited state was expanded no deeper than any entry still queued. */
  ghost predicate LevelsBelow(q: seq<Item>, visited: set<State>, level: map<State, nat>)
  {
    visited == level.Keys &&
    forall v, i :: v in visited && 0 <= i < |q| ==> level[v] <= Depth(q[i])
  }

  /** The start state is expanded at level 0, or still queued at depth 0. */
  ghost predicate StartCovered(start: Pos, q: seq<Item>, visited: set<State>, level: map<State, nat>)
    requires visited <= level.Keys
  {
    (State(start, false) in visited ==> level[State(start, false)] == 0) &&
    (State(start, false) !in visited ==> InFrontier(q, State(start, false), 0))
  }

  /** The invariant of the breadth-first loop of `bfs`. */
  ghost predicate BfsInv(city: Map, restaurant: Pos, customer: Pos, start: Pos,
                         q: seq<Item>, visited: set<State>, level: map<State, nat>)
  {
    AllOk(city, restaurant, start, q) &&
    Layered(q) &&
    LevelsBelow(q, visited, level) &&
    Closed(city, restaurant, q, visited, level) &&
    StartCovered(start, q, visited, level) &&
    (forall v :: v in visited ==> !Delivered(customer, v)) &&
    visited <= States(city) + {State(start, false)}
  }

  lemma BfsLevelClosed(city: Map, restaurant: Pos, q: seq<Item>, visited: set<State>, level: map<State, nat>)
    requires LevelsBelow(q, visited, level) && Closed(city, restaurant, q, visited, level)
    ensures LevelClosed(city, restaurant, visited, level)
  {
  }

  /**
   * Any walk from `start` to an unvisited state has at least as many moves as
   * the front of the queue.
   */
  lemma BfsFrontier(city: Map, restaurant: Pos, customer: Pos, start: Pos,
                    q: seq<Item>, visited: set<State>, level: map<State, nat>, path: seq<Pos>)
    requires BfsInv(city, restaurant, customer, start, q, visited, level)
    requires IsWalk(city, path) && path[0] == start && StateOf(restaurant, path) !in visited
    ensures |q| > 0 && Depth(q[0]) <= |path| - 1
  {
    BfsLevelClosed(city, restaurant, q, visited, level);
    var i := FirstExit(city, restaurant, start, path, visited, level);
    var s := StateAt(restaurant, path, i);
    if i == 0 {
      assert InFrontier(q, s, 0);
    } else {
      var v := StateAt(restaurant, path, i - 1);
      assert InFrontier(q, s, level[v] + 1);
    }
    var j :| 0 <= j < |q| && ItemState(q[j]) == s && Depth(q[j]) <= i;
  }

  /** A delivered entry at the front of the queue is a shortest route. */
  lemma BfsGoalShortest(city: Map, restaurant: Pos, customer: Pos, start: Pos,
                        q: seq<Item>, visited: set<State>, level: map<State, nat>)
    requires BfsInv(city, restaurant, customer, start, q, visited, level)
    requires |q| > 0 && Delivered(customer, ItemState(q[0]))
    ensures Shortest(city, restaurant, customer, start, q[0].path)
  {
    forall w | Route(city, restaurant, customer, start, w)
      ensures |q[0].path| <= |w|
    {
      BfsFrontier(city, restaurant, customer, start, q, visited, level, w);
    }
  }

  /** With an empty queue every reachable state was expanded and no route exists. */
  lemma BfsExhausted(city: Map, restaurant: Pos, customer: Pos, start: Pos,
                     visited: set<State>, level: map<State, nat>)
    requires BfsInv(city, restaurant, customer, start, [], visited, level)
    ensures !RouteExists(city, restaurant, customer, start)
    ensures forall s :: Reachable(city, restaurant, start, s) ==> s in visited
  {
    if w :| Route(city, restaurant, customer, start, w) {
      BfsFrontier(city, restaurant, customer, start, [], visited, level, w);
    }
    ClosedReach(city, restaurant, start, visited);
  }

  /**
   * The entries the inner `for dr, dc in moves` loop appends after the first
   * `k` moves: one per move onto an open cell, in move order, each extending
   * the path by the new cell and updating the flag.
   */
  function Children(city: Map, restaurant: Pos, it: Item, k: nat): seq<Item>
    requires k <= |Moves|
  {
    if k == 0 then []
    else
      var p := Add(it.pos, Moves[k - 1]);
      Children(city, restaurant, it, k - 1) +
      (if IsValid(city, p) then [Item(p, NextFlag(restaurant, it.hasPizza, p), it.path + [p])] else [])
  }

  /**
   * The children of a well-formed entry are well-formed, one move deeper, and
   * cover every Step out of the entry's state.
   */
  lemma {:induction false} ChildrenOk(city: Map, restaurant: Pos, start: Pos, it: Item, k: nat)
    requires ItemOk(city, restaurant, start, it) && k <= |Moves|
    ensures AllOk(city, restaurant, start, Children(city, restaurant, it, k))
    ensures forall i :: 0 <= i < |Children(city, restaurant, it, k)| ==>
      Depth(Children(city, restaurant, it, k)[i]) == Depth(it) + 1
    ensures forall k' :: 0 <= k' < k && IsValid(city, Add(it.pos, Moves[k'])) ==>
      InFrontier(Children(city, restaurant, it, k), Successor(restaurant, ItemState(it), Moves[k']), Depth(it) + 1)
  {
    if k > 0 {
      ChildrenOk(city, restaurant, start, it, k - 1);
      var pre := Children(city, restaurant, it, k - 1);
      var p := Add(it.pos, Moves[k - 1]);
      var c := Children(city, restaurant, it, k);
      if IsValid(city, p) {
        var next := Item(p, NextFlag(restaurant, it.hasPizza, p), it.path + [p]);
        assert c == pre + [next];
        MoveIsAdjacent(it.pos, k - 1);
        StateOfExtend(city, restaurant, it.path, p);
        assert c[|pre|] == next;
        forall i | 0 <= i < |pre|
          ensures c[i] == pre[i]
        {
        }
        forall k' | 0 <= k' < k - 1 && IsValid(city, Add(it.pos, Moves[k']))
          ensures InFrontier(c, Successor(restaurant, ItemState(it), Moves[k']), Depth(it) + 1)
        {
          InFrontierAppend(pre, [next], Successor(restaurant, ItemState(it), Moves[k']), Depth(it) + 1);
        }
      } else {
        assert c == pre;
      }
    }
  }

  /** Every Step out of an entry's state is one of its children, one move deeper. */
  lemma ChildrenCover(city: Map, restaurant: Pos, start: Pos, it: Item, w: State)
    requires ItemOk(city, restaurant, start, it) && Step(city, restaurant, ItemState(it), w)
    ensures InFrontier(Children(city, restaurant, it, |Moves|), w, Depth(it) + 1)
  {
    ChildrenOk(city, restaurant, start, it, |Moves|);
    var k := StepIsMove(city, restaurant, ItemState(it), w);
  }

  /** The inner loop of `bfs` and `dfs`: append the children of `it` to `q`. */
  method Expand(city: Map, restaurant: Pos, it: Item, q: seq<Item>) returns (q': seq<Item>)
    ensures q' == q + Children(city, restaurant, it, |Moves|)
  {
    q' := q;
    for k := 0 to |Moves|
      invariant q' == q + Children(city, restaurant, it, k)
    {
      var dr, dc := Moves[k].0, Moves[k].1;
      var nr, nc := it.pos.0 + dr, it.pos.1 + dc;
      if !IsValid(city, (nr, nc)) {
        continue;
      }
      var newHasPizza := it.hasPizza;
      if (nr, nc) == restaurant {
        newHasPizza := true;
      }
      q' := q' + [Item((nr, nc), newHasPizza, it.path + [(nr, nc)])];
    }
  }

  /**
   * `bfs()`: breadth-first search that tests the goal when an entry is
   * dequeued and skips states already expanded. It returns a route with the
   * fewest moves, and None exactly when no route exists. `expanded` lists the
   * states in the order they were expanded: none twice, and when the search
   * fails, every state reachable from `start`.
   */
  method Bfs(city: Map, start: Pos, restaurant: Pos, customer: Pos)
    returns (r: Option<seq<Pos>>, ghost expanded: seq<State>)
    ensures r.Some? ==> Shortest(city, restaurant, customer, start, r.value)
    ensures r.None? <==> !RouteExists(city, restaurant, customer, start)
    ensures Distinct(expanded) && Elems(expanded) <= States(city) + {State(start, false)}
    ensures r.None? ==> forall s :: s in Elems(expanded) <==> Reachable(city, restaurant, start, s)
  {
    var q := [Item(start, false, [start])];
    var visited: set<State> := {};
    ghost var level: map<State, nat> := map[];
    ghost var all := States(city) + {State(start, false)};
    expanded := [];
    PickedUpStart(restaurant, start);
    assert ItemState(q[0]) == State(start, false);
    while q != []
      invariant BfsInv(city, restaurant, customer, start, q, visited, level)
      invariant forall v :: v in visited ==> Reachable(city, restaurant, start, v)
      invariant Distinct(expanded) && Elems(expanded) == visited
      decreases |all - visited|, |q|
    {
      ghost var q0 := q;
      var item := q[0];
      q := q[1..];
      if item.pos == customer && item.hasPizza {
        BfsGoalShortest(city, restaurant, customer, start, q0, visited, level);
        assert Route(city, restaurant, customer, start, item.path);
        return Some(item.path), expanded;
      }
      var s := State(item.pos, item.hasPizza);
      if s in visited {
        BfsSkip(city, restaurant, customer, start, q0, visited, level);
        continue;
      }
      BfsVisit(city, restaurant, customer, start, q0, visited, level);
      Shrinks(all, visited, s);
      visited := visited + {s};
      level := level[s := Depth(item)];
      DistinctAppend(expanded, s);
      expanded := expanded + [s];
      q := Expand(city, restaurant, item, q);
    }
    BfsExhausted(city, restaurant, customer, start, visited, level);
    return None, expanded;
  }

  /** Dequeuing an entry whose state is already expanded keeps the invariant. */
  lemma BfsSkip(city: Map, restaurant: Pos, customer: Pos, start: Pos,
                q0: seq<Item>, visited: set<State>, level: map<State, nat>)
    requires BfsInv(city, restaurant, customer, start, q0, visited, level)
    requires |q0| > 0 && ItemState(q0[0]) in visited
    ensures BfsInv(city, restaurant, customer, start, q0[1..], visited, level)
  {
    var q := q0[1..];
    forall v, w | v in visited && Step(city, restaurant, v, w)
      ensures (w in visited && level[w] <= level[v] + 1) || InFrontier(q, w, level[v] + 1)
    {
      if !(w in visited && level[w] <= level[v] + 1) {
        InFrontierPop(q0, w, level[v] + 1);
      }
    }
    if State(start, false) !in visited {
      InFrontierPop(q0, State(start, false), 0);
    }
  }

  /** Expanding the front entry and enqueueing its children keeps the invariant. */
  lemma BfsVisit(city: Map, restaurant: Pos, customer: Pos, start: Pos,
                 q0: seq<Item>, visited: set<State>, level: map<State, nat>)
    requires BfsInv(city, restaurant, customer, start, q0, visited, level)
    requires |q0| > 0 && !Delivered(customer, ItemState(q0[0])) && ItemState(q0[0]) !in visited
    ensures ItemState(q0[0]) in States(city) + {State(start, false)}
    ensures Reachable(city, restaurant, start, ItemState(q0[0]))
    ensures BfsInv(city, restaurant, customer, start, q0[1..] + Children(city, restaurant, q0[0], |Moves|),
                   visited + {ItemState(q0[0])}, level[ItemState(q0[0]) := Depth(q0[0])])
  {
    var item := q0[0];
    var s := ItemState(item);
    var kids := Children(city, restaurant, item, |Moves|);
    var q := q0[1..] + kids;
    assert ItemOk(city, restaurant, start, item);
    StateOfInStates(city, restaurant, start, item.path);
    ChildrenOk(city, restaurant, start, item, |Moves|);
    assert Depth(item) >= 0;
    assert q[..|q0| - 1] == q0[1..];
    forall i | 0 <= i < |q|
      ensures ItemOk(city, restaurant, start, q[i])
      ensures i >= |q0| - 1 ==> Depth(q[i]) == Depth(item) + 1
    {
      if i >= |q0| - 1 {
        assert q[i] == kids[i - (|q0| - 1)];
      }
    }
    VisitLayered(q0, q, Depth(item));
    VisitLevels(q0, q, visited, level, s, Depth(item));
    VisitClosed(city, restaurant, start, q0, q, visited, level, s, Depth(item));
    VisitStart(start, q0, q, visited, level, s, Depth(item));
  }

  lemma VisitLayered(q0: seq<Item>, q: seq<Item>, d: int)
    requires Layered(q0) && |q0| > 0 && Depth(q0[0]) == d
    requires |q| >= |q0| - 1 && q[..|q0| - 1] == q0[1..]
    requires forall i :: |q0| - 1 <= i < |q| ==> Depth(q[i]) == d + 1
    ensures Layered(q)
  {
    var m := |q0| - 1;
    forall i | 0 <= i < m
      ensures q[i] == q0[i + 1]
    {
      assert q[..m][i] == q[i];
    }
    forall i, j | 0 <= i <= j < |q|
      ensures Depth(q[i]) <= Depth(q[j])
    {
    }
    forall i | 0 <= i < |q|
      ensures Depth(q[i]) <= Depth(q[0]) + 1
    {
    }
  }

  lemma VisitLevels(q0: seq<Item>, q: seq<Item>, visited: set<State>, level: map<State, nat>, s: State, d: nat)
    requires LevelsBelow(q0, visited, level) && Layered(q0) && |q0| > 0 && Depth(q0[0]) == d
    requires |q| >= |q0| - 1 && q[..|q0| - 1] == q0[1..]
    requires forall i :: |q0| - 1 <= i < |q| ==> Depth(q[i]) == d + 1
    ensures LevelsBelow(q, visited + {s}, level[s := d])
  {
    var m := |q0| - 1;
    forall i | 0 <= i < m
      ensures q[i] == q0[i + 1]
    {
      assert q[..m][i] == q[i];
    }
  }

  lemma VisitClosed(city: Map, restaurant: Pos, start: Pos, q0: seq<Item>, q: seq<Item>,
                    visited: set<State>, level: map<State, nat>, s: State, d: nat)
    requires LevelsBelow(q0, visited, level) && Closed(city, restaurant, q0, visited, level)
    requires |q0| > 0 && Depth(q0[0]) == d && ItemState(q0[0]) == s && s !in visited
    requires ItemOk(city, restaurant, start, q0[0])
    requires q == q0[1..] + Children(city, restaurant, q0[0], |Moves|)
    ensures (visited + {s}) <= level[s := d].Keys
    ensures Closed(city, restaurant, q, visited + {s}, level[s := d])
  {
    var v1 := visited + {s};
    var l1 := level[s := d];
    var qMid := q0[1..];
    var kids := Children(city, restaurant, q0[0], |Moves|);
    forall v, w | v in v1 && Step(city, restaurant, v, w)
      ensures (w in v1 && l1[w] <= l1[v] + 1) || InFrontier(q, w, l1[v] + 1)
    {
      if v == s {
        ChildrenCover(city, restaurant, start, q0[0], w);
        var i :| 0 <= i < |kids| && ItemState(kids[i]) == w && Depth(kids[i]) <= d + 1;
        assert q[|qMid| + i] == kids[i];
      } else if !(w in visited && level[w] <= level[v] + 1) {
        InFrontierPop(q0, w, level[v] + 1);
        if InFrontier(qMid, w, level[v] + 1) {
          InFrontierAppend(qMid, kids, w, level[v] + 1);
        }
      }
    }
  }

  lemma VisitStart(start: Pos, q0: seq<Item>, q: seq<Item>,
                   visited: set<State>, level: map<State, nat>, s: State, d: nat)
    requires visited <= level.Keys && StartCovered(start, q0, visited, level)
    requires Layered(q0) && |q0| > 0 && Depth(q0[0]) == d && ItemState(q0[0]) == s && s !in visited
    requires |q| >= |q0| - 1 && q[..|q0| - 1] == q0[1..]
    ensures (visited + {s}) <= level[s := d].Keys
    ensures StartCovered(start, q, visited + {s}, level[s := d])
  {
    var qMid := q0[1..];
    assert q == qMid + q[|qMid|..];
    if State(start, false) !in visited {
      InFrontierPop(q0, State(start, false), 0);
      var j :| 0 <= j < |q0| && ItemState(q0[j]) == State(start, false) && Depth(q0[j]) <= 0;
      assert Depth(q0[0]) <= Depth(q0[j]);
      if s != State(start, false) {
        InFrontierAppend(qMid, q[|qMid|..], State(start, false), 0);
      }
    }
  }

  // ---------------- DFS ----------------

  /** Some entry of the stack is for state `s`. */
  ghost predicate OnStack(stack: seq<Item>, s: State)
  {
    exists i :: 0 <= i < |stack| && ItemState(stack[i]) == s
  }

  lemma OnStackPop(stack: seq<Item>, s: State)
    requires OnStack(stack, s) && |stack| > 0
    ensures ItemState(stack[|stack| - 1]) == s || OnStack(stack[..|stack| - 1], s)
  {
    var i :| 0 <= i < |stack| && ItemState(stack[i]) == s;
    if i < |stack| - 1 {
      assert stack[..|stack| - 1][i] == stack[i];
    }
  }

  lemma OnStackAppend(stack: seq<Item>, extra: seq<Item>, s: State)
    requires OnStack(stack, s)
    ensures OnStack(stack + extra, s)
  {
    var i :| 0 <= i < |stack| && ItemState(stack[i]) == s;
    assert (stack + extra)[i] == stack[i];
  }

  /** The invariant of the loop of `dfs`. */
  ghost predicate DfsInv(city: Map, restaurant: Pos, customer: Pos, start: Pos,
                         stack: seq<Item>, visited: set<State>)
  {
    AllOk(city, restaurant, start, stack) &&
    (forall v, w :: v in visited && Step(city, restaurant, v, w) ==> w in visited || OnStack(stack, w)) &&
    (State(start, false) in visited || OnStack(stack, State(start, false))) &&
    (forall v :: v in visited ==> !Delivered(customer, v)) &&
    visited <= States(city) + {State(start, false)}
  }

  /**
   * With an empty stack the expanded states are closed under Step, so they
   * hold every reachable state and no route exists.
   */
  lemma DfsExhausted(city: Map, restaurant: Pos, customer: Pos, start: Pos, visited: set<State>)
    requires DfsInv(city, restaurant, customer, start, [], visited)
    ensures !RouteExists(city, restaurant, customer, start)
    ensures forall s :: Reachable(city, restaurant, start, s) ==> s in visited
  {
    ClosedReach(city, restaurant, start, visited);
    if w :| Route(city, restaurant, customer, start, w) {
      assert Reachable(city, restaurant, start, StateOf(restaurant, w));
    }
  }

  lemma DfsSkip(city: Map, restaurant: Pos, customer: Pos, start: Pos, stack: seq<Item>, visited: set<State>)
    requires DfsInv(city, restaurant, customer, start, stack, visited)
    requires |stack| > 0 && ItemState(stack[|stack| - 1]) in visited
    ensures DfsInv(city, restaurant, customer, start, stack[..|stack| - 1], visited)
  {
    var rest := stack[..|stack| - 1];
    forall v, w | v in visited && Step(city, restaurant, v, w) && w !in visited
      ensures OnStack(rest, w)
    {
      OnStackPop(stack, w);
    }
    if State(start, false) !in visited {
      OnStackPop(stack, State(start, false));
    }
  }

  lemma DfsVisit(city: Map, restaurant: Pos, customer: Pos, start: Pos, stack: seq<Item>, visited: set<State>)
    requires DfsInv(city, restaurant, customer, start, stack, visited)
    requires |stack| > 0 && !Delivered(customer, ItemState(stack[|stack| - 1]))
    requires ItemState(stack[|stack| - 1]) !in visited
    ensures ItemState(stack[|stack| - 1]) in States(city) + {State(start, false)}
    ensures Reachable(city, restaurant, start, ItemState(stack[|stack| - 1]))
    ensures DfsInv(city, restaurant, customer, start,
                   stack[..|stack| - 1] + Children(city, restaurant, stack[|stack| - 1], |Moves|),
                   visited + {ItemState(stack[|stack| - 1])})
  {
    var item := stack[|stack| - 1];
    var s := ItemState(item);
    var rest := stack[..|stack| - 1];
    var kids := Children(city, restaurant, item, |Moves|);
    var st := rest + kids;
    assert ItemOk(city, restaurant, start, item);
    StateOfInStates(city, restaurant, start, item.path);
    ChildrenOk(city, restaurant, start, item, |Moves|);
    forall i | 0 <= i < |st|
      ensures ItemOk(city, restaurant, start, st[i])
    {
      if i < |rest| {
        assert st[i] == stack[i];
      } else {
        assert st[i] == kids[i - |rest|];
      }
    }
    forall v, w | v in visited + {s} && Step(city, restaurant, v, w) && w !in visited + {s}
      ensures OnStack(st, w)
    {
      if v == s {
        ChildrenCover(city, restaurant, start, item, w);
        var i :| 0 <= i < |kids| && ItemState(kids[i]) == w && Depth(kids[i]) <= Depth(item) + 1;
        assert st[|rest| + i] == kids[i];
      } else {
        OnStackPop(stack, w);
        OnStackAppend(rest, kids, w);
      }
    }
    if State(start, false) !in visited + {s} {
      OnStackPop(stack, State(start, false));
      OnStackAppend(rest, kids, State(start, false));
    }
  }

  /**
   * `dfs()`: depth-first search over an explicit stack, with the goal checked
   * when an entry is popped and expanded states skipped. It returns a route
   * (not necessarily a shortest one), and None exactly when no route exists.
   * `expanded` lists each expanded state once; when the search fails, these
   * are every state reachable from `start`.
   */
  method Dfs(city: Map, start: Pos, restaurant: Pos, customer: Pos)
    returns (r: Option<seq<Pos>>, ghost expanded: seq<State>)
    ensures r.Some? ==> Route(city, restaurant, customer, start, r.value)
    ensures r.None? <==> !RouteExists(city, restaurant, customer, start)
    ensures Distinct(expanded) && Elems(expanded) <= States(city) + {State(start, false)}
    ensures r.None? ==> forall s :: s in Elems(expanded) <==> Reachable(city, restaurant, start, s)
  {
    var stack := [Item(start, false, [start])];
    var visited: set<State> := {};
    ghost var all := States(city) + {State(start, false)};
    expanded := [];
    PickedUpStart(restaurant, start);
    assert ItemState(stack[0]) == State(start, false);
    while stack != []
      invariant DfsInv(city, restaurant, customer, start, stack, visited)
      invariant forall v :: v in visited ==> Reachable(city, restaurant, start, v)
      invariant Distinct(expanded) && Elems(expanded) == visited
      decreases |all - visited|, |stack|
    {
      ghost var st0 := stack;
      var item := stack[|stack| - 1];
      stack := stack[..|stack| - 1];
      if item.pos == customer && item.hasPizza {
        assert ItemOk(city, restaurant, start, st0[|st0| - 1]);
        assert Route(city, restaurant, customer, start, item.path);
        return Some(item.path), expanded;
      }
      var s := State(item.pos, item.hasPizza);
      if s in visited {
        DfsSkip(city, restaurant, customer, start, st0, visited);
        continue;
      }
      DfsVisit(city, restaurant, customer, start, st0, visited);
      Shrinks(all, visited, s);
      visited := visited + {s};
      DistinctAppend(expanded, s);
      expanded := expanded + [s];
      stack := Expand(city, restaurant, item, stack);
    }
    DfsExhausted(city, restaurant, customer, start, visited);
    return None, expanded;
  }

  // ---------------- Iterative deepening ----------------

  /**
   * The elements of `dls`'s `visited` set. The function adds pairs
   * `(pos, has_pizza)` but tests triples `(nr, nc, new_has_pizza)`; a pair
   * never equals a triple, so the test never prunes.
   */
  datatype Key = Pair(pos: Pos, hasPizza: bool) | Triple(r: int, c: int, hasPizza: bool)

  ghost predicate OnlyPairs(visited: set<Key>)
  {
    forall key :: key in visited ==> key.Pair?
  }

  /**
   * What `dls` computes: the goal is checked first, then the depth bound, then
   * the moves are tried in order and the first route found is returned.
   */
  function Explore(city: Map, restaurant: Pos, customer: Pos, s: State, path: seq<Pos>, depth: nat): Option<seq<Pos>>
    decreases depth, |Moves| + 1
  {
    if Delivered(customer, s) then Some(path)
    else if depth == 0 then None
    else ExploreMoves(city, restaurant, customer, s, path, depth, 0)
  }

  /** The first route found through moves `k ..` of the move list. */
  function ExploreMoves(city: Map, restaurant: Pos, customer: Pos, s: State, path: seq<Pos>, depth: nat, k: nat)
    : Option<seq<Pos>>
    requires depth > 0 && k <= |Moves|
    decreases depth, |Moves| - k
  {
    if k == |Moves| then None
    else
      var p := Add(s.pos, Moves[k]);
      if !IsValid(city, p) then ExploreMoves(city, restaurant, customer, s, path, depth, k + 1)
      else
        var res := Explore(city, restaurant, customer, Successor(restaurant, s, Moves[k]), path + [p], depth - 1);
        if res.Some? then res else ExploreMoves(city, restaurant, customer, s, path, depth, k + 1)
  }

  /**
   * `dls(pos, has_pizza, path, depth, visited)`. The shared `visited` set is
   * threaded through the recursion as a value. The result is Explore's: the
   * triple membership test never prunes, and `visited` keeps holding pairs only.
   */
  method Dls(city: Map, restaurant: Pos, customer: Pos, pos: Pos, hasPizza: bool, path: seq<Pos>, depth: nat,
             visited: set<Key>)
    returns (r: Option<seq<Pos>>, visited': set<Key>)
    requires OnlyPairs(visited)
    ensures r == Explore(city, restaurant, customer, State(pos, hasPizza), path, depth)
    ensures OnlyPairs(visited') && visited <= visited'
    decreases depth
  {
    visited' := visited;
    if pos == customer && hasPizza {
      return Some(path), visited';
    }
    if depth == 0 {
      return None, visited';
    }
    visited' := visited' + {Pair(pos, hasPizza)};
    var s := State(pos, hasPizza);
    for k := 0 to |Moves|
      invariant OnlyPairs(visited') && visited <= visited'
      invariant ExploreMoves(city, restaurant, customer, s, path, depth, 0) ==
                ExploreMoves(city, restaurant, customer, s, path, depth, k)
    {
      var dr, dc := Moves[k].0, Moves[k].1;
      var nr, nc := pos.0 + dr, pos.1 + dc;
      if !IsValid(city, (nr, nc)) {
        continue;
      }
      var newHasPizza := hasPizza;
      if (nr, nc) == restaurant {
        newHasPizza := true;
      }
      if Triple(nr, nc, newHasPizza) !in visited' {
        var result;
        result, visited' := Dls(city, restaurant, customer, (nr, nc), newHasPizza, path + [(nr, nc)], depth - 1, visited');
        if result.Some? {
          return result, visited';
        }
      } else {
        assert false;
      }
    }
    return None, visited';
  }

  /**
   * Whatever Explore returns from the end of a walk from `start` is a route
   * that extends the walk by at most `depth` moves.
   */
  lemma {:induction false} ExploreSound(city: Map, restaurant: Pos, customer: Pos, start: Pos,
                                        s: State, path: seq<Pos>, depth: nat)
    requires IsWalk(city, path) && path[0] == start && s == StateOf(restaurant, path)
    ensures Explore(city, restaurant, customer, s, path, depth).Some? ==>
      var p := Explore(city, restaurant, customer, s, path, depth).value;
      Route(city, restaurant, customer, start, p) && |path| <= |p| <= |path| + depth && p[..|path|] == path
    decreases depth, |Moves| + 1
  {
    if !Delivered(customer, s) && depth > 0 {
      ExploreMovesSound(city, restaurant, customer, start, s, path, depth, 0);
    }
  }

  lemma {:induction false} ExploreMovesSound(city: Map, restaurant: Pos, customer: Pos, start: Pos,
                                             s: State, path: seq<Pos>, depth: nat, k: nat)
    requires IsWalk(city, path) && path[0] == start && s == StateOf(restaurant, path)
    requires depth > 0 && k <= |Moves|
    ensures ExploreMoves(city, restaurant, customer, s, path, depth, k).Some? ==>
      var p := ExploreMoves(city, restaurant, customer, s, path, depth, k).value;
      Route(city, restaurant, customer, start, p) && |path| <= |p| <= |path| + depth && p[..|path|] == path
    decreases depth, |Moves| - k
  {
    if k < |Moves| {
      var p := Add(s.pos, Moves[k]);
      if IsValid(city, p) {
        MoveIsAdjacent(s.pos, k);
        StateOfExtend(city, restaurant, path, p);
        var ext := path + [p];
        ExploreSound(city, restaurant, customer, start, Successor(restaurant, s, Moves[k]), ext, depth - 1);
        var res := Explore(city, restaurant, customer, Successor(restaurant, s, Moves[k]), ext, depth - 1);
        if res.Some? {
          var r := res.value;
          assert r[..|path|] == r[..|ext|][..|path|];
          assert ext[..|path|] == path;
        }
      }
      ExploreMovesSound(city, restaurant, customer, start, s, path, depth, k + 1);
    }
  }

  /** A move onto an open cell whose subtree holds a route makes the move loop succeed. */
  lemma {:induction false} ExploreMovesReach(city: Map, restaurant: Pos, customer: Pos,
                                             s: State, path: seq<Pos>, depth: nat, j: nat, k: nat)
    requires depth > 0 && j <= k < |Moves| && IsValid(city, Add(s.pos, Moves[k]))
    requires Explore(city, restaurant, customer, Successor(restaurant, s, Moves[k]),
                     path + [Add(s.pos, Moves[k])], depth - 1).Some?
    ensures ExploreMoves(city, restaurant, customer, s, path, depth, j).Some?
    decreases k - j
  {
    if j < k {
      ExploreMovesReach(city, restaurant, customer, s, path, depth, j + 1, k);
    }
  }

  /**
   * Explore finds a route whenever some route extends the walk by at most
   * `depth` moves: nothing is pruned.
   */
  lemma {:induction false} ExploreComplete(city: Map, restaurant: Pos, customer: Pos, start: Pos,
                                           s: State, path: seq<Pos>, depth: nat, w: seq<Pos>)
    requires IsWalk(city, path) && path[0] == start && s == StateOf(restaurant, path)
    requires Route(city, restaurant, customer, start, w) && |path| <= |w| <= |path| + depth && w[..|path|] == path
    ensures Explore(city, restaurant, customer, s, path, depth).Some?
    decreases depth
  {
    if !Delivered(customer, s) {
      assert w[..|path|] == path;
      var p := w[|path|];
      assert w[|path| - 1] == path[|path| - 1];
      var k := AdjacentIsMove(s.pos, p);
      var ext := path + [p];
      StateOfExtend(city, restaurant, path, p);
      assert w[..|ext|] == ext;
      ExploreComplete(city, restaurant, customer, start, Successor(restaurant, s, Moves[k]), ext, depth - 1, w);
      ExploreMovesReach(city, restaurant, customer, s, path, depth, 0, k);
    }
  }

  /**
   * `ids(max_depth=50)`: depth-limited searches for depth 0, 1, ...,
   * `max_depth - 1`, each with a fresh visited set. A route it returns has the
   * fewest moves, fewer than `max_depth` of them; when it returns None, every
   * route has at least `max_depth` moves.
   */
  method Ids(city: Map, start: Pos, restaurant: Pos, customer: Pos, maxDepth: int := 50)
    returns (r: Option<seq<Pos>>)
    ensures r.Some? ==> Shortest(city, restaurant, customer, start, r.value) && |r.value| - 1 < maxDepth
    ensures r.None? ==> forall w :: Route(city, restaurant, customer, start, w) ==> |w| - 1 >= maxDepth
  {
    PickedUpStart(restaurant, start);
    var depth := 0;
    while depth < maxDepth
      invariant depth >= 0 && (maxDepth >= 0 ==> depth <= maxDepth)
      invariant forall w :: Route(city, restaurant, customer, start, w) ==> |w| - 1 >= depth
    {
      var visited: set<Key> := {};
      var result;
      result, visited := Dls(city, restaurant, customer, start, false, [start], depth, visited);
      ExploreSound(city, restaurant, customer, start, State(start, false), [start], depth);
      if result.Some? {
        return result;
      }
      forall w | Route(city, restaurant, customer, start, w)
        ensures |w| - 1 >= depth + 1
      {
        if |w| <= 1 + depth {
          assert w[..1] == [start];
          ExploreComplete(city, restaurant, customer, start, State(start, false), [start], depth, w);
        }
      }
      depth := depth + 1;
    }
    return None;
  }
}
