/**
 * The pizza-delivery state space shared by UninformedSearch.py and
 * InformedSearch.py: both files lay out the same city map, the same
 * Right/Down/Left/Up move list, the same `find` and `is_valid`, and the
 * same rule for the `has_pizza` flag. A search state is `(position, has_pizza)`;
 * the flag becomes true on entering the restaurant and is never cleared.
 */
module City {
  import opened Wrappers
  import opened Grid
  import opened Collections

  /** The city map of UninformedSearch.py:4-10 and InformedSearch.py:11-17 (5 rows, 7 columns). */
  const CityMap: Map := ["S...#..", "..##..C", ".R..#..", "...##..", "......."]

  /** Right, Down, Left, Up. */
  const Moves: seq<Pos> := [(0, 1), (1, 0), (0, -1), (-1, 0)]

  datatype State = State(pos: Pos, hasPizza: bool)

  /**
   * `find(symbol)`: the first cell in row-major order that holds `symbol`,
   * or None when the map has none.
   */
  method Find(city: Map, symbol: char) returns (r: Option<Pos>)
    ensures r.Some? ==> InBounds(city, r.value) && city[r.value.0][r.value.1] == symbol
    ensures r.Some? ==> forall i, j ::
      0 <= i < |city| && 0 <= j < |city[0]| && (i < r.value.0 || (i == r.value.0 && j < r.value.1)) ==>
        city[i][j] != symbol
    ensures r.None? <==> forall i, j :: 0 <= i < |city| && 0 <= j < |city[0]| ==> city[i][j] != symbol
  {
    for row := 0 to |city|
      invariant forall i, j :: 0 <= i < row && 0 <= j < |city[0]| ==> city[i][j] != symbol
    {
      for col := 0 to |city[0]|
        invariant forall j :: 0 <= j < col ==> city[row][j] != symbol
      {
        if city[row][col] == symbol {
          return Some((row, col));
        }
      }
    }
    return None;
  }

  /** The flag after entering `next` (UninformedSearch.py:49-51, InformedSearch.py:86-88). */
  function NextFlag(restaurant: Pos, hasPizza: bool, next: Pos): (b: bool)
    ensures b <==> hasPizza || next == restaurant
    ensures hasPizza ==> b
  {
    if next == restaurant then true else hasPizza
  }

  /** One move of the state graph: an adjacent open cell, with the flag updated. */
  ghost predicate Step(city: Map, restaurant: Pos, s: State, t: State)
  {
    Adjacent(s.pos, t.pos) && IsValid(city, t.pos) && t.hasPizza == NextFlag(restaurant, s.hasPizza, t.pos)
  }

  /** The state entered by applying offset `d` to `s`. */
  function Successor(restaurant: Pos, s: State, d: Pos): State
  {
    State(Add(s.pos, d), NextFlag(restaurant, s.hasPizza, Add(s.pos, d)))
  }

  /** Every Step is one of the four moves. */
  lemma StepIsMove(city: Map, restaurant: Pos, s: State, t: State) returns (k: nat)
    requires Step(city, restaurant, s, t)
    ensures k < |Moves| && t == Successor(restaurant, s, Moves[k]) && IsValid(city, Add(s.pos, Moves[k]))
  {
    k := AdjacentIsMove(s.pos, t.pos);
  }

  /** The goal test `pos == customer and has_pizza`. */
  predicate Delivered(customer: Pos, s: State)
  {
    s.pos == customer && s.hasPizza
  }

  /** Some cell after the first is the restaurant. */
  ghost predicate PickedUp(restaurant: Pos, path: seq<Pos>)
  {
    exists i :: 1 <= i < |path| && path[i] == restaurant
  }

  /** The state a search holds after following `path`. */
  ghost function StateOf(restaurant: Pos, path: seq<Pos>): State
    requires |path| > 0
  {
    State(path[|path| - 1], PickedUp(restaurant, path))
  }

  /** The state after the first `j + 1` cells of `path`. */
  ghost function StateAt(restaurant: Pos, path: seq<Pos>, j: nat): State
    requires j < |path|
  {
    StateOf(restaurant, path[..j + 1])
  }

  /** A pickup-respecting delivery route from `start`. */
  ghost predicate Route(city: Map, restaurant: Pos, customer: Pos, start: Pos, path: seq<Pos>)
  {
    IsWalk(city, path) && path[0] == start && Delivered(customer, StateOf(restaurant, path))
  }

  /** A route with the fewest moves among all routes. */
  ghost predicate Shortest(city: Map, restaurant: Pos, customer: Pos, start: Pos, path: seq<Pos>)
  {
    Route(city, restaurant, customer, start, path) &&
    forall w :: Route(city, restaurant, customer, start, w) ==> |path| <= |w|
  }

  ghost predicate RouteExists(city: Map, restaurant: Pos, customer: Pos, start: Pos)
  {
    exists w :: Route(city, restaurant, customer, start, w)
  }

  /** Every state whose position lies inside the map. */
  ghost function States(city: Map): set<State>
  {
    set r: int, c: int, b: bool | 0 <= r < |city| && 0 <= c < |city[0]| :: State((r, c), b)
  }

  lemma MoveIsAdjacent(p: Pos, k: nat)
    requires k < |Moves|
    ensures Adjacent(p, Add(p, Moves[k]))
  {
  }

  /** Every adjacent cell is reached by one of the four moves. */
  lemma AdjacentIsMove(p: Pos, q: Pos) returns (k: nat)
    requires Adjacent(p, q)
    ensures k < |Moves| && q == Add(p, Moves[k])
  {
    AdjacentIsOffset(p, q);
    var d := (q.0 - p.0, q.1 - p.1);
    k := if d == (0, 1) then 0 else if d == (1, 0) then 1 else if d == (0, -1) then 2 else 3;
  }

  lemma PickedUpStart(restaurant: Pos, p: Pos)
    ensures !PickedUp(restaurant, [p])
  {
  }

  /** Following one more cell sets the flag exactly as NextFlag does. */
  lemma PickedUpExtend(restaurant: Pos, path: seq<Pos>, p: Pos)
    requires |path| >= 1
    ensures PickedUp(restaurant, path + [p]) == NextFlag(restaurant, PickedUp(restaurant, path), p)
  {
    var ext := path + [p];
    if PickedUp(restaurant, path) {
      var i :| 1 <= i < |path| && path[i] == restaurant;
      assert ext[i] == restaurant;
    } else if p == restaurant {
      assert ext[|path|] == restaurant;
    } else {
      forall i | 1 <= i < |ext|
        ensures ext[i] != restaurant
      {
        if i < |path| {
          assert ext[i] == path[i];
        }
      }
    }
  }

  lemma StateOfExtend(city: Map, restaurant: Pos, path: seq<Pos>, p: Pos)
    requires IsWalk(city, path) && Adjacent(path[|path| - 1], p) && IsValid(city, p)
    ensures IsWalk(city, path + [p])
    ensures StateOf(restaurant, path + [p]) == State(p, NextFlag(restaurant, StateOf(restaurant, path).hasPizza, p))
    ensures Step(city, restaurant, StateOf(restaurant, path), StateOf(restaurant, path + [p]))
  {
    WalkExtend(city, path, p);
    PickedUpExtend(restaurant, path, p);
  }

  /** Consecutive states along a walk are related by Step. */
  lemma StepAt(city: Map, restaurant: Pos, path: seq<Pos>, j: nat)
    requires IsWalk(city, path) && 1 <= j < |path|
    ensures Step(city, restaurant, StateAt(restaurant, path, j - 1), StateAt(restaurant, path, j))
  {
    var pre := path[..j];
    assert path[..j + 1] == pre + [path[j]];
    WalkPrefix(city, path, j);
    assert pre[|pre| - 1] == path[j - 1];
    StateOfExtend(city, restaurant, pre, path[j]);
  }

  lemma StateAtLast(restaurant: Pos, path: seq<Pos>)
    requires |path| > 0
    ensures StateAt(restaurant, path, |path| - 1) == StateOf(restaurant, path)
  {
    assert path[..|path|] == path;
  }

  lemma StateAtFirst(restaurant: Pos, path: seq<Pos>)
    requires |path| > 0
    ensures StateAt(restaurant, path, 0) == State(path[0], false)
  {
    assert path[..1] == [path[0]];
    PickedUpStart(restaurant, path[0]);
  }

  /** The state of a walk from `start` is the start state or lies on the map. */
  lemma StateOfInStates(city: Map, restaurant: Pos, start: Pos, path: seq<Pos>)
    requires IsWalk(city, path) && path[0] == start
    ensures StateOf(restaurant, path) in States(city) + {State(start, false)}
  {
    var s := StateOf(restaurant, path);
    if |path| == 1 {
      PickedUpStart(restaurant, start);
    } else {
      assert IsValid(city, path[|path| - 1]);
      assert s == State((s.pos.0, s.pos.1), s.hasPizza);
    }
  }

  /** Along Step, levels grow by at most one inside the visited set. */
  ghost predicate LevelClosed(city: Map, restaurant: Pos, visited: set<State>, level: map<State, nat>)
  {
    visited <= level.Keys &&
    forall v, w :: v in visited && w in visited && Step(city, restaurant, v, w) ==> level[w] <= level[v] + 1
  }

  /**
   * The frontier argument common to every search over this state space: a walk
   * from `start` that ends outside `visited` leaves `visited` at some first
   * index `i`; every state before it is visited at a level no larger than its
   * index. The search's own frontier invariant then places the state at `i`
   * on the frontier.
   */
  lemma FirstExit(city: Map, restaurant: Pos, start: Pos, path: seq<Pos>,
                  visited: set<State>, level: map<State, nat>) returns (i: nat)
    requires IsWalk(city, path) && path[0] == start
    requires LevelClosed(city, restaurant, visited, level)
    requires State(start, false) in visited ==> level[State(start, false)] == 0
    requires StateOf(restaurant, path) !in visited
    ensures i < |path| && StateAt(restaurant, path, i) !in visited
    ensures i == 0 ==> StateAt(restaurant, path, i) == State(start, false)
    ensures i > 0 ==> StateAt(restaurant, path, i - 1) in visited
    ensures i > 0 ==> level[StateAt(restaurant, path, i - 1)] <= i - 1
    ensures i > 0 ==> Step(city, restaurant, StateAt(restaurant, path, i - 1), StateAt(restaurant, path, i))
  {
    StateAtLast(restaurant, path);
    StateAtFirst(restaurant, path);
    i := 0;
    while StateAt(restaurant, path, i) in visited
      invariant i < |path|
      invariant i > 0 ==> StateAt(restaurant, path, i - 1) in visited
      invariant i > 0 ==> level[StateAt(restaurant, path, i - 1)] <= i - 1
      decreases |path| - i
    {
      if i > 0 {
        StepAt(city, restaurant, path, i);
      }
      i := i + 1;
    }
    if i > 0 {
      StepAt(city, restaurant, path, i);
    }
  }

  /** Some walk from `start` leaves a search in state `s`. */
  ghost predicate Reachable(city: Map, restaurant: Pos, start: Pos, s: State)
  {
    exists w :: IsWalk(city, w) && w[0] == start && StateOf(restaurant, w) == s
  }

  /**
   * A set of states that holds the start state and every Step out of its
   * members holds every state reachable from `start`.
   */
  lemma ClosedReach(city: Map, restaurant: Pos, start: Pos, visited: set<State>)
    requires State(start, false) in visited
    requires forall v, w :: v in visited && Step(city, restaurant, v, w) ==> w in visited
    ensures forall s :: Reachable(city, restaurant, start, s) ==> s in visited
  {
    forall s | Reachable(city, restaurant, start, s)
      ensures s in visited
    {
      var w :| IsWalk(city, w) && w[0] == start && StateOf(restaurant, w) == s;
      if s !in visited {
        var level: map<State, nat> := map v | v in visited :: 0;
        var i := FirstExit(city, restaurant, start, w, visited, level);
      }
    }
  }

  /** A route that passes the restaurant before its last cell when the two differ. */
  lemma RouteVisitsRestaurantFirst(city: Map, restaurant: Pos, customer: Pos, start: Pos, path: seq<Pos>)
    requires Route(city, restaurant, customer, start, path) && restaurant != customer
    ensures exists i :: 1 <= i < |path| - 1 && path[i] == restaurant
  {
    var i :| 1 <= i < |path| && path[i] == restaurant;
    assert i != |path| - 1;
  }
}
