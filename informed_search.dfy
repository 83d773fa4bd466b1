/**
 * InformedSearch.py: A* search for a pickup-before-delivery route through the
 * city map. The heuristic is the Manhattan distance to the restaurant until
 * the pizza is collected and to the customer afterwards. The priority queue
 * (`heapq`) is a sequence of entries; popping returns its least entry in
 * Python's tuple order `(f, g, position, has_pizza, path)`.
 */
module InformedSearch {
  import opened Wrappers
  import opened Grid
  import opened City
  import opened Collections

  /** `heuristic(x, y, goal)`: the Manhattan distance from `(x, y)` to `goal`. */
  function Heuristic(x: int, y: int, goal: Pos): (h: nat)
    ensures h == 0 <==> (x, y) == goal
  {
    Abs(x - goal.0) + Abs(y - goal.1)
  }

  /** `target = customer if new_has_pizza else restaurant`. */
  function Target(restaurant: Pos, customer: Pos, hasPizza: bool): Pos
  {
    if hasPizza then customer else restaurant
  }

  /** The heuristic value an entry for state `s` carries: zero exactly at the current target. */
  function H(restaurant: Pos, customer: Pos, s: State): (h: nat)
    ensures h == 0 <==> s.pos == Target(restaurant, customer, s.hasPizza)
  {
    Heuristic(s.pos.0, s.pos.1, Target(restaurant, customer, s.hasPizza))
  }

  /** The heuristic vanishes exactly on delivered states... */
  lemma HZero(restaurant: Pos, customer: Pos, s: State)
    requires restaurant != customer
    ensures H(restaurant, customer, s) == 0 <==> Delivered(customer, s) || (!s.hasPizza && s.pos == restaurant)
  {
  }

  /** ...and changes by at most one per move, so it is consistent. */
  lemma HConsistent(city: Map, restaurant: Pos, customer: Pos, u: State, w: State)
    requires Step(city, restaurant, u, w)
    ensures H(restaurant, customer, u) <= 1 + H(restaurant, customer, w)
  {
    if u.hasPizza == w.hasPizza {
      ManhattanStep(u.pos, w.pos, Target(restaurant, customer, u.hasPizza));
    }
  }

  /**
   * Along a walk, the heuristic at index `i` is at most the number of moves
   * left plus the heuristic at the end: it never overestimates.
   */
  lemma {:induction false} HAlongWalk(city: Map, restaurant: Pos, customer: Pos, path: seq<Pos>, i: nat)
    requires IsWalk(city, path) && i < |path|
    ensures H(restaurant, customer, StateAt(restaurant, path, i))
         <= (|path| - 1 - i) + H(restaurant, customer, StateOf(restaurant, path))
    decreases |path| - i
  {
    if i == |path| - 1 {
      StateAtLast(restaurant, path);
    } else {
      var u := StateAt(restaurant, path, i);
      var w := StateAt(restaurant, path, i + 1);
      HAlongWalk(city, restaurant, customer, path, i + 1);
      StepAt(city, restaurant, path, i + 1);
      HConsistent(city, restaurant, customer, u, w);
      var hu, hw := H(restaurant, customer, u), H(restaurant, customer, w);
      assert hu <= 1 + hw && hw <= (|path| - 1 - (i + 1)) + H(restaurant, customer, StateOf(restaurant, path));
    }
  }

  /** A route from the start, which begins without the pizza, has at least as many moves as the start state's heuristic value. */
  lemma HAdmissible(city: Map, restaurant: Pos, customer: Pos, start: Pos, path: seq<Pos>)
    requires Route(city, restaurant, customer, start, path)
    ensures H(restaurant, customer, State(start, false)) <= |path| - 1
  {
    HAlongWalk(city, restaurant, customer, path, 0);
    StateAtFirst(restaurant, path);
  }

  // ---------------- The priority queue ----------------

  /** A heap entry `(f, g, position, has_pizza, path)`. */
  datatype Entry = Entry(f: int, g: int, pos: Pos, hasPizza: bool, path: seq<Pos>)

  function EState(e: Entry): State
  {
    State(e.pos, e.hasPizza)
  }

  /** List order on paths: the first differing cell decides, and a prefix comes first. */
  predicate PathLe(a: seq<Pos>, b: seq<Pos>)
  {
    if |a| == 0 then true
    else if |b| == 0 then false
    else if a[0] != b[0] then PosLt(a[0], b[0])
    else PathLe(a[1..], b[1..])
  }

  /** Tuple order on entries, with `False < True` on the flag. */
  predicate EntryLe(x: Entry, y: Entry)
  {
    x.f < y.f || (x.f == y.f &&
    (x.g < y.g || (x.g == y.g &&
    (PosLt(x.pos, y.pos) || (x.pos == y.pos &&
    ((!x.hasPizza && y.hasPizza) || (x.hasPizza == y.hasPizza && PathLe(x.path, y.path))))))))
  }

  lemma {:induction false} PathLeRefl(a: seq<Pos>)
    ensures PathLe(a, a)
  {
    if |a| > 0 {
      PathLeRefl(a[1..]);
    }
  }

  lemma {:induction false} PathLeTotal(a: seq<Pos>, b: seq<Pos>)
    ensures PathLe(a, b) || PathLe(b, a)
  {
    if |a| > 0 && |b| > 0 && a[0] == b[0] {
      PathLeTotal(a[1..], b[1..]);
    }
  }

  lemma {:induction false} PathLeTrans(a: seq<Pos>, b: seq<Pos>, c: seq<Pos>)
    requires PathLe(a, b) && PathLe(b, c)
    ensures PathLe(a, c)
  {
    if |a| > 0 && |b| > 0 && |c| > 0 && a[0] == b[0] && b[0] == c[0] {
      PathLeTrans(a[1..], b[1..], c[1..]);
    }
  }

  /** The entry order is total and transitive, so every nonempty heap has a least entry. */
  lemma EntryLeTotal(x: Entry, y: Entry)
    ensures EntryLe(x, y) || EntryLe(y, x)
  {
    PathLeTotal(x.path, y.path);
  }

  lemma EntryLeTrans(x: Entry, y: Entry, z: Entry)
    requires EntryLe(x, y) && EntryLe(y, z)
    ensures EntryLe(x, z)
  {
    if x.f == y.f == z.f && x.g == y.g == z.g && x.pos == y.pos == z.pos && x.hasPizza == y.hasPizza == z.hasPizza {
      PathLeTrans(x.path, y.path, z.path);
    }
  }

  /** The index of a least entry: the entry `heapq.heappop` returns. */
  function HeapMin(pq: seq<Entry>): (m: nat)
    requires |pq| > 0
    ensures m < |pq| && forall i :: 0 <= i < |pq| ==> EntryLe(pq[m], pq[i])
  {
    if |pq| == 1 then
      PathLeRefl(pq[0].path);
      0
    else
      var m' := HeapMin(pq[1..]) + 1;
      assert forall i :: 1 <= i < |pq| ==> pq[i] == pq[1..][i - 1];
      EntryLeTotal(pq[0], pq[m']);
      if EntryLe(pq[0], pq[m']) then
        assert forall i :: 1 <= i < |pq| ==> EntryLe(pq[0], pq[i]) by {
          forall i | 1 <= i < |pq|
            ensures EntryLe(pq[0], pq[i])
          {
            EntryLeTrans(pq[0], pq[m'], pq[i]);
          }
        }
        PathLeRefl(pq[0].path);
        0
      else
        assert EntryLe(pq[m'], pq[0]);
        m'
  }

  // ---------------- A* ----------------

  /** The entry records a walk from `start`, the state at its end, and `g` moves. */
  ghost predicate EntryOk(city: Map, restaurant: Pos, start: Pos, e: Entry)
  {
    IsWalk(city, e.path) && e.path[0] == start && EState(e) == StateOf(restaurant, e.path) && e.g == |e.path| - 1
  }

  ghost predicate AllOk(city: Map, restaurant: Pos, start: Pos, q: seq<Entry>)
  {
    forall e :: e in q ==> EntryOk(city, restaurant, start, e)
  }

  /** The first entry `(0, 0, start, False, [start])`. */
  function Init(start: Pos): Entry
  {
    Entry(0, 0, start, false, [start])
  }

  /** Some entry for `s` has `g` at most `b`. */
  ghost predicate InHeap(q: seq<Entry>, s: State, b: int)
  {
    exists e :: e in q && EState(e) == s && e.g <= b
  }

  /**
   * The entries for the first `k` moves out of `e` that `a_star_pizza` pushes:
   * one per open cell, with `g + 1` moves and `f = g + 1 + h`.
   */
  function AChildren(city: Map, restaurant: Pos, customer: Pos, e: Entry, k: nat): seq<Entry>
    requires k <= |Moves|
  {
    if k == 0 then []
    else
      var p := Add(e.pos, Moves[k - 1]);
      var flag := NextFlag(restaurant, e.hasPizza, p);
      AChildren(city, restaurant, customer, e, k - 1) +
      (if IsValid(city, p)
       then [Entry(e.g + 1 + Heuristic(p.0, p.1, Target(restaurant, customer, flag)), e.g + 1, p, flag, e.path + [p])]
       else [])
  }

  /** Children are well formed, carry `f = g + h` and are one move from `e`. */
  lemma {:induction false} AChildrenSound(city: Map, restaurant: Pos, customer: Pos, start: Pos, e: Entry, k: nat)
    requires EntryOk(city, restaurant, start, e) && k <= |Moves|
    ensures forall c :: c in AChildren(city, restaurant, customer, e, k) ==>
      EntryOk(city, restaurant, start, c) && c.g == e.g + 1 && c.f == c.g + H(restaurant, customer, EState(c)) &&
      Step(city, restaurant, EState(e), EState(c))
  {
    if k > 0 {
      AChildrenSound(city, restaurant, customer, start, e, k - 1);
      var pre := AChildren(city, restaurant, customer, e, k - 1);
      var p := Add(e.pos, Moves[k - 1]);
      var cs := AChildren(city, restaurant, customer, e, k);
      if IsValid(city, p) {
        var flag := NextFlag(restaurant, e.hasPizza, p);
        var c := Entry(e.g + 1 + Heuristic(p.0, p.1, Target(restaurant, customer, flag)), e.g + 1, p, flag, e.path + [p]);
        assert cs == pre + [c];
        MoveIsAdjacent(e.pos, k - 1);
        StateOfExtend(city, restaurant, e.path, p);
        assert EntryOk(city, restaurant, start, c);
      } else {
        assert cs == pre;
      }
    }
  }

  /** Every open move out of `e` has a child entry with `g + 1` moves. */
  lemma {:induction false} AChildrenCover(city: Map, restaurant: Pos, customer: Pos, e: Entry, k: nat)
    requires k <= |Moves|
    ensures forall k' :: 0 <= k' < k && IsValid(city, Add(e.pos, Moves[k'])) ==>
      InHeap(AChildren(city, restaurant, customer, e, k), Successor(restaurant, EState(e), Moves[k']), e.g + 1)
  {
    if k > 0 {
      AChildrenCover(city, restaurant, customer, e, k - 1);
      var pre := AChildren(city, restaurant, customer, e, k - 1);
      var p := Add(e.pos, Moves[k - 1]);
      var cs := AChildren(city, restaurant, customer, e, k);
      if IsValid(city, p) {
        var flag := NextFlag(restaurant, e.hasPizza, p);
        var c := Entry(e.g + 1 + Heuristic(p.0, p.1, Target(restaurant, customer, flag)), e.g + 1, p, flag, e.path + [p]);
        assert cs == pre + [c];
        assert c in cs && EState(c) == Successor(restaurant, EState(e), Moves[k - 1]);
      } else {
        assert cs == pre;
      }
    }
  }

  /** Children are well formed, carry `f = g + h` and cover every move out of `e`. */
  lemma AChildrenOk(city: Map, restaurant: Pos, customer: Pos, start: Pos, e: Entry, k: nat)
    requires EntryOk(city, restaurant, start, e) && k <= |Moves|
    ensures forall c :: c in AChildren(city, restaurant, customer, e, k) ==>
      EntryOk(city, restaurant, start, c) && c.g == e.g + 1 && c.f == c.g + H(restaurant, customer, EState(c)) &&
      Step(city, restaurant, EState(e), EState(c))
    ensures forall k' :: 0 <= k' < k && IsValid(city, Add(e.pos, Moves[k'])) ==>
      InHeap(AChildren(city, restaurant, customer, e, k), Successor(restaurant, EState(e), Moves[k']), e.g + 1)
  {
    AChildrenSound(city, restaurant, customer, start, e, k);
    AChildrenCover(city, restaurant, customer, e, k);
  }

  /** The inner loop of `a_star_pizza`: push the children of `e` onto the heap. */
  method PushChildren(city: Map, restaurant: Pos, customer: Pos, e: Entry, pq: seq<Entry>) returns (pq': seq<Entry>)
    ensures pq' == pq + AChildren(city, restaurant, customer, e, |Moves|)
  {
    pq' := pq;
    for k := 0 to |Moves|
      invariant pq' == pq + AChildren(city, restaurant, customer, e, k)
    {
      var dr, dc := Moves[k].0, Moves[k].1;
      var nr, nc := e.pos.0 + dr, e.pos.1 + dc;
      if !IsValid(city, (nr, nc)) {
        continue;
      }
      var newHasPizza := e.hasPizza;
      if (nr, nc) == restaurant {
        newHasPizza := true;
      }
      var target := if newHasPizza then customer else restaurant;
      var h := Heuristic(nr, nc, target);
      pq' := pq' + [Entry(e.g + 1 + h, e.g + 1, (nr, nc), newHasPizza, e.path + [(nr, nc)])];
    }
  }

  /** Entry bookkeeping: before the first expansion the heap holds the first entry only. */
  ghost predicate Priorities(restaurant: Pos, customer: Pos, start: Pos, q: seq<Entry>, visited: set<State>)
  {
    (visited == {} ==> q == [Init(start)]) &&
    (visited != {} ==> forall e :: e in q ==> e.f == e.g + H(restaurant, customer, EState(e)))
  }

  /** Expanded states were expanded with `g + h` no larger than any queued `f`. */
  ghost predicate Settled(restaurant: Pos, customer: Pos, q: seq<Entry>, visited: set<State>, level: map<State, nat>)
  {
    visited == level.Keys &&
    forall v, e :: v in visited && e in q ==> level[v] + H(restaurant, customer, v) <= e.f
  }

  /** Every successor of an expanded state is expanded, or queued no deeper than one more move. */
  ghost predicate AClosed(city: Map, restaurant: Pos, q: seq<Entry>, visited: set<State>, level: map<State, nat>)
    requires visited <= level.Keys
  {
    forall v, w :: v in visited && Step(city, restaurant, v, w) ==> w in visited || InHeap(q, w, level[v] + 1)
  }

  ghost predicate AStartCovered(start: Pos, q: seq<Entry>, visited: set<State>, level: map<State, nat>)
    requires visited <= level.Keys
  {
    (State(start, false) in visited ==> level[State(start, false)] == 0) &&
    (State(start, false) !in visited ==> InHeap(q, State(start, false), 0))
  }

  /** The invariant of the loop of `a_star_pizza`. */
  ghost predicate AInv(city: Map, restaurant: Pos, customer: Pos, start: Pos,
                       q: seq<Entry>, visited: set<State>, level: map<State, nat>)
  {
    AllOk(city, restaurant, start, q) &&
    Priorities(restaurant, customer, start, q, visited) &&
    Settled(restaurant, customer, q, visited, level) &&
    LevelClosed(city, restaurant, visited, level) &&
    AClosed(city, restaurant, q, visited, level) &&
    AStartCovered(start, q, visited, level) &&
    (forall v :: v in visited ==> !Delivered(customer, v)) &&
    visited <= States(city) + {State(start, false)}
  }

  /** Every queued entry has `g <= f <= g + h`. */
  lemma PriorityBounds(restaurant: Pos, customer: Pos, start: Pos, q: seq<Entry>, visited: set<State>, e: Entry)
    requires Priorities(restaurant, customer, start, q, visited) && e in q
    ensures e.g <= e.f <= e.g + H(restaurant, customer, EState(e))
  {
  }

  /** Every route has at least as many moves as the `f` of some queued entry. */
  lemma AFrontier(city: Map, restaurant: Pos, customer: Pos, start: Pos,
                  q: seq<Entry>, visited: set<State>, level: map<State, nat>, w: seq<Pos>)
    requires AInv(city, restaurant, customer, start, q, visited, level)
    requires Route(city, restaurant, customer, start, w)
    ensures exists e :: e in q && e.f <= |w| - 1
  {
    var i := FirstExit(city, restaurant, start, w, visited, level);
    var s := StateAt(restaurant, w, i);
    var b := if i == 0 then 0 else level[StateAt(restaurant, w, i - 1)] + 1;
    assert InHeap(q, s, b);
    var e :| e in q && EState(e) == s && e.g <= b;
    PriorityBounds(restaurant, customer, start, q, visited, e);
    HAlongWalk(city, restaurant, customer, w, i);
    assert H(restaurant, customer, StateOf(restaurant, w)) == 0;
  }

  /** A delivered entry popped as the least one is a shortest route. */
  lemma AGoalShortest(city: Map, restaurant: Pos, customer: Pos, start: Pos,
                      q: seq<Entry>, visited: set<State>, level: map<State, nat>, m: nat)
    requires AInv(city, restaurant, customer, start, q, visited, level)
    requires m < |q| && (forall i :: 0 <= i < |q| ==> EntryLe(q[m], q[i]))
    requires Delivered(customer, EState(q[m]))
    ensures Shortest(city, restaurant, customer, start, q[m].path)
  {
    assert q[m] in q;
    PriorityBounds(restaurant, customer, start, q, visited, q[m]);
    forall w | Route(city, restaurant, customer, start, w)
      ensures |q[m].path| <= |w|
    {
      AFrontier(city, restaurant, customer, start, q, visited, level, w);
      var e :| e in q && e.f <= |w| - 1;
      var i :| 0 <= i < |q| && q[i] == e;
    }
  }

  /** With an empty heap every reachable state was expanded and no route exists. */
  lemma AExhausted(city: Map, restaurant: Pos, customer: Pos, start: Pos,
                   visited: set<State>, level: map<State, nat>)
    requires AInv(city, restaurant, customer, start, [], visited, level)
    ensures !RouteExists(city, restaurant, customer, start)
    ensures forall s :: Reachable(city, restaurant, start, s) ==> s in visited
  {
    if w :| Route(city, restaurant, customer, start, w) {
      AFrontier(city, restaurant, customer, start, [], visited, level, w);
    }
    ClosedReach(city, restaurant, start, visited);
  }

  lemma InHeapRemove(q: seq<Entry>, m: nat, s: State, b: int)
    requires m < |q| && InHeap(q, s, b) && EState(q[m]) != s
    ensures InHeap(RemoveAt(q, m), s, b)
  {
    var e :| e in q && EState(e) == s && e.g <= b;
    assert e in RemoveAt(q, m);
  }

  lemma InHeapAppend(q: seq<Entry>, extra: seq<Entry>, s: State, b: int)
    requires InHeap(q, s, b)
    ensures InHeap(q + extra, s, b)
  {
    var e :| e in q && EState(e) == s && e.g <= b;
    assert e in q + extra;
  }

  /** Popping an entry whose state is expanded keeps the invariant. */
  lemma ASkip(city: Map, restaurant: Pos, customer: Pos, start: Pos,
              q: seq<Entry>, visited: set<State>, level: map<State, nat>, m: nat)
    requires AInv(city, restaurant, customer, start, q, visited, level)
    requires m < |q| && EState(q[m]) in visited
    ensures AInv(city, restaurant, customer, start, RemoveAt(q, m), visited, level)
  {
    var rest := RemoveAt(q, m);
    forall v, w | v in visited && Step(city, restaurant, v, w) && w !in visited
      ensures InHeap(rest, w, level[v] + 1)
    {
      InHeapRemove(q, m, w, level[v] + 1);
    }
    if State(start, false) !in visited {
      InHeapRemove(q, m, State(start, false), 0);
    }
  }

  /** The state of the least entry enters `visited` with level `g`. */
  lemma AVisitLevels(city: Map, restaurant: Pos, customer: Pos, start: Pos,
                     q: seq<Entry>, visited: set<State>, level: map<State, nat>, m: nat)
    requires AInv(city, restaurant, customer, start, q, visited, level)
    requires m < |q| && (forall i :: 0 <= i < |q| ==> EntryLe(q[m], q[i])) && EState(q[m]) !in visited
    ensures q[m].g >= 0
    ensures LevelClosed(city, restaurant, visited + {EState(q[m])}, level[EState(q[m]) := q[m].g])
    ensures State(start, false) == EState(q[m]) ==> q[m].g == 0
  {
    var e := q[m];
    var s := EState(e);
    var l1 := level[s := e.g];
    assert e in q;
    PriorityBounds(restaurant, customer, start, q, visited, e);
    forall v, w | v in visited + {s} && w in visited + {s} && Step(city, restaurant, v, w)
      ensures l1[w] <= l1[v] + 1
    {
      if w == s && v != s {
        var x :| x in q && EState(x) == s && x.g <= level[v] + 1;
        var i :| 0 <= i < |q| && q[i] == x;
        PriorityBounds(restaurant, customer, start, q, visited, x);
      } else if v == s && w != s {
        HConsistent(city, restaurant, customer, v, w);
      }
    }
    if State(start, false) == s && s !in visited {
      var x :| x in q && EState(x) == s && x.g <= 0;
      var i :| 0 <= i < |q| && q[i] == x;
      PriorityBounds(restaurant, customer, start, q, visited, x);
    }
  }

  /** Expanding the least entry and pushing its children keeps the `f` bounds. */
  lemma AVisitSettled(city: Map, restaurant: Pos, customer: Pos, start: Pos,
                      q: seq<Entry>, visited: set<State>, level: map<State, nat>, m: nat)
    requires AInv(city, restaurant, customer, start, q, visited, level)
    requires m < |q| && (forall i :: 0 <= i < |q| ==> EntryLe(q[m], q[i])) && EState(q[m]) !in visited
    requires q[m].g >= 0
    ensures Settled(restaurant, customer, RemoveAt(q, m) + AChildren(city, restaurant, customer, q[m], |Moves|),
                    visited + {EState(q[m])}, level[EState(q[m]) := q[m].g])
    ensures Priorities(restaurant, customer, start, RemoveAt(q, m) + AChildren(city, restaurant, customer, q[m], |Moves|),
                       visited + {EState(q[m])})
  {
    var e := q[m];
    var s := EState(e);
    var rest := RemoveAt(q, m);
    var kids := AChildren(city, restaurant, customer, e, |Moves|);
    var q1 := rest + kids;
    assert e in q;
    PriorityBounds(restaurant, customer, start, q, visited, e);
    AChildrenOk(city, restaurant, customer, start, e, |Moves|);
    if visited == {} {
      assert rest == [];
    }
    forall x: Entry | x in q1
      ensures x.f == x.g + H(restaurant, customer, EState(x))
      ensures e.f <= x.f && e.g + H(restaurant, customer, s) <= x.f
    {
      if x in rest {
        var i :| 0 <= i < |q| && q[i] == x;
      } else {
        HConsistent(city, restaurant, customer, s, EState(x));
      }
    }
  }

  /** Expanding the least entry and pushing its children keeps the frontier closed. */
  lemma AVisitClosed(city: Map, restaurant: Pos, customer: Pos, start: Pos,
                     q: seq<Entry>, visited: set<State>, level: map<State, nat>, m: nat)
    requires AInv(city, restaurant, customer, start, q, visited, level)
    requires m < |q| && EState(q[m]) !in visited && q[m].g >= 0
    ensures AClosed(city, restaurant, RemoveAt(q, m) + AChildren(city, restaurant, customer, q[m], |Moves|),
                    visited + {EState(q[m])}, level[EState(q[m]) := q[m].g])
    ensures EState(q[m]) != State(start, false) ==>
      AStartCovered(start, RemoveAt(q, m) + AChildren(city, restaurant, customer, q[m], |Moves|),
                    visited + {EState(q[m])}, level[EState(q[m]) := q[m].g])
  {
    var e := q[m];
    var s := EState(e);
    var rest := RemoveAt(q, m);
    var kids := AChildren(city, restaurant, customer, e, |Moves|);
    var q1 := rest + kids;
    var v1 := visited + {s};
    var l1 := level[s := e.g];
    assert e in q;
    AChildrenOk(city, restaurant, customer, start, e, |Moves|);
    forall v, w | v in v1 && Step(city, restaurant, v, w) && w !in v1
      ensures InHeap(q1, w, l1[v] + 1)
    {
      if v == s {
        var k := StepIsMove(city, restaurant, v, w);
        var x :| x in kids && EState(x) == w && x.g <= e.g + 1;
        assert x in q1;
      } else {
        InHeapRemove(q, m, w, level[v] + 1);
        InHeapAppend(rest, kids, w, level[v] + 1);
      }
    }
    if s != State(start, false) && State(start, false) !in visited {
      InHeapRemove(q, m, State(start, false), 0);
      InHeapAppend(rest, kids, State(start, false), 0);
    }
  }

  /** Expanding the least entry and pushing its children keeps the invariant. */
  lemma AVisit(city: Map, restaurant: Pos, customer: Pos, start: Pos,
               q: seq<Entry>, visited: set<State>, level: map<State, nat>, m: nat)
    requires AInv(city, restaurant, customer, start, q, visited, level)
    requires m < |q| && (forall i :: 0 <= i < |q| ==> EntryLe(q[m], q[i]))
    requires EState(q[m]) !in visited && !Delivered(customer, EState(q[m]))
    ensures EState(q[m]) in States(city) + {State(start, false)}
    ensures Reachable(city, restaurant, start, EState(q[m]))
    ensures q[m].g >= 0
    ensures AInv(city, restaurant, customer, start,
                 RemoveAt(q, m) + AChildren(city, restaurant, customer, q[m], |Moves|),
                 visited + {EState(q[m])}, level[EState(q[m]) := q[m].g])
  {
    var e := q[m];
    var rest := RemoveAt(q, m);
    var kids := AChildren(city, restaurant, customer, e, |Moves|);
    assert e in q;
    StateOfInStates(city, restaurant, start, e.path);
    AChildrenOk(city, restaurant, customer, start, e, |Moves|);
    AVisitLevels(city, restaurant, customer, start, q, visited, level, m);
    AVisitSettled(city, restaurant, customer, start, q, visited, level, m);
    AVisitClosed(city, restaurant, customer, start, q, visited, level, m);
    assert AllOk(city, restaurant, start, rest + kids);
  }

  /**
   * `a_star_pizza()`: A* with the goal checked when an entry is popped and
   * expanded states skipped. The heuristic is consistent, so the route it
   * returns has the fewest moves; it returns None exactly when no route
   * exists, and expands no state twice. When it fails, the states it
   * expanded are every state reachable from `start`.
   */
  method AStarPizza(city: Map, start: Pos, restaurant: Pos, customer: Pos)
    returns (r: Option<seq<Pos>>, ghost expanded: seq<State>)
    ensures r.Some? ==> Shortest(city, restaurant, customer, start, r.value)
    ensures r.None? <==> !RouteExists(city, restaurant, customer, start)
    ensures Distinct(expanded) && Elems(expanded) <= States(city) + {State(start, false)}
    ensures r.None? ==> forall s :: s in Elems(expanded) <==> Reachable(city, restaurant, start, s)
  {
    var pq := [Init(start)];
    var visited: set<State> := {};
    ghost var level: map<State, nat> := map[];
    ghost var all := States(city) + {State(start, false)};
    expanded := [];
    PickedUpStart(restaurant, start);
    assert EState(pq[0]) == State(start, false) && pq[0] in pq;
    while pq != []
      invariant AInv(city, restaurant, customer, start, pq, visited, level)
      invariant forall v :: v in visited ==> Reachable(city, restaurant, start, v)
      invariant Distinct(expanded) && Elems(expanded) == visited
      decreases |all - visited|, |pq|
    {
      ghost var q0 := pq;
      var m := HeapMin(pq);
      var e := pq[m];
      pq := RemoveAt(pq, m);
      if e.pos == customer && e.hasPizza {
        AGoalShortest(city, restaurant, customer, start, q0, visited, level, m);
        assert Route(city, restaurant, customer, start, e.path);
        return Some(e.path), expanded;
      }
      var state := State(e.pos, e.hasPizza);
      if state in visited {
        ASkip(city, restaurant, customer, start, q0, visited, level, m);
        continue;
      }
      AVisit(city, restaurant, customer, start, q0, visited, level, m);
      Shrinks(all, visited, state);
      visited := visited + {state};
      level := level[state := e.g];
      DistinctAppend(expanded, state);
      expanded := expanded + [state];
      pq := PushChildren(city, restaurant, customer, e, pq);
    }
    AExhausted(city, restaurant, customer, start, visited, level);
    return None, expanded;
  }
}
