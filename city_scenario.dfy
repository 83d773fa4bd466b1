/**
 * The concrete delivery problem that UninformedSearch.py and
 * InformedSearch.py solve at module level: on the city map, `find` places
 * the start at (0, 0), the restaurant at (2, 1) and the customer at (1, 6),
 * and every pickup-respecting route visits 14 cells at least, because the
 * walls leave (4, 4) as the only way from the western columns to the
 * customer's side. The searches that return shortest routes therefore
 * return routes of exactly 14 cells.
 */
module CityScenario {
  import opened Wrappers
  import opened Grid
  import opened City
  import UninformedSearch
  import InformedSearch

  const Start: Pos := (0, 0)
  const Restaurant: Pos := (2, 1)
  const Customer: Pos := (1, 6)

  /** A shortest delivery: up to the restaurant in 3 moves, then 10 moves around the walls through (4, 4). */
  const Delivery: seq<Pos> :=
    [(0, 0), (0, 1), (1, 1), (2, 1), (3, 1), (4, 1), (4, 2), (4, 3), (4, 4), (4, 5), (3, 5), (2, 5), (1, 5), (1, 6)]

  /** The rows of the city map, one by one. */
  lemma CityRows()
    ensures |CityMap| == 5 && |CityMap[0]| == 7
    ensures CityMap[0] == "S...#.." && CityMap[1] == "..##..C" && CityMap[2] == ".R..#.."
    ensures CityMap[3] == "...##.." && CityMap[4] == "......."
  {
  }

  /** `find` on the city map locates S, R and C where the module-level code expects them. */
  method Landmarks() returns (s: Option<Pos>, r: Option<Pos>, c: Option<Pos>)
    ensures s == Some(Start) && r == Some(Restaurant) && c == Some(Customer)
  {
    CityRows();
    s := Find(CityMap, 'S');
    assert CityMap[0][0] == 'S';
    r := Find(CityMap, 'R');
    assert CityMap[2][1] == 'R';
    OnlyAt(r.value, 'R', Restaurant);
    c := Find(CityMap, 'C');
    assert CityMap[1][6] == 'C';
    OnlyAt(c.value, 'C', Customer);
  }

  /** A cell of the map that holds `symbol` and is not after `at` in row-major order is `at` itself. */
  lemma OnlyAt(p: Pos, symbol: char, at: Pos)
    requires (symbol, at) == ('R', Restaurant) || (symbol, at) == ('C', Customer)
    requires InBounds(CityMap, p) && CityMap[p.0][p.1] == symbol && !PosLt(at, p)
    ensures p == at
  {
    CityRows();
  }

  /** The delivery above is a pickup-respecting route. */
  lemma DeliveryRoute()
    ensures Route(CityMap, Restaurant, Customer, Start, Delivery) && |Delivery| == 14
  {
    DeliveryOpen();
    assert forall i :: 1 <= i < |Delivery| ==> Adjacent(Delivery[i - 1], Delivery[i]);
    assert Delivery[3] == Restaurant;
  }

  /** Every cell of the delivery after the start is open. */
  lemma DeliveryOpen()
    ensures forall i :: 1 <= i < |Delivery| ==> IsValid(CityMap, Delivery[i])
  {
    CityRows();
    var d := Delivery;
    assert forall i :: 1 <= i < |d| ==> InBounds(CityMap, d[i]);
    assert forall i :: 1 <= i < 8 ==> CityMap[d[i].0][d[i].1] != '#';
    assert forall i :: 8 <= i < |d| ==> CityMap[d[i].0][d[i].1] != '#';
  }

  /**
   * A walk from an open cell in columns 0-3 to a cell in columns 5-6 passes
   * through (4, 4): the other open cell of column 4, (1, 4), is walled in on
   * its west side.
   */
  lemma {:induction false} Gate(path: seq<Pos>, i: nat, j: nat) returns (m: nat)
    requires IsWalk(CityMap, path) && i <= j < |path|
    requires IsValid(CityMap, path[i]) && path[i].1 <= 3 && path[j].1 >= 5
    ensures i < m <= j && path[m] == (4, 4)
  {
    CityRows();
    assert Adjacent(path[j - 1], path[j]);
    if path[j - 1].1 >= 5 {
      m := Gate(path, i, j - 1);
    } else if path[j - 1] == (4, 4) {
      m := j - 1;
    } else {
      assert path[j - 1].1 == 4 && IsValid(CityMap, path[j - 1]);
      assert path[j - 1] == (1, 4) by {
        assert CityMap[0][4] == '#' && CityMap[2][4] == '#' && CityMap[3][4] == '#';
      }
      assert i < j - 1;
      assert Adjacent(path[j - 2], path[j - 1]);
      assert path[j - 2] == (1, 5) by {
        assert IsValid(CityMap, path[j - 2]);
        assert CityMap[0][4] == '#' && CityMap[2][4] == '#' && CityMap[1][3] == '#';
      }
      m := Gate(path, i, j - 2);
    }
  }

  /** Every pickup-respecting route from the start to the customer visits at least 14 cells. */
  lemma RouteLength(w: seq<Pos>)
    requires Route(CityMap, Restaurant, Customer, Start, w)
    ensures |w| >= 14
  {
    CityRows();
    var n := |w|;
    var a :| 1 <= a < n && w[a] == Restaurant;
    assert w[n - 1] == Customer;
    WalkCoversManhattan(CityMap, w, 0, a);
    var m := Gate(w, a, n - 1);
    WalkCoversManhattan(CityMap, w, a, m);
    WalkCoversManhattan(CityMap, w, m, n - 1);
  }

  /** `bfs()` on the city returns a route of 14 cells. */
  method CityBfs() returns (r: Option<seq<Pos>>)
    ensures r.Some? && |r.value| == 14 && Shortest(CityMap, Restaurant, Customer, Start, r.value)
  {
    ghost var expanded;
    r, expanded := UninformedSearch.Bfs(CityMap, Start, Restaurant, Customer);
    DeliveryRoute();
    RouteLength(r.value);
  }

  /** `dfs()` on the city returns a route, of 14 cells or more. */
  method CityDfs() returns (r: Option<seq<Pos>>)
    ensures r.Some? && |r.value| >= 14 && Route(CityMap, Restaurant, Customer, Start, r.value)
  {
    ghost var expanded;
    r, expanded := UninformedSearch.Dfs(CityMap, Start, Restaurant, Customer);
    DeliveryRoute();
    RouteLength(r.value);
  }

  /** `ids()` with its default limit of 50 returns a route of 14 cells. */
  method CityIds() returns (r: Option<seq<Pos>>)
    ensures r.Some? && |r.value| == 14 && Shortest(CityMap, Restaurant, Customer, Start, r.value)
  {
    r := UninformedSearch.Ids(CityMap, Start, Restaurant, Customer);
    DeliveryRoute();
    RouteLength(r.value);
  }

  /** `a_star_pizza()` on the city returns a route of 14 cells. */
  method CityAStar() returns (r: Option<seq<Pos>>)
    ensures r.Some? && |r.value| == 14 && Shortest(CityMap, Restaurant, Customer, Start, r.value)
  {
    ghost var expanded;
    r, expanded := InformedSearch.AStarPizza(CityMap, Start, Restaurant, Customer);
    DeliveryRoute();
    RouteLength(r.value);
  }
}
