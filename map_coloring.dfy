/**
 * The map-colouring constraint problem of Activity1.py: four regions, three
 * colours, a fixed neighbour relation, the `is_valid` consistency test and the
 * `backtrack` search that assigns regions in dictionary order, tries colours
 * in list order, and pops its own assignment when a branch fails.
 */
module MapColoring {
  import opened Wrappers
  import opened Collections

  datatype Region = A | B | C | D
  datatype Color = Red | Green | Blue

  /** The keys of `neighbors`, in insertion order. */
  const Regions: seq<Region> := [A, B, C, D]

  /** `colors`, in the order `backtrack` tries them. */
  const Colors: seq<Color> := [Red, Green, Blue]

  /** The `neighbors` dictionary. */
  function Neighbors(r: Region): (ns: seq<Region>)
    ensures r !in ns
  {
    match r
    case A => [B, C]
    case B => [A, C, D]
    case C => [A, B, D]
    case D => [B, C]
  }

  /** The neighbour relation is symmetric. */
  lemma NeighborsSymmetric(r: Region, n: Region)
    ensures n in Neighbors(r) <==> r in Neighbors(n)
  {
  }

  /** No neighbour of `node` already holds `color`. */
  ghost predicate Fits(node: Region, color: Color, assignment: map<Region, Color>)
  {
    forall n :: n in Neighbors(node) && n in assignment ==> assignment[n] != color
  }

  /** No two assigned neighbours share a colour. */
  ghost predicate Proper(assignment: map<Region, Color>)
  {
    forall r, n :: r in assignment && n in Neighbors(r) && n in assignment ==> assignment[r] != assignment[n]
  }

  /** Every region is assigned. */
  ghost predicate Complete(assignment: map<Region, Color>)
  {
    forall r: Region :: r in assignment
  }

  /** `full` keeps every assignment made in `partial`. */
  ghost predicate Extends(full: map<Region, Color>, partial: map<Region, Color>)
  {
    forall r :: r in partial ==> r in full && full[r] == partial[r]
  }

  /** A proper colouring of the whole map. */
  ghost predicate Solution(assignment: map<Region, Color>)
  {
    Complete(assignment) && Proper(assignment)
  }

  /** `is_valid(node, color, assignment)`: a scan of the neighbour list that fails on the first clash. */
  method IsValid(node: Region, color: Color, assignment: map<Region, Color>) returns (ok: bool)
    ensures ok <==> Fits(node, color, assignment)
    ensures !ok <==> exists n :: n in Neighbors(node) && n in assignment && assignment[n] == color
  {
    var ns := Neighbors(node);
    for i := 0 to |ns|
      invariant forall k :: 0 <= k < i && ns[k] in assignment ==> assignment[ns[k]] != color
    {
      if ns[i] in assignment && assignment[ns[i]] == color {
        return false;
      }
    }
    return true;
  }

  /** Giving a fitting colour to an unassigned region keeps the assignment proper. */
  lemma FitsKeepsProper(node: Region, color: Color, assignment: map<Region, Color>)
    requires Proper(assignment) && Fits(node, color, assignment)
    ensures Proper(assignment[node := color])
  {
    var m := assignment[node := color];
    forall r, n | r in m && n in Neighbors(r) && n in m
      ensures m[r] != m[n]
    {
      NeighborsSymmetric(r, n);
    }
  }

  /** The regions not yet assigned. */
  ghost function Unassigned(assignment: map<Region, Color>): set<Region>
  {
    set r: Region | r !in assignment
  }

  /** Every region is a key of `neighbors`. */
  lemma RegionIndex(r: Region) returns (i: nat)
    ensures i < |Regions| && Regions[i] == r
  {
    i := match r case A => 0 case B => 1 case C => 2 case D => 3;
  }

  /** Every colour is in `colors`. */
  lemma ColorListed(c: Color)
    ensures c in Colors
  {
    assert c == Colors[match c case Red => 0 case Green => 1 case Blue => 2];
  }

  /** `len(assignment) == len(neighbors)` holds exactly when every region is assigned. */
  lemma FullIffComplete(assignment: map<Region, Color>)
    ensures |assignment| == |Regions| <==> Complete(assignment)
  {
    var keys := assignment.Keys;
    var all := {A, B, C, D};
    assert |assignment| == |keys|;
    assert keys <= all by {
      forall r | r in keys
        ensures r in all
      {
        var i := RegionIndex(r);
      }
    }
    if Complete(assignment) {
      assert keys == all;
    } else {
      var r: Region :| r !in assignment;
      var i := RegionIndex(r);
      SubsetCard(keys, all - {r});
      assert |all - {r}| < |all|;
    }
  }

  /**
   * The position of `[n for n in neighbors if n not in assignment][0]` among the
   * regions at or after `k`: the first one that is unassigned.
   */
  function FirstUnassigned(assignment: map<Region, Color>, k: nat): (j: nat)
    requires k <= |Regions| && exists i :: k <= i < |Regions| && Regions[i] !in assignment
    ensures k <= j < |Regions| && Regions[j] !in assignment
    ensures forall i :: k <= i < j ==> Regions[i] in assignment
    decreases |Regions| - k
  {
    if Regions[k] !in assignment then k else FirstUnassigned(assignment, k + 1)
  }

  /** An incomplete assignment leaves some listed region unassigned. */
  lemma SomeUnassigned(assignment: map<Region, Color>)
    requires !Complete(assignment)
    ensures exists i :: 0 <= i < |Regions| && Regions[i] !in assignment
  {
    var r: Region :| r !in assignment;
    var i := RegionIndex(r);
  }

  /**
   * The outcome of `backtrack(assignment)`: the completed dictionary, or None
   * when every colour of the first unassigned region fails.
   */
  ghost function Solve(assignment: map<Region, Color>): Option<map<Region, Color>>
    decreases Unassigned(assignment), 1, 0
  {
    FullIffComplete(assignment);
    if |assignment| == |Regions| then Some(assignment)
    else
      SomeUnassigned(assignment);
      TryColors(assignment, Regions[FirstUnassigned(assignment, 0)], 0)
  }

  /** The `for color in colors` loop of `backtrack`, from the `i`-th colour on. */
  ghost function TryColors(assignment: map<Region, Color>, node: Region, i: nat): Option<map<Region, Color>>
    requires node !in assignment && i <= |Colors|
    decreases Unassigned(assignment), 0, |Colors| - i
  {
    if i == |Colors| then None
    else if Fits(node, Colors[i], assignment) then
      assert Unassigned(assignment[node := Colors[i]]) < Unassigned(assignment) by {
        assert node in Unassigned(assignment) - Unassigned(assignment[node := Colors[i]]);
      }
      match Solve(assignment[node := Colors[i]])
      case Some(result) => Some(result)
      case None => TryColors(assignment, node, i + 1)
    else TryColors(assignment, node, i + 1)
  }

  /** A successful search returns a complete extension, proper whenever it started proper. */
  lemma {:induction false} SolveSound(assignment: map<Region, Color>)
    ensures Solve(assignment).Some? ==>
      Complete(Solve(assignment).value) && Extends(Solve(assignment).value, assignment) &&
      (Proper(assignment) ==> Proper(Solve(assignment).value))
    decreases Unassigned(assignment), 1, 0
  {
    FullIffComplete(assignment);
    if |assignment| != |Regions| {
      SomeUnassigned(assignment);
      TryColorsSound(assignment, Regions[FirstUnassigned(assignment, 0)], 0);
    }
  }

  lemma {:induction false} TryColorsSound(assignment: map<Region, Color>, node: Region, i: nat)
    requires node !in assignment && i <= |Colors|
    ensures TryColors(assignment, node, i).Some? ==>
      Complete(TryColors(assignment, node, i).value) && Extends(TryColors(assignment, node, i).value, assignment) &&
      (Proper(assignment) ==> Proper(TryColors(assignment, node, i).value))
    decreases Unassigned(assignment), 0, |Colors| - i
  {
    if i < |Colors| {
      var next := assignment[node := Colors[i]];
      if Fits(node, Colors[i], assignment) && Solve(next).Some? {
        assert Unassigned(next) < Unassigned(assignment) by {
          assert node in Unassigned(assignment) - Unassigned(next);
        }
        assert TryColors(assignment, node, i) == Solve(next);
        SolveSound(next);
        assert Extends(next, assignment);
        if Proper(assignment) {
          FitsKeepsProper(node, Colors[i], assignment);
        }
      } else {
        assert TryColors(assignment, node, i) == TryColors(assignment, node, i + 1);
        TryColorsSound(assignment, node, i + 1);
      }
    }
  }

  /** A failed search means no proper colouring of the whole map keeps `assignment`. */
  lemma {:induction false} SolveComplete(assignment: map<Region, Color>)
    ensures Solve(assignment).None? ==> forall full :: Solution(full) ==> !Extends(full, assignment)
    decreases Unassigned(assignment), 1, 0
  {
    FullIffComplete(assignment);
    if Solve(assignment).None? {
      SomeUnassigned(assignment);
      var node := Regions[FirstUnassigned(assignment, 0)];
      assert TryColors(assignment, node, 0).None?;
      TryColorsComplete(assignment, node, 0);
      forall full | Solution(full)
        ensures !Extends(full, assignment)
      {
        ColorListed(full[node]);
        assert Colors[0..] == Colors;
      }
    }
  }

  lemma {:induction false} TryColorsComplete(assignment: map<Region, Color>, node: Region, i: nat)
    requires node !in assignment && i <= |Colors|
    ensures TryColors(assignment, node, i).None? ==>
      forall full :: Solution(full) && Extends(full, assignment) ==> full[node] !in Colors[i..]
    decreases Unassigned(assignment), 0, |Colors| - i
  {
    if i < |Colors| && TryColors(assignment, node, i).None? {
      TryColorsComplete(assignment, node, i + 1);
      var next := assignment[node := Colors[i]];
      if Fits(node, Colors[i], assignment) {
        assert Unassigned(next) < Unassigned(assignment) by {
          assert node in Unassigned(assignment) - Unassigned(next);
        }
        SolveComplete(next);
      }
      forall full | Solution(full) && Extends(full, assignment)
        ensures full[node] !in Colors[i..]
      {
        assert Colors[i..] == [Colors[i]] + Colors[i + 1..];
        if !Fits(node, Colors[i], assignment) {
          var n :| n in Neighbors(node) && n in assignment && assignment[n] == Colors[i];
          assert full[n] == Colors[i];
        }
      }
    }
  }

  /** `backtrack({})` finds {A: Red, B: Green, C: Blue, D: Red}. */
  lemma SolveEmpty()
    ensures Solve(map[]) == Some(map[A := Red, B := Green, C := Blue, D := Red])
    ensures Solution(map[A := Red, B := Green, C := Blue, D := Red])
  {
    var m0: map<Region, Color> := map[];
    var m1 := m0[A := Red];
    var m2 := m1[B := Green];
    var m3 := m2[C := Blue];
    var m4 := m3[D := Red];
    FullIffComplete(m4);
    assert Solve(m4) == Some(m4);
    FullIffComplete(m3);
    assert Regions[3] !in m3;
    assert Regions[FirstUnassigned(m3, 0)] == D;
    assert TryColors(m3, D, 0) == Some(m4);
    FullIffComplete(m2);
    assert Regions[2] !in m2;
    assert Regions[FirstUnassigned(m2, 0)] == C;
    assert !Fits(C, Red, m2) && !Fits(C, Green, m2);
    assert TryColors(m2, C, 2) == Some(m4);
    assert TryColors(m2, C, 0) == Some(m4);
    FullIffComplete(m1);
    assert Regions[1] !in m1;
    assert Regions[FirstUnassigned(m1, 0)] == B;
    assert !Fits(B, Red, m1);
    assert TryColors(m1, B, 1) == Some(m4);
    FullIffComplete(m0);
    assert Regions[0] !in m0;
    assert Regions[FirstUnassigned(m0, 0)] == A;
    assert TryColors(m0, A, 0) == Some(m4);
    assert m4 == map[A := Red, B := Green, C := Blue, D := Red];
    SolveSound(m0);
  }

  /** The dictionary that `backtrack` fills in and empties again. */
  class Assignment {
    var m: map<Region, Color>

    /** The empty dictionary `{}`. */
    constructor()
      ensures m == map[]
    {
      m := map[];
    }
  }

  /**
   * `backtrack(assignment)`: assigns the first unassigned region each colour
   * that fits, recursing after each; returns the same dictionary, now complete,
   * on success, and on failure pops what it assigned so the dictionary is as
   * it was.
   */
  method Backtrack(a: Assignment) returns (r: Option<Assignment>)
    modifies a
    decreases Unassigned(a.m)
    ensures r.Some? <==> Solve(old(a.m)).Some?
    ensures r.Some? ==> r.value == a && a.m == Solve(old(a.m)).value
    ensures r.None? ==> a.m == old(a.m)
  {
    FullIffComplete(a.m);
    if |a.m| == |Regions| {
      return Some(a);
    }
    SomeUnassigned(a.m);
    var node := Regions[FirstUnassigned(a.m, 0)];
    ghost var m0 := a.m;
    for i := 0 to |Colors|
      invariant a.m == m0
      invariant TryColors(m0, node, 0) == TryColors(m0, node, i)
    {
      var color := Colors[i];
      var ok := IsValid(node, color, a.m);
      if ok {
        a.m := a.m[node := color];
        assert node in Unassigned(m0) - Unassigned(a.m);
        var result := Backtrack(a);
        if result.Some? {
          return result;
        }
        a.m := a.m - {node};
        assert a.m == m0;
      }
    }
    return None;
  }
}
