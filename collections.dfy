/** Bookkeeping facts about sequences and sets shared by the searches. */
module Collections {

  /** No element of `xs` occurs twice. */
  ghost predicate Distinct<T>(xs: seq<T>)
  {
    forall i, j :: 0 <= i < j < |xs| ==> xs[i] != xs[j]
  }

  ghost function Elems<T>(xs: seq<T>): set<T>
  {
    set x | x in xs
  }

  lemma DistinctAppend<T>(xs: seq<T>, x: T)
    requires Distinct(xs) && x !in Elems(xs)
    ensures Distinct(xs + [x]) && Elems(xs + [x]) == Elems(xs) + {x}
  {
  }

  /** Expanding one more state shrinks what is left to expand. */
  lemma Shrinks<T>(all: set<T>, visited: set<T>, s: T)
    requires s in all && s !in visited
    ensures all - (visited + {s}) < all - visited
  {
    assert s in all - visited;
  }

  /** A subset is no larger than its superset. */
  lemma {:induction false} SubsetCard<T>(a: set<T>, b: set<T>)
    requires a <= b
    ensures |a| <= |b|
    decreases |b|
  {
    if a != {} {
      var x :| x in a;
      SubsetCard(a - {x}, b - {x});
    }
  }

  lemma DistinctConcat<T>(a: seq<T>, b: seq<T>)
    requires Distinct(a) && Distinct(b) && Elems(a) !! Elems(b)
    ensures Distinct(a + b) && Elems(a + b) == Elems(a) + Elems(b)
  {
    var c := a + b;
    forall i, j | 0 <= i < j < |c|
      ensures c[i] != c[j]
    {
      if i < |a| && j >= |a| {
        assert c[i] in Elems(a) && c[j] == b[j - |a|] && b[j - |a|] in Elems(b);
      } else if i >= |a| {
        assert c[i] == b[i - |a|] && c[j] == b[j - |a|];
      }
    }
  }

  lemma ElemsEmpty<T>(xs: seq<T>)
    ensures Elems(xs) == {} <==> xs == []
  {
    if xs != [] {
      assert xs[0] in Elems(xs);
    }
  }

  lemma ElemsConcat<T>(a: seq<T>, b: seq<T>)
    ensures Elems(a + b) == Elems(a) + Elems(b)
  {
    forall x | x in Elems(a) + Elems(b)
      ensures x in Elems(a + b)
    {
      if x in a {
        var i :| 0 <= i < |a| && a[i] == x;
        assert (a + b)[i] == x;
      } else {
        var i :| 0 <= i < |b| && b[i] == x;
        assert (a + b)[|a| + i] == x;
      }
    }
  }

  /** `xs` without its element at index `m`, the rest in order. */
  function RemoveAt<T>(xs: seq<T>, m: nat): (rest: seq<T>)
    requires m < |xs|
    ensures |rest| == |xs| - 1
    ensures forall e :: e in xs ==> e == xs[m] || e in rest
    ensures forall e :: e in rest ==> e in xs
  {
    var rest := xs[..m] + xs[m + 1..];
    assert forall i :: 0 <= i < |xs| && i != m ==> xs[i] == rest[if i < m then i else i - 1];
    rest
  }
}
