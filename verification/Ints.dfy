/** Sets of integers: those below a bound, and `sort.Ints`. */
module Ints {
  import opened Seqs

  ghost predicate AscendingInts(s: seq<int>) {
    forall i, j :: 0 <= i < j < |s| ==> s[i] < s[j]
  }

  function Indices(n: nat): (r: set<int>)
    ensures forall i :: i in r <==> 0 <= i < n
  {
    if n == 0 then {} else Indices(n - 1) + {n - 1}
  }

  lemma {:induction false} LargestInt(s: set<int>) returns (m: int)
    requires exists i :: i in s
    ensures m in s && forall i :: i in s ==> i <= m
    decreases |s|
  {
    var x :| x in s;
    var rest := s - {x};
    m := x;
    if exists i :: i in rest {
      var n := LargestInt(rest);
      m := if n > x then n else x;
    }
    assert forall i :: i in s ==> i == x || i in rest;
  }

  lemma OneMore(s: set<int>, i: int)
    requires i !in s
    ensures |s + {i}| == |s| + 1
  {
  }

  lemma {:induction false} SizeOfIndices(n: nat)
    ensures |Indices(n)| == n
  {
    if n > 0 {
      SizeOfIndices(n - 1);
      OneMore(Indices(n - 1), n - 1);
    }
  }

  /** `sort.Ints` on the keys of a map, which do not repeat. */
  method SortedInts(s: set<int>) returns (sorted: seq<int>)
    ensures AscendingInts(sorted) && Elements(sorted) == s
  {
    sorted := [];
    var rest := s;
    while exists y :: y in rest
      invariant AscendingInts(sorted)
      invariant Elements(sorted) == s - rest && rest <= s
      decreases |rest|
    {
      var x :| x in rest;
      sorted := InsertInt(sorted, x);
      rest := rest - {x};
    }
  }

  method InsertInt(sorted: seq<int>, x: int) returns (r: seq<int>)
    requires AscendingInts(sorted) && x !in Elements(sorted)
    ensures AscendingInts(r) && Elements(r) == Elements(sorted) + {x}
  {
    var p := 0;
    while p < |sorted| && sorted[p] < x
      invariant p <= |sorted|
      invariant forall i :: 0 <= i < p ==> sorted[i] < x
    {
      p := p + 1;
    }
    assert p < |sorted| ==> sorted[p] in Elements(sorted);
    InsertedSorted(sorted, p, x, (a, b) => a < b);
    InsertedElements(sorted, p, x);
    r := Inserted(sorted, p, x);
  }
}
