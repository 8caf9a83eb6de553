/** Sequences: their elements, insertion in order, laying end to end and laying over one another. */
module Seqs {
  function Elements<T(==)>(s: seq<T>): set<T> {
    set x | x in s
  }

  // ---------- insertion ----------

  ghost predicate SortedBy<T(!new)>(s: seq<T>, before: (T, T) -> bool) {
    forall i, j :: 0 <= i < j < |s| ==> before(s[i], s[j])
  }

  function Inserted<T>(s: seq<T>, p: nat, x: T): seq<T>
    requires p <= |s|
  {
    s[..p] + [x] + s[p..]
  }

  /** Put where everything before comes before it and everything after comes after it, an element
      keeps a sequence sorted. */
  lemma InsertedSorted<T(!new)>(s: seq<T>, p: nat, x: T, before: (T, T) -> bool)
    requires SortedBy(s, before) && p <= |s|
    requires forall i :: 0 <= i < p ==> before(s[i], x)
    requires forall i :: p <= i < |s| ==> before(x, s[i])
    ensures SortedBy(Inserted(s, p, x), before)
  {
  }

  lemma InsertedElements<T>(s: seq<T>, p: nat, x: T)
    requires p <= |s|
    ensures Elements(Inserted(s, p, x)) == Elements(s) + {x}
    ensures |Inserted(s, p, x)| == |s| + 1
  {
    assert s == s[..p] + s[p..];
  }

  // ---------- end to end ----------

  ghost function Concat<T>(parts: seq<seq<T>>): seq<T> {
    if parts == [] then [] else Concat(parts[..|parts| - 1]) + parts[|parts| - 1]
  }

  lemma {:induction false} ConcatAround<T>(parts: seq<seq<T>>, k: nat)
    requires k < |parts|
    ensures Concat(parts) == Concat(parts[..k]) + parts[k] + Concat(parts[k + 1..])
  {
    var n := |parts| - 1;
    if k == n {
      assert parts[k + 1..] == [];
    } else {
      ConcatAround(parts[..n], k);
      assert parts[..n][..k] == parts[..k];
      assert parts[k + 1..][..n - k - 1] == parts[..n][k + 1..];
    }
  }

  // ---------- laying pieces over a sequence ----------

  datatype Patch<+T> = Patch(offset: int, items: seq<T>)

  predicate Covers<T>(p: Patch<T>, g: int) {
    p.offset <= g < p.offset + |p.items|
  }

  /** base with the patches laid over it in order; what falls outside is dropped. */
  ghost function Overlaid<T>(base: seq<T>, ps: seq<Patch<T>>): (r: seq<T>)
    ensures |r| == |base|
  {
    if ps == [] then base
    else
      var under, last := Overlaid(base, ps[..|ps| - 1]), ps[|ps| - 1];
      seq(|base|, g requires 0 <= g < |base| => if Covers(last, g) then last.items[g - last.offset] else under[g])
  }

  lemma OverlaidNext<T>(base: seq<T>, ps: seq<Patch<T>>, p: Patch<T>, g: nat)
    requires g < |base|
    ensures Overlaid(base, ps + [p])[g] == if Covers(p, g) then p.items[g - p.offset] else Overlaid(base, ps)[g]
  {
    assert (ps + [p])[..|ps|] == ps;
  }

  /** k is the last of the patches that covers g. */
  ghost predicate LastToCover<T>(ps: seq<Patch<T>>, g: int, k: int) {
    0 <= k < |ps| && Covers(ps[k], g) && forall j :: k < j < |ps| ==> !Covers(ps[j], g)
  }

  /** Each place shows the last patch that covers it. */
  lemma {:induction false} LastWins<T>(base: seq<T>, ps: seq<Patch<T>>, g: int)
    requires 0 <= g < |base|
    ensures forall k :: LastToCover(ps, g, k) ==> Overlaid(base, ps)[g] == ps[k].items[g - ps[k].offset]
    ensures (forall k :: 0 <= k < |ps| ==> !Covers(ps[k], g)) ==> Overlaid(base, ps)[g] == base[g]
  {
    if ps != [] && !Covers(ps[|ps| - 1], g) {
      var init := ps[..|ps| - 1];
      LastWins(base, init, g);
      forall k | LastToCover(ps, g, k) ensures LastToCover(init, g, k) {
      }
    }
  }

  /** A slice shows the last patch if that is exactly its range, and what lies under a patch that
      stays clear of it. */
  lemma OverlaidSlice<T>(base: seq<T>, ps: seq<Patch<T>>, lo: nat, hi: nat)
    requires ps != [] && lo <= hi <= |base|
    ensures var last := ps[|ps| - 1];
            && (last.offset == lo && |last.items| == hi - lo ==> Overlaid(base, ps)[lo..hi] == last.items)
            && ((forall g :: lo <= g < hi ==> !Covers(last, g)) ==>
                  Overlaid(base, ps)[lo..hi] == Overlaid(base, ps[..|ps| - 1])[lo..hi])
  {
  }
}
