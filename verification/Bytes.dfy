/** Bytes, Go's machine integers, and the byte-wise order of Go strings. */
module Bytes {
  import opened Seqs

  newtype byte = x: int | 0 <= x < 256

  const MAX_INT64: int := 0x7FFF_FFFF_FFFF_FFFF
  const MIN_INT64: int := -0x8000_0000_0000_0000

  /** Go's `<` on strings: byte-wise lexicographic. */
  predicate Less(a: seq<byte>, b: seq<byte>) {
    b != [] && (a == [] || a[0] < b[0] || (a[0] == b[0] && Less(a[1..], b[1..])))
  }

  lemma {:induction false} LessTotal(a: seq<byte>, b: seq<byte>)
    ensures a != b ==> Less(a, b) || Less(b, a)
    ensures !(Less(a, b) && Less(b, a))
  {
    if a != [] && b != [] {
      LessTotal(a[1..], b[1..]);
      if a[0] == b[0] && a[1..] == b[1..] {
        assert a == [a[0]] + a[1..] == b;
      }
    }
  }

  lemma {:induction false} LessTransitive(a: seq<byte>, b: seq<byte>, c: seq<byte>)
    requires Less(a, b) && Less(b, c)
    ensures Less(a, c)
  {
    if a != [] && a[0] == b[0] == c[0] {
      LessTransitive(a[1..], b[1..], c[1..]);
    }
  }

  ghost predicate Ascending(keys: seq<seq<byte>>) {
    forall i, j :: 0 <= i < j < |keys| ==> Less(keys[i], keys[j])
  }

  ghost predicate IsGreatest(k: seq<byte>, s: set<seq<byte>>) {
    k in s && forall x :: x in s && x != k ==> Less(x, k)
  }

  lemma {:induction false} GreatestExists(s: set<seq<byte>>)
    requires s != {}
    ensures exists k :: IsGreatest(k, s)
    decreases |s|
  {
    var k :| k in s;
    var rest := s - {k};
    if rest == {} {
      assert s == {k};
      assert IsGreatest(k, s);
    } else {
      GreatestExists(rest);
      var g :| IsGreatest(g, rest);
      LessTotal(k, g);
      if Less(k, g) {
        assert IsGreatest(g, s);
      } else {
        forall x | x in s && x != k ensures Less(x, k) {
          if x != g { LessTransitive(x, g, k); }
        }
        assert IsGreatest(k, s);
      }
    }
  }

  ghost function Greatest(s: set<seq<byte>>): (k: seq<byte>)
    requires s != {}
    ensures IsGreatest(k, s)
  {
    GreatestExists(s);
    var k :| IsGreatest(k, s);
    k
  }

  /** The keys of a set in the order `sort.Strings` leaves them. */
  ghost function SortedKeys(s: set<seq<byte>>): seq<seq<byte>>
    decreases |s|
  {
    if s == {} then [] else SortedKeys(s - {Greatest(s)}) + [Greatest(s)]
  }

  lemma {:induction false} SortedKeysAscending(s: set<seq<byte>>)
    ensures Ascending(SortedKeys(s))
    ensures Elements(SortedKeys(s)) == s
    decreases |s|
  {
    if s != {} {
      var k := Greatest(s);
      var init := SortedKeys(s - {k});
      SortedKeysAscending(s - {k});
      assert forall i :: 0 <= i < |init| ==> init[i] in Elements(init);
      assert Elements(init + [k]) == Elements(init) + {k};
    }
  }

  /** An ascending sequence is determined by its elements. */
  lemma {:induction false} AscendingUnique(a: seq<seq<byte>>, b: seq<seq<byte>>)
    requires Ascending(a) && Ascending(b)
    requires Elements(a) == Elements(b)
    ensures a == b
  {
    if a == [] {
      assert forall i :: 0 <= i < |b| ==> b[i] in Elements(b);
    } else {
      assert a[0] in Elements(b);
      var x, y := a[|a| - 1], b[|b| - 1];
      assert x in Elements(a) && y in Elements(b);
      LastIsGreatest(a, y);
      LastIsGreatest(b, x);
      LessTotal(x, y);
      DropLast(a);
      DropLast(b);
      AscendingUnique(a[..|a| - 1], b[..|b| - 1]);
      assert a == a[..|a| - 1] + [x] && b == b[..|b| - 1] + [y];
    }
  }

  lemma LastIsGreatest(a: seq<seq<byte>>, y: seq<byte>)
    requires Ascending(a) && a != []
    requires y in Elements(a)
    ensures y == a[|a| - 1] || Less(y, a[|a| - 1])
  {
    var i :| 0 <= i < |a| && a[i] == y;
  }

  lemma DropLast(a: seq<seq<byte>>)
    requires Ascending(a) && a != []
    ensures Elements(a[..|a| - 1]) == Elements(a) - {a[|a| - 1]}
    ensures Ascending(a[..|a| - 1])
  {
    var init, x := a[..|a| - 1], a[|a| - 1];
    LessTotal(x, x);
    assert forall i :: 0 <= i < |init| ==> init[i] != x;
    assert a == init + [x];
  }
}
