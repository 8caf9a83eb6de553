/** A Kademlia routing table as a value: 160 buckets of at most eight contacts. */
module RoutingModel {
  import opened XorMetric
  import opened Seqs

  const K := 8

  type Id = id: seq<bv8> | |id| == ID_LENGTH witness seq(ID_LENGTH, i => 0)

  datatype Contact = Contact(id: Id, ip: seq<bv8>, port: bv16)

  type Bucket = seq<Contact>

  // ---------- one bucket ----------

  ghost predicate Distinct(b: Bucket) {
    forall i, j :: 0 <= i < j < |b| ==> b[i].id != b[j].id
  }

  ghost predicate Knows(b: Bucket, id: Id) {
    exists c :: c in b && c.id == id
  }

  ghost function Without(b: Bucket, id: Id): Bucket {
    if b == [] then [] else
      var rest := Without(b[..|b| - 1], id);
      if b[|b| - 1].id == id then rest else rest + [b[|b| - 1]]
  }

  /** A known contact moves to the end with its new address; a new one is appended while there is
      room and dropped otherwise. */
  ghost function Added(b: Bucket, c: Contact): Bucket {
    if Knows(b, c.id) || |b| < K then Without(b, c.id) + [c] else b
  }

  lemma {:induction false} WithoutKeeps(b: Bucket, id: Id, c: Contact)
    ensures c in Without(b, id) <==> c in b && c.id != id
  {
    if b != [] {
      assert b == b[..|b| - 1] + [b[|b| - 1]];
      WithoutKeeps(b[..|b| - 1], id, c);
    }
  }

  lemma {:induction false} WithoutUnknown(b: Bucket, id: Id)
    requires !Knows(b, id)
    ensures Without(b, id) == b
  {
    if b != [] {
      var init, last := b[..|b| - 1], b[|b| - 1];
      assert last in b;
      assert forall c :: c in init ==> c in b;
      WithoutUnknown(init, id);
    }
  }

  /** Identifiers do not repeat, so leaving one out removes a single element. */
  lemma {:induction false} WithoutAt(b: Bucket, i: nat)
    requires Distinct(b) && i < |b|
    ensures Without(b, b[i].id) == b[..i] + b[i + 1..]
  {
    var n := |b| - 1;
    if i == n {
      WithoutUnknown(b[..n], b[n].id);
    } else {
      WithoutAt(b[..n], i);
      assert b[..n][..i] == b[..i] && b[i + 1..] == b[..n][i + 1..] + [b[n]];
    }
  }

  lemma KnownAt(b: Bucket, id: Id) returns (i: nat)
    requires Knows(b, id)
    ensures i < |b| && b[i].id == id
  {
    var c :| c in b && c.id == id;
    i :| i < |b| && b[i] == c;
  }

  /** Who is in a bucket after an Add: everyone else as before, and the newcomer if it was known or
      there was room. */
  lemma AddedMembers(b: Bucket, c: Contact)
    ensures forall x :: x in Added(b, c) <==>
                        if x.id == c.id && (Knows(b, c.id) || |b| < K) then x == c else x in b
  {
    forall x ensures x in Without(b, c.id) <==> x in b && x.id != c.id {
      WithoutKeeps(b, c.id, x);
    }
  }

  /** The order of a bucket after an Add: the newcomer comes last, the others stay as they were. */
  lemma AddedOrder(b: Bucket, c: Contact)
    requires Distinct(b)
    ensures forall i :: 0 <= i < |b| && b[i].id == c.id ==> Added(b, c) == b[..i] + b[i + 1..] + [c]
    ensures (forall i :: 0 <= i < |b| ==> b[i].id != c.id) ==> Added(b, c) == if |b| < 8 then b + [c] else b
  {
    if Knows(b, c.id) {
      var k := KnownAt(b, c.id);
      WithoutAt(b, k);
    } else {
      WithoutUnknown(b, c.id);
      assert forall i :: 0 <= i < |b| ==> b[i] in b;
    }
  }

  lemma AddedSize(b: Bucket, c: Contact)
    requires Distinct(b)
    ensures |Added(b, c)| == if Knows(b, c.id) || |b| >= K then |b| else |b| + 1
  {
    if Knows(b, c.id) {
      var i := KnownAt(b, c.id);
      WithoutAt(b, i);
    } else {
      WithoutUnknown(b, c.id);
    }
  }

  lemma AddedDistinct(b: Bucket, c: Contact)
    requires Distinct(b)
    ensures Distinct(Added(b, c))
  {
    if Knows(b, c.id) {
      var i := KnownAt(b, c.id);
      WithoutAt(b, i);
    } else {
      WithoutUnknown(b, c.id);
      assert forall j :: 0 <= j < |b| ==> b[j] in b;
    }
  }

  // ---------- the table ----------

  type Table = seq<Bucket>

  ghost predicate BucketOk(self: Id, k: nat, b: Bucket) {
    && |b| <= K && Distinct(b)
    && forall c :: c in b ==> c.id != self && BucketOf(self, c.id) == k
  }

  /** At most eight contacts a bucket, each in the bucket of its common prefix with self, no
      identifier twice and never our own. */
  ghost predicate TableOk(self: Id, t: Table) {
    |t| == ID_BITS && forall k :: 0 <= k < ID_BITS ==> BucketOk(self, k, t[k])
  }

  ghost function NewTable(): Table {
    seq(ID_BITS, i => [])
  }

  ghost function TableAdded(self: Id, t: Table, c: Contact): Table
    requires |t| == ID_BITS
  {
    if c.id == self then t else
      var k := BucketOf(self, c.id);
      t[k := Added(t[k], c)]
  }

  ghost function AddedAll(self: Id, heard: seq<Contact>): (t: Table)
    ensures |t| == ID_BITS
  {
    if heard == [] then NewTable() else
      TableAdded(self, AddedAll(self, heard[..|heard| - 1]), heard[|heard| - 1])
  }

  lemma TableAddedOk(self: Id, t: Table, c: Contact)
    requires TableOk(self, t)
    ensures TableOk(self, TableAdded(self, t, c))
  {
    if c.id != self {
      var k := BucketOf(self, c.id);
      AddedSize(t[k], c);
      AddedDistinct(t[k], c);
      AddedMembers(t[k], c);
    }
  }

  lemma {:induction false} AddedAllOk(self: Id, heard: seq<Contact>)
    ensures TableOk(self, AddedAll(self, heard))
  {
    if heard != [] {
      AddedAllOk(self, heard[..|heard| - 1]);
      TableAddedOk(self, AddedAll(self, heard[..|heard| - 1]), heard[|heard| - 1]);
    }
  }

  ghost predicate Heard(heard: seq<Contact>, id: Id) {
    exists c :: c in heard && c.id == id
  }

  ghost function LastHeard(heard: seq<Contact>, id: Id): Contact
    requires Heard(heard, id)
  {
    if heard[|heard| - 1].id == id then heard[|heard| - 1] else
      HeardBefore(heard, id);
      LastHeard(heard[..|heard| - 1], id)
  }

  lemma HeardBefore(heard: seq<Contact>, id: Id)
    requires heard != [] && heard[|heard| - 1].id != id
    ensures Heard(heard[..|heard| - 1], id) <==> Heard(heard, id)
  {
    var init := heard[..|heard| - 1];
    assert heard == init + [heard[|heard| - 1]];
    assert forall c :: c in init ==> c in heard;
  }

  /** What a table built by any run of Adds says of one identifier: nobody is ever evicted, so it
      is missing only if it was never heard of, is our own, or its bucket filled up without it;
      and it carries the address heard last. */
  lemma {:induction false} WhatIsKnown(self: Id, heard: seq<Contact>, id: Id)
    requires id != self
    ensures var b := AddedAll(self, heard)[BucketOf(self, id)];
            && (Heard(heard, id) ==> Knows(b, id) || |b| == K)
            && (forall c :: c in b && c.id == id ==> Heard(heard, id) && c == LastHeard(heard, id))
  {
    if heard != [] {
      var init, c := heard[..|heard| - 1], heard[|heard| - 1];
      var t := AddedAll(self, init);
      AddedAllOk(self, init);
      WhatIsKnown(self, init, id);
      if c.id != id { HeardBefore(heard, id); }
      if c.id != self && BucketOf(self, c.id) == BucketOf(self, id) {
        AddKnown(t[BucketOf(self, id)], c, id);
        AddedMembers(t[BucketOf(self, id)], c);
      }
      assert c in heard;
    }
  }

  /** A known identifier stays known, and an added one is known unless the bucket is full. */
  lemma AddKnown(b: Bucket, c: Contact, id: Id)
    requires Distinct(b) && |b| <= K
    ensures Knows(b, id) ==> Knows(Added(b, c), id)
    ensures Knows(Added(b, c), c.id) || |Added(b, c)| == K
    ensures |b| == K ==> |Added(b, c)| == K
  {
    AddedSize(b, c);
    AddedMembers(b, c);
    if Knows(b, id) && id != c.id {
      var x :| x in b && x.id == id;
      assert x in Added(b, c);
    } else {
      assert c in Added(b, c) || |b| == K;
    }
  }

  // ---------- the nearest contacts ----------

  lemma {:induction false} ConcatHas(t: Table, c: Contact) returns (k: nat)
    requires c in Concat(t)
    ensures k < |t| && c in t[k]
  {
    var n := |t| - 1;
    if c in t[n] {
      k := n;
    } else {
      k := ConcatHas(t[..n], c);
    }
  }

  /** No identifier twice in the whole table. */
  lemma {:induction false} AllDistinct(self: Id, t: Table, n: nat)
    requires TableOk(self, t) && n <= ID_BITS
    ensures Distinct(Concat(t[..n]))
  {
    if n > 0 {
      var front := Concat(t[..n - 1]);
      AllDistinct(self, t, n - 1);
      assert t[..n][..n - 1] == t[..n - 1];
      assert BucketOk(self, n - 1, t[n - 1]);
      var last := t[n - 1];
      forall i, j | 0 <= i < |front| && 0 <= j < |last| ensures front[i].id != last[j].id {
        var k := ConcatHas(t[..n - 1], front[i]);
        assert BucketOk(self, k, t[k]);
        assert last[j] in last;
      }
      DistinctAppend(front, last);
    }
  }

  lemma DistinctAppend(a: Bucket, b: Bucket)
    requires Distinct(a) && Distinct(b)
    requires forall i, j :: 0 <= i < |a| && 0 <= j < |b| ==> a[i].id != b[j].id
    ensures Distinct(a + b)
  {
  }

  ghost predicate Nearer(target: Id, a: Contact, b: Contact) {
    D(a.id, target) < D(b.id, target)
  }

  ghost predicate NearestFirst(target: Id, s: seq<Contact>) {
    forall i, j :: 0 <= i < j < |s| ==> Nearer(target, s[i], s[j])
  }

  ghost predicate SameMembers(a: seq<Contact>, b: seq<Contact>) {
    forall c :: c in a <==> c in b
  }

  /** The min(count, |all|) contacts nearest to target, nearest first, every one left out strictly
      farther than every one returned. */
  ghost predicate IsNearest(all: seq<Contact>, target: Id, count: nat, r: seq<Contact>) {
    && |r| == (if count < |all| then count else |all|)
    && NearestFirst(target, r)
    && (forall c :: c in r ==> c in all)
    && (forall c, d :: c in all && c !in r && d in r ==> Nearer(target, d, c))
  }

  /** Different contacts are at different distances from any target. */
  lemma NoTies(target: Id, a: Contact, b: Contact)
    requires a.id != b.id
    ensures Nearer(target, a, b) || Nearer(target, b, a)
  {
    XorIsMetric(target, a.id, b.id);
    XorIsMetric(a.id, target, target);
    XorIsMetric(b.id, target, target);
  }

  /** A full sort followed by a cut selects the nearest. */
  lemma CutOfSorted(all: seq<Contact>, sorted: seq<Contact>, target: Id, count: nat)
    requires |sorted| == |all| && SameMembers(sorted, all) && NearestFirst(target, sorted)
    ensures IsNearest(all, target, count, if count < |sorted| then sorted[..count] else sorted)
  {
    if count < |sorted| {
      var r := sorted[..count];
      assert forall m :: 0 <= m < count ==> sorted[m] == r[m];
      forall c, d | c in all && c !in r && d in r ensures Nearer(target, d, c) {
        var i :| 0 <= i < |sorted| && sorted[i] == c;
        var j :| 0 <= j < count && r[j] == d;
        assert sorted[j] == d;
      }
    }
  }

  lemma FirstToDiffer(all: seq<Contact>, target: Id, count: nat, r: seq<Contact>, s: seq<Contact>, k: nat)
    requires IsNearest(all, target, count, r) && IsNearest(all, target, count, s) && k < |r|
    requires r[..k] == s[..k]
    ensures r[k] == s[k] || Nearer(target, r[k], s[k])
  {
    if s[k] in r {
      var p :| 0 <= p < |r| && r[p] == s[k];
      assert forall m :: 0 <= m < k ==> r[m] == r[..k][m] == s[..k][m] == s[m];
    }
  }

  /** There is only one right answer. */
  lemma {:induction false} NearestUnique(
    all: seq<Contact>, target: Id, count: nat, r: seq<Contact>, s: seq<Contact>, i: nat)
    requires IsNearest(all, target, count, r) && IsNearest(all, target, count, s) && i <= |r|
    ensures r[..i] == s[..i]
  {
    if i > 0 {
      NearestUnique(all, target, count, r, s, i - 1);
      FirstToDiffer(all, target, count, r, s, i - 1);
      FirstToDiffer(all, target, count, s, r, i - 1);
    }
  }
}
