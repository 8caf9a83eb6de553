/** The routing table as the program keeps it: 160 bucket objects changed in place. */
module RoutingTable {
  import opened XorMetric
  import opened RoutingModel
  import opened Seqs

  method ComputeDistance(id1: Id, id2: Id) returns (dist: Id)
    ensures dist == Distance(id1, id2)
  {
    var d := new bv8[ID_LENGTH];
    var i := 0;
    while i < ID_LENGTH
      invariant i <= ID_LENGTH
      invariant d[..i] == Distance(id1, id2)[..i]
    {
      d[i] := id1[i] ^ id2[i];
      i := i + 1;
    }
    dist := d[..];
  }

  /** The first set bit of the distance; the last bucket for equal identifiers. */
  method BucketIndex(id1: Id, id2: Id) returns (index: nat)
    ensures index == BucketOf(id1, id2)
  {
    hide Bit, Mask, FirstBit;
    var dist := ComputeDistance(id1, id2);
    var i := 0;
    while i < ID_LENGTH
      invariant i <= ID_LENGTH
      invariant forall j :: 0 <= j < 8 * i ==> !Bit(dist, j)
    {
      if dist[i] != 0 {
        var bit := 0;
        while bit < 8
          invariant bit <= 8
          invariant forall j :: 0 <= j < 8 * i + bit ==> !Bit(dist, j)
        {
          BitOfByte(dist, i, bit);
          if dist[i] & Mask(bit) != 0 {
            FirstBitFound(dist, 0, 8 * i + bit);
            return 8 * i + bit;
          }
          bit := bit + 1;
        }
      } else {
        ZeroByte(dist, i);
      }
      i := i + 1;
    }
    FirstBitNone(dist, 0);
    return ID_BITS - 1;
  }

  lemma BitOfByte(d: Id, i: nat, bit: nat)
    requires i < ID_LENGTH && bit < 8
    ensures Bit(d, 8 * i + bit) <==> d[i] & Mask(bit) != 0
  {
    Position(i, bit);
  }

  lemma ZeroByte(d: Id, i: nat)
    requires i < ID_LENGTH && d[i] == 0
    ensures forall j :: 8 * i <= j < 8 * i + 8 ==> !Bit(d, j)
  {
    forall j | 8 * i <= j < 8 * i + 8 ensures !Bit(d, j) {
      BitOfByte(d, i, j - 8 * i);
    }
  }

  /** The comparison ClosestNodes sorts by. */
  method IsNearer(a: Contact, b: Contact, target: Id) returns (nearer: bool)
    ensures nearer <==> Nearer(target, a, b)
  {
    hide Num;
    var x := ComputeDistance(a.id, target);
    var y := ComputeDistance(b.id, target);
    BytesLessIsNumeric(x, y);
    var k := 0;
    while k < ID_LENGTH
      invariant k <= ID_LENGTH && x[..k] == y[..k]
    {
      if x[k] != y[k] {
        FirstByteDecidesBoth(x, y, k);
        return x[k] < y[k];
      }
      k := k + 1;
    }
    assert x == x[..k] && y == y[..k];
    return false;
  }

  lemma FirstByteDecidesBoth(x: Id, y: Id, k: nat)
    requires k < ID_LENGTH && x[..k] == y[..k] && x[k] != y[k]
    ensures x[k] < y[k] <==> Num(x, ID_BITS) < Num(y, ID_BITS)
  {
    assert forall j :: 0 <= j < k ==> x[..k][j] == y[..k][j];
    if x[k] < y[k] {
      FirstByteDecides(x, y, k);
    } else {
      FirstByteDecides(y, x, k);
    }
  }

  /** `sort.Slice` by distance to target. */
  method SortByDistance(all: seq<Contact>, target: Id) returns (sorted: seq<Contact>)
    requires Distinct(all)
    ensures |sorted| == |all| && SameMembers(sorted, all) && NearestFirst(target, sorted)
  {
    sorted := [];
    var i := 0;
    while i < |all|
      invariant i <= |all|
      invariant |sorted| == i && SameMembers(sorted, all[..i]) && NearestFirst(target, sorted)
    {
      NoTieWith(all, i, sorted, target);
      sorted := Insert(sorted, all[i], target);
      assert all[..i + 1] == all[..i] + [all[i]];
      i := i + 1;
    }
    assert all == all[..i];
  }

  ghost predicate Tied(target: Id, s: seq<Contact>, c: Contact) {
    exists x :: x in s && !Nearer(target, x, c) && !Nearer(target, c, x)
  }

  lemma NoTieWith(all: seq<Contact>, i: nat, sorted: seq<Contact>, target: Id)
    requires Distinct(all) && i < |all| && SameMembers(sorted, all[..i])
    ensures !Tied(target, sorted, all[i])
  {
    forall x | x in sorted ensures Nearer(target, x, all[i]) || Nearer(target, all[i], x) {
      var j :| 0 <= j < i && all[..i][j] == x;
      NoTies(target, x, all[i]);
    }
  }

  method Insert(sorted: seq<Contact>, c: Contact, target: Id) returns (r: seq<Contact>)
    requires NearestFirst(target, sorted) && !Tied(target, sorted, c)
    ensures |r| == |sorted| + 1 && SameMembers(r, sorted + [c]) && NearestFirst(target, r)
  {
    var p := 0;
    while p < |sorted|
      invariant p <= |sorted|
      invariant forall i :: 0 <= i < p ==> Nearer(target, sorted[i], c)
    {
      var before := IsNearer(sorted[p], c, target);
      if !before { break; }
      p := p + 1;
    }
    ContactInserted(sorted, p, c, target);
    r := Inserted(sorted, p, c);
  }

  lemma ContactInserted(sorted: seq<Contact>, p: nat, c: Contact, target: Id)
    requires NearestFirst(target, sorted) && !Tied(target, sorted, c) && p <= |sorted|
    requires forall i :: 0 <= i < p ==> Nearer(target, sorted[i], c)
    requires p < |sorted| ==> !Nearer(target, sorted[p], c)
    ensures var r := Inserted(sorted, p, c);
            |r| == |sorted| + 1 && SameMembers(r, sorted + [c]) && NearestFirst(target, r)
  {
    assert sorted == sorted[..p] + sorted[p..];
    if p < |sorted| {
      assert sorted[p] in sorted;
      assert Nearer(target, c, sorted[p]);
    }
    InsertedSorted(sorted, p, c, (a, b) => Nearer(target, a, b));
  }

  class KBucket {
    var contacts: seq<Contact>

    constructor ()
      ensures contacts == []
    {
      contacts := [];
    }

    method Add(contact: Contact)
      requires Distinct(contacts)
      modifies this
      ensures contacts == Added(old(contacts), contact)
    {
      var i := 0;
      while i < |contacts|
        invariant i <= |contacts| && contacts == old(contacts)
        invariant forall j :: 0 <= j < i ==> contacts[j].id != contact.id
      {
        if contacts[i].id == contact.id {
          assert contacts[i] in contacts;
          WithoutAt(contacts, i);
          contacts := contacts[..i] + contacts[i + 1..];
          contacts := contacts + [contact];
          return;
        }
        i := i + 1;
      }
      WithoutUnknown(contacts, contact.id);
      if |contacts| < K {
        contacts := contacts + [contact];
      }
    }
  }

  class RoutingTable {
    const selfID: Id
    const buckets: seq<KBucket>

    /** The table these objects stand for. */
    ghost function Contents(): (t: Table)
      reads buckets
      ensures |t| == |buckets| && forall k :: 0 <= k < |t| ==> t[k] == buckets[k].contacts
    {
      seq(|buckets|, k requires 0 <= k < |buckets| reads buckets => buckets[k].contacts)
    }

    ghost predicate Valid()
      reads buckets
    {
      && |buckets| == ID_BITS
      && (forall i, j :: 0 <= i < j < ID_BITS ==> buckets[i] != buckets[j])
      && TableOk(selfID, Contents())
    }

    constructor (id: Id)
      ensures Valid() && selfID == id && Contents() == NewTable()
      ensures fresh(buckets)
    {
      selfID := id;
      var b: seq<KBucket> := [];
      while |b| < ID_BITS
        invariant |b| <= ID_BITS && fresh(b)
        invariant forall i, j :: 0 <= i < j < |b| ==> b[i] != b[j]
        invariant forall i :: 0 <= i < |b| ==> b[i].contacts == []
      {
        var kb := new KBucket();
        b := b + [kb];
      }
      buckets := b;
    }

    method Add(contact: Contact)
      requires Valid()
      modifies buckets
      ensures Valid()
      ensures Contents() == TableAdded(selfID, old(Contents()), contact)
    {
      if contact.id == selfID {
        return;
      }
      var idx := BucketIndex(selfID, contact.id);
      TableAddedOk(selfID, Contents(), contact);
      assert BucketOk(selfID, idx, buckets[idx].contacts);
      buckets[idx].Add(contact);
      assert Contents() == TableAdded(selfID, old(Contents()), contact);
    }

    /** A non-negative count; the slice expression fails on a negative one. */
    method ClosestNodes(target: Id, count: nat) returns (closest: seq<Contact>)
      requires Valid()
      ensures IsNearest(Concat(Contents()), target, count, closest)
    {
      var all: seq<Contact> := [];
      var i := 0;
      while i < |buckets|
        invariant i <= |buckets|
        invariant all == Concat(Contents()[..i])
      {
        all := all + buckets[i].contacts;
        assert Contents()[..i + 1][..i] == Contents()[..i];
        i := i + 1;
      }
      assert Contents()[..i] == Contents();
      AllDistinct(selfID, Contents(), ID_BITS);
      var sorted := SortByDistance(all, target);
      CutOfSorted(all, sorted, target, count);
      closest := if |sorted| > count then sorted[..count] else sorted;
    }
  }
}
