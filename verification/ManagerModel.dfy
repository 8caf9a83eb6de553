/** The piece manager's state and its locked operations, each an atomic step. Go's maps from
    indices to `true` are sets here. */
module ManagerModel {
  import opened Ints

  datatype Manager = Manager(
    total: nat,
    pending: set<int>,
    inProgress: set<int>,
    completed: set<int>,
    failedAttempts: map<int, int>,
    permanentlyFailed: set<int>,
    maxRetries: int,
    downloaded: int,
    availability: seq<int>,
    availabilitySum: int,
    buckets: map<int, set<int>>,
    streaming: bool,
    window: int,
    priority: set<int>)

  const DEFAULT_MAX_RETRIES := 3
  const DEFAULT_WINDOW := 15

  /** A manager for a fresh download: everything pending, nobody known to have anything. */
  ghost function NewManager(total: nat): Manager {
    Manager(total, Indices(total), {}, {}, map[], {}, DEFAULT_MAX_RETRIES, 0,
            seq(total, _ => 0), 0, map[0 := Indices(total)], true, DEFAULT_WINDOW, {})
  }

  // ---------- the bucket index ----------

  function Bucket(buckets: map<int, set<int>>, count: int): set<int> {
    if count in buckets then buckets[count] else {}
  }

  function Dropped(buckets: map<int, set<int>>, i: int, count: int): (r: map<int, set<int>>)
    ensures forall c {:trigger Bucket(r, c)} :: Bucket(r, c) == Bucket(buckets, c) - if c == count then {i} else {}
  {
    if count in buckets then buckets[count := buckets[count] - {i}] else buckets
  }

  function Added(buckets: map<int, set<int>>, i: int, count: int): (r: map<int, set<int>>)
    ensures forall c {:trigger Bucket(r, c)} :: Bucket(r, c) == Bucket(buckets, c) + if c == count then {i} else {}
  {
    buckets[count := Bucket(buckets, count) + {i}]
  }

  function Moved(buckets: map<int, set<int>>, i: int, from: int, to: int): map<int, set<int>> {
    Added(Dropped(buckets, i, from), i, to)
  }

  ghost function SumSeq(s: seq<int>): int {
    if s == [] then 0 else SumSeq(s[..|s| - 1]) + s[|s| - 1]
  }

  /** How many entries the buckets of these counts hold. */
  ghost function TotalIn(buckets: map<int, set<int>>, counts: set<int>): nat
    requires counts <= buckets.Keys
    decreases |counts|
  {
    if forall c :: c !in counts then 0
    else
      var c :| c in counts;
      |Bucket(buckets, c)| + TotalIn(buckets, counts - {c})
  }

  /** The index is never wrong about what it holds: only pending pieces, under their count. */
  ghost predicate SoundIndex(buckets: map<int, set<int>>, pending: set<int>, availability: seq<int>) {
    forall c, i {:trigger i in Bucket(buckets, c)} :: i in Bucket(buckets, c) ==>
      i in pending && 0 <= i < |availability| && availability[i] == c
  }

  /** The index misses no pending piece. */
  ghost predicate FullIndex(buckets: map<int, set<int>>, pending: set<int>, availability: seq<int>) {
    forall i :: i in pending && 0 <= i < |availability| ==> i in Bucket(buckets, availability[i])
  }

  ghost predicate BucketsFull(m: Manager) {
    FullIndex(m.buckets, m.pending, m.availability)
  }

  lemma IndexDrop(buckets: map<int, set<int>>, pending: set<int>, availability: seq<int>, i: int)
    requires SoundIndex(buckets, pending, availability) && 0 <= i < |availability|
    ensures var b := Dropped(buckets, i, availability[i]);
            && SoundIndex(b, pending, availability)
            && SoundIndex(b, pending - {i}, availability)
            && (FullIndex(buckets, pending, availability) ==> FullIndex(b, pending - {i}, availability))
            && i !in Bucket(b, availability[i])
  {
  }

  lemma IndexAdd(buckets: map<int, set<int>>, pending: set<int>, availability: seq<int>, i: int)
    requires SoundIndex(buckets, pending, availability) && 0 <= i < |availability|
    ensures var b := Added(buckets, i, availability[i]);
            && SoundIndex(b, pending + {i}, availability)
            && (FullIndex(buckets, pending, availability) ==> FullIndex(b, pending + {i}, availability))
  {
  }

  lemma IndexMove(buckets: map<int, set<int>>, pending: set<int>, availability: seq<int>, i: int, count: int)
    requires SoundIndex(buckets, pending, availability) && 0 <= i < |availability|
    ensures var b := if i in pending then Moved(buckets, i, availability[i], count) else buckets;
            && SoundIndex(b, pending, availability[i := count])
            && (FullIndex(buckets, pending, availability) ==> FullIndex(b, pending, availability[i := count]))
  {
    if i in pending {
      var dropped := Dropped(buckets, i, availability[i]);
      IndexDrop(buckets, pending, availability, i);
      assert SoundIndex(dropped, pending - {i}, availability[i := count]);
      IndexAdd(dropped, pending - {i}, availability[i := count], i);
      assert pending - {i} + {i} == pending;
    }
  }

  ghost predicate Inv(m: Manager) {
    && |m.availability| == m.total
    && (forall i :: 0 <= i < m.total ==> m.availability[i] >= 0)
    && m.pending <= Indices(m.total)
    && m.inProgress <= Indices(m.total)
    && m.completed <= Indices(m.total)
    && m.permanentlyFailed <= Indices(m.total)
    && m.priority <= Indices(m.total)
    && m.availabilitySum == SumSeq(m.availability)
    && SoundIndex(m.buckets, m.pending, m.availability)
  }

  // ---------- synchronising the index ----------

  /** ensureBucketsSync's test: a count of entries and a checksum. */
  ghost predicate LooksSynced(m: Manager) {
    TotalIn(m.buckets, m.buckets.Keys) == |m.pending| && SumSeq(m.availability) == m.availabilitySum
  }

  /** These pieces, partitioned by count. */
  ghost function Partition(pieces: set<int>, availability: seq<int>): map<int, set<int>>
    requires pieces <= Indices(|availability|)
  {
    var counts := set i | i in pieces :: availability[i];
    map c | c in counts :: set i | i in pieces && availability[i] == c
  }

  ghost function Rebuilt(m: Manager): map<int, set<int>>
    requires m.pending <= Indices(|m.availability|)
  {
    Partition(m.pending, m.availability)
  }

  ghost function Synced(m: Manager): Manager
    requires m.pending <= Indices(|m.availability|)
  {
    if LooksSynced(m) then m
    else m.(buckets := Rebuilt(m), availabilitySum := SumSeq(m.availability))
  }

  lemma PartitionNone(availability: seq<int>)
    ensures Partition({}, availability) == map[]
  {
  }

  lemma PartitionAdd(pieces: set<int>, availability: seq<int>, i: int)
    requires pieces <= Indices(|availability|) && 0 <= i < |availability| && i !in pieces
    ensures pieces + {i} <= Indices(|availability|)
    ensures Partition(pieces + {i}, availability) == Added(Partition(pieces, availability), i, availability[i])
  {
    var was, now := Partition(pieces, availability), Partition(pieces + {i}, availability);
    var count := availability[i];
    assert now.Keys == was.Keys + {count} by {
      assert i in pieces + {i};
    }
    forall c | c in now ensures now[c] == Added(was, i, count)[c] {
    }
  }

  lemma {:induction false} TotalInWithout(buckets: map<int, set<int>>, counts: set<int>, c: int)
    requires counts <= buckets.Keys && c in counts
    ensures TotalIn(buckets, counts) == |Bucket(buckets, c)| + TotalIn(buckets, counts - {c})
    decreases |counts|
  {
    var d :| d in counts && TotalIn(buckets, counts) == |Bucket(buckets, d)| + TotalIn(buckets, counts - {d});
    if d != c {
      TotalInWithout(buckets, counts - {d}, c);
      TotalInWithout(buckets, counts - {c}, d);
      assert counts - {d} - {c} == counts - {c} - {d};
    }
  }

  /** The pending pieces found in the buckets of these counts. */
  ghost function Indexed(m: Manager, counts: set<int>): set<int> {
    set i | i in m.pending && 0 <= i < |m.availability| && m.availability[i] in counts
            && i in Bucket(m.buckets, m.availability[i])
  }

  lemma {:induction false} TotalIsIndexed(m: Manager, counts: set<int>)
    requires SoundIndex(m.buckets, m.pending, m.availability) && counts <= m.buckets.Keys
    ensures TotalIn(m.buckets, counts) == |Indexed(m, counts)|
    decreases |counts|
  {
    if forall c :: c !in counts {
      assert Indexed(m, counts) == {};
    } else {
      var c :| c in counts && TotalIn(m.buckets, counts) == |Bucket(m.buckets, c)| + TotalIn(m.buckets, counts - {c});
      TotalIsIndexed(m, counts - {c});
      var fewer := Indexed(m, counts - {c});
      forall i ensures i in Indexed(m, counts) <==> i in fewer + Bucket(m.buckets, c) {
        assert i in Bucket(m.buckets, c) ==> i in m.pending && m.availability[i] == c;
      }
      assert Indexed(m, counts) == fewer + Bucket(m.buckets, c);
      assert fewer !! Bucket(m.buckets, c);
    }
  }

  lemma SubsetSameSize(a: set<int>, b: set<int>)
    requires a <= b && |a| == |b|
    ensures a == b
  {
    assert b == a + (b - a);
  }

  /** The counting test and checksum are exact: they pass iff the index is complete, and after
      the repair it always is. */
  lemma SyncExact(m: Manager)
    requires Inv(m)
    ensures LooksSynced(m) <==> BucketsFull(m)
    ensures Inv(Synced(m)) && BucketsFull(Synced(m))
    ensures Synced(m) == m.(buckets := Synced(m).buckets)
  {
    var indexed := Indexed(m, m.buckets.Keys);
    TotalIsIndexed(m, m.buckets.Keys);
    assert indexed <= m.pending;
    if LooksSynced(m) {
      SubsetSameSize(indexed, m.pending);
      assert forall i :: i in m.pending ==> i in indexed;
    }
    assert BucketsFull(m) ==> indexed == m.pending;
    if !LooksSynced(m) {
      forall i | i in m.pending ensures i in Bucket(Rebuilt(m), m.availability[i]) {
        assert m.availability[i] in set j | j in m.pending :: m.availability[j];
      }
    }
  }

  // ---------- the operations ----------

  ghost function Claim(m: Manager, i: int): Manager
    requires 0 <= i < |m.availability|
  {
    m.(pending := m.pending - {i}, inProgress := m.inProgress + {i},
       buckets := Dropped(m.buckets, i, m.availability[i]))
  }

  /** Availability of piece i changes; a pending piece moves to its new bucket. */
  ghost function Recounted(m: Manager, i: int, count: int, sum: int): Manager
    requires 0 <= i < |m.availability|
  {
    m.(availability := m.availability[i := count], availabilitySum := sum,
       buckets := if i in m.pending then Moved(m.buckets, i, m.availability[i], count) else m.buckets)
  }

  ghost function Incremented(m: Manager, i: int): Manager {
    if 0 <= i < m.total && i < |m.availability| then
      Recounted(m, i, m.availability[i] + 1, m.availabilitySum + 1)
    else m
  }

  /** Never below zero, and the checksum follows only a real decrement. */
  ghost function Decremented(m: Manager, i: int): Manager {
    if 0 <= i < m.total && i < |m.availability| then
      var count := m.availability[i];
      var less := if m.availabilitySum - 1 < 0 then 0 else m.availabilitySum - 1;
      var sum := if count > 0 then less else m.availabilitySum;
      Recounted(m, i, if count - 1 < 0 then 0 else count - 1, sum)
    else m
  }

  ghost function Registered(m: Manager, bf: seq<bool>): Manager {
    if bf == [] then m
    else
      var n := |bf| - 1;
      if bf[n] then Incremented(Registered(m, bf[..n]), n) else Registered(m, bf[..n])
  }

  ghost function Unregistered(m: Manager, bf: seq<bool>): Manager {
    if bf == [] then m
    else
      var n := |bf| - 1;
      if bf[n] then Decremented(Unregistered(m, bf[..n]), n) else Unregistered(m, bf[..n])
  }

  ghost function WithPriority(m: Manager, indices: seq<int>): Manager {
    m.(priority := set i | i in indices && 0 <= i < m.total)
  }

  ghost function WithStreaming(m: Manager, enabled: bool, window: int): Manager {
    m.(streaming := enabled, window := if window > 0 then window else m.window)
  }

  ghost function MarkedComplete(m: Manager, i: int, bytes: int): Manager
    requires 0 <= i < |m.availability|
  {
    var released := m.(inProgress := m.inProgress - {i});
    if i in m.completed then released
    else released.(completed := m.completed + {i}, downloaded := m.downloaded + bytes,
                   buckets := Dropped(m.buckets, i, m.availability[i]))
  }

  function Attempts(m: Manager, i: int): int {
    if i in m.failedAttempts then m.failedAttempts[i] else 0
  }

  ghost function ReturnedToPending(m: Manager, i: int): Manager
    requires 0 <= i < |m.availability|
  {
    m.(inProgress := m.inProgress - {i}, pending := m.pending + {i},
       buckets := Added(m.buckets, i, m.availability[i]))
  }

  /** Whether the piece went back to pending is `Attempts(MarkedFailed(m, i), i) <= m.maxRetries`. */
  ghost function MarkedFailed(m: Manager, i: int): Manager
    requires 0 <= i < |m.availability|
  {
    var attempts := Attempts(m, i) + 1;
    var counted := m.(failedAttempts := m.failedAttempts[i := attempts]);
    if attempts > m.maxRetries then
      counted.(inProgress := m.inProgress - {i}, permanentlyFailed := m.permanentlyFailed + {i})
    else ReturnedToPending(counted, i)
  }

  predicate IsComplete(m: Manager) {
    m.permanentlyFailed == {} && |m.completed| == m.total
  }

  // ---------- selection ----------

  predicate Offered(available: seq<bool>, i: int) {
    0 <= i < |available| && available[i]
  }

  ghost predicate IsRarest(m: Manager, available: seq<bool>, i: int)
    requires Inv(m)
  {
    && i in m.pending && Offered(available, i)
    && forall j :: j in m.pending && Offered(available, j) ==> m.availability[i] <= m.availability[j]
  }

  ghost predicate NothingWanted(m: Manager, available: seq<bool>) {
    forall j :: j in m.pending ==> !Offered(available, j)
  }

  /** -1 is the error return. */
  ghost predicate NextRarest(m: Manager, m': Manager, available: seq<bool>, r: int)
    requires Inv(m)
  {
    if NothingWanted(m, available) then r == -1 && m' == Synced(m)
    else IsRarest(m, available, r) && m' == Claim(Synced(m), r)
  }

  /** The least wanted piece inside the window. */
  ghost predicate IsFirstInWindow(m: Manager, available: seq<bool>, i: int) {
    && 0 <= i < m.window && i < m.total && i in m.pending && Offered(available, i)
    && forall j :: 0 <= j < i ==> !(j in m.pending && Offered(available, j))
  }

  ghost predicate NextStreaming(m: Manager, m': Manager, available: seq<bool>, r: int)
    requires Inv(m)
  {
    if exists i :: IsFirstInWindow(m, available, i) then
      IsFirstInWindow(m, available, r) && m' == Claim(Synced(m), r)
    else NextRarest(m, m', available, r)
  }

  ghost predicate NextRandom(m: Manager, m': Manager, available: seq<bool>, r: int)
    requires Inv(m)
  {
    if NothingWanted(m, available) then r == -1 && m' == m
    else r in m.pending && Offered(available, r) && m' == Claim(m, r)
  }

  /** The override for pieces a video player waits for: claimed even when already in progress. */
  ghost predicate PriorityWanted(m: Manager, available: seq<bool>, i: int) {
    i in m.priority && i !in m.completed && Offered(available, i)
  }

  ghost predicate NextPriority(m: Manager, m': Manager, available: seq<bool>, r: int)
    requires Inv(m)
  {
    PriorityWanted(m, available, r) && m' == Claim(m, r)
  }

  // ---------- the invariant is kept ----------

  lemma NewManagerInv(total: nat)
    ensures Inv(NewManager(total)) && BucketsFull(NewManager(total))
  {
    SumOfZeros(total);
  }

  lemma {:induction false} SumOfZeros(n: nat)
    ensures SumSeq(seq(n, _ => 0)) == 0
  {
    if n > 0 {
      SumOfZeros(n - 1);
      assert seq(n, _ => 0)[..n - 1] == seq(n - 1, _ => 0);
    }
  }

  lemma {:induction false} SumSeqUpdate(s: seq<int>, i: int, v: int)
    requires 0 <= i < |s|
    ensures SumSeq(s[i := v]) == SumSeq(s) - s[i] + v
  {
    var n := |s| - 1;
    if i < n {
      SumSeqUpdate(s[..n], i, v);
      assert s[i := v][..n] == s[..n][i := v];
    } else {
      assert s[i := v][..n] == s[..n];
    }
  }

  lemma {:induction false} SumSeqNonNegative(s: seq<int>)
    requires forall i :: 0 <= i < |s| ==> s[i] >= 0
    ensures forall i :: 0 <= i < |s| ==> s[i] <= SumSeq(s)
    ensures SumSeq(s) >= 0
  {
    if s != [] { SumSeqNonNegative(s[..|s| - 1]); }
  }

  lemma ClaimInv(m: Manager, i: int)
    requires Inv(m) && 0 <= i < m.total
    ensures Inv(Claim(m, i))
    ensures BucketsFull(m) ==> BucketsFull(Claim(m, i))
  {
    IndexDrop(m.buckets, m.pending, m.availability, i);
  }

  lemma RecountedInv(m: Manager, i: int, count: int)
    requires Inv(m) && 0 <= i < m.total && count >= 0
    ensures Inv(Recounted(m, i, count, m.availabilitySum - m.availability[i] + count))
    ensures BucketsFull(m) ==> BucketsFull(Recounted(m, i, count, m.availabilitySum - m.availability[i] + count))
  {
    SumSeqUpdate(m.availability, i, count);
    IndexMove(m.buckets, m.pending, m.availability, i, count);
  }

  lemma IncrementedInv(m: Manager, i: int)
    requires Inv(m)
    ensures Inv(Incremented(m, i)) && SameProgress(m, Incremented(m, i))
    ensures BucketsFull(m) ==> BucketsFull(Incremented(m, i))
  {
    if 0 <= i < m.total { RecountedInv(m, i, m.availability[i] + 1); }
  }

  lemma DecrementedInv(m: Manager, i: int)
    requires Inv(m)
    ensures Inv(Decremented(m, i)) && SameProgress(m, Decremented(m, i))
    ensures BucketsFull(m) ==> BucketsFull(Decremented(m, i))
  {
    if 0 <= i < m.total {
      SumSeqNonNegative(m.availability);
      RecountedInv(m, i, if m.availability[i] - 1 < 0 then 0 else m.availability[i] - 1);
    }
  }

  /** Nothing but availability and its index differs. */
  ghost predicate SameProgress(m: Manager, m': Manager) {
    m' == m.(availability := m'.availability, availabilitySum := m'.availabilitySum, buckets := m'.buckets)
  }

  lemma SettingsInv(m: Manager, indices: seq<int>, enabled: bool, window: int)
    requires Inv(m)
    ensures Inv(WithPriority(m, indices)) && Inv(WithStreaming(m, enabled, window))
  {
  }

  lemma {:induction false} RegisteredInv(m: Manager, bf: seq<bool>)
    requires Inv(m)
    ensures Inv(Registered(m, bf)) && SameProgress(m, Registered(m, bf))
    ensures BucketsFull(m) ==> BucketsFull(Registered(m, bf))
  {
    if bf != [] {
      RegisteredInv(m, bf[..|bf| - 1]);
      IncrementedInv(Registered(m, bf[..|bf| - 1]), |bf| - 1);
    }
  }

  lemma {:induction false} UnregisteredInv(m: Manager, bf: seq<bool>)
    requires Inv(m)
    ensures Inv(Unregistered(m, bf)) && SameProgress(m, Unregistered(m, bf))
    ensures BucketsFull(m) ==> BucketsFull(Unregistered(m, bf))
  {
    if bf != [] {
      UnregisteredInv(m, bf[..|bf| - 1]);
      DecrementedInv(Unregistered(m, bf[..|bf| - 1]), |bf| - 1);
    }
  }

  lemma ReturnedToPendingInv(m: Manager, i: int)
    requires Inv(m) && 0 <= i < m.total
    ensures Inv(ReturnedToPending(m, i))
    ensures BucketsFull(m) ==> BucketsFull(ReturnedToPending(m, i))
  {
    IndexAdd(m.buckets, m.pending, m.availability, i);
  }

  lemma MarkedFailedInv(m: Manager, i: int)
    requires Inv(m) && 0 <= i < m.total
    ensures Inv(MarkedFailed(m, i))
    ensures BucketsFull(m) ==> BucketsFull(MarkedFailed(m, i))
  {
    var counted := m.(failedAttempts := m.failedAttempts[i := Attempts(m, i) + 1]);
    ReturnedToPendingInv(counted, i);
  }

  /** The one operation that can leave the index incomplete: it unlists a piece that is still
      pending, and it does so exactly when the piece was pending and not yet completed. */
  lemma MarkedCompleteInv(m: Manager, i: int, bytes: int)
    requires Inv(m) && 0 <= i < m.total
    ensures Inv(MarkedComplete(m, i, bytes))
    ensures BucketsFull(m) ==> (BucketsFull(MarkedComplete(m, i, bytes)) <==> !(i in m.pending && i !in m.completed))
  {
    var m' := MarkedComplete(m, i, bytes);
    IndexDrop(m.buckets, m.pending, m.availability, i);
    if BucketsFull(m) && i in m.pending && i !in m.completed {
      assert i in m'.pending && i !in Bucket(m'.buckets, m'.availability[i]);
    }
  }

  /** Registering adds one to exactly the counts offered; unregistering takes one from each of them
      that is positive. */
  lemma {:induction false} RegisterCounts(m: Manager, bf: seq<bool>, i: int)
    requires Inv(m) && 0 <= i < m.total
    ensures Inv(Registered(m, bf)) && SameProgress(m, Registered(m, bf))
    ensures Inv(Unregistered(m, bf)) && SameProgress(m, Unregistered(m, bf))
    ensures Registered(m, bf).availability[i] == m.availability[i] + if Offered(bf, i) then 1 else 0
    ensures Unregistered(m, bf).availability[i]
         == if Offered(bf, i) && m.availability[i] > 0 then m.availability[i] - 1 else m.availability[i]
  {
    RegisteredInv(m, bf);
    UnregisteredInv(m, bf);
    if bf != [] {
      var n := |bf| - 1;
      RegisterCounts(m, bf[..n], i);
      RegisteredInv(m, bf[..n]);
      UnregisteredInv(m, bf[..n]);
    }
  }

  /** Registering a peer and unregistering it with the same bitfield restores every count, and with
      them the checksum. */
  lemma RegisterUnregister(m: Manager, bf: seq<bool>)
    requires Inv(m)
    ensures var m' := Unregistered(Registered(m, bf), bf);
            m'.availability == m.availability && m'.availabilitySum == m.availabilitySum && SameProgress(m, m')
  {
    RegisteredInv(m, bf);
    UnregisteredInv(Registered(m, bf), bf);
    forall i | 0 <= i < m.total
      ensures Unregistered(Registered(m, bf), bf).availability[i] == m.availability[i]
    {
      RegisterCounts(m, bf, i);
      RegisterCounts(Registered(m, bf), bf, i);
    }
  }

  /** Every way of claiming keeps the invariant, and the selecting ones leave the index complete. */
  lemma ClaimsInv(m: Manager, m': Manager, available: seq<bool>, r: int)
    requires Inv(m)
    ensures NextRarest(m, m', available, r) || NextStreaming(m, m', available, r) ==> Inv(m') && BucketsFull(m')
    ensures NextRandom(m, m', available, r) || NextPriority(m, m', available, r) ==> Inv(m')
  {
    SyncExact(m);
    hide LooksSynced, Synced, SoundIndex, Rebuilt;
    if 0 <= r < m.total {
      ClaimInv(m, r);
      ClaimInv(Synced(m), r);
    }
  }

  // ---------- progress: where pieces stand, apart from how they are found ----------

  /** The same pieces stand at the same places, with the same counts. */
  ghost predicate Unmoved(m: Manager, m': Manager) {
    && m'.total == m.total && m'.maxRetries == m.maxRetries && m'.downloaded == m.downloaded
    && m'.pending == m.pending && m'.inProgress == m.inProgress && m'.completed == m.completed
    && m'.permanentlyFailed == m.permanentlyFailed && m'.failedAttempts == m.failedAttempts
  }

  /** Every piece is pending, in progress, complete or given up, and given up exactly when it
      failed too often. */
  ghost predicate NothingLost(m: Manager) {
    && (forall i :: 0 <= i < m.total ==>
          i in m.pending || i in m.inProgress || i in m.completed || i in m.permanentlyFailed)
    && m.pending !! m.inProgress
    && (forall i :: 0 <= i < m.total ==> (i in m.permanentlyFailed <==> Attempts(m, i) > m.maxRetries))
  }

  lemma ClaimLosesNothing(m: Manager, i: int)
    requires NothingLost(m) && 0 <= i < m.total == |m.availability|
    ensures NothingLost(Claim(m, i))
  {
  }

  lemma ReturnLosesNothing(m: Manager, i: int)
    requires NothingLost(m) && 0 <= i < m.total == |m.availability|
    ensures NothingLost(ReturnedToPending(m, i))
  {
  }

  lemma CompletionLosesNothing(m: Manager, i: int, bytes: int)
    requires NothingLost(m) && 0 <= i < m.total == |m.availability|
    ensures NothingLost(MarkedComplete(m, i, bytes))
  {
  }

  lemma FailureLosesNothing(m: Manager, i: int)
    requires NothingLost(m) && 0 <= i < m.total == |m.availability|
    ensures NothingLost(MarkedFailed(m, i))
  {
  }
}
