/** The piece manager as the program has it: each method is one critical section, proved against
    the operation of ManagerModel it carries out. */
module PieceManager {
  import opened Bytes
  import opened Ints
  import opened Seqs
  import opened Pieces
  import opened Storage
  import opened ManagerModel

  class PieceManager {
    const total: nat
    var pending: set<int>
    var inProgress: set<int>
    var completed: set<int>
    var failedAttempts: map<int, int>
    var permanentlyFailed: set<int>
    const maxRetries: int
    var downloaded: int
    const availability: array<int>
    var availabilitySum: int
    var buckets: map<int, set<int>>
    var streaming: bool
    var window: int
    var priority: set<int>

    ghost function State(): Manager
      reads this, availability
    {
      Manager(total, pending, inProgress, completed, failedAttempts, permanentlyFailed, maxRetries,
              downloaded, availability[..], availabilitySum, buckets, streaming, window, priority)
    }

    ghost predicate Invariant()
      reads this, availability
    {
      Inv(State())
    }

    constructor (total: nat)
      ensures Invariant() && State() == NewManager(total) && fresh(availability)
      ensures maxRetries == 3 && streaming && window == 15 && priority == {}
    {
      this.total := total;
      pending, inProgress, completed := Indices(total), {}, {};
      failedAttempts, permanentlyFailed, maxRetries := map[], {}, DEFAULT_MAX_RETRIES;
      downloaded, availabilitySum := 0, 0;
      availability := new int[total](_ => 0);
      buckets := map[0 := Indices(total)];
      streaming, window, priority := true, DEFAULT_WINDOW, {};
      new;
      NewManagerInv(total);
      assert availability[..] == seq(total, _ => 0);
    }

    // ---------- the bucket index ----------

    method EnsureBucketsSync()
      requires Invariant()
      modifies this
      ensures State() == Synced(old(State()))
      ensures Invariant() && BucketsFull(State())
    {
      SyncExact(State());
      var totalInBuckets := CountBuckets();
      var actualSum := 0;
      for n := 0 to availability.Length
        invariant actualSum == SumSeq(availability[..n])
      {
        assert availability[..n + 1][..n] == availability[..n];
        actualSum := actualSum + availability[n];
      }
      assert availability[..availability.Length] == availability[..];
      if totalInBuckets != |pending| || actualSum != availabilitySum {
        Rebuild();
        availabilitySum := actualSum;
      }
    }

    method CountBuckets() returns (n: nat)
      ensures n == TotalIn(buckets, buckets.Keys)
    {
      n := 0;
      var rest := buckets.Keys;
      while exists c :: c in rest
        invariant rest <= buckets.Keys
        invariant n + TotalIn(buckets, rest) == TotalIn(buckets, buckets.Keys)
        decreases |rest|
      {
        var c :| c in rest;
        TotalInWithout(buckets, rest, c);
        n := n + |buckets[c]|;
        rest := rest - {c};
      }
    }

    method Rebuild()
      requires pending <= Indices(availability.Length)
      modifies this`buckets
      ensures buckets == Partition(pending, availability[..])
    {
      hide Partition, Added;
      buckets := map[];
      PartitionNone(availability[..]);
      var done, rest := {}, pending;
      while exists i :: i in rest
        invariant done + rest == pending && done !! rest
        invariant buckets == Partition(done, availability[..])
        decreases |rest|
      {
        var i :| i in rest;
        PartitionAdd(done, availability[..], i);
        AddToBucket(i, availability[i]);
        done, rest := done + {i}, rest - {i};
      }
      assert done == pending;
    }

    method AddToBucket(i: int, count: int)
      modifies this`buckets
      ensures buckets == Added(old(buckets), i, count)
    {
      if count !in buckets {
        buckets := buckets[count := {}];
      }
      buckets := buckets[count := buckets[count] + {i}];
    }

    method DropFromBucket(i: int, count: int)
      modifies this`buckets
      ensures buckets == Dropped(old(buckets), i, count)
    {
      if count in buckets {
        buckets := buckets[count := buckets[count] - {i}];
      }
    }

    method MoveBucket(i: int, oldCount: int, newCount: int)
      modifies this`buckets
      ensures buckets == Moved(old(buckets), i, oldCount, newCount)
    {
      DropFromBucket(i, oldCount);
      AddToBucket(i, newCount);
    }

    method ClaimPiece(i: int)
      requires 0 <= i < availability.Length
      modifies this
      ensures State() == Claim(old(State()), i)
    {
      pending := pending - {i};
      inProgress := inProgress + {i};
      DropFromBucket(i, availability[i]);
    }

    // ---------- availability ----------

    method SetCount(i: int, newCount: int, newSum: int)
      requires 0 <= i < availability.Length
      modifies this, availability
      ensures State() == Recounted(old(State()), i, newCount, newSum)
    {
      var oldCount := availability[i];
      availability[i] := newCount;
      availabilitySum := newSum;
      if i in pending {
        MoveBucket(i, oldCount, newCount);
      }
      assert availability[..] == old(availability[..])[i := newCount];
    }

    method IncrementAvailability(i: int)
      requires Invariant()
      modifies this, availability
      ensures Invariant() && State() == Incremented(old(State()), i)
    {
      IncrementedInv(State(), i);
      if 0 <= i < total {
        SetCount(i, availability[i] + 1, availabilitySum + 1);
      }
    }

    method RegisterPeerBitfield(bf: seq<bool>)
      requires Invariant()
      modifies this, availability
      ensures Invariant() && State() == Registered(old(State()), bf)
    {
      for i := 0 to |bf|
        invariant Invariant() && State() == Registered(old(State()), bf[..i])
      {
        assert bf[..i + 1][..i] == bf[..i];
        if bf[i] && i < total {
          IncrementAvailability(i);
        }
      }
      assert bf[..|bf|] == bf;
    }

    method UnregisterPeerBitfield(bf: seq<bool>)
      requires Invariant()
      modifies this, availability
      ensures Invariant() && State() == Unregistered(old(State()), bf)
    {
      for i := 0 to |bf|
        invariant Invariant() && State() == Unregistered(old(State()), bf[..i])
      {
        assert bf[..i + 1][..i] == bf[..i];
        if bf[i] && i < total {
          DecrementedInv(State(), i);
          var oldCount := availability[i];
          var newCount := oldCount - 1;
          if newCount < 0 {
            newCount := 0;
          }
          var sum := availabilitySum;
          if oldCount > 0 {
            sum := sum - 1;
            if sum < 0 {
              sum := 0;
            }
          }
          SetCount(i, newCount, sum);
        }
      }
      assert bf[..|bf|] == bf;
    }

    // ---------- selection ----------

    method SetStreaming(enabled: bool, windowSize: int)
      modifies this
      ensures State() == WithStreaming(old(State()), enabled, windowSize)
      ensures State() == old(State()).(streaming := enabled, window := window)
      ensures window == if windowSize > 0 then windowSize else old(window)
    {
      streaming := enabled;
      if windowSize > 0 {
        window := windowSize;
      }
    }

    method SetPriorityPieces(indices: seq<int>)
      requires Invariant()
      modifies this
      ensures Invariant() && State() == WithPriority(old(State()), indices)
      ensures State() == old(State()).(priority := priority)
      ensures forall i :: i in priority <==> i in indices && 0 <= i < total
    {
      SettingsInv(State(), indices, true, 0);
      priority := {};
      for n := 0 to |indices|
        invariant State() == old(State()).(priority := priority)
        invariant priority == set i | i in indices[..n] && 0 <= i < total
      {
        assert indices[..n + 1] == indices[..n] + [indices[n]];
        if 0 <= indices[n] < total {
          priority := priority + {indices[n]};
        }
      }
      assert indices[..|indices|] == indices;
    }

    /** Walks the buckets from the scarcest count up; the first with an offered piece decides. */
    method PickRarest(available: seq<bool>) returns (r: int)
      requires Invariant() && BucketsFull(State())
      modifies this
      ensures if NothingWanted(old(State()), available) then r == -1 && State() == old(State())
              else IsRarest(old(State()), available, r) && State() == Claim(old(State()), r)
    {
      var counts := SortedInts(set c | c in buckets && buckets[c] != {});
      for n := 0 to |counts|
        invariant State() == old(State())
        invariant forall k, i :: 0 <= k < n && i in Bucket(buckets, counts[k]) ==> !Offered(available, i)
      {
        assert counts[n] in Elements(counts);
        var candidates := set i | i in buckets[counts[n]] && Offered(available, i);
        if exists i :: i in candidates {
          var i :| i in candidates;
          RarestFound(State(), available, counts, n, i);
          ClaimPiece(i);
          return i;
        }
        assert forall i :: i in buckets[counts[n]] && Offered(available, i) ==> i in candidates;
      }
      RarestAbsent(State(), available, counts);
      return -1;
    }

    method NextRarestPiece(available: seq<bool>) returns (r: int)
      requires Invariant()
      modifies this
      ensures NextRarest(old(State()), State(), available, r)
      ensures Invariant() && BucketsFull(State())
    {
      ghost var m := State();
      SyncExact(m);
      EnsureBucketsSync();
      r := PickRarest(available);
      ClaimsInv(m, State(), available, r);
    }

    method NextStreamingPiece(available: seq<bool>) returns (r: int)
      requires Invariant()
      modifies this
      ensures NextStreaming(old(State()), State(), available, r)
      ensures Invariant() && BucketsFull(State())
    {
      ghost var m := State();
      SyncExact(m);
      EnsureBucketsSync();
      r := FirstInWindow(available);
      if r >= 0 {
        assert IsFirstInWindow(m, available, r);
        ClaimPiece(r);
      } else {
        assert forall i :: IsFirstInWindow(m, available, i) ==> IsFirstInWindow(State(), available, i);
        r := PickRarest(available);
        assert NextRarest(m, State(), available, r);
      }
      ClaimsInv(m, State(), available, r);
    }

    /** -1 when the window holds nothing wanted. */
    method FirstInWindow(available: seq<bool>) returns (r: int)
      ensures if exists i :: IsFirstInWindow(State(), available, i) then IsFirstInWindow(State(), available, r)
              else r == -1
    {
      var i := 0;
      while i < window && i < total
        invariant 0 <= i
        invariant forall j :: 0 <= j < i ==> !(j in pending && Offered(available, j))
      {
        if i in pending {
          if i < |available| && available[i] {
            assert IsFirstInWindow(State(), available, i);
            return i;
          }
        }
        i := i + 1;
      }
      return -1;
    }

    method NextRandomPiece(available: seq<bool>) returns (r: int)
      requires Invariant()
      modifies this
      ensures NextRandom(old(State()), State(), available, r)
      ensures Invariant()
    {
      var candidates := set i | i in pending && Offered(available, i);
      assert forall i :: i in pending && Offered(available, i) ==> i in candidates;
      if forall i :: i !in candidates {
        return -1;
      }
      r :| r in candidates;
      ClaimPiece(r);
      ClaimsInv(old(State()), State(), available, r);
    }

    /** A wanted priority piece if there is one, else the streaming or the rarest-first choice. */
    method NextPiece(available: seq<bool>) returns (r: int)
      requires Invariant()
      modifies this
      ensures Invariant()
      ensures var m, m' := old(State()), State();
              if exists i :: PriorityWanted(m, available, i) then NextPriority(m, m', available, r)
              else if m.streaming then NextStreaming(m, m', available, r)
              else NextRarest(m, m', available, r)
    {
      var wanted := set i | i in priority && i !in completed && Offered(available, i);
      if exists i :: i in wanted {
        r :| r in wanted;
        assert PriorityWanted(State(), available, r);
        ClaimPiece(r);
        ClaimsInv(old(State()), State(), available, r);
        return;
      }
      assert forall i :: PriorityWanted(State(), available, i) ==> i in wanted;
      if streaming {
        r := NextStreamingPiece(available);
      } else {
        r := NextRarestPiece(available);
      }
    }

    // ---------- outcomes ----------

    method MarkComplete(i: int, bytes: int)
      requires Invariant() && 0 <= i < total
      modifies this
      ensures Invariant() && State() == MarkedComplete(old(State()), i, bytes)
    {
      MarkedCompleteInv(State(), i, bytes);
      hide Inv, Dropped, Added, Bucket;
      inProgress := inProgress - {i};
      if i in completed {
        return;
      }
      Count(i, bytes);
    }

    /** A first completion. */
    method Count(i: int, bytes: int)
      requires 0 <= i < availability.Length
      modifies `completed, `downloaded, `buckets
      ensures completed == old(completed) + {i} && downloaded == old(downloaded) + bytes
      ensures buckets == Dropped(old(buckets), i, availability[i])
    {
      completed := completed + {i};
      downloaded := downloaded + bytes;
      DropFromBucket(i, availability[i]);
    }

    method MarkFailed(i: int) returns (requeued: bool)
      requires Invariant() && 0 <= i < total
      modifies this
      ensures Invariant() && State() == MarkedFailed(old(State()), i)
      ensures requeued <==> Attempts(old(State()), i) < maxRetries
    {
      MarkedFailedInv(State(), i);
      hide Inv, Dropped, Added, Bucket;
      var attempts := (if i in failedAttempts then failedAttempts[i] else 0) + 1;
      failedAttempts := failedAttempts[i := attempts];
      ghost var counted := State();
      assert counted == old(State()).(failedAttempts := old(failedAttempts)[i := Attempts(old(State()), i) + 1]);
      if attempts > maxRetries {
        GiveUp(i);
        return false;
      }
      Requeue(i);
      return true;
    }

    method GiveUp(i: int)
      modifies this
      ensures var m := old(State());
              State() == m.(inProgress := m.inProgress - {i}, permanentlyFailed := m.permanentlyFailed + {i})
    {
      inProgress := inProgress - {i};
      permanentlyFailed := permanentlyFailed + {i};
    }

    method ReturnPieceToPending(i: int)
      requires Invariant() && 0 <= i < total
      modifies this
      ensures Invariant() && State() == ReturnedToPending(old(State()), i)
    {
      ReturnedToPendingInv(State(), i);
      Requeue(i);
    }

    method Requeue(i: int)
      requires 0 <= i < availability.Length
      modifies this
      ensures State() == ReturnedToPending(old(State()), i)
    {
      inProgress := inProgress - {i};
      pending := pending + {i};
      AddToBucket(i, availability[i]);
    }

    method CheckComplete() returns (complete: bool)
      ensures complete == IsComplete(State())
    {
      if |permanentlyFailed| > 0 {
        return false;
      }
      return |completed| == total;
    }

    /** Resume: every piece that is intact on disk is marked complete, up to the first
        that does not fit in the files; a disk error stops the scan. Nothing leaves pending. */
    method LoadExistingState(tf: Torrent, sha1: seq<byte> -> seq<byte>, reader: TorrentStorage)
      returns (err: IOError, ghost scanned: nat)
      requires Invariant() && Pieces.Valid(tf) && total == PieceCount(tf) && reader.Valid()
      requires downloaded == SumOfPieces(tf, completed)
      modifies this, reader`readFault
      ensures Invariant() && downloaded == SumOfPieces(tf, completed)
      ensures err == NoError || err == DiskError
      ensures reader.readFault == (old(reader.readFault) || err == DiskError)
      ensures scanned <= total
      ensures completed == old(completed) + OnDisk(tf, sha1, reader.Flat(), scanned)
      ensures pending == old(pending) && failedAttempts == old(failedAttempts)
      ensures err == NoError ==> scanned == total || Offset(tf, scanned) + LengthAt(tf, scanned) > |reader.Flat()|
      ensures forall i :: i in completed <==>
                i in old(completed) || (0 <= i < scanned && IntactOnDisk(tf, sha1, reader.Flat(), i))
    {
      hide Inv, Consecutive, Concat, OnDisk, IntactOnDisk, SumOfPieces, LengthAt, Offset;
      var buf := new byte[tf.pieceLength];
      var i := 0;
      OnDiskNone(tf, sha1, reader.Flat());
      while i < total
        invariant Invariant() && downloaded == SumOfPieces(tf, completed)
        invariant 0 <= i <= total
        invariant completed == old(completed) + OnDisk(tf, sha1, reader.Flat(), i)
        invariant pending == old(pending) && failedAttempts == old(failedAttempts)
        invariant reader.readFault == old(reader.readFault)
      {
        err := ResumePiece(tf, sha1, reader, buf, i);
        OnDiskNext(tf, sha1, reader.Flat(), i);
        if err == UnexpectedEOF {
          return NoError, i;
        }
        if err != NoError {
          return err, i;
        }
        i := i + 1;
      }
      return NoError, i;
    }

    /** One piece of the scan. */
    method ResumePiece(tf: Torrent, sha1: seq<byte> -> seq<byte>, reader: TorrentStorage, buf: array<byte>, i: int)
      returns (err: IOError)
      requires Invariant() && Pieces.Valid(tf) && total == PieceCount(tf) && reader.Valid()
      requires downloaded == SumOfPieces(tf, completed)
      requires 0 <= i < total && buf.Length == tf.pieceLength
      modifies this, buf, reader`readFault
      ensures reader.readFault == (old(reader.readFault) || err == DiskError)
      ensures Invariant() && downloaded == SumOfPieces(tf, completed)
      ensures pending == old(pending) && failedAttempts == old(failedAttempts)
      ensures err == UnexpectedEOF ==> !Stored(tf, |reader.Flat()|, i)
      ensures err != NoError ==> completed == old(completed)
      ensures err == NoError ==>
                completed == old(completed) + if IntactOnDisk(tf, sha1, reader.Flat(), i) then {i} else {}
    {
      PiecesTile(tf, i);
      var pieceLen := LengthAt(tf, i);
      var n, rerr := reader.ReadAt(buf, pieceLen, Offset(tf, i));
      if rerr != NoError {
        return rerr;
      }
      ReadVerifies(tf, sha1, i, buf[..], reader.Flat());
      if Verifies(tf, sha1, i, buf[..pieceLen]) {
        if i !in completed {
          SumOfPiecesAdd(tf, completed, i);
        }
        MarkComplete(i, pieceLen);
      }
      return NoError;
    }
  }

  /** A piece read in full verifies exactly when it is intact on disk. */
  lemma ReadVerifies(tf: Torrent, sha1: seq<byte> -> seq<byte>, i: int, buf: seq<byte>, flat: seq<byte>)
    requires Pieces.Valid(tf) && 0 <= i < PieceCount(tf) && |buf| == tf.pieceLength
    requires 0 < LengthAt(tf, i) <= |buf| && Filled(buf, LengthAt(tf, i), Offset(tf, i), flat)
    requires Covered(Offset(tf, i), LengthAt(tf, i), |flat|) == LengthAt(tf, i)
    ensures IntactOnDisk(tf, sha1, flat, i) <==> Verifies(tf, sha1, i, buf[..LengthAt(tf, i)])
  {
    ReadExact(buf, LengthAt(tf, i), Offset(tf, i), flat);
  }

  /** Of the first n pieces, those intact on disk. */
  ghost function OnDisk(tf: Torrent, sha1: seq<byte> -> seq<byte>, flat: seq<byte>, n: nat): (r: set<int>)
    ensures forall i :: i in r <==> 0 <= i < n && IntactOnDisk(tf, sha1, flat, i)
  {
    set i | i in Indices(n) && IntactOnDisk(tf, sha1, flat, i)
  }

  lemma OnDiskNone(tf: Torrent, sha1: seq<byte> -> seq<byte>, flat: seq<byte>)
    ensures OnDisk(tf, sha1, flat, 0) == {}
  {
  }

  lemma OnDiskNext(tf: Torrent, sha1: seq<byte> -> seq<byte>, flat: seq<byte>, n: nat)
    ensures OnDisk(tf, sha1, flat, n + 1)
         == OnDisk(tf, sha1, flat, n) + if IntactOnDisk(tf, sha1, flat, n) then {n} else {}
  {
  }

  lemma RarestFound(m: Manager, available: seq<bool>, counts: seq<int>, n: nat, i: int)
    requires Inv(m) && BucketsFull(m)
    requires AscendingInts(counts) && Elements(counts) == set c | c in m.buckets && m.buckets[c] != {}
    requires n < |counts| && i in Bucket(m.buckets, counts[n]) && Offered(available, i)
    requires forall k, j :: 0 <= k < n && j in Bucket(m.buckets, counts[k]) ==> !Offered(available, j)
    ensures IsRarest(m, available, i) && !NothingWanted(m, available)
  {
    assert i in m.pending;
    forall j | j in m.pending && Offered(available, j)
      ensures 0 <= j < m.total && m.availability[i] <= m.availability[j]
    {
      var k := CountListed(m, counts, j);
    }
  }

  lemma RarestAbsent(m: Manager, available: seq<bool>, counts: seq<int>)
    requires Inv(m) && BucketsFull(m)
    requires Elements(counts) == set c | c in m.buckets && m.buckets[c] != {}
    requires forall k, j :: 0 <= k < |counts| && j in Bucket(m.buckets, counts[k]) ==> !Offered(available, j)
    ensures NothingWanted(m, available)
  {
    forall j | j in m.pending ensures !Offered(available, j) {
      var k := CountListed(m, counts, j);
    }
  }

  lemma CountListed(m: Manager, counts: seq<int>, j: int) returns (k: nat)
    requires Inv(m) && BucketsFull(m) && j in m.pending
    requires Elements(counts) == set c | c in m.buckets && m.buckets[c] != {}
    ensures k < |counts| && counts[k] == m.availability[j] && j in Bucket(m.buckets, counts[k])
  {
    var c := m.availability[j];
    assert j in m.buckets[c];
    assert c in Elements(counts);
    k :| 0 <= k < |counts| && counts[k] == c;
  }
}
