/** The disk writer as the program has it, proved against the state machine of DiskModel. */
module DiskWriter {
  import opened Bytes
  import opened Ints
  import opened Seqs
  import opened Pieces
  import opened Storage
  import opened DiskModel

  /** Blocked is a caller still waiting for room in the channel. */
  datatype WriteResult = Accepted | Blocked | WriterFailed | AlreadyClosed | WrongSize

  /** The piece requested reads as the request, every other piece as before. */
  ghost predicate OnlyPieceChanged(tf: Torrent, d: Disk, d': Disk, req: Request) {
    && |d'.flat| == |d.flat|
    && forall i :: Stored(tf, |d.flat|, i) ==>
         View(tf, d', i) == if i == req.index then req.data else View(tf, d, i)
  }

  class DiskWriter {
    const tf: Torrent
    const dest: TorrentStorage
    const maxCacheSize: int
    var queue: seq<Request>
    var cache: map<int, seq<byte>>
    var cacheSize: int
    /** The rest of the flush in progress. */
    var batch: seq<Request>
    var err: bool
    var closed: bool
    var phase: Phase

    ghost function State(): Disk
      reads this, dest
    {
      Disk(dest.Flat(), batch, cache, cacheSize, queue, err, closed, phase)
    }

    /** In particular an error is recorded exactly when the disk has failed a write. */
    ghost predicate Invariant()
      reads this, dest
    {
      dest.Valid() && Inv(tf, maxCacheSize, State()) && err == dest.writeFault
    }

    constructor (tf: Torrent, dest: TorrentStorage, maxCacheSize: int)
      requires Valid(tf) && dest.Valid() && !dest.writeFault
      ensures this.tf == tf && this.dest == dest && this.maxCacheSize == maxCacheSize
      ensures Invariant() && Fresh(State())
      ensures forall i :: Stored(tf, |dest.Flat()|, i) ==> View(tf, State(), i) == PieceOnDisk(tf, dest.Flat(), i)
    {
      this.tf, this.dest, this.maxCacheSize := tf, dest, maxCacheSize;
      queue, cache, cacheSize, batch := [], map[], 0, [];
      err, closed, phase := false, false, Running;
    }

    /** A recorded error wins over a closed channel; otherwise the request goes in at the end.
        Data of the piece's length, which is all that storage.Writer lets through, keeps the
        invariant and sets what a reader should find for that piece alone. */
    method WritePiece(index: int, data: seq<byte>) returns (r: WriteResult)
      modifies this
      ensures r == if old(err) then WriterFailed else if old(closed) then AlreadyClosed
                   else if |old(queue)| >= 32 then Blocked else Accepted
      ensures r != Accepted ==> State() == old(State())
      ensures r == Accepted ==> State() == old(State()).(queue := old(queue) + [Request(index, data)])
      ensures old(Invariant()) && Fits(tf, Request(index, data)) ==>
                Invariant() && (r == Accepted ==> OnlyPieceChanged(tf, old(State()), State(), Request(index, data)))
    {
      if err {
        return WriterFailed;
      }
      if closed {
        return AlreadyClosed;
      }
      if |queue| >= QUEUE_SIZE {
        return Blocked;
      }
      ghost var before := State();
      queue := queue + [Request(index, data)];
      if old(Invariant()) && Fits(tf, Request(index, data)) {
        EnqueueChangesView(tf, maxCacheSize, before, State(), Request(index, data));
      }
      return Accepted;
    }

    method AddToCache(index: int, data: seq<byte>)
      modifies this
      ensures State() == WithCached(old(State()), Request(index, data))
    {
      if index in cache {
        cacheSize := cacheSize - |cache[index]|;
      }
      cache := cache[index := data];
      cacheSize := cacheSize + |data|;
    }

    /** Everything cached goes to disk in ascending order, unless an error is or gets recorded. */
    method Flush()
      requires dest.Valid() && batch == [] && phase != Done && err == dest.writeFault
      requires Inv(tf, maxCacheSize, State().(cache := map[], cacheSize := 0))
      requires forall i :: i in cache ==> |cache[i]| == LengthAt(tf, i)
      modifies this, dest
      ensures Invariant() && batch == [] && cache == map[]
      ensures queue == old(queue) && closed == old(closed) && phase == old(phase)
      ensures old(err) ==> err
      ensures !err ==> SameView(tf, old(State()), State())
    {
      hide Latest, CachedBytes, PieceOnDisk, LengthAt, Concat;
      ghost var start := State();
      var pending := cache;
      cache := map[];
      cacheSize := 0;
      var indices := SortedInts(pending.Keys);
      assert forall k :: 0 <= k < |indices| ==> indices[k] in Elements(indices);
      batch := seq(|indices|, k requires 0 <= k < |indices| => Request(indices[k], pending[indices[k]]));
      SortedIsBatch(pending, indices, batch);
      BeginFlushKeepsView(tf, maxCacheSize, start, State());
      WriteBatch();
    }

    /** The rest of a flush. */
    method WriteBatch()
      requires Invariant()
      modifies this, dest
      ensures Invariant() && batch == [] && cache == old(cache)
      ensures queue == old(queue) && closed == old(closed) && phase == old(phase)
      ensures old(err) ==> err
      ensures !err ==> SameView(tf, old(State()), State())
    {
      ghost var start := State();
      while batch != []
        invariant Invariant() && cache == old(cache)
        invariant queue == old(queue) && closed == old(closed) && phase == old(phase)
        invariant old(err) ==> err
        invariant !err ==> SameView(tf, start, State())
        decreases |batch|
      {
        WriteOne();
      }
    }

    /** One turn of the flush loop. */
    method WriteOne()
      requires Invariant() && batch != []
      modifies this, dest
      ensures Invariant() && |batch| < |old(batch)|
      ensures WriteNext(tf, old(State()), State())
      ensures queue == old(queue) && cache == old(cache) && closed == old(closed) && phase == old(phase)
      ensures old(err) ==> err
      ensures !err ==> SameView(tf, old(State()), State())
    {
      ghost var before := State();
      if err {
        batch := [];
      } else {
        var req := batch[0];
        var _, werr, m := dest.WriteAt(req.data, Offset(tf, req.index));
        if werr != NoError {
          err := true;
          batch := [];
          assert WrittenPrefix(dest.Flat(), before.flat, Offset(tf, req.index), req.data);
        } else {
          assert req.data[..m] == req.data;
          batch := batch[1..];
        }
      }
      WriteNextKeepsView(tf, maxCacheSize, before, State());
    }

    /** The writer loop receives one request. */
    method Receive()
      requires Invariant() && phase == Running && batch == [] && queue != []
      modifies this, dest
      ensures Invariant() && batch == [] && phase == Running && closed == old(closed)
      ensures queue == old(queue)[1..]
      ensures old(err) ==> err
      ensures !err ==> SameView(tf, old(State()), State())
    {
      ghost var before := State();
      var req := queue[0];
      queue := queue[1..];
      AddToCache(req.index, req.data);
      ghost var cached := State();
      ReceivedKeepsView(tf, maxCacheSize, before, cached);
      if cacheSize >= maxCacheSize {
        Flush();
      }
    }

    /** The writer loop's life after the channel is closed: finish the flush under way, drain the
        channel, flush a last time, end. */
    method Drain()
      requires Invariant() && closed && phase == Running
      modifies this, dest
      ensures Invariant() && closed && phase == Done && queue == []
      ensures !err ==> SameView(tf, old(State()), State())
    {
      hide Latest, CachedBytes, PieceOnDisk, LengthAt, Concat, Inv;
      ghost var start := State();
      WriteBatch();
      while queue != []
        invariant Invariant() && closed && phase == Running && batch == []
        invariant !err ==> SameView(tf, start, State())
        decreases |queue|
      {
        Receive();
      }
      FlushLast();
    }

    method FlushLast()
      requires Invariant() && closed && phase == Running && batch == [] && queue == []
      modifies this, dest
      ensures Invariant() && closed && phase == Done && queue == []
      ensures old(err) ==> err
      ensures !err ==> SameView(tf, old(State()), State())
    {
      hide Latest, PieceOnDisk, LengthAt, Concat;
      phase := LastFlush;
      assert SameView(tf, old(State()), State());
      Flush();
      ghost var flushed := State();
      phase := Done;
      assert SameView(tf, flushed, State());
    }

    /** The first Close lets the loop end and reports whether the disk ever failed a write; if it
        did not, the disk holds the last accepted write of every piece there is room for. */
    method Close() returns (failed: bool)
      requires Invariant()
      modifies this, dest
      ensures Invariant() && closed
      ensures old(closed) ==> !failed && State() == old(State())
      ensures !old(closed) ==> failed == dest.writeFault && phase == Done && queue == []
      ensures !old(closed) && !failed ==> |dest.Flat()| == |old(dest.Flat())|
      ensures !old(closed) && !failed ==> forall i :: Stored(tf, |dest.Flat()|, i) ==>
                PieceOnDisk(tf, dest.Flat(), i) == old(View(tf, State(), i))
    {
      if closed {
        return false;
      }
      ghost var start := State();
      closed := true;
      ghost var sealed := State();
      assert SameView(tf, start, sealed);
      Drain();
      failed := err;
      if !failed {
        forall i | Stored(tf, |dest.Flat()|, i) ensures PieceOnDisk(tf, dest.Flat(), i) == View(tf, start, i) {
          DoneIsOnDisk(tf, maxCacheSize, State(), i);
          assert View(tf, sealed, i) == View(tf, start, i);
        }
      }
    }
  }

  lemma SortedIsBatch(pending: map<int, seq<byte>>, indices: seq<int>, batch: seq<Request>)
    requires AscendingInts(indices) && Elements(indices) == pending.Keys && |batch| == |indices|
    requires forall k :: 0 <= k < |indices| ==>
               indices[k] in pending && batch[k] == Request(indices[k], pending[indices[k]])
    ensures IsBatch(batch, pending)
  {
    forall i | i in pending ensures exists k :: 0 <= k < |batch| && batch[k].index == i {
      assert i in Elements(indices);
      var k :| 0 <= k < |indices| && indices[k] == i;
      assert batch[k].index == i;
    }
  }

  /** Moving a request from the queue to the cache keeps the view. */
  lemma ReceivedKeepsView(tf: Torrent, maxCacheSize: int, d: Disk, c: Disk)
    requires Inv(tf, maxCacheSize, d) && d.phase == Running && d.batch == [] && d.queue != []
    requires c == WithCached(d.(queue := d.queue[1..]), d.queue[0])
    ensures SameView(tf, d, c)
    ensures Inv(tf, maxCacheSize, c.(cache := map[], cacheSize := 0))
    ensures c.cacheSize < maxCacheSize ==> Inv(tf, maxCacheSize, c)
    ensures forall i :: i in c.cache ==> |c.cache[i]| == LengthAt(tf, i)
  {
    CachedBytesUpdate(d.cache, d.queue[0].index, d.queue[0].data);
    forall i | Stored(tf, |d.flat|, i) ensures View(tf, c, i) == View(tf, d, i) {
      LatestTail(d.queue, i);
    }
  }

  /** storage.Writer's entry point: only exact-size pieces are passed on, and those are accepted by a
      healthy, open writer with room in its channel. */
  method WritePieceChecked(w: DiskWriter, index: int, data: seq<byte>) returns (r: WriteResult)
    requires w.Invariant()
    modifies w
    ensures w.Invariant()
    ensures r == if |data| != LengthAt(w.tf, index) then WrongSize else if old(w.err) then WriterFailed
                 else if old(w.closed) then AlreadyClosed else if |old(w.queue)| >= 32 then Blocked else Accepted
    ensures r != Accepted ==> w.State() == old(w.State())
    ensures r == Accepted ==> w.State() == old(w.State()).(queue := old(w.queue) + [Request(index, data)])
    ensures r == Accepted ==> OnlyPieceChanged(w.tf, old(w.State()), w.State(), Request(index, data))
  {
    var expected := LengthAt(w.tf, index);
    if |data| != expected {
      return WrongSize;
    }
    r := w.WritePiece(index, data);
  }
}
