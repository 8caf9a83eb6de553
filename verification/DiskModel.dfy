/** The asynchronous disk writer as a state machine: a queue of requests, the cache the writer
    loop gathers them in, the batch being flushed, and the torrent's bytes on disk. */
module DiskModel {
  import opened Bytes
  import opened Ints
  import opened Seqs
  import opened Pieces
  import opened Storage

  /** Capacity of the request channel. */
  const QUEUE_SIZE := 32

  datatype Request = Request(index: int, data: seq<byte>)

  /** Where the writer loop stands; it makes its last flush once the channel is closed and empty. */
  datatype Phase = Running | LastFlush | Done

  datatype Disk = Disk(
    flat: seq<byte>,            // the bytes on disk
    batch: seq<Request>,        // what the flush in progress has still to write
    cache: map<int, seq<byte>>,
    cacheSize: int,
    queue: seq<Request>,
    failed: bool,               // an error has been recorded
    closed: bool,
    phase: Phase)

  // ---------- the steps ----------

  /** The channel send of WritePiece. The check for a recorded error comes earlier and may be
      outrun by a failing flush, so a send can follow a failure. */
  ghost predicate Enqueue(d: Disk, d': Disk, req: Request) {
    && !d.closed && |d.queue| < QUEUE_SIZE
    && d' == d.(queue := d.queue + [req])
  }

  ghost predicate CloseChannel(d: Disk, d': Disk) {
    && !d.closed
    && d' == d.(closed := true)
  }

  function WithCached(d: Disk, req: Request): Disk {
    var replaced := if req.index in d.cache then |d.cache[req.index]| else 0;
    d.(cache := d.cache[req.index := req.data], cacheSize := d.cacheSize - replaced + |req.data|)
  }

  /** The batch holds exactly the cache, in ascending order of index. */
  ghost predicate IsBatch(batch: seq<Request>, cache: map<int, seq<byte>>) {
    && (forall j, k :: 0 <= j < k < |batch| ==> batch[j].index < batch[k].index)
    && (forall k :: 0 <= k < |batch| ==> batch[k].index in cache && batch[k].data == cache[batch[k].index])
    && (forall i :: i in cache ==> exists k :: 0 <= k < |batch| && batch[k].index == i)
  }

  /** The cache is swapped for an empty one and becomes the batch. */
  ghost predicate BeginFlush(d: Disk, d': Disk) {
    && IsBatch(d'.batch, d.cache)
    && d' == d.(batch := d'.batch, cache := map[], cacheSize := 0)
  }

  /** The loop takes one request, and flushes if the cache has grown to maxCacheSize. */
  ghost predicate Dequeue(d: Disk, d': Disk, maxCacheSize: int) {
    && d.phase == Running && d.batch == [] && d.queue != []
    && var c := WithCached(d, d.queue[0]).(queue := d.queue[1..]);
       if c.cacheSize >= maxCacheSize then BeginFlush(c, d') else d' == c
  }

  ghost predicate Tick(d: Disk, d': Disk) {
    && d.phase == Running && d.batch == []
    && BeginFlush(d, d')
  }

  /** A recorded error abandons the batch; otherwise its first piece is written, or fails with
      only a prefix on disk, which records the error and abandons the rest. */
  ghost predicate WriteNext(tf: Torrent, d: Disk, d': Disk) {
    && d.batch != []
    && var req := d.batch[0];
       var off := Offset(tf, req.index);
       if d.failed then d' == d.(batch := [])
       else
         || (IsPatch(d'.flat, d.flat, off, req.data) && d' == d.(flat := d'.flat, batch := d.batch[1..]))
         || (WrittenPrefix(d'.flat, d.flat, off, req.data) && d' == d.(flat := d'.flat, batch := [], failed := true))
  }

  ghost predicate WrittenPrefix(now: seq<byte>, was: seq<byte>, off: int, p: seq<byte>) {
    exists m :: 0 <= m <= |p| && IsPatch(now, was, off, p[..m])
  }

  ghost predicate BeginLastFlush(d: Disk, d': Disk) {
    && d.phase == Running && d.batch == [] && d.closed && d.queue == []
    && BeginFlush(d.(phase := LastFlush), d')
  }

  ghost predicate Finish(d: Disk, d': Disk) {
    && d.phase == LastFlush && d.batch == []
    && d' == d.(phase := Done)
  }

  /** Every step of the writer loop. */
  ghost predicate LoopStep(tf: Torrent, maxCacheSize: int, d: Disk, d': Disk) {
    || Dequeue(d, d', maxCacheSize)
    || Tick(d, d')
    || WriteNext(tf, d, d')
    || BeginLastFlush(d, d')
    || Finish(d, d')
  }

  // ---------- what a reader should find ----------

  /** The last request for piece i, if any. */
  function Latest(reqs: seq<Request>, i: int): (r: seq<seq<byte>>)
    ensures |r| <= 1
  {
    if reqs == [] then []
    else if reqs[|reqs| - 1].index == i then [reqs[|reqs| - 1].data]
    else Latest(reqs[..|reqs| - 1], i)
  }

  ghost function PieceOnDisk(tf: Torrent, flat: seq<byte>, i: int): seq<byte>
    requires Stored(tf, |flat|, i)
  {
    PiecesTile(tf, i);
    flat[Offset(tf, i)..Offset(tf, i) + LengthAt(tf, i)]
  }

  /** Piece i, if the files have room for it, as it will be once everything accepted has reached
      the disk: the newest of the queue, the cache, the batch and the disk. */
  ghost function View(tf: Torrent, d: Disk, i: int): seq<byte>
    requires Stored(tf, |d.flat|, i)
  {
    if Latest(d.queue, i) != [] then Latest(d.queue, i)[0]
    else if i in d.cache then d.cache[i]
    else if Latest(d.batch, i) != [] then Latest(d.batch, i)[0]
    else PieceOnDisk(tf, d.flat, i)
  }

  /** A reader should find the same. */
  ghost predicate SameView(tf: Torrent, d: Disk, d': Disk) {
    && |d'.flat| == |d.flat|
    && forall i :: Stored(tf, |d.flat|, i) ==> View(tf, d', i) == View(tf, d, i)
  }

  // ---------- the invariant ----------

  /** storage.Writer's check: exactly the piece's length. */
  predicate Fits(tf: Torrent, req: Request) {
    |req.data| == LengthAt(tf, req.index)
  }

  ghost function CachedBytes(cache: map<int, seq<byte>>): nat
    decreases |cache|
  {
    if forall i :: i !in cache then 0
    else
      var i :| i in cache;
      |cache[i]| + CachedBytes(cache - {i})
  }

  ghost predicate Inv(tf: Torrent, maxCacheSize: int, d: Disk) {
    && Valid(tf)
    && (forall k :: 0 <= k < |d.queue| ==> Fits(tf, d.queue[k]))
    && (forall k :: 0 <= k < |d.batch| ==> Fits(tf, d.batch[k]))
    && (forall i :: i in d.cache ==> |d.cache[i]| == LengthAt(tf, i))
    && (forall j, k :: 0 <= j < k < |d.batch| ==> d.batch[j].index < d.batch[k].index)
    && d.cacheSize == CachedBytes(d.cache)
    && (d.cacheSize == 0 || d.cacheSize < maxCacheSize)
    && |d.queue| <= QUEUE_SIZE
    && (d.batch != [] ==> d.cache == map[])
    && (d.phase != Running ==> d.closed && d.queue == [] && d.cache == map[])
    && (d.phase == Done ==> d.batch == [])
  }

  lemma {:induction false} CachedBytesWithout(cache: map<int, seq<byte>>, i: int)
    requires i in cache
    ensures CachedBytes(cache) == |cache[i]| + CachedBytes(cache - {i})
    decreases |cache|
  {
    var j :| j in cache && CachedBytes(cache) == |cache[j]| + CachedBytes(cache - {j});
    if j != i {
      CachedBytesWithout(cache - {j}, i);
      CachedBytesWithout(cache - {i}, j);
      assert cache - {j} - {i} == cache - {i} - {j};
    }
  }

  lemma CachedBytesUpdate(cache: map<int, seq<byte>>, i: int, data: seq<byte>)
    ensures CachedBytes(cache[i := data])
         == CachedBytes(cache) - (if i in cache then |cache[i]| else 0) + |data|
  {
    CachedBytesWithout(cache[i := data], i);
    assert cache[i := data] - {i} == cache - {i};
    if i in cache {
      CachedBytesWithout(cache, i);
    } else {
      assert cache - {i} == cache;
    }
  }

  // ---------- what a step of the loop takes ----------

  /** Any cache can be put in order. */
  lemma {:induction false} BatchOf(cache: map<int, seq<byte>>) returns (batch: seq<Request>)
    ensures IsBatch(batch, cache)
    decreases |cache|
  {
    if forall i :: i !in cache {
      batch := [];
    } else {
      assert exists i :: i in cache.Keys;
      var m := LargestInt(cache.Keys);
      var rest := BatchOf(cache - {m});
      batch := rest + [Request(m, cache[m])];
      BatchSnoc(rest, cache, m);
    }
  }

  lemma BatchSnoc(rest: seq<Request>, cache: map<int, seq<byte>>, m: int)
    requires m in cache && (forall i :: i in cache ==> i <= m) && IsBatch(rest, cache - {m})
    ensures IsBatch(rest + [Request(m, cache[m])], cache)
  {
    var batch := rest + [Request(m, cache[m])];
    forall k | 0 <= k < |batch|
      ensures batch[k].index in cache && batch[k].data == cache[batch[k].index] && (k < |rest| ==> batch[k].index < m)
    {
      if k < |rest| { assert batch[k] == rest[k] && rest[k].index in cache - {m}; }
    }
    forall j, k | 0 <= j < k < |batch| ensures batch[j].index < batch[k].index {
      if k < |rest| { assert batch[k] == rest[k] && batch[j] == rest[j]; }
    }
    forall i | i in cache ensures exists k :: 0 <= k < |batch| && batch[k].index == i {
      if i == m {
        assert batch[|rest|].index == m;
      } else {
        assert i in cache - {m};
        var k :| 0 <= k < |rest| && rest[k].index == i;
        assert batch[k] == rest[k];
      }
    }
  }

  /** A write of the batch's first piece that the disk carries out. */
  ghost function FirstWritten(tf: Torrent, d: Disk): Disk
    requires d.batch != []
  {
    var req := d.batch[0];
    d.(flat := Overlaid(d.flat, [Patch(Offset(tf, req.index), req.data)]), batch := d.batch[1..])
  }

  lemma OverlaidIsPatch(was: seq<byte>, p: Patch<byte>)
    ensures IsPatch(Overlaid(was, [p]), was, p.offset, p.items)
  {
    assert [p][..0] == [];
    assert Overlaid(was, []) == was;
  }

  lemma FirstWrittenNext(tf: Torrent, d: Disk)
    requires d.batch != [] && !d.failed
    ensures WriteNext(tf, d, FirstWritten(tf, d))
  {
    var p := Patch(Offset(tf, d.batch[0].index), d.batch[0].data);
    OverlaidIsPatch(d.flat, p);
  }

  /** The loop's steps are possible exactly where the program's loop takes them: a flush under way goes
      on; otherwise a queued request is received; and once the channel is closed and empty the last
      flush begins, after which the loop ends. */
  lemma LoopExact(tf: Torrent, maxCacheSize: int, d: Disk)
    ensures (exists d' :: WriteNext(tf, d, d')) <==> d.batch != []
    ensures (exists d' :: Dequeue(d, d', maxCacheSize)) <==> d.phase == Running && d.batch == [] && d.queue != []
    ensures (exists d' :: Tick(d, d')) <==> d.phase == Running && d.batch == []
    ensures (exists d' :: BeginLastFlush(d, d'))
       <==> d.phase == Running && d.batch == [] && d.closed && d.queue == []
    ensures (exists d' :: Finish(d, d')) <==> d.phase == LastFlush && d.batch == []
    ensures (exists d' :: CloseChannel(d, d')) <==> !d.closed
  {
    assert !d.closed ==> CloseChannel(d, d.(closed := true));
    if d.batch != [] {
      if d.failed {
        assert WriteNext(tf, d, d.(batch := []));
      } else {
        FirstWrittenNext(tf, d);
      }
    } else {
      FlushPossible(d, maxCacheSize);
      assert d.phase == LastFlush ==> Finish(d, d.(phase := Done));
    }
  }

  lemma FlushPossible(d: Disk, maxCacheSize: int)
    requires d.batch == []
    ensures d.phase == Running ==> exists d' :: Tick(d, d')
    ensures d.phase == Running && d.closed && d.queue == [] ==> exists d' :: BeginLastFlush(d, d')
    ensures d.phase == Running && d.queue != [] ==> exists d' :: Dequeue(d, d', maxCacheSize)
  {
    var batch := BatchOf(d.cache);
    var flushed := d.(batch := batch, cache := map[], cacheSize := 0);
    assert BeginFlush(d, flushed);
    assert BeginFlush(d.(phase := LastFlush), flushed.(phase := LastFlush));
    assert d.phase == Running ==> Tick(d, flushed);
    assert d.phase == Running && d.closed && d.queue == [] ==> BeginLastFlush(d, flushed.(phase := LastFlush));
    if d.queue != [] {
      var c := WithCached(d, d.queue[0]).(queue := d.queue[1..]);
      var next := BatchOf(c.cache);
      var after := if c.cacheSize >= maxCacheSize then c.(batch := next, cache := map[], cacheSize := 0) else c;
      assert d.phase == Running ==> Dequeue(d, after, maxCacheSize);
    }
  }

  // ---------- facts about Latest ----------

  lemma {:induction false} LatestOfBatch(batch: seq<Request>, cache: map<int, seq<byte>>, i: int)
    requires IsBatch(batch, cache)
    ensures Latest(batch, i) == if i in cache then [cache[i]] else []
  {
    LatestFound(batch, i);
    if i in cache {
      var k :| 0 <= k < |batch| && batch[k].index == i;
    }
  }

  /** Without repetition, Latest finds the one request there is. */
  lemma {:induction false} LatestFound(reqs: seq<Request>, i: int)
    requires forall j, k :: 0 <= j < k < |reqs| ==> reqs[j].index < reqs[k].index
    ensures (exists k :: 0 <= k < |reqs| && reqs[k].index == i) <==> Latest(reqs, i) != []
    ensures forall k :: 0 <= k < |reqs| && reqs[k].index == i ==> Latest(reqs, i) == [reqs[k].data]
  {
    if reqs != [] && reqs[|reqs| - 1].index != i {
      LatestFound(reqs[..|reqs| - 1], i);
    }
  }

  lemma {:induction false} LatestTail(reqs: seq<Request>, i: int)
    requires reqs != []
    ensures Latest(reqs, i)
         == if Latest(reqs[1..], i) != [] then Latest(reqs[1..], i)
            else if reqs[0].index == i then [reqs[0].data] else []
  {
    var n := |reqs| - 1;
    if n > 0 && reqs[n].index != i {
      LatestTail(reqs[..n], i);
      assert reqs[..n][1..] == reqs[1..][..n - 1];
    }
  }

  // ---------- what each step keeps ----------

  lemma EnqueueChangesView(tf: Torrent, maxCacheSize: int, d: Disk, d': Disk, req: Request)
    requires Inv(tf, maxCacheSize, d) && Enqueue(d, d', req) && Fits(tf, req)
    ensures Inv(tf, maxCacheSize, d')
    ensures |d'.flat| == |d.flat|
    ensures forall i :: Stored(tf, |d.flat|, i) ==>
              View(tf, d', i) == if i == req.index then req.data else View(tf, d, i)
  {
    assert d'.queue[..|d.queue|] == d.queue;
  }

  lemma BeginFlushKeepsView(tf: Torrent, maxCacheSize: int, d: Disk, d': Disk)
    requires Inv(tf, maxCacheSize, d.(cache := map[], cacheSize := 0)) && d.batch == []
    requires forall i :: i in d.cache ==> |d.cache[i]| == LengthAt(tf, i)
    requires BeginFlush(d, d')  && d.phase != Done
    ensures Inv(tf, maxCacheSize, d')
    ensures |d'.flat| == |d.flat|
    ensures forall i :: Stored(tf, |d.flat|, i) ==> View(tf, d', i) == View(tf, d, i)
  {
    forall i | Stored(tf, |d.flat|, i) ensures View(tf, d', i) == View(tf, d, i) {
      LatestOfBatch(d'.batch, d.cache, i);
    }
  }

  lemma DequeueKeepsView(tf: Torrent, maxCacheSize: int, d: Disk, d': Disk)
    requires Inv(tf, maxCacheSize, d) && Dequeue(d, d', maxCacheSize)
    ensures Inv(tf, maxCacheSize, d')
    ensures |d'.flat| == |d.flat|
    ensures forall i :: Stored(tf, |d.flat|, i) ==> View(tf, d', i) == View(tf, d, i)
  {
    var req := d.queue[0];
    var c := WithCached(d, req).(queue := d.queue[1..]);
    CachedBytesUpdate(d.cache, req.index, req.data);
    forall i | Stored(tf, |d.flat|, i) ensures View(tf, c, i) == View(tf, d, i) {
      LatestTail(d.queue, i);
    }
    if c.cacheSize >= maxCacheSize {
      BeginFlushKeepsView(tf, maxCacheSize, c, d');
    }
  }

  lemma WriteNextKeepsView(tf: Torrent, maxCacheSize: int, d: Disk, d': Disk)
    requires Inv(tf, maxCacheSize, d) && WriteNext(tf, d, d')
    ensures Inv(tf, maxCacheSize, d')
    ensures |d'.flat| == |d.flat|
    ensures !d'.failed ==> forall i :: Stored(tf, |d.flat|, i) ==> View(tf, d', i) == View(tf, d, i)
  {
    if !d'.failed {
      var req := d.batch[0];
      forall i | Stored(tf, |d.flat|, i) ensures View(tf, d', i) == View(tf, d, i) {
        LatestTail(d.batch, i);
        PieceWritten(tf, d'.flat, d.flat, req, i);
        LatestFound(d.batch[1..], req.index);
      }
    }
  }

  /** Writing one piece sets that piece and no other. */
  lemma PieceWritten(tf: Torrent, now: seq<byte>, was: seq<byte>, req: Request, i: int)
    requires Fits(tf, req) && Stored(tf, |was|, i)
    requires IsPatch(now, was, Offset(tf, req.index), req.data)
    ensures PieceOnDisk(tf, now, i) == if i == req.index then req.data else PieceOnDisk(tf, was, i)
  {
    var off, j := Offset(tf, i), req.index;
    PiecesTile(tf, i);
    LengthErrors(tf, j);
    if 0 <= j < PieceCount(tf) {
      PiecesTile(tf, j);
      if j < i { OffsetMonotone(tf, j + 1, i); }
      if i < j { OffsetMonotone(tf, i + 1, j); }
    } else {
      assert now == was;
    }
    PatchSlice(now, was, Offset(tf, j), req.data, off, off + LengthAt(tf, i));
  }

  /** No step of the loop disturbs what a reader should find, unless the disk fails. */
  lemma LoopStepKeepsView(tf: Torrent, maxCacheSize: int, d: Disk, d': Disk)
    requires Inv(tf, maxCacheSize, d) && LoopStep(tf, maxCacheSize, d, d')
    ensures Inv(tf, maxCacheSize, d')
    ensures d.failed ==> d'.failed
    ensures |d'.flat| == |d.flat|
    ensures !d'.failed ==> forall i :: Stored(tf, |d.flat|, i) ==> View(tf, d', i) == View(tf, d, i)
  {
    if Dequeue(d, d', maxCacheSize) {
      DequeueKeepsView(tf, maxCacheSize, d, d');
    } else if Tick(d, d') {
      BeginFlushKeepsView(tf, maxCacheSize, d, d');
    } else if WriteNext(tf, d, d') {
      WriteNextKeepsView(tf, maxCacheSize, d, d');
    } else if BeginLastFlush(d, d') {
      BeginFlushKeepsView(tf, maxCacheSize, d.(phase := LastFlush), d');
    }
  }

  lemma CloseKeepsView(tf: Torrent, maxCacheSize: int, d: Disk)
    requires Inv(tf, maxCacheSize, d)
    ensures Inv(tf, maxCacheSize, d.(closed := true)) && SameView(tf, d, d.(closed := true))
  {
  }

  /** Once the loop has ended without an error, the disk holds what a reader should find. */
  lemma DoneIsOnDisk(tf: Torrent, maxCacheSize: int, d: Disk, i: int)
    requires Inv(tf, maxCacheSize, d) && d.phase == Done && Stored(tf, |d.flat|, i)
    ensures PieceOnDisk(tf, d.flat, i) == View(tf, d, i)
  {
  }

  // ---------- whole runs ----------

  /** A disk together with the requests accepted so far. */
  datatype Logged = Logged(disk: Disk, accepted: seq<Request>)

  ghost predicate Fresh(d: Disk) {
    d == Disk(d.flat, [], map[], 0, [], false, false, Running)
  }

  ghost predicate Step(tf: Torrent, maxCacheSize: int, s: Logged, s': Logged) {
    if s'.accepted == s.accepted then
      LoopStep(tf, maxCacheSize, s.disk, s'.disk) || CloseChannel(s.disk, s'.disk)
    else
      && s'.accepted != []
      && var req := s'.accepted[|s'.accepted| - 1];
         s'.accepted == s.accepted + [req] && Fits(tf, req) && Enqueue(s.disk, s'.disk, req)
  }

  ghost predicate Run(tf: Torrent, maxCacheSize: int, run: seq<Logged>) {
    && run != []
    && Fresh(run[0].disk) && run[0].accepted == []
    && forall k :: 0 <= k < |run| - 1 ==> Step(tf, maxCacheSize, run[k], run[k + 1])
  }

  /** What the accepted requests make of piece i: the last one wins. */
  ghost function Expected(tf: Torrent, initial: seq<byte>, accepted: seq<Request>, i: int): seq<byte>
    requires Stored(tf, |initial|, i)
  {
    if Latest(accepted, i) != [] then Latest(accepted, i)[0] else PieceOnDisk(tf, initial, i)
  }

  /** Until the disk fails a reader should find what is expected of each piece there is room for. */
  ghost predicate ViewExpected(tf: Torrent, initial: seq<byte>, s: Logged) {
    && |s.disk.flat| == |initial|
    && (!s.disk.failed ==> forall i :: Stored(tf, |initial|, i) ==>
          View(tf, s.disk, i) == Expected(tf, initial, s.accepted, i))
  }

  /** However producers, loop and close interleave, and whatever the size of the files: until the
      disk fails a reader should find the last accepted write of each piece they have room for, and
      once the loop has ended the disk holds exactly that. */
  lemma {:induction false} LastAcceptedWins(tf: Torrent, maxCacheSize: int, run: seq<Logged>)
    requires Valid(tf) && Run(tf, maxCacheSize, run)
    ensures var initial, last := run[0].disk.flat, run[|run| - 1];
            && Inv(tf, maxCacheSize, last.disk) && ViewExpected(tf, initial, last)
            && (!last.disk.failed && last.disk.phase == Done ==> forall i :: Stored(tf, |initial|, i) ==>
                  PieceOnDisk(tf, last.disk.flat, i) == Expected(tf, initial, last.accepted, i))
    decreases |run|
  {
    var n, initial := |run| - 1, run[0].disk.flat;
    if n > 0 {
      assert run[..n][n - 1] == run[n - 1];
      LastAcceptedWins(tf, maxCacheSize, run[..n]);
      assert Step(tf, maxCacheSize, run[n - 1], run[n]);
      StepKeeps(tf, maxCacheSize, run[n - 1], run[n], initial);
    }
    forall i | run[n].disk.phase == Done && Stored(tf, |initial|, i)
      ensures PieceOnDisk(tf, run[n].disk.flat, i) == View(tf, run[n].disk, i)
    {
      DoneIsOnDisk(tf, maxCacheSize, run[n].disk, i);
    }
  }

  lemma StepKeeps(tf: Torrent, maxCacheSize: int, s: Logged, s': Logged, initial: seq<byte>)
    requires Inv(tf, maxCacheSize, s.disk) && Step(tf, maxCacheSize, s, s') && ViewExpected(tf, initial, s)
    ensures Inv(tf, maxCacheSize, s'.disk) && ViewExpected(tf, initial, s')
  {
    if s'.accepted != s.accepted {
      var req := s'.accepted[|s'.accepted| - 1];
      EnqueueChangesView(tf, maxCacheSize, s.disk, s'.disk, req);
      assert s'.accepted[..|s.accepted|] == s.accepted;
    } else if CloseChannel(s.disk, s'.disk) {
    } else {
      LoopStepKeepsView(tf, maxCacheSize, s.disk, s'.disk);
    }
  }
}
