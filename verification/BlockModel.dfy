/** Downloading one piece, block by block: what the sequence of requests, waits and received
    blocks of one call looks like, whatever the peer sends. */
module BlockModel {
  import opened Bytes
  import opened Ints
  import opened Seqs

  const BLOCK_SIZE := 16384

  function TotalBlocks(size: nat): nat {
    (size + BLOCK_SIZE - 1) / BLOCK_SIZE
  }

  function BlockLength(size: int, i: int): int {
    var remaining := size - i * BLOCK_SIZE;
    if remaining <= BLOCK_SIZE then remaining else BLOCK_SIZE
  }

  /** Each block is non-empty and begins where the previous one ends; the last ends with the piece. */
  lemma BlocksTile(size: nat, i: nat)
    requires i < TotalBlocks(size)
    ensures 0 < BlockLength(size, i) <= BLOCK_SIZE
    ensures i * BLOCK_SIZE + BlockLength(size, i)
         == if i + 1 < TotalBlocks(size) then (i + 1) * BLOCK_SIZE else size
    ensures i * BLOCK_SIZE < size && i * BLOCK_SIZE + BlockLength(size, i) <= size
  {
  }

  lemma BlockOfOffset(size: nat, offset: nat)
    requires offset < size
    ensures offset / BLOCK_SIZE < TotalBlocks(size)
  {
  }

  // ---------- blocks laid over a piece ----------

  /** A block for index i is among them. */
  ghost predicate Arrived<T>(ps: seq<Patch<T>>, i: int) {
    exists k :: 0 <= k < |ps| && ps[k].offset == i * BLOCK_SIZE
  }

  ghost predicate AllArrived<T>(ps: seq<Patch<T>>, size: nat) {
    forall i :: 0 <= i < TotalBlocks(size) ==> Arrived(ps, i)
  }

  /** The last block for index i. */
  ghost function LastAt<T>(ps: seq<Patch<T>>, i: int): seq<T> {
    if ps == [] then []
    else if ps[|ps| - 1].offset == i * BLOCK_SIZE then ps[|ps| - 1].items
    else LastAt(ps[..|ps| - 1], i)
  }

  /** Blocks begin at block boundaries and are inside the piece. */
  ghost predicate Aligned<T>(ps: seq<Patch<T>>, size: nat) {
    forall k :: 0 <= k < |ps| ==>
      && 0 <= ps[k].offset && ps[k].offset % BLOCK_SIZE == 0
      && ps[k].items != [] && ps[k].offset + |ps[k].items| <= size
  }

  /** Every block has the length of the block at its offset. */
  ghost predicate Exact<T>(ps: seq<Patch<T>>, size: nat) {
    forall k :: 0 <= k < |ps| ==> |ps[k].items| == BlockLength(size, ps[k].offset / BLOCK_SIZE)
  }

  /** With exact lengths, block i shows the last block received for it. */
  lemma {:induction false} LastBlockShows<T>(base: seq<T>, ps: seq<Patch<T>>, i: nat)
    requires Aligned(ps, |base|) && Exact(ps, |base|) && Arrived(ps, i) && i < TotalBlocks(|base|)
    ensures i * BLOCK_SIZE + BlockLength(|base|, i) <= |base| && BlockLength(|base|, i) > 0
    ensures Overlaid(base, ps)[i * BLOCK_SIZE..i * BLOCK_SIZE + BlockLength(|base|, i)] == LastAt(ps, i)
  {
    hide Overlaid, TotalBlocks;
    var init, last := ps[..|ps| - 1], ps[|ps| - 1];
    var lo, n := i * BLOCK_SIZE, BlockLength(|base|, i);
    BlocksTile(|base|, i);
    OverlaidSlice(base, ps, lo, lo + n);
    if last.offset == lo {
      IndexOf(last.offset, i);
    } else {
      ArrivedBefore(ps, i);
      LastBlockShows(base, init, i);
      OtherBlock(last, |base|, i);
    }
  }

  lemma IndexOf(offset: int, i: int)
    requires offset == i * BLOCK_SIZE
    ensures offset / BLOCK_SIZE == i
  {
  }

  lemma ArrivedBefore<T>(ps: seq<Patch<T>>, i: int)
    requires Arrived(ps, i) && ps[|ps| - 1].offset != i * BLOCK_SIZE
    ensures Arrived(ps[..|ps| - 1], i)
  {
    var k :| 0 <= k < |ps| && ps[k].offset == i * BLOCK_SIZE;
    assert ps[..|ps| - 1][k] == ps[k];
  }

  /** A block of exact length at another index stays clear of block i. */
  lemma OtherBlock<T>(p: Patch<T>, size: nat, i: nat)
    requires 0 <= p.offset && p.offset % BLOCK_SIZE == 0 && p.offset != i * BLOCK_SIZE && i < TotalBlocks(size)
    requires |p.items| == BlockLength(size, p.offset / BLOCK_SIZE) && p.offset + |p.items| <= size
    ensures forall g :: i * BLOCK_SIZE <= g < i * BLOCK_SIZE + BlockLength(size, i) ==> !Covers(p, g)
  {
    var j := p.offset / BLOCK_SIZE;
    assert p.offset == j * BLOCK_SIZE;
    BlocksTile(size, i);
  }

  // ---------- what the peer sends ----------

  /** What a read can bring; a Have may be out of range, a piece message malformed. */
  datatype Incoming =
    | KeepAlive
    | Choke
    | Unchoke
    | Have(valid: bool)
    | Extended
    | Piece(index: nat, offset: nat, block: seq<byte>)
    | MalformedPiece
    | Other

  /** A piece message the download ends on: malformed, empty, unaligned or outside the piece. */
  predicate Refused(msg: Incoming, size: nat) {
    || msg.MalformedPiece?
    || (msg.Piece? && (msg.block == [] || msg.offset % BLOCK_SIZE != 0))
    || (msg.Piece? && (msg.offset >= size || msg.offset + |msg.block| > size))
  }

  predicate EndsCall(msg: Incoming, size: nat) {
    msg.Choke? || (msg.Have? && !msg.valid) || Refused(msg, size)
  }

  ghost predicate NoneEnds(msgs: seq<Incoming>, size: nat) {
    forall k :: 0 <= k < |msgs| ==> !EndsCall(msgs[k], size)
  }

  /** The blocks carried by a run of messages, in order. */
  ghost function BlocksIn(msgs: seq<Incoming>): seq<Patch<byte>> {
    if msgs == [] then []
    else
      var last := msgs[|msgs| - 1];
      BlocksIn(msgs[..|msgs| - 1]) + if last.Piece? then [Patch(last.offset, last.block)] else []
  }

  lemma NextBlock(msgs: seq<Incoming>, msg: Incoming)
    ensures BlocksIn(msgs + [msg])
         == if msg.Piece? then BlocksIn(msgs) + [Patch(msg.offset, msg.block)] else BlocksIn(msgs)
  {
    assert (msgs + [msg])[..|msgs|] == msgs;
  }

  lemma {:induction false} BlocksAligned(msgs: seq<Incoming>, size: nat)
    requires NoneEnds(msgs, size)
    ensures Aligned(BlocksIn(msgs), size)
  {
    if msgs != [] {
      BlocksAligned(msgs[..|msgs| - 1], size);
      assert !EndsCall(msgs[|msgs| - 1], size);
    }
  }

  function Zeros(size: nat): seq<byte> {
    seq(size, _ => 0)
  }

  // ---------- the log of a call ----------

  datatype Event =
    | Sent(piece: int, offset: int, length: int)
    | Waited
    | Got(offset: int, block: seq<byte>)

  ghost predicate Asked(log: seq<Event>, i: int) {
    exists k :: 0 <= k < |log| && log[k].Sent? && log[k].offset == i * BLOCK_SIZE
  }

  ghost predicate Has(log: seq<Event>, i: int) {
    exists k :: 0 <= k < |log| && log[k].Got? && log[k].offset == i * BLOCK_SIZE
  }

  /** Blocks asked for and not yet received. */
  ghost function InFlight(log: seq<Event>, size: nat): set<int> {
    set i | i in Indices(TotalBlocks(size)) && Asked(log, i) && !Has(log, i)
  }

  /** Requests are blocks of this piece, with exactly their lengths. */
  ghost predicate GoodRequests(log: seq<Event>, piece: int, size: nat) {
    forall k :: 0 <= k < |log| && log[k].Sent? ==>
      && log[k].piece == piece
      && 0 <= log[k].offset < size && log[k].offset % BLOCK_SIZE == 0
      && log[k].length == BlockLength(size, log[k].offset / BLOCK_SIZE)
  }

  /** A request for 16 KiB of the piece at a multiple of 16 KiB, or for what is left of it there. */
  ghost predicate IsBlock(e: Event, piece: int, size: nat)
    requires e.Sent?
  {
    && e.piece == piece
    && e.offset % 16384 == 0 && 0 <= e.offset < e.offset + e.length <= size
    && (e.length == 16384 || (e.length < 16384 && e.offset + e.length == size))
  }

  lemma RequestsAreBlocks(log: seq<Event>, piece: int, size: nat)
    requires GoodRequests(log, piece, size)
    ensures forall k :: 0 <= k < |log| && log[k].Sent? ==> IsBlock(log[k], piece, size)
  {
    forall k | 0 <= k < |log| && log[k].Sent? ensures IsBlock(log[k], piece, size) {
      BlocksTile(size, log[k].offset / BLOCK_SIZE);
    }
  }

  /** No block is asked for twice. */
  ghost predicate AskedOnce(log: seq<Event>) {
    forall j, k :: 0 <= j < k < |log| && log[j].Sent? && log[k].Sent? ==> log[j].offset != log[k].offset
  }

  /** At every moment at most max requests are in flight. */
  ghost predicate Pipelined(log: seq<Event>, size: nat, max: nat) {
    forall k :: 0 <= k <= |log| ==> |InFlight(log[..k], size)| <= max
  }

  /** The call never waits for the peer with nothing in flight. */
  ghost predicate NeverStalls(log: seq<Event>, size: nat) {
    forall k :: 0 <= k < |log| && log[k].Waited? ==> InFlight(log[..k], size) != {}
  }

  /** Nothing more may be asked for: max requests are in flight, or no block is left to ask for. */
  ghost predicate FullPipe(log: seq<Event>, size: nat, max: nat) {
    |InFlight(log, size)| >= max || forall i :: 0 <= i < TotalBlocks(size) ==> Asked(log, i) || Has(log, i)
  }

  /** The call waits only once the pipeline is as full as it may be. */
  ghost predicate Saturated(log: seq<Event>, size: nat, max: nat) {
    forall k :: 0 <= k < |log| && log[k].Waited? ==> FullPipe(log[..k], size, max)
  }

  /** A call's task: which piece, of what size, and how many requests may be in flight. */
  datatype Job = Job(piece: int, size: nat, max: nat)

  /** Everything a call's log promises. */
  ghost predicate GoodLog(log: seq<Event>, job: Job) {
    && GoodRequests(log, job.piece, job.size) && AskedOnce(log)
    && Pipelined(log, job.size, job.max) && NeverStalls(log, job.size) && Saturated(log, job.size, job.max)
  }

  /** The blocks a log says were received, in order. */
  ghost function BlocksGot(log: seq<Event>): seq<Patch<byte>> {
    if log == [] then []
    else
      var last := log[|log| - 1];
      BlocksGot(log[..|log| - 1]) + if last.Got? then [Patch(last.offset, last.block)] else []
  }

  lemma NextGot(log: seq<Event>, e: Event)
    ensures BlocksGot(log + [e]) == if e.Got? then BlocksGot(log) + [Patch(e.offset, e.block)] else BlocksGot(log)
  {
    assert (log + [e])[..|log|] == log;
  }

  /** Which blocks are there depends only on the blocks received. */
  lemma {:induction false} BlocksTell(log: seq<Event>, i: int)
    ensures Arrived(BlocksGot(log), i) <==> Has(log, i)
  {
    if log != [] {
      var init, e := log[..|log| - 1], log[|log| - 1];
      BlocksTell(init, i);
      assert log == init + [e];
      AfterEvent(init, e, i);
      if e.Got? { ArrivedSnoc(BlocksGot(init), Patch(e.offset, e.block), i); }
      assert BlocksGot(log) == if e.Got? then BlocksGot(init) + [Patch(e.offset, e.block)] else BlocksGot(init);
    }
  }

  lemma ArrivedSnoc<T>(ps: seq<Patch<T>>, p: Patch<T>, i: int)
    ensures Arrived(ps + [p], i) <==> Arrived(ps, i) || p.offset == i * BLOCK_SIZE
  {
    assert (ps + [p])[|ps|] == p;
    assert forall k :: 0 <= k < |ps| ==> (ps + [p])[k] == ps[k];
  }

  /** The assembler's arrays say what the log says, and the data is the blocks laid over zeros. */
  ghost predicate Tracks(requested: seq<bool>, received: seq<bool>, data: seq<byte>, log: seq<Event>) {
    && |requested| == |received| == TotalBlocks(|data|)
    && (forall i :: 0 <= i < |requested| ==> (requested[i] <==> Asked(log, i)))
    && (forall i :: 0 <= i < |received| ==> (received[i] <==> Has(log, i)))
    && data == Overlaid(Zeros(|data|), BlocksGot(log))
  }

  // ---------- one more event ----------

  lemma AfterEvent(log: seq<Event>, e: Event, i: int)
    ensures Asked(log + [e], i) <==> Asked(log, i) || (e.Sent? && e.offset == i * BLOCK_SIZE)
    ensures Has(log + [e], i) <==> Has(log, i) || (e.Got? && e.offset == i * BLOCK_SIZE)
  {
    var log' := log + [e];
    assert log'[|log|] == e;
    if Asked(log, i) {
      var k :| 0 <= k < |log| && log[k].Sent? && log[k].offset == i * BLOCK_SIZE;
      assert log'[k] == log[k];
    }
    if Has(log, i) {
      var k :| 0 <= k < |log| && log[k].Got? && log[k].offset == i * BLOCK_SIZE;
      assert log'[k] == log[k];
    }
  }

  lemma PrefixClosed(log: seq<Event>, e: Event, size: nat, max: nat)
    requires Pipelined(log, size, max) && NeverStalls(log, size) && Saturated(log, size, max)
    requires |InFlight(log + [e], size)| <= max
    requires e.Waited? ==> InFlight(log, size) != {} && FullPipe(log, size, max)
    ensures Pipelined(log + [e], size, max) && NeverStalls(log + [e], size) && Saturated(log + [e], size, max)
  {
    var log' := log + [e];
    forall k | 0 <= k <= |log'| ensures |InFlight(log'[..k], size)| <= max {
      if k <= |log| { assert log'[..k] == log[..k]; } else { assert log'[..k] == log'; }
    }
    forall k | 0 <= k < |log'| && log'[k].Waited?
      ensures InFlight(log'[..k], size) != {} && FullPipe(log'[..k], size, max)
    {
      if k < |log| { assert log'[..k] == log[..k]; } else { assert log'[..k] == log; }
    }
  }

  lemma InFlightNow(log: seq<Event>, size: nat, max: nat)
    requires Pipelined(log, size, max)
    ensures |InFlight(log, size)| <= max
  {
    assert log[..|log|] == log;
  }

  lemma InFlightAfter(log: seq<Event>, e: Event, size: nat)
    ensures e.Waited? ==> InFlight(log + [e], size) == InFlight(log, size)
    ensures e.Got? ==> InFlight(log + [e], size) <= InFlight(log, size)
    ensures e.Sent? ==> forall i :: i in InFlight(log + [e], size) ==>
                          i in InFlight(log, size) || e.offset == i * BLOCK_SIZE
  {
    forall i
      ensures i in InFlight(log + [e], size) ==> i in InFlight(log, size) || (e.Sent? && e.offset == i * BLOCK_SIZE)
      ensures e.Waited? ==> (i in InFlight(log + [e], size) <==> i in InFlight(log, size))
    {
      AfterEvent(log, e, i);
    }
  }

  lemma SizeAfterAdding(a: set<int>, b: set<int>, i: int)
    requires a <= b + {i}
    ensures |a| <= |b| + 1
  {
    SubsetSize(a, b + {i});
  }

  lemma SubsetSize(a: set<int>, b: set<int>)
    requires a <= b
    ensures |a| <= |b|
  {
    assert b == a + (b - a);
  }

  // ---------- a request goes out ----------

  function RequestFor(piece: int, size: nat, i: nat): Event {
    Sent(piece, i * BLOCK_SIZE, BlockLength(size, i))
  }

  lemma SentGoodLog(log: seq<Event>, job: Job, i: nat)
    requires GoodLog(log, job) && i < TotalBlocks(job.size) && !Asked(log, i)
    requires |InFlight(log, job.size)| < job.max
    ensures GoodLog(log + [RequestFor(job.piece, job.size, i)], job)
  {
    SentInFlight(log, job.piece, job.size, i);
    PrefixClosed(log, RequestFor(job.piece, job.size, i), job.size, job.max);
    SentRequests(log, job.piece, job.size, i);
  }

  lemma SentInFlight(log: seq<Event>, piece: int, size: nat, i: nat)
    ensures |InFlight(log + [RequestFor(piece, size, i)], size)| <= |InFlight(log, size)| + 1
  {
    var e := RequestFor(piece, size, i);
    InFlightAfter(log, e, size);
    forall j | j in InFlight(log + [e], size) ensures j in InFlight(log, size) + {i} {
      assert e.offset == j * BLOCK_SIZE ==> j == i;
    }
    SizeAfterAdding(InFlight(log + [e], size), InFlight(log, size), i);
  }

  lemma SentRequests(log: seq<Event>, piece: int, size: nat, i: nat)
    requires GoodRequests(log, piece, size) && AskedOnce(log)
    requires i < TotalBlocks(size) && !Asked(log, i)
    ensures var log' := log + [RequestFor(piece, size, i)]; GoodRequests(log', piece, size) && AskedOnce(log')
  {
    BlocksTile(size, i);
  }

  lemma SentTracks(requested: seq<bool>, received: seq<bool>, data: seq<byte>, log: seq<Event>, piece: int, i: nat)
    requires Tracks(requested, received, data, log) && i < |requested|
    ensures Tracks(requested[i := true], received, data, log + [RequestFor(piece, |data|, i)])
  {
    hide Asked, Has, BlocksGot, Overlaid, TotalBlocks;
    var e := RequestFor(piece, |data|, i);
    forall j
      ensures Asked(log + [e], j) <==> Asked(log, j) || j == i
      ensures Has(log + [e], j) <==> Has(log, j)
    {
      AfterRequest(log, piece, |data|, i, j);
    }
    NextGot(log, e);
  }

  lemma AfterRequest(log: seq<Event>, piece: int, size: nat, i: nat, j: int)
    ensures var log' := log + [RequestFor(piece, size, i)];
            (Asked(log', j) <==> Asked(log, j) || j == i) && (Has(log', j) <==> Has(log, j))
  {
    AfterEvent(log, RequestFor(piece, size, i), j);
    SameBlock(i, j);
  }

  lemma SameBlock(i: int, j: int)
    ensures i * BLOCK_SIZE == j * BLOCK_SIZE <==> i == j
  {
  }

  // ---------- the call waits ----------

  lemma WaitedGoodLog(log: seq<Event>, job: Job)
    requires GoodLog(log, job) && InFlight(log, job.size) != {} && FullPipe(log, job.size, job.max)
    ensures GoodLog(log + [Waited], job) && FullPipe(log + [Waited], job.size, job.max)
  {
    InFlightAfter(log, Waited, job.size);
    InFlightNow(log, job.size, job.max);
    PrefixClosed(log, Waited, job.size, job.max);
    QuietRequests(log, Waited, job.piece, job.size);
    forall i ensures (Asked(log + [Waited], i) <==> Asked(log, i)) && (Has(log + [Waited], i) <==> Has(log, i)) {
      AfterEvent(log, Waited, i);
    }
  }

  lemma QuietRequests(log: seq<Event>, e: Event, piece: int, size: nat)
    requires GoodRequests(log, piece, size) && AskedOnce(log) && !e.Sent?
    ensures GoodRequests(log + [e], piece, size) && AskedOnce(log + [e])
  {
    assert forall k :: 0 <= k < |log| ==> (log + [e])[k] == log[k];
    assert (log + [e])[|log|] == e;
  }

  lemma WaitedTracks(requested: seq<bool>, received: seq<bool>, data: seq<byte>, log: seq<Event>)
    requires Tracks(requested, received, data, log)
    ensures Tracks(requested, received, data, log + [Waited])
  {
    hide Asked, Has, BlocksGot, Overlaid, TotalBlocks;
    forall j
      ensures Asked(log + [Waited], j) <==> Asked(log, j)
      ensures Has(log + [Waited], j) <==> Has(log, j)
    {
      AfterEvent(log, Waited, j);
    }
    NextGot(log, Waited);
  }

  // ---------- a block arrives ----------

  lemma GotGoodLog(log: seq<Event>, job: Job, offset: nat, block: seq<byte>)
    requires GoodLog(log, job)
    ensures GoodLog(log + [Got(offset, block)], job)
  {
    var e := Got(offset, block);
    InFlightAfter(log, e, job.size);
    SubsetSize(InFlight(log + [e], job.size), InFlight(log, job.size));
    InFlightNow(log, job.size, job.max);
    PrefixClosed(log, e, job.size, job.max);
    QuietRequests(log, e, job.piece, job.size);
  }

  /** data with the block laid over it, as AddBlock leaves it. */
  ghost predicate IsLaid(now: seq<byte>, was: seq<byte>, offset: int, block: seq<byte>) {
    now == Overlaid(was, [Patch(offset, block)])
  }

  lemma LaidPointwise(now: seq<byte>, was: seq<byte>, offset: int, block: seq<byte>)
    requires |now| == |was|
    requires forall g :: 0 <= g < |now| ==>
               now[g] == if offset <= g < offset + |block| then block[g - offset] else was[g]
    ensures IsLaid(now, was, offset, block)
  {
    assert [Patch(offset, block)][..0] == [];
  }

  lemma BlockAt(offset: nat, j: int)
    requires offset % BLOCK_SIZE == 0
    ensures offset == j * BLOCK_SIZE <==> j == offset / BLOCK_SIZE
  {
  }

  lemma GotTracks(
    requested: seq<bool>, received: seq<bool>, data: seq<byte>, data': seq<byte>, log: seq<Event>,
    offset: nat, block: seq<byte>)
    requires Tracks(requested, received, data, log)
    requires offset % BLOCK_SIZE == 0 && offset < |data| && IsLaid(data', data, offset, block)
    ensures offset / BLOCK_SIZE < |received|
    ensures Tracks(requested, received[offset / BLOCK_SIZE := true], data', log + [Got(offset, block)])
  {
    hide Asked, Has, BlocksGot, Overlaid, TotalBlocks;
    var e, i := Got(offset, block), offset / BLOCK_SIZE;
    BlockOfOffset(|data|, offset);
    forall j
      ensures Asked(log + [e], j) <==> Asked(log, j)
      ensures Has(log + [e], j) <==> Has(log, j) || j == i
    {
      AfterEvent(log, e, j);
      BlockAt(offset, j);
    }
    NextGot(log, e);
    OverlaidOnce(Zeros(|data|), BlocksGot(log), Patch(offset, block));
  }

  lemma OverlaidOnce<T>(base: seq<T>, ps: seq<Patch<T>>, p: Patch<T>)
    ensures Overlaid(base, ps + [p]) == Overlaid(Overlaid(base, ps), [p])
  {
    assert (ps + [p])[..|ps|] == ps;
    assert [p][..0] == [];
  }

  // ---------- what a good log means for the bytes of the piece ----------

  ghost predicate AsksFor(e: Event, g: int) {
    e.Sent? && e.offset <= g < e.offset + e.length
  }

  /** Requests are disjoint ranges of the piece: a byte is covered by at most one of them, and by
      one exactly when its block has been asked for. */
  lemma RequestsTile(log: seq<Event>, piece: int, size: nat, g: nat)
    requires GoodRequests(log, piece, size) && AskedOnce(log) && g < size
    ensures forall j, k :: 0 <= j < |log| && 0 <= k < |log| && AsksFor(log[j], g) && AsksFor(log[k], g) ==> j == k
    ensures (exists k :: 0 <= k < |log| && AsksFor(log[k], g)) <==> Asked(log, g / BLOCK_SIZE)
  {
    BlockOfOffset(size, g);
    BlocksTile(size, g / BLOCK_SIZE);
    forall k | 0 <= k < |log| && log[k].Sent?
      ensures AsksFor(log[k], g) <==> log[k].offset == g / BLOCK_SIZE * BLOCK_SIZE
    {
      BlocksTile(size, log[k].offset / BLOCK_SIZE);
    }
  }
}
