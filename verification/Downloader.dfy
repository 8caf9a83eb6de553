/** The piece assembler and the pipelined download loop as the program has them. */
module Downloader {
  import opened Bytes
  import opened Ints
  import opened Wrappers
  import opened Seqs
  import opened BlockModel
  import opened Outcomes

  ghost predicate HasAll(log: seq<Event>, size: nat) {
    forall i :: 0 <= i < TotalBlocks(size) ==> Has(log, i)
  }

  lemma HasAllTold(log: seq<Event>, size: nat)
    ensures HasAll(log, size) <==> AllArrived(BlocksGot(log), size)
  {
    forall i ensures Arrived(BlocksGot(log), i) <==> Has(log, i) {
      BlocksTell(log, i);
    }
  }

  /** What one message does: a fatal one changes nothing, any other adds the block it carries. */
  ghost predicate Handled(size: nat, msg: Incoming, log: seq<Event>, log': seq<Event>, failed: Option<Reason>) {
    if EndsCall(msg, size) then
      log' == log && failed.Some? && BlamesMessage(failed.value, msg, size)
    else
      && BlocksGot(log') == (if msg.Piece? then BlocksGot(log) + [Patch(msg.offset, msg.block)] else BlocksGot(log))
      && (failed == None || failed == Some(WriteError))
  }

  /** The messages from first up to last have been taken in, and the log's blocks are theirs. */
  ghost predicate Consumed(size: nat, incoming: seq<Incoming>, first: nat, last: nat, log: seq<Event>) {
    Taken(size, incoming, first, last) && BlocksGot(log) == BlocksIn(incoming[first..last])
  }

  /** The sending side of the connection to the peer. */
  class Connection {
    /** Whether a send has ever failed. */
    var broken: bool

    method Send() returns (ok: bool)
      modifies this
      ensures broken == (old(broken) || !ok)
    {
      ok := *;
      broken := broken || !ok;
    }
  }

  class PieceAssembler {
    const pieceIndex: int
    const pieceSize: nat
    const totalBlocks: nat
    const data: array<byte>
    const received: array<bool>
    const requested: array<bool>

    ghost predicate Valid()
      reads this
    {
      && data.Length == pieceSize
      && totalBlocks == TotalBlocks(pieceSize) == received.Length == requested.Length
      && received != requested
    }

    ghost predicate Follows(log: seq<Event>)
      reads this, data, received, requested
    {
      Valid() && Tracks(requested[..], received[..], data[..], log)
    }

    constructor (pieceIndex: int, pieceSize: nat)
      ensures this.pieceIndex == pieceIndex && this.pieceSize == pieceSize && Follows([])
      ensures fresh(data) && fresh(received) && fresh(requested)
    {
      this.pieceIndex, this.pieceSize, totalBlocks := pieceIndex, pieceSize, TotalBlocks(pieceSize);
      data := new byte[pieceSize](_ => 0);
      received := new bool[TotalBlocks(pieceSize)](_ => false);
      requested := new bool[TotalBlocks(pieceSize)](_ => false);
      new;
      assert data[..] == Zeros(pieceSize);
    }

    /** Its task, with room for max requests in flight. */
    function JobFor(max: nat): Job {
      Job(pieceIndex, pieceSize, max)
    }

    /** A block is refused exactly when it begins or ends outside the piece, and then nothing
        changes; otherwise it is laid over the data and its block index counts as received. */
    method AddBlock(offset: int, block: seq<byte>) returns (ok: bool)
      requires Valid()
      modifies data, received
      ensures ok <==> 0 <= offset < pieceSize && offset + |block| <= pieceSize
      ensures !ok ==> data[..] == old(data[..]) && received[..] == old(received[..])
      ensures ok ==> IsLaid(data[..], old(data[..]), offset, block)
      ensures ok ==> received[..] == old(received[..])[offset / BLOCK_SIZE := true]
    {
      if offset < 0 || offset >= pieceSize {
        return false;
      }
      var end := offset + |block|;
      if end > pieceSize {
        return false;
      }
      for k := 0 to |block|
        invariant received[..] == old(received[..])
        invariant forall j :: 0 <= j < data.Length ==>
                    data[j] == if offset <= j < offset + k then block[j - offset] else old(data[j])
      {
        data[offset + k] := block[k];
      }
      LaidPointwise(data[..], old(data[..]), offset, block);
      BlockOfOffset(pieceSize, offset);
      received[offset / BLOCK_SIZE] := true;
      return true;
    }

    /** A block taken into the piece and the log, unless it falls outside the piece. */
    method ReceiveBlock(offset: nat, block: seq<byte>, max: nat, ghost log: seq<Event>)
      returns (ghost log': seq<Event>, ok: bool)
      requires Follows(log) && GoodLog(log, JobFor(max))
      requires block != [] && offset % BLOCK_SIZE == 0
      modifies data, received
      ensures ok <==> offset < pieceSize && offset + |block| <= pieceSize
      ensures ok ==> log' == log + [Got(offset, block)] && Follows(log') && GoodLog(log', JobFor(max))
      ensures ok ==> BlocksGot(log') == BlocksGot(log) + [Patch(offset, block)]
    {
      ghost var was, have := data[..], received[..];
      log' := log;
      ok := AddBlock(offset, block);
      if ok {
        GotGoodLog(log, JobFor(max), offset, block);
        GotTracks(requested[..], have, was, data[..], log, offset, block);
        NextGot(log, Got(offset, block));
        log' := log + [Got(offset, block)];
      }
    }

    /** Every block has arrived. */
    method IsComplete(ghost log: seq<Event>) returns (complete: bool)
      requires Follows(log)
      ensures complete <==> HasAll(log, pieceSize)
    {
      for i := 0 to received.Length
        invariant forall j :: 0 <= j < i ==> received[j]
      {
        if !received[i] {
          return false;
        }
      }
      return true;
    }

    /** The first block neither received nor requested, now marked requested; -1 when there is none. */
    method NextMissingBlock() returns (i: int, offset: int, length: int)
      requires Valid()
      modifies requested
      ensures i == -1 ==> requested[..] == old(requested[..])
                          && forall j :: 0 <= j < totalBlocks ==> received[j] || requested[j]
      ensures i != -1 ==> 0 <= i < totalBlocks && !old(requested[i]) && !received[i]
                          && requested[..] == old(requested[..])[i := true]
                          && offset == i * BLOCK_SIZE && length == BlockLength(pieceSize, i)
                          && forall j :: 0 <= j < i ==> received[j] || requested[j]
    {
      for n := 0 to totalBlocks
        invariant requested[..] == old(requested[..])
        invariant forall j :: 0 <= j < n ==> received[j] || requested[j]
      {
        if received[n] || requested[n] {
          continue;
        }
        requested[n] := true;
        return n, n * BLOCK_SIZE, BlockLength(pieceSize, n);
      }
      return -1, 0, 0;
    }

    /** Division truncates toward zero, so the offsets just below zero fall to block zero; further
        down the index is out of range and the program fails. */
    method ResetBlock(offset: int)
      requires Valid() && offset > -BLOCK_SIZE
      modifies requested
      ensures var index := if offset < 0 then 0 else offset / BLOCK_SIZE;
              requested[..] == if index < totalBlocks then old(requested[..])[index := false] else old(requested[..])
    {
      var index := if offset < 0 then -(-offset / BLOCK_SIZE) else offset / BLOCK_SIZE;
      if index >= requested.Length {
        return;
      }
      requested[index] := false;
    }

    /** Requests in flight. */
    method CountOutstanding(ghost log: seq<Event>) returns (n: nat)
      requires Follows(log)
      ensures n == |InFlight(log, pieceSize)|
    {
      hide InFlightBelow, InFlight, Asked, Has, BlocksGot, Overlaid, TotalBlocks;
      n := 0;
      NoneBelow(log);
      for i := 0 to totalBlocks
        invariant n == |InFlightBelow(log, i)|
      {
        BelowNext(log, i);
        assert requested[..][i] == requested[i] && received[..][i] == received[i];
        if requested[i] && !received[i] {
          n := n + 1;
        }
      }
      AllBelow(log, pieceSize);
    }

    /** Blocks still in flight may be asked for again by a later call. */
    method ResetOutstanding()
      requires Valid()
      modifies requested
      ensures forall i :: 0 <= i < totalBlocks ==> (requested[i] <==> old(requested[i]) && received[i])
    {
      for i := 0 to totalBlocks
        invariant forall j :: 0 <= j < i ==> (requested[j] <==> old(requested[j]) && received[j])
        invariant forall j :: i <= j < totalBlocks ==> requested[j] == old(requested[j])
      {
        if requested[i] && !received[i] {
          ResetBlock(i * BLOCK_SIZE);
        }
      }
    }

    /** Sends requests until max are in flight or nothing is left to ask for. */
    method QueueRequests(conn: Connection, max: nat, ghost log: seq<Event>)
      returns (ghost log': seq<Event>, ok: bool)
      requires Follows(log) && GoodLog(log, JobFor(max))
      modifies requested, conn
      ensures conn.broken == (old(conn.broken) || !ok)
      ensures Follows(log') && GoodLog(log', JobFor(max)) && log <= log'
      ensures BlocksGot(log') == BlocksGot(log)
      ensures ok ==> FullPipe(log', pieceSize, max)
    {
      log' := log;
      while true
        invariant Follows(log') && GoodLog(log', JobFor(max)) && log <= log'
        invariant BlocksGot(log') == BlocksGot(log) && conn.broken == old(conn.broken)
        decreases Unrequested(requested[..])
      {
        var outstanding := CountOutstanding(log');
        if outstanding >= max {
          return log', true;
        }
        ghost var was := requested[..];
        var i, offset, length := NextMissingBlock();
        if i == -1 {
          AllAsked(requested[..], received[..], data[..], log', max);
          return log', true;
        }
        SentGoodLog(log', JobFor(max), i);
        SentTracks(was, received[..], data[..], log', pieceIndex, i);
        UnrequestedLess(was, i);
        NextGot(log', RequestFor(pieceIndex, pieceSize, i));
        log' := log' + [RequestFor(pieceIndex, pieceSize, i)];
        var sent := conn.Send();
        if !sent {
          return log', false;
        }
      }
    }

    /** The branch for a piece message, whose index is of no consequence. */
    method HandlePiece(
      conn: Connection, ghost index: nat, offset: nat, block: seq<byte>, max: nat, ghost log: seq<Event>)
      returns (ghost log': seq<Event>, failed: Option<Reason>)
      requires Follows(log) && GoodLog(log, JobFor(max))
      modifies data, received, requested, conn
      ensures conn.broken == (old(conn.broken) || failed == Some(WriteError))
      ensures Handled(pieceSize, Piece(index, offset, block), log, log', failed)
      ensures GoodLog(log', JobFor(max))
      ensures failed == None ==> Follows(log') && FullPipe(log', pieceSize, max)
    {
      hide Tracks, GoodLog, FullPipe, BlocksGot;
      if |block| == 0 || offset % BLOCK_SIZE != 0 {
        return log, Some(InvalidPieceBlock);
      }
      ghost var got;
      var ok;
      got, ok := ReceiveBlock(offset, block, max, log);
      if !ok {
        return log, Some(InvalidPieceBlock);
      }
      assert !EndsCall(Piece(index, offset, block), pieceSize);
      log', ok := QueueRequests(conn, max, got);
      failed := if ok then None else Some(WriteError);
    }

    /** The switch on one message from the peer. */
    method HandleMessage(conn: Connection, msg: Incoming, max: nat, ghost log: seq<Event>)
      returns (ghost log': seq<Event>, failed: Option<Reason>)
      requires Follows(log) && GoodLog(log, JobFor(max)) && FullPipe(log, pieceSize, max)
      modifies data, received, requested, conn
      ensures conn.broken == (old(conn.broken) || failed == Some(WriteError))
      ensures Handled(pieceSize, msg, log, log', failed)
      ensures GoodLog(log', JobFor(max))
      ensures failed == None ==> Follows(log') && FullPipe(log', pieceSize, max)
    {
      log', failed := log, None;
      var ok;
      match msg {
        case Choke =>
          ResetOutstanding();
          failed := Some(PeerChoked);
        case Unchoke =>
          log', ok := QueueRequests(conn, max, log);
          if !ok {
            failed := Some(WriteError);
          }
        case Have(valid) =>
          if !valid {
            failed := Some(InvalidHave);
          }
        case MalformedPiece =>
          failed := Some(InvalidPieceBlock);
        case Piece(index, offset, block) =>
          log', failed := HandlePiece(conn, index, offset, block, max, log);
        case _ =>
      }
    }

    /** One turn of the message loop: waits, reads the message at next and handles it. */
    method ReadOne(
      conn: Connection, max: nat, incoming: seq<Incoming>, ghost first: nat, next: nat, ghost log: seq<Event>)
      returns (failed: Option<Reason>, next': nat, ghost log': seq<Event>)
      requires Follows(log) && GoodLog(log, JobFor(max)) && FullPipe(log, pieceSize, max)
      requires max > 0 && !HasAll(log, pieceSize) && Consumed(pieceSize, incoming, first, next, log)
      modifies data, received, requested, conn
      ensures conn.broken == (old(conn.broken) || failed == Some(WriteError))
      ensures GoodLog(log', JobFor(max))
      ensures Consumed(pieceSize, incoming, first, next', log')
      ensures failed == None ==> next' == next + 1 && Follows(log') && FullPipe(log', pieceSize, max)
      ensures failed != None ==> GaveUp(failed.value, pieceSize, incoming, next', BlocksGot(log'))
    {
      WaitStep(requested[..], received[..], data[..], log, JobFor(max));
      ghost var waiting := log + [Waited];
      HasAllTold(waiting, pieceSize);
      if next >= |incoming| {
        ResetOutstanding();
        return Some(ReadError), next, waiting;
      }
      var msg := incoming[next];
      log', failed := HandleMessage(conn, msg, max, waiting);
      HandledConsumed(pieceSize, incoming, first, next, waiting, log', failed);
      next' := if EndsCall(msg, pieceSize) then next else next + 1;
    }

    /** Requests, then reads and handles messages until the piece is complete. */
    method Fill(conn: Connection, max: nat, incoming: seq<Incoming>, first: nat)
      returns (failed: Option<Reason>, ghost log: seq<Event>, last: nat)
      requires Follows([]) && max > 0 && first <= |incoming|
      modifies data, received, requested, conn
      ensures conn.broken == (old(conn.broken) || failed == Some(WriteError))
      ensures GoodLog(log, JobFor(max)) && Consumed(pieceSize, incoming, first, last, log)
      ensures failed == None ==> Follows(log) && AllArrived(BlocksGot(log), pieceSize)
      ensures failed != None ==> GaveUp(failed.value, pieceSize, incoming, last, BlocksGot(log))
    {
      var next := first;
      EmptyLog(JobFor(max));
      var ok;
      log, ok := QueueRequests(conn, max, []);
      NothingConsumed(pieceSize, incoming, first, log);
      if !ok {
        return Some(WriteError), log, next;
      }
      var complete := IsComplete(log);
      while !complete
        invariant Follows(log) && GoodLog(log, JobFor(max)) && FullPipe(log, pieceSize, max)
        invariant complete <==> HasAll(log, pieceSize)
        invariant conn.broken == old(conn.broken)
        invariant Consumed(pieceSize, incoming, first, next, log)
        decreases |incoming| - next, !complete
      {
        failed, next, log := ReadOne(conn, max, incoming, first, next, log);
        if failed != None {
          return failed, log, next;
        }
        complete := IsComplete(log);
      }
      HasAllTold(log, pieceSize);
      return None, log, next;
    }
  }

  ghost function InFlightBelow(log: seq<Event>, n: nat): set<int> {
    set i | i in Indices(n) && Asked(log, i) && !Has(log, i)
  }

  lemma NoneBelow(log: seq<Event>)
    ensures InFlightBelow(log, 0) == {}
  {
  }

  lemma BelowNext(log: seq<Event>, n: nat)
    ensures |InFlightBelow(log, n + 1)| == |InFlightBelow(log, n)| + if Asked(log, n) && !Has(log, n) then 1 else 0
  {
    if Asked(log, n) && !Has(log, n) {
      assert InFlightBelow(log, n + 1) == InFlightBelow(log, n) + {n};
    } else {
      assert InFlightBelow(log, n + 1) == InFlightBelow(log, n);
    }
  }

  lemma AllBelow(log: seq<Event>, size: nat)
    ensures InFlightBelow(log, TotalBlocks(size)) == InFlight(log, size)
  {
  }

  ghost function Unrequested(requested: seq<bool>): nat {
    if requested == [] then 0
    else Unrequested(requested[..|requested| - 1]) + if requested[|requested| - 1] then 0 else 1
  }

  lemma {:induction false} UnrequestedLess(requested: seq<bool>, i: nat)
    requires i < |requested| && !requested[i]
    ensures Unrequested(requested[i := true]) == Unrequested(requested) - 1
  {
    var n := |requested| - 1;
    if i < n {
      UnrequestedLess(requested[..n], i);
      assert requested[i := true][..n] == requested[..n][i := true];
    } else {
      assert requested[i := true][..n] == requested[..n];
    }
  }

  /** When everything missing has been asked for, the pipeline is as full as it can be. */
  lemma AllAsked(requested: seq<bool>, received: seq<bool>, data: seq<byte>, log: seq<Event>, max: nat)
    requires Tracks(requested, received, data, log)
    requires forall j :: 0 <= j < |received| ==> received[j] || requested[j]
    ensures FullPipe(log, |data|, max)
  {
  }

  /** A full pipeline has something in flight unless the piece is complete. */
  lemma NotStalled(log: seq<Event>, size: nat, max: nat)
    requires FullPipe(log, size, max) && max > 0 && !HasAll(log, size)
    ensures InFlight(log, size) != {}
  {
    var i :| 0 <= i < TotalBlocks(size) && !Has(log, i);
    if Asked(log, i) {
      assert i in InFlight(log, size);
    }
  }

  // ---------- the download loop ----------

  const DEFAULT_PIPELINE := 8

  function MaxOutstanding(configured: int): nat {
    if configured <= 0 then DEFAULT_PIPELINE else configured
  }

  /** Reads until the peer unchokes or the read fails; next is the position after the unchoke, or of
      what the wait failed on. */
  method WaitForUnchoke(incoming: seq<Incoming>) returns (failed: Option<Reason>, next: nat)
    ensures failed == None ==> 0 < next <= |incoming| && incoming[next - 1].Unchoke? && StillChoked(incoming, next - 1)
    ensures failed != None ==> StillChoked(incoming, next)
    ensures failed != None ==> if next == |incoming| then failed == Some(ReadError)
                               else failed == Some(InvalidHave) && incoming[next] == Have(false)
  {
    next := 0;
    while next < |incoming|
      invariant StillChoked(incoming, next)
    {
      var msg := incoming[next];
      if msg == Have(false) {
        return Some(InvalidHave), next;
      }
      next := next + 1;
      if msg.Unchoke? {
        return None, next;
      }
    }
    return Some(ReadError), next;
  }

  /** One call for one piece. incoming is whatever the peer sends; a read past its end fails. The
      outcome is decided by the messages from first up to last, and a failed send is blamed exactly
      when there was one. */
  method DownloadPiece(
    conn: Connection, pieceIndex: int, pieceLength: nat, configured: int, choked: bool, incoming: seq<Incoming>)
    returns (r: Download, first: nat, last: nat, ghost log: seq<Event>)
    modifies conn
    ensures Outcome(r, pieceLength, choked, incoming, first, last)
    ensures GoodLog(log, Job(pieceIndex, pieceLength, MaxOutstanding(configured)))
    ensures var limit := if configured > 0 then configured else 8;
            Pipelined(log, pieceLength, limit) && Saturated(log, pieceLength, limit)
    ensures forall k :: 0 <= k < |log| && log[k].Sent? ==> IsBlock(log[k], pieceIndex, pieceLength)
    ensures if Started(choked, incoming, first) then Consumed(pieceLength, incoming, first, last, log) else log == []
    ensures conn.broken == (old(conn.broken) || r == Failed(WriteError))
  {
    var max := MaxOutstanding(configured);
    first := 0;
    EmptyLog(Job(pieceIndex, pieceLength, max));
    if choked {
      var sent := conn.Send();
      if !sent {
        return Failed(WriteError), 0, 0, [];
      }
      var failed;
      failed, first := WaitForUnchoke(incoming);
      if failed != None {
        return Failed(failed.value), first, first, [];
      }
    }
    var a := new PieceAssembler(pieceIndex, pieceLength);
    var failed;
    failed, log, last := a.Fill(conn, max, incoming, first);
    RequestsAreBlocks(log, pieceIndex, pieceLength);
    if failed != None {
      return Failed(failed.value), first, last, log;
    }
    return Data(a.data[..]), first, last, log;
  }

  /** The call is about to wait: something is in flight, and the wait changes nothing else. */
  lemma WaitStep(requested: seq<bool>, received: seq<bool>, data: seq<byte>, log: seq<Event>, job: Job)
    requires Tracks(requested, received, data, log) && |data| == job.size
    requires GoodLog(log, job) && FullPipe(log, job.size, job.max)
    requires job.max > 0 && !HasAll(log, job.size)
    ensures var log' := log + [Waited];
            && Tracks(requested, received, data, log') && GoodLog(log', job) && FullPipe(log', job.size, job.max)
            && BlocksGot(log') == BlocksGot(log) && !HasAll(log', job.size)
  {
    NotStalled(log, job.size, job.max);
    WaitedGoodLog(log, job);
    WaitedTracks(requested, received, data, log);
    NextGot(log, Waited);
    forall i ensures Has(log + [Waited], i) <==> Has(log, i) {
      AfterEvent(log, Waited, i);
    }
  }

  lemma NothingConsumed(size: nat, incoming: seq<Incoming>, first: nat, log: seq<Event>)
    requires first <= |incoming| && BlocksGot(log) == []
    ensures Consumed(size, incoming, first, first, log)
  {
    assert incoming[first..first] == [];
  }

  lemma HandledConsumed(
    size: nat, incoming: seq<Incoming>, first: nat, next: nat, log: seq<Event>, log': seq<Event>,
    failed: Option<Reason>)
    requires Consumed(size, incoming, first, next, log) && next < |incoming| && !HasAll(log, size)
    requires Handled(size, incoming[next], log, log', failed)
    ensures if EndsCall(incoming[next], size) then
              Consumed(size, incoming, first, next, log') && failed.Some?
              && GaveUp(failed.value, size, incoming, next, BlocksGot(log'))
            else
              Consumed(size, incoming, first, next + 1, log') && (failed == None || failed == Some(WriteError))
  {
    hide AllArrived, BlocksIn, HasAll;
    HasAllTold(log, size);
    if !EndsCall(incoming[next], size) {
      OneMoreTaken(size, incoming, first, next);
    }
  }

  lemma OneMoreTaken(size: nat, incoming: seq<Incoming>, first: nat, next: nat)
    requires Taken(size, incoming, first, next) && next < |incoming|
    requires !EndsCall(incoming[next], size) && !AllArrived(BlocksIn(incoming[first..next]), size)
    ensures Taken(size, incoming, first, next + 1)
    ensures var msg, blocks := incoming[next], BlocksIn(incoming[first..next]);
            BlocksIn(incoming[first..next + 1])
            == if msg.Piece? then blocks + [Patch(msg.offset, msg.block)] else blocks
  {
    hide AllArrived, BlocksIn, EndsCall;
    assert incoming[first..next + 1] == incoming[first..next] + [incoming[next]];
    NextBlock(incoming[first..next], incoming[next]);
  }

  lemma EmptyLog(job: Job)
    ensures GoodLog([], job)
  {
    assert InFlight([], job.size) == {};
  }
}
