/** What a download call makes of the messages a peer sends: its outcome as a function of them, and
    which piece the bytes it returns were sent for. */
module Outcomes {
  import opened Bytes
  import opened Seqs
  import opened BlockModel

  datatype Download = Data(bytes: seq<byte>) | Failed(reason: Reason)

  datatype Reason = ReadError | WriteError | PeerChoked | InvalidHave | InvalidPieceBlock

  // ---------- the outcome ----------

  /** Which reason a fatal message is the cause of. */
  predicate BlamesMessage(reason: Reason, msg: Incoming, size: nat) {
    match reason
    case PeerChoked => msg.Choke?
    case InvalidHave => msg == Have(false)
    case InvalidPieceBlock => Refused(msg, size)
    case ReadError => false
    case WriteError => false
  }

  /** Why a call failed: a send that failed, the message at last, or the lack of one. */
  ghost predicate Blames(reason: Reason, size: nat, incoming: seq<Incoming>, last: nat) {
    || reason == WriteError
    || (reason == ReadError && last == |incoming|)
    || (last < |incoming| && BlamesMessage(reason, incoming[last], size))
  }

  /** The wait for an unchoke has read up to next. */
  ghost predicate StillChoked(incoming: seq<Incoming>, next: nat) {
    next <= |incoming| && forall k :: 0 <= k < next ==> !incoming[k].Unchoke? && incoming[k] != Have(false)
  }

  /** The download proper begins at first: at once, or after the first unchoke. */
  ghost predicate Started(choked: bool, incoming: seq<Incoming>, first: nat) {
    if choked then 0 < first <= |incoming| && incoming[first - 1].Unchoke? && StillChoked(incoming, first - 1)
    else first == 0
  }

  /** The messages from first up to last have been taken in: none is fatal, and before each of them
      the piece was incomplete. */
  ghost predicate Taken(size: nat, incoming: seq<Incoming>, first: nat, last: nat) {
    && first <= last <= |incoming|
    && forall k :: first <= k < last ==>
         !EndsCall(incoming[k], size) && !AllArrived(BlocksIn(incoming[first..k]), size)
  }

  /** A call that started gives up only on a failed send or with the piece incomplete. */
  ghost predicate GaveUp(reason: Reason, size: nat, incoming: seq<Incoming>, last: nat, blocks: seq<Patch<byte>>) {
    Blames(reason, size, incoming, last) && (reason == WriteError || !AllArrived(blocks, size))
  }

  /** The outcome of a call, decided by the messages from first up to last: the piece's data when
      their blocks are all there, which is the blocks laid over zeros in order; else what is to
      blame. A call still choked ends on an invalid HAVE, the end of the input or a failed send. */
  ghost predicate Outcome(r: Download, size: nat, choked: bool, incoming: seq<Incoming>, first: nat, last: nat) {
    if Started(choked, incoming, first) then
      && Taken(size, incoming, first, last)
      && var blocks := BlocksIn(incoming[first..last]);
         match r {
           case Data(bytes) => AllArrived(blocks, size) && bytes == Overlaid(Zeros(size), blocks)
           case Failed(reason) => GaveUp(reason, size, incoming, last, blocks)
         }
    else
      && choked && r.Failed? && first == last && StillChoked(incoming, last)
      && (r.reason == WriteError || (r.reason == ReadError && last == |incoming|)
          || (r.reason == InvalidHave && last < |incoming| && incoming[last] == Have(false)))
  }

  lemma StartsOnce(choked: bool, incoming: seq<Incoming>, first: nat, other: nat)
    requires Started(choked, incoming, first) && Started(choked, incoming, other)
    ensures first == other
  {
  }

  /** Leaving failed sends aside, what the peer sends decides the outcome, and how much of it is
      read. */
  lemma OutcomeDetermined(
    size: nat, choked: bool, incoming: seq<Incoming>,
    r: Download, first: nat, last: nat, r': Download, first': nat, last': nat)
    requires Outcome(r, size, choked, incoming, first, last) && r != Failed(WriteError)
    requires Outcome(r', size, choked, incoming, first', last') && r' != Failed(WriteError)
    ensures r == r' && first == first' && last == last'
  {
    if Started(choked, incoming, first) && Started(choked, incoming, first') {
      StartsOnce(choked, incoming, first, first');
      NoEarlierEnd(size, choked, incoming, r, first, last, r', last');
      NoEarlierEnd(size, choked, incoming, r', first, last', r, last);
    }
  }

  lemma NoEarlierEnd(
    size: nat, choked: bool, incoming: seq<Incoming>, r: Download, first: nat, last: nat, r': Download, last': nat)
    requires Started(choked, incoming, first)
    requires Outcome(r, size, choked, incoming, first, last) && r != Failed(WriteError)
    requires Outcome(r', size, choked, incoming, first, last')
    ensures last' <= last
  {
  }

  lemma TakenInside(size: nat, incoming: seq<Incoming>, first: nat, last: nat)
    requires Taken(size, incoming, first, last)
    ensures NoneEnds(incoming[first..last], size)
  {
  }

  lemma BlockShown(msgs: seq<Incoming>, size: nat, i: nat)
    requires NoneEnds(msgs, size) && Exact(BlocksIn(msgs), size) && Arrived(BlocksIn(msgs), i) && i < TotalBlocks(size)
    ensures i * BLOCK_SIZE + BlockLength(size, i) <= size && BlockLength(size, i) > 0
    ensures var lo := i * BLOCK_SIZE;
            Overlaid(Zeros(size), BlocksIn(msgs))[lo..lo + BlockLength(size, i)] == LastAt(BlocksIn(msgs), i)
  {
    BlocksAligned(msgs, size);
    LastBlockShows(Zeros(size), BlocksIn(msgs), i);
  }

  /** With blocks of the right lengths, the data is the last block received for each index. */
  lemma LastBlocksWin(r: Download, size: nat, choked: bool, incoming: seq<Incoming>, first: nat, last: nat, i: nat)
    requires Outcome(r, size, choked, incoming, first, last) && r.Data? && i < TotalBlocks(size)
    requires Exact(BlocksIn(incoming[first..last]), size)
    ensures |r.bytes| == size && i * BLOCK_SIZE + BlockLength(size, i) <= size && BlockLength(size, i) > 0
    ensures r.bytes[i * BLOCK_SIZE..i * BLOCK_SIZE + BlockLength(size, i)] == LastAt(BlocksIn(incoming[first..last]), i)
  {
    TakenInside(size, incoming, first, last);
    BlockShown(incoming[first..last], size, i);
  }

  // ---------- the piece a block says it is from ----------

  /** The same message with another index, if it carries one. */
  function Relabelled(msg: Incoming, index: nat): Incoming {
    if msg.Piece? then msg.(index := index) else msg
  }

  /** Two inputs that differ at most in the indices of piece messages. */
  ghost predicate SameButIndices(msgs: seq<Incoming>, others: seq<Incoming>) {
    |msgs| == |others| && forall k :: 0 <= k < |msgs| ==> Relabelled(msgs[k], 0) == Relabelled(others[k], 0)
  }

  lemma {:induction false} SameBlocks(msgs: seq<Incoming>, others: seq<Incoming>)
    requires SameButIndices(msgs, others)
    ensures BlocksIn(msgs) == BlocksIn(others)
  {
    if msgs != [] {
      var n := |msgs| - 1;
      SameBlocks(msgs[..n], others[..n]);
      assert Relabelled(msgs[n], 0) == Relabelled(others[n], 0);
    }
  }

  lemma SameMessage(msg: Incoming, other: Incoming, size: nat)
    requires Relabelled(msg, 0) == Relabelled(other, 0)
    ensures EndsCall(msg, size) == EndsCall(other, size)
    ensures forall reason :: BlamesMessage(reason, msg, size) == BlamesMessage(reason, other, size)
    ensures msg.Unchoke? == other.Unchoke? && (msg == Have(false) <==> other == Have(false))
  {
  }

  lemma SameMessages(size: nat, incoming: seq<Incoming>, others: seq<Incoming>)
    requires SameButIndices(incoming, others)
    ensures forall k :: 0 <= k < |incoming| ==>
              && EndsCall(incoming[k], size) == EndsCall(others[k], size)
              && incoming[k].Unchoke? == others[k].Unchoke?
              && (incoming[k] == Have(false) <==> others[k] == Have(false))
    ensures forall reason, k :: 0 <= k < |incoming| ==>
              BlamesMessage(reason, incoming[k], size) == BlamesMessage(reason, others[k], size)
    ensures forall j, k :: 0 <= j <= k <= |incoming| ==> BlocksIn(incoming[j..k]) == BlocksIn(others[j..k])
  {
    forall k | 0 <= k < |incoming|
      ensures EndsCall(incoming[k], size) == EndsCall(others[k], size)
      ensures incoming[k].Unchoke? == others[k].Unchoke? && (incoming[k] == Have(false) <==> others[k] == Have(false))
      ensures forall reason :: BlamesMessage(reason, incoming[k], size) == BlamesMessage(reason, others[k], size)
    {
      SameMessage(incoming[k], others[k], size);
    }
    forall j, k | 0 <= j <= k <= |incoming| ensures BlocksIn(incoming[j..k]) == BlocksIn(others[j..k]) {
      SameBlocks(incoming[j..k], others[j..k]);
    }
  }

  lemma SameOutcome(
    r: Download, size: nat, choked: bool, incoming: seq<Incoming>, others: seq<Incoming>, first: nat, last: nat)
    requires SameButIndices(incoming, others) && Outcome(r, size, choked, incoming, first, last)
    ensures Outcome(r, size, choked, others, first, last)
  {
    SameMessages(size, incoming, others);
    if Started(choked, incoming, first) {
      assert Started(choked, others, first);
      assert Taken(size, others, first, last);
    }
  }

  /** The piece index is not looked at: inputs that differ only in indices have the same outcomes. */
  lemma IndexIgnored(
    r: Download, size: nat, choked: bool, incoming: seq<Incoming>, others: seq<Incoming>, first: nat, last: nat)
    requires SameButIndices(incoming, others)
    ensures Outcome(r, size, choked, incoming, first, last) <==> Outcome(r, size, choked, others, first, last)
  {
    if Outcome(r, size, choked, incoming, first, last) { SameOutcome(r, size, choked, incoming, others, first, last); }
    if Outcome(r, size, choked, others, first, last) { SameOutcome(r, size, choked, others, incoming, first, last); }
  }

  /** The blocks of a run of messages with each byte replaced by the piece it was sent for. */
  ghost function LabelsIn(msgs: seq<Incoming>): seq<Patch<int>> {
    if msgs == [] then []
    else
      var last := msgs[|msgs| - 1];
      LabelsIn(msgs[..|msgs| - 1])
        + if last.Piece? then [Patch(last.offset, seq(|last.block|, _ => last.index))] else []
  }

  lemma NextLabel(msgs: seq<Incoming>, msg: Incoming)
    ensures LabelsIn(msgs + [msg])
         == if msg.Piece? then LabelsIn(msgs) + [Patch(msg.offset, seq(|msg.block|, _ => msg.index))]
            else LabelsIn(msgs)
  {
    assert (msgs + [msg])[..|msgs|] == msgs;
  }

  /** For each byte of the piece, the index of the piece it was last sent for; -1 if never. */
  ghost function Origins(msgs: seq<Incoming>, size: nat): (r: seq<int>)
    ensures |r| == size
  {
    Overlaid(seq(size, _ => -1), LabelsIn(msgs))
  }

  predicate Brings(msg: Incoming, g: int) {
    msg.Piece? && msg.offset <= g < msg.offset + |msg.block|
  }

  /** k is the last message to bring byte g. */
  ghost predicate LastToBring(msgs: seq<Incoming>, g: int, k: int) {
    0 <= k < |msgs| && Brings(msgs[k], g) && forall j :: k < j < |msgs| ==> !Brings(msgs[j], g)
  }

  ghost predicate NoneBrings(msgs: seq<Incoming>, g: int) {
    forall k :: 0 <= k < |msgs| ==> !Brings(msgs[k], g)
  }

  /** One message more: byte g and its origin are the message's, if it brings byte g. */
  lemma NextByte(msgs: seq<Incoming>, msg: Incoming, size: nat, g: nat)
    requires g < size
    ensures Origins(msgs + [msg], size)[g] == if Brings(msg, g) then msg.index else Origins(msgs, size)[g]
    ensures Overlaid(Zeros(size), BlocksIn(msgs + [msg]))[g]
         == if Brings(msg, g) then msg.block[g - msg.offset] else Overlaid(Zeros(size), BlocksIn(msgs))[g]
  {
    NextLabel(msgs, msg);
    NextBlock(msgs, msg);
    if msg.Piece? {
      OverlaidNext(seq(size, _ => -1), LabelsIn(msgs), Patch(msg.offset, seq(|msg.block|, _ => msg.index)), g);
      OverlaidNext(Zeros(size), BlocksIn(msgs), Patch(msg.offset, msg.block), g);
    }
  }

  /** Where each byte of the result is from: the last message to bring it, or nowhere. */
  lemma {:induction false} ByteExplained(msgs: seq<Incoming>, size: nat, g: nat)
    requires g < size
    ensures Origins(msgs, size)[g] == -1 <==> NoneBrings(msgs, g)
    ensures Origins(msgs, size)[g] == -1 ==> Overlaid(Zeros(size), BlocksIn(msgs))[g] == 0
    ensures Origins(msgs, size)[g] != -1 <==> exists k :: LastToBring(msgs, g, k)
    ensures forall k :: LastToBring(msgs, g, k) ==>
              && Origins(msgs, size)[g] == msgs[k].index
              && Overlaid(Zeros(size), BlocksIn(msgs))[g] == msgs[k].block[g - msgs[k].offset]
  {
    if msgs != [] {
      var n := |msgs| - 1;
      var init, last := msgs[..n], msgs[n];
      assert msgs == init + [last];
      NextByte(init, last, size, g);
      if Brings(last, g) {
        assert LastToBring(msgs, g, n);
      } else {
        ByteExplained(init, size, g);
        BroughtBefore(msgs, g);
      }
    }
  }

  lemma BroughtBefore(msgs: seq<Incoming>, g: int)
    requires msgs != [] && !Brings(msgs[|msgs| - 1], g)
    ensures var init := msgs[..|msgs| - 1];
            && (NoneBrings(msgs, g) <==> NoneBrings(init, g))
            && forall k :: LastToBring(msgs, g, k) <==> LastToBring(init, g, k)
  {
    var n := |msgs| - 1;
    var init := msgs[..n];
    assert forall k :: 0 <= k < n ==> msgs[k] == init[k];
    forall k | LastToBring(init, g, k) ensures LastToBring(msgs, g, k) {
      assert forall j :: k < j < |msgs| ==> j == n || msgs[j] == init[j];
    }
    forall k | LastToBring(msgs, g, k) ensures LastToBring(init, g, k) {
      assert forall j :: k < j < n ==> init[j] == msgs[j];
    }
  }

  /** A block is what the piece it names has at that place. */
  predicate Honest(msg: Incoming, truth: int -> seq<byte>)
    requires msg.Piece?
  {
    var piece, end := truth(msg.index), msg.offset + |msg.block|;
    end <= |piece| && piece[msg.offset..end] == msg.block
  }

  lemma HonestByte(msg: Incoming, truth: int -> seq<byte>, g: nat)
    requires msg.Piece? && Honest(msg, truth) && Brings(msg, g)
    ensures g < |truth(msg.index)| && truth(msg.index)[g] == msg.block[g - msg.offset]
  {
    assert truth(msg.index)[msg.offset..msg.offset + |msg.block|][g - msg.offset] == truth(msg.index)[g];
  }

  /** If each message carries true data of the piece it names, then so does each byte of the result:
      it is the true byte, at its place, of the piece it came from. */
  lemma OriginTells(msgs: seq<Incoming>, size: nat, truth: int -> seq<byte>, g: nat)
    requires forall k :: 0 <= k < |msgs| && msgs[k].Piece? ==> Honest(msgs[k], truth)
    requires g < size && Origins(msgs, size)[g] != -1
    ensures g < |truth(Origins(msgs, size)[g])|
    ensures Overlaid(Zeros(size), BlocksIn(msgs))[g] == truth(Origins(msgs, size)[g])[g]
  {
    ByteExplained(msgs, size, g);
    var k :| LastToBring(msgs, g, k);
    HonestByte(msgs[k], truth, g);
  }

  // ---------- what the result consists of ----------

  /** The last message to bring byte g says it is from piece index. */
  ghost predicate LastSays(msgs: seq<Incoming>, g: int, index: nat) {
    exists k :: LastToBring(msgs, g, k) && msgs[k].index == index
  }

  /** The data consists of bytes sent for this piece exactly if for each byte the last message taken
      in that brings it names this piece. */
  lemma OwnDataExactly(
    r: Download, size: nat, choked: bool, incoming: seq<Incoming>, first: nat, last: nat, piece: nat)
    requires Outcome(r, size, choked, incoming, first, last) && r.Data?
    ensures (forall g :: 0 <= g < size ==> Origins(incoming[first..last], size)[g] == piece)
       <==> (forall g :: 0 <= g < size ==> LastSays(incoming[first..last], g, piece))
  {
    var msgs := incoming[first..last];
    forall g | 0 <= g < size ensures Origins(msgs, size)[g] == piece <==> LastSays(msgs, g, piece) {
      ByteExplained(msgs, size, g);
    }
  }

  predicate IsFor(msg: Incoming, i: int) {
    msg.Piece? && msg.offset == i * BLOCK_SIZE
  }

  /** The last message for block i says it is from piece index. */
  ghost predicate LastForSays(msgs: seq<Incoming>, i: int, index: nat) {
    exists k :: LastFor(msgs, i, k) && msgs[k].index == index
  }

  ghost predicate LastFor(msgs: seq<Incoming>, i: int, k: int) {
    0 <= k < |msgs| && IsFor(msgs[k], i) && forall j :: k < j < |msgs| ==> !IsFor(msgs[j], i)
  }

  lemma {:induction false} ExactMessages(msgs: seq<Incoming>, size: nat)
    requires Exact(BlocksIn(msgs), size)
    ensures forall k :: 0 <= k < |msgs| && msgs[k].Piece? ==> ExactBlock(msgs[k], size)
  {
    if msgs != [] {
      var init, last := msgs[..|msgs| - 1], msgs[|msgs| - 1];
      assert msgs == init + [last];
      NextBlock(init, last);
      if last.Piece? {
        assert BlocksIn(msgs)[|BlocksIn(init)|] == Patch(last.offset, last.block);
        assert BlocksIn(init) == BlocksIn(msgs)[..|BlocksIn(init)|];
      }
      ExactMessages(init, size);
    }
  }

  predicate ExactBlock(msg: Incoming, size: nat)
    requires msg.Piece?
  {
    |msg.block| == BlockLength(size, msg.offset / BLOCK_SIZE)
  }

  /** A block of exact length brings the bytes of its own index and no others. */
  lemma BringsIsFor(msg: Incoming, size: nat, g: nat)
    requires !EndsCall(msg, size) && g < size && (msg.Piece? ==> ExactBlock(msg, size))
    ensures Brings(msg, g) <==> IsFor(msg, g / BLOCK_SIZE)
  {
    BlockOfOffset(size, g);
    BlocksTile(size, g / BLOCK_SIZE);
  }

  lemma LastBringsIsFor(msgs: seq<Incoming>, size: nat, g: nat, index: nat)
    requires NoneEnds(msgs, size) && Exact(BlocksIn(msgs), size) && g < size
    ensures LastSays(msgs, g, index) <==> LastForSays(msgs, g / BLOCK_SIZE, index)
  {
    ExactMessages(msgs, size);
    forall k | 0 <= k < |msgs| ensures Brings(msgs[k], g) <==> IsFor(msgs[k], g / BLOCK_SIZE) {
      BringsIsFor(msgs[k], size, g);
    }
    forall k ensures LastToBring(msgs, g, k) <==> LastFor(msgs, g / BLOCK_SIZE, k) {
    }
  }

  /** With blocks of the right lengths that is to say: if for each block the last message for it names
      this piece. */
  lemma OwnBlocksExactly(msgs: seq<Incoming>, size: nat, piece: nat)
    requires NoneEnds(msgs, size) && Exact(BlocksIn(msgs), size)
    ensures (forall g :: 0 <= g < size ==> LastSays(msgs, g, piece))
       <==> (forall i :: 0 <= i < TotalBlocks(size) ==> LastForSays(msgs, i, piece))
  {
    forall g | 0 <= g < size
      ensures 0 <= g / BLOCK_SIZE < TotalBlocks(size)
      ensures LastSays(msgs, g, piece) <==> LastForSays(msgs, g / BLOCK_SIZE, piece)
    {
      BlockOfOffset(size, g);
      LastBringsIsFor(msgs, size, g, piece);
    }
    forall i | 0 <= i < TotalBlocks(size) && LastSays(msgs, i * BLOCK_SIZE, piece)
      ensures LastForSays(msgs, i, piece)
    {
      BlocksTile(size, i);
      LastBringsIsFor(msgs, size, i * BLOCK_SIZE, piece);
    }
    forall i | 0 <= i < TotalBlocks(size) ensures i * BLOCK_SIZE < size {
      BlocksTile(size, i);
    }
  }

  /** So from honest messages the data is the piece, if each byte was last brought in its name. */
  lemma TrueData(
    r: Download, size: nat, choked: bool, incoming: seq<Incoming>, first: nat, last: nat,
    piece: nat, truth: int -> seq<byte>)
    requires Outcome(r, size, choked, incoming, first, last) && r.Data? && |truth(piece)| == size
    requires var msgs := incoming[first..last];
             && (forall g :: 0 <= g < size ==> LastSays(msgs, g, piece))
             && (forall k :: 0 <= k < |msgs| && msgs[k].Piece? ==> Honest(msgs[k], truth))
    ensures r.bytes == truth(piece)
  {
    var msgs := incoming[first..last];
    forall g | 0 <= g < size ensures r.bytes[g] == truth(piece)[g] {
      assert LastSays(msgs, g, piece);
      ByteExplained(msgs, size, g);
      OriginTells(msgs, size, truth, g);
    }
  }

  /** Some message brings all of block i; it may begin before it and end after it. */
  ghost predicate Spanned(msgs: seq<Incoming>, size: nat, i: nat) {
    exists k :: 0 <= k < |msgs| && Spans(msgs[k], size, i)
  }

  predicate Spans(msg: Incoming, size: nat, i: nat) {
    && msg.Piece? && msg.offset <= i * BLOCK_SIZE
    && i * BLOCK_SIZE + BlockLength(size, i) <= msg.offset + |msg.block|
  }

  /** Blocks begin at block boundaries, so what brings the end of a block brings all of it. */
  lemma EndBringsAll(msg: Incoming, size: nat, i: nat)
    requires !EndsCall(msg, size) && i < TotalBlocks(size)
    ensures Brings(msg, i * BLOCK_SIZE + BlockLength(size, i) - 1) <==> Spans(msg, size, i)
  {
    BlocksTile(size, i);
    if msg.Piece? { BoundaryBelow(msg.offset, i, BlockLength(size, i)); }
  }

  lemma BoundaryBelow(offset: nat, i: nat, n: int)
    requires offset % BLOCK_SIZE == 0 && 0 < n <= BLOCK_SIZE
    ensures offset <= i * BLOCK_SIZE + n - 1 <==> offset <= i * BLOCK_SIZE
  {
  }

  /** A block counts as arrived whatever its length; every byte of the data was received exactly if
      for each block some message taken in brings all of it. The other bytes are zeros. */
  lemma AllReceivedExactly(r: Download, size: nat, choked: bool, incoming: seq<Incoming>, first: nat, last: nat)
    requires Outcome(r, size, choked, incoming, first, last) && r.Data?
    ensures (forall g :: 0 <= g < size ==> Origins(incoming[first..last], size)[g] != -1)
       <==> (forall i :: 0 <= i < TotalBlocks(size) ==> Spanned(incoming[first..last], size, i))
    ensures |r.bytes| == size
    ensures forall g :: 0 <= g < size && Origins(incoming[first..last], size)[g] == -1 ==> r.bytes[g] == 0
  {
    var msgs := incoming[first..last];
    forall g | 0 <= g < size
      ensures Origins(msgs, size)[g] == -1 <==> NoneBrings(msgs, g)
      ensures Origins(msgs, size)[g] == -1 ==> r.bytes[g] == 0
    {
      ByteExplained(msgs, size, g);
    }
    forall i | 0 <= i < TotalBlocks(size)
      ensures 0 <= i * BLOCK_SIZE + BlockLength(size, i) - 1 < size
      ensures Spanned(msgs, size, i) <==> !NoneBrings(msgs, i * BLOCK_SIZE + BlockLength(size, i) - 1)
    {
      SpannedAtEnd(msgs, size, i);
    }
    forall g | 0 <= g < size
      ensures 0 <= g / BLOCK_SIZE < TotalBlocks(size)
      ensures Spanned(msgs, size, g / BLOCK_SIZE) ==> !NoneBrings(msgs, g)
    {
      SpannedAt(msgs, size, g);
    }
  }

  lemma SpannedAtEnd(msgs: seq<Incoming>, size: nat, i: nat)
    requires NoneEnds(msgs, size) && i < TotalBlocks(size)
    ensures 0 <= i * BLOCK_SIZE + BlockLength(size, i) - 1 < size
    ensures Spanned(msgs, size, i) <==> !NoneBrings(msgs, i * BLOCK_SIZE + BlockLength(size, i) - 1)
  {
    BlocksTile(size, i);
    forall k | 0 <= k < |msgs|
      ensures Brings(msgs[k], i * BLOCK_SIZE + BlockLength(size, i) - 1) <==> Spans(msgs[k], size, i)
    {
      EndBringsAll(msgs[k], size, i);
    }
  }

  lemma SpannedAt(msgs: seq<Incoming>, size: nat, g: nat)
    requires g < size
    ensures 0 <= g / BLOCK_SIZE < TotalBlocks(size)
    ensures Spanned(msgs, size, g / BLOCK_SIZE) ==> !NoneBrings(msgs, g)
  {
    BlockOfOffset(size, g);
    BlocksTile(size, g / BLOCK_SIZE);
    if k :| 0 <= k < |msgs| && Spans(msgs[k], size, g / BLOCK_SIZE) {
      assert Brings(msgs[k], g);
    }
  }

  // ---------- the smallest cases ----------

  lemma OneBlockArrives(size: nat, block: seq<byte>)
    requires 0 < size <= BLOCK_SIZE
    ensures AllArrived([Patch(0, block)], size) && !AllArrived<byte>([], size)
  {
    assert TotalBlocks(size) == 1;
    assert [Patch(0, block)][0].offset == 0 * BLOCK_SIZE;
    assert Arrived([Patch(0, block)], 0);
    assert !Arrived<byte>([], 0);
  }

  lemma OneMessage(msg: Incoming)
    requires msg.Piece?
    ensures [msg][0..1] == [msg] && [msg][0..0] == []
    ensures BlocksIn([]) == [] && BlocksIn([msg]) == [Patch(msg.offset, msg.block)]
  {
    assert [] + [msg] == [msg];
    NextBlock([], msg);
  }

  /** A piece of one block is complete with the first message for it, whatever piece the message
      names and however short its block. */
  lemma OneMessageTaken(size: nat, msg: Incoming)
    requires 0 < size <= BLOCK_SIZE && msg.Piece? && msg.offset == 0 && 0 < |msg.block| <= size
    ensures Taken(size, [msg], 0, 1)
  {
    OneMessage(msg);
    OneBlockArrives(size, msg.block);
  }

  lemma OneMessageOutcome(size: nat, msg: Incoming, data: seq<byte>)
    requires 0 < size <= BLOCK_SIZE && msg.Piece? && msg.offset == 0 && 0 < |msg.block| <= size
    requires data == Overlaid(Zeros(size), BlocksIn([msg]))
    ensures Outcome(Data(data), size, false, [msg], 0, 1)
  {
    OneMessageTaken(size, msg);
    OneMessage(msg);
    OneBlockArrives(size, msg.block);
  }

  lemma OneMessageByte(size: nat, msg: Incoming, g: nat)
    requires msg.Piece? && g < size
    ensures Origins([msg], size)[g] == if Brings(msg, g) then msg.index else -1
    ensures Overlaid(Zeros(size), BlocksIn([msg]))[g] == if Brings(msg, g) then msg.block[g - msg.offset] else 0
  {
    assert [] + [msg] == [msg];
    NextByte([], msg, size, g);
  }

  lemma OneMessageReturned(size: nat, msg: Incoming, r: Download, first: nat, last: nat)
    requires 0 < size <= BLOCK_SIZE && msg.Piece? && msg.offset == 0 && 0 < |msg.block| <= size
    requires Outcome(r, size, false, [msg], first, last) && r != Failed(WriteError)
    ensures r == Data(Overlaid(Zeros(size), BlocksIn([msg]))) && first == 0 && last == 1
  {
    hide *;
    var data := Overlaid(Zeros(size), BlocksIn([msg]));
    OneMessageOutcome(size, msg, data);
    OutcomeDetermined(size, false, [msg], r, first, last, Data(data), 0, 1);
  }

  /** A block from elsewhere: it is returned as the data of the piece asked for, whichever that is,
      though every byte was sent for the piece the message names. */
  lemma ForeignBlockReturned(size: nat, msg: Incoming, r: Download, first: nat, last: nat)
    requires 0 < size <= BLOCK_SIZE && msg.Piece? && msg.offset == 0 && |msg.block| == size
    requires Outcome(r, size, false, [msg], first, last) && r != Failed(WriteError)
    ensures r == Data(msg.block) && first == 0 && last == 1
    ensures forall g :: 0 <= g < size ==> Origins([msg], size)[g] == msg.index
  {
    OneMessageReturned(size, msg, r, first, last);
    forall g | 0 <= g < size ensures Origins([msg], size)[g] == msg.index && r.bytes[g] == msg.block[g] {
      OneMessageByte(size, msg, g);
    }
    assert r.bytes == msg.block;
  }

  /** A short block: it completes the piece, and the rest of the data, never received, is zeros. */
  lemma ShortBlockReturned(size: nat, msg: Incoming, r: Download, first: nat, last: nat)
    requires 0 < size <= BLOCK_SIZE && msg.Piece? && msg.offset == 0 && 0 < |msg.block| < size
    requires Outcome(r, size, false, [msg], first, last) && r != Failed(WriteError)
    ensures r.Data? && first == 0 && last == 1 && |r.bytes| == size && msg.block <= r.bytes
    ensures forall g :: |msg.block| <= g < size ==> Origins([msg], size)[g] == -1 && r.bytes[g] == 0
  {
    OneMessageReturned(size, msg, r, first, last);
    forall g | 0 <= g < size
      ensures if g < |msg.block| then r.bytes[g] == msg.block[g]
              else Origins([msg], size)[g] == -1 && r.bytes[g] == 0
    {
      OneMessageByte(size, msg, g);
    }
  }
}
