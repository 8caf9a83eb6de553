/** What each step of a worker, of resume and of the writer loop takes, exactly; and that nothing more
    is needed: every torrent whose hashes some content meets can be downloaded to the end. */
module Completion {
  import opened Bytes
  import opened Ints
  import opened Pieces
  import opened Swarm
  import opened Runs
  import D = DiskModel
  import M = ManagerModel

  // ---------- what a step takes ----------

  /** A downloaded piece passes verification exactly if its SHA-1 is the piece's twenty bytes of the
      metainfo, and fails exactly if it is not, or the metainfo has no such bytes. */
  lemma VerifyExact(c: Config, s: Swarm, w: nat)
    requires Tracked(c, s) && w < |s.workers| && s.workers[w].Downloaded?
    ensures var i, data := s.workers[w].piece, s.workers[w].data;
            var intact := 20 * i + 20 <= |c.tf.pieces| && c.sha1(data) == c.tf.pieces[20 * i..20 * i + 20];
            && ((exists s' :: Step(c, s, s', VerifyPasses(w))) <==> intact)
            && ((exists s' :: Step(c, s, s', VerifyFails(w))) <==> !intact)
  {
    var i, data := s.workers[w].piece, s.workers[w].data;
    if Verifies(c.tf, c.sha1, i, data) {
      assert Step(c, s, s.(workers := s.workers[w := Verified(i, data)]), VerifyPasses(w));
    } else {
      var failed := s.(m := M.MarkedFailed(s.m, i), workers := s.workers[w := Idle], failures := s.failures + 1);
      assert Step(c, s, failed, VerifyFails(w));
    }
  }

  /** Verified data goes to the disk writer exactly if it has the piece's length, the channel is open
      and has room; the write fails exactly if the length is another, the channel is closed, or the
      writer has recorded an error. */
  lemma WriteExact(c: Config, s: Swarm, w: nat)
    requires Tracked(c, s) && w < |s.workers| && s.workers[w].Verified?
    ensures var i, data := s.workers[w].piece, s.workers[w].data;
            && ((exists s' :: Step(c, s, s', WriteAccepted(w)))
                <==> |data| == LengthAt(c.tf, i) && !s.d.closed && |s.d.queue| < 32)
            && ((exists s' :: Step(c, s, s', WriteFails(w)))
                <==> |data| != LengthAt(c.tf, i) || s.d.closed || s.d.failed)
  {
    var i, data := s.workers[w].piece, s.workers[w].data;
    var queued := s.d.(queue := s.d.queue + [D.Request(i, data)]);
    if |data| == LengthAt(c.tf, i) && !s.d.closed && |s.d.queue| < 32 {
      assert Step(c, s, s.(d := queued, workers := s.workers[w := Written(i)]), WriteAccepted(w));
    }
    if |data| != LengthAt(c.tf, i) || s.d.closed || s.d.failed {
      var failed := s.(m := M.MarkedFailed(s.m, i), workers := s.workers[w := Idle], failures := s.failures + 1);
      assert Step(c, s, failed, WriteFails(w));
    }
  }

  /** Resume marks exactly the pieces that are intact on disk. */
  lemma ResumeExact(c: Config, s: Swarm, i: int)
    requires Tracked(c, s)
    ensures (exists s' :: Step(c, s, s', Resume(i)))
       <==> 0 <= i < PieceCount(c.tf) && IntactOnDisk(c.tf, c.sha1, s.d.flat, i)
  {
    if 0 <= i < PieceCount(c.tf) && IntactOnDisk(c.tf, c.sha1, s.d.flat, i) {
      assert Step(c, s, s.(m := M.MarkedComplete(s.m, i, LengthAt(c.tf, i))), Resume(i));
    }
  }

  // ---------- a disk that works ----------

  /** A flush under way, with a disk that does not fail, comes to its end. */
  lemma {:induction false} Flushed(c: Config, states: seq<Swarm>, actions: seq<Action>)
    returns (states': seq<Swarm>, actions': seq<Action>)
    requires Run(c, states, actions) && !states[|actions|].d.failed
    ensures Run(c, states', actions') && states'[0] == states[0]
    ensures var s, s' := states[|actions|], states'[|actions'|];
            s' == s.(d := s.d.(flat := s'.d.flat, batch := [])) && D.SameView(c.tf, s.d, s'.d)
    decreases |states[|actions|].d.batch|
  {
    var s := states[|actions|];
    if s.d.batch == [] {
      states', actions' := states, actions;
    } else {
      var s1 := s.(d := D.FirstWritten(c.tf, s.d));
      D.FirstWrittenNext(c.tf, s.d);
      RunInvariant(c, states, actions, |actions|);
      D.LoopStepKeepsView(c.tf, c.maxCacheSize, s.d, s1.d);
      var more, acts := Extended(c, states, actions, s1, DiskLoop);
      states', actions' := Flushed(c, more, acts);
    }
  }

  /** The loop receives one request, and flushes if it has to. */
  lemma Received(c: Config, d: D.Disk) returns (d': D.Disk)
    requires d.phase == D.Running && d.batch == [] && d.queue != []
    ensures D.Dequeue(d, d', c.maxCacheSize)
    ensures d'.queue == d.queue[1..] && d'.failed == d.failed && d'.closed == d.closed && d'.phase == D.Running
  {
    D.LoopExact(c.tf, c.maxCacheSize, d);
    d' :| D.Dequeue(d, d', c.maxCacheSize);
  }

  /** Everything queued reaches the cache or the disk. */
  lemma {:induction false} Settled(c: Config, states: seq<Swarm>, actions: seq<Action>)
    returns (states': seq<Swarm>, actions': seq<Action>)
    requires Run(c, states, actions)
    requires var d := states[|actions|].d; !d.failed && d.phase == D.Running && d.batch == []
    ensures Run(c, states', actions') && states'[0] == states[0]
    ensures var s, s' := states[|actions|], states'[|actions'|];
            && s' == s.(d := s'.d) && D.SameView(c.tf, s.d, s'.d)
            && !s'.d.failed && s'.d.phase == D.Running && s'.d.batch == [] && s'.d.queue == []
            && s'.d.closed == s.d.closed
    decreases |states[|actions|].d.queue|
  {
    var s := states[|actions|];
    if s.d.queue == [] {
      states', actions' := states, actions;
    } else {
      var d1 := Received(c, s.d);
      var s1 := s.(d := d1);
      RunInvariant(c, states, actions, |actions|);
      D.LoopStepKeepsView(c.tf, c.maxCacheSize, s.d, d1);
      var more, acts := Extended(c, states, actions, s1, DiskLoop);
      more, acts := Flushed(c, more, acts);
      states', actions' := Settled(c, more, acts);
    }
  }

  /** The channel is closed, and the loop begins its last flush. */
  lemma Sealed(c: Config, states: seq<Swarm>, actions: seq<Action>)
    returns (states': seq<Swarm>, actions': seq<Action>)
    requires Run(c, states, actions)
    requires var d := states[|actions|].d;
             !d.failed && !d.closed && d.phase == D.Running && d.batch == [] && d.queue == []
    ensures Run(c, states', actions') && states'[0] == states[0]
    ensures var s, s' := states[|actions|], states'[|actions'|];
            && s' == s.(d := s'.d) && !s'.d.failed && s'.d.phase == D.LastFlush && D.SameView(c.tf, s.d, s'.d)
            && s'.d.queue == [] && s'.d.cache == map[]
  {
    var s := states[|actions|];
    var s1 := s.(d := s.d.(closed := true));
    D.LoopExact(c.tf, c.maxCacheSize, s1.d);
    var d2 :| D.BeginLastFlush(s1.d, d2);
    LastFlushKeeps(c, s, d2) by { RunInvariant(c, states, actions, |actions|); }
    hide D.BeginFlush, D.View, Tracked, Run;
    var more, acts := Extended(c, states, actions, s1, CloseDisk);
    states', actions' := Extended(c, more, acts, s1.(d := d2), DiskLoop);
  }

  lemma LastFlushKeeps(c: Config, s: Swarm, d': D.Disk)
    requires D.Inv(c.tf, c.maxCacheSize, s.d) && !s.d.failed && D.BeginLastFlush(s.d.(closed := true), d')
    ensures D.SameView(c.tf, s.d, d') && d'.failed == s.d.failed
    ensures d'.phase == D.LastFlush && d'.queue == [] && d'.cache == map[]
  {
    var closed := s.d.(closed := true);
    D.CloseKeepsView(c.tf, c.maxCacheSize, s.d);
    hide D.Inv, D.View, Tracked, D.IsBatch;
    D.LoopStepKeepsView(c.tf, c.maxCacheSize, closed, d');
  }

  /** Closed, the loop makes its last flush and ends. */
  lemma Ended(c: Config, states: seq<Swarm>, actions: seq<Action>)
    returns (states': seq<Swarm>, actions': seq<Action>)
    requires Run(c, states, actions)
    requires var d := states[|actions|].d;
             !d.failed && !d.closed && d.phase == D.Running && d.batch == [] && d.queue == []
    ensures Run(c, states', actions') && states'[0] == states[0]
    ensures var s, s' := states[|actions|], states'[|actions'|];
            s' == s.(d := s'.d) && !s'.d.failed && s'.d.phase == D.Done && D.SameView(c.tf, s.d, s'.d)
  {
    hide Run, Tracked;
    var more, acts := Sealed(c, states, actions);
    more, acts := Flushed(c, more, acts);
    var s := more[|acts|];
    states', actions' := Extended(c, more, acts, s.(d := s.d.(phase := D.Done)), DiskLoop);
  }

  // ---------- a download can be completed ----------

  /** The content the metainfo was made from, or any other with the same hashes. */
  ghost predicate Meets(tf: Torrent, sha1: seq<byte> -> seq<byte>, content: seq<byte>) {
    && Valid(tf) && |content| == tf.length
    && forall i :: 0 <= i < PieceCount(tf) ==> IntactOnDisk(tf, sha1, content, i)
  }

  ghost function PieceOf(tf: Torrent, content: seq<byte>, i: int): seq<byte>
    requires Valid(tf) && |content| == tf.length && 0 <= i < PieceCount(tf)
  {
    PiecesTile(tf, i);
    content[Offset(tf, i)..Offset(tf, i) + LengthAt(tf, i)]
  }

  /** The first i pieces are complete, the others pending; nobody is known to have any. */
  ghost predicate FirstComplete(m: M.Manager, i: int) {
    && 0 <= i <= m.total == |m.availability|
    && (forall j :: j in m.pending <==> i <= j < m.total)
    && (forall j :: j in m.completed <==> 0 <= j < i)
    && m.inProgress == {} && m.permanentlyFailed == {}
    && (forall j :: 0 <= j < m.total ==> m.availability[j] == 0)
  }

  /** The first i pieces will be found on disk, if the files have room for them. */
  ghost predicate FirstFound(tf: Torrent, d: D.Disk, content: seq<byte>, i: int)
    requires Valid(tf) && |content| == tf.length
  {
    forall j :: 0 <= j < i && Stored(tf, |d.flat|, j) ==> D.View(tf, d, j) == PieceOf(tf, content, j)
  }

  ghost predicate Ready(c: Config, s: Swarm, content: seq<byte>, i: int)
    requires Valid(c.tf) && |content| == c.tf.length
  {
    && s.workers == [Idle] && FirstComplete(s.m, i) && s.m.total == PieceCount(c.tf)
    && !s.d.failed && !s.d.closed && s.d.phase == D.Running && s.d.queue == [] && s.d.batch == []
    && FirstFound(c.tf, s.d, content, i)
  }

  /** With every piece offered and equally rare, any pending one can be claimed. */
  lemma Fetch(c: Config, s: Swarm, i: int, available: seq<bool>) returns (s': Swarm)
    requires Tracked(c, s) && s.workers == [Idle] && FirstComplete(s.m, i) && i < s.m.total
    requires available == seq(s.m.total, _ => true)
    ensures Step(c, s, s', ClaimPiece(0, available, i))
    ensures s' == s.(m := s'.m, workers := [Downloading(i)]) && M.Unmoved(M.Claim(s.m, i), s'.m)
    ensures s'.m.availability == s.m.availability
  {
    M.SyncExact(s.m);
    assert M.IsRarest(s.m, available, i);
    var m' := M.Claim(M.Synced(s.m), i);
    assert M.NextRarest(s.m, m', available, i);
    s' := s.(m := m', workers := [Downloading(i)]);
    assert s'.workers == s.workers[0 := Downloading(i)];
  }

  lemma DeliverSteps(c: Config, s: Swarm, i: int, data: seq<byte>)
    requires s.workers == [Downloading(i)] && 0 <= i < |s.m.availability|
    requires 20 * i + 20 <= |c.tf.pieces| && c.sha1(data) == c.tf.pieces[20 * i..20 * i + 20]
    requires |data| == LengthAt(c.tf, i) && !s.d.closed && s.d.queue == []
    ensures var s1 := s.(workers := [Downloaded(i, data)]);
            var s2 := s.(workers := [Verified(i, data)]);
            var s3 := s.(d := s.d.(queue := [D.Request(i, data)]), workers := [Written(i)]);
            var s4 := s3.(m := M.MarkedComplete(s.m, i, LengthAt(c.tf, i)), workers := [Idle]);
            && (Tracked(c, s) ==> Step(c, s, s1, DownloadSucceeds(0, data)))
            && (Tracked(c, s1) ==> Step(c, s1, s2, VerifyPasses(0)))
            && (Tracked(c, s2) ==> Step(c, s2, s3, WriteAccepted(0)))
            && (Tracked(c, s3) ==> Step(c, s3, s4, Complete(0)))
  {
    hide Tracked, LengthAt;
  }

  /** A claimed piece is downloaded, verified, written and marked complete. */
  lemma Delivered(c: Config, states: seq<Swarm>, actions: seq<Action>, i: int, data: seq<byte>)
    returns (states': seq<Swarm>, actions': seq<Action>)
    requires Run(c, states, actions)
    requires var s := states[|actions|];
             && s.workers == [Downloading(i)] && 0 <= i < |s.m.availability|
             && !s.d.failed && !s.d.closed && s.d.queue == []
    requires 20 * i + 20 <= |c.tf.pieces| && c.sha1(data) == c.tf.pieces[20 * i..20 * i + 20]
    requires |data| == LengthAt(c.tf, i)
    ensures Run(c, states', actions') && states'[0] == states[0]
    ensures var s, s' := states[|actions|], states'[|actions'|];
            && s' == s.(d := s.d.(queue := [D.Request(i, data)]), workers := [Idle],
                        m := M.MarkedComplete(s.m, i, LengthAt(c.tf, i)))
            && forall j :: Stored(c.tf, |s.d.flat|, j) ==>
                 D.View(c.tf, s'.d, j) == if j == i then data else D.View(c.tf, s.d, j)
  {
    var s := states[|actions|];
    DeliverSteps(c, s, i, data);
    RunInvariant(c, states, actions, |actions|);
    var s3 := s.(d := s.d.(queue := [D.Request(i, data)]), workers := [Written(i)]);
    assert s.d.queue + [D.Request(i, data)] == [D.Request(i, data)];
    D.EnqueueChangesView(c.tf, c.maxCacheSize, s.d, s3.d, D.Request(i, data));
    hide Step, Tracked, Run, D.View, Stored;
    var more, acts := Extended(c, states, actions, s.(workers := [Downloaded(i, data)]), DownloadSucceeds(0, data));
    more, acts := Extended(c, more, acts, s.(workers := [Verified(i, data)]), VerifyPasses(0));
    more, acts := Extended(c, more, acts, s3, WriteAccepted(0));
    var s4 := s3.(m := M.MarkedComplete(s.m, i, LengthAt(c.tf, i)), workers := [Idle]);
    states', actions' := Extended(c, more, acts, s4, Complete(0));
  }

  lemma FirstCompleteNext(m: M.Manager, claimed: M.Manager, i: int, bytes: int)
    requires FirstComplete(m, i) && i < m.total
    requires M.Unmoved(M.Claim(m, i), claimed) && claimed.availability == m.availability
    ensures FirstComplete(M.MarkedComplete(claimed, i, bytes), i + 1)
  {
  }

  lemma FirstFoundNext(tf: Torrent, d: D.Disk, d': D.Disk, content: seq<byte>, i: int)
    requires Valid(tf) && |content| == tf.length && 0 <= i < PieceCount(tf)
    requires FirstFound(tf, d, content, i) && |d'.flat| == |d.flat|
    requires forall j :: Stored(tf, |d.flat|, j) ==>
               D.View(tf, d', j) == if j == i then PieceOf(tf, content, i) else D.View(tf, d, j)
    ensures FirstFound(tf, d', content, i + 1)
  {
    hide D.View, PieceOf;
  }

  /** One more piece. */
  lemma PieceCompleted(c: Config, content: seq<byte>, states: seq<Swarm>, actions: seq<Action>, i: int)
    returns (states': seq<Swarm>, actions': seq<Action>)
    requires Meets(c.tf, c.sha1, content) && Run(c, states, actions)
    requires Ready(c, states[|actions|], content, i) && i < PieceCount(c.tf)
    ensures Run(c, states', actions') && states'[0] == states[0]
    ensures Ready(c, states'[|actions'|], content, i + 1)
  {
    var s, data := states[|actions|], PieceOf(c.tf, content, i);
    RunInvariant(c, states, actions, |actions|);
    assert IntactOnDisk(c.tf, c.sha1, content, i);
    assert |data| == LengthAt(c.tf, i);
    hide Run, Tracked, Step, D.View, M.Inv, Intact, M.NothingLost, FirstComplete, FirstFound, PieceOf, LengthAt;
    var s1 := Fetch(c, s, i, seq(s.m.total, _ => true));
    var more, acts := Extended(c, states, actions, s1, ClaimPiece(0, seq(s.m.total, _ => true), i));
    PiecesTile(c.tf, i);
    more, acts := Delivered(c, more, acts, i, data);
    var s2 := more[|acts|];
    FirstCompleteNext(s.m, s1.m, i, LengthAt(c.tf, i));
    FirstFoundNext(c.tf, s.d, s2.d, content, i);
    states', actions' := Settled(c, more, acts);
    FoundStill(c.tf, s2.d, states'[|actions'|].d, content, i + 1);
  }

  lemma FoundStill(tf: Torrent, d: D.Disk, d': D.Disk, content: seq<byte>, i: int)
    requires Valid(tf) && |content| == tf.length && i <= PieceCount(tf)
    requires FirstFound(tf, d, content, i) && D.SameView(tf, d, d')
    ensures FirstFound(tf, d', content, i)
  {
  }

  lemma {:induction false} PiecesCompleted(c: Config, content: seq<byte>, flat: seq<byte>, i: nat)
    returns (states: seq<Swarm>, actions: seq<Action>)
    requires Meets(c.tf, c.sha1, content) && i <= PieceCount(c.tf)
    ensures Run(c, states, actions) && states[0].d.flat == flat
    ensures Ready(c, states[|actions|], content, i)
  {
    if i == 0 {
      states, actions := StartRun(c, flat, 1);
    } else {
      states, actions := PiecesCompleted(c, content, flat, i - 1);
      states, actions := PieceCompleted(c, content, states, actions, i - 1);
    }
  }

  /** Whatever content meets the hashes, and whatever is on disk at first: some run of one worker
      downloads all of it, with every piece complete, none given up, and the disk writer at its end
      without an error; and if the files are as long as the torrent, they then hold the content. */
  lemma CanComplete(c: Config, content: seq<byte>, flat: seq<byte>)
    returns (states: seq<Swarm>, actions: seq<Action>)
    requires Meets(c.tf, c.sha1, content)
    ensures Run(c, states, actions) && states[0].d.flat == flat
    ensures var s := states[|actions|];
            && M.IsComplete(s.m) && s.m.completed == Indices(PieceCount(c.tf))
            && s.d.phase == D.Done && !s.d.failed
            && (c.tf.length <= |flat| ==> c.tf.length <= |s.d.flat| && s.d.flat[..c.tf.length] == content)
  {
    states, actions := PiecesCompleted(c, content, flat, PieceCount(c.tf));
    var s := states[|actions|];
    states, actions := Ended(c, states, actions);
    var s' := states[|actions|];
    FoundStill(c.tf, s.d, s'.d, content, PieceCount(c.tf));
    RunInvariant(c, states, actions, |actions|);
    RunSize(c, states, actions, |actions|);
    SizeOfIndices(PieceCount(c.tf));
    assert s'.m.completed == Indices(PieceCount(c.tf));
    if c.tf.length <= |flat| { AllOnDisk(c, s', content); }
  }

  lemma AllOnDisk(c: Config, s: Swarm, content: seq<byte>)
    requires Tracked(c, s) && |content| == c.tf.length <= |s.d.flat| && s.d.phase == D.Done
    requires FirstFound(c.tf, s.d, content, PieceCount(c.tf))
    ensures s.d.flat[..c.tf.length] == content
  {
    forall g | 0 <= g < c.tf.length ensures s.d.flat[g] == content[g] {
      var p := g / c.tf.pieceLength;
      PieceIndexOfByte(c.tf, g);
      PieceOfByte(c.tf, g, p);
      PiecesTile(c.tf, p);
      D.DoneIsOnDisk(c.tf, c.maxCacheSize, s.d, p);
      assert s.d.flat[g] == D.PieceOnDisk(c.tf, s.d.flat, p)[g - Offset(c.tf, p)];
      assert content[g] == PieceOf(c.tf, content, p)[g - Offset(c.tf, p)];
    }
  }
}
