/** The download as a whole: workers taking pieces from the manager and handing verified data to
    the disk writer, with the writer loop, resume, playback priorities and the close interleaved
    freely. Every step is one critical section of the program. */
module Swarm {
  import opened Bytes
  import opened Ints
  import opened Pieces
  import D = DiskModel
  import M = ManagerModel

  datatype Config = Config(tf: Torrent, sha1: seq<byte> -> seq<byte>, maxCacheSize: int)

  /** Where a worker stands in its loop, and the piece it holds there. */
  datatype Worker =
    | Idle
    | Downloading(piece: int)
    | Downloaded(piece: int, data: seq<byte>)
    | Verified(piece: int, data: seq<byte>)
    | Written(piece: int)
    | Exited

  /** failures counts the calls of MarkFailed. */
  datatype Swarm = Swarm(m: M.Manager, d: D.Disk, workers: seq<Worker>, failures: nat)

  datatype Action =
    | Join(bitfield: seq<bool>)
    | ClaimPiece(w: nat, available: seq<bool>, r: int)
    | DownloadFails(w: nat)
    | DownloadSucceeds(w: nat, data: seq<byte>)
    | VerifyFails(w: nat)
    | VerifyPasses(w: nat)
    | WriteFails(w: nat)
    | WriteAccepted(w: nat)
    | Complete(w: nat)
    | Leave(w: nat, bitfield: seq<bool>)
    | DiskLoop
    | CloseDisk
    | Resume(piece: int)
    | Announce(piece: int)
    | SetPriority(indices: seq<int>)
    | SetStreaming(enabled: bool, window: int)

  predicate Holds(w: Worker, i: int) {
    !w.Idle? && !w.Exited? && w.piece == i
  }

  // ---------- the steps ----------

  /** Any of the three ways NextPiece can decide. The streaming switch is read outside the lock,
      so either of the last two may follow a look at the priorities. */
  ghost predicate Selects(m: M.Manager, m': M.Manager, available: seq<bool>, r: int)
    requires M.Inv(m)
  {
    M.NextPriority(m, m', available, r) || M.NextStreaming(m, m', available, r) || M.NextRarest(m, m', available, r)
  }

  ghost predicate ClaimStep(s: Swarm, s': Swarm, w: nat, available: seq<bool>, r: int)
    requires M.Inv(s.m)
  {
    && w < |s.workers| && s.workers[w] == Idle
    && Selects(s.m, s'.m, available, r)
    && s' == s.(m := s'.m, workers := if r == -1 then s.workers else s.workers[w := Downloading(r)])
  }

  /** A failed verification or write: MarkFailed, and the worker lets the piece go. */
  ghost predicate FailStep(s: Swarm, s': Swarm, w: nat)
    requires w < |s.workers| && !s.workers[w].Idle? && !s.workers[w].Exited?
    requires 0 <= s.workers[w].piece < |s.m.availability|
  {
    s' == s.(m := M.MarkedFailed(s.m, s.workers[w].piece), workers := s.workers[w := Idle], failures := s.failures + 1)
  }

  ghost predicate Step(c: Config, s: Swarm, s': Swarm, a: Action)
    requires Tracked(c, s)
  {
    match a
    case Join(bf) =>
      s' == s.(m := M.Registered(s.m, bf), workers := s.workers + [Idle])
    case ClaimPiece(w, available, r) =>
      ClaimStep(s, s', w, available, r)
    case DownloadFails(w) =>
      && w < |s.workers| && s.workers[w].Downloading?
      && s' == s.(m := M.ReturnedToPending(s.m, s.workers[w].piece), workers := s.workers[w := Idle])
    case DownloadSucceeds(w, data) =>
      && w < |s.workers| && s.workers[w].Downloading?
      && s' == s.(workers := s.workers[w := Downloaded(s.workers[w].piece, data)])
    case VerifyFails(w) =>
      && w < |s.workers| && s.workers[w].Downloaded?
      && !Verifies(c.tf, c.sha1, s.workers[w].piece, s.workers[w].data)
      && FailStep(s, s', w)
    case VerifyPasses(w) =>
      && w < |s.workers| && s.workers[w].Downloaded?
      && Verifies(c.tf, c.sha1, s.workers[w].piece, s.workers[w].data)
      && s' == s.(workers := s.workers[w := Verified(s.workers[w].piece, s.workers[w].data)])
    case WriteFails(w) =>
      && w < |s.workers| && s.workers[w].Verified?
      && (!D.Fits(c.tf, RequestOf(s.workers[w])) || s.d.failed || s.d.closed)
      && FailStep(s, s', w)
    case WriteAccepted(w) =>
      && w < |s.workers| && s.workers[w].Verified?
      && D.Fits(c.tf, RequestOf(s.workers[w]))
      && D.Enqueue(s.d, s'.d, RequestOf(s.workers[w]))
      && s' == s.(d := s'.d, workers := s.workers[w := Written(s.workers[w].piece)])
    case Complete(w) =>
      && w < |s.workers| && s.workers[w].Written?
      && var i := s.workers[w].piece;
         s' == s.(m := M.MarkedComplete(s.m, i, LengthAt(c.tf, i)), workers := s.workers[w := Idle])
    case Leave(w, bf) =>
      && w < |s.workers| && s.workers[w] == Idle
      && s' == s.(m := M.Unregistered(s.m, bf), workers := s.workers[w := Exited])
    case DiskLoop =>
      D.LoopStep(c.tf, c.maxCacheSize, s.d, s'.d) && s' == s.(d := s'.d)
    case CloseDisk =>
      D.CloseChannel(s.d, s'.d) && s' == s.(d := s'.d)
    case Resume(i) =>
      && Stored(c.tf, |s.d.flat|, i)
      && Verifies(c.tf, c.sha1, i, D.PieceOnDisk(c.tf, s.d.flat, i))
      && s' == s.(m := M.MarkedComplete(s.m, i, LengthAt(c.tf, i)))
    case Announce(i) =>
      s' == s.(m := M.Incremented(s.m, i))
    case SetPriority(indices) =>
      s' == s.(m := M.WithPriority(s.m, indices))
    case SetStreaming(enabled, window) =>
      s' == s.(m := M.WithStreaming(s.m, enabled, window))
  }

  function RequestOf(w: Worker): D.Request
    requires w.Verified?
  {
    D.Request(w.piece, w.data)
  }

  // ---------- the invariant ----------

  /** Enough to take a step: both parts are sound, and workers hold real pieces. */
  ghost predicate Tracked(c: Config, s: Swarm) {
    && Valid(c.tf) && s.m.total == PieceCount(c.tf)
    && M.Inv(s.m)
    && D.Inv(c.tf, c.maxCacheSize, s.d)
    && forall w :: 0 <= w < |s.workers| ==>
         s.workers[w].Idle? || s.workers[w].Exited? || 0 <= s.workers[w].piece < s.m.total
  }

  ghost predicate SomeoneHolds(workers: seq<Worker>, i: int) {
    exists w :: 0 <= w < |workers| && Holds(workers[w], i)
  }

  /** Whatever is in progress is in some worker's hands. */
  ghost predicate InProgressHeld(m: M.Manager, workers: seq<Worker>) {
    forall i :: i in m.inProgress ==> SomeoneHolds(workers, i)
  }

  ghost predicate AllVerify(c: Config, d: D.Disk) {
    && (forall k :: 0 <= k < |d.queue| ==> Verifies(c.tf, c.sha1, d.queue[k].index, d.queue[k].data))
    && (forall k :: 0 <= k < |d.batch| ==> Verifies(c.tf, c.sha1, d.batch[k].index, d.batch[k].data))
    && (forall i :: i in d.cache ==> Verifies(c.tf, c.sha1, i, d.cache[i]))
  }

  /** What is complete, or about to be marked so, will be found intact, if the files have room for
      it, unless the disk fails. */
  ghost predicate Intact(c: Config, s: Swarm)
    requires Tracked(c, s)
  {
    && AllVerify(c, s.d)
    && (forall w :: 0 <= w < |s.workers| && s.workers[w].Verified? ==>
          Verifies(c.tf, c.sha1, s.workers[w].piece, s.workers[w].data))
    && (!s.d.failed ==>
          forall i :: Stored(c.tf, |s.d.flat|, i) && Promised(s, i) ==>
            Verifies(c.tf, c.sha1, i, D.View(c.tf, s.d, i)))
  }

  /** Piece i is complete, or accepted by the disk writer and about to be marked complete. */
  ghost predicate Promised(s: Swarm, i: int) {
    i in s.m.completed || exists w :: 0 <= w < |s.workers| && s.workers[w] == Written(i)
  }

  ghost predicate Invariant(c: Config, s: Swarm) {
    && Tracked(c, s)
    && M.NothingLost(s.m)
    && InProgressHeld(s.m, s.workers)
    && s.m.downloaded == SumOfPieces(c.tf, s.m.completed)
    && Intact(c, s)
  }

  // ---------- every step keeps it ----------

  lemma PlacesInRange(c: Config, s: Swarm)
    requires Tracked(c, s)
    ensures Valid(c.tf) && s.m.total == PieceCount(c.tf)
    ensures forall i :: i in s.m.priority ==> 0 <= i < s.m.total
    ensures forall i :: i in s.m.pending || i in s.m.inProgress || i in s.m.completed || i in s.m.permanentlyFailed
                        ==> 0 <= i < s.m.total
  {
  }

  /** The actions by which a worker lets its piece go. */
  predicate IsOutcome(a: Action) {
    a.DownloadFails? || a.VerifyFails? || a.WriteFails? || a.Complete?
  }

  /** What letting go of piece i does to the manager. */
  ghost function Outcome(c: Config, m: M.Manager, i: int, a: Action): M.Manager
    requires 0 <= i < |m.availability|
  {
    if a.DownloadFails? then M.ReturnedToPending(m, i)
    else if a.Complete? then M.MarkedComplete(m, i, LengthAt(c.tf, i))
    else M.MarkedFailed(m, i)
  }

  lemma StepOutcome(c: Config, s: Swarm, s': Swarm, a: Action)
    requires Tracked(c, s) && IsOutcome(a) && Step(c, s, s', a)
    ensures a.w < |s.workers| && !s.workers[a.w].Idle? && !s.workers[a.w].Exited?
    ensures var i := s.workers[a.w].piece;
            && 0 <= i < s.m.total == |s.m.availability|
            && s'.m == Outcome(c, s.m, i, a)
            && s'.workers == s.workers[a.w := Idle]
            && s'.d == s.d
            && M.Inv(s'.m)
            && s'.failures == s.failures + if a.VerifyFails? || a.WriteFails? then 1 else 0
  {
    var i := s.workers[a.w].piece;
    if a.DownloadFails? { M.ReturnedToPendingInv(s.m, i); }
    if a.Complete? { M.MarkedCompleteInv(s.m, i, LengthAt(c.tf, i)); }
    if a.VerifyFails? || a.WriteFails? { M.MarkedFailedInv(s.m, i); }
  }

  /** The actions that leave every piece where it stands. */
  predicate IsQuiet(a: Action) {
    !IsOutcome(a) && !a.Resume? && !a.ClaimPiece?
  }

  lemma StepQuiet(c: Config, s: Swarm, s': Swarm, a: Action)
    requires Tracked(c, s) && IsQuiet(a) && Step(c, s, s', a)
    ensures M.Inv(s'.m) && M.Unmoved(s.m, s'.m) && s'.failures == s.failures
    ensures !a.SetPriority? ==> s'.m.priority == s.m.priority
    ensures forall i :: SomeoneHolds(s.workers, i) <==> SomeoneHolds(s'.workers, i)
  {
    if a.Join? { M.RegisteredInv(s.m, a.bitfield); }
    if a.Leave? { M.UnregisteredInv(s.m, a.bitfield); }
    if a.Announce? { M.IncrementedInv(s.m, a.piece); }
    if a.SetPriority? { M.SettingsInv(s.m, a.indices, true, 0); }
    if a.SetStreaming? { M.SettingsInv(s.m, [], a.enabled, a.window); }
    QuietHolders(c, s, s', a);
  }

  lemma QuietWorkers(c: Config, s: Swarm, s': Swarm, a: Action)
    requires Tracked(c, s) && IsQuiet(a) && Step(c, s, s', a)
    ensures |s.workers| <= |s'.workers|
    ensures forall w, i :: 0 <= w < |s'.workers| ==>
              (Holds(s'.workers[w], i) <==> w < |s.workers| && Holds(s.workers[w], i))
  {
    hide Tracked, M.Inv;
  }

  lemma QuietHolders(c: Config, s: Swarm, s': Swarm, a: Action)
    requires Tracked(c, s) && IsQuiet(a) && Step(c, s, s', a)
    ensures |s.workers| <= |s'.workers|
    ensures forall w, i :: 0 <= w < |s'.workers| ==>
              (Holds(s'.workers[w], i) <==> w < |s.workers| && Holds(s.workers[w], i))
    ensures forall i :: SomeoneHolds(s.workers, i) <==> SomeoneHolds(s'.workers, i)
  {
    hide Tracked, Step, Holds;
    QuietWorkers(c, s, s', a);
    forall i ensures SomeoneHolds(s.workers, i) <==> SomeoneHolds(s'.workers, i) {
      if SomeoneHolds(s.workers, i) {
        var w :| 0 <= w < |s.workers| && Holds(s.workers[w], i);
        assert Holds(s'.workers[w], i);
      }
      if SomeoneHolds(s'.workers, i) {
        var w :| 0 <= w < |s'.workers| && Holds(s'.workers[w], i);
        assert Holds(s.workers[w], i);
      }
    }
  }

  lemma StepClaim(c: Config, s: Swarm, s': Swarm, a: Action)
    requires Tracked(c, s) && a.ClaimPiece? && Step(c, s, s', a)
    ensures M.Inv(s'.m) && s'.d == s.d && s'.failures == s.failures && s'.m.priority == s.m.priority
    ensures a.w < |s.workers| && s.workers[a.w] == Idle
    ensures a.r == -1 ==> M.Unmoved(s.m, s'.m) && s'.workers == s.workers
    ensures a.r != -1 ==> 0 <= a.r < s.m.total == |s.m.availability| && M.Unmoved(M.Claim(s.m, a.r), s'.m)
                          && s'.workers == s.workers[a.w := Downloading(a.r)]
    ensures a.r != -1 ==> a.r in s.m.pending || M.PriorityWanted(s.m, a.available, a.r)
  {
    hide D.Inv, M.LooksSynced, M.SoundIndex, M.FullIndex, M.Rebuilt;
    M.ClaimsInv(s.m, s'.m, a.available, a.r);
    M.SyncExact(s.m);
  }

  lemma StepResume(c: Config, s: Swarm, s': Swarm, a: Action)
    requires Tracked(c, s) && a.Resume? && Step(c, s, s', a)
    ensures 0 <= a.piece < s.m.total == |s.m.availability|
    ensures s'.m == M.MarkedComplete(s.m, a.piece, LengthAt(c.tf, a.piece)) && M.Inv(s'.m)
    ensures s'.workers == s.workers && s'.d == s.d && s'.failures == s.failures
  {
    M.MarkedCompleteInv(s.m, a.piece, LengthAt(c.tf, a.piece));
  }

  lemma StepDisk(c: Config, s: Swarm, s': Swarm, a: Action)
    requires Tracked(c, s) && Step(c, s, s', a)
    ensures D.Inv(c.tf, c.maxCacheSize, s'.d)
    ensures s.d.failed ==> s'.d.failed
    ensures |s'.d.flat| == |s.d.flat|
    ensures !s'.d.failed ==> forall i :: Stored(c.tf, |s.d.flat|, i) ==>
              D.View(c.tf, s'.d, i)
              == if a.WriteAccepted? && Holds(s.workers[a.w], i) then s.workers[a.w].data else D.View(c.tf, s.d, i)
  {
    hide M.Inv, Selects, Verifies, LengthAt, Offset, D.LoopStep;
    if a.WriteAccepted? {
      D.EnqueueChangesView(c.tf, c.maxCacheSize, s.d, s'.d, RequestOf(s.workers[a.w]));
    } else if a.DiskLoop? {
      D.LoopStepKeepsView(c.tf, c.maxCacheSize, s.d, s'.d);
    }
  }

  lemma StepTracked(c: Config, s: Swarm, s': Swarm, a: Action)
    requires Tracked(c, s) && Step(c, s, s', a)
    ensures Tracked(c, s')
  {
    hide Step, M.Inv, D.Inv;
    StepDisk(c, s, s', a);
    if IsOutcome(a) {
      StepOutcome(c, s, s', a);
    } else if a.ClaimPiece? {
      StepClaim(c, s, s', a);
    } else if a.Resume? {
      StepResume(c, s, s', a);
    } else {
      StepQuiet(c, s, s', a);
      QuietHolders(c, s, s', a);
      forall w | 0 <= w < |s'.workers| && !s'.workers[w].Idle? && !s'.workers[w].Exited?
        ensures 0 <= s'.workers[w].piece < s.m.total
      {
        assert Holds(s'.workers[w], s'.workers[w].piece);
      }
    }
  }

  lemma StepNothingLost(c: Config, s: Swarm, s': Swarm, a: Action)
    requires Tracked(c, s) && M.NothingLost(s.m) && Step(c, s, s', a)
    ensures M.NothingLost(s'.m)
  {
    hide Tracked, Step, M.Inv;
    if IsOutcome(a) {
      StepOutcome(c, s, s', a);
      var i := s.workers[a.w].piece;
      M.ReturnLosesNothing(s.m, i);
      M.CompletionLosesNothing(s.m, i, LengthAt(c.tf, i));
      M.FailureLosesNothing(s.m, i);
    } else if a.ClaimPiece? {
      StepClaim(c, s, s', a);
      if a.r != -1 { M.ClaimLosesNothing(s.m, a.r); }
    } else if a.Resume? {
      StepResume(c, s, s', a);
      M.CompletionLosesNothing(s.m, a.piece, LengthAt(c.tf, a.piece));
    } else {
      StepQuiet(c, s, s', a);
    }
  }

  /** Worker w takes piece i up, keeps it or lets it go; the others keep what they hold. */
  lemma HoldersAfter(inProgress: set<int>, inProgress': set<int>, workers: seq<Worker>, w: nat, next: Worker, i: int)
    requires w < |workers| && (workers[w].Idle? || Holds(workers[w], i))
    requires inProgress' <= inProgress + {i} && (i in inProgress' ==> Holds(next, i))
    requires forall j :: j in inProgress ==> SomeoneHolds(workers, j)
    ensures forall j :: j in inProgress' ==> SomeoneHolds(workers[w := next], j)
  {
    var workers' := workers[w := next];
    forall j | j in inProgress' ensures SomeoneHolds(workers', j) {
      if j == i {
        assert Holds(workers'[w], i);
      } else {
        var v :| 0 <= v < |workers| && Holds(workers[v], j);
        assert Holds(workers'[v], j);
      }
    }
  }

  lemma StepInProgressHeld(c: Config, s: Swarm, s': Swarm, a: Action)
    requires Tracked(c, s) && InProgressHeld(s.m, s.workers) && Step(c, s, s', a)
    ensures InProgressHeld(s'.m, s'.workers)
  {
    hide Tracked, Step, M.Inv;
    if IsOutcome(a) {
      StepOutcome(c, s, s', a);
      HoldersAfter(s.m.inProgress, s'.m.inProgress, s.workers, a.w, Idle, s.workers[a.w].piece);
    } else if a.ClaimPiece? {
      StepClaim(c, s, s', a);
      if a.r != -1 {
        HoldersAfter(s.m.inProgress, s'.m.inProgress, s.workers, a.w, Downloading(a.r), a.r);
      }
    } else if a.Resume? {
      StepResume(c, s, s', a);
    } else {
      StepQuiet(c, s, s', a);
    }
  }

  lemma CompletionCounted(tf: Torrent, m: M.Manager, i: int)
    requires Valid(tf) && 0 <= i < PieceCount(tf) && i < |m.availability|
    requires m.downloaded == SumOfPieces(tf, m.completed)
    ensures var m' := M.MarkedComplete(m, i, LengthAt(tf, i));
            m'.downloaded == SumOfPieces(tf, m'.completed) && m.completed <= m'.completed
  {
    hide SumOfPieces;
    if i !in m.completed { SumOfPiecesAdd(tf, m.completed, i); }
  }

  lemma OutcomeCounted(c: Config, m: M.Manager, i: int, a: Action)
    requires Valid(c.tf) && 0 <= i < PieceCount(c.tf) && i < |m.availability| && IsOutcome(a)
    requires m.downloaded == SumOfPieces(c.tf, m.completed)
    ensures var m' := Outcome(c, m, i, a);
            m'.downloaded == SumOfPieces(c.tf, m'.completed) && m.completed <= m'.completed
  {
    hide SumOfPieces;
    CompletionCounted(c.tf, m, i);
  }

  lemma StepDownloaded(c: Config, s: Swarm, s': Swarm, a: Action)
    requires Tracked(c, s) && Step(c, s, s', a)
    requires s.m.downloaded == SumOfPieces(c.tf, s.m.completed)
    ensures s'.m.downloaded == SumOfPieces(c.tf, s'.m.completed)
    ensures s.m.completed <= s'.m.completed
  {
    PlacesInRange(c, s);
    hide Tracked, Step, M.Inv, SumOfPieces, Valid, Outcome, M.MarkedComplete;
    if IsOutcome(a) {
      StepOutcome(c, s, s', a);
      OutcomeCounted(c, s.m, s.workers[a.w].piece, a);
    } else if a.ClaimPiece? {
      StepClaim(c, s, s', a);
    } else if a.Resume? {
      StepResume(c, s, s', a);
      CompletionCounted(c.tf, s.m, a.piece);
    } else {
      StepQuiet(c, s, s', a);
    }
  }

  // ---------- what will be found on disk verifies ----------

  /** Newest data verifies whenever some verified data is in flight, or the disk already holds it. */
  lemma ViewVerifies(c: Config, d: D.Disk, i: int)
    requires D.Inv(c.tf, c.maxCacheSize, d) && AllVerify(c, d) && Stored(c.tf, |d.flat|, i)
    requires Verifies(c.tf, c.sha1, i, D.PieceOnDisk(c.tf, d.flat, i))
    ensures Verifies(c.tf, c.sha1, i, D.View(c.tf, d, i))
  {
    LatestIsMember(d.queue, i);
    LatestIsMember(d.batch, i);
  }

  lemma {:induction false} LatestIsMember(reqs: seq<D.Request>, i: int)
    ensures D.Latest(reqs, i) != [] ==>
              exists k :: 0 <= k < |reqs| && reqs[k].index == i && D.Latest(reqs, i) == [reqs[k].data]
  {
    if reqs != [] && reqs[|reqs| - 1].index != i {
      var init := reqs[..|reqs| - 1];
      LatestIsMember(init, i);
      assert forall k :: 0 <= k < |init| ==> init[k] == reqs[k];
    }
  }

  lemma DequeueKeepsVerified(c: Config, d: D.Disk, d': D.Disk)
    requires AllVerify(c, d) && D.Dequeue(d, d', c.maxCacheSize)
    ensures AllVerify(c, d')
  {
  }

  lemma LoopKeepsVerified(c: Config, d: D.Disk, d': D.Disk)
    requires AllVerify(c, d) && D.LoopStep(c.tf, c.maxCacheSize, d, d')
    ensures AllVerify(c, d')
  {
    if D.Dequeue(d, d', c.maxCacheSize) { DequeueKeepsVerified(c, d, d'); }
  }

  lemma StepAllVerify(c: Config, s: Swarm, s': Swarm, a: Action)
    requires Tracked(c, s) && Intact(c, s) && Step(c, s, s', a)
    ensures AllVerify(c, s'.d)
    ensures forall w :: 0 <= w < |s'.workers| && s'.workers[w].Verified? ==>
              Verifies(c.tf, c.sha1, s'.workers[w].piece, s'.workers[w].data)
  {
    hide Tracked, M.Inv, D.Inv, D.View, Selects, Verifies, LengthAt, PieceCount, Outcome;
    if a.DiskLoop? { LoopKeepsVerified(c, s.d, s'.d); }
  }

  lemma StepWritten(c: Config, s: Swarm, s': Swarm, a: Action, w: nat, i: int)
    requires Tracked(c, s) && Step(c, s, s', a) && w < |s'.workers| && s'.workers[w] == Written(i)
    ensures w < |s.workers|
    ensures s.workers[w] == Written(i) || (a.WriteAccepted? && w == a.w && Holds(s.workers[a.w], i))
  {
    hide Tracked, M.Inv, Selects;
  }

  lemma CompletedWasWritten(c: Config, s: Swarm, s': Swarm, a: Action)
    requires Tracked(c, s) && a.Complete? && Step(c, s, s', a)
    ensures a.w < |s.workers| && s.workers[a.w].Written?
  {
  }

  lemma StepCompleted(c: Config, s: Swarm, s': Swarm, a: Action, i: int)
    requires Tracked(c, s) && Step(c, s, s', a) && i in s'.m.completed
    ensures i in s.m.completed || (a.Complete? && a.w < |s.workers| && s.workers[a.w] == Written(i))
            || (a.Resume? && a.piece == i)
  {
    hide Tracked, Step, M.Inv;
    if IsOutcome(a) {
      StepOutcome(c, s, s', a);
      if a.Complete? { CompletedWasWritten(c, s, s', a); }
    } else if a.ClaimPiece? {
      StepClaim(c, s, s', a);
    } else if a.Resume? {
      StepResume(c, s, s', a);
    } else {
      StepQuiet(c, s, s', a);
    }
  }

  /** A promise is only made by an accepted write or by finding the piece on disk. */
  lemma StepPromised(c: Config, s: Swarm, s': Swarm, a: Action, i: int)
    requires Tracked(c, s) && Step(c, s, s', a) && Promised(s', i)
    ensures Promised(s, i) || (a.WriteAccepted? && Holds(s.workers[a.w], i)) || (a.Resume? && a.piece == i)
  {
    hide Tracked, Step, Holds;
    if i in s'.m.completed {
      StepCompleted(c, s, s', a, i);
    } else {
      var w :| 0 <= w < |s'.workers| && s'.workers[w] == Written(i);
      StepWritten(c, s, s', a, w, i);
    }
  }

  lemma StepIntact(c: Config, s: Swarm, s': Swarm, a: Action)
    requires Tracked(c, s) && Tracked(c, s') && Intact(c, s) && Step(c, s, s', a)
    ensures Intact(c, s')
  {
    StepAllVerify(c, s, s', a);
    StepDisk(c, s, s', a);
    if !s'.d.failed {
      forall i | Stored(c.tf, |s'.d.flat|, i) && Promised(s', i)
        ensures Verifies(c.tf, c.sha1, i, D.View(c.tf, s'.d, i))
      {
        StepPromised(c, s, s', a, i);
        if a.Resume? && a.piece == i { ViewVerifies(c, s.d, i); }
      }
    }
  }

  lemma StepInvariant(c: Config, s: Swarm, s': Swarm, a: Action)
    requires Invariant(c, s) && Step(c, s, s', a)
    ensures Invariant(c, s')
  {
    StepTracked(c, s, s', a);
    StepNothingLost(c, s, s', a);
    StepInProgressHeld(c, s, s', a);
    StepDownloaded(c, s, s', a);
    StepIntact(c, s, s', a);
  }

  // ---------- whole runs ----------

  /** A fresh manager and writer over files of any size, whatever they hold. */
  ghost predicate Init(c: Config, s: Swarm) {
    && Valid(c.tf)
    && s == Swarm(M.NewManager(PieceCount(c.tf)), s.d, [], 0)
    && D.Fresh(s.d)
  }

  /** Consecutive states are joined by steps. (A step is only defined from a tracked state; every
      state of a run turns out to be one.) */
  ghost predicate Run(c: Config, states: seq<Swarm>, actions: seq<Action>) {
    && |states| == |actions| + 1
    && Init(c, states[0])
    && forall k :: 0 <= k < |actions| ==> Tracked(c, states[k]) ==> Step(c, states[k], states[k + 1], actions[k])
  }

  lemma ExtendRun(c: Config, states: seq<Swarm>, actions: seq<Action>, s': Swarm, a: Action)
    requires Run(c, states, actions)
    requires var s := states[|actions|]; Tracked(c, s) ==> Step(c, s, s', a)
    ensures Run(c, states + [s'], actions + [a])
  {
    var all, acts := states + [s'], actions + [a];
    forall k | 0 <= k < |acts| && Tracked(c, all[k]) ensures Step(c, all[k], all[k + 1], acts[k]) {
      if k < |actions| { assert all[k] == states[k] && all[k + 1] == states[k + 1] && acts[k] == actions[k]; }
    }
  }

  lemma InitInvariant(c: Config, s: Swarm)
    requires Init(c, s)
    ensures Invariant(c, s)
  {
    PiecesTile(c.tf, 0);
    M.NewManagerInv(PieceCount(c.tf));
    SumOfNone(c.tf, PieceCount(c.tf));
  }

  lemma {:induction false} SumOfNone(tf: Torrent, n: nat)
    ensures SumOver(tf, {}, n) == 0
  {
    if n > 0 { SumOfNone(tf, n - 1); }
  }

  /** The invariant holds in every state of every run. */
  lemma {:induction false} RunInvariant(c: Config, states: seq<Swarm>, actions: seq<Action>, k: nat)
    requires Run(c, states, actions) && k < |states|
    ensures Invariant(c, states[k])
  {
    if k == 0 {
      InitInvariant(c, states[0]);
    } else {
      RunInvariant(c, states, actions, k - 1);
      StepInvariant(c, states[k - 1], states[k], actions[k - 1]);
    }
  }

  /** End to end: however workers, writer loop, resume, priorities and close interleave, and
      whatever the size of the files, once the loop has ended without a disk error a completed piece
      is intact on disk exactly when the files have room for it; when they are as long as the
      torrent that is every completed piece. */
  lemma EndToEndIntegrity(c: Config, states: seq<Swarm>, actions: seq<Action>, k: nat, i: int)
    requires Run(c, states, actions) && k < |states|
    requires states[k].d.phase == D.Done && !states[k].d.failed
    requires i in states[k].m.completed
    ensures 0 <= i < PieceCount(c.tf)
    ensures IntactOnDisk(c.tf, c.sha1, states[k].d.flat, i)
       <==> Offset(c.tf, i) + LengthAt(c.tf, i) <= |states[0].d.flat|
    ensures c.tf.length <= |states[0].d.flat| ==> IntactOnDisk(c.tf, c.sha1, states[k].d.flat, i)
  {
    var s := states[k];
    RunInvariant(c, states, actions, k);
    RunSize(c, states, actions, k);
    assert i in Indices(s.m.total);
    assert Promised(s, i);
    PiecesTile(c.tf, i);
    if Stored(c.tf, |s.d.flat|, i) {
      D.DoneIsOnDisk(c.tf, c.maxCacheSize, s.d, i);
    }
  }

  /** No run changes the size of the files. */
  lemma {:induction false} RunSize(c: Config, states: seq<Swarm>, actions: seq<Action>, k: nat)
    requires Run(c, states, actions) && k < |states|
    ensures |states[k].d.flat| == |states[0].d.flat|
  {
    if k > 0 {
      RunSize(c, states, actions, k - 1);
      RunInvariant(c, states, actions, k - 1);
      StepDisk(c, states[k - 1], states[k], actions[k - 1]);
    }
  }

  /** Completed pieces stay completed. */
  lemma {:induction false} CompletedOnlyGrows(c: Config, states: seq<Swarm>, actions: seq<Action>, j: nat, k: nat)
    requires Run(c, states, actions) && j <= k < |states|
    ensures states[j].m.completed <= states[k].m.completed
    decreases k - j
  {
    if j < k {
      CompletedOnlyGrows(c, states, actions, j, k - 1);
      RunInvariant(c, states, actions, k - 1);
      StepDownloaded(c, states[k - 1], states[k], actions[k - 1]);
    }
  }

  /** No piece is lost in any run, and none is left in progress once every worker has exited. */
  lemma NoPieceLost(c: Config, states: seq<Swarm>, actions: seq<Action>, k: nat, i: int)
    requires Run(c, states, actions) && k < |states| && 0 <= i < PieceCount(c.tf)
    ensures var m := states[k].m;
            && (i in m.pending || i in m.inProgress || i in m.completed || i in m.permanentlyFailed)
            && !(i in m.pending && i in m.inProgress)
            && (i in m.permanentlyFailed <==> M.Attempts(m, i) > m.maxRetries)
            && (i in m.inProgress ==> SomeoneHolds(states[k].workers, i))
    ensures (forall w :: 0 <= w < |states[k].workers| ==> states[k].workers[w].Exited?)
            ==> states[k].m.inProgress == {}
  {
    RunInvariant(c, states, actions, k);
  }

  /** Downloaded is exactly the size of what is complete; it is the whole torrent iff all pieces
      are complete, which is what IsComplete reports when nothing was given up. */
  lemma ByteAccounting(c: Config, states: seq<Swarm>, actions: seq<Action>, k: nat)
    requires Run(c, states, actions) && k < |states|
    ensures var m := states[k].m;
            && m.downloaded == SumOfPieces(c.tf, m.completed)
            && 0 <= m.downloaded <= c.tf.length
            && (m.downloaded == c.tf.length <==> m.completed == Indices(PieceCount(c.tf)))
            && (M.IsComplete(m) <==> m.downloaded == c.tf.length && m.permanentlyFailed == {})
  {
    RunInvariant(c, states, actions, k);
    var m := states[k].m;
    PiecesTile(c.tf, 0);
    SumOfPiecesBound(c.tf, m.completed);
    SizeOfIndices(m.total);
    if |m.completed| == m.total {
      M.SubsetSameSize(m.completed, Indices(m.total));
    }
  }
}
