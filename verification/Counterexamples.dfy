/** Runs of the whole system in which a property one might expect does not hold. */
module Counterexamples {
  import opened Bytes
  import opened Pieces
  import opened Swarm
  import opened Ownership
  import opened Runs
  import D = DiskModel
  import I = Metainfo
  import M = ManagerModel
  import S = Storage
  import W = Wrappers

  /** A one-byte torrent with no hash to its name, on files of the given content. */
  ghost function Tiny(pieces: seq<byte>): Config {
    Config(Torrent(1, 1, pieces), (x: seq<byte>) => seq(HASH_SIZE, _ => 0), 1)
  }

  /** The playback wants the one piece, and n workers are idle. */
  lemma PrioritySet(n: nat) returns (c: Config, states: seq<Swarm>, actions: seq<Action>)
    ensures c == Tiny([]) && Run(c, states, actions)
    ensures var s := states[|actions|];
            && s.workers == seq(n, _ => Idle) && s.failures == 0
            && 0 in s.m.priority && 0 !in s.m.completed && |s.m.availability| == 1
  {
    c := Tiny([]);
    states, actions := StartRun(c, [], n);
    var s := states[n];
    var s1 := s.(m := M.WithPriority(s.m, [0]));
    assert 0 in [0];
    states, actions := Extended(c, states, actions, s1, SetPriority([0]));
  }

  lemma PriorityClaimed(c: Config, s: Swarm, s': Swarm, w: nat)
    requires 0 in s.m.priority && 0 !in s.m.completed && |s.m.availability| == 1
    requires w < |s.workers| && s.workers[w] == Idle
    requires s' == s.(m := M.Claim(s.m, 0), workers := s.workers[w := Downloading(0)])
    ensures Tracked(c, s) ==> Step(c, s, s', ClaimPiece(w, [true], 0))
  {
    if Tracked(c, s) { assert Selects(s.m, s'.m, [true], 0); }
  }

  /** With a priority set, two workers come to hold the same piece. */
  lemma PriorityShares() returns (c: Config, states: seq<Swarm>, actions: seq<Action>)
    ensures Run(c, states, actions)
    ensures var s := states[|actions|];
            |s.workers| == 2 && Holds(s.workers[0], 0) && Holds(s.workers[1], 0) && !SinglyHeld(s)
  {
    hide Tracked, Step, Run;
    c, states, actions := PrioritySet(2);
    var s := states[|actions|];
    var s1 := s.(m := M.Claim(s.m, 0), workers := s.workers[0 := Downloading(0)]);
    PriorityClaimed(c, s, s1, 0);
    states, actions := Extended(c, states, actions, s1, ClaimPiece(0, [true], 0));
    var s2 := s1.(m := M.Claim(s1.m, 0), workers := s1.workers[1 := Downloading(0)]);
    PriorityClaimed(c, s1, s2, 1);
    states, actions := Extended(c, states, actions, s2, ClaimPiece(1, [true], 0));
    Shared(s2, 0, 1, 0);
  }

  lemma Shared(s: Swarm, v: nat, w: nat, i: int)
    requires v < w < |s.workers| && Holds(s.workers[v], i) && Holds(s.workers[w], i)
    ensures !SinglyHeld(s)
  {
  }

  /** One worker, idle, with the one piece a priority. */
  ghost predicate Demanded(s: Swarm) {
    && s.workers == [Idle] && 0 in s.m.priority && 0 !in s.m.completed && |s.m.availability| == 1
  }

  lemma EmptyDataFails(c: Config, s: Swarm, s': Swarm)
    requires c == Tiny([]) && s.workers == [Downloaded(0, [])] && |s.m.availability| == 1
    requires s' == s.(m := M.MarkedFailed(s.m, 0), workers := [Idle], failures := s.failures + 1)
    ensures Tracked(c, s) ==> Step(c, s, s', VerifyFails(0))
  {
  }

  /** With a priority set, a piece fails any number of times: given up, it is claimed again. */
  lemma PriorityFailsForever(n: nat) returns (c: Config, states: seq<Swarm>, actions: seq<Action>)
    ensures c == Tiny([]) && PieceCount(c.tf) == 1
    ensures Run(c, states, actions) && Demanded(states[|actions|]) && states[|actions|].failures == n
  {
    if n == 0 {
      c, states, actions := PrioritySet(1);
    } else {
      c, states, actions := PriorityFailsForever(n - 1);
      var s := states[|actions|];
      var s1 := s.(m := M.Claim(s.m, 0), workers := [Downloading(0)]);
      var s2 := s1.(workers := [Downloaded(0, [])]);
      var s3 := s2.(m := M.MarkedFailed(s2.m, 0), workers := [Idle], failures := s2.failures + 1);
      PriorityClaimed(c, s, s1, 0);
      states, actions := Extended(c, states, actions, s1, ClaimPiece(0, [true], 0));
      states, actions := Extended(c, states, actions, s2, DownloadSucceeds(0, []));
      EmptyDataFails(c, s2, s3);
      states, actions := Extended(c, states, actions, s3, VerifyFails(0));
    }
  }

  /** An idle worker is handed the only piece. */
  lemma OnlyPieceClaimed(c: Config, s: Swarm) returns (s': Swarm)
    requires Tracked(c, s) && s.workers == [Idle] && s.m.total == 1 && 0 in s.m.pending
    ensures Step(c, s, s', ClaimPiece(0, [true], 0))
    ensures s'.workers == [Downloading(0)] && s'.d == s.d && |s'.m.availability| == 1 && s'.m.completed == s.m.completed
  {
    assert M.IsRarest(s.m, [true], 0);
    ClaimExact(c, s, 0, [true], 0);
    s' :| Step(c, s, s', ClaimPiece(0, [true], 0));
    StepClaim(c, s, s', ClaimPiece(0, [true], 0));
  }

  /** Resume finds the only piece on disk: it is complete, and still pending. */
  lemma ResumedStillPending() returns (c: Config, states: seq<Swarm>, actions: seq<Action>)
    ensures c == Tiny(seq(HASH_SIZE, _ => 0)) && Run(c, states, actions) && NoPriorities(actions)
    ensures var s := states[|actions|];
            && 0 in s.m.completed && 0 in s.m.pending && !Partitioned(s.m)
            && s.workers == [Idle] && s.m.total == 1
  {
    c := Tiny(seq(HASH_SIZE, _ => 0));
    states, actions := StartRun(c, [0], 1);
    var s := states[1];
    assert c.tf.pieces[0..HASH_SIZE] == c.tf.pieces;
    var s1 := s.(m := M.MarkedComplete(s.m, 0, 1));
    states, actions := Extended(c, states, actions, s1, Resume(0));
  }

  /** So without any priority a worker is handed a piece that is complete. */
  lemma CompletedClaimedAgain() returns (c: Config, states: seq<Swarm>, actions: seq<Action>)
    ensures Run(c, states, actions) && NoPriorities(actions)
    ensures var s := states[|actions|]; s.workers == [Downloading(0)] && 0 in s.m.completed
  {
    c, states, actions := ResumedStillPending();
    var s := states[|actions|];
    RunInvariant(c, states, actions, |actions|);
    var s1 := OnlyPieceClaimed(c, s);
    states, actions := Extended(c, states, actions, s1, ClaimPiece(0, [true], 0));
  }

  /** A worker is handed the only piece. */
  lemma Claimed(c: Config) returns (states: seq<Swarm>, actions: seq<Action>)
    requires c.tf.length == 1 && c.tf.pieceLength == 1
    ensures Run(c, states, actions) && NoPriorities(actions) && states[0].d.flat == []
    ensures var s := states[|actions|];
            && s.workers == [Downloading(0)] && s.d == Start(c, []).d
            && |s.m.availability| == 1 && s.m.completed == {}
  {
    states, actions := StartRun(c, [], 1);
    RunInvariant(c, states, actions, 1);
    var s2 := OnlyPieceClaimed(c, states[1]);
    states, actions := Extended(c, states, actions, s2, ClaimPiece(0, [true], 0));
  }

  /** It downloads the byte, and that verifies. */
  lemma VerifiedByte() returns (c: Config, states: seq<Swarm>, actions: seq<Action>)
    ensures c == Tiny(seq(HASH_SIZE, _ => 0)) && Run(c, states, actions) && NoPriorities(actions)
    ensures states[0].d.flat == []
    ensures var s := states[|actions|];
            && s.workers == [Verified(0, [0])] && s.d == Start(c, []).d
            && |s.m.availability| == 1 && s.m.completed == {}
  {
    c := Tiny(seq(HASH_SIZE, _ => 0));
    states, actions := Claimed(c);
    var s := states[|actions|];
    var s3 := s.(workers := [Downloaded(0, [0])]);
    states, actions := Extended(c, states, actions, s3, DownloadSucceeds(0, [0]));
    var s4 := s3.(workers := [Verified(0, [0])]);
    states, actions := Extended(c, states, actions, s4, VerifyPasses(0));
  }

  /** The worker's half of a lost piece: the only piece is completed and its data is queued. */
  lemma CompletedAndQueued() returns (c: Config, states: seq<Swarm>, actions: seq<Action>)
    ensures c == Tiny(seq(HASH_SIZE, _ => 0)) && Run(c, states, actions) && NoPriorities(actions)
    ensures states[0].d.flat == []
    ensures var s := states[|actions|];
            0 in s.m.completed && s.d == Start(c, []).d.(queue := [D.Request(0, [0])])
  {
    c, states, actions := VerifiedByte();
    var s4 := states[|actions|];
    assert D.Fits(c.tf, D.Request(0, [0]));
    var s5 := s4.(d := s4.d.(queue := [D.Request(0, [0])]), workers := [Written(0)]);
    states, actions := Extended(c, states, actions, s5, WriteAccepted(0));
    var s6 := s5.(m := M.MarkedComplete(s5.m, 0, 1), workers := [Idle]);
    states, actions := Extended(c, states, actions, s6, Complete(0));
  }

  /** The channel is closed and the data on its way to the disk. */
  lemma ClosedAndFlushing() returns (c: Config, states: seq<Swarm>, actions: seq<Action>)
    ensures c == Tiny(seq(HASH_SIZE, _ => 0)) && Run(c, states, actions) && NoPriorities(actions)
    ensures var s := states[|actions|];
            0 in s.m.completed && s.d == Start(c, []).d.(closed := true, batch := [D.Request(0, [0])])
    ensures states[0].d.flat == []
  {
    c, states, actions := CompletedAndQueued();
    var s := states[|actions|];
    var s1 := s.(d := s.d.(closed := true));
    states, actions := Extended(c, states, actions, s1, CloseDisk);
    var req := D.Request(0, [0]);
    var s2 := s1.(d := s1.d.(queue := [], batch := [req]));
    assert D.IsBatch([req], map[0 := [0]]) by { assert [req][0].index == 0; }
    states, actions := Extended(c, states, actions, s2, DiskLoop);
  }

  /** A metainfo with both a length, of one byte, and a file list, of one empty file: the torrent is
      longer than its files. */
  lemma BothPresent()
    ensures I.Parsed(W.Some(1), W.Some([0])) == W.Some(I.Lengths(1, [0]))
    ensures S.Sum(S.FileLengths([0], 1)) == 0
  {
    assert [0][..0] == [];
    assert S.Sum([0]) == 0;
  }

  /** On the files such a metainfo leads to, a piece can be complete, the close without error, and
      the data nowhere. */
  lemma LostPastTheEnd() returns (c: Config, states: seq<Swarm>, actions: seq<Action>)
    ensures Run(c, states, actions) && NoPriorities(actions)
    ensures I.Parsed(W.Some(1), W.Some([0])) == W.Some(I.Lengths(c.tf.length, [0]))
    ensures |states[0].d.flat| == S.Sum(S.FileLengths([0], c.tf.length))
    ensures var s := states[|actions|];
            0 in s.m.completed && s.d.phase == D.Done && !s.d.failed && !IntactOnDisk(c.tf, c.sha1, s.d.flat, 0)
  {
    BothPresent();
    c, states, actions := ClosedAndFlushing();
    var s2 := states[|actions|];
    var s3 := s2.(d := s2.d.(batch := []));
    assert D.WriteNext(c.tf, s2.d, s3.d);
    states, actions := Extended(c, states, actions, s3, DiskLoop);
    var s4 := s3.(d := s3.d.(phase := D.LastFlush));
    assert D.BeginLastFlush(s3.d, s4.d);
    states, actions := Extended(c, states, actions, s4, DiskLoop);
    var s5 := s4.(d := s4.d.(phase := D.Done));
    assert D.Finish(s4.d, s5.d);
    states, actions := Extended(c, states, actions, s5, DiskLoop);
  }
}
