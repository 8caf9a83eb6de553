/** Who holds a piece, how often it may fail, and when a complete one is downloaded again: what every
    run keeps, what runs without playback priorities keep, and exactly which steps break it. */
module Ownership {
  import opened Pieces
  import opened Swarm
  import M = ManagerModel

  // ---------- who holds a piece ----------

  /** No two workers hold the same piece, and what is held is not pending. */
  ghost predicate SinglyHeld(s: Swarm) {
    && (forall w, i :: 0 <= w < |s.workers| && Holds(s.workers[w], i) ==> i !in s.m.pending)
    && (forall v, w, i :: 0 <= v < w < |s.workers| ==> !(Holds(s.workers[v], i) && Holds(s.workers[w], i)))
  }

  /** The claim draws, among the playback priorities, one that is in someone's hands. */
  ghost predicate SharesPiece(s: Swarm, a: Action) {
    a.ClaimPiece? && M.PriorityWanted(s.m, a.available, a.r) && SomeoneHolds(s.workers, a.r)
  }

  /** Single holding is lost by exactly the claims that draw a held priority. */
  lemma StepSinglyHeld(c: Config, s: Swarm, s': Swarm, a: Action)
    requires Tracked(c, s) && SinglyHeld(s) && Step(c, s, s', a)
    ensures SinglyHeld(s') <==> !SharesPiece(s, a)
  {
    hide Tracked, Step, M.Inv;
    if IsOutcome(a) {
      StepOutcome(c, s, s', a);
      OutcomeSinglyHeld(s, s', a.w, s.workers[a.w].piece);
    } else if a.ClaimPiece? {
      StepClaim(c, s, s', a);
      if a.r != -1 {
        ClaimSinglyHeld(s, s', a.w, a.r);
      }
    } else if a.Resume? {
      StepResume(c, s, s', a);
    } else {
      StepQuiet(c, s, s', a);
      QuietHolders(c, s, s', a);
    }
  }

  /** Nothing has happened yet: nobody holds anything, nothing has failed or was resumed. */
  lemma InitOwned(c: Config, s: Swarm)
    requires Init(c, s)
    ensures Owned(s) && HeldInProgress(s) && NothingRedone(s) && Partitioned(s.m)
  {
    NoAttempts(s.m, s.m.total);
  }

  lemma OutcomeSinglyHeld(s: Swarm, s': Swarm, w: nat, i: int)
    requires SinglyHeld(s) && w < |s.workers| && Holds(s.workers[w], i)
    requires s'.workers == s.workers[w := Idle] && s'.m.pending <= s.m.pending + {i}
    ensures SinglyHeld(s')
  {
  }

  lemma ClaimSinglyHeld(s: Swarm, s': Swarm, w: nat, r: int)
    requires SinglyHeld(s) && w < |s.workers| && s.workers[w] == Idle
    requires s'.workers == s.workers[w := Downloading(r)] && s'.m.pending == s.m.pending - {r}
    ensures SinglyHeld(s') <==> !SomeoneHolds(s.workers, r)
    ensures SomeoneHolds(s.workers, r) ==> r !in s.m.pending
  {
    assert Holds(s'.workers[w], r);
    if SomeoneHolds(s.workers, r) {
      var v :| 0 <= v < |s.workers| && Holds(s.workers[v], r);
      assert v != w && Holds(s'.workers[v], r);
    } else {
      assert forall v :: 0 <= v < |s.workers| ==> !Holds(s.workers[v], r);
    }
  }

  /** Which pieces NextPiece may hand out: a wanted priority, the first of the window, a rarest one. */
  ghost predicate CanBeNext(m: M.Manager, available: seq<bool>, i: int)
    requires M.Inv(m)
  {
    M.PriorityWanted(m, available, i) || M.IsFirstInWindow(m, available, i) || M.IsRarest(m, available, i)
  }

  /** An idle worker can be handed exactly these. */
  lemma ClaimExact(c: Config, s: Swarm, w: nat, available: seq<bool>, r: int)
    requires Tracked(c, s) && w < |s.workers| && s.workers[w] == Idle && r != -1
    ensures (exists s' :: Step(c, s, s', ClaimPiece(w, available, r))) <==> CanBeNext(s.m, available, r)
  {
    if CanBeNext(s.m, available, r) {
      var m' := if M.PriorityWanted(s.m, available, r) then M.Claim(s.m, r) else M.Claim(M.Synced(s.m), r);
      assert Selects(s.m, m', available, r);
      var s' := s.(m := m', workers := s.workers[w := Downloading(r)]);
      assert Step(c, s, s', ClaimPiece(w, available, r));
    }
  }

  /** Before the call: a claim can end with two workers on one piece exactly if some wanted priority
      the peer offers is already held. */
  lemma ClaimSharesExactly(c: Config, s: Swarm, w: nat, available: seq<bool>)
    requires Tracked(c, s) && SinglyHeld(s) && w < |s.workers| && s.workers[w] == Idle
    ensures (exists s', r :: Step(c, s, s', ClaimPiece(w, available, r)) && !SinglyHeld(s'))
       <==> (exists i :: M.PriorityWanted(s.m, available, i) && SomeoneHolds(s.workers, i))
  {
    if i :| M.PriorityWanted(s.m, available, i) && SomeoneHolds(s.workers, i) {
      ClaimExact(c, s, w, available, i);
      var s' :| Step(c, s, s', ClaimPiece(w, available, i));
      StepSinglyHeld(c, s, s', ClaimPiece(w, available, i));
    }
    forall s', r | Step(c, s, s', ClaimPiece(w, available, r)) && !SinglyHeld(s')
      ensures M.PriorityWanted(s.m, available, r) && SomeoneHolds(s.workers, r)
    {
      StepSinglyHeld(c, s, s', ClaimPiece(w, available, r));
    }
  }

  /** Some worker is idle, and some priority that is not complete is held. */
  ghost predicate AtRisk(s: Swarm) {
    && (exists w :: 0 <= w < |s.workers| && s.workers[w] == Idle)
    && (exists i :: i in s.m.priority && i !in s.m.completed && SomeoneHolds(s.workers, i))
  }

  /** A state's next step can break single holding exactly if the state is at risk. */
  lemma RiskExact(c: Config, s: Swarm)
    requires Tracked(c, s) && SinglyHeld(s)
    ensures (exists s', a :: Step(c, s, s', a) && !SinglyHeld(s')) <==> AtRisk(s)
  {
    hide Tracked, Step, SinglyHeld;
    PlacesInRange(c, s);
    if AtRisk(s) {
      var w :| 0 <= w < |s.workers| && s.workers[w] == Idle;
      var i :| i in s.m.priority && i !in s.m.completed && SomeoneHolds(s.workers, i);
      var available := seq(i + 1, _ => true);
      assert M.PriorityWanted(s.m, available, i);
      ClaimSharesExactly(c, s, w, available);
      var s', r :| Step(c, s, s', ClaimPiece(w, available, r)) && !SinglyHeld(s');
    }
    forall s', a | Step(c, s, s', a) && !SinglyHeld(s') ensures AtRisk(s) {
      StepSinglyHeld(c, s, s', a);
      StepClaim(c, s, s', a);
    }
  }

  /** So a run in which nothing has been shared yet has a next step that shares a piece exactly if
      its last state is at risk. */
  lemma SharingNext(c: Config, states: seq<Swarm>, actions: seq<Action>)
    requires Run(c, states, actions) && SinglyHeld(states[|actions|])
    ensures (exists s', a :: Run(c, states + [s'], actions + [a]) && !SinglyHeld(s')) <==> AtRisk(states[|actions|])
  {
    var s := states[|actions|];
    RunInvariant(c, states, actions, |actions|);
    RiskExact(c, s);
    if AtRisk(s) {
      var s', a :| Step(c, s, s', a) && !SinglyHeld(s');
      ExtendRun(c, states, actions, s', a);
    }
    forall s', a | Run(c, states + [s'], actions + [a]) && !SinglyHeld(s') ensures AtRisk(s) {
      LastStep(c, states, actions, s', a);
    }
  }

  lemma LastStep(c: Config, states: seq<Swarm>, actions: seq<Action>, s': Swarm, a: Action)
    requires |states| == |actions| + 1 && Run(c, states + [s'], actions + [a]) && Tracked(c, states[|actions|])
    ensures Step(c, states[|actions|], s', a)
  {
    var all := states + [s'];
    assert all[|actions|] == states[|actions|] && all[|actions| + 1] == s' && (actions + [a])[|actions|] == a;
  }

  /** Over whole runs, resume and priorities included: each piece stays in one pair of hands as long
      as, and no longer than, no claim draws a held priority; so a run whose states are not at risk
      keeps to it. */
  lemma {:induction false} SingleHoldingExact(c: Config, states: seq<Swarm>, actions: seq<Action>, k: nat)
    requires Run(c, states, actions) && k < |states|
    ensures (forall j :: 0 <= j <= k ==> SinglyHeld(states[j]))
       <==> (forall j :: 0 <= j < k ==> !SharesPiece(states[j], actions[j]))
    ensures (forall j :: 0 <= j < k ==> !AtRisk(states[j])) ==> (forall j :: 0 <= j <= k ==> SinglyHeld(states[j]))
  {
    hide Init, Tracked, Step, SinglyHeld, SharesPiece, AtRisk, Intact;
    if k == 0 {
      InitOwned(c, states[0]);
    } else {
      SingleHoldingExact(c, states, actions, k - 1);
      RunInvariant(c, states, actions, k - 1);
      if SinglyHeld(states[k - 1]) {
        StepSinglyHeld(c, states[k - 1], states[k], actions[k - 1]);
        RiskExact(c, states[k - 1]);
      }
    }
  }

  // ---------- what the priorities are ----------

  /** Of the first k actions, the j-th is the latest to set priorities. */
  ghost predicate LatestDemand(actions: seq<Action>, j: int, k: int) {
    && 0 <= j < k <= |actions| && actions[j].SetPriority?
    && forall l :: j < l < k ==> !actions[l].SetPriority?
  }

  lemma StepPriority(c: Config, s: Swarm, s': Swarm, a: Action, i: int)
    requires Tracked(c, s) && Step(c, s, s', a)
    ensures i in s'.m.priority
       <==> if a.SetPriority? then i in a.indices && 0 <= i < s.m.total else i in s.m.priority
  {
    hide Tracked, M.Inv;
    if IsOutcome(a) {
      StepOutcome(c, s, s', a);
    } else if a.ClaimPiece? {
      StepClaim(c, s, s', a);
    } else if a.Resume? {
      StepResume(c, s, s', a);
    } else {
      StepQuiet(c, s, s', a);
    }
  }

  /** Over whole runs: the priorities are the torrent's pieces among the indices of the latest demand,
      and none before the first. */
  lemma {:induction false} PrioritiesExact(c: Config, states: seq<Swarm>, actions: seq<Action>, k: nat, i: int)
    requires Run(c, states, actions) && k < |states|
    ensures i in states[k].m.priority
       <==> 0 <= i < PieceCount(c.tf) && exists j :: LatestDemand(actions, j, k) && i in actions[j].indices
  {
    hide Init, Tracked, Step, Intact;
    if k == 0 {
      InitOwned(c, states[0]);
    } else {
      PrioritiesExact(c, states, actions, k - 1, i);
      RunInvariant(c, states, actions, k - 1);
      PlacesInRange(c, states[k - 1]);
      StepPriority(c, states[k - 1], states[k], actions[k - 1], i);
      DemandNext(actions, k - 1);
    }
  }

  lemma DemandNext(actions: seq<Action>, k: nat)
    requires k < |actions|
    ensures forall j :: LatestDemand(actions, j, k + 1)
              <==> if actions[k].SetPriority? then j == k else LatestDemand(actions, j, k)
  {
    forall j ensures LatestDemand(actions, j, k + 1)
                <==> if actions[k].SetPriority? then j == k else LatestDemand(actions, j, k) {
      if LatestDemand(actions, j, k) && !actions[k].SetPriority? {
        assert forall l :: j < l < k + 1 ==> l == k || !actions[l].SetPriority?;
      }
    }
  }

  /** So a piece drawn as a priority is one of the latest demand, and after an empty demand, or before
      the first, none is drawn. */
  lemma DrawnIsDemanded(c: Config, states: seq<Swarm>, actions: seq<Action>, k: nat, available: seq<bool>, r: int)
    requires Run(c, states, actions) && k < |states| && M.PriorityWanted(states[k].m, available, r)
    ensures exists j :: LatestDemand(actions, j, k) && r in actions[j].indices
    ensures forall j :: LatestDemand(actions, j, k) ==> r in actions[j].indices
  {
    PrioritiesExact(c, states, actions, k, r);
  }

  // ---------- the other settings, and the counts ----------

  /** Claiming a piece changes neither counts nor settings. */
  lemma ClaimSettings(c: Config, s: Swarm, s': Swarm, a: Action)
    requires Tracked(c, s) && a.ClaimPiece? && Step(c, s, s', a)
    ensures s'.m.availability == s.m.availability
    ensures s'.m.streaming == s.m.streaming && s'.m.window == s.m.window
  {
    M.SyncExact(s.m);
    hide D.Inv, M.SoundIndex, M.Synced, M.IsRarest, M.NothingWanted, M.IsFirstInWindow;
  }

  /** How many peers a piece is counted for changes by joins, leaves and announcements only, one at a
      time and never below zero. */
  lemma StepCounts(c: Config, s: Swarm, s': Swarm, a: Action, i: int)
    requires Tracked(c, s) && Step(c, s, s', a) && 0 <= i < s.m.total
    ensures |s'.m.availability| == |s.m.availability| == s.m.total
    ensures var now, was := s'.m.availability[i], s.m.availability[i];
            match a {
              case Join(bf) => now == was + if M.Offered(bf, i) then 1 else 0
              case Leave(_, bf) => now == if M.Offered(bf, i) && was > 0 then was - 1 else was
              case Announce(p) => now == was + if p == i then 1 else 0
              case _ => now == was
            }
  {
    if a.Join? { M.RegisterCounts(s.m, a.bitfield, i); }
    if a.Leave? { M.RegisterCounts(s.m, a.bitfield, i); }
    assert |s.m.availability| == s.m.total;
    if a.ClaimPiece? {
      ClaimSettings(c, s, s', a);
      hide Step;
    }
    hide Tracked, M.Inv;
  }

  /** The streaming switch and window are those last set; a window that is not positive is ignored. */
  lemma StepStreaming(c: Config, s: Swarm, s': Swarm, a: Action)
    requires Tracked(c, s) && Step(c, s, s', a)
    ensures if a.SetStreaming? then
              s'.m.streaming == a.enabled && s'.m.window == if a.window > 0 then a.window else s.m.window
            else s'.m.streaming == s.m.streaming && s'.m.window == s.m.window
  {
    if a.Join? { M.RegisteredInv(s.m, a.bitfield); }
    if a.Leave? { M.UnregisteredInv(s.m, a.bitfield); }
    if a.Announce? { M.IncrementedInv(s.m, a.piece); }
    if a.ClaimPiece? {
      ClaimSettings(c, s, s', a);
      hide Step;
    }
    hide Tracked, M.Inv;
  }

  // ---------- how often pieces fail ----------

  ghost function TotalAttempts(m: M.Manager, n: nat): int {
    if n == 0 then 0 else TotalAttempts(m, n - 1) + M.Attempts(m, n - 1)
  }

  /** No piece failed more often than it takes to give it up, and the failures add up. */
  ghost predicate FailuresCounted(s: Swarm) {
    && s.m.maxRetries == M.DEFAULT_MAX_RETRIES
    && (forall i :: 0 <= i < s.m.total ==> 0 <= M.Attempts(s.m, i) <= s.m.maxRetries + 1)
    && s.failures == TotalAttempts(s.m, s.m.total)
  }

  /** A piece already given up fails again. */
  ghost predicate FailsAgain(s: Swarm, a: Action) {
    && (a.VerifyFails? || a.WriteFails?)
    && a.w < |s.workers| && !s.workers[a.w].Idle? && !s.workers[a.w].Exited?
    && s.workers[a.w].piece in s.m.permanentlyFailed
  }

  lemma {:induction false} TotalAttemptsCounted(m: M.Manager, m': M.Manager, i: int, n: nat)
    requires forall j :: j != i ==> M.Attempts(m', j) == M.Attempts(m, j)
    ensures TotalAttempts(m', n)
         == TotalAttempts(m, n) + if 0 <= i < n then M.Attempts(m', i) - M.Attempts(m, i) else 0
  {
    if n > 0 { TotalAttemptsCounted(m, m', i, n - 1); }
  }

  lemma {:induction false} TotalAttemptsBound(m: M.Manager, n: nat)
    requires n <= m.total
    requires forall i :: 0 <= i < m.total ==> M.Attempts(m, i) <= m.maxRetries + 1
    ensures TotalAttempts(m, n) <= (m.maxRetries + 1) * n
  {
    if n > 0 { TotalAttemptsBound(m, n - 1); }
  }

  lemma OutcomeFailures(c: Config, m: M.Manager, i: int, a: Action)
    requires 0 <= i < m.total == |m.availability| && M.NothingLost(m) && IsOutcome(a)
    requires forall j :: 0 <= j < m.total ==> 0 <= M.Attempts(m, j) <= m.maxRetries + 1
    ensures var m', fails := Outcome(c, m, i, a), a.VerifyFails? || a.WriteFails?;
            && TotalAttempts(m', m.total) == TotalAttempts(m, m.total) + (if fails then 1 else 0)
            && ((forall j :: 0 <= j < m.total ==> 0 <= M.Attempts(m', j) <= m.maxRetries + 1)
                <==> !(fails && i in m.permanentlyFailed))
  {
    var m' := Outcome(c, m, i, a);
    TotalAttemptsCounted(m, m', i, m.total);
    assert forall j :: j != i ==> M.Attempts(m', j) == M.Attempts(m, j);
    assert M.Attempts(m', i) == M.Attempts(m, i) + if a.VerifyFails? || a.WriteFails? then 1 else 0;
  }

  lemma SameAttempts(s: Swarm, s': Swarm)
    requires s'.m.failedAttempts == s.m.failedAttempts && s'.m.maxRetries == s.m.maxRetries
    requires s'.m.total == s.m.total && s'.failures == s.failures
    ensures FailuresCounted(s') <==> FailuresCounted(s)
  {
    TotalAttemptsCounted(s.m, s'.m, -1, s.m.total);
    assert forall i :: M.Attempts(s'.m, i) == M.Attempts(s.m, i);
  }

  /** The count is kept by every step but the failure of a piece already given up. */
  lemma StepFailuresExact(c: Config, s: Swarm, s': Swarm, a: Action)
    requires Tracked(c, s) && M.NothingLost(s.m) && FailuresCounted(s) && Step(c, s, s', a)
    ensures FailuresCounted(s') <==> !FailsAgain(s, a)
  {
    hide Tracked, Step, M.Inv;
    StepRetries(c, s, s', a);
    if IsOutcome(a) {
      StepOutcome(c, s, s', a);
      OutcomeFailures(c, s.m, s.workers[a.w].piece, a);
    } else {
      if a.ClaimPiece? {
        StepClaim(c, s, s', a);
      } else if a.Resume? {
        StepResume(c, s, s', a);
      } else {
        StepQuiet(c, s, s', a);
      }
      SameAttempts(s, s');
    }
  }

  lemma StepRetries(c: Config, s: Swarm, s': Swarm, a: Action)
    requires Tracked(c, s) && Step(c, s, s', a)
    ensures s'.m.maxRetries == s.m.maxRetries && s'.m.total == s.m.total
  {
    hide Tracked, Step, M.Inv;
    if IsOutcome(a) {
      StepOutcome(c, s, s', a);
    } else if a.ClaimPiece? {
      StepClaim(c, s, s', a);
    } else if a.Resume? {
      StepResume(c, s, s', a);
    } else {
      StepQuiet(c, s, s', a);
    }
  }

  lemma {:induction false} NoAttempts(m: M.Manager, n: nat)
    requires m.failedAttempts == map[]
    ensures TotalAttempts(m, n) == 0
  {
    if n > 0 { NoAttempts(m, n - 1); }
  }

  // ---------- runs without playback priorities ----------

  ghost predicate NoPriorities(actions: seq<Action>) {
    forall j :: 0 <= j < |actions| ==> !actions[j].SetPriority?
  }

  /** What is pending or held has not been given up. */
  ghost predicate StillWanted(s: Swarm) {
    && (forall i :: i in s.m.pending ==> i !in s.m.permanentlyFailed)
    && (forall w, i :: 0 <= w < |s.workers| && Holds(s.workers[w], i) ==> i !in s.m.permanentlyFailed)
  }

  ghost predicate Owned(s: Swarm) {
    s.m.priority == {} && SinglyHeld(s) && StillWanted(s) && FailuresCounted(s)
  }

  lemma StepStillWanted(c: Config, s: Swarm, s': Swarm, a: Action)
    requires Tracked(c, s) && SinglyHeld(s) && StillWanted(s) && s.m.priority == {}
    requires !a.SetPriority? && Step(c, s, s', a)
    ensures StillWanted(s') && s'.m.priority == {}
  {
    hide Tracked, Step, M.Inv;
    if IsOutcome(a) {
      StepOutcome(c, s, s', a);
      OutcomeStillWanted(c, s, s', a.w, s.workers[a.w].piece, a);
    } else if a.ClaimPiece? {
      StepClaim(c, s, s', a);
    } else if a.Resume? {
      StepResume(c, s, s', a);
    } else {
      StepQuiet(c, s, s', a);
      QuietHolders(c, s, s', a);
    }
  }

  lemma OutcomeStillWanted(c: Config, s: Swarm, s': Swarm, w: nat, i: int, a: Action)
    requires SinglyHeld(s) && StillWanted(s) && w < |s.workers| && Holds(s.workers[w], i)
    requires 0 <= i < |s.m.availability| && s'.m == Outcome(c, s.m, i, a) && s'.workers == s.workers[w := Idle]
    ensures StillWanted(s')
  {
  }

  lemma StepOwned(c: Config, s: Swarm, s': Swarm, a: Action)
    requires Invariant(c, s) && Owned(s) && !a.SetPriority? && Step(c, s, s', a)
    ensures Owned(s')
  {
    hide Tracked, Step, M.Inv;
    StepSinglyHeld(c, s, s', a);
    StepStillWanted(c, s, s', a);
    if IsOutcome(a) {
      StepOutcome(c, s, s', a);
      assert Holds(s.workers[a.w], s.workers[a.w].piece);
    }
    StepFailuresExact(c, s, s', a);
  }

  /** Without playback priorities, resume at any time included: at most one worker holds a piece, no
      held piece is pending, none held or pending has been given up, and failures are bounded over
      the whole run. */
  lemma {:induction false} SingleHolding(c: Config, states: seq<Swarm>, actions: seq<Action>, k: nat)
    requires Run(c, states, actions) && NoPriorities(actions) && k < |states|
    ensures Owned(states[k])
    ensures states[k].failures <= 4 * PieceCount(c.tf)
  {
    hide Init, Tracked, Step, SinglyHeld, StillWanted, Intact;
    RunInvariant(c, states, actions, k);
    PlacesInRange(c, states[k]);
    if k == 0 {
      InitOwned(c, states[0]);
    } else {
      RunInvariant(c, states, actions, k - 1);
      SingleHolding(c, states, actions, k - 1);
      StepOwned(c, states[k - 1], states[k], actions[k - 1]);
    }
    TotalAttemptsBound(states[k].m, states[k].m.total);
  }

  // ---------- exclusive ownership ----------

  ghost predicate HeldInProgress(s: Swarm) {
    forall w, i :: 0 <= w < |s.workers| && Holds(s.workers[w], i) ==> i in s.m.inProgress
  }

  /** Resume marks a piece some worker is at work on. */
  ghost predicate ResumesHeld(s: Swarm, a: Action) {
    a.Resume? && SomeoneHolds(s.workers, a.piece)
  }

  lemma OutcomeHeldInProgress(s: Swarm, s': Swarm, w: nat, i: int)
    requires SinglyHeld(s) && HeldInProgress(s) && w < |s.workers| && Holds(s.workers[w], i)
    requires s.m.inProgress - {i} <= s'.m.inProgress && s'.workers == s.workers[w := Idle]
    ensures HeldInProgress(s')
  {
    forall v, j | 0 <= v < |s'.workers| && Holds(s'.workers[v], j) ensures j in s'.m.inProgress {
      assert v != w && Holds(s.workers[v], j);
      assert i != j;
    }
  }

  lemma ResumeHeldInProgress(s: Swarm, s': Swarm, i: int)
    requires HeldInProgress(s) && s'.m.inProgress == s.m.inProgress - {i} && s'.workers == s.workers
    ensures HeldInProgress(s') <==> !SomeoneHolds(s.workers, i)
  {
  }

  lemma StepHeldInProgress(c: Config, s: Swarm, s': Swarm, a: Action)
    requires Tracked(c, s) && SinglyHeld(s) && HeldInProgress(s) && Step(c, s, s', a)
    ensures HeldInProgress(s') <==> !ResumesHeld(s, a)
  {
    hide Tracked, Step, M.Inv;
    if IsOutcome(a) {
      StepOutcome(c, s, s', a);
      OutcomeHeldInProgress(s, s', a.w, s.workers[a.w].piece);
    } else if a.ClaimPiece? {
      StepClaim(c, s, s', a);
    } else if a.Resume? {
      StepResume(c, s, s', a);
      ResumeHeldInProgress(s, s', a.piece);
    } else {
      StepQuiet(c, s, s', a);
      QuietHolders(c, s, s', a);
    }
  }

  /** Without priorities, workers hold exactly what is in progress, as long as, and no longer than,
      resume keeps off the pieces they hold; the program resumes before any worker joins. */
  lemma {:induction false} ExclusiveOwnership(c: Config, states: seq<Swarm>, actions: seq<Action>, k: nat)
    requires Run(c, states, actions) && NoPriorities(actions) && k < |states|
    ensures (forall j :: 0 <= j <= k ==> HeldInProgress(states[j]))
       <==> (forall j :: 0 <= j < k ==> !ResumesHeld(states[j], actions[j]))
  {
    hide Init, Tracked, Step, SinglyHeld, StillWanted, Intact, ResumesHeld;
    if k == 0 {
      InitOwned(c, states[0]);
    } else {
      ExclusiveOwnership(c, states, actions, k - 1);
      RunInvariant(c, states, actions, k - 1);
      SingleHolding(c, states, actions, k - 1);
      if HeldInProgress(states[k - 1]) {
        StepHeldInProgress(c, states[k - 1], states[k], actions[k - 1]);
      }
    }
  }

  /** Then the pieces in progress are the pieces held, each by one worker. */
  lemma InProgressIsHeld(c: Config, states: seq<Swarm>, actions: seq<Action>, k: nat, i: int)
    requires Run(c, states, actions) && NoPriorities(actions) && k < |states|
    requires forall j :: 0 <= j < k ==> !ResumesHeld(states[j], actions[j])
    ensures i in states[k].m.inProgress <==> SomeoneHolds(states[k].workers, i)
    ensures SinglyHeld(states[k])
  {
    RunInvariant(c, states, actions, k);
    ExclusiveOwnership(c, states, actions, k);
    SingleHolding(c, states, actions, k);
  }

  // ---------- downloading a piece again ----------

  /** What is pending or held is not complete already. */
  ghost predicate NothingRedone(s: Swarm) {
    && (forall i :: i in s.m.pending ==> i !in s.m.completed)
    && (forall w, i :: 0 <= w < |s.workers| && Holds(s.workers[w], i) ==> i !in s.m.completed)
  }

  /** Resume completes a piece that is still pending, or in some worker's hands. */
  ghost predicate ResumesOpen(s: Swarm, a: Action) {
    a.Resume? && (a.piece in s.m.pending || SomeoneHolds(s.workers, a.piece))
  }

  lemma OutcomeNothingRedone(c: Config, s: Swarm, s': Swarm, w: nat, i: int, a: Action)
    requires SinglyHeld(s) && NothingRedone(s) && w < |s.workers| && Holds(s.workers[w], i) && IsOutcome(a)
    requires 0 <= i < |s.m.availability| && s'.m == Outcome(c, s.m, i, a) && s'.workers == s.workers[w := Idle]
    ensures NothingRedone(s')
  {
    forall v, j | 0 <= v < |s'.workers| && Holds(s'.workers[v], j) ensures j !in s'.m.completed {
      assert v != w && Holds(s.workers[v], j);
      assert i != j;
    }
  }

  lemma ResumeNothingRedone(s: Swarm, s': Swarm, i: int)
    requires NothingRedone(s) && s'.m.completed == s.m.completed + {i}
    requires s'.m.pending == s.m.pending && s'.workers == s.workers
    ensures NothingRedone(s') <==> !(i in s.m.pending || SomeoneHolds(s.workers, i))
  {
  }

  /** Of all steps only resume, on a piece still pending or held, leaves a complete piece to be
      downloaded again. */
  lemma StepNothingRedone(c: Config, s: Swarm, s': Swarm, a: Action)
    requires Tracked(c, s) && SinglyHeld(s) && NothingRedone(s) && Step(c, s, s', a)
    ensures NothingRedone(s') <==> !ResumesOpen(s, a)
  {
    hide Tracked, Step, M.Inv;
    if IsOutcome(a) {
      StepOutcome(c, s, s', a);
      OutcomeNothingRedone(c, s, s', a.w, s.workers[a.w].piece, a);
    } else if a.ClaimPiece? {
      StepClaim(c, s, s', a);
    } else if a.Resume? {
      StepResume(c, s, s', a);
      ResumeNothingRedone(s, s', a.piece);
    } else {
      StepQuiet(c, s, s', a);
      QuietHolders(c, s, s', a);
    }
  }

  /** Over whole runs without priorities: nothing complete is pending or held as long as, and no
      longer than, resume keeps off what is pending or held. */
  lemma {:induction false} NothingRedoneExact(c: Config, states: seq<Swarm>, actions: seq<Action>, k: nat)
    requires Run(c, states, actions) && NoPriorities(actions) && k < |states|
    ensures (forall j :: 0 <= j <= k ==> NothingRedone(states[j]))
       <==> (forall j :: 0 <= j < k ==> !ResumesOpen(states[j], actions[j]))
  {
    hide Init, Tracked, Step, SinglyHeld, StillWanted, Intact, ResumesOpen;
    if k == 0 {
      InitOwned(c, states[0]);
    } else {
      NothingRedoneExact(c, states, actions, k - 1);
      RunInvariant(c, states, actions, k - 1);
      SingleHolding(c, states, actions, k - 1);
      if NothingRedone(states[k - 1]) {
        StepNothingRedone(c, states[k - 1], states[k], actions[k - 1]);
      }
    }
  }

  /** A claim can hand out a completed piece exactly if one is the first wanted of the window or a
      rarest wanted one; priorities never do that. */
  lemma ClaimsCompletedExactly(c: Config, s: Swarm, w: nat, available: seq<bool>)
    requires Tracked(c, s) && w < |s.workers| && s.workers[w] == Idle
    ensures (exists s', r :: Step(c, s, s', ClaimPiece(w, available, r)) && r in s.m.completed)
       <==> (exists i :: i in s.m.completed && (M.IsFirstInWindow(s.m, available, i) || M.IsRarest(s.m, available, i)))
  {
    if i :| i in s.m.completed && (M.IsFirstInWindow(s.m, available, i) || M.IsRarest(s.m, available, i)) {
      ClaimExact(c, s, w, available, i);
    }
    forall s', r | Step(c, s, s', ClaimPiece(w, available, r)) && r in s.m.completed
      ensures M.IsFirstInWindow(s.m, available, r) || M.IsRarest(s.m, available, r)
    {
      ClaimExact(c, s, w, available, r);
    }
  }

  /** Whatever the peer offers: some claim can hand out a completed piece exactly if one is still
      pending. */
  lemma CompletedClaimable(c: Config, s: Swarm, w: nat)
    requires Tracked(c, s) && w < |s.workers| && s.workers[w] == Idle
    ensures (exists s', available, r :: Step(c, s, s', ClaimPiece(w, available, r)) && r in s.m.completed)
       <==> (exists i :: i in s.m.pending && i in s.m.completed)
  {
    if i :| i in s.m.pending && i in s.m.completed {
      var available := seq(i + 1, k => k == i);
      assert M.IsRarest(s.m, available, i);
      ClaimsCompletedExactly(c, s, w, available);
    }
    forall s', available, r | Step(c, s, s', ClaimPiece(w, available, r)) && r in s.m.completed
      ensures r in s.m.pending
    {
      ClaimExact(c, s, w, available, r);
    }
  }

  // ---------- the four places ----------

  /** The four places are disjoint. */
  ghost predicate Partitioned(m: M.Manager) {
    && (forall i :: i in m.pending ==> i !in m.inProgress && i !in m.completed && i !in m.permanentlyFailed)
    && (forall i :: i in m.inProgress ==> i !in m.completed && i !in m.permanentlyFailed)
    && (forall i :: i in m.completed ==> i !in m.permanentlyFailed)
  }

  /** Resume completes a piece that is still pending, or was given up. */
  ghost predicate ResumesUnclaimed(s: Swarm, a: Action) {
    a.Resume? && (a.piece in s.m.pending || a.piece in s.m.permanentlyFailed)
  }

  lemma OutcomePartitioned(c: Config, m: M.Manager, i: int, a: Action)
    requires 0 <= i < |m.availability| && Partitioned(m) && i in m.inProgress && IsOutcome(a)
    ensures Partitioned(Outcome(c, m, i, a))
  {
  }

  /** Without priorities, of all steps only resume breaks the partition: marking a piece complete
      never takes it out of pending. */
  lemma StepPartitioned(c: Config, s: Swarm, s': Swarm, a: Action)
    requires Tracked(c, s) && Partitioned(s.m) && HeldInProgress(s) && s.m.priority == {}
    requires M.NothingLost(s.m) && Step(c, s, s', a)
    ensures Partitioned(s'.m) <==> !ResumesUnclaimed(s, a)
  {
    hide Tracked, Step, M.Inv;
    if IsOutcome(a) {
      StepOutcome(c, s, s', a);
      assert Holds(s.workers[a.w], s.workers[a.w].piece);
      OutcomePartitioned(c, s.m, s.workers[a.w].piece, a);
    } else if a.ClaimPiece? {
      StepClaim(c, s, s', a);
      if a.r != -1 { ClaimPartitioned(s.m, s'.m, a.r); }
    } else if a.Resume? {
      StepResume(c, s, s', a);
      ResumePartitioned(s.m, a.piece, LengthAt(c.tf, a.piece));
    } else {
      StepQuiet(c, s, s', a);
    }
  }

  lemma ClaimPartitioned(m: M.Manager, m': M.Manager, i: int)
    requires Partitioned(m) && i in m.pending && 0 <= i < |m.availability| && M.Unmoved(M.Claim(m, i), m')
    ensures Partitioned(m')
  {
  }

  lemma ResumePartitioned(m: M.Manager, i: int, bytes: int)
    requires Partitioned(m) && 0 <= i < |m.availability|
    ensures Partitioned(M.MarkedComplete(m, i, bytes)) <==> !(i in m.pending || i in m.permanentlyFailed)
  {
    var m' := M.MarkedComplete(m, i, bytes);
    assert i in m'.completed && m'.pending == m.pending && m'.permanentlyFailed == m.permanentlyFailed;
  }

  /** In a fresh run, without resume and priorities, Pending, InProgress, Completed and
      PermanentlyFailed partition the pieces. */
  lemma {:induction false} FourPlaces(c: Config, states: seq<Swarm>, actions: seq<Action>, k: nat)
    requires Run(c, states, actions) && NoPriorities(actions) && k < |states|
    requires forall j :: 0 <= j < |actions| ==> !actions[j].Resume?
    ensures Partitioned(states[k].m)
    ensures forall i :: 0 <= i < PieceCount(c.tf) <==>
              i in states[k].m.pending || i in states[k].m.inProgress
              || i in states[k].m.completed || i in states[k].m.permanentlyFailed
  {
    hide Init, Tracked, Step, SinglyHeld, StillWanted, Intact;
    RunInvariant(c, states, actions, k);
    PlacesInRange(c, states[k]);
    if k == 0 {
      InitOwned(c, states[0]);
    } else {
      FourPlaces(c, states, actions, k - 1);
      RunInvariant(c, states, actions, k - 1);
      SingleHolding(c, states, actions, k - 1);
      ExclusiveOwnership(c, states, actions, k - 1);
      StepPartitioned(c, states[k - 1], states[k], actions[k - 1]);
    }
  }
}
