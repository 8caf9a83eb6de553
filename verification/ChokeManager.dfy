/** The choke manager's round over a fixed list of clients, which it names by position. */
module ChokeManager {
  import opened Seqs
  import opened Wrappers
  import opened ChokeModel

  class Client {
    var interestedInUs: bool
    var chokedByUs: bool
    var downloadRate: real
    var intervalBytes: nat
    var stats: Stats
    var sent: seq<Message>

    function Score(): real
      reads this
    {
      CalculateScore(stats, downloadRate)
    }

    /** The client as the model sees it, with the score it has been given. */
    ghost function View(score: real): Peer
      reads this
    {
      Peer(interestedInUs, chokedByUs, sent, downloadRate, intervalBytes, stats, score)
    }

    /** A freshly opened connection. */
    constructor ()
      ensures Dialed(View(Score()))
    {
      interestedInUs, chokedByUs, sent := false, false, [];
      downloadRate, intervalBytes, stats := 0.0, 0, Stats(0, 0, 0, 0, 0);
    }

    method Sample(elapsed: real)
      modifies this
      ensures View(Score()) == Sampled(old(View(Score())), elapsed)
    {
      if elapsed > 0.0 {
        var instantSpeed := intervalBytes as real / elapsed;
        downloadRate := 0.8 * downloadRate + 0.2 * instantSpeed;
        intervalBytes := 0;
      }
    }

    /** One turn of the loop that sends CHOKE and UNCHOKE. */
    method Update(shouldUnchoke: bool, ghost score: real)
      modifies this
      ensures View(score) == Told(old(View(score)), !shouldUnchoke)
    {
      if shouldUnchoke && chokedByUs {
        chokedByUs := false;
        sent := sent + [Unchoke];
      } else if !shouldUnchoke && !chokedByUs {
        chokedByUs := true;
        sent := sent + [Choke];
      }
    }
  }

  // ---------- ranking ----------

  ghost predicate NoRepeats(s: seq<nat>) {
    forall i, j :: 0 <= i < j < |s| ==> s[i] != s[j]
  }

  ghost predicate Descending(ps: Peers, s: seq<nat>) {
    && (forall i :: 0 <= i < |s| ==> s[i] < |ps|)
    && forall i, j :: 0 <= i < j < |s| ==> ps[s[i]].score >= ps[s[j]].score
  }

  /** The interested peers, best first. */
  ghost predicate Ranked(ps: Peers, s: seq<nat>) {
    NoRepeats(s) && Descending(ps, s) && Elements(s) == Interested(ps)
  }

  lemma {:induction false} MembersCount(s: seq<nat>)
    requires NoRepeats(s)
    ensures |Elements(s)| == |s|
  {
    if s != [] {
      var init := s[..|s| - 1];
      MembersCount(init);
      assert s == init + [s[|s| - 1]];
      assert Elements(s) == Elements(init) + {s[|s| - 1]};
    }
  }

  lemma RankInserted(ps: Peers, s: seq<nat>, p: nat, c: nat)
    requires NoRepeats(s) && Descending(ps, s) && c !in s && c < |ps| && p <= |s|
    requires forall i :: 0 <= i < p ==> ps[s[i]].score >= ps[c].score
    requires p < |s| ==> ps[s[p]].score <= ps[c].score
    ensures var r := Inserted(s, p, c); NoRepeats(r) && Descending(ps, r) && Elements(r) == Elements(s) + {c}
  {
    forall i | p <= i < |s| ensures ps[s[i]].score <= ps[c].score {
      assert i > p ==> ps[s[p]].score >= ps[s[i]].score;
    }
    InsertedElements(s, p, c);
    InsertedSorted(s, p, c, (i: nat, j: nat) => i != j);
    InsertedSorted(s, p, c, (i: nat, j: nat) => i < |ps| && j < |ps| && ps[i].score >= ps[j].score);
  }

  /** The top of a ranking, and the optimistic peer beside it. */
  ghost function Chosen(ranked: seq<nat>, active: nat, optimistic: Option<nat>): set<nat>
    requires active <= |ranked|
  {
    Elements(ranked[..active]) + if active < |ranked| && optimistic.Some? then {optimistic.value} else {}
  }

  /** MaxUploads less the optimistic slot, and no more than there are candidates. */
  function ActiveSlots(maxUploads: int, candidates: nat): (active: nat)
    ensures active <= candidates
  {
    if maxUploads <= 1 then 0 else if candidates < maxUploads - 1 then candidates else maxUploads - 1
  }

  ghost predicate Choice(maxUploads: int, ps: Peers, ranked: seq<nat>, optimistic: Option<nat>, unchoked: set<nat>) {
    var active := ActiveSlots(maxUploads, |ranked|);
    && Ranked(ps, ranked) && ranked != []
    && (active < |ranked| ==> optimistic.Some? && optimistic.value in Interested(ps))
    && unchoked == Chosen(ranked, active, optimistic)
  }

  lemma ChosenCount(ranked: seq<nat>, active: nat, optimistic: Option<nat>)
    requires NoRepeats(ranked) && active <= |ranked|
    ensures active <= |Chosen(ranked, active, optimistic)| <= active + 1
    ensures active == |ranked| ==> Chosen(ranked, active, optimistic) == Elements(ranked)
    ensures active < |ranked| && optimistic.Some? ==> optimistic.value in Chosen(ranked, active, optimistic)
    ensures Chosen(ranked, active, optimistic) <= Elements(ranked) + if optimistic.Some? then {optimistic.value} else {}
  {
    var top := ranked[..active];
    MembersCount(top);
    assert ranked == top + ranked[active..];
    if active < |ranked| && optimistic.Some? && optimistic.value in Elements(top) {
      assert Chosen(ranked, active, optimistic) == Elements(top);
    }
  }

  /** A slot stays empty, though there is an interested peer for it, exactly if the optimistic peer is
      already in the top of the ranking. */
  lemma SlotWastedExactly(maxUploads: int, ps: Peers, ranked: seq<nat>, optimistic: Option<nat>, unchoked: set<nat>)
    requires Choice(maxUploads, ps, ranked, optimistic, unchoked)
    ensures var active := ActiveSlots(maxUploads, |ranked|);
            Full(maxUploads, ps, unchoked) <==> !(active < |ranked| && optimistic.value in ranked[..active])
  {
    var active := ActiveSlots(maxUploads, |ranked|);
    MembersCount(ranked);
    MembersCount(ranked[..active]);
    if active == |ranked| {
      assert ranked[..active] == ranked;
    } else {
      OneMore(Elements(ranked[..active]), optimistic.value);
    }
  }

  lemma OneMore(s: set<nat>, c: nat)
    ensures |s + {c}| == |s| + if c in s then 0 else 1
  {
    if c in s { assert s + {c} == s; }
  }

  /** A newly picked optimistic peer comes from outside the top, so no slot is wasted. */
  lemma FreshPickFills(maxUploads: int, ps: Peers, ranked: seq<nat>, optimistic: Option<nat>, unchoked: set<nat>)
    requires Choice(maxUploads, ps, ranked, optimistic, unchoked)
    requires var active := ActiveSlots(maxUploads, |ranked|);
             active < |ranked| ==> optimistic.value in ranked[active..]
    ensures Full(maxUploads, ps, unchoked)
  {
    var active := ActiveSlots(maxUploads, |ranked|);
    SlotWastedExactly(maxUploads, ps, ranked, optimistic, unchoked);
    if active < |ranked| { OutsideTop(ranked, active, optimistic.value); }
  }

  lemma OutsideTop(ranked: seq<nat>, active: nat, c: nat)
    requires NoRepeats(ranked) && active <= |ranked| && c in ranked[active..]
    ensures c !in ranked[..active]
  {
  }

  /** A decision of who to unchoke: the optimistic slot moves only when it may, and then every slot
      is filled. */
  ghost predicate Decided(
    maxUploads: int, timer: int, s: Choking, ranked: seq<nat>, optimistic: Option<nat>, unchoked: set<nat>)
  {
    && Choice(maxUploads, s.peers, ranked, optimistic, unchoked)
    && (optimistic != s.optimistic ==>
          MayRotate(timer, s) && optimistic.Some? && optimistic.value in Interested(s.peers))
    && (MayRotate(timer, s) ==> Full(maxUploads, s.peers, unchoked))
  }

  lemma Decision(maxUploads: int, timer: int, s: Choking, ranked: seq<nat>, optimistic: Option<nat>, unchoked: set<nat>)
    requires Ranked(s.peers, ranked) && ranked != []
    requires s.optimistic.Some? ==> s.optimistic.value < |s.peers|
    requires var active := ActiveSlots(maxUploads, |ranked|);
             && unchoked == Chosen(ranked, active, optimistic)
             && if active < |ranked| && MayRotate(timer, s) then
                  optimistic.Some? && optimistic.value in ranked[active..]
                else optimistic == s.optimistic
    ensures Decided(maxUploads, timer, s, ranked, optimistic, unchoked)
  {
    var active := ActiveSlots(maxUploads, |ranked|);
    assert ranked == ranked[..active] + ranked[active..];
    if active < |ranked| {
      assert optimistic.value in Interested(s.peers) by {
        assert MayRotate(timer, s) ==> optimistic.value in Elements(ranked);
      }
    }
    if MayRotate(timer, s) {
      FreshPickFills(maxUploads, s.peers, ranked, optimistic, unchoked);
    }
  }

  /** Granting the top of a ranking and one optimistic slot is fair. */
  lemma ChosenIsFair(maxUploads: int, ps: Peers, ranked: seq<nat>, unchoked: set<nat>, now: Choking)
    requires Choice(maxUploads, ps, ranked, now.optimistic, unchoked)
    requires OnlyTold(now.peers, ps) && Unchoked(now.peers) == unchoked
    ensures Interested(ps) != {} && Fair(maxUploads, now)
  {
    var active := ActiveSlots(maxUploads, |ranked|);
    ChosenCount(ranked, active, now.optimistic);
    MembersCount(ranked);
    SameInterest(now.peers, ps);
    SlotWastedExactly(maxUploads, ps, ranked, now.optimistic, unchoked);
    forall i | i in Elements(ranked[..active]) ensures i < |ps| && Deserves(now.peers, i) {
      TopDeserves(ps, ranked, active, now, i);
    }
    forall i | 0 <= i < |ps| && !now.peers[i].choked && now.optimistic != Some(i) ensures Deserves(now.peers, i) {
      assert i in Unchoked(now.peers);
    }
  }

  lemma DecidedInRange(
    maxUploads: int, timer: int, s: Choking, ranked: seq<nat>, optimistic: Option<nat>, unchoked: set<nat>)
    requires Decided(maxUploads, timer, s, ranked, optimistic, unchoked)
    requires s.optimistic.Some? ==> s.optimistic.value < |s.peers|
    ensures forall i :: i in unchoked ==> i < |s.peers|
    ensures optimistic.Some? ==> optimistic.value < |s.peers|
  {
    ChosenCount(ranked, ActiveSlots(maxUploads, |ranked|), optimistic);
  }

  lemma RoundDone(maxUploads: int, timer: int, s: Choking, ranked: seq<nat>, unchoked: set<nat>, now: Choking)
    requires Decided(maxUploads, timer, s, ranked, now.optimistic, unchoked)
    requires OnlyTold(now.peers, s.peers) && Unchoked(now.peers) == unchoked
    ensures Evaluated(maxUploads, timer, s, now)
  {
    ChosenIsFair(maxUploads, s.peers, ranked, unchoked, now);
  }

  lemma NobodyInterested(maxUploads: int, timer: int, s: Choking, ranked: seq<nat>)
    requires Ranked(s.peers, ranked)
    ensures ranked == [] ==> Evaluated(maxUploads, timer, s, s)
  {
    assert ranked == [] ==> Elements(ranked) == {};
  }

  lemma SameInterest(now: Peers, ps: Peers)
    requires OnlyTold(now, ps)
    ensures Interested(now) == Interested(ps)
    ensures forall i :: 0 <= i < |ps| ==> now[i].score == ps[i].score
  {
    forall i | 0 <= i < |ps| ensures now[i].score == ps[i].score && now[i].interested == ps[i].interested {
      assert now[i] == Told(ps[i], now[i].choked);
    }
  }

  lemma TopDeserves(ps: Peers, ranked: seq<nat>, active: nat, now: Choking, i: nat)
    requires Ranked(ps, ranked) && active <= |ranked| && OnlyTold(now.peers, ps)
    requires Elements(ranked[..active]) <= Unchoked(now.peers)
    requires i in Elements(ranked[..active])
    ensures i < |ps| && Deserves(now.peers, i)
  {
    SameInterest(now.peers, ps);
    var k :| 0 <= k < active && ranked[..active][k] == i;
    forall j | 0 <= j < |ps| && now.peers[j].interested && now.peers[j].choked
      ensures now.peers[i].score >= now.peers[j].score
    {
      assert j in Elements(ranked);
      var m :| 0 <= m < |ranked| && ranked[m] == j;
      assert m >= active by { PrefixUnchoked(ranked, active, m, now); }
    }
  }

  lemma PrefixUnchoked(ranked: seq<nat>, active: nat, m: nat, now: Choking)
    requires active <= |ranked| && m < |ranked| && Elements(ranked[..active]) <= Unchoked(now.peers)
    ensures m < active ==> ranked[m] in Unchoked(now.peers)
  {
    if m < active {
      assert ranked[m] == ranked[..active][m];
    }
  }

  /** The interested peers among the first n. */
  ghost function InterestedUpTo(ps: Peers, n: nat): set<nat>
    requires n <= |ps|
  {
    set i | 0 <= i < n && ps[i].interested
  }

  lemma InterestedNext(ps: Peers, n: nat, ranked: seq<nat>)
    requires n < |ps| && Elements(ranked) == InterestedUpTo(ps, n)
    ensures InterestedUpTo(ps, n + 1) == InterestedUpTo(ps, n) + if ps[n].interested then {n} else {}
    ensures n !in ranked
    ensures InterestedUpTo(ps, |ps|) == Interested(ps)
  {
    assert n in ranked ==> n in Elements(ranked);
  }

  // ---------- the manager ----------

  class ChokeManager {
    const clients: seq<Client>
    const maxUploads: int
    var optimisticTimer: int
    var currentOptimistic: Option<nat>

    ghost predicate Valid()
      reads this
    {
      && (forall i, j :: 0 <= i < j < |clients| ==> clients[i] != clients[j])
      && (currentOptimistic.Some? ==> currentOptimistic.value < |clients|)
    }

    /** The clients with the scores they have been given. */
    ghost function Scored(scores: seq<real>): (ps: Peers)
      requires |scores| == |clients|
      reads clients
      ensures |ps| == |clients| && forall i :: 0 <= i < |clients| ==> ps[i] == clients[i].View(scores[i])
    {
      seq(|clients|, i requires 0 <= i < |clients| reads clients => clients[i].View(scores[i]))
    }

    ghost function Scores(): (scores: seq<real>)
      reads clients
      ensures |scores| == |clients| && forall i :: 0 <= i < |clients| ==> scores[i] == clients[i].Score()
    {
      seq(|clients|, i requires 0 <= i < |clients| reads clients => clients[i].Score())
    }

    ghost function Peers(): (ps: Peers)
      reads clients
      ensures |ps| == |clients| && forall i :: 0 <= i < |clients| ==> ps[i] == clients[i].View(clients[i].Score())
    {
      Scored(Scores())
    }

    constructor (clients: seq<Client>, maxUploads: int)
      requires forall i, j :: 0 <= i < j < |clients| ==> clients[i] != clients[j]
      ensures Valid() && this.clients == clients && this.maxUploads == maxUploads && currentOptimistic == None
    {
      this.clients, this.maxUploads := clients, maxUploads;
      optimisticTimer, currentOptimistic := 0, None;
    }

    method SampleAll(elapsed: seq<real>)
      requires Valid() && |elapsed| == |clients|
      modifies clients
      ensures AllSampled(Peers(), old(Peers()), elapsed)
    {
      var i := 0;
      while i < |clients|
        invariant i <= |clients|
        invariant forall k :: 0 <= k < i ==>
                    clients[k].View(clients[k].Score()) == Sampled(old(clients[k].View(clients[k].Score())), elapsed[k])
        invariant forall k :: i <= k < |clients| ==> unchanged(clients[k])
      {
        clients[i].Sample(elapsed[i]);
        i := i + 1;
      }
    }

    method InsertRanked(ghost scores: seq<real>, ranked: seq<nat>, c: nat) returns (r: seq<nat>)
      requires Valid() && scores == Scores() && c < |clients| && c !in ranked
      requires NoRepeats(ranked) && Descending(Scored(scores), ranked)
      ensures NoRepeats(r) && Descending(Scored(scores), r) && Elements(r) == Elements(ranked) + {c}
    {
      ghost var ps := Scored(scores);
      var p := 0;
      while p < |ranked| && clients[ranked[p]].Score() >= clients[c].Score()
        invariant p <= |ranked|
        invariant forall k :: 0 <= k < p ==> ps[ranked[k]].score >= ps[c].score
      {
        p := p + 1;
      }
      RankInserted(ps, ranked, p, c);
      r := Inserted(ranked, p, c);
    }

    /** The interested peers sorted by score, best first. */
    method RankInterested(ghost scores: seq<real>) returns (ranked: seq<nat>)
      requires Valid() && scores == Scores()
      ensures Ranked(Scored(scores), ranked)
    {
      ghost var ps := Scored(scores);
      ranked := [];
      var i := 0;
      while i < |clients|
        invariant i <= |clients|
        invariant NoRepeats(ranked) && Descending(ps, ranked) && Elements(ranked) == InterestedUpTo(ps, i)
      {
        InterestedNext(ps, i, ranked);
        if clients[i].interestedInUs {
          ranked := InsertRanked(scores, ranked, i);
        }
        i := i + 1;
      }
      assert InterestedUpTo(ps, i) == Interested(ps);
    }

    /** Whether the optimistic slot moves this round. */
    predicate MustRotate(ghost s: Choking)
      requires Valid()
      reads this, clients
      requires s.optimistic == currentOptimistic && |s.peers| == |clients|
      requires forall i :: 0 <= i < |clients| ==> s.peers[i].interested == clients[i].interestedInUs
      ensures MustRotate(s) <==> MayRotate(optimisticTimer, s)
    {
      optimisticTimer % 3 == 0 || currentOptimistic == None || !clients[currentOptimistic.value].interestedInUs
    }

    /** was: the peers as they are on entry, with the scores given. */
    method SendChanges(ghost scores: seq<real>, ghost was: Peers, unchoked: set<nat>)
      requires Valid() && |scores| == |clients| && was == Scored(scores)
      requires forall i :: i in unchoked ==> i < |clients|
      modifies clients
      ensures OnlyTold(Scored(scores), was) && Unchoked(Scored(scores)) == unchoked
    {
      var i := 0;
      while i < |clients|
        invariant i <= |clients|
        invariant forall k :: 0 <= k < i ==> clients[k].View(scores[k]) == Told(was[k], k !in unchoked)
        invariant forall k :: i <= k < |clients| ==> clients[k].View(scores[k]) == was[k]
      {
        clients[i].Update(i in unchoked, scores[i]);
        i := i + 1;
      }
    }

    /** The peers to unchoke and the optimistic one, from the interested ones best first; s is the
        state on entry. */
    method Choose(ghost s: Choking, interested: seq<nat>, draw: nat)
      returns (unchoked: set<nat>, optimistic: Option<nat>)
      requires Valid() && s.optimistic == currentOptimistic && |s.peers| == |clients|
      requires forall i :: 0 <= i < |clients| ==> s.peers[i].interested == clients[i].interestedInUs
      requires interested != [] && Ranked(s.peers, interested)
      ensures Decided(maxUploads, optimisticTimer, s, interested, optimistic, unchoked)
      ensures forall i :: i in unchoked ==> i < |clients|
      ensures optimistic.Some? ==> optimistic.value < |clients|
    {
      optimistic := currentOptimistic;
      var activeSlots := maxUploads - 1;
      if |interested| < activeSlots {
        activeSlots := |interested|;
      }
      if activeSlots < 0 {
        activeSlots := 0;
      }
      unchoked := Elements(interested[..activeSlots]);
      var remaining := interested[activeSlots..];
      if |remaining| > 0 {
        if MustRotate(s) {
          optimistic := Some(remaining[draw % |remaining|]);
        }
        unchoked := unchoked + {optimistic.value};
      }
      Decision(maxUploads, optimisticTimer, s, interested, optimistic, unchoked);
      DecidedInRange(maxUploads, optimisticTimer, s, interested, optimistic, unchoked);
    }

    /** The messages of a round, once it is decided; s is the state on entry, but for the optimistic
        peer. */
    method Announce(ghost scores: seq<real>, ghost s: Choking, ghost ranked: seq<nat>, unchoked: set<nat>)
      requires Valid() && |scores| == |clients| && s.peers == Scored(scores)
      requires Decided(maxUploads, optimisticTimer, s, ranked, currentOptimistic, unchoked)
      requires forall i :: i in unchoked ==> i < |clients|
      modifies clients
      ensures Valid() && Evaluated(maxUploads, optimisticTimer, s, Choking(Scored(scores), currentOptimistic))
    {
      SendChanges(scores, s.peers, unchoked);
      RoundDone(maxUploads, optimisticTimer, s, ranked, unchoked, Choking(Scored(scores), currentOptimistic));
    }

    /** A round from the ranking on; s is the state on entry, with the scores given. */
    method Grant(ghost scores: seq<real>, ghost s: Choking, interested: seq<nat>, draw: nat)
      requires Valid() && |scores| == |clients| && s == Choking(Scored(scores), currentOptimistic)
      requires interested != [] && Ranked(s.peers, interested)
      modifies clients, this`currentOptimistic
      ensures Valid() && Evaluated(maxUploads, optimisticTimer, s, Choking(Scored(scores), currentOptimistic))
    {
      var unchoked, optimistic := Choose(s, interested, draw);
      currentOptimistic := optimistic;
      Announce(scores, s, interested, unchoked);
    }

    /** A round from the sampled rates on. */
    method Decide(ghost scores: seq<real>, ghost s: Choking, draw: nat)
      requires Valid() && scores == Scores() && s == Choking(Scored(scores), currentOptimistic)
      modifies clients, this`currentOptimistic
      ensures Valid() && Evaluated(maxUploads, optimisticTimer, s, Choking(Scored(scores), currentOptimistic))
    {
      var interested := RankInterested(scores);
      NobodyInterested(maxUploads, optimisticTimer, s, interested);
      if |interested| == 0 {
        return;
      }
      Grant(scores, s, interested, draw);
    }

    lemma ScoresUpToDate(i: nat)
      requires i < |clients|
      ensures UpToDate(Scored(Scores())[i])
    {
    }

    /** A round tells peers things and leaves their scores alone. */
    lemma StillScored(scores: seq<real>, was: Peers, i: nat)
      requires |scores| == |clients| == |was| && i < |was|
      requires OnlyTold(Scored(scores), was) || Scored(scores) == was
      requires was[i].score == scores[i] && UpToDate(was[i])
      ensures clients[i].Score() == scores[i]
    {
      assert Scored(scores)[i] == was[i] || Scored(scores)[i] == Told(was[i], Scored(scores)[i].choked);
    }

    /** elapsed: the time since each client was last sampled; draw: the random number behind the
        optimistic pick; sampled: the peers once their rates are up to date. The round goes by
        those rates, and the optimistic slot moves only when it must. */
    method Evaluate(elapsed: seq<real>, draw: nat) returns (ghost sampled: Choking)
      requires Valid() && |elapsed| == |clients|
      modifies this, clients
      ensures Valid() && optimisticTimer == old(optimisticTimer) + 1
      ensures AllSampled(sampled.peers, old(Peers()), elapsed) && sampled.optimistic == old(currentOptimistic)
      ensures Evaluated(maxUploads, optimisticTimer, sampled, Choking(Peers(), currentOptimistic))
      ensures optimisticTimer % 3 == 0 && Interested(sampled.peers) != {} ==>
                Full(maxUploads, sampled.peers, Unchoked(Peers()))
      ensures currentOptimistic != old(currentOptimistic) ==>
                || optimisticTimer % 3 == 0 || old(currentOptimistic) == None
                || !sampled.peers[old(currentOptimistic).value].interested
    {
      optimisticTimer := optimisticTimer + 1;
      SampleAll(elapsed);
      ghost var scores := Scores();
      sampled := Choking(Scored(scores), currentOptimistic);
      forall i | 0 <= i < |clients| ensures UpToDate(sampled.peers[i]) {
        ScoresUpToDate(i);
      }
      Decide(scores, sampled, draw);
      forall i | 0 <= i < |clients| ensures clients[i].Score() == scores[i] {
        StillScored(scores, sampled.peers, i);
      }
      assert Scores() == scores;
    }
  }
}
