/** Choking as a state machine: rounds of the choke manager, and everything else that happens to
    the peers in between. */
module ChokeModel {
  import opened Wrappers

  datatype Message = Choke | Unchoke

  /** What is known of a peer's reliability; latencies are in nanoseconds. */
  datatype Stats = Stats(successes: nat, downloads: nat, latencySum: nat, latencyCount: nat, corrupt: nat)
  {
    function SuccessRate(): real {
      if downloads > 0 then successes as real / downloads as real else 1.0
    }

    function AverageLatency(): nat {
      if latencyCount > 0 then latencySum / latencyCount else DEFAULT_LATENCY
    }

    function LatencyScore(): real {
      Clamped(1.0 - AverageLatency() as real / WORST_LATENCY as real)
    }
  }

  const DEFAULT_LATENCY := 100_000_000
  const WORST_LATENCY := 5_000_000_000
  const FULL_SPEED := 1048576.0

  function Clamped(x: real): real {
    if x < 0.0 then 0.0 else if x > 1.0 then 1.0 else x
  }

  function SpeedScore(rate: real): real {
    if rate / FULL_SPEED > 1.0 then 1.0 else rate / FULL_SPEED
  }

  function CalculateScore(stats: Stats, rate: real): real {
    stats.SuccessRate() * 0.4 + SpeedScore(rate) * 0.4 + stats.LatencyScore() * 0.1
      + (1.0 - stats.corrupt as real / 2.0) * 0.1
  }

  /** score is CalculateScore of the other fields, whenever it is read. */
  datatype Peer = Peer(
    interested: bool, choked: bool, sent: seq<Message>, rate: real, bytes: nat, stats: Stats, score: real)

  type Peers = seq<Peer>

  ghost predicate UpToDate(p: Peer) {
    p.score == CalculateScore(p.stats, p.rate)
  }

  datatype Choking = Choking(peers: Peers, optimistic: Option<nat>)

  ghost function Interested(ps: Peers): set<nat> {
    set i | 0 <= i < |ps| && ps[i].interested
  }

  ghost function Unchoked(ps: Peers): set<nat> {
    set i | 0 <= i < |ps| && !ps[i].choked
  }

  /** The slots the bound allows: there is always one for the optimistic peer. */
  function Slots(maxUploads: int): nat {
    if maxUploads > 1 then maxUploads else 1
  }

  /** Throughput folded into the running average: 80% history, 20% sample. */
  ghost function Sampled(p: Peer, elapsed: real): Peer {
    if elapsed > 0.0 then
      var rate := 0.8 * p.rate + 0.2 * (p.bytes as real / elapsed);
      p.(rate := rate, bytes := 0, score := CalculateScore(p.stats, rate))
    else p
  }

  ghost predicate AllSampled(now: Peers, was: Peers, elapsed: seq<real>) {
    |now| == |was| == |elapsed| && forall i :: 0 <= i < |now| ==> now[i] == Sampled(was[i], elapsed[i])
  }

  /** A flag moved, with the message that tells the peer so and with no other message. */
  ghost function Told(p: Peer, choked: bool): Peer {
    if p.choked == choked then p else p.(choked := choked, sent := p.sent + [if choked then Choke else Unchoke])
  }

  ghost predicate OnlyTold(now: Peers, was: Peers) {
    |now| == |was| && forall i :: 0 <= i < |now| ==> now[i] == Told(was[i], now[i].choked)
  }

  /** Unchoked on merit: no choked interested peer scores higher. */
  ghost predicate Deserves(ps: Peers, i: nat)
    requires i < |ps|
  {
    forall j :: 0 <= j < |ps| && ps[j].interested && ps[j].choked ==> ps[i].score >= ps[j].score
  }

  /** Every slot taken that there is an interested peer for. */
  ghost predicate Full(maxUploads: int, ps: Peers, unchoked: set<nat>) {
    |unchoked| == if |Interested(ps)| < Slots(maxUploads) then |Interested(ps)| else Slots(maxUploads)
  }

  /** One slot is empty because the optimistic peer sits in one it deserves anyway. */
  ghost predicate SlotWasted(maxUploads: int, s: Choking) {
    && |Unchoked(s.peers)| == maxUploads - 1 && s.optimistic.Some? && s.optimistic.value in Unchoked(s.peers)
    && Deserves(s.peers, s.optimistic.value)
  }

  /** What a round that saw an interested peer leaves behind. */
  ghost predicate Fair(maxUploads: int, s: Choking) {
    && Unchoked(s.peers) <= Interested(s.peers)
    && 1 <= |Unchoked(s.peers)| <= Slots(maxUploads)
    && (Full(maxUploads, s.peers, Unchoked(s.peers)) || SlotWasted(maxUploads, s))
    && forall i :: 0 <= i < |s.peers| && !s.peers[i].choked && s.optimistic != Some(i) ==> Deserves(s.peers, i)
  }

  /** The optimistic slot moves every third round, or when its holder is none or lost interest. */
  ghost predicate MayRotate(timer: int, s: Choking) {
    || timer % 3 == 0 || s.optimistic == None
    || (s.optimistic.value < |s.peers| && !s.peers[s.optimistic.value].interested)
  }

  /** One round, from the sampled rates on. */
  ghost predicate Round(maxUploads: int, was: Choking, now: Choking) {
    if Interested(was.peers) == {} then now == was else OnlyTold(now.peers, was.peers) && Fair(maxUploads, now)
  }

  /** A round, with what moves the optimistic slot: it moves only when it may, and when it does
      every slot is filled. */
  ghost predicate Evaluated(maxUploads: int, timer: int, was: Choking, now: Choking) {
    && Round(maxUploads, was, now)
    && (now.optimistic != was.optimistic ==> MayRotate(timer, was))
    && (MayRotate(timer, was) && Interested(was.peers) != {} ==> Full(maxUploads, was.peers, Unchoked(now.peers)))
  }

  /** Between rounds, and while a round samples: interest, rates and scores move, nobody is told
      anything. */
  ghost predicate Drift(was: Choking, now: Choking) {
    && now.optimistic == was.optimistic
    && |now.peers| == |was.peers|
    && forall i :: 0 <= i < |now.peers| ==>
         now.peers[i].choked == was.peers[i].choked && now.peers[i].sent == was.peers[i].sent
  }

  ghost predicate Step(maxUploads: int, was: Choking, now: Choking) {
    Drift(was, now) || Round(maxUploads, was, now)
  }

  ghost predicate Run(maxUploads: int, run: seq<Choking>) {
    run != [] && forall k :: 0 < k < |run| ==> Step(maxUploads, run[k - 1], run[k])
  }

  lemma DriftKeepsUnchoked(was: Choking, now: Choking)
    requires Drift(was, now)
    ensures Unchoked(now.peers) == Unchoked(was.peers)
  {
  }

  /** Sampling the rates is such a change, so an evaluation is a drift and a round. */
  lemma SamplingIsDrift(was: Choking, now: Choking, elapsed: seq<real>)
    requires AllSampled(now.peers, was.peers, elapsed) && now.optimistic == was.optimistic
    ensures Drift(was, now) && Interested(now.peers) == Interested(was.peers)
  {
    forall i | 0 <= i < |now.peers|
      ensures now.peers[i].choked == was.peers[i].choked && now.peers[i].sent == was.peers[i].sent
      ensures now.peers[i].interested == was.peers[i].interested
    {
      assert now.peers[i] == Sampled(was.peers[i], elapsed[i]);
    }
  }

  /** A peer at least as fast and no more corrupt, all else equal, scores at least as high, and above
      full speed only reliability counts. */
  lemma ScoreMonotone(stats: Stats, corrupt: nat, rate: real, faster: real)
    requires rate <= faster && corrupt <= stats.corrupt
    ensures CalculateScore(stats, rate) <= CalculateScore(stats.(corrupt := corrupt), faster)
    ensures rate >= FULL_SPEED ==> CalculateScore(stats, rate) == CalculateScore(stats, faster)
  {
    assert rate / FULL_SPEED <= faster / FULL_SPEED;
  }

  /** A score is at most one, reached only without a corrupt piece; each corrupt piece costs a
      twentieth. */
  lemma ScoreBounds(stats: Stats, rate: real)
    requires stats.successes <= stats.downloads && rate >= 0.0
    ensures -0.05 * stats.corrupt as real < CalculateScore(stats, rate) <= 1.0 - 0.05 * stats.corrupt as real
  {
    if stats.downloads > 0 {
      Fraction(stats.successes as real, stats.downloads as real);
    }
  }

  /** More downloads that succeed, or a lower latency, never score lower. */
  lemma ScoreRewards(stats: Stats, successes: nat, latencySum: nat, rate: real)
    requires stats.successes <= successes && latencySum <= stats.latencySum
    ensures CalculateScore(stats, rate)
         <= CalculateScore(stats.(successes := successes, latencySum := latencySum), rate)
  {
    if stats.downloads > 0 { DividedMonotone(stats.successes as real, successes as real, stats.downloads as real); }
    if stats.latencyCount > 0 {
      DivMonotone(latencySum, stats.latencySum, stats.latencyCount);
      var better := stats.(latencySum := latencySum);
      DividedMonotone(better.AverageLatency() as real, stats.AverageLatency() as real, WORST_LATENCY as real);
    }
  }

  lemma DividedMonotone(x: real, y: real, d: real)
    requires x <= y && d > 0.0
    ensures x / d <= y / d
  {
  }

  lemma DivMonotone(x: nat, y: nat, d: nat)
    requires x <= y && d > 0
    ensures x / d <= y / d
  {
    var q, r := x / d, y / d;
    assert x == q * d + x % d && y == r * d + y % d;
    if q > r { Times(q - r - 1, d); }
  }

  lemma Times(k: nat, d: nat)
    ensures (k + 1) * d >= d
  {
  }

  /** What each quality is worth: success and speed up to four tenths each, latency up to one tenth,
      and a tenth less a twentieth for each corrupt piece. A peer that was never asked counts as
      fully successful; one that was never timed, as answering in 100 ms, which costs 0.002. */
  lemma ScoreWeights(k: nat, n: nat, latency: nat, rate: real)
    requires 0 < n && k <= n && 0.0 <= rate <= 1048576.0
    ensures CalculateScore(Stats(k, n, 5_000_000_000, 1, 2), 0.0) * n as real == 0.4 * k as real
    ensures CalculateScore(Stats(k, 0, 5_000_000_000, 1, 2), 0.0) == 0.4
    ensures CalculateScore(Stats(0, n, 5_000_000_000, 1, 2), rate) * 1048576.0 == 0.4 * rate
    ensures CalculateScore(Stats(0, n, latency, 1, 2), 0.0) * 50_000_000_000.0
         == if latency < 5_000_000_000 then 5_000_000_000.0 - latency as real else 0.0
    ensures CalculateScore(Stats(0, n, 0, 0, 2), 0.0) == 0.098
    ensures CalculateScore(Stats(0, n, 5_000_000_000, 1, 0), 0.0) == 0.1
  {
    var x, y := k as real, n as real;
    assert x / y * y == x;
    assert x / y * 0.4 * y == 0.4 * x;
  }

  /** A sample moves the rate a fifth of the way to what was measured. */
  lemma SampledAverage(p: Peer, elapsed: real)
    ensures var q := Sampled(p, elapsed);
            if elapsed > 0.0 then
              && 5.0 * (q.rate - p.rate) == p.bytes as real / elapsed - p.rate
              && UpToDate(q) && q == p.(rate := q.rate, bytes := 0, score := q.score)
            else q == p
  {
  }

  lemma Fraction(x: real, y: real)
    requires 0.0 <= x <= y && y > 0.0
    ensures 0.0 <= x / y <= 1.0
  {
  }

  /** From the first round that sees an interested peer onward, whatever happens, no more than
      the slots are taken. */
  lemma {:induction false} SlotsBounded(maxUploads: int, run: seq<Choking>, first: nat, k: nat)
    requires Run(maxUploads, run) && 0 < first <= k < |run|
    requires Round(maxUploads, run[first - 1], run[first]) && Interested(run[first - 1].peers) != {}
    ensures |Unchoked(run[k].peers)| <= Slots(maxUploads)
  {
    if first < k {
      SlotsBounded(maxUploads, run, first, k - 1);
      assert Step(maxUploads, run[k - 1], run[k]);
      if Drift(run[k - 1], run[k]) {
        DriftKeepsUnchoked(run[k - 1], run[k]);
      }
    }
  }

  /** MaxUploads itself is the bound of every such round exactly when it is at least one: the
      optimistic slot is granted even when MaxUploads allows none. */
  lemma MaxUploadsIsTheBound(maxUploads: int, was: Choking, now: Choking)
    requires Round(maxUploads, was, now) && Interested(was.peers) != {}
    ensures |Unchoked(now.peers)| <= maxUploads <==> maxUploads >= 1
  {
  }

  // ---------- what the peers believe ----------

  /** A peer starts out choked and believes the last message. */
  ghost predicate BelievesChoked(p: Peer) {
    p.sent == [] || p.sent[|p.sent| - 1] == Choke
  }

  /** A connection as it is opened: the flag says unchoked though nothing has been said. */
  ghost predicate Dialed(p: Peer) {
    !p.choked && p.sent == []
  }

  ghost predicate LastWordIsTrue(p: Peer) {
    if p.sent == [] then !p.choked else p.choked == (p.sent[|p.sent| - 1] == Choke)
  }

  lemma {:induction false} LastWordStaysTrue(maxUploads: int, run: seq<Choking>, k: nat, i: nat)
    requires Run(maxUploads, run) && k < |run| && i < |run[0].peers|
    requires Dialed(run[0].peers[i])
    ensures |run[k].peers| == |run[0].peers| && LastWordIsTrue(run[k].peers[i])
  {
    if k > 0 {
      LastWordStaysTrue(maxUploads, run, k - 1, i);
      assert Step(maxUploads, run[k - 1], run[k]);
    }
  }

  predicate Knows(p: Peer, believesChoked: bool) {
    believesChoked == p.choked
  }

  /** What a round teaches a peer: it knows its state afterwards exactly when it had been told
      something before or the round chokes it. */
  lemma RoundTeaches(maxUploads: int, was: Choking, now: Choking, i: nat)
    requires Round(maxUploads, was, now) && i < |was.peers| && LastWordIsTrue(was.peers[i])
    ensures |now.peers| == |was.peers|
    ensures Knows(now.peers[i], BelievesChoked(now.peers[i])) <==> was.peers[i].sent != [] || now.peers[i].choked
  {
  }

  /** Since messages go out on flag changes only and a connection opens with the flag already
      unchoked, a peer knows its state exactly if it was ever choked: as long as it keeps its slot
      from the start it is never told. */
  lemma {:induction false} KnowsIffEverChoked(maxUploads: int, run: seq<Choking>, k: nat, i: nat)
    requires Run(maxUploads, run) && k < |run| && i < |run[0].peers| && Dialed(run[0].peers[i])
    ensures forall j :: 0 <= j <= k ==> |run[j].peers| == |run[0].peers|
    ensures var p := run[k].peers[i];
            Knows(p, BelievesChoked(p)) <==> exists j :: 0 <= j <= k && run[j].peers[i].choked
  {
    forall j | 0 <= j <= k ensures |run[j].peers| == |run[0].peers| {
      LastWordStaysTrue(maxUploads, run, j, i);
    }
    ToldIffEverChoked(maxUploads, run, k, i);
    LastWordStaysTrue(maxUploads, run, k, i);
  }

  lemma {:induction false} ToldIffEverChoked(maxUploads: int, run: seq<Choking>, k: nat, i: nat)
    requires Run(maxUploads, run) && k < |run| && i < |run[0].peers| && Dialed(run[0].peers[i])
    requires forall j :: 0 <= j <= k ==> |run[j].peers| == |run[0].peers|
    ensures run[k].peers[i].sent != [] <==> exists j :: 0 <= j <= k && run[j].peers[i].choked
  {
    if k > 0 {
      ToldIffEverChoked(maxUploads, run, k - 1, i);
      LastWordStaysTrue(maxUploads, run, k - 1, i);
      LastWordStaysTrue(maxUploads, run, k, i);
      assert Step(maxUploads, run[k - 1], run[k]);
    }
  }

  /** The smallest such run: one interested peer, one round, a slot and no message. */
  lemma WinnerNeverTold()
    returns (run: seq<Choking>)
    ensures Run(4, run) && |run| == 2 && |run[0].peers| == 1 && Dialed(run[0].peers[0])
    ensures Round(4, run[0], run[1]) && Interested(run[0].peers) != {}
    ensures !run[1].peers[0].choked && BelievesChoked(run[1].peers[0])
  {
    var s := Choking([Peer(true, false, [], 0.0, 0, Stats(0, 0, 0, 0, 0), 0.0)], None);
    run := [s, s];
    assert Unchoked(s.peers) == {0} == Interested(s.peers);
  }
}
