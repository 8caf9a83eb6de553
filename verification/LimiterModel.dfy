/** The token bucket as a value: ticks, requests, grants and closing, in any order. */
module LimiterModel {

  /** waiting: what the callers blocked in Wait are asking for. */
  datatype Limiter = Limiter(rate: int, capacity: int, tokens: int, closed: bool, waiting: multiset<int>)

  datatype Event = Ticked | Entered(n: int) | Granted(n: int) | Closed | Left(n: int)

  /** Integer division truncates toward zero. */
  function Refill(rate: int): int {
    if rate >= 0 then rate / 10 else -((-rate) / 10)
  }

  function Tick(s: Limiter): Limiter {
    var sum := s.tokens + Refill(s.rate);
    s.(tokens := if sum > s.capacity then s.capacity else sum)
  }

  /** A tick adds a tenth of the rate, rounded down, or as much of it as there is room for, and changes
      nothing else. */
  lemma TickAdds(s: Limiter)
    requires s.rate >= 0 && s.tokens <= s.capacity
    ensures var x := Tick(s).tokens - s.tokens;
            && Tick(s).tokens <= s.capacity && 0 <= 10 * x <= s.rate
            && (Tick(s).tokens < s.capacity ==> s.rate < 10 * x + 10)
    ensures Tick(s) == s.(tokens := Tick(s).tokens)
  {
  }

  /** The room a request makes for itself. */
  function Raised(s: Limiter, n: int): Limiter {
    if n > s.capacity then s.(capacity := n) else s
  }

  function Taken(s: Limiter, n: int): Limiter {
    s.(tokens := s.tokens - n)
  }

  ghost function NewLimiter(rate: int): Limiter {
    Limiter(rate, rate, rate, false, multiset{})
  }

  ghost predicate Enabled(s: Limiter, e: Event) {
    match e
    case Entered(n) => s.rate > 0
    case Granted(n) => n in s.waiting && s.tokens >= n
    case Left(n) => n in s.waiting && s.tokens < n && s.closed
    case Ticked => true
    case Closed => true
  }

  ghost function Next(s: Limiter, e: Event): Limiter {
    match e
    case Ticked => Tick(s)
    case Entered(n) => Raised(s, n).(waiting := s.waiting + multiset{n})
    case Granted(n) => Taken(s, n).(waiting := s.waiting - multiset{n})
    case Closed => s.(closed := true)
    case Left(n) => s.(waiting := s.waiting - multiset{n})
  }

  ghost function After(s: Limiter, log: seq<Event>): Limiter {
    if log == [] then s else Next(After(s, log[..|log| - 1]), log[|log| - 1])
  }

  ghost predicate Feasible(s: Limiter, log: seq<Event>) {
    log == [] || (Feasible(s, log[..|log| - 1]) && Enabled(After(s, log[..|log| - 1]), log[|log| - 1]))
  }

  /** Never in debt, never over capacity, and nobody waits for more than the bucket can hold. */
  ghost predicate Inv(s: Limiter) {
    && 0 <= s.tokens <= s.capacity
    && forall n :: n in s.waiting ==> 0 <= n <= s.capacity
  }

  /** Requests are lengths. */
  ghost predicate Lengths(log: seq<Event>) {
    forall k :: 0 <= k < |log| && log[k].Entered? ==> 0 <= log[k].n
  }

  lemma {:induction false} InvHolds(s: Limiter, log: seq<Event>)
    requires Inv(s) && s.rate >= 0 && Feasible(s, log) && Lengths(log)
    ensures Inv(After(s, log)) && After(s, log).rate == s.rate && After(s, log).capacity >= s.capacity
  {
    if log != [] {
      InvHolds(s, log[..|log| - 1]);
    }
  }

  /** Starting from scratch: a rate that is not negative is a state within bounds. */
  lemma NewLimiterInv(rate: int, log: seq<Event>)
    requires Feasible(NewLimiter(rate), log) && Lengths(log)
    ensures rate >= 0 ==> Inv(After(NewLimiter(rate), log))
    ensures rate < 0 ==> !Inv(NewLimiter(rate))
  {
    if rate >= 0 { InvHolds(NewLimiter(rate), log); }
  }

  /** A step keeps the bounds unless it is a request for a negative number. */
  lemma StepInv(s: Limiter, e: Event)
    requires Inv(s) && s.rate >= 0 && Enabled(s, e)
    ensures Inv(Next(s, e)) <==> !(e.Entered? && e.n < 0)
  {
    if e.Entered? {
      assert e.n in Next(s, e).waiting;
    }
  }

  ghost predicate InvThroughout(s: Limiter, log: seq<Event>) {
    Inv(After(s, log)) && (log == [] || InvThroughout(s, log[..|log| - 1]))
  }

  /** So the bounds hold at every point of a run exactly if no request in it is negative. */
  lemma {:induction false} InvExact(s: Limiter, log: seq<Event>)
    requires Inv(s) && s.rate >= 0 && Feasible(s, log)
    ensures InvThroughout(s, log) <==> Lengths(log)
  {
    if log != [] {
      var init, e := log[..|log| - 1], log[|log| - 1];
      InvExact(s, init);
      LengthsSnoc(init, e);
      assert log == init + [e];
      if Lengths(init) {
        InvHolds(s, init);
        StepInv(After(s, init), e);
      }
    }
  }

  lemma LengthsSnoc(log: seq<Event>, e: Event)
    ensures Lengths(log + [e]) <==> Lengths(log) && !(e.Entered? && e.n < 0)
  {
    var all := log + [e];
    assert forall k :: 0 <= k < |log| ==> all[k] == log[k];
    assert all[|log|] == e;
  }

  // ---------- throughput ----------

  ghost function BytesGranted(log: seq<Event>): int {
    if log == [] then 0 else
      BytesGranted(log[..|log| - 1]) + if log[|log| - 1].Granted? then log[|log| - 1].n else 0
  }

  ghost function Ticks(log: seq<Event>): nat {
    if log == [] then 0 else Ticks(log[..|log| - 1]) + if log[|log| - 1].Ticked? then 1 else 0
  }

  /** What the ticks of a run add when none of it spills. */
  ghost function Refills(log: seq<Event>, q: int): int {
    if log == [] then 0 else Refills(log[..|log| - 1], q) + if log[|log| - 1].Ticked? then q else 0
  }

  lemma {:induction false} RefillsAreTicks(log: seq<Event>, q: int)
    ensures Refills(log, q) == Ticks(log) * q
  {
    if log != [] {
      RefillsAreTicks(log[..|log| - 1], q);
    }
  }

  /** What is granted comes out of the bucket: tokens at the end and bytes granted never exceed
      tokens at the start and refills. */
  lemma {:induction false} Conservation(s: Limiter, log: seq<Event>)
    requires Inv(s) && s.rate >= 0 && Feasible(s, log) && Lengths(log)
    ensures After(s, log).tokens + BytesGranted(log) <= s.tokens + Refills(log, s.rate / 10)
  {
    if log != [] {
      Conservation(s, log[..|log| - 1]);
      InvHolds(s, log[..|log| - 1]);
    }
  }

  /** Over any window of a run, however many callers there are: what the bucket can hold, and a tenth
      of the rate for each tick. */
  lemma Throughput(s: Limiter, log: seq<Event>)
    requires Inv(s) && s.rate >= 0 && Feasible(s, log) && Lengths(log)
    ensures BytesGranted(log) <= s.capacity + Ticks(log) * (s.rate / 10)
    ensures 10 * BytesGranted(log) <= 10 * s.capacity + Ticks(log) * s.rate
  {
    Conservation(s, log);
    RefillsAreTicks(log, s.rate / 10);
    InvHolds(s, log);
    Tenths(Ticks(log), s.rate);
  }

  lemma Tenths(k: nat, rate: nat)
    ensures 10 * (k * (rate / 10)) <= k * rate
  {
    var q, r := rate / 10, rate % 10;
    assert k * rate == k * (10 * q) + k * r;
    assert k * (10 * q) == 10 * (k * q);
  }

  lemma {:induction false} NonNegative(s: Limiter, log: seq<Event>)
    requires Inv(s) && s.rate >= 0 && Feasible(s, log) && Lengths(log)
    ensures BytesGranted(log) >= 0
  {
    if log != [] {
      NonNegative(s, log[..|log| - 1]);
      InvHolds(s, log[..|log| - 1]);
    }
  }

  /** Below ten bytes a second a tick adds nothing: from any point on, all that is ever granted is
      what the bucket holds, and a request beyond it is never granted, however long the run. */
  lemma SlowRatesStarve(s: Limiter, log: seq<Event>)
    requires Inv(s) && 0 <= s.rate < 10 && Feasible(s, log) && Lengths(log)
    ensures BytesGranted(log) <= s.tokens
    ensures After(s, log).tokens <= s.tokens
  {
    hide Feasible, Lengths, BytesGranted, After, Refills;
    assert s.rate / 10 == 0;
    Conservation(s, log);
    RefillsAreTicks(log, 0);
    NonNegative(s, log);
    InvHolds(s, log);
  }

  // ---------- a caller on its own ----------

  datatype Wake = WokenByTick | WokenByClose

  datatype Outcome = Unlimited | Served | GaveUp | StillWaiting

  function Woken(s: Limiter, w: Wake): Limiter {
    if w == WokenByTick then Tick(s) else s.(closed := true)
  }

  /** The loop of Wait for a sole caller: what wakes it, in order, as far as it goes. */
  ghost function Waited(s: Limiter, n: int, wakes: seq<Wake>): (Limiter, Outcome, nat)
    decreases |wakes|
  {
    if s.tokens >= n then (Taken(s, n), Served, 0)
    else if s.closed then (s, GaveUp, 0)
    else if wakes == [] then (s, StillWaiting, 0)
    else
      var (t, outcome, used) := Waited(Woken(s, wakes[0]), n, wakes[1..]);
      (t, outcome, used + 1)
  }

  ghost function WaitedFor(s: Limiter, n: int, wakes: seq<Wake>): (Limiter, Outcome, nat) {
    if s.rate <= 0 then (s, Unlimited, 0) else Waited(Raised(s, n), n, wakes)
  }

  /** The ticks needed to bring tokens up to n. */
  ghost function TicksNeeded(tokens: int, n: int, q: int): nat
    requires q >= 1
  {
    if tokens >= n then 0 else (n - tokens + q - 1) / q
  }

  /** It is the ceiling of (n - tokens) / q. */
  lemma TicksNeededIsCeiling(tokens: int, n: int, q: int)
    requires q >= 1 && tokens < n
    ensures var k := TicksNeeded(tokens, n, q); (k - 1) * q < n - tokens <= k * q
  {
    var m := n - tokens + q - 1;
    var k := m / q;
    assert m == k * q + m % q;
    assert (k - 1) * q == k * q - q;
  }

  lemma OneTickLess(tokens: int, n: int, q: int)
    requires q >= 1 && tokens < n
    ensures TicksNeeded(tokens, n, q) == TicksNeeded(tokens + q, n, q) + 1
  {
    var m := n - tokens + q - 1;
    DivStep(m, q);
  }

  lemma DivStep(m: int, q: int)
    requires q >= 1 && m >= q
    ensures m / q == (m - q) / q + 1
  {
    var k, r := (m - q) / q, (m - q) % q;
    assert m == (k + 1) * q + r;
    DivUnique(m, q, k + 1, r);
  }

  lemma DivUnique(m: int, q: int, k: int, r: int)
    requires q >= 1 && m == k * q + r && 0 <= r < q
    ensures m / q == k
  {
    var d := m / q - k;
    assert m == (m / q) * q + m % q;
    assert d * q == r - m % q;
    Multiple(d, q);
  }

  lemma Multiple(d: int, q: int)
    requires q >= 1
    ensures d >= 1 ==> d * q >= q
    ensures d <= -1 ==> d * q <= -q
  {
  }

  ghost predicate OnlyTicks(wakes: seq<Wake>) {
    forall k :: 0 <= k < |wakes| ==> wakes[k] == WokenByTick
  }

  /** Ticking alone, a request within the capacity is served at the tick that brings the tokens up
      to it and not before. */
  lemma {:induction false} ServedOnTime(s: Limiter, n: int, wakes: seq<Wake>)
    requires s.rate >= 10 && !s.closed && n <= s.capacity && OnlyTicks(wakes)
    ensures var k := TicksNeeded(s.tokens, n, s.rate / 10);
            if k <= |wakes| then Waited(s, n, wakes).1 == Served && Waited(s, n, wakes).2 == k
            else Waited(s, n, wakes).1 == StillWaiting
    decreases |wakes|
  {
    if s.tokens < n {
      var q := s.rate / 10;
      OneTickLess(s.tokens, n, q);
      if wakes != [] {
        assert s.tokens + q > s.capacity ==> TicksNeeded(s.tokens + q, n, q) == 0;
        ServedOnTime(Tick(s), n, wakes[1..]);
      }
    }
  }

  lemma {:induction false} NeverServed(s: Limiter, n: int, wakes: seq<Wake>)
    requires 0 <= s.rate < 10 && !s.closed && s.tokens < n <= s.capacity && OnlyTicks(wakes)
    ensures Waited(s, n, wakes).1 == StillWaiting
    decreases |wakes|
  {
    if wakes != [] {
      NeverServed(Tick(s), n, wakes[1..]);
    }
  }

  ghost function AllTicks(k: nat): seq<Wake> {
    seq(k, i => WokenByTick)
  }

  /** A sole caller of an open limiter is served after some number of ticks if and only if the
      tokens are there already or the rate is at least ten; raising the capacity first is what
      lets a request of any size through. */
  lemma SoleCallerServed(s: Limiter, n: int)
    requires s.rate > 0 && !s.closed
    ensures (exists k :: WaitedFor(s, n, AllTicks(k)).1 == Served) <==> s.tokens >= n || s.rate >= 10
  {
    var r := Raised(s, n);
    if s.tokens >= n {
      assert WaitedFor(s, n, AllTicks(0)).1 == Served;
    } else if s.rate >= 10 {
      var k := TicksNeeded(r.tokens, n, r.rate / 10);
      ServedOnTime(r, n, AllTicks(k));
      assert WaitedFor(s, n, AllTicks(k)).1 == Served;
    } else {
      forall k: nat ensures WaitedFor(s, n, AllTicks(k)).1 != Served {
        NeverServed(r, n, AllTicks(k));
      }
    }
  }

  ghost function WokenAll(s: Limiter, wakes: seq<Wake>): Limiter
    decreases |wakes|
  {
    if wakes == [] then s else WokenAll(Woken(s, wakes[0]), wakes[1..])
  }

  /** What came of a wait: it ends at the first point, of those the wake-ups lead through, at which the
      tokens are there or the limiter is closed. */
  lemma {:induction false} WaitExplained(s: Limiter, n: int, wakes: seq<Wake>)
    ensures var (t, outcome, used) := Waited(s, n, wakes);
            && used <= |wakes|
            && (forall j :: 0 <= j < used ==>
                  WokenAll(s, wakes[..j]).tokens < n && !WokenAll(s, wakes[..j]).closed)
            && var woken := WokenAll(s, wakes[..used]);
               match outcome {
                 case Served => woken.tokens >= n && t == woken.(tokens := woken.tokens - n)
                 case GaveUp => woken.tokens < n && woken.closed && t == woken
                 case StillWaiting => used == |wakes| && woken.tokens < n && !woken.closed && t == woken
                 case Unlimited => false
               }
    decreases |wakes|
  {
    if s.tokens < n && !s.closed && wakes != [] {
      var next := Woken(s, wakes[0]);
      WaitExplained(next, n, wakes[1..]);
      var used := Waited(s, n, wakes).2;
      forall j | 0 < j <= used ensures WokenAll(s, wakes[..j]) == WokenAll(next, wakes[1..][..j - 1]) {
        assert wakes[..j][1..] == wakes[1..][..j - 1];
      }
    }
  }

  /** What the state machine lets a waiting caller do is what the loop of Wait does, and who is admitted
      is who is not unlimited. */
  lemma EnabledAgrees(s: Limiter, n: int)
    ensures Enabled(s, Entered(n)) <==> WaitedFor(s, n, []).1 != Unlimited
    ensures n in s.waiting ==> (Enabled(s, Granted(n)) <==> Waited(s, n, []).1 == Served)
    ensures n in s.waiting ==> (Enabled(s, Left(n)) <==> Waited(s, n, []).1 == GaveUp)
    ensures n !in s.waiting ==> !Enabled(s, Granted(n)) && !Enabled(s, Left(n))
  {
  }

  /** The events a caller's wait consists of. */
  ghost function EventsOf(wakes: seq<Wake>): seq<Event> {
    seq(|wakes|, i requires 0 <= i < |wakes| => if wakes[i] == WokenByTick then Ticked else Closed)
  }

  ghost function Ending(n: int, outcome: Outcome): seq<Event> {
    if outcome == Served then [Granted(n)] else if outcome == GaveUp then [Left(n)] else []
  }

  lemma {:induction false} WakesAreEvents(s: Limiter, wakes: seq<Wake>)
    ensures Feasible(s, EventsOf(wakes)) && After(s, EventsOf(wakes)).waiting == s.waiting
    ensures After(s, EventsOf(wakes)) == WokenAll(s, wakes)
  {
    if wakes != [] {
      var n := |wakes| - 1;
      WakesAreEvents(s, wakes[..n]);
      assert EventsOf(wakes)[..n] == EventsOf(wakes[..n]);
      WokenSnoc(s, wakes[..n], wakes[n]);
      assert wakes == wakes[..n] + [wakes[n]];
    }
  }

  lemma {:induction false} WokenSnoc(s: Limiter, wakes: seq<Wake>, w: Wake)
    ensures WokenAll(s, wakes + [w]) == Woken(WokenAll(s, wakes), w)
    decreases |wakes|
  {
    if wakes != [] {
      WokenSnoc(Woken(s, wakes[0]), wakes[1..], w);
      assert (wakes + [w])[1..] == wakes[1..] + [w];
    }
  }

  /** A wait, from the moment the caller is in, is a run of the state machine, to the same state. */
  lemma WaitIsRun(s: Limiter, n: int, wakes: seq<Wake>)
    requires s.waiting == multiset{n}
    ensures var (t, outcome, used) := Waited(s, n, wakes);
            && used <= |wakes|
            && var log := EventsOf(wakes[..used]) + Ending(n, outcome);
               Feasible(s, log)
               && After(s, log) == t.(waiting := if outcome == StillWaiting then multiset{n} else multiset{})
  {
    var (t, outcome, used) := Waited(s, n, wakes);
    WaitExplained(s, n, wakes);
    WakesAreEvents(s, wakes[..used]);
    var log, end := EventsOf(wakes[..used]), Ending(n, outcome);
    if end == [] {
      assert log + end == log;
    } else {
      assert (log + end)[..|log|] == log;
    }
  }

  /** A close releases the caller: if one is among what wakes it, it does not wait on; and it leaves
      without taking anything, the limiter being as the wake-ups made it, unless the tokens it waits
      for are there by then. */
  lemma {:induction false} CloseReleases(s: Limiter, n: int, wakes: seq<Wake>)
    requires s.closed || WokenByClose in wakes
    ensures var (t, outcome, used) := Waited(s, n, wakes);
            && used <= |wakes|
            && var woken := WokenAll(s, wakes[..used]);
               || (outcome == GaveUp && woken.tokens < n && t == woken)
               || (outcome == Served && woken.tokens >= n && t == Taken(woken, n))
    decreases |wakes|
  {
    if s.tokens < n && !s.closed {
      CloseReleases(Woken(s, wakes[0]), n, wakes[1..]);
      var used := Waited(s, n, wakes).2;
      assert wakes[..used][1..] == wakes[1..][..used - 1];
    }
  }
}
