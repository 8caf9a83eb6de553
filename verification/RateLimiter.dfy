/** The limiter as the program keeps it, for one caller at a time. */
module RateLimiter {
  import opened LimiterModel

  class RateLimiter {
    const rate: int
    var capacity: int
    var tokens: int
    var closed: bool

    ghost function State(): Limiter
      reads this
    {
      Limiter(rate, capacity, tokens, closed, multiset{})
    }

    constructor (rate: int)
      ensures State() == NewLimiter(rate)
    {
      this.rate, capacity, tokens, closed := rate, rate, rate, false;
    }

    /** One turn of the refill goroutine. */
    method Refresh()
      modifies this
      ensures State() == Tick(old(State()))
      ensures rate >= 0 ==>
                tokens == if old(tokens) + rate / 10 > capacity then capacity else old(tokens) + rate / 10
      ensures rate < 0 ==> tokens == if old(tokens) - -rate / 10 > capacity then capacity else old(tokens) - -rate / 10
    {
      tokens := tokens + Refill(rate);
      if tokens > capacity {
        tokens := capacity;
      }
    }

    method Close()
      modifies this
      ensures State() == old(State()).(closed := true)
    {
      closed := true;
    }

    /** wakes: what broadcasts while the caller is blocked, in order. */
    method Wait(n: int, wakes: seq<Wake>) returns (outcome: Outcome, used: nat)
      modifies this
      ensures (State(), outcome, used) == WaitedFor(old(State()), n, wakes)
      ensures outcome == Unlimited <==> rate <= 0
      ensures rate <= 0 ==> State() == old(State())
      ensures rate > 0 ==> capacity == if n > old(capacity) then n else old(capacity)
    {
      used := 0;
      if rate <= 0 {
        return Unlimited, 0;
      }
      if n > capacity {
        capacity := n;
      }
      ghost var start := State();
      while tokens < n
        invariant used <= |wakes| && capacity == start.capacity
        invariant var (t, o, u) := Waited(State(), n, wakes[used..]);
                  Waited(start, n, wakes) == (t, o, used + u)
        decreases |wakes| - used
      {
        if closed {
          return GaveUp, used;
        }
        if used == |wakes| {
          return StillWaiting, used;
        }
        assert wakes[used..][1..] == wakes[used + 1..];
        if wakes[used] == WokenByTick {
          Refresh();
        } else {
          Close();
        }
        used := used + 1;
      }
      tokens := tokens - n;
      outcome := Served;
    }
  }

  /** Wait on a limiter that may be absent, which limits nothing. */
  method WaitOn(rl: RateLimiter?, n: int, wakes: seq<Wake>) returns (outcome: Outcome, used: nat)
    modifies if rl == null then {} else {rl}
    ensures rl == null ==> outcome == Unlimited && used == 0
    ensures rl != null ==> (rl.State(), outcome, used) == WaitedFor(old(rl.State()), n, wakes)
  {
    if rl == null {
      return Unlimited, 0;
    }
    outcome, used := rl.Wait(n, wakes);
  }
}
