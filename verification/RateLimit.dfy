/** The token bucket of src/ratelimit.rs, over real time and real token counts. */
module RateLimit {
  import opened Net

  /** The state of a limiter. */
  datatype Bucket = Bucket(rate: real, burst: real, tokens: real, last: real) {

    predicate Valid() {
      0.0 <= rate && 1.0 <= burst && 0.0 <= tokens <= burst
    }

    /** Tokens available at time `now`: refilled for the time elapsed, capped at the burst. A clock
        reading before the last one counts as no time at all. */
    function Level(now: real): real {
      var elapsed := if now >= last then now - last else 0.0;
      var filled := tokens + elapsed * rate;
      if filled <= burst then filled else burst
    }

    predicate Allows(now: real) {
      Level(now) >= 1.0
    }

    /** The state after a call at time `now` that takes a token if `take`. */
    function After(now: real, take: bool): Bucket {
      this.(tokens := if take then Level(now) - 1.0 else Level(now), last := now)
    }

    function Next(now: real): Bucket {
      After(now, Allows(now))
    }
  }

  function NewBucket(rate: u32, burst: u32, now: real): (b: Bucket)
    ensures b.Valid()
  {
    var cap := if burst < 1 then 1.0 else burst as real;
    Bucket(rate as real, cap, cap, now)
  }

  class RateLimiter {
    const rate: real
    const burst: real
    var tokens: real
    var last: real

    ghost function State(): Bucket
      reads this
    {
      Bucket(rate, burst, tokens, last)
    }

    constructor (rate: u32, burst: u32, now: real)
      ensures State() == NewBucket(rate, burst, now)
    {
      var cap := if burst >= 1 then burst as real else 1.0;
      this.rate := rate as real;
      this.burst := cap;
      this.tokens := cap;
      this.last := now;
    }

    /** Refill for the time since the last call, then try to take one token. */
    method Allow(now: real) returns (allowed: bool)
      modifies this
      ensures allowed == old(State()).Allows(now)
      ensures State() == old(State()).Next(now)
    {
      var elapsed := if now >= last then now - last else 0.0;
      last := now;
      var filled := tokens + elapsed * rate;
      tokens := if filled < burst then filled else burst;
      if tokens >= 1.0 {
        tokens := tokens - 1.0;
        return true;
      }
      return false;
    }
  }

  // ---------------------------------------------------------------- whole runs

  /** Calls at times that never go back, the first not before `start`. */
  predicate Ordered(start: real, times: seq<real>)
    decreases |times|
  {
    |times| > 0 ==> start <= times[0] && Ordered(times[0], times[1..])
  }

  function Run(b: Bucket, times: seq<real>): Bucket
    decreases |times|
  {
    if |times| == 0 then b else Run(b.Next(times[0]), times[1..])
  }

  /** What each call of a run returns. */
  function Decisions(b: Bucket, times: seq<real>): (d: seq<bool>)
    ensures |d| == |times|
    decreases |times|
  {
    if |times| == 0 then [] else [b.Allows(times[0])] + Decisions(b.Next(times[0]), times[1..])
  }

  function Count(d: seq<bool>): nat {
    if |d| == 0 then 0 else (if d[0] then 1 else 0) + Count(d[1..])
  }

  lemma NextValid(b: Bucket, now: real)
    requires b.Valid()
    ensures b.Next(now).Valid() && b.Next(now).rate == b.rate && b.Next(now).burst == b.burst
    ensures b.Next(now).last == now
    ensures 0.0 <= b.Level(now) <= b.burst
  {
    if now >= b.last {
      assert (now - b.last) * b.rate >= 0.0;
    }
  }

  /** A clock that has gone back gives no tokens and takes none; it is followed from there on. */
  lemma ClockGoesBack(b: Bucket, now: real)
    requires b.Valid() && now <= b.last
    ensures b.Level(now) == b.tokens && (b.Allows(now) <==> b.tokens >= 1.0)
    ensures b.Next(now) == Bucket(b.rate, b.burst, if b.tokens >= 1.0 then b.tokens - 1.0 else b.tokens, now)
  {
  }

  /** The token count stays between zero and the burst in every run, whatever the clock does. */
  lemma {:induction false} TokensStayInBounds(b: Bucket, times: seq<real>)
    requires b.Valid()
    ensures Run(b, times).Valid() && Run(b, times).rate == b.rate && Run(b, times).burst == b.burst
    ensures |times| > 0 ==> Run(b, times).last == times[|times| - 1]
    decreases |times|
  {
    if |times| == 0 {
    } else {
      NextValid(b, times[0]);
      TokensStayInBounds(b.Next(times[0]), times[1..]);
    }
  }

  lemma {:induction false} RunConcat(b: Bucket, s: seq<real>, t: seq<real>)
    ensures Run(b, s + t) == Run(Run(b, s), t)
    ensures Decisions(b, s + t) == Decisions(b, s) + Decisions(Run(b, s), t)
    decreases |s|
  {
    if |s| == 0 {
      assert s + t == t;
    } else {
      assert (s + t)[1..] == s[1..] + t;
      RunConcat(b.Next(s[0]), s[1..], t);
    }
  }

  lemma {:induction false} OrderedSplit(start: real, s: seq<real>, t: seq<real>)
    requires Ordered(start, s + t)
    ensures Ordered(start, s)
    ensures Ordered(if |s| == 0 then start else s[|s| - 1], t)
    ensures |s| > 0 ==> start <= s[|s| - 1]
    decreases |s|
  {
    if |s| == 0 {
      assert s + t == t;
    } else {
      assert (s + t)[1..] == s[1..] + t;
      OrderedSplit(s[0], s[1..], t);
    }
  }

  lemma {:induction false} OrderedSnoc(start: real, s: seq<real>, t: real)
    ensures Ordered(start, s + [t])
            <==> Ordered(start, s) && (if |s| == 0 then start else s[|s| - 1]) <= t
    decreases |s|
  {
    if |s| == 0 {
      assert s + [t] == [t] && [t][1..] == [];
    } else {
      assert (s + [t])[1..] == s[1..] + [t];
      OrderedSnoc(s[0], s[1..], t);
    }
  }

  lemma OrderedEnds(start: real, s: seq<real>)
    requires Ordered(start, s) && |s| > 0
    ensures start <= s[0] <= s[|s| - 1]
  {
    assert s == [s[0]] + s[1..];
    assert s[1..] + [] == s[1..];
    OrderedSplit(s[0], s[1..], []);
  }

  lemma {:induction false} CountConcat(a: seq<bool>, b: seq<bool>)
    ensures Count(a + b) == Count(a) + Count(b)
  {
    if |a| == 0 {
      assert a + b == b;
    } else {
      assert (a + b)[1..] == a[1..] + b;
      CountConcat(a[1..], b);
    }
  }

  // ---------------------------------------------------------------- the window bound

  /** The most calls that a limiter of this rate may accept from time `t0`, holding `burst` tokens, to
      time `t1`. */
  function Allowance(rate: real, burst: real, t0: real, t1: real): real {
    burst + rate * (t1 - t0)
  }

  lemma LevelBySupply(b: Bucket, now: real)
    requires b.last <= now
    ensures b.Level(now) <= b.tokens + b.rate * (now - b.last)
  {
    assert (now - b.last) * b.rate == b.rate * (now - b.last);
  }

  lemma SplitSupply(rate: real, t0: real, t1: real, t2: real)
    ensures rate * (t2 - t0) == rate * (t1 - t0) + rate * (t2 - t1)
  {
  }

  /** One call is paid for by the tokens held and those refilled since. */
  lemma SupplyStep(b: Bucket, t: real, end: real, accepted: nat)
    requires b.last <= t
    requires accepted as real <= Allowance(b.rate, b.Next(t).tokens, t, end)
    ensures (accepted + if b.Allows(t) then 1 else 0) as real <= Allowance(b.rate, b.tokens, b.last, end)
  {
    LevelBySupply(b, t);
    SplitSupply(b.rate, b.last, t, end);
  }

  /** Accepted calls are paid for by the tokens held and those refilled since. */
  lemma {:induction false} AcceptedBySupply(b: Bucket, times: seq<real>, end: real)
    requires b.Valid() && |times| > 0 && Ordered(b.last, times) && end == times[|times| - 1]
    ensures Count(Decisions(b, times)) as real <= Allowance(b.rate, b.tokens, b.last, end)
    decreases |times|
  {
    var t, rest := times[0], times[1..];
    NextValid(b, t);
    if |rest| > 0 {
      AcceptedBySupply(b.Next(t), rest, end);
    }
    var d := Decisions(b.Next(t), rest);
    assert Decisions(b, times) == [b.Allows(t)] + d;
    assert ([b.Allows(t)] + d)[1..] == d;
    SupplyStep(b, t, end, Count(d));
  }

  /** A window of a run is the run of that window from the state before it. */
  lemma WindowOfRun(b: Bucket, before: seq<real>, window: seq<real>, rest: seq<real>)
    requires b.Valid() && Ordered(b.last, before + (window + rest))
    ensures var s := Run(b, before);
            && s.Valid() && s.rate == b.rate && s.burst == b.burst
            && Ordered(s.last, window)
            && Decisions(b, before + (window + rest))[|before|..|before| + |window|] == Decisions(s, window)
  {
    var s := Run(b, before);
    OrderedSplit(b.last, before, window + rest);
    TokensStayInBounds(b, before);
    OrderedSplit(s.last, window, rest);
    RunConcat(b, before, window + rest);
    RunConcat(s, window, rest);
  }

  lemma RefilledAtFirstCall(s: Bucket, window: seq<real>, s': Bucket)
    requires s.Valid() && |window| > 0
    requires s' == s.(tokens := s.Level(window[0]), last := window[0])
    ensures s'.Valid() && Decisions(s', window) == Decisions(s, window)
  {
    NextValid(s, window[0]);
    assert s'.Level(window[0]) == s.Level(window[0]);
    assert s'.Next(window[0]) == s.Next(window[0]);
  }

  lemma AllowanceMonotone(s: Bucket, t1: real)
    requires s.Valid()
    ensures Allowance(s.rate, s.tokens, s.last, t1) <= Allowance(s.rate, s.burst, s.last, t1)
  {
  }

  lemma WindowOfRefilled(s: Bucket, window: seq<real>, t1: real)
    requires s.Valid() && |window| > 0 && Ordered(s.last, window) && t1 == window[|window| - 1]
    ensures Count(Decisions(s, window)) as real <= Allowance(s.rate, s.burst, s.last, t1)
  {
    AcceptedBySupply(s, window, t1);
    AllowanceMonotone(s, t1);
  }

  lemma WindowFromState(s: Bucket, window: seq<real>)
    requires s.Valid() && |window| > 0 && Ordered(s.last, window)
    ensures Count(Decisions(s, window)) as real
            <= Allowance(s.rate, s.burst, window[0], window[|window| - 1])
  {
    var s' := s.(tokens := s.Level(window[0]), last := window[0]);
    RefilledAtFirstCall(s, window, s');
    WindowOfRefilled(s', window, window[|window| - 1]);
  }

  /** In any run and any window of it, from call i to call j, the calls accepted number at most the
      burst plus what the rate supplies in the time between. */
  lemma WindowBound(b: Bucket, times: seq<real>, i: nat, j: nat)
    requires b.Valid() && Ordered(b.last, times) && i <= j < |times|
    ensures Count(Decisions(b, times)[i..j + 1]) as real <= Allowance(b.rate, b.burst, times[i], times[j])
  {
    var s := WindowState(b, times, i, j);
    WindowFromState(s, times[i..j + 1]);
  }

  lemma WindowState(b: Bucket, times: seq<real>, i: nat, j: nat) returns (s: Bucket)
    requires b.Valid() && Ordered(b.last, times) && i <= j < |times|
    ensures s.Valid() && s.rate == b.rate && s.burst == b.burst
    ensures Ordered(s.last, times[i..j + 1])
    ensures Decisions(b, times)[i..j + 1] == Decisions(s, times[i..j + 1])
  {
    var before, window, rest := times[..i], times[i..j + 1], times[j + 1..];
    assert times == before + (window + rest);
    WindowOfRun(b, before, window, rest);
    s := Run(b, before);
  }

  // ---------------------------------------------------------------- lossless exactly on conforming traffic

  /** No window of the arrivals holds more than the burst plus what the rate supplies in it. */
  predicate Conforming(rate: real, burst: real, times: seq<real>) {
    forall i, j | 0 <= i <= j < |times| ::
      WindowSize(i, j) <= Allowance(rate, burst, times[i], times[j])
  }

  function WindowSize(i: nat, j: nat): real
    requires i <= j
  {
    (j - i + 1) as real
  }

  predicate AllTrue(d: seq<bool>) {
    forall i | 0 <= i < |d| :: d[i]
  }

  lemma {:induction false} CountAllTrue(d: seq<bool>)
    requires AllTrue(d)
    ensures Count(d) == |d|
  {
    if |d| == 0 {
    } else {
      CountAllTrue(d[1..]);
    }
  }

  /** A bucket that has lost `n` tokens since it was full at time `t0`, and not run full since. */
  predicate OwesFrom(b: Bucket, now: real, t0: real, n: nat) {
    b.Level(now) == Allowance(b.rate, b.burst, t0, now) - n as real
  }

  lemma FullStaysFull(b: Bucket, now: real)
    requires b.Valid() && b.tokens == b.burst
    ensures OwesFrom(b, now, now, 0)
  {
    NextValid(b, now);
    assert now >= b.last ==> (now - b.last) * b.rate >= 0.0;
  }

  lemma OwesOneMore(b: Bucket, t: real, t0: real, n: nat, now: real)
    requires b.Valid() && t <= now && b.Allows(t) && OwesFrom(b, t, t0, n)
    ensures OwesFrom(b.Next(t), now, t0, n + 1) || OwesFrom(b.Next(t), now, now, 0)
  {
    SplitSupply(b.rate, t0, t, now);
    assert (now - t) * b.rate == b.rate * (now - t);
  }

  /** If the first `k` calls were all accepted, the level at the next call is what a full bucket at
      some earlier call, the witness `i`, has left. */
  lemma {:induction false} LevelHasWitness(b: Bucket, times: seq<real>, k: nat) returns (i: nat)
    requires b.Valid() && b.tokens == b.burst && Ordered(b.last, times) && k < |times|
    requires AllTrue(Decisions(b, times[..k]))
    ensures i <= k && OwesFrom(Run(b, times[..k]), times[k], times[i], k - i)
  {
    OrderedAt(b.last, times, k);
    if k == 0 {
      assert times[..0] == [];
      FullStaysFull(b, times[0]);
      i := 0;
    } else {
      var p := Run(b, times[..k - 1]);
      TokensStayInBounds(b, times[..k - 1]);
      LastCall(b, times, k - 1);
      i := LevelHasWitness(b, times, k - 1);
      OwesOneMore(p, times[k - 1], times[i], k - 1 - i, times[k]);
      if !OwesFrom(p.Next(times[k - 1]), times[k], times[i], k - i) {
        i := k;
      }
    }
  }

  /** The run of `k + 1` calls is the run of `k` calls and one more. */
  lemma LastCall(b: Bucket, times: seq<real>, k: nat)
    requires k < |times|
    ensures Run(b, times[..k + 1]) == Run(b, times[..k]).Next(times[k])
    ensures AllTrue(Decisions(b, times[..k + 1]))
            <==> AllTrue(Decisions(b, times[..k])) && Run(b, times[..k]).Allows(times[k])
  {
    var s := Run(b, times[..k]);
    assert times[..k + 1] == times[..k] + [times[k]];
    RunConcat(b, times[..k], [times[k]]);
    SingleCall(s, times[k]);
    AllTrueConcat(Decisions(b, times[..k]), s.Allows(times[k]));
  }

  lemma AllTrueConcat(d: seq<bool>, last: bool)
    ensures AllTrue(d + [last]) <==> AllTrue(d) && last
  {
    assert (d + [last])[|d|] == last;
    assert forall i | 0 <= i < |d| :: (d + [last])[i] == d[i];
  }

  lemma SingleCall(b: Bucket, t: real)
    ensures Run(b, [t]) == b.Next(t)
    ensures Decisions(b, [t]) == [b.Allows(t)]
  {
    assert [t][1..] == [];
  }

  lemma OrderedAt(start: real, times: seq<real>, k: nat)
    requires Ordered(start, times) && k < |times|
    ensures k == 0 ==> start <= times[0]
    ensures k > 0 ==> times[k - 1] <= times[k]
  {
    assert times == times[..k] + times[k..];
    OrderedSplit(start, times[..k], times[k..]);
  }

  lemma ConformingLevel(b: Bucket, now: real, t0: real, n: nat)
    requires OwesFrom(b, now, t0, n)
    requires (n + 1) as real <= Allowance(b.rate, b.burst, t0, now)
    ensures b.Allows(now)
  {
  }

  lemma {:induction false} ConformingPrefixAccepted(b: Bucket, times: seq<real>, k: nat)
    requires b.Valid() && b.tokens == b.burst && Ordered(b.last, times) && k <= |times|
    requires Conforming(b.rate, b.burst, times)
    ensures AllTrue(Decisions(b, times[..k]))
  {
    if k == 0 {
    } else {
      ConformingPrefixAccepted(b, times, k - 1);
      var i := LevelHasWitness(b, times, k - 1);
      TokensStayInBounds(b, times[..k - 1]);
      ConformingLevel(Run(b, times[..k - 1]), times[k - 1], times[i], k - 1 - i);
      LastCall(b, times, k - 1);
    }
  }

  /** A limiter that starts full loses nothing exactly when the arrivals conform to its rate and
      burst. */
  lemma LosslessIffConforming(b: Bucket, times: seq<real>)
    requires b.Valid() && b.tokens == b.burst && Ordered(b.last, times)
    ensures AllTrue(Decisions(b, times)) <==> Conforming(b.rate, b.burst, times)
  {
    if Conforming(b.rate, b.burst, times) {
      ConformingPrefixAccepted(b, times, |times|);
      assert times[..|times|] == times;
    }
    if AllTrue(Decisions(b, times)) {
      forall i, j | 0 <= i <= j < |times|
        ensures WindowSize(i, j) <= Allowance(b.rate, b.burst, times[i], times[j])
      {
        WindowBound(b, times, i, j);
        CountAllTrue(Decisions(b, times)[i..j + 1]);
      }
    }
  }

  /** A limiter that has just been created lets exactly the traffic through unharmed that conforms to
      the rate and burst it was created with, a burst of zero counting as one. */
  lemma NewLimiterLossless(rate: u32, burst: u32, now: real, times: seq<real>)
    requires Ordered(now, times)
    ensures AllTrue(Decisions(NewBucket(rate, burst, now), times))
            <==> Conforming(rate as real, if burst == 0 then 1.0 else burst as real, times)
  {
    LosslessIffConforming(NewBucket(rate, burst, now), times);
  }

  // ---------------------------------------------------------------- greedy is optimal

  /** An identical bucket that may also decline calls could accept exactly the calls marked in
      `choice`. */
  predicate Admissible(b: Bucket, times: seq<real>, choice: seq<bool>)
    requires |choice| == |times|
    decreases |times|
  {
    |times| > 0 ==>
      && (choice[0] ==> b.Allows(times[0]))
      && Admissible(b.After(times[0], choice[0]), times[1..], choice[1..])
  }

  /** Simulation of a declining bucket `o` by the greedy bucket `g`, which has accepted `lead` calls
      more so far: the lead makes up for every token that `g` is short of. */
  lemma {:induction false} GreedyStaysAhead(
      g: Bucket, o: Bucket, times: seq<real>, choice: seq<bool>, lead: nat)
    requires |choice| == |times| && Admissible(o, times, choice)
    requires g.rate == o.rate && g.burst == o.burst && g.last == o.last
    requires g.tokens + lead as real >= o.tokens
    ensures lead + Count(Decisions(g, times)) >= Count(choice)
    decreases |times|
  {
    if |times| == 0 {
    } else {
      var t := times[0];
      var take, chosen := g.Allows(t), choice[0];
      var lead' := lead + (if take then 1 else 0) - (if chosen then 1 else 0);
      assert g.Level(t) + lead as real >= o.Level(t);
      assert lead' >= 0;
      GreedyStaysAhead(g.Next(t), o.After(t, chosen), times[1..], choice[1..], lead');
    }
  }

  lemma {:induction false} AdmissiblePrefix(b: Bucket, times: seq<real>, choice: seq<bool>, n: nat)
    requires n <= |choice| == |times| && Admissible(b, times, choice)
    ensures Admissible(b, times[..n], choice[..n])
    decreases n
  {
    if n == 0 {
    } else {
      AdmissiblePrefix(b.After(times[0], choice[0]), times[1..], choice[1..], n - 1);
      assert times[..n][1..] == times[1..][..n - 1] && choice[..n][1..] == choice[1..][..n - 1];
    }
  }

  /** No choice of calls that an identical bucket could accept gets ahead of the limiter in any
      prefix of any run. */
  lemma GreedyIsOptimal(b: Bucket, times: seq<real>, choice: seq<bool>, n: nat)
    requires n <= |choice| == |times| && Admissible(b, times, choice)
    ensures Count(Decisions(b, times)[..n]) >= Count(choice[..n])
  {
    assert times == times[..n] + times[n..];
    RunConcat(b, times[..n], times[n..]);
    assert Decisions(b, times)[..n] == Decisions(b, times[..n]);
    AdmissiblePrefix(b, times, choice, n);
    GreedyStaysAhead(b, b, times[..n], choice[..n], 0);
  }

  /** The limiter's own decisions are such a choice, so the bound is attained. */
  lemma {:induction false} DecisionsAreAdmissible(b: Bucket, times: seq<real>)
    ensures Admissible(b, times, Decisions(b, times))
    decreases |times|
  {
    if |times| == 0 {
    } else {
      DecisionsAreAdmissible(b.Next(times[0]), times[1..]);
    }
  }

  // ---------------------------------------------------------------- refused calls leave no trace

  /** The times of the accepted calls. */
  function AcceptedTimes(b: Bucket, times: seq<real>): seq<real>
    decreases |times|
  {
    if |times| == 0 then []
    else (if b.Allows(times[0]) then [times[0]] else []) + AcceptedTimes(b.Next(times[0]), times[1..])
  }

  /** `c` has been left alone since its last call while `b` was called in vain. */
  predicate Lags(c: Bucket, b: Bucket) {
    && c.rate == b.rate && c.burst == b.burst && c.Valid()
    && c.last <= b.last
    && b.tokens == c.Level(b.last)
  }

  lemma LaggingLevel(c: Bucket, b: Bucket, now: real)
    requires Lags(c, b) && b.last <= now
    ensures c.Level(now) == b.Level(now)
  {
    SplitSupply(c.rate, c.last, b.last, now);
    assert (now - b.last) * c.rate >= 0.0;
  }

  lemma {:induction false} ReplayLagging(c: Bucket, b: Bucket, times: seq<real>)
    requires Lags(c, b) && Ordered(b.last, times)
    ensures AllTrue(Decisions(c, AcceptedTimes(b, times)))
    ensures Lags(Run(c, AcceptedTimes(b, times)), Run(b, times))
    decreases |times|
  {
    if |times| == 0 {
    } else {
      var t := times[0];
      LaggingLevel(c, b, t);
      NextValid(c, t);
      if b.Allows(t) {
        ReplayLagging(c.Next(t), b.Next(t), times[1..]);
        assert AcceptedTimes(b, times)[1..] == AcceptedTimes(b.Next(t), times[1..]);
      } else {
        ReplayLagging(c, b.Next(t), times[1..]);
        assert AcceptedTimes(b, times) == AcceptedTimes(b.Next(t), times[1..]);
      }
    }
  }

  /** Refused calls leave no trace: replaying only the accepted calls, as a second identical limiter
      behind the first would see them, refuses nothing and ends with the same level at any later
      time. */
  lemma RefusedCallsLeaveNoTrace(b: Bucket, times: seq<real>, now: real)
    requires b.Valid() && Ordered(b.last, times)
    requires now >= Run(b, times).last
    ensures var kept := AcceptedTimes(b, times);
            && AllTrue(Decisions(b, kept))
            && Run(b, kept).Level(now) == Run(b, times).Level(now)
  {
    ReplayLagging(b, b, times);
    LaggingLevel(Run(b, AcceptedTimes(b, times)), Run(b, times), now);
  }
}
