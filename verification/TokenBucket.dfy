/** The relay's per-connection token bucket. */
module TokenBucket {

  datatype Bucket = Bucket(tokens: real, last: real)

  datatype Settings = Settings(rate: real, burst: int)

  function Min(x: real, y: real): real { if x < y then x else y }

  function Gain(rate: real, elapsed: real): real { elapsed * rate }

  /** Tokens available at `now`, before anything is taken. */
  function Level(s: Settings, b: Bucket, now: real): real
  {
    Min(b.tokens + Gain(s.rate, now - b.last), s.burst as real)
  }

  function Take(s: Settings, b: Bucket, tokens: int, now: real): (Bucket, bool)
  {
    var level := Level(s, b, now);
    if level >= tokens as real then (Bucket(level - tokens as real, now), true) else (Bucket(level, now), false)
  }

  class TokenBucketLimiter {
    const rate: real
    const burst: int
    var tokens: real
    var lastRefill: real

    ghost function View(): Bucket
      reads this
    {
      Bucket(tokens, lastRefill)
    }

    constructor (rate: real, burst: int, now: real)
      ensures this.rate == rate && this.burst == burst && View() == Bucket(burst as real, now)
    {
      this.rate, this.burst := rate, burst;
      tokens, lastRefill := burst as real, now;
    }

    method Consume(n: int, now: real) returns (allowed: bool)
      modifies this
      ensures (View(), allowed) == Take(Settings(rate, burst), old(View()), n, now)
    {
      var elapsed := now - lastRefill;
      lastRefill := now;
      tokens := Min(tokens + elapsed * rate, burst as real);
      assert tokens == Level(Settings(rate, burst), old(View()), now);
      if tokens >= n as real {
        tokens := tokens - n as real;
        return true;
      }
      return false;
    }
  }

  /** Any call, for any number of tokens: the level is what was left plus rate * elapsed, but at most
      the burst; the call succeeds exactly when it asks no more, and only then is the level lowered,
      by what was asked. */
  lemma CallRefillsAndSpends(s: Settings, b: Bucket, n: int, now: real)
    ensures var (after, ok) := Take(s, b, n, now);
      var before := after.tokens + if ok then n as real else 0.0;
      && after.last == now
      && before <= s.burst as real && before <= b.tokens + (now - b.last) * s.rate
      && (before == s.burst as real || before == b.tokens + (now - b.last) * s.rate)
      && (ok <==> n as real <= before)
  {
  }

  // ----- runs of unit calls -----

  /** The bucket after unit calls at the given times, starting full at `t0`. */
  function After(s: Settings, t0: real, ts: seq<real>): Bucket
  {
    if ts == [] then Bucket(s.burst as real, t0)
    else Take(s, After(s, t0, ts[..|ts| - 1]), 1, ts[|ts| - 1]).0
  }

  function LevelAt(s: Settings, t0: real, ts: seq<real>, j: nat): real
    requires j < |ts|
  {
    Level(s, After(s, t0, ts[..j]), ts[j])
  }

  predicate Accepted(s: Settings, t0: real, ts: seq<real>, j: nat)
    requires j < |ts|
  {
    Take(s, After(s, t0, ts[..j]), 1, ts[j]).1
  }

  /** How many of the calls i, .., j-1 were accepted. */
  function Passed(s: Settings, t0: real, ts: seq<real>, i: nat, j: nat): nat
    requires i <= j <= |ts|
  {
    if i == j then 0 else Passed(s, t0, ts, i, j - 1) + if Accepted(s, t0, ts, j - 1) then 1 else 0
  }

  ghost predicate Ordered(t0: real, ts: seq<real>)
  {
    forall i, j :: 0 <= i <= j < |ts| ==> t0 <= ts[i] <= ts[j]
  }

  // ----- the least-allowance law, on plain numbers -----

  /** Gains of steps i+1..j minus what steps i..j-1 spent. */
  function Net(gain: seq<real>, spent: seq<real>, i: nat, j: nat): real
    requires i <= j < |gain| && |spent| == |gain|
  {
    if i == j then 0.0 else Net(gain, spent, i, j - 1) - spent[j - 1] + gain[j]
  }

  /** A level that refills up to a cap is the least, over all past moments, of the cap plus
      what was gained minus what was spent since. */
  lemma {:induction false} LeastSinceAnyMoment(cap: real, level: seq<real>, gain: seq<real>, spent: seq<real>, j: nat) returns (w: nat)
    requires j < |level| == |gain| == |spent| && level[0] == cap
    requires forall k :: 0 <= k < |level| - 1 ==> level[k + 1] == Min(level[k] - spent[k] + gain[k + 1], cap)
    ensures forall i :: 0 <= i <= j ==> level[j] <= cap + Net(gain, spent, i, j)
    ensures w <= j && level[j] == cap + Net(gain, spent, w, j)
  {
    if j == 0 {
      w := 0;
    } else {
      w := LeastSinceAnyMoment(cap, level, gain, spent, j - 1);
      assert level[j - 1 + 1] == Min(level[j - 1] - spent[j - 1] + gain[j - 1 + 1], cap);
      if level[j] == cap {
        w := j;
      }
    }
  }

  // ----- applied to a run -----

  function Cost(s: Settings, t0: real, ts: seq<real>, j: nat): real
    requires j < |ts|
  {
    if Accepted(s, t0, ts, j) then 1.0 else 0.0
  }

  function Levels(s: Settings, t0: real, ts: seq<real>): seq<real>
  {
    seq(|ts|, j requires 0 <= j < |ts| => LevelAt(s, t0, ts, j))
  }

  function Costs(s: Settings, t0: real, ts: seq<real>): seq<real>
  {
    seq(|ts|, j requires 0 <= j < |ts| => Cost(s, t0, ts, j))
  }

  function Gains(s: Settings, ts: seq<real>): seq<real>
  {
    seq(|ts|, j requires 0 <= j < |ts| => if j == 0 then 0.0 else Gain(s.rate, ts[j] - ts[j - 1]))
  }

  lemma {:induction false} AfterRemembersTime(s: Settings, t0: real, ts: seq<real>)
    ensures After(s, t0, ts).last == if ts == [] then t0 else ts[|ts| - 1]
  {
  }

  lemma LevelStep(s: Settings, t0: real, ts: seq<real>, j: nat)
    requires j + 1 < |ts|
    ensures LevelAt(s, t0, ts, j + 1) ==
      Min(LevelAt(s, t0, ts, j) - Cost(s, t0, ts, j) + Gain(s.rate, ts[j + 1] - ts[j]), s.burst as real)
  {
    assert ts[..j + 1][..j] == ts[..j];
    assert After(s, t0, ts[..j + 1]) == Take(s, After(s, t0, ts[..j]), 1, ts[j]).0;
  }

  lemma GainNotNegative(rate: real, elapsed: real)
    requires rate >= 0.0 && elapsed >= 0.0
    ensures Gain(rate, elapsed) >= 0.0
  {
  }

  lemma GainAdds(rate: real, x: real, y: real)
    ensures Gain(rate, x) + Gain(rate, y) == Gain(rate, x + y)
  {
  }

  lemma FirstLevel(s: Settings, t0: real, ts: seq<real>)
    requires ts != [] && t0 <= ts[0] && s.rate >= 0.0
    ensures LevelAt(s, t0, ts, 0) == s.burst as real
  {
    assert ts[..0] == [];
    GainNotNegative(s.rate, ts[0] - t0);
  }

  lemma GainSplits(rate: real, a: real, b: real, c: real)
    ensures Gain(rate, c - a) == Gain(rate, b - a) + Gain(rate, c - b)
  {
    GainAdds(rate, b - a, c - b);
    assert (b - a) + (c - b) == c - a;
  }

  /** One more call, on plain numbers: gains add up along the times, costs along the acceptances. */
  lemma NetStep(net: real, net': real, gain: real, gain': real, step: real, passed: real, passed': real, cost: real)
    requires net == gain - passed && net' == net - cost + step
    requires gain' == gain + step && passed' == passed + cost
    ensures net' == gain' - passed'
  {
  }

  lemma {:induction false} NetOfRun(s: Settings, t0: real, ts: seq<real>, i: nat, j: nat)
    requires i <= j < |ts|
    ensures Net(Gains(s, ts), Costs(s, t0, ts), i, j) == Gain(s.rate, ts[j] - ts[i]) - Passed(s, t0, ts, i, j) as real
  {
    if i < j {
      NetOfRun(s, t0, ts, i, j - 1);
      GainSplits(s.rate, ts[i], ts[j - 1], ts[j]);
      NetStep(Net(Gains(s, ts), Costs(s, t0, ts), i, j - 1), Net(Gains(s, ts), Costs(s, t0, ts), i, j),
              Gain(s.rate, ts[j - 1] - ts[i]), Gain(s.rate, ts[j] - ts[i]), Gain(s.rate, ts[j] - ts[j - 1]),
              Passed(s, t0, ts, i, j - 1) as real, Passed(s, t0, ts, i, j) as real, Cost(s, t0, ts, j - 1));
    }
  }

  /** What the window opened by call i still allows just before call j. */
  function Allowance(s: Settings, t0: real, ts: seq<real>, i: nat, j: nat): real
    requires i <= j < |ts|
  {
    s.burst as real + Gain(s.rate, ts[j] - ts[i]) - Passed(s, t0, ts, i, j) as real
  }

  lemma LevelsStep(s: Settings, t0: real, ts: seq<real>, k: nat)
    requires k + 1 < |ts|
    ensures Levels(s, t0, ts)[k + 1] ==
      Min(Levels(s, t0, ts)[k] - Costs(s, t0, ts)[k] + Gains(s, ts)[k + 1], s.burst as real)
  {
    LevelStep(s, t0, ts, k);
  }

  lemma LevelsRefillAndSpend(s: Settings, t0: real, ts: seq<real>)
    requires ts != [] && Ordered(t0, ts) && s.rate >= 0.0
    ensures var level, gain, spent := Levels(s, t0, ts), Gains(s, ts), Costs(s, t0, ts);
      && level[0] == s.burst as real
      && forall k :: 0 <= k < |level| - 1 ==> level[k + 1] == Min(level[k] - spent[k] + gain[k + 1], s.burst as real)
  {
    FirstLevel(s, t0, ts);
    forall k | 0 <= k < |ts| - 1
      ensures Levels(s, t0, ts)[k + 1] ==
        Min(Levels(s, t0, ts)[k] - Costs(s, t0, ts)[k] + Gains(s, ts)[k + 1], s.burst as real)
    {
      LevelsStep(s, t0, ts, k);
    }
  }

  /** The level is the smallest allowance over all windows that end now. */
  lemma LevelIsLeastAllowance(s: Settings, t0: real, ts: seq<real>, j: nat) returns (w: nat)
    requires j < |ts| && Ordered(t0, ts) && s.rate >= 0.0
    ensures forall i :: 0 <= i <= j ==> LevelAt(s, t0, ts, j) <= Allowance(s, t0, ts, i, j)
    ensures w <= j && LevelAt(s, t0, ts, j) == Allowance(s, t0, ts, w, j)
  {
    LevelsRefillAndSpend(s, t0, ts);
    w := LeastSinceAnyMoment(s.burst as real, Levels(s, t0, ts), Gains(s, ts), Costs(s, t0, ts), j);
    NetOfRun(s, t0, ts, w, j);
    forall i | 0 <= i <= j ensures LevelAt(s, t0, ts, j) <= Allowance(s, t0, ts, i, j) {
      NetOfRun(s, t0, ts, i, j);
      assert Levels(s, t0, ts)[j] <= s.burst as real + Net(Gains(s, ts), Costs(s, t0, ts), i, j);
    }
  }

  /** Exact conformance: a unit call is accepted exactly when counting it keeps every window
      that ends with it within `burst + rate * length`. */
  lemma AcceptedIffAllWindowsConform(s: Settings, t0: real, ts: seq<real>, j: nat)
    requires j < |ts| && Ordered(t0, ts) && s.rate >= 0.0
    ensures Accepted(s, t0, ts, j) <==>
      forall i :: 0 <= i <= j ==> Passed(s, t0, ts, i, j) as real + 1.0 <= s.burst as real + Gain(s.rate, ts[j] - ts[i])
  {
    var w := LevelIsLeastAllowance(s, t0, ts, j);
    assert Accepted(s, t0, ts, j) <==> LevelAt(s, t0, ts, j) >= 1.0;
    assert Allowance(s, t0, ts, w, j) == LevelAt(s, t0, ts, j);
    if Accepted(s, t0, ts, j) {
      forall i | 0 <= i <= j
        ensures Passed(s, t0, ts, i, j) as real + 1.0 <= s.burst as real + Gain(s.rate, ts[j] - ts[i])
      {
        assert LevelAt(s, t0, ts, j) <= Allowance(s, t0, ts, i, j);
      }
    }
  }

  lemma {:induction false} TokensNotNegative(s: Settings, t0: real, ts: seq<real>)
    requires Ordered(t0, ts) && s.rate >= 0.0 && s.burst >= 0
    ensures After(s, t0, ts).tokens >= 0.0
  {
    if ts != [] {
      var front := ts[..|ts| - 1];
      TokensNotNegative(s, t0, front);
      AfterRemembersTime(s, t0, front);
      assert front != [] ==> front[|front| - 1] == ts[|front| - 1];
      GainNotNegative(s.rate, ts[|ts| - 1] - After(s, t0, front).last);
    }
  }

  lemma LevelNotNegative(s: Settings, t0: real, ts: seq<real>, j: nat)
    requires j < |ts| && Ordered(t0, ts) && s.rate >= 0.0 && s.burst >= 0
    ensures LevelAt(s, t0, ts, j) >= 0.0
  {
    var before := ts[..j];
    assert Ordered(t0, before);
    TokensNotNegative(s, t0, before);
    AfterRemembersTime(s, t0, before);
    assert After(s, t0, before).last <= ts[j];
    GainNotNegative(s.rate, ts[j] - After(s, t0, before).last);
  }

  /** Over any window, the accepted unit calls number at most `burst + rate * length`. */
  lemma WindowBound(s: Settings, t0: real, ts: seq<real>, i: nat, j: nat)
    requires i <= j < |ts| && Ordered(t0, ts) && s.rate >= 0.0 && s.burst >= 0
    ensures Passed(s, t0, ts, i, j + 1) as real <= s.burst as real + Gain(s.rate, ts[j] - ts[i])
  {
    var w := LevelIsLeastAllowance(s, t0, ts, j);
    LevelNotNegative(s, t0, ts, j);
    AcceptedIffAllWindowsConform(s, t0, ts, j);
    assert LevelAt(s, t0, ts, j) <= Allowance(s, t0, ts, i, j);
  }

  /** Whether all of a series of unit calls succeed, from an arbitrary bucket on. */
  function AllAccepted(s: Settings, b: Bucket, ts: seq<real>): bool
    decreases |ts|
  {
    ts == [] || (Take(s, b, 1, ts[0]).1 && AllAccepted(s, Take(s, b, 1, ts[0]).0, ts[1..]))
  }

  lemma IdleTimeFills(rate: real, burst: real, elapsed: real)
    requires rate > 0.0 && elapsed >= burst / rate
    ensures Gain(rate, elapsed) >= burst
  {
    assert (elapsed - burst / rate) * rate >= 0.0;
    assert burst / rate * rate == burst;
  }

  /** After `burst / rate` idle seconds the next `burst` calls all succeed, however close
      together they come. */
  lemma FullBurstAfterIdle(s: Settings, b: Bucket, ts: seq<real>)
    requires s.rate > 0.0 && b.tokens >= 0.0 && ts != [] && |ts| <= s.burst && Ordered(b.last, ts)
    requires ts[0] - b.last >= s.burst as real / s.rate
    ensures AllAccepted(s, b, ts)
  {
    IdleTimeFills(s.rate, s.burst as real, ts[0] - b.last);
    EnoughForAll(s, Take(s, b, 1, ts[0]).0, ts[1..]);
  }

  lemma {:induction false} EnoughForAll(s: Settings, b: Bucket, ts: seq<real>)
    requires s.rate > 0.0 && b.tokens >= |ts| as real && |ts| <= s.burst && Ordered(b.last, ts)
    ensures AllAccepted(s, b, ts)
    decreases |ts|
  {
    if ts != [] {
      GainNotNegative(s.rate, ts[0] - b.last);
      assert |ts[1..]| as real == |ts| as real - 1.0;
      EnoughForAll(s, Take(s, b, 1, ts[0]).0, ts[1..]);
    }
  }
}
