/** The relay's sliding challenge log and the webhook's fixed window, per client address. */
module Limiters {
  import opened Wrappers

  ghost predicate Ascending(ts: seq<real>)
  {
    forall i, j :: 0 <= i <= j < |ts| ==> ts[i] <= ts[j]
  }

  // ----- sliding log: at most 10 challenges in the last 60 seconds -----

  const LOG_LIMIT := 10
  const LOG_SPAN := 60.0

  /** The entries younger than 60 seconds. */
  function Recent(log: seq<real>, now: real): seq<real>
  {
    if log == [] then []
    else Recent(log[..|log| - 1], now) + if now - log[|log| - 1] < LOG_SPAN then [log[|log| - 1]] else []
  }

  function AdmitChallenge(log: seq<real>, now: real): (seq<real>, bool)
  {
    var recent := Recent(log, now);
    if |recent| >= LOG_LIMIT then (recent, false) else (recent + [now], true)
  }

  /** All admitted times so far, with no forgetting: the plain form of the limiter. */
  function Admitted(ts: seq<real>): seq<real>
  {
    if ts == [] then []
    else
      var before := Admitted(ts[..|ts| - 1]);
      before + if |Recent(before, ts[|ts| - 1])| < LOG_LIMIT then [ts[|ts| - 1]] else []
  }

  function LogAfter(ts: seq<real>): seq<real>
  {
    if ts == [] then [] else AdmitChallenge(LogAfter(ts[..|ts| - 1]), ts[|ts| - 1]).0
  }

  lemma {:induction false} RecentTwice(log: seq<real>, t: real, now: real)
    requires t <= now
    ensures Recent(Recent(log, t), now) == Recent(log, now)
  {
    if log != [] {
      var front, last := log[..|log| - 1], log[|log| - 1];
      RecentTwice(front, t, now);
      if t - last < LOG_SPAN {
        RecentOneMore(Recent(front, t), last, now);
      } else {
        assert Recent(log, t) == Recent(front, t) && Recent(log, now) == Recent(front, now);
      }
    }
  }

  lemma RecentOneMore(log: seq<real>, t: real, now: real)
    ensures Recent(log + [t], now) == Recent(log, now) + if now - t < LOG_SPAN then [t] else []
  {
    assert (log + [t])[..|log|] == log;
  }

  /** Forgetting old entries loses nothing: at every later moment the kept log and the full
      history have the same recent part, so both forms decide alike. */
  lemma {:induction false} LogIsRecentHistory(ts: seq<real>, now: real)
    requires Ascending(ts) && (ts != [] ==> ts[|ts| - 1] <= now)
    ensures Recent(LogAfter(ts), now) == Recent(Admitted(ts), now)
  {
    if ts != [] {
      var front, t := ts[..|ts| - 1], ts[|ts| - 1];
      assert Ascending(front) && (front != [] ==> front[|front| - 1] == ts[|front| - 1]);
      LogIsRecentHistory(front, t);
      LogIsRecentHistory(front, now);
      OneMoreKeepsAgreement(LogAfter(front), Admitted(front), t, now);
    }
  }

  lemma OneMoreKeepsAgreement(log: seq<real>, history: seq<real>, t: real, now: real)
    requires t <= now && Recent(log, t) == Recent(history, t) && Recent(log, now) == Recent(history, now)
    ensures Recent(AdmitChallenge(log, t).0, now) ==
      Recent(history + if |Recent(history, t)| < LOG_LIMIT then [t] else [], now)
  {
    var recent := Recent(log, t);
    RecentTwice(log, t, now);
    RecentOneMore(recent, t, now);
    RecentOneMore(history, t, now);
    assert history + [] == history;
  }

  /** A challenge is admitted exactly when fewer than ten were admitted in the 60 s before. */
  lemma ChallengeAdmittedIff(ts: seq<real>, now: real)
    requires Ascending(ts) && (ts != [] ==> ts[|ts| - 1] <= now)
    ensures AdmitChallenge(LogAfter(ts), now).1 <==> |Recent(Admitted(ts), now)| < LOG_LIMIT
    ensures Admitted(ts + [now]) == Admitted(ts) + if AdmitChallenge(LogAfter(ts), now).1 then [now] else []
  {
    LogIsRecentHistory(ts, now);
    OneMoreAdmitted(ts, now);
  }

  lemma OneMoreAdmitted(ts: seq<real>, now: real)
    ensures Admitted(ts + [now]) == Admitted(ts) + if |Recent(Admitted(ts), now)| < LOG_LIMIT then [now] else []
  {
    assert (ts + [now])[..|ts|] == ts;
  }

  lemma {:induction false} AdmittedAreCalls(ts: seq<real>)
    ensures forall x :: x in Admitted(ts) ==> x in ts
  {
    if ts != [] {
      var front := ts[..|ts| - 1];
      AdmittedAreCalls(front);
      assert forall x :: x in front ==> x in ts;
    }
  }

  lemma {:induction false} AdmittedAscends(ts: seq<real>)
    requires Ascending(ts)
    ensures Ascending(Admitted(ts))
  {
    if ts != [] {
      var front, t := ts[..|ts| - 1], ts[|ts| - 1];
      AdmittedAscends(front);
      AdmittedAreCalls(front);
      var h := Admitted(front);
      forall i | 0 <= i < |h| ensures h[i] <= t {
        assert h[i] in h;
        assert h[i] in front;
      }
    }
  }

  /** An ascending history's recent part contains its whole tail from any young entry on. */
  lemma {:induction false} RecentCountsTail(h: seq<real>, p: nat, now: real)
    requires Ascending(h) && p <= |h| && (p < |h| ==> now - h[p] < LOG_SPAN)
    ensures |Recent(h, now)| >= |h| - p
  {
    if p < |h| {
      var front := h[..|h| - 1];
      RecentCountsTail(front, p, now);
      assert h[p] <= h[|h| - 1];
    }
  }

  /** Any eleven admitted challenges span at least 60 seconds: an interval shorter than that
      never admits more than ten. */
  lemma {:induction false} TenPerMinute(ts: seq<real>, p: nat)
    requires Ascending(ts) && p + 10 < |Admitted(ts)|
    ensures Admitted(ts)[p + 10] - Admitted(ts)[p] >= 60.0
  {
    var front := ts[..|ts| - 1];
    if p + LOG_LIMIT < |Admitted(front)| {
      TenPerMinute(front, p);
    } else {
      AdmittedAscends(front);
      if ts[|ts| - 1] - Admitted(front)[p] < LOG_SPAN {
        RecentCountsTail(Admitted(front), p, ts[|ts| - 1]);
      }
    }
  }

  lemma {:induction false} RecentIsTail(h: seq<real>, now: real)
    requires Ascending(h)
    ensures |Recent(h, now)| <= |h|
    ensures forall i :: 0 <= i < |h| ==> (i >= |h| - |Recent(h, now)| <==> now - h[i] < 60.0)
  {
    if h != [] {
      RecentIsTail(h[..|h| - 1], now);
      assert forall i :: 0 <= i < |h| ==> h[i] <= h[|h| - 1];
    }
  }

  /** Exactly: a challenge is admitted if and only if fewer than ten were ever admitted, or the tenth
      last admission is at least 60 s ago. */
  lemma AdmittedIffTenthIsOld(ts: seq<real>, now: real)
    requires Ascending(ts) && (ts != [] ==> ts[|ts| - 1] <= now)
    ensures AdmitChallenge(LogAfter(ts), now).1 <==> |Admitted(ts)| < 10 || now - Admitted(ts)[|Admitted(ts)| - 10] >= 60.0
  {
    ChallengeAdmittedIff(ts, now);
    AdmittedAscends(ts);
    RecentIsTail(Admitted(ts), now);
  }

  // ----- fixed window: 60 calls, then wait for the window to expire -----

  const WINDOW_LIMIT := 60
  const WINDOW_SPAN := 60.0

  datatype Window = Window(count: int, start: real)

  /** `_check_rate_limit` for one address; `None` while the address is unknown. */
  function CheckWindow(w: Option<Window>, now: real): (Option<Window>, bool)
  {
    match w
    case None => (Some(Window(1, now)), true)
    case Some(Window(count, start)) =>
      if now - start > WINDOW_SPAN then (Some(Window(1, now)), true)
      else if count >= WINDOW_LIMIT then (w, false)
      else (Some(Window(count + 1, start)), true)
  }

  class WebhookLimiter {
    var rateLimits: map<string, Window>

    constructor ()
      ensures rateLimits == map[]
    {
      rateLimits := map[];
    }

    ghost function WindowOf(ip: string): Option<Window>
      reads this
    {
      if ip in rateLimits then Some(rateLimits[ip]) else None
    }

    /** Returns false where the source raises "429 Rate limit exceeded". */
    method CheckRateLimit(ip: string, now: real) returns (ok: bool)
      modifies this
      ensures (WindowOf(ip), ok) == CheckWindow(old(WindowOf(ip)), now)
      ensures forall other :: other != ip ==> WindowOf(other) == old(WindowOf(other))
    {
      if ip in rateLimits {
        var Window(count, windowStart) := rateLimits[ip];
        if now - windowStart > WINDOW_SPAN {
          rateLimits := rateLimits[ip := Window(1, now)];
        } else if count >= WINDOW_LIMIT {
          return false;
        } else {
          rateLimits := rateLimits[ip := Window(count + 1, windowStart)];
        }
      } else {
        rateLimits := rateLimits[ip := Window(1, now)];
      }
      return true;
    }
  }

  /** One admitted call with the window that admitted it and its place there. */
  datatype Pass = Pass(time: real, window: real, place: int)

  function PassOf(w: Option<Window>, now: real): seq<Pass>
  {
    match CheckWindow(w, now)
    case (Some(Window(count, start)), true) => [Pass(now, start, count)]
    case _ => []
  }

  /** The stored window of one address together with the calls it has admitted. */
  datatype Track = Track(window: Option<Window>, passes: seq<Pass>)

  function Check(tr: Track, now: real): Track
  {
    Track(CheckWindow(tr.window, now).0, tr.passes + PassOf(tr.window, now))
  }

  function Calls(tr: Track, ts: seq<real>): Track
    decreases |ts|
  {
    if ts == [] then tr else Calls(Check(tr, ts[0]), ts[1..])
  }

  /** The admitted calls of a series made by an address not seen before. */
  function Passes(ts: seq<real>): seq<Pass>
  {
    Calls(Track(None, []), ts).passes
  }

  ghost predicate PassOk(p: Pass)
  {
    1 <= p.place <= WINDOW_LIMIT && p.window <= p.time <= p.window + WINDOW_SPAN && (p.place == 1 ==> p.window == p.time)
  }

  /** Consecutive passes share a window or open one more than 60 s after the previous start. */
  ghost predicate Follows(p: Pass, q: Pass)
  {
    && p.time <= q.time
    && (if q.place == 1 then q.window - p.window > WINDOW_SPAN else q.place == p.place + 1 && q.window == p.window)
  }

  ghost predicate Windowed(ps: seq<Pass>)
  {
    && (ps != [] ==> ps[0].place == 1)
    && (forall i :: 0 <= i < |ps| ==> PassOk(ps[i]))
    && (forall i :: 0 <= i < |ps| - 1 ==> Follows(ps[i], ps[i + 1]))
  }

  lemma {:induction false} LaterPassesAreLater(ps: seq<Pass>, i: nat, j: nat)
    requires Windowed(ps) && i <= j < |ps|
    ensures ps[i].time <= ps[j].time
  {
    if i < j {
      LaterPassesAreLater(ps, i, j - 1);
      assert Follows(ps[j - 1], ps[j - 1 + 1]);
    }
  }

  /** The stored window is the one of the last admitted call, which is not in the future. */
  ghost predicate InStep(w: Option<Window>, ps: seq<Pass>, now: real)
  {
    if ps == [] then w == None
    else w == Some(Window(ps[|ps| - 1].place, ps[|ps| - 1].window)) && ps[|ps| - 1].time <= now
  }

  lemma OneMoreCall(w: Option<Window>, ps: seq<Pass>, now: real)
    requires Windowed(ps) && InStep(w, ps, now)
    ensures Windowed(ps + PassOf(w, now)) && InStep(CheckWindow(w, now).0, ps + PassOf(w, now), now)
  {
    var more := ps + PassOf(w, now);
    if ps != [] {
      assert PassOk(ps[|ps| - 1]);
    }
    forall i | 0 <= i < |more| - 1 ensures Follows(more[i], more[i + 1]) {
      if i < |ps| - 1 {
        assert Follows(ps[i], ps[i + 1]);
      }
    }
  }

  lemma {:induction false} CallsStayWindowed(tr: Track, now: real, ts: seq<real>)
    requires Windowed(tr.passes) && InStep(tr.window, tr.passes, now) && Ascending(ts) && (ts != [] ==> now <= ts[0])
    ensures Windowed(Calls(tr, ts).passes)
    decreases |ts|
  {
    if ts != [] {
      OneMoreCall(tr.window, tr.passes, ts[0]);
      CallsStayWindowed(Check(tr, ts[0]), ts[0], ts[1..]);
    }
  }

  lemma PassesAreWindowed(ts: seq<real>)
    requires Ascending(ts)
    ensures Windowed(Passes(ts))
  {
    CallsStayWindowed(Track(None, []), if ts == [] then 0.0 else ts[0], ts);
  }

  lemma {:induction false} WindowInStep(tr: Track, now: real, ts: seq<real>)
    requires Windowed(tr.passes) && InStep(tr.window, tr.passes, now) && Ascending(ts) && (ts != [] ==> now <= ts[0])
    ensures InStep(Calls(tr, ts).window, Calls(tr, ts).passes, if ts == [] then now else ts[|ts| - 1])
    decreases |ts|
  {
    if ts != [] {
      OneMoreCall(tr.window, tr.passes, ts[0]);
      WindowInStep(Check(tr, ts[0]), ts[0], ts[1..]);
    }
  }

  /** Exactly what one more call does, in terms of the calls admitted so far: it opens a window if it
      is the first or the last pass's window began more than 60 s ago, else it takes the next of
      60 places, and it is refused, changing nothing, when they are taken. */
  lemma NextPass(ts: seq<real>, now: real)
    requires Ascending(ts) && (ts != [] ==> ts[|ts| - 1] <= now)
    ensures var ps := Passes(ts);
      Passes(ts + [now]) ==
        if ps == [] || now - ps[|ps| - 1].window > 60.0 then ps + [Pass(now, now, 1)]
        else if ps[|ps| - 1].place < 60 then ps + [Pass(now, ps[|ps| - 1].window, ps[|ps| - 1].place + 1)]
        else ps
  {
    var start := Track(None, []);
    CallsConcat(start, ts, [now]);
    assert [now][1..] == [];
    assert Calls(Calls(start, ts), [now]) == Check(Calls(start, ts), now);
    WindowInStep(start, if ts == [] then now else ts[0], ts);
  }

  /** The next window opens within the places left in the current one. */
  lemma {:induction false} NextWindow(ps: seq<Pass>, p: nat) returns (a: nat)
    requires Windowed(ps) && p < |ps| && p + WINDOW_LIMIT + 1 - ps[p].place < |ps|
    ensures p < a <= p + WINDOW_LIMIT + 1 - ps[p].place && ps[a].place == 1
    ensures ps[a].time - ps[p].window > WINDOW_SPAN
    decreases WINDOW_LIMIT - ps[p].place
  {
    assert PassOk(ps[p]) && Follows(ps[p], ps[p + 1]) && PassOk(ps[p + 1]);
    if ps[p + 1].place == 1 {
      a := p + 1;
    } else {
      a := NextWindow(ps, p + 1);
    }
  }

  /** Any 120 admitted calls span more than 60 seconds: at most 119 fit into a minute. */
  lemma AtMost119PerMinute(ts: seq<real>, p: nat)
    requires Ascending(ts) && p + 119 < |Passes(ts)|
    ensures Passes(ts)[p + 119].time - Passes(ts)[p].time > 60.0
  {
    PassesAreWindowed(ts);
    var ps := Passes(ts);
    assert PassOk(ps[p]);
    var a := NextWindow(ps, p);
    if ps[p].place > 1 {
      var b := NextWindow(ps, a);
      assert PassOk(ps[a]);
      LaterPassesAreLater(ps, p, a);
      LaterPassesAreLater(ps, b, p + 119);
    } else {
      LaterPassesAreLater(ps, a, p + 119);
    }
  }

  /** `n` calls at time `t`. */
  function Repeat(t: real, n: nat): seq<real>
  {
    if n == 0 then [] else [t] + Repeat(t, n - 1)
  }

  lemma {:induction false} CallsConcat(tr: Track, a: seq<real>, b: seq<real>)
    ensures Calls(tr, a + b) == Calls(Calls(tr, a), b)
    decreases |a|
  {
    if a == [] {
      assert a + b == b;
    } else {
      assert (a + b)[1..] == a[1..] + b;
      CallsConcat(Check(tr, a[0]), a[1..], b);
    }
  }

  /** Calls at one moment that all fit into the current window are all admitted. */
  lemma {:induction false} RepeatedCalls(tr: Track, w: Window, t: real, n: nat)
    requires tr.window == Some(w) && w.count + n <= WINDOW_LIMIT && t - w.start <= WINDOW_SPAN
    ensures var after := Calls(tr, Repeat(t, n));
      && after.window == Some(Window(w.count + n, w.start))
      && |after.passes| == |tr.passes| + n && tr.passes <= after.passes
      && forall i :: |tr.passes| <= i < |after.passes| ==> after.passes[i].time == t
    decreases n
  {
    if n > 0 {
      var next := Check(tr, t);
      assert next == Track(Some(Window(w.count + 1, w.start)), tr.passes + [Pass(t, w.start, w.count + 1)]);
      assert Repeat(t, n)[1..] == Repeat(t, n - 1);
      RepeatedCalls(next, Window(w.count + 1, w.start), t, n - 1);
    }
  }

  /** A window filled at its very end, then the next one filled at once. */
  lemma RolloverBurst(n: nat, m: nat) returns (ts: seq<real>)
    requires 0 < n < WINDOW_LIMIT && 0 < m < WINDOW_LIMIT
    ensures Ascending(ts) && |Passes(ts)| == 1 + n + 1 + m
    ensures Passes(ts)[1].time == 60.0 && Passes(ts)[1 + n + m].time == 61.0
  {
    var first := Track(Some(Window(1, 0.0)), [Pass(0.0, 0.0, 1)]);
    var filled := Calls(first, Repeat(60.0, n));
    RepeatedCalls(first, Window(1, 0.0), 60.0, n);
    var rolled := Check(filled, 61.0);
    RepeatedCalls(rolled, Window(1, 61.0), 61.0, m);
    var tail := [61.0] + Repeat(61.0, m);
    assert tail[1..] == Repeat(61.0, m);
    CallsConcat(first, Repeat(60.0, n), tail);
    ts := [0.0] + (Repeat(60.0, n) + tail);
    assert ts[1..] == Repeat(60.0, n) + tail;
    assert Check(Track(None, []), 0.0) == first;
    assert Calls(Track(None, []), ts) == Calls(filled, tail);
    assert rolled == Track(Some(Window(1, 61.0)), filled.passes + [Pass(61.0, 61.0, 1)]);
    assert Calls(filled, tail) == Calls(rolled, Repeat(61.0, m));
    RepeatIsConstant(60.0, n);
    RepeatIsConstant(61.0, m);
  }

  lemma {:induction false} RepeatIsConstant(t: real, n: nat)
    ensures |Repeat(t, n)| == n && forall i :: 0 <= i < n ==> Repeat(t, n)[i] == t
  {
    if n > 0 {
      RepeatIsConstant(t, n - 1);
    }
  }

  /** The bound is reached, so the documented "60 requests per minute" does not hold: of 120
      admitted calls, the last 119 can come within one second. */
  lemma Minute119Reached() returns (ts: seq<real>)
    ensures Ascending(ts) && |Passes(ts)| == 120 && Passes(ts)[119].time - Passes(ts)[1].time <= 1.0
  {
    ts := RolloverBurst(59, 59);
  }

  /** Within one window the documented limit does hold. */
  lemma SixtyPerWindow(ts: seq<real>, p: nat, q: nat)
    requires Ascending(ts) && p <= q < |Passes(ts)| && forall i :: p <= i <= q ==> Passes(ts)[i].window == Passes(ts)[p].window
    ensures q - p < 60
  {
    PassesAreWindowed(ts);
    PlacesCountUp(Passes(ts), p, q);
    assert PassOk(Passes(ts)[p]) && PassOk(Passes(ts)[q]);
  }

  lemma {:induction false} PlacesCountUp(ps: seq<Pass>, p: nat, q: nat)
    requires Windowed(ps) && p <= q < |ps| && forall i :: p <= i <= q ==> ps[i].window == ps[p].window
    ensures ps[q].place == ps[p].place + (q - p)
  {
    if p < q {
      PlacesCountUp(ps, p, q - 1);
      assert Follows(ps[q - 1], ps[q - 1 + 1]);
    }
  }

  /** How many of the first n passes are at most 60 s old. */
  function Young(ps: seq<Pass>, n: nat, now: real): nat
    requires n <= |ps|
  {
    if n == 0 then 0 else Young(ps, n - 1, now) + if now - ps[n - 1].time <= WINDOW_SPAN then 1 else 0
  }

  /** How many of those belong to the window that began at `start`. */
  function YoungOf(ps: seq<Pass>, n: nat, now: real, start: real): nat
    requires n <= |ps|
  {
    if n == 0 then 0
    else YoungOf(ps, n - 1, now, start) + if now - ps[n - 1].time <= WINDOW_SPAN && ps[n - 1].window == start then 1 else 0
  }

  /** The passes of the window so far are the last ones. */
  lemma {:induction false} WindowIsContiguous(ps: seq<Pass>, q: nat)
    requires Windowed(ps) && q < |ps|
    ensures 1 <= ps[q].place <= q + 1 && ps[q + 1 - ps[q].place].place == 1
    ensures forall i :: q + 1 - ps[q].place <= i <= q ==> ps[i].window == ps[q].window
    decreases q
  {
    assert PassOk(ps[q]);
    if ps[q].place > 1 {
      assert Follows(ps[q - 1], ps[q - 1 + 1]);
      WindowIsContiguous(ps, q - 1);
    }
  }

  lemma {:induction false} WindowsAreSpaced(ps: seq<Pass>, i: nat, j: nat)
    requires Windowed(ps) && i <= j < |ps|
    ensures ps[j].window == ps[i].window || ps[j].window - ps[i].window > WINDOW_SPAN
    decreases j
  {
    if i < j {
      WindowsAreSpaced(ps, i, j - 1);
      assert Follows(ps[j - 1], ps[j - 1 + 1]);
    }
  }

  lemma {:induction false} WholeWindowIsYoung(ps: seq<Pass>, a: nat, n: nat, now: real)
    requires a <= n <= |ps| && forall i :: a <= i < n ==> now - ps[i].time <= WINDOW_SPAN
    ensures Young(ps, n, now) == Young(ps, a, now) + (n - a)
  {
    if a < n {
      WholeWindowIsYoung(ps, a, n - 1, now);
    }
  }

  lemma {:induction false} OnlyThatWindowIsYoung(ps: seq<Pass>, n: nat, now: real, start: real)
    requires n <= |ps| && forall i :: 0 <= i < n && ps[i].window != start ==> now - ps[i].time > WINDOW_SPAN
    ensures Young(ps, n, now) == YoungOf(ps, n, now, start)
  {
    if n > 0 {
      OnlyThatWindowIsYoung(ps, n - 1, now, start);
    }
  }

  /** Exactly how many calls the minute up to an admitted call holds: its place in its window plus
      the young passes of the window before.  So that minute keeps to the documented 60 if and
      only if this sum does. */
  lemma LastMinuteCount(ts: seq<real>, q: nat)
    requires Ascending(ts) && q < |Passes(ts)|
    ensures var ps := Passes(ts);
      && 1 <= ps[q].place <= q + 1
      && var first := q + 1 - ps[q].place;
      Young(ps, q + 1, ps[q].time) == ps[q].place + if first == 0 then 0 else YoungOf(ps, first, ps[q].time, ps[first - 1].window)
  {
    PassesAreWindowed(ts);
    var ps := Passes(ts);
    WindowIsContiguous(ps, q);
    var first, now := q + 1 - ps[q].place, ps[q].time;
    forall i | first <= i <= q ensures now - ps[i].time <= WINDOW_SPAN {
      assert PassOk(ps[i]) && PassOk(ps[q]);
    }
    WholeWindowIsYoung(ps, first, q + 1, now);
    if first > 0 {
      forall i | 0 <= i < first && ps[i].window != ps[first - 1].window ensures now - ps[i].time > WINDOW_SPAN {
        TwoWindowsBack(ps, i, first, q);
      }
      OnlyThatWindowIsYoung(ps, first, now, ps[first - 1].window);
    }
  }

  lemma TwoWindowsBack(ps: seq<Pass>, i: nat, first: nat, q: nat)
    requires Windowed(ps) && i < first <= q < |ps| && ps[first].place == 1 && ps[first].window == ps[q].window
    requires ps[i].window != ps[first - 1].window
    ensures ps[q].time - ps[i].time > WINDOW_SPAN
  {
    WindowsAreSpaced(ps, i, first - 1);
    assert Follows(ps[first - 1], ps[first - 1 + 1]);
    assert PassOk(ps[i]) && PassOk(ps[q]);
  }
}
