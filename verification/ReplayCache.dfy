/** Duplicate suppression: the Python cache pops expired entries from the front only, the
    Rust one filters all of them. */
module ReplayCache {

  const SPAN := 300.0

  /** A message id with the time it was accepted, oldest insertion first. */
  type Seen = (string, real)

  predicate Fresh(e: Seen, now: real)
  {
    now - e.1 < SPAN
  }

  predicate Contains(cache: seq<Seen>, id: string)
  {
    exists i :: 0 <= i < |cache| && cache[i].0 == id
  }

  /** Pop from the front until the front entry is fresh. */
  function PopExpired(cache: seq<Seen>, now: real): seq<Seen>
  {
    if cache != [] && !Fresh(cache[0], now) then PopExpired(cache[1..], now) else cache
  }

  /** Keep the fresh entries, wherever they stand. */
  function Retain(cache: seq<Seen>, now: real): seq<Seen>
  {
    if cache == [] then []
    else Retain(cache[..|cache| - 1], now) + if Fresh(cache[|cache| - 1], now) then [cache[|cache| - 1]] else []
  }

  function Offer(kept: seq<Seen>, id: string, now: real): (seq<Seen>, bool)
  {
    if Contains(kept, id) then (kept, false) else (kept + [(id, now)], true)
  }

  class ReplayGuard {
    var seen: seq<Seen>

    constructor ()
      ensures seen == []
    {
      seen := [];
    }

    /** The deduplication block of `_process_inbound`: false means "drop as duplicate". */
    method Accept(id: string, now: real) returns (isNew: bool)
      modifies this
      ensures (seen, isNew) == Offer(PopExpired(old(seen), now), id, now)
    {
      var cutoff := now - SPAN;
      while seen != []
        invariant PopExpired(seen, now) == PopExpired(old(seen), now)
        decreases |seen|
      {
        var oldest := seen[0];
        if oldest.1 > cutoff {
          break;
        }
        seen := seen[1..];
      }
      assert seen == PopExpired(old(seen), now);
      if Contains(seen, id) {
        return false;
      }
      seen := seen + [(id, now)];
      return true;
    }
  }

  // ----- when the two purges agree -----

  /** No expired entry stands behind a fresh one. */
  ghost predicate ExpiredFirst(cache: seq<Seen>, now: real)
  {
    forall i, j :: 0 <= i <= j < |cache| && Fresh(cache[i], now) ==> Fresh(cache[j], now)
  }

  lemma {:induction false} RetainAll(cache: seq<Seen>, now: real)
    ensures |Retain(cache, now)| <= |cache|
    ensures |Retain(cache, now)| == |cache| <==> forall i :: 0 <= i < |cache| ==> Fresh(cache[i], now)
    ensures |Retain(cache, now)| == |cache| ==> Retain(cache, now) == cache
  {
    if cache != [] {
      RetainAll(cache[..|cache| - 1], now);
    }
  }

  lemma {:induction false} RetainDropsExpiredFront(cache: seq<Seen>, now: real)
    requires cache != []
    ensures Retain(cache, now) == (if Fresh(cache[0], now) then [cache[0]] else []) + Retain(cache[1..], now)
  {
    if |cache| > 1 {
      RetainDropsExpiredFront(cache[..|cache| - 1], now);
      assert cache[..|cache| - 1][1..] == cache[1..][..|cache| - 2];
    } else {
      assert cache[..0] == [] && cache[1..] == [];
    }
  }

  /** Popping from the front equals full filtering exactly when no expired entry stands
      behind a fresh one. */
  lemma {:induction false} FrontPopIffExpiredFirst(cache: seq<Seen>, now: real)
    ensures PopExpired(cache, now) == Retain(cache, now) <==> ExpiredFirst(cache, now)
  {
    if cache != [] {
      RetainDropsExpiredFront(cache, now);
      if Fresh(cache[0], now) {
        RetainAll(cache, now);
        if ExpiredFirst(cache, now) {
          assert forall j :: 0 <= j < |cache| ==> Fresh(cache[j], now);
        }
      } else {
        FrontPopIffExpiredFirst(cache[1..], now);
        if ExpiredFirst(cache[1..], now) {
          forall i, j | 0 <= i <= j < |cache| && Fresh(cache[i], now) ensures Fresh(cache[j], now) {
            assert cache[1..][i - 1] == cache[i] && cache[1..][j - 1] == cache[j];
          }
        }
      }
    }
  }

  // ----- runs -----

  /** Arrivals: message id and clock reading. */
  ghost predicate Ordered(ms: seq<Seen>)
  {
    forall i, j :: 0 <= i <= j < |ms| ==> ms[i].1 <= ms[j].1
  }

  function FastAfter(ms: seq<Seen>): seq<Seen>
  {
    if ms == [] then []
    else
      var (id, now) := ms[|ms| - 1];
      Offer(PopExpired(FastAfter(ms[..|ms| - 1]), now), id, now).0
  }

  function FullAfter(ms: seq<Seen>): seq<Seen>
  {
    if ms == [] then []
    else
      var (id, now) := ms[|ms| - 1];
      Offer(Retain(FullAfter(ms[..|ms| - 1]), now), id, now).0
  }

  /** All arrivals ever accepted, without forgetting: accepted means no accepted arrival of
      the same id within the previous 300 seconds. */
  function Accepted(ms: seq<Seen>): seq<Seen>
  {
    if ms == [] then []
    else
      var before, m := Accepted(ms[..|ms| - 1]), ms[|ms| - 1];
      if RecentlyAccepted(before, m) then before else before + [m]
  }

  predicate RecentlyAccepted(h: seq<Seen>, m: Seen)
  {
    exists i :: 0 <= i < |h| && h[i].0 == m.0 && Fresh(h[i], m.1)
  }

  ghost predicate NoneAfter(cache: seq<Seen>, now: real)
  {
    forall i :: 0 <= i < |cache| ==> cache[i].1 <= now
  }

  lemma {:induction false} PoppedStaysOrdered(cache: seq<Seen>, now: real)
    requires Ordered(cache) && NoneAfter(cache, now)
    ensures Ordered(PopExpired(cache, now)) && NoneAfter(PopExpired(cache, now), now)
  {
    if cache != [] && !Fresh(cache[0], now) {
      PoppedStaysOrdered(cache[1..], now);
    }
  }

  lemma OfferedStaysOrdered(kept: seq<Seen>, id: string, now: real)
    requires Ordered(kept) && NoneAfter(kept, now)
    ensures var next := Offer(kept, id, now).0; Ordered(next) && NoneAfter(next, now)
  {
  }

  lemma {:induction false} FastStaysOrdered(ms: seq<Seen>, now: real)
    requires Ordered(ms) && (ms != [] ==> ms[|ms| - 1].1 <= now)
    ensures Ordered(FastAfter(ms)) && NoneAfter(FastAfter(ms), now)
  {
    if ms != [] {
      var front, m := ms[..|ms| - 1], ms[|ms| - 1];
      assert Ordered(front) && (front != [] ==> front[|front| - 1] == ms[|front| - 1]);
      FastStaysOrdered(front, m.1);
      PoppedStaysOrdered(FastAfter(front), m.1);
      OfferedStaysOrdered(PopExpired(FastAfter(front), m.1), m.0, m.1);
    }
  }

  /** Under a clock that never goes back the two caches are the same list at every moment. */
  lemma {:induction false} FastEqualsFull(ms: seq<Seen>)
    requires Ordered(ms)
    ensures FastAfter(ms) == FullAfter(ms)
  {
    if ms != [] {
      var front, t := ms[..|ms| - 1], ms[|ms| - 1].1;
      assert Ordered(front) && (front != [] ==> front[|front| - 1] == ms[|front| - 1]);
      FastEqualsFull(front);
      FastStaysOrdered(front, t);
      FrontPopIffExpiredFirst(FastAfter(front), t);
    }
  }

  lemma {:induction false} RetainMembers(cache: seq<Seen>, now: real)
    ensures forall e :: e in Retain(cache, now) <==> e in cache && Fresh(e, now)
  {
    if cache != [] {
      var front := cache[..|cache| - 1];
      RetainMembers(front, now);
      assert cache == front + [cache[|cache| - 1]];
    }
  }

  /** The cache keeps every accepted arrival that is still fresh, and nothing else. */
  lemma {:induction false} CacheIsFreshHistory(ms: seq<Seen>, now: real)
    requires Ordered(ms) && (ms != [] ==> ms[|ms| - 1].1 <= now)
    ensures forall e :: Fresh(e, now) ==> (e in FullAfter(ms) <==> e in Accepted(ms))
  {
    if ms != [] {
      var front, m := ms[..|ms| - 1], ms[|ms| - 1];
      assert Ordered(front) && (front != [] ==> front[|front| - 1] == ms[|front| - 1]);
      CacheIsFreshHistory(front, m.1);
      CacheIsFreshHistory(front, now);
      var kept := Retain(FullAfter(front), m.1);
      RetainMembers(FullAfter(front), m.1);
      ContainsIffRecentlyAccepted(kept, Accepted(front), m);
      assert forall e :: e in kept + [m] <==> e in kept || e == m;
      assert forall e :: e in Accepted(front) + [m] <==> e in Accepted(front) || e == m;
      assert forall e :: Fresh(e, now) ==> Fresh(e, m.1);
    }
  }

  lemma ContainsIffRecentlyAccepted(kept: seq<Seen>, h: seq<Seen>, m: Seen)
    requires forall e :: e in kept <==> e in h && Fresh(e, m.1)
    ensures Contains(kept, m.0) <==> RecentlyAccepted(h, m)
  {
    if Contains(kept, m.0) {
      var i :| 0 <= i < |kept| && kept[i].0 == m.0;
      assert kept[i] in h;
      var j :| 0 <= j < |h| && h[j] == kept[i];
    }
    if RecentlyAccepted(h, m) {
      var i :| 0 <= i < |h| && h[i].0 == m.0 && Fresh(h[i], m.1);
      assert h[i] in kept;
      var j :| 0 <= j < |kept| && kept[j] == h[i];
    }
  }

  lemma DecidesByHistory(ms: seq<Seen>, m: Seen)
    requires Ordered(ms + [m])
    ensures Offer(PopExpired(FastAfter(ms), m.1), m.0, m.1).1 <==> !RecentlyAccepted(Accepted(ms), m)
  {
    assert forall i :: 0 <= i < |ms| ==> (ms + [m])[i] == ms[i];
    assert (ms + [m])[|ms|] == m;
    FastEqualsFull(ms);
    FastStaysOrdered(ms, m.1);
    FrontPopIffExpiredFirst(FastAfter(ms), m.1);
    CacheIsFreshHistory(ms, m.1);
    RetainMembers(FullAfter(ms), m.1);
    ContainsIffRecentlyAccepted(Retain(FullAfter(ms), m.1), Accepted(ms), m);
  }

  lemma OneMoreArrival(ms: seq<Seen>, m: Seen)
    ensures Accepted(ms + [m]) == Accepted(ms) + if RecentlyAccepted(Accepted(ms), m) then [] else [m]
  {
    assert (ms + [m])[..|ms|] == ms;
  }

  /** A message id is accepted exactly when it was not accepted in the previous 300 s. */
  lemma AcceptedIffNotRecent(ms: seq<Seen>, m: Seen)
    requires Ordered(ms + [m])
    ensures var h, (_, isNew) := Accepted(ms), Offer(PopExpired(FastAfter(ms), m.1), m.0, m.1);
      && (isNew <==> !exists i :: 0 <= i < |h| && h[i].0 == m.0 && m.1 - h[i].1 < 300.0)
      && Accepted(ms + [m]) == h + if isNew then [m] else []
  {
    DecidesByHistory(ms, m);
    OneMoreArrival(ms, m);
  }

  /** With a clock that steps back the two forms part: the front-popping cache still holds an
      expired entry that filtering drops. */
  lemma BackwardClockSeparates()
    ensures var cache := [("a", 10.0), ("b", 0.0)];
      && !Offer(PopExpired(cache, 305.0), "b", 305.0).1
      && Offer(Retain(cache, 305.0), "b", 305.0).1
  {
    var cache := [("a", 10.0), ("b", 0.0)];
    assert cache[1].0 == "b" && Fresh(cache[0], 305.0);
    assert Contains(cache, "b");
    RetainMembers(cache, 305.0);
    var kept := Retain(cache, 305.0);
    forall i | 0 <= i < |kept| ensures kept[i].0 != "b" {
      assert kept[i] in cache;
    }
  }
}
