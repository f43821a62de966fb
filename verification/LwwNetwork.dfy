/** A network of LWW-Map replicas.  State syncs may be lost, duplicated, reordered and cut
    into their per-key steps; processes may restart from their database. */
module LwwNetwork {
  import opened Wrappers
  import opened LwwRecords
  import opened LwwReplica

  /** A replica with its history: the records its current memory has absorbed. */
  datatype Site<V(==)> = Site(rep: Replica<V>, absorbed: set<Item<V>>)

  /** `sent` keeps every record ever put on the wire, so delivery may happen late, twice or
      never; `written` is the history of all records ever created. */
  datatype Net<V(==)> = Net(sites: map<string, Site<V>>, sent: set<Item<V>>, written: set<Item<V>>)

  datatype Event<V> =
    | LocalWrite(i: string, k: string, v: V)
    | Sync(i: string)
    | Deliver(i: string, k: string, r: Rec<V>)
    | Restart(i: string)
    | Foreign(k: string, r: Rec<V>)   // a record some adapter stamped outside the Lamport clock

  function Open<V>(id: string, hasDb: bool): Replica<V>
  {
    Fresh<V>(id, hasDb, map[]).(connected := hasDb)
  }

  ghost function Init<V>(ids: map<string, bool>): Net<V>
  {
    Net(map i | i in ids :: Site(Open(i, ids[i]), {}), {}, {})
  }

  ghost function Absorb<V>(codec: Codec<V>, n: Net<V>, i: string, x: Item<V>): Net<V>
    requires i in n.sites
  {
    n.(sites := n.sites[i := Site(Apply(codec, n.sites[i].rep, x.0, x.1), n.sites[i].absorbed + {x})])
  }

  ghost function Entries<V>(s: State<V>): set<Item<V>>
  {
    set k | k in s :: (k, s[k])
  }

  /** A new process for a replica; without a database it remembers nothing. */
  ghost function Reborn<V>(codec: Codec<V>, rep: Replica<V>): Replica<V>
  {
    ConnectSpec(codec, Fresh(rep.id, rep.hasDb, rep.table))
  }

  ghost function Step<V>(codec: Codec<V>, n: Net<V>, e: Event<V>): (m: Net<V>)
    ensures m.sites.Keys == n.sites.Keys
  {
    match e
    case LocalWrite(i, k, v) =>
      if i !in n.sites then n
      else
        var x := (k, Stamp(n.sites[i].rep, v, None, None));
        Absorb(codec, n.(written := n.written + {x}), i, x)
    case Sync(i) =>
      if i !in n.sites then n else n.(sent := n.sent + Entries(n.sites[i].rep.state))
    case Deliver(i, k, r) =>
      if i !in n.sites || (k, r) !in n.sent then n else Absorb(codec, n, i, (k, r))
    case Restart(i) =>
      if i !in n.sites then n
      else
        var Site(rep, absorbed) := n.sites[i];
        n.(sites := n.sites[i := Site(Reborn(codec, rep), if rep.hasDb then absorbed else {})])
    case Foreign(k, r) =>
      n.(sent := n.sent + {(k, r)}, written := n.written + {(k, r)})
  }

  ghost function Run<V>(codec: Codec<V>, n: Net<V>, es: seq<Event<V>>): (m: Net<V>)
    ensures m.sites.Keys == n.sites.Keys
  {
    if es == [] then n else Step(codec, Run(codec, n, es[..|es| - 1]), es[|es| - 1])
  }

  /** Every value survives the trip through its JSON text. */
  ghost predicate Lossless<V(!new)>(codec: Codec<V>)
  {
    forall v :: codec.loads(codec.dumps(v)) == v
  }

  lemma LosslessIsInjective<V(!new)>(codec: Codec<V>)
    requires Lossless(codec)
    ensures Injective(codec.dumps)
  {
    forall v, w | codec.dumps(v) == codec.dumps(w) ensures v == w {
      assert codec.loads(codec.dumps(v)) == codec.loads(codec.dumps(w));
    }
  }

  // ----- what every event keeps, foreign records and lost memories included -----

  ghost predicate ReplicaOk<V>(codec: Codec<V>, i: string, rep: Replica<V>)
  {
    rep.id == i && rep.connected == rep.hasDb && ClockExact(rep) && Mirrors(codec, rep)
  }

  /** The state is the per-key maximum of what the replica absorbed. */
  ghost predicate HoldsMaximum<V>(codec: Codec<V>, rep: Replica<V>, absorbed: set<Item<V>>)
  {
    && (forall k :: k in rep.state ==> (k, rep.state[k]) in absorbed)
    && (forall x :: x in absorbed ==> x.0 in rep.state && !Beats(RuleOf(codec), x.1, rep.state[x.0]))
  }

  ghost predicate SiteOk<V>(codec: Codec<V>, i: string, site: Site<V>)
  {
    ReplicaOk(codec, i, site.rep) && HoldsMaximum(codec, site.rep, site.absorbed)
  }

  ghost predicate Base<V>(codec: Codec<V>, n: Net<V>)
  {
    && n.sent <= n.written
    && (forall i :: i in n.sites ==> SiteOk(codec, i, n.sites[i]))
    && (forall i :: i in n.sites ==> n.sites[i].absorbed <= n.written)
  }

  lemma AbsorbKeepsMaximum<V>(codec: Codec<V>, rep: Replica<V>, absorbed: set<Item<V>>, x: Item<V>)
    requires HoldsMaximum(codec, rep, absorbed)
    ensures HoldsMaximum(codec, Apply(codec, rep, x.0, x.1), absorbed + {x})
  {
    var rule := RuleOf(codec);
    var next := Apply(codec, rep, x.0, x.1);
    NeverBeatsItself(rule, x.1);
    forall y | y in absorbed + {x} ensures y.0 in next.state && !Beats(rule, y.1, next.state[y.0]) {
      if y.0 == x.0 && y in absorbed && Beats(rule, x.1, rep.state[x.0]) {
        BeatsAsymmetric(rule, x.1, rep.state[x.0]);
        NotBeatsTransitive(rule, y.1, rep.state[x.0], x.1);
      }
    }
  }

  lemma RebornIsSame<V(!new)>(codec: Codec<V>, i: string, rep: Replica<V>)
    requires Lossless(codec) && ReplicaOk(codec, i, rep) && rep.hasDb
    ensures Reborn(codec, rep) == rep
  {
    RecoveryExactIff(codec, rep);
  }

  lemma RebornWithoutDb<V>(codec: Codec<V>, i: string, rep: Replica<V>)
    requires ReplicaOk(codec, i, rep) && !rep.hasDb
    ensures ReplicaOk(codec, i, Reborn(codec, rep)) && HoldsMaximum(codec, Reborn(codec, rep), {})
    ensures Reborn(codec, rep).clock == 0 && Reborn(codec, rep).state == map[]
  {
    var blank: State<V> := map[];
    TopStampIs(blank, 0);
  }

  lemma ReplacingOneKeepsBase<V>(codec: Codec<V>, n: Net<V>, i: string, site: Site<V>)
    requires Base(codec, n) && SiteOk(codec, i, site) && site.absorbed <= n.written
    ensures Base(codec, n.(sites := n.sites[i := site]))
  {
  }

  lemma ApplyKeepsOk<V>(codec: Codec<V>, i: string, site: Site<V>, x: Item<V>)
    requires SiteOk(codec, i, site)
    ensures SiteOk(codec, i, Site(Apply(codec, site.rep, x.0, x.1), site.absorbed + {x}))
  {
    ApplyKeepsClockExact(codec, site.rep, x.0, x.1);
    ApplyKeepsMirror(codec, site.rep, x.0, x.1);
    AbsorbKeepsMaximum(codec, site.rep, site.absorbed, x);
  }

  lemma AbsorbKeepsBase<V>(codec: Codec<V>, n: Net<V>, i: string, x: Item<V>)
    requires Base(codec, n) && i in n.sites && x in n.written
    ensures Base(codec, Absorb(codec, n, i, x))
  {
    ApplyKeepsOk(codec, i, n.sites[i], x);
    ReplacingOneKeepsBase(codec, n, i, Site(Apply(codec, n.sites[i].rep, x.0, x.1), n.sites[i].absorbed + {x}));
  }

  lemma DurableRestartChangesNothing<V(!new)>(codec: Codec<V>, n: Net<V>, i: string)
    requires Lossless(codec) && i in n.sites && SiteOk(codec, i, n.sites[i]) && n.sites[i].rep.hasDb
    ensures Step(codec, n, Restart(i)) == n
  {
    RebornIsSame(codec, i, n.sites[i].rep);
  }

  lemma ForgetfulRebornIsOk<V>(codec: Codec<V>, i: string, rep: Replica<V>)
    requires ReplicaOk(codec, i, rep) && !rep.hasDb
    ensures SiteOk(codec, i, Site(Reborn(codec, rep), {}))
  {
    RebornWithoutDb(codec, i, rep);
  }

  lemma ForgetfulRestartKeepsBase<V>(codec: Codec<V>, n: Net<V>, i: string)
    requires Base(codec, n) && i in n.sites && !n.sites[i].rep.hasDb
    ensures Base(codec, n.(sites := n.sites[i := Site(Reborn(codec, n.sites[i].rep), {})]))
  {
    assert SiteOk(codec, i, n.sites[i]);
    ForgetfulRebornIsOk(codec, i, n.sites[i].rep);
    ReplacingOneKeepsBase(codec, n, i, Site(Reborn(codec, n.sites[i].rep), {}));
  }

  lemma StepKeepsBase<V(!new)>(codec: Codec<V>, n: Net<V>, e: Event<V>)
    requires Lossless(codec) && Base(codec, n)
    ensures Base(codec, Step(codec, n, e))
  {
    match e
    case LocalWrite(i, k, v) =>
      if i in n.sites {
        var x := (k, Stamp(n.sites[i].rep, v, None, None));
        AbsorbKeepsBase(codec, n.(written := n.written + {x}), i, x);
      }
    case Sync(i) =>
      if i in n.sites {
        assert SiteOk(codec, i, n.sites[i]);
        assert Entries(n.sites[i].rep.state) <= n.sites[i].absorbed;
      }
    case Deliver(i, k, r) =>
      if i in n.sites && (k, r) in n.sent {
        AbsorbKeepsBase(codec, n, i, (k, r));
      }
    case Restart(i) =>
      if i in n.sites {
        if n.sites[i].rep.hasDb {
          DurableRestartChangesNothing(codec, n, i);
        } else {
          ForgetfulRestartKeepsBase(codec, n, i);
        }
      }
    case Foreign(_, _) =>
  }

  lemma InitIsBase<V>(codec: Codec<V>, ids: map<string, bool>)
    ensures Base(codec, Init<V>(ids))
  {
    var blank: State<V> := map[];
    TopStampIs(blank, 0);
    assert RowsOf(codec, blank) == map[];
    var n := Init<V>(ids);
    assert forall i :: i in n.sites ==> SiteOk(codec, i, n.sites[i]);
  }

  lemma {:induction false} RunFromKeepsBase<V(!new)>(codec: Codec<V>, n: Net<V>, es: seq<Event<V>>)
    requires Lossless(codec) && Base(codec, n)
    ensures Base(codec, Run(codec, n, es))
  {
    if es != [] {
      RunFromKeepsBase(codec, n, es[..|es| - 1]);
      StepKeepsBase(codec, Run(codec, n, es[..|es| - 1]), es[|es| - 1]);
    }
  }

  lemma RunKeepsBase<V(!new)>(codec: Codec<V>, ids: map<string, bool>, es: seq<Event<V>>)
    requires Lossless(codec)
    ensures Base(codec, Run(codec, Init(ids), es))
  {
    InitIsBase(codec, ids);
    RunFromKeepsBase(codec, Init(ids), es);
  }

  /** Clock and table are exact in every reachable state. */
  lemma ClockAndTableExactInEveryRun<V(!new)>(codec: Codec<V>, ids: map<string, bool>, es: seq<Event<V>>, i: string)
    requires Lossless(codec) && i in ids
    ensures var rep := Run(codec, Init(ids), es).sites[i].rep;
      && rep.clock == TopStamp(rep.state)
      && (rep.connected ==> rep.table == RowsOf(codec, rep.state) && Reborn(codec, rep) == rep)
  {
    RunKeepsBase(codec, ids, es);
    var n := Run(codec, Init(ids), es);
    var rep := n.sites[i].rep;
    assert SiteOk(codec, i, n.sites[i]);
    if rep.connected {
      RebornIsSame(codec, i, rep);
    }
  }

  /** Strong convergence over whole runs: two replicas, at any two moments of any two runs, each of
      which has absorbed what the other stores, hold the same entries and the same clock.  Records
      overwritten before they were ever sent play no part. */
  lemma MutualEntriesSameState<V(!new)>(codec: Codec<V>, ids: map<string, bool>, es: seq<Event<V>>, i: string,
                                        ids': map<string, bool>, es': seq<Event<V>>, j: string)
    requires Lossless(codec) && i in ids && j in ids'
    requires Entries(Run(codec, Init(ids), es).sites[i].rep.state) <= Run(codec, Init(ids'), es').sites[j].absorbed
    requires Entries(Run(codec, Init(ids'), es').sites[j].rep.state) <= Run(codec, Init(ids), es).sites[i].absorbed
    ensures Run(codec, Init(ids), es).sites[i].rep.state == Run(codec, Init(ids'), es').sites[j].rep.state
    ensures Run(codec, Init(ids), es).sites[i].rep.clock == Run(codec, Init(ids'), es').sites[j].rep.clock
  {
    RunKeepsBase(codec, ids, es);
    RunKeepsBase(codec, ids', es');
    LosslessIsInjective(codec);
    var a, b := Run(codec, Init(ids), es), Run(codec, Init(ids'), es');
    assert SiteOk(codec, i, a.sites[i]) && SiteOk(codec, j, b.sites[j]);
    SameMaximum(codec, a.sites[i], b.sites[j]);
  }

  lemma SameMaximum<V(!new)>(codec: Codec<V>, a: Site<V>, b: Site<V>)
    requires Injective(codec.dumps)
    requires HoldsMaximum(codec, a.rep, a.absorbed) && HoldsMaximum(codec, b.rep, b.absorbed)
    requires Entries(a.rep.state) <= b.absorbed && Entries(b.rep.state) <= a.absorbed
    ensures a.rep.state == b.rep.state
  {
    var s, t := a.rep.state, b.rep.state;
    forall k | k in s ensures k in t && s[k] == t[k] {
      assert (k, s[k]) in Entries(s);
      assert (k, t[k]) in Entries(t);
      TieMeansSameRank(RuleOf(codec), s[k], t[k]);
    }
    forall k | k in t ensures k in s {
      assert (k, t[k]) in Entries(t);
    }
  }

  /** In particular when both absorbed the same records. */
  lemma SameAbsorbedSameState<V(!new)>(codec: Codec<V>, ids: map<string, bool>, es: seq<Event<V>>, i: string,
                                       ids': map<string, bool>, es': seq<Event<V>>, j: string)
    requires Lossless(codec) && i in ids && j in ids'
    requires Run(codec, Init(ids), es).sites[i].absorbed == Run(codec, Init(ids'), es').sites[j].absorbed
    ensures Run(codec, Init(ids), es).sites[i].rep.state == Run(codec, Init(ids'), es').sites[j].rep.state
    ensures Run(codec, Init(ids), es).sites[i].rep.clock == Run(codec, Init(ids'), es').sites[j].rep.clock
  {
    EntriesAreAbsorbed(codec, ids, es, i);
    EntriesAreAbsorbed(codec, ids', es', j);
    MutualEntriesSameState(codec, ids, es, i, ids', es', j);
  }

  lemma EntriesAreAbsorbed<V(!new)>(codec: Codec<V>, ids: map<string, bool>, es: seq<Event<V>>, i: string)
    requires Lossless(codec) && i in ids
    ensures var site := Run(codec, Init(ids), es).sites[i]; Entries(site.rep.state) <= site.absorbed
  {
    RunKeepsBase(codec, ids, es);
    assert SiteOk(codec, i, Run(codec, Init(ids), es).sites[i]);
  }

  /** The records that deliveries of es bring to replica i. */
  ghost function Delivered<V>(es: seq<Event<V>>, i: string): set<Item<V>>
  {
    if es == [] then {}
    else
      var last := es[|es| - 1];
      Delivered(es[..|es| - 1], i) + if last.Deliver? && last.i == i then {(last.k, last.r)} else {}
  }

  ghost predicate OnlyDeliveries<V>(n: Net<V>, es: seq<Event<V>>)
  {
    forall e :: e in es ==> e.Deliver? && (e.k, e.r) in n.sent
  }

  lemma DeliveryIsAbsorbed<V>(codec: Codec<V>, n: Net<V>, e: Event<V>, i: string)
    requires e.Deliver? && (e.k, e.r) in n.sent && i in n.sites
    ensures Step(codec, n, e).sent == n.sent
    ensures Step(codec, n, e).sites[i].absorbed == n.sites[i].absorbed + if e.i == i then {(e.k, e.r)} else {}
  {
  }

  lemma {:induction false} DeliveriesAreAbsorbed<V(!new)>(codec: Codec<V>, n: Net<V>, es: seq<Event<V>>, i: string)
    requires i in n.sites && OnlyDeliveries(n, es)
    ensures Run(codec, n, es).sent == n.sent
    ensures Run(codec, n, es).sites[i].absorbed == n.sites[i].absorbed + Delivered(es, i)
  {
    if es != [] {
      var front, last := es[..|es| - 1], es[|es| - 1];
      assert forall e :: e in front ==> e in es;
      assert last in es;
      DeliveriesAreAbsorbed(codec, n, front, i);
      DeliveryIsAbsorbed(codec, Run(codec, n, front), last, i);
    }
  }

  /** The ordinary exchange: from any reachable state, once each of two replicas has received the
      entries the other had sent - in any order, repeated and interleaved - they agree. */
  lemma ExchangeConverges<V(!new)>(codec: Codec<V>, n: Net<V>, es: seq<Event<V>>, i: string, j: string)
    requires Lossless(codec) && Base(codec, n) && i in n.sites && j in n.sites && OnlyDeliveries(n, es)
    requires Delivered(es, i) == Entries(n.sites[j].rep.state) && Delivered(es, j) == Entries(n.sites[i].rep.state)
    ensures var m := Run(codec, n, es);
      m.sites[i].rep.state == m.sites[j].rep.state && m.sites[i].rep.clock == m.sites[j].rep.clock
  {
    DeliveriesAreAbsorbed(codec, n, es, i);
    DeliveriesAreAbsorbed(codec, n, es, j);
    RunFromKeepsBase(codec, n, es);
    LosslessIsInjective(codec);
    var m := Run(codec, n, es);
    var a, b, a', b' := n.sites[i], n.sites[j], m.sites[i], m.sites[j];
    assert SiteOk(codec, i, a) && SiteOk(codec, j, b) && SiteOk(codec, i, a') && SiteOk(codec, j, b');
    SurvivorsCrossOver(codec, a, b, a', b');
    SurvivorsCrossOver(codec, b, a, b', a');
    SameMaximum(codec, a', b');
  }

  lemma SurvivorsCrossOver<V(!new)>(codec: Codec<V>, a: Site<V>, b: Site<V>, a': Site<V>, b': Site<V>)
    requires Injective(codec.dumps)
    requires HoldsMaximum(codec, a'.rep, a'.absorbed) && HoldsMaximum(codec, a.rep, a.absorbed) && HoldsMaximum(codec, b.rep, b.absorbed)
    requires a'.absorbed == a.absorbed + Entries(b.rep.state) && b'.absorbed == b.absorbed + Entries(a.rep.state)
    ensures Entries(a'.rep.state) <= b'.absorbed
  {
    var s := a'.rep.state;
    forall k | k in s ensures (k, s[k]) in b'.absorbed {
      if (k, s[k]) in a.absorbed {
        assert k in a.rep.state && !Beats(RuleOf(codec), s[k], a.rep.state[k]);
        assert (k, a.rep.state[k]) in a.absorbed;
        TieMeansSameRank(RuleOf(codec), s[k], a.rep.state[k]);
        assert (k, s[k]) in Entries(a.rep.state);
      }
    }
  }

  // ----- write stamps -----

  /** A record stored at some replica or on the wire. */
  ghost predicate Found<V>(n: Net<V>, x: Item<V>)
  {
    x in n.sent || exists i :: i in n.sites && x.0 in n.sites[i].rep.state && n.sites[i].rep.state[x.0] == x.1
  }

  ghost predicate SameStamp<V>(x: Item<V>, y: Item<V>)
  {
    x.1.ts == y.1.ts && x.1.writer == y.1.writer
  }

  /** A (timestamp, writer) pair belongs to one key and one value. */
  ghost predicate UniqueStamps<V(!new)>(n: Net<V>)
  {
    forall x, y :: Found(n, x) && Found(n, y) && SameStamp(x, y) ==> x == y
  }

  /** Nothing written by `i` is stamped above the clock of `i`, and no stamp was used twice. */
  ghost predicate Stamped<V>(n: Net<V>)
  {
    && (forall x :: x in n.written ==> x.1.writer in n.sites && x.1.ts <= n.sites[x.1.writer].rep.clock)
    && (forall x, y :: x in n.written && y in n.written && SameStamp(x, y) ==> x == y)
  }

  ghost predicate Durable<V>(n: Net<V>)
  {
    forall i :: i in n.sites ==> n.sites[i].rep.hasDb
  }

  lemma AbsorbKeepsStamped<V>(codec: Codec<V>, n: Net<V>, i: string, x: Item<V>)
    requires i in n.sites && Stamped(n) && Durable(n)
    ensures Stamped(Absorb(codec, n, i, x)) && Durable(Absorb(codec, n, i, x))
  {
    var m := Absorb(codec, n, i, x);
    forall y | y in m.written ensures y.1.writer in m.sites && y.1.ts <= m.sites[y.1.writer].rep.clock {
      assert y.1.ts <= n.sites[y.1.writer].rep.clock;
    }
  }

  lemma WriteKeepsStamped<V>(codec: Codec<V>, n: Net<V>, i: string, k: string, v: V)
    requires i in n.sites && n.sites[i].rep.id == i && Stamped(n) && Durable(n)
    ensures var m := Absorb(codec, n.(written := n.written + {(k, Stamp(n.sites[i].rep, v, None, None))}), i,
                            (k, Stamp(n.sites[i].rep, v, None, None)));
      Stamped(m) && Durable(m)
  {
    var x := (k, Stamp(n.sites[i].rep, v, None, None));
    var m := Absorb(codec, n.(written := n.written + {x}), i, x);
    assert m.sites[i].rep.clock == n.sites[i].rep.clock + 1 == x.1.ts;
    forall y | y in m.written ensures y.1.writer in m.sites && y.1.ts <= m.sites[y.1.writer].rep.clock {
      if y != x {
        assert y in n.written && y.1.ts <= n.sites[y.1.writer].rep.clock;
      }
    }
    forall y, z | y in m.written && z in m.written && SameStamp(y, z) ensures y == z {
      assert y != x ==> y in n.written && y.1.ts <= n.sites[y.1.writer].rep.clock;
      assert z != x ==> z in n.written && z.1.ts <= n.sites[z.1.writer].rep.clock;
    }
  }

  lemma StepKeepsStamped<V(!new)>(codec: Codec<V>, n: Net<V>, e: Event<V>)
    requires Lossless(codec) && Base(codec, n) && Stamped(n) && Durable(n) && !e.Foreign?
    ensures Stamped(Step(codec, n, e)) && Durable(Step(codec, n, e))
  {
    match e
    case LocalWrite(i, k, v) =>
      if i in n.sites {
        assert SiteOk(codec, i, n.sites[i]);
        WriteKeepsStamped(codec, n, i, k, v);
      }
    case Sync(i) =>
    case Deliver(i, k, r) =>
      if i in n.sites && (k, r) in n.sent {
        AbsorbKeepsStamped(codec, n, i, (k, r));
      }
    case Restart(i) =>
      if i in n.sites {
        assert SiteOk(codec, i, n.sites[i]);
        DurableRestartChangesNothing(codec, n, i);
      }
  }

  ghost predicate Native<V>(es: seq<Event<V>>)
  {
    forall e :: e in es ==> !e.Foreign?
  }

  lemma {:induction false} RunKeepsStamped<V(!new)>(codec: Codec<V>, ids: map<string, bool>, es: seq<Event<V>>)
    requires Lossless(codec) && Native(es) && forall i :: i in ids ==> ids[i]
    ensures Stamped(Run(codec, Init(ids), es)) && Durable(Run(codec, Init(ids), es))
  {
    if es != [] {
      var front := es[..|es| - 1];
      assert Native(front) by {
        assert forall e :: e in front ==> e in es;
      }
      RunKeepsStamped(codec, ids, front);
      RunKeepsBase(codec, ids, front);
      StepKeepsStamped(codec, Run(codec, Init(ids), front), es[|es| - 1]);
    }
  }

  /** Without a database a restart resets the clock, and the next write reuses a stamp that is
      already on the wire. */
  lemma ForgottenClockReusesStamp<V(!new)>(codec: Codec<V>, ids: map<string, bool>, i: string, k: string, v: V, w: V)
    requires i in ids && !ids[i] && v != w
    ensures !UniqueStamps(Run(codec, Init(ids), [LocalWrite(i, k, v), Sync(i), Restart(i), LocalWrite(i, k, w)]))
  {
    var e1, e2, e3, e4 := LocalWrite(i, k, v), Sync(i), Restart(i), LocalWrite(i, k, w);
    assert [e1, e2, e3, e4][..3] == [e1, e2, e3] && [e1, e2, e3][..2] == [e1, e2] && [e1, e2][..1] == [e1];
    var n0 := Init<V>(ids);
    var n1 := Step(codec, n0, e1);
    var n2 := Step(codec, n1, e2);
    var n3 := Step(codec, n2, e3);
    var n4 := Step(codec, n3, e4);
    assert Run(codec, n0, [e1]) == n1;
    assert Run(codec, n0, [e1, e2]) == n2;
    assert Run(codec, n0, [e1, e2, e3]) == n3;
    assert n1.sites[i].rep.state[k] == Rec(v, 1, i);
    assert (k, Rec(v, 1, i)) in Entries(n1.sites[i].rep.state);
    assert Found(n4, (k, Rec(v, 1, i)));
    assert n4.sites[i].rep.state[k] == Rec(w, 1, i);
    assert Found(n4, (k, Rec(w, 1, i)));
    assert SameStamp((k, Rec(v, 1, i)), (k, Rec(w, 1, i)));
  }

  lemma UniqueStampsInEveryDurableRun<V(!new)>(codec: Codec<V>, ids: map<string, bool>, es: seq<Event<V>>)
    requires Lossless(codec) && Native(es) && forall i :: i in ids ==> ids[i]
    ensures UniqueStamps(Run(codec, Init(ids), es))
  {
    RunKeepsStamped(codec, ids, es);
    RunKeepsBase(codec, ids, es);
    var n := Run(codec, Init(ids), es);
    forall x | Found(n, x) ensures x in n.written {
      if x !in n.sent {
        var i :| i in n.sites && x.0 in n.sites[i].rep.state && n.sites[i].rep.state[x.0] == x.1;
        assert SiteOk(codec, i, n.sites[i]);
        assert x in n.sites[i].absorbed;
      }
    }
  }

  /** Write stamps are unique in every run of clock-stamped writes exactly when every
      replica has a database to restart from. */
  lemma UniqueStampsIffDurable<V(!new)>(codec: Codec<V>, ids: map<string, bool>, v: V, w: V)
    requires Lossless(codec) && v != w
    ensures (forall es :: Native(es) ==> UniqueStamps(Run(codec, Init(ids), es))) <==> (forall i :: i in ids ==> ids[i])
  {
    if forall i :: i in ids ==> ids[i] {
      forall es | Native(es) ensures UniqueStamps(Run(codec, Init(ids), es)) {
        UniqueStampsInEveryDurableRun(codec, ids, es);
      }
    } else {
      var i :| i in ids && !ids[i];
      ForgottenClockReusesStamp(codec, ids, i, "k", v, w);
      var es: seq<Event<V>> := [LocalWrite(i, "k", v), Sync(i), Restart(i), LocalWrite(i, "k", w)];
      assert Native(es);
    }
  }

  /** In such runs the Go, Rust and Java rule reaches the Python state on any records of the
      run, in any order and multiplicity. */
  lemma RulesAgreeInEveryDurableRun<V(!new)>(codec: Codec<V>, ids: map<string, bool>, es: seq<Event<V>>, rs: seq<Item<V>>)
    requires Lossless(codec) && Native(es) && forall i :: i in ids ==> ids[i]
    requires forall x :: x in rs ==> x in Run(codec, Init(ids), es).written
    ensures PutAll(TwoLevel, map[], rs) == PutAll(ThreeLevel(codec.dumps), map[], rs)
  {
    RunKeepsStamped(codec, ids, es);
    forall x, y | x in rs && y in rs && x.0 == y.0 && x.1.ts == y.1.ts && x.1.writer == y.1.writer
      ensures x.1.value == y.1.value
    {
      assert SameStamp(x, y);
    }
    FixedValuesMakeRulesAgree(codec.dumps, rs);
  }
}
