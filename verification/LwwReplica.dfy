/** The Python LWW-Map as an object: entries, Lamport clock and the SQLite write-through
    table, together with the value-level specification its methods are proved against. */
module LwwReplica {
  import opened Wrappers
  import opened LwwRecords
  import LexOrder

  /** One row of table `lww_map`; the value column holds JSON text. */
  datatype Row = Row(text: string, ts: int, writer: string)

  /** `json.dumps(.., sort_keys=True)` and `json.loads`. */
  datatype Codec<!V> = Codec(dumps: V -> string, loads: string -> V)

  datatype Replica<V> = Replica(
    id: string, state: State<V>, clock: int, hasDb: bool, table: map<string, Row>, connected: bool)

  ghost function MaxOf(xs: set<int>, floor: int): (m: int)
    ensures floor <= m && (forall x :: x in xs ==> x <= m)
    ensures m == floor || m in xs
  {
    if x :| x in xs then
      var m := MaxOf(xs - {x}, floor);
      assert xs == (xs - {x}) + {x};
      if x > m then x else m
    else floor
  }

  lemma MaxOfWithOneMore(xs: set<int>, x: int, floor: int)
    ensures MaxOf(xs + {x}, floor) == if x > MaxOf(xs, floor) then x else MaxOf(xs, floor)
  {
  }

  ghost function Stamps<V>(s: State<V>): set<int>
  {
    set k | k in s :: s[k].ts
  }

  ghost function RowStamps(table: map<string, Row>): set<int>
  {
    set k | k in table :: table[k].ts
  }

  lemma StampsWithOneMore<V>(s: State<V>, k: string, r: Rec<V>)
    requires k !in s
    ensures Stamps(s[k := r]) == Stamps(s) + {r.ts}
  {
    var more := s[k := r];
    assert more[k].ts == r.ts;
    assert forall j :: j in s ==> more[j].ts == s[j].ts;
  }

  lemma RowStampsWithOneMore(table: map<string, Row>, k: string, row: Row)
    requires k !in table
    ensures RowStamps(table[k := row]) == RowStamps(table) + {row.ts}
  {
    var more := table[k := row];
    assert more[k].ts == row.ts;
    assert forall j :: j in table ==> more[j].ts == table[j].ts;
  }

  /** The largest stored timestamp, or 0. */
  ghost function TopStamp<V>(s: State<V>): int
  {
    MaxOf(Stamps(s), 0)
  }

  function RowOf<V>(codec: Codec<V>, r: Rec<V>): Row
  {
    Row(codec.dumps(r.value), r.ts, r.writer)
  }

  function RecOf<V>(codec: Codec<V>, row: Row): Rec<V>
  {
    Rec(codec.loads(row.text), row.ts, row.writer)
  }

  function RowsOf<V>(codec: Codec<V>, s: State<V>): map<string, Row>
  {
    map k | k in s :: RowOf(codec, s[k])
  }

  function RuleOf<V>(codec: Codec<V>): Rule<V>
  {
    ThreeLevel(codec.dumps)
  }

  // ----- one stamped record, one `set` call, one merge -----

  function Apply<V>(codec: Codec<V>, rep: Replica<V>, k: string, r: Rec<V>): Replica<V>
  {
    var wins := k !in rep.state || Beats(RuleOf(codec), r, rep.state[k]);
    rep.(clock := if r.ts > rep.clock then r.ts else rep.clock,
         state := Put(RuleOf(codec), rep.state, k, r),
         table := if wins && rep.connected then rep.table[k := RowOf(codec, r)] else rep.table)
  }

  /** The record a `set` call stands for: an unstamped call takes the next clock value and
      the node's own id, a stamped one defaults only the writer. */
  function Stamp<V>(rep: Replica<V>, v: V, ts: Option<int>, writer: Option<string>): Rec<V>
  {
    if ts.None? then Rec(v, rep.clock + 1, rep.id) else Rec(v, ts.value, writer.GetOr(rep.id))
  }

  function SetSpec<V>(codec: Codec<V>, rep: Replica<V>, k: string, v: V, ts: Option<int>, writer: Option<string>): Replica<V>
  {
    Apply(codec, rep, k, Stamp(rep, v, ts, writer))
  }

  /** Rows for the incoming entries that replace, or add, an entry in memory. */
  function Won<V>(codec: Codec<V>, s: State<V>, other: State<V>): map<string, Row>
  {
    map k | k in other && (k in s ==> Beats(RuleOf(codec), other[k], s[k])) :: RowOf(codec, other[k])
  }

  ghost function MergeSpec<V>(codec: Codec<V>, rep: Replica<V>, other: State<V>): Replica<V>
  {
    var won := Won(codec, rep.state, other);
    rep.(clock := MaxOf(Stamps(other), rep.clock),
         state := Join(RuleOf(codec), rep.state, other),
         table := if rep.connected then rep.table + won else rep.table)
  }

  lemma MergeNothing<V>(codec: Codec<V>, rep: Replica<V>)
    ensures MergeSpec(codec, rep, map[]) == rep
  {
    var none: State<V> := map[];
    assert Stamps(none) == {};
    assert Join(RuleOf(codec), rep.state, none).Keys == rep.state.Keys;
  }

  lemma WonWithOneMore<V>(codec: Codec<V>, s: State<V>, done: State<V>, k: string, r: Rec<V>)
    requires k !in done
    ensures Won(codec, s, done[k := r]) ==
      if k in s && !Beats(RuleOf(codec), r, s[k]) then Won(codec, s, done) else Won(codec, s, done)[k := RowOf(codec, r)]
  {
  }

  /** Absorbing one more key of the incoming state extends the merge by that key. */
  lemma MergeOneMore<V>(codec: Codec<V>, rep: Replica<V>, done: State<V>, k: string, r: Rec<V>)
    requires k !in done
    ensures Apply(codec, MergeSpec(codec, rep, done), k, r) == MergeSpec(codec, rep, done[k := r])
  {
    var rule := RuleOf(codec);
    StampsWithOneMore(done, k, r);
    MaxOfWithOneMore(Stamps(done), r.ts, rep.clock);
    WonWithOneMore(codec, rep.state, done, k, r);
    JoinLeavesOtherKeys(rule, rep.state, done, k);
    PutIntoJoin(rule, rep.state, done, k, r);
    RowsAdded(rep.table, Won(codec, rep.state, done), k, RowOf(codec, r));
  }

  lemma JoinLeavesOtherKeys<V>(rule: Rule<V>, s: State<V>, other: State<V>, k: string)
    requires k !in other
    ensures k in Join(rule, s, other) <==> k in s
    ensures k in s ==> Join(rule, s, other)[k] == s[k]
  {
  }

  lemma RowsAdded(table: map<string, Row>, won: map<string, Row>, k: string, row: Row)
    ensures (table + won)[k := row] == table + won[k := row]
  {
  }

  // ----- database: connect, hydrate, close -----

  function Hydrated<V>(codec: Codec<V>, s: State<V>, table: map<string, Row>): State<V>
  {
    s + map k | k in table :: RecOf(codec, table[k])
  }

  ghost function RowClock(clock: int, table: map<string, Row>): int
  {
    MaxOf(RowStamps(table), clock)
  }

  /** `connect`: rows overwrite entries in memory without being compared with them. */
  ghost function ConnectSpec<V>(codec: Codec<V>, rep: Replica<V>): Replica<V>
  {
    if !rep.hasDb then rep
    else rep.(state := Hydrated(codec, rep.state, rep.table), clock := RowClock(rep.clock, rep.table), connected := true)
  }

  /** A new process for node `id` on an existing table. */
  function Fresh<V>(id: string, hasDb: bool, table: map<string, Row>): Replica<V>
  {
    Replica(id, map[], 0, hasDb, table, false)
  }

  lemma HydrateOneMore<V>(codec: Codec<V>, s: State<V>, clock: int, done: map<string, Row>, k: string, row: Row)
    ensures Hydrated(codec, s, done)[k := RecOf(codec, row)] == Hydrated(codec, s, done[k := row])
    ensures k !in done ==>
      (if row.ts > RowClock(clock, done) then row.ts else RowClock(clock, done)) == RowClock(clock, done[k := row])
  {
    if k !in done {
      RowStampsWithOneMore(done, k, row);
    }
  }

  // ----- invariants of a replica -----

  /** The clock is the largest stored timestamp, never below 0. */
  ghost predicate ClockExact<V>(rep: Replica<V>)
  {
    rep.clock == TopStamp(rep.state)
  }

  /** While connected, the table holds exactly the entries in memory. */
  ghost predicate Mirrors<V>(codec: Codec<V>, rep: Replica<V>)
  {
    rep.connected ==> rep.table == RowsOf(codec, rep.state)
  }

  lemma TopStampIs<V>(s: State<V>, c: int)
    requires c >= 0 && (forall k :: k in s ==> s[k].ts <= c)
    requires c == 0 || exists k :: k in s && s[k].ts == c
    ensures TopStamp(s) == c
  {
    var stamps := Stamps(s);
    assert forall t :: t in stamps ==> t <= c;
    if c != 0 {
      var k :| k in s && s[k].ts == c;
      assert s[k].ts in stamps;
    }
  }

  lemma TopStampBounds<V>(s: State<V>)
    ensures TopStamp(s) >= 0 && (forall k :: k in s ==> s[k].ts <= TopStamp(s))
    ensures TopStamp(s) == 0 || exists k :: k in s && s[k].ts == TopStamp(s)
  {
    var stamps := Stamps(s);
    assert forall k :: k in s ==> s[k].ts in stamps;
  }

  lemma ApplyKeepsClockExact<V>(codec: Codec<V>, rep: Replica<V>, k: string, r: Rec<V>)
    requires ClockExact(rep)
    ensures ClockExact(Apply(codec, rep, k, r))
  {
    TopStampBounds(rep.state);
    var next := Apply(codec, rep, k, r);
    if rep.clock != 0 && next.clock == rep.clock {
      var j :| j in rep.state && rep.state[j].ts == rep.clock;
      assert next.state[j].ts == rep.clock;
    } else if next.clock == r.ts {
      assert k in next.state && (r.ts > rep.clock ==> next.state[k].ts == r.ts);
    }
    TopStampIs(next.state, next.clock);
  }

  lemma ApplyKeepsMirror<V>(codec: Codec<V>, rep: Replica<V>, k: string, r: Rec<V>)
    requires Mirrors(codec, rep)
    ensures Mirrors(codec, Apply(codec, rep, k, r))
  {
  }

  lemma MergeKeepsMirror<V>(codec: Codec<V>, rep: Replica<V>, other: State<V>)
    requires Mirrors(codec, rep)
    ensures Mirrors(codec, MergeSpec(codec, rep, other))
  {
    var next := MergeSpec(codec, rep, other);
    if rep.connected {
      assert next.table.Keys == RowsOf(codec, next.state).Keys;
    }
  }

  /** No entry is stamped above the clock; also true where the clock is ahead of all entries. */
  ghost predicate ClockBounds<V>(rep: Replica<V>)
  {
    forall k :: k in rep.state ==> rep.state[k].ts <= rep.clock
  }

  /** A set of any record, a merge and even a late connect keep the bound. */
  lemma ClockBoundsKept<V>(codec: Codec<V>, rep: Replica<V>, k: string, r: Rec<V>, other: State<V>)
    requires ClockBounds(rep)
    ensures ClockBounds(Apply(codec, rep, k, r)) && ClockBounds(MergeSpec(codec, rep, other)) && ClockBounds(ConnectSpec(codec, rep))
  {
    RowClockBounds(rep.clock, rep.table);
    assert forall j :: j in other ==> other[j].ts in Stamps(other);
  }

  /** An unstamped local set is then always the record stored for its key. */
  lemma LocalSetIsRead<V>(codec: Codec<V>, rep: Replica<V>, k: string, v: V, writer: Option<string>)
    requires ClockBounds(rep)
    ensures var next := SetSpec(codec, rep, k, v, None, writer);
      k in next.state && next.state[k] == Rec(v, rep.clock + 1, rep.id) && next.clock == rep.clock + 1
  {
  }

  /** A stamped set offers the given timestamp, with the given writer or else this node's id, and
      moves the clock up to it and never down. */
  lemma StampedSetOffers<V>(codec: Codec<V>, rep: Replica<V>, k: string, v: V, ts: int, writer: Option<string>)
    requires k !in rep.state
    ensures var next := SetSpec(codec, rep, k, v, Some(ts), writer);
      && next.state == rep.state[k := Rec(v, ts, if writer.Some? then writer.value else rep.id)]
      && next.clock >= ts && next.clock >= rep.clock && (next.clock == ts || next.clock == rep.clock)
      && (rep.connected ==> next.table == rep.table[k := Row(codec.dumps(v), ts, if writer.Some? then writer.value else rep.id)])
      && (!rep.connected ==> next.table == rep.table)
  {
  }

  /** Without a connection nothing is written. */
  lemma UnconnectedWritesNothing<V>(codec: Codec<V>, rep: Replica<V>, k: string, r: Rec<V>, other: State<V>)
    requires !rep.connected
    ensures Apply(codec, rep, k, r).table == MergeSpec(codec, rep, other).table == rep.table
  {
  }

  lemma RecoveredClock<V>(codec: Codec<V>, rep: Replica<V>)
    requires ClockExact(rep) && rep.table == RowsOf(codec, rep.state)
    ensures RowClock(0, rep.table) == rep.clock
  {
    assert forall k :: k in rep.state ==> rep.table[k].ts == rep.state[k].ts;
    assert RowStamps(rep.table) == Stamps(rep.state);
  }

  lemma RecoveredState<V>(codec: Codec<V>, s: State<V>)
    ensures Hydrated(codec, map[], RowsOf(codec, s)) == s <==> forall k :: k in s ==> codec.loads(codec.dumps(s[k].value)) == s[k].value
  {
    var again := Hydrated(codec, map[], RowsOf(codec, s));
    assert again.Keys == s.Keys;
    assert forall k :: k in s ==> again[k] == Rec(codec.loads(codec.dumps(s[k].value)), s[k].ts, s[k].writer);
    if again == s {
      assert forall k :: k in s ==> again[k] == s[k];
    }
  }

  /** Closing and reopening on the same table restores entries and clock exactly when every
      stored value survives the trip through its JSON text. */
  lemma RecoveryExactIff<V>(codec: Codec<V>, rep: Replica<V>)
    requires rep.hasDb && rep.connected && ClockExact(rep) && Mirrors(codec, rep)
    ensures ConnectSpec(codec, Fresh(rep.id, true, rep.table)) == rep
       <==> forall k :: k in rep.state ==> codec.loads(codec.dumps(rep.state[k].value)) == rep.state[k].value
  {
    RecoveredClock(codec, rep);
    RecoveredState(codec, rep.state);
  }

  /** `connect` leaves table and memory equal exactly when memory held no key without a row,
      which is why it has to come before the first `set`. */
  lemma ConnectMirrorsIff<V>(codec: Codec<V>, rep: Replica<V>)
    requires rep.hasDb
    requires forall k :: k in rep.table ==> codec.dumps(codec.loads(rep.table[k].text)) == rep.table[k].text
    ensures Mirrors(codec, ConnectSpec(codec, rep)) <==> rep.state.Keys <= rep.table.Keys
  {
    var next := ConnectSpec(codec, rep);
    assert next.state.Keys == rep.state.Keys + rep.table.Keys;
    assert RowsOf(codec, next.state).Keys == next.state.Keys;
    if rep.state.Keys <= rep.table.Keys {
      assert next.state.Keys == rep.table.Keys;
      assert RowsOf(codec, next.state) == rep.table;
    }
  }

  function RowRecords<V>(codec: Codec<V>, table: map<string, Row>): State<V>
  {
    map k | k in table :: RecOf(codec, table[k])
  }

  /** `connect` loses no newer entry - it ends where merging the rows would - exactly when every
      row that differs from the entry in memory beats it. */
  lemma ConnectMergesIff<V>(codec: Codec<V>, rep: Replica<V>)
    requires rep.hasDb
    ensures ConnectSpec(codec, rep).state == Join(RuleOf(codec), rep.state, RowRecords(codec, rep.table))
       <==> (forall k :: k in rep.state && k in rep.table && RecOf(codec, rep.table[k]) != rep.state[k] ==>
              Beats(RuleOf(codec), RecOf(codec, rep.table[k]), rep.state[k]))
  {
    var rule, rows := RuleOf(codec), RowRecords(codec, rep.table);
    var overwritten, joined := ConnectSpec(codec, rep).state, Join(rule, rep.state, rows);
    assert overwritten.Keys == joined.Keys == rep.state.Keys + rep.table.Keys;
    forall k | k in rep.state && k in rep.table
      ensures overwritten[k] == joined[k] <==>
        (RecOf(codec, rep.table[k]) != rep.state[k] ==> Beats(rule, RecOf(codec, rep.table[k]), rep.state[k]))
    {
      assert overwritten[k] == rows[k] == RecOf(codec, rep.table[k]);
    }
    if overwritten == joined {
      forall k | k in rep.state && k in rep.table && RecOf(codec, rep.table[k]) != rep.state[k]
        ensures Beats(rule, RecOf(codec, rep.table[k]), rep.state[k])
      {
        assert overwritten[k] == joined[k];
      }
    }
  }

  /** `connect` leaves the clock exact exactly when the clock's own stamp does not disappear:
      it is 0, a row reaches it, or an entry that carries it has no row. */
  lemma ConnectClockExactIff<V>(codec: Codec<V>, rep: Replica<V>)
    requires rep.hasDb && ClockExact(rep)
    ensures ClockExact(ConnectSpec(codec, rep)) <==>
      || rep.clock == 0
      || (exists k :: k in rep.table && rep.table[k].ts >= rep.clock)
      || (exists k :: k in rep.state && k !in rep.table && rep.state[k].ts == rep.clock)
  {
    var next := ConnectSpec(codec, rep);
    TopStampBounds(rep.state);
    RowClockBounds(rep.clock, rep.table);
    if next.clock == 0 || exists k :: k in next.state && next.state[k].ts == next.clock {
      TopStampIs(next.state, next.clock);
    } else {
      TopStampBounds(next.state);
    }
    if j :| j in rep.table && rep.table[j].ts == next.clock {
      assert next.state[j].ts == next.clock;
    } else if j :| j in rep.state && j !in rep.table && rep.state[j].ts == rep.clock {
      assert next.state[j].ts == next.clock;
    }
  }

  lemma RowClockBounds(clock: int, table: map<string, Row>)
    ensures RowClock(clock, table) >= clock
    ensures forall k :: k in table ==> table[k].ts <= RowClock(clock, table)
    ensures RowClock(clock, table) == clock || exists k :: k in table && table[k].ts == RowClock(clock, table)
  {
    var stamps := RowStamps(table);
    assert forall k :: k in table ==> table[k].ts in stamps;
  }

  /** Connecting late can replace a newer entry by an older row and leave the clock ahead. */
  lemma LateConnectLosesNewerEntry<V>(codec: Codec<V>, id: string, k: string, v: V, w: V)
    requires codec.loads(codec.dumps(w)) == w
    ensures var early := SetSpec(codec, Fresh(id, true, map[k := Row(codec.dumps(w), 1, id)]), k, v, Some(5), None);
      && early.state == map[k := Rec(v, 5, id)]
      && ConnectSpec(codec, early).state == map[k := Rec(w, 1, id)]
      && ConnectSpec(codec, early).clock == 5 && !ClockExact(ConnectSpec(codec, early))
  {
    var early := SetSpec(codec, Fresh(id, true, map[k := Row(codec.dumps(w), 1, id)]), k, v, Some(5), None);
    var late := ConnectSpec(codec, early);
    assert late.state == map[k := Rec(w, 1, id)];
    assert RowStamps(early.table) == {1} by {
      assert early.table[k].ts == 1;
    }
    TopStampBounds(late.state);
  }

  // ----- interleaving of merge steps and local sets at one replica -----

  /** What one acquisition of the lock does: a local set, or one key of some running merge. */
  datatype Op<V> = LocalSet(k: string, v: V) | MergeStep(k: string, r: Rec<V>)

  function ItemOf<V>(rep: Replica<V>, op: Op<V>): Item<V>
  {
    match op
    case LocalSet(k, v) => (k, Stamp(rep, v, None, None))
    case MergeStep(k, r) => (k, r)
  }

  function RunOps<V>(codec: Codec<V>, rep: Replica<V>, ops: seq<Op<V>>): Replica<V>
  {
    if ops == [] then rep
    else
      var before := RunOps(codec, rep, ops[..|ops| - 1]);
      var x := ItemOf(before, ops[|ops| - 1]);
      Apply(codec, before, x.0, x.1)
  }

  /** The records those steps apply, in order. */
  function ItemsOf<V>(codec: Codec<V>, rep: Replica<V>, ops: seq<Op<V>>): seq<Item<V>>
  {
    if ops == [] then []
    else
      var front := ops[..|ops| - 1];
      ItemsOf(codec, rep, front) + [ItemOf(RunOps(codec, rep, front), ops[|ops| - 1])]
  }

  /** Locking once per key is harmless: any interleaving of local sets and steps of any number
      of merges leaves the fold of the records applied, whose order does not matter. */
  lemma {:induction false} InterleavingIsFold<V>(codec: Codec<V>, rep: Replica<V>, ops: seq<Op<V>>)
    ensures RunOps(codec, rep, ops).state == PutAll(RuleOf(codec), rep.state, ItemsOf(codec, rep, ops))
  {
    if ops != [] {
      var front := ops[..|ops| - 1];
      InterleavingIsFold(codec, rep, front);
      var items := ItemsOf(codec, rep, ops);
      assert items[..|items| - 1] == ItemsOf(codec, rep, front);
    }
  }

  /** Two interleavings from one state that apply the same records end in one state: the join of
      the start with what those records leave behind. */
  lemma InterleavingsConverge<V(!new)>(codec: Codec<V>, a: Replica<V>, ops: seq<Op<V>>, b: Replica<V>, ops': seq<Op<V>>)
    requires Injective(codec.dumps)
    requires a.state == b.state
    requires SameItems(ItemsOf(codec, a, ops), ItemsOf(codec, b, ops'))
    ensures RunOps(codec, a, ops).state == RunOps(codec, b, ops').state
    ensures RunOps(codec, a, ops).state == Join(RuleOf(codec), a.state, PutAll(RuleOf(codec), map[], ItemsOf(codec, a, ops)))
  {
    InterleavingIsFold(codec, a, ops);
    InterleavingIsFold(codec, b, ops');
    FoldFromIsJoin(RuleOf(codec), a.state, ItemsOf(codec, a, ops));
    FoldFromIsJoin(RuleOf(codec), b.state, ItemsOf(codec, b, ops'));
    StrongConvergence(codec.dumps, ItemsOf(codec, a, ops), ItemsOf(codec, b, ops'));
  }

  // ----- the object -----

  class LWWMap<V> {
    const nodeId: string
    const codec: Codec<V>
    const hasDb: bool
    var state: State<V>
    var logicalClock: int
    var table: map<string, Row>
    var connected: bool

    ghost function View(): Replica<V>
      reads this
    {
      Replica(nodeId, state, logicalClock, hasDb, table, connected)
    }

    constructor (nodeId: string, codec: Codec<V>, hasDb: bool, table: map<string, Row>)
      ensures View() == Fresh(nodeId, hasDb, table)
      ensures this.codec == codec
    {
      this.nodeId, this.codec, this.hasDb := nodeId, codec, hasDb;
      this.state, this.logicalClock := map[], 0;
      this.table, this.connected := table, false;
    }

    method Connect()
      modifies this
      ensures View() == ConnectSpec(codec, old(View()))
    {
      if hasDb {
        connected := true;
        HydrateFromDb();
      }
    }

    method HydrateFromDb()
      modifies this
      ensures !old(connected) ==> View() == old(View())
      ensures old(connected) ==> View() == old(View()).(
        state := Hydrated(codec, old(state), table), clock := RowClock(old(logicalClock), table))
    {
      if !connected {
        return;
      }
      var rows := table.Keys;
      ghost var done: map<string, Row> := map[];
      while rows != {}
        invariant table == old(table) && connected == old(connected)
        invariant done.Keys == table.Keys - rows && rows <= table.Keys
        invariant forall k :: k in done ==> done[k] == table[k]
        invariant state == Hydrated(codec, old(state), done)
        invariant logicalClock == RowClock(old(logicalClock), done)
      {
        var key :| key in rows;
        var Row(text, ts, writer) := table[key];
        HydrateOneMore(codec, old(state), old(logicalClock), done, key, table[key]);
        var value := codec.loads(text);
        state := state[key := Rec(value, ts, writer)];
        logicalClock := if ts > logicalClock then ts else logicalClock;
        assert state == Hydrated(codec, old(state), done[key := table[key]]);
        assert logicalClock == RowClock(old(logicalClock), done[key := table[key]]);
        done := done[key := table[key]];
        rows := rows - {key};
      }
      assert done == table;
    }

    method PersistUnlocked(key: string, value: V, ts: int, writer: string)
      modifies this`table
      ensures table == if connected then old(table)[key := Row(codec.dumps(value), ts, writer)] else old(table)
    {
      if !connected {
        return;
      }
      table := table[key := Row(codec.dumps(value), ts, writer)];
    }

    method Set(key: string, value: V, timestamp: Option<int>, writerId: Option<string>)
      modifies this
      ensures View() == SetSpec(codec, old(View()), key, value, timestamp, writerId)
    {
      var ts, writer;
      if timestamp.None? {
        logicalClock := logicalClock + 1;
        ts, writer := logicalClock, nodeId;
      } else {
        ts := timestamp.value;
        logicalClock := if ts > logicalClock then ts else logicalClock;
        writer := if writerId.None? then nodeId else writerId.value;
      }
      var updated := false;
      if key in state {
        var existing := state[key];
        LexOrder.Irreflexive(existing.writer);
        if ts > existing.ts {
          state := state[key := Rec(value, ts, writer)];
          updated := true;
        } else if ts == existing.ts {
          if LexOrder.Less(existing.writer, writer) {
            state := state[key := Rec(value, ts, writer)];
            updated := true;
          } else if writer == existing.writer {
            if LexOrder.Less(codec.dumps(existing.value), codec.dumps(value)) {
              state := state[key := Rec(value, ts, writer)];
              updated := true;
            }
          }
        }
      } else {
        state := state[key := Rec(value, ts, writer)];
        updated := true;
      }
      ghost var r := Rec(value, ts, writer);
      assert updated <==> key !in old(state) || Beats(RuleOf(codec), r, old(state)[key]);
      assert state == Put(RuleOf(codec), old(state), key, r);
      if updated {
        PersistUnlocked(key, value, ts, writer);
      }
    }

    method Get(key: string) returns (value: Option<V>)
      ensures value == if key in state then Some(state[key].value) else None
    {
      value := if key in state then Some(state[key].value) else None;
    }

    /** Merges the entries of a serialized state, in whatever order they are listed. */
    method Merge(other: State<V>)
      modifies this
      ensures View() == MergeSpec(codec, old(View()), other)
    {
      var keys := other.Keys;
      ghost var done: State<V> := map[];
      MergeNothing(codec, View());
      while keys != {}
        invariant keys <= other.Keys && done.Keys == other.Keys - keys
        invariant forall k :: k in done ==> done[k] == other[k]
        invariant View() == MergeSpec(codec, old(View()), done)
      {
        var key :| key in keys;
        MergeOneMore(codec, old(View()), done, key, other[key]);
        Set(key, other[key].value, Some(other[key].ts), Some(other[key].writer));
        done := done[key := other[key]];
        keys := keys - {key};
      }
      assert done == other;
    }

    method SerializeState() returns (s: State<V>)
      ensures s == state
    {
      s := state;
    }

    method Close()
      modifies this`connected
      ensures !connected
    {
      connected := false;
    }
  }
}
