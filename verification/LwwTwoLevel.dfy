/** The Go LWW-Map (the Rust one has the same guards) and the Java chooser. */
module LwwTwoLevel {
  import opened LwwRecords
  import LexOrder

  class LWWMap<V> {
    var entries: State<V>

    constructor ()
      ensures entries == map[]
    {
      entries := map[];
    }

    method Set(key: string, value: V, timestampMs: int, writerId: string)
      modifies this
      ensures entries == Put(TwoLevel, old(entries), key, Rec(value, timestampMs, writerId))
    {
      if key in entries {
        var existing := entries[key];
        LexOrder.Total(existing.writer, writerId);
        LexOrder.Irreflexive(writerId);
        if existing.ts > timestampMs {
          return;
        }
        if existing.ts == timestampMs && !LexOrder.Less(existing.writer, writerId) {
          return;
        }
      }
      entries := entries[key := Rec(value, timestampMs, writerId)];
    }

    /** Snapshot first, then apply: also right when a map is merged into itself. */
    method Merge(other: LWWMap<V>)
      modifies this
      ensures entries == Join(TwoLevel, old(entries), old(other.entries))
    {
      var snapshot := other.entries;
      var keys := snapshot.Keys;
      ghost var done: State<V> := map[];
      assert Join(TwoLevel, entries, done).Keys == entries.Keys;
      while keys != {}
        invariant keys <= snapshot.Keys && done.Keys == snapshot.Keys - keys
        invariant forall k :: k in done ==> done[k] == snapshot[k]
        invariant entries == Join(TwoLevel, old(entries), done)
      {
        var k :| k in keys;
        PutIntoJoin(TwoLevel, old(entries), done, k, snapshot[k]);
        Set(k, snapshot[k].value, snapshot[k].ts, snapshot[k].writer);
        done := done[k := snapshot[k]];
        keys := keys - {k};
      }
      assert done == snapshot;
    }
  }

  /** The Java remapping function given to `ConcurrentHashMap.merge`. */
  function Choose<V>(existing: Rec<V>, incoming: Rec<V>): Rec<V>
  {
    if incoming.ts > existing.ts then incoming
    else if incoming.ts == existing.ts && LexOrder.Less(existing.writer, incoming.writer) then incoming
    else existing
  }

  lemma JavaChoosesAsGoDoes<V>(s: State<V>, k: string, incoming: Rec<V>)
    ensures Put(TwoLevel, s, k, incoming) == s[k := if k in s then Choose(s[k], incoming) else incoming]
  {
  }
}
