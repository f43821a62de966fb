/** The reassembler object: four tables kept in step, refining the one-table book. */
module ReassemblerObject {
  import opened Wrappers
  import opened Chunker
  import opened Reassembler

  type Chunk = (int, Bytes)

  /** The chunk list of one transfer as a map from index to bytes. */
  function GotOf(cs: seq<Chunk>): map<int, Bytes>
  {
    if cs == [] then map[] else GotOf(cs[..|cs| - 1])[cs[|cs| - 1].0 := cs[|cs| - 1].1]
  }

  predicate DistinctIndices(cs: seq<Chunk>)
  {
    forall i, j :: 0 <= i < j < |cs| ==> cs[i].0 != cs[j].0
  }

  lemma {:induction false} GotOfMembers(cs: seq<Chunk>)
    requires DistinctIndices(cs)
    ensures forall c :: c in cs <==> c.0 in GotOf(cs) && GotOf(cs)[c.0] == c.1
  {
    if cs != [] {
      var front, last := cs[..|cs| - 1], cs[|cs| - 1];
      GotOfMembers(front);
      assert cs == front + [last];
      forall c | c in front ensures c.0 != last.0 {
        var i :| 0 <= i < |front| && front[i] == c;
        assert cs[i].0 != cs[|cs| - 1].0;
      }
    }
  }

  // ----- sorted(chunks, key=index) and the join -----

  function InsertChunk(c: Chunk, cs: seq<Chunk>): seq<Chunk>
  {
    if cs != [] && cs[0].0 < c.0 then [cs[0]] + InsertChunk(c, cs[1..]) else [c] + cs
  }

  function SortChunks(cs: seq<Chunk>): seq<Chunk>
  {
    if cs == [] then [] else InsertChunk(cs[0], SortChunks(cs[1..]))
  }

  predicate Ascending(cs: seq<Chunk>)
  {
    forall i, j :: 0 <= i < j < |cs| ==> cs[i].0 < cs[j].0
  }

  lemma {:induction false} InsertKeepsAscending(c: Chunk, cs: seq<Chunk>)
    requires Ascending(cs) && forall i :: 0 <= i < |cs| ==> cs[i].0 != c.0
    ensures Ascending(InsertChunk(c, cs))
    ensures forall x :: x in InsertChunk(c, cs) <==> x == c || x in cs
  {
    if cs != [] && cs[0].0 < c.0 {
      InsertKeepsAscending(c, cs[1..]);
      var tail := InsertChunk(c, cs[1..]);
      forall x | x in tail ensures cs[0].0 < x.0 {
        if x != c {
          var i :| 0 <= i < |cs[1..]| && cs[1..][i] == x;
          assert cs[i + 1] == x;
        }
      }
      assert cs == [cs[0]] + cs[1..];
    }
  }

  lemma {:induction false} SortAscends(cs: seq<Chunk>)
    requires DistinctIndices(cs)
    ensures Ascending(SortChunks(cs))
    ensures forall x :: x in SortChunks(cs) <==> x in cs
  {
    if cs != [] {
      var tail := SortChunks(cs[1..]);
      SortAscends(cs[1..]);
      forall i | 0 <= i < |tail| ensures tail[i].0 != cs[0].0 {
        assert tail[i] in cs[1..];
      }
      InsertKeepsAscending(cs[0], tail);
      assert cs == [cs[0]] + cs[1..];
    }
  }

  function JoinChunks(cs: seq<Chunk>): Bytes
  {
    if cs == [] then [] else JoinChunks(cs[..|cs| - 1]) + cs[|cs| - 1].1
  }

  /** `cs` lists exactly the chunks 0..n-1 of `got`. */
  ghost predicate ListsFirst(cs: seq<Chunk>, got: map<int, Bytes>, n: nat)
  {
    && (forall i :: 0 <= i < n ==> i in got)
    && (forall c: Chunk :: c in cs <==> 0 <= c.0 < n && c.1 == got[c.0])
  }

  lemma LastIsLargest(cs: seq<Chunk>, got: map<int, Bytes>, n: nat)
    requires Ascending(cs) && n > 0 && ListsFirst(cs, got, n)
    ensures cs != [] && cs[|cs| - 1] == (n - 1, got[n - 1])
    ensures ListsFirst(cs[..|cs| - 1], got, n - 1)
  {
    var c := (n - 1, got[n - 1]);
    assert c in cs;
    var front, last := cs[..|cs| - 1], cs[|cs| - 1];
    assert last in cs;
    var j :| 0 <= j < |cs| && cs[j] == c;
    assert j == |cs| - 1;
    forall x: Chunk ensures x in front <==> 0 <= x.0 < n - 1 && x.1 == got[x.0] {
      assert cs == front + [last];
      if x in front {
        var i :| 0 <= i < |front| && front[i] == x;
        assert cs[i].0 < last.0;
      }
      if 0 <= x.0 < n - 1 && x.1 == got[x.0] {
        assert x in cs && x != last;
      }
    }
  }

  /** An ascending list of those chunks joins to their index-ordered bytes. */
  lemma {:induction false} AscendingJoins(cs: seq<Chunk>, got: map<int, Bytes>, n: nat)
    requires Ascending(cs) && ListsFirst(cs, got, n)
    ensures JoinChunks(cs) == InOrder(got, n)
  {
    assert cs != [] ==> cs[0] in cs;
    if n > 0 {
      LastIsLargest(cs, got, n);
      AscendingJoins(cs[..|cs| - 1], got, n - 1);
    }
  }

  lemma SortedJoinIsInOrder(cs: seq<Chunk>, n: nat)
    requires DistinctIndices(cs) && GotOf(cs).Keys == Range(n)
    ensures JoinChunks(SortChunks(cs)) == InOrder(GotOf(cs), n)
  {
    GotOfMembers(cs);
    SortAscends(cs);
    var got := GotOf(cs);
    assert ListsFirst(SortChunks(cs), got, n) by {
      assert forall i :: i in got <==> i in got.Keys;
      forall c: Chunk ensures c in SortChunks(cs) <==> 0 <= c.0 < n && c.1 == got[c.0] {
        assert c in cs <==> c.0 in got && got[c.0] == c.1;
      }
    }
    AscendingJoins(SortChunks(cs), got, n);
  }

  // ----- the four tables as one value -----

  datatype Tables = Tables(
    chunks: map<TransferId, seq<Chunk>>,
    received: map<TransferId, set<int>>,
    totals: map<TransferId, int>,
    stamps: map<TransferId, real>)

  /** The list and the index set of one transfer agree. */
  predicate EntryOk(cs: seq<Chunk>, indices: set<int>)
  {
    DistinctIndices(cs) && GotOf(cs).Keys == indices
  }

  /** The four tables cover the same transfers and agree on the indices received. */
  predicate InStep(t: Tables)
  {
    && t.chunks.Keys == t.received.Keys == t.totals.Keys == t.stamps.Keys
    && forall id :: id in t.chunks ==> EntryOk(t.chunks[id], t.received[id])
  }

  /** The specification's book, which has no use for the stored totals. */
  function BookOf(t: Tables): Book
    requires t.chunks.Keys == t.stamps.Keys
  {
    map id | id in t.stamps :: Transfer(GotOf(t.chunks[id]), t.stamps[id])
  }

  function Without(t: Tables, ids: set<TransferId>): Tables
  {
    Tables(t.chunks - ids, t.received - ids, t.totals - ids, t.stamps - ids)
  }

  function StaleIds(t: Tables, now: real, timeout: real): set<TransferId>
  {
    set id | id in t.stamps && now - t.stamps[id] > timeout
  }

  lemma DroppingIds(t: Tables, ids: set<TransferId>)
    requires InStep(t)
    ensures InStep(Without(t, ids)) && BookOf(Without(t, ids)) == BookOf(t) - ids
  {
  }

  lemma PurgingTables(t: Tables, now: real, timeout: real)
    requires InStep(t)
    ensures InStep(Without(t, StaleIds(t, now, timeout)))
    ensures BookOf(Without(t, StaleIds(t, now, timeout))) == Purge(BookOf(t), now, timeout)
  {
    DroppingIds(t, StaleIds(t, now, timeout));
  }

  function ListOf(t: Tables, id: TransferId): seq<Chunk>
  {
    if id in t.chunks then t.chunks[id] else []
  }

  function IndicesOf(t: Tables, id: TransferId): set<int>
  {
    if id in t.received then t.received[id] else {}
  }

  /** The tables after a chunk not seen before was filed. */
  function Filed(t: Tables, id: TransferId, index: int, total: int, bytes: Bytes, stamp: real): Tables
  {
    Tables(t.chunks[id := ListOf(t, id) + [(index, bytes)]],
           t.received[id := IndicesOf(t, id) + {index}],
           if id in t.stamps then t.totals else t.totals[id := total],
           if id in t.stamps then t.stamps else t.stamps[id := stamp])
  }

  lemma AddingToList(cs: seq<Chunk>, indices: set<int>, index: int, bytes: Bytes)
    requires EntryOk(cs, indices) && index !in indices
    ensures EntryOk(cs + [(index, bytes)], indices + {index})
    ensures GotOf(cs + [(index, bytes)]) == GotOf(cs)[index := bytes]
  {
    var more := cs + [(index, bytes)];
    assert more[..|more| - 1] == cs;
    GotOfMembers(cs);
    forall i | 0 <= i < |cs| ensures cs[i].0 != index {
      assert cs[i] in cs;
      assert cs[i].0 in GotOf(cs).Keys;
    }
  }

  lemma ReplacingEntry(t: Tables, id: TransferId, cs: seq<Chunk>, indices: set<int>, total: int, stamp: real)
    requires InStep(t) && EntryOk(cs, indices)
    ensures var u := Tables(t.chunks[id := cs], t.received[id := indices], t.totals[id := total], t.stamps[id := stamp]);
      InStep(u) && BookOf(u) == BookOf(t)[id := Transfer(GotOf(cs), stamp)]
  {
    var u := Tables(t.chunks[id := cs], t.received[id := indices], t.totals[id := total], t.stamps[id := stamp]);
    forall j | j in u.chunks ensures EntryOk(u.chunks[j], u.received[j]) {
      if j != id {
        assert EntryOk(t.chunks[j], t.received[j]);
      }
    }
  }

  lemma FilingChunk(t: Tables, id: TransferId, index: int, total: int, bytes: Bytes, stamp: real)
    requires InStep(t) && index !in IndicesOf(t, id)
    ensures var u, b := Filed(t, id, index, total, bytes, stamp), BookOf(t);
      var was := if id in b then b[id] else Transfer(map[], stamp);
      && InStep(u) && id in u.chunks
      && EntryOk(u.chunks[id], u.received[id])
      && BookOf(u) == b[id := was.(got := was.got[index := bytes])]
      && GotOf(u.chunks[id]) == was.got[index := bytes]
  {
    assert id in t.chunks ==> EntryOk(t.chunks[id], t.received[id]);
    AddingToList(ListOf(t, id), IndicesOf(t, id), index, bytes);
    var u := Filed(t, id, index, total, bytes, stamp);
    ReplacingEntry(t, id, u.chunks[id], u.received[id], u.totals[id], u.stamps[id]);
    assert t.totals[id := u.totals[id]] == u.totals && t.stamps[id := u.stamps[id]] == u.stamps;
  }

  lemma RemovingReplaced(b: Book, id: TransferId, t: Transfer)
    ensures b[id := t] - {id} == b - {id}
  {
  }

  lemma NotYetInBook(t: Tables, id: TransferId, index: int)
    requires InStep(t) && index !in IndicesOf(t, id)
    ensures id in BookOf(t) ==> index !in BookOf(t)[id].got
  {
    if id in t.chunks {
      assert EntryOk(t.chunks[id], t.received[id]);
      assert index !in GotOf(t.chunks[id]).Keys;
    }
  }

  /** Filing a chunk that completes its transfer, then reassembling, refines `Accept`. */
  lemma CompletingRefinesAccept(t: Tables, id: TransferId, index: int, total: int, bytes: Bytes, stamp: real)
    requires InStep(t) && 0 <= index < total && index !in IndicesOf(t, id)
    requires Filed(t, id, index, total, bytes, stamp).received[id] == Range(total)
    ensures var u := Filed(t, id, index, total, bytes, stamp);
      && InStep(Without(u, {id}))
      && (BookOf(Without(u, {id})), Complete(JoinChunks(SortChunks(u.chunks[id])))) == Accept(BookOf(t), id, index, total, bytes, stamp)
  {
    FilingChunk(t, id, index, total, bytes, stamp);
    NotYetInBook(t, id, index);
    var u, b := Filed(t, id, index, total, bytes, stamp), BookOf(t);
    SortedJoinIsInOrder(u.chunks[id], total);
    DroppingIds(u, {id});
    RemovingReplaced(b, id, BookOf(u)[id]);
  }

  /** Filing any other chunk refines it too. */
  lemma WaitingRefinesAccept(t: Tables, id: TransferId, index: int, total: int, bytes: Bytes, stamp: real)
    requires InStep(t) && 0 <= index < total && index !in IndicesOf(t, id)
    requires Filed(t, id, index, total, bytes, stamp).received[id] != Range(total)
    ensures var u := Filed(t, id, index, total, bytes, stamp);
      InStep(u) && (BookOf(u), Nothing) == Accept(BookOf(t), id, index, total, bytes, stamp)
  {
    FilingChunk(t, id, index, total, bytes, stamp);
    NotYetInBook(t, id, index);
  }

  // ----- the object -----

  // ----- the stored total -----

  /** What a call returns for a chunk of `id` that carries total n. */
  function OutcomeWith(t: Tables, id: TransferId, index: int, n: int, bytes: Bytes, now: real, stamp: real, timeout: real): Outcome
    requires InStep(t)
  {
    Reassembler.Ingest(BookOf(t), Delivery(Envelope(Some(ChunkInfo(index, n, id)), Data(bytes)), now, stamp), timeout).1
  }

  /** The comparison uses the envelope's total n, never the stored total T.  For a usable chunk of an
      open, unexpired transfer the two decide alike exactly when they are equal, or the index was
      received before, or the indices then received are complete by neither. */
  lemma StoredTotalDecidesAlikeIff(t: Tables, id: TransferId, index: int, n: int, bytes: Bytes, now: real, stamp: real, timeout: real)
    requires InStep(t) && id in t.totals && now - t.stamps[id] <= timeout && 0 <= index < n
    ensures var T, received := t.totals[id], t.received[id] + {index};
      OutcomeWith(t, id, index, n, bytes, now, stamp, timeout) == OutcomeWith(t, id, index, T, bytes, now, stamp, timeout)
      <==> n == T || index in t.received[id] || (received != Range(n) && received != Range(T))
  {
    var T, received := t.totals[id], t.received[id] + {index};
    assert EntryOk(t.chunks[id], t.received[id]);
    ClosedForm(t, id, index, n, bytes, now, stamp, timeout);
    ClosedForm(t, id, index, T, bytes, now, stamp, timeout);
    if received == Range(n) && received == Range(T) {
      SameRangeSameTotal(n, T);
    }
  }

  lemma ClosedForm(t: Tables, id: TransferId, index: int, n: int, bytes: Bytes, now: real, stamp: real, timeout: real)
    requires InStep(t) && id in t.totals && now - t.stamps[id] <= timeout && 0 <= index
    ensures OutcomeWith(t, id, index, n, bytes, now, stamp, timeout).Complete?
       <==> index !in t.received[id] && t.received[id] + {index} == Range(n)
    ensures !OutcomeWith(t, id, index, n, bytes, now, stamp, timeout).Complete? ==>
      OutcomeWith(t, id, index, n, bytes, now, stamp, timeout) == Nothing
  {
    assert EntryOk(t.chunks[id], t.received[id]);
    assert BookOf(t)[id].got.Keys == t.received[id];
    assert BookOf(t)[id].got[index := bytes].Keys == t.received[id] + {index};
    assert index in t.received[id] + {index};
  }

  lemma SameRangeSameTotal(n: int, m: int)
    requires n > 0 && Range(n) == Range(m)
    ensures n == m
  {
    assert n - 1 in Range(m);
    assert m - 1 in Range(n);
  }

  /** They can differ: after chunk 0 of 3, chunk 1 "of 2" returns two chunks, where the stored total
      would still wait for the third. */
  lemma ConflictingTotalReturnsEarly(id: TransferId, x: Bytes, y: Bytes, timeout: real)
    requires timeout >= 0.0
    ensures var first := Delivery(Envelope(Some(ChunkInfo(0, 3, id)), Data(x)), 0.0, 0.0);
      var second := Delivery(Envelope(Some(ChunkInfo(1, 2, id)), Data(y)), 0.0, 0.0);
      var b := Reassembler.Ingest(map[], first, timeout).0;
      Reassembler.Ingest(b, second, timeout).1 == Complete(x + y)
  {
    var got: map<int, Bytes> := map[0 := x];
    assert 1 in Range(3) && 1 !in got.Keys;
    var both := got[1 := y];
    assert both.Keys == Range(2);
    assert InOrder(both, 1) == InOrder(both, 0) + x == x;
    assert InOrder(both, 2) == x + y;
    var first := Delivery(Envelope(Some(ChunkInfo(0, 3, id)), Data(x)), 0.0, 0.0);
    var b := Reassembler.Ingest(map[], first, timeout).0;
    assert b == map[id := Transfer(got, 0.0)];
    assert Purge(b, 0.0, timeout) == b;
  }

  class ChunkReassembler {
    const timeout: real
    var chunks: map<TransferId, seq<Chunk>>
    var received: map<TransferId, set<int>>
    var totals: map<TransferId, int>
    var stamps: map<TransferId, real>

    ghost function View(): Tables
      reads this
    {
      Tables(chunks, received, totals, stamps)
    }

    ghost predicate Valid()
      reads this
    {
      InStep(View())
    }

    constructor (timeout: real)
      ensures Valid() && BookOf(View()) == map[] && this.timeout == timeout
    {
      this.timeout := timeout;
      chunks, received, totals, stamps := map[], map[], map[], map[];
    }

    method PurgeStale(now: real)
      modifies this
      ensures View() == Without(old(View()), StaleIds(old(View()), now, timeout))
    {
      var stale := set id | id in stamps && now - stamps[id] > timeout;
      ghost var gone: set<TransferId> := {};
      while stale != {}
        invariant gone + stale == StaleIds(old(View()), now, timeout)
        invariant View() == Without(old(View()), gone)
      {
        var id :| id in stale;
        chunks, received := chunks - {id}, received - {id};
        totals, stamps := totals - {id}, stamps - {id};
        DroppingOneMore(old(View()), gone, id);
        gone := gone + {id};
        stale := stale - {id};
      }
    }

    method Reassemble(id: TransferId) returns (bytes: Bytes)
      requires id in chunks
      modifies this
      ensures View() == Without(old(View()), {id})
      ensures bytes == JoinChunks(SortChunks(old(chunks)[id]))
    {
      var sorted := SortChunks(chunks[id]);
      chunks, received := chunks - {id}, received - {id};
      totals, stamps := totals - {id}, stamps - {id};
      bytes := [];
      for i := 0 to |sorted|
        invariant bytes == JoinChunks(sorted[..i])
      {
        assert sorted[..i + 1][..i] == sorted[..i];
        bytes := bytes + sorted[i].1;
      }
      assert sorted[..|sorted|] == sorted;
    }

    method Ingest(envelope: Envelope, now: real, stamp: real) returns (out: Outcome)
      requires Valid()
      modifies this
      ensures Valid()
      ensures (BookOf(View()), out) == Reassembler.Ingest(old(BookOf(View())), Delivery(envelope, now, stamp), timeout)
      ensures forall id :: id in totals && id in old(totals) && (envelope.info.Some? ==> now - old(stamps)[id] <= timeout) ==>
        totals[id] == old(totals)[id]
      ensures forall id :: id in totals && (id !in old(totals) || (envelope.info.Some? && now - old(stamps)[id] > timeout)) ==>
        envelope.info.Some? && totals[id] == envelope.info.value.total
    {
      if envelope.info.None? {
        return Nothing;
      }
      PurgingTables(View(), now, timeout);
      PurgeStale(now);
      var ChunkInfo(index, total, id) := envelope.info.value;
      if envelope.payload.NoData? {
        return Nothing;
      }
      if envelope.payload.BadBase64? {
        return DecodeError;
      }
      if index < 0 || index >= total {
        return Nothing;
      }
      assert id in chunks ==> EntryOk(chunks[id], received[id]);
      if id in received && index in received[id] {
        assert index in GotOf(chunks[id]).Keys;
        return Nothing;
      }
      out := File(id, index, total, envelope.payload.bytes, stamp);
    }

    /** The second half of `ingest`: file a new chunk and reassemble when none is missing. */
    method File(id: TransferId, index: int, total: int, bytes: Bytes, stamp: real) returns (out: Outcome)
      requires Valid() && 0 <= index < total && index !in IndicesOf(View(), id)
      modifies this
      ensures Valid()
      ensures (BookOf(View()), out) == Accept(old(BookOf(View())), id, index, total, bytes, stamp)
      ensures forall j :: j in totals ==> totals[j] == if j in old(totals) then old(totals)[j] else total
    {
      if id !in stamps {
        totals := totals[id := total];
        stamps := stamps[id := stamp];
      }
      received := received[id := (if id in received then received[id] else {}) + {index}];
      chunks := chunks[id := (if id in chunks then chunks[id] else []) + [(index, bytes)]];
      assert View() == Filed(old(View()), id, index, total, bytes, stamp);
      if received[id] == Range(total) {
        CompletingRefinesAccept(old(View()), id, index, total, bytes, stamp);
        var whole := Reassemble(id);
        return Complete(whole);
      }
      WaitingRefinesAccept(old(View()), id, index, total, bytes, stamp);
      return Nothing;
    }
  }

  lemma DroppingOneMore(t: Tables, gone: set<TransferId>, id: TransferId)
    ensures Without(Without(t, gone), {id}) == Without(t, gone + {id})
  {
  }
}
