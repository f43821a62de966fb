/** Putting chunk envelopes back together: a one-table specification and its whole-stream theorems. */
module Reassembler {
  import opened Chunker

  // ----- specification: one entry per open transfer -----

  /** First-received bytes per index, and the time the transfer was opened. */
  datatype Transfer = Transfer(got: map<int, Bytes>, since: real)

  type Book = map<TransferId, Transfer>

  datatype Outcome = Nothing | Complete(bytes: Bytes) | DecodeError

  /** One `ingest` call with its two clock readings: at the purge, and when a new transfer
      is stamped. */
  datatype Delivery = Delivery(envelope: Envelope, now: real, stamp: real)

  function Purge(b: Book, now: real, timeout: real): Book
  {
    map id | id in b && !(now - b[id].since > timeout) :: b[id]
  }

  function Range(n: int): (r: set<int>)
    ensures forall i :: i in r <==> 0 <= i < n
  {
    if n <= 0 then {} else Range(n - 1) + {n - 1}
  }

  function InOrder(got: map<int, Bytes>, n: nat): Bytes
    requires forall i :: 0 <= i < n ==> i in got
  {
    if n == 0 then [] else InOrder(got, n - 1) + got[n - 1]
  }

  function Accept(p: Book, id: TransferId, i: int, total: int, bytes: Bytes, stamp: real): (Book, Outcome)
    requires 0 <= i < total
  {
    if id in p && i in p[id].got then (p, Nothing)
    else
      var t := if id in p then p[id] else Transfer(map[], stamp);
      var got := t.got[i := bytes];
      if got.Keys == Range(total)
      then (p - {id}, Complete(InOrder(got, total)))
      else (p[id := t.(got := got)], Nothing)
  }

  function Ingest(b: Book, d: Delivery, timeout: real): (Book, Outcome)
  {
    if d.envelope.info.None? then (b, Nothing)
    else
      var ChunkInfo(i, total, id) := d.envelope.info.value;
      var p := Purge(b, d.now, timeout);
      match d.envelope.payload
      case NoData => (p, Nothing)
      case BadBase64 => (p, DecodeError)
      case Data(bytes) => if 0 <= i < total then Accept(p, id, i, total, bytes, d.stamp) else (p, Nothing)
  }

  /** The book after a whole stream of deliveries. */
  function BookAfter(ds: seq<Delivery>, timeout: real): Book
  {
    if ds == [] then map[]
    else Ingest(BookAfter(ds[..|ds| - 1], timeout), ds[|ds| - 1], timeout).0
  }

  /** What the p-th call returns. */
  function OutcomeAt(ds: seq<Delivery>, p: nat, timeout: real): Outcome
    requires p < |ds|
  {
    Ingest(BookAfter(ds[..p], timeout), ds[p], timeout).1
  }

  // ----- soundness on arbitrary streams -----

  predicate IsFor(d: Delivery, id: TransferId)
  {
    d.envelope.info.Some? && d.envelope.info.value.transfer == id
  }

  /** A usable chunk of transfer `id`: in range by its own total, with decodable data. */
  predicate Counts(d: Delivery, id: TransferId)
  {
    IsFor(d, id) && d.envelope.payload.Data? && 0 <= d.envelope.info.value.index < d.envelope.info.value.total
  }

  function Index(d: Delivery): int
    requires d.envelope.info.Some?
  {
    d.envelope.info.value.index
  }

  /** Per index, the bytes of the first usable chunk of `id` in `ds`. */
  function FirstIn(ds: seq<Delivery>, id: TransferId): map<int, Bytes>
  {
    if ds == [] then map[]
    else
      var front, last := FirstIn(ds[..|ds| - 1], id), ds[|ds| - 1];
      if Counts(last, id) && Index(last) !in front then front[Index(last) := last.envelope.payload.bytes] else front
  }

  lemma {:induction false} FirstInIsFirst(ds: seq<Delivery>, id: TransferId, q: nat)
    requires q < |ds| && Counts(ds[q], id)
    requires forall r :: 0 <= r < q && Counts(ds[r], id) ==> Index(ds[r]) != Index(ds[q])
    ensures Index(ds[q]) in FirstIn(ds, id) && FirstIn(ds, id)[Index(ds[q])] == ds[q].envelope.payload.bytes
  {
    var front := ds[..|ds| - 1];
    if q < |front| {
      FirstInIsFirst(front, id, q);
    } else {
      FirstInOnlyArrived(front, id);
    }
  }

  lemma {:induction false} FirstInOnlyArrived(ds: seq<Delivery>, id: TransferId)
    ensures forall i :: i in FirstIn(ds, id) ==> exists q :: 0 <= q < |ds| && Counts(ds[q], id) && Index(ds[q]) == i
  {
    if ds != [] {
      var front := ds[..|ds| - 1];
      FirstInOnlyArrived(front, id);
      forall i | i in FirstIn(ds, id) ensures exists q :: 0 <= q < |ds| && Counts(ds[q], id) && Index(ds[q]) == i {
        if i in FirstIn(front, id) {
          var q :| 0 <= q < |front| && Counts(front[q], id) && Index(front[q]) == i;
          assert Counts(ds[q], id) && Index(ds[q]) == i;
        } else {
          assert Counts(ds[|ds| - 1], id);
        }
      }
    }
  }

  /** Call `s` opened a new transfer `id`: the id was not in the book, or had just expired. */
  predicate Opens(ds: seq<Delivery>, s: nat, id: TransferId, timeout: real)
  {
    s < |ds| && Counts(ds[s], id) && id !in Purge(BookAfter(ds[..s], timeout), ds[s].now, timeout)
  }

  /** An open transfer holds exactly the first-received chunks since it was opened. */
  lemma OnlyChunk(d: Delivery, id: TransferId)
    requires Counts(d, id)
    ensures FirstIn([d], id) == map[Index(d) := d.envelope.payload.bytes]
  {
    assert [d][..0] == [];
  }

  lemma FirstInOneMore(ds: seq<Delivery>, s: nat, id: TransferId)
    requires s < |ds|
    ensures var front, last := FirstIn(ds[..|ds| - 1][s..], id), ds[|ds| - 1];
      FirstIn(ds[s..], id) ==
        if Counts(last, id) && Index(last) !in front then front[Index(last) := last.envelope.payload.bytes] else front
  {
    assert ds[s..][..|ds[s..]| - 1] == ds[..|ds| - 1][s..];
  }

  lemma {:induction false} OpenTransferHoldsFirstChunks(ds: seq<Delivery>, id: TransferId, timeout: real) returns (s: nat)
    requires id in BookAfter(ds, timeout)
    ensures Opens(ds, s, id, timeout)
    ensures BookAfter(ds, timeout)[id].got == FirstIn(ds[s..], id)
  {
    var front, last := ds[..|ds| - 1], ds[|ds| - 1];
    var b := BookAfter(front, timeout);
    if id in b && (last.envelope.info.Some? ==> id in Purge(b, last.now, timeout)) {
      s := OpenTransferHoldsFirstChunks(front, id, timeout);
      FirstInOneMore(ds, s, id);
      assert front[..s] == ds[..s];
    } else {
      s := |ds| - 1;
      assert ds[s..] == [last];
      OnlyChunk(last, id);
    }
  }

  /** Whenever bytes come back they are the index-ordered concatenation of the first-received
      chunk for each of 0..n-1, n being the total the completing envelope carries. */
  lemma CompletionIsSound(ds: seq<Delivery>, timeout: real) returns (s: nat)
    requires ds != [] && OutcomeAt(ds, |ds| - 1, timeout).Complete?
    ensures var last := ds[|ds| - 1];
      && last.envelope.info.Some?
      && var ChunkInfo(_, n, id) := last.envelope.info.value;
      && Opens(ds, s, id, timeout)
      && FirstIn(ds[s..], id).Keys == Range(n)
      && n > 0 && OutcomeAt(ds, |ds| - 1, timeout) == Complete(InOrder(FirstIn(ds[s..], id), n))
  {
    var front, last := ds[..|ds| - 1], ds[|ds| - 1];
    var ChunkInfo(i, n, id) := last.envelope.info.value;
    var p := Purge(BookAfter(front, timeout), last.now, timeout);
    if id in p {
      s := OpenTransferHoldsFirstChunks(front, id, timeout);
      assert ds[s..][..|ds[s..]| - 1] == front[s..];
      assert front[..s] == ds[..s];
    } else {
      s := |ds| - 1;
      assert ds[s..] == [last];
      assert [last][..0] == [];
    }
  }

  /** A call for one transfer leaves every other unexpired transfer as it was. */
  lemma OtherTransfersUntouched(b: Book, d: Delivery, timeout: real, id: TransferId)
    requires !IsFor(d, id)
    ensures var b' := Ingest(b, d, timeout).0;
      id in b' <==> id in b && (d.envelope.info.Some? ==> d.now - b[id].since <= timeout)
    ensures id in Ingest(b, d, timeout).0 ==> Ingest(b, d, timeout).0[id] == b[id]
  {
  }

  /** An envelope that is not a usable chunk of `id` - for another transfer, without chunk info, without
      data, undecodable, or with an index out of range - does nothing to `id` but let it expire, if it
      carries chunk info at all. */
  lemma UncountedLeavesTransfer(b: Book, d: Delivery, timeout: real, id: TransferId)
    requires !Counts(d, id)
    ensures var b' := Ingest(b, d, timeout).0;
      && (id in b' <==> id in b && (d.envelope.info.Some? ==> d.now - b[id].since <= timeout))
      && (id in b' ==> b'[id] == b[id])
  {
    if !IsFor(d, id) {
      OtherTransfersUntouched(b, d, timeout, id);
    }
  }

  /** And what such an envelope for `id` returns: an error for undecodable data, else nothing. */
  lemma UnusableOutcome(b: Book, d: Delivery, timeout: real, id: TransferId)
    requires IsFor(d, id) && !Counts(d, id)
    ensures Ingest(b, d, timeout).1 == if d.envelope.payload.BadBase64? then DecodeError else Nothing
  {
  }

  // ----- every genuine transfer comes back whole, and what duplicates do -----

  /** Every usable delivery for `id` is one of the sender's envelopes, in any order and number; unusable
      ones - no data, bad base64, an index out of range - may come in between. */
  predicate Genuine(ds: seq<Delivery>, id: TransferId, parts: seq<Bytes>)
  {
    forall q :: 0 <= q < |ds| && Counts(ds[q], id) ==>
      0 <= Index(ds[q]) < |parts| && ds[q].envelope == ChunkEnvelope(id, parts, Index(ds[q]))
  }

  /** The current round of a transfer: the indices received since it last completed or expired, and
      when the first of them was stamped. */
  datatype Round = Round(seen: set<int>, since: real)

  const IDLE := Round({}, 0.0)

  function Expired(r: Round, d: Delivery, timeout: real): Round
  {
    if d.envelope.info.Some? && d.now - r.since > timeout then IDLE else r
  }

  function NextRound(r: Round, d: Delivery, id: TransferId, n: int, timeout: real): Round
  {
    var r' := Expired(r, d, timeout);
    if !Counts(d, id) then r'
    else if r'.seen + {Index(d)} == Range(n) then IDLE
    else Round(r'.seen + {Index(d)}, if r'.seen == {} then d.stamp else r'.since)
  }

  function RoundAfter(ds: seq<Delivery>, id: TransferId, n: int, timeout: real): Round
  {
    if ds == [] then IDLE else NextRound(RoundAfter(ds[..|ds| - 1], id, n, timeout), ds[|ds| - 1], id, n, timeout)
  }

  function Gathered(parts: seq<Bytes>, indices: set<int>): map<int, Bytes>
  {
    map i | i in indices && 0 <= i < |parts| :: parts[i]
  }

  /** The book's entry for `id` is the round: absent when it is empty. */
  predicate Holds(b: Book, id: TransferId, parts: seq<Bytes>, r: Round)
  {
    && r.seen <= Range(|parts|) && (|parts| > 0 ==> r.seen != Range(|parts|))
    && (id in b <==> r.seen != {})
    && (id in b ==> b[id] == Transfer(Gathered(parts, r.seen), r.since))
  }

  lemma PurgeExpires(b: Book, d: Delivery, id: TransferId, parts: seq<Bytes>, r: Round, timeout: real)
    requires Holds(b, id, parts, r) && |parts| > 0 && d.envelope.info.Some?
    ensures Holds(Purge(b, d.now, timeout), id, parts, Expired(r, d, timeout))
  {
    assert 0 in Range(|parts|);
  }

  lemma IngestPurges(b: Book, d: Delivery, timeout: real)
    requires d.envelope.info.Some?
    ensures Ingest(b, d, timeout) == Ingest(Purge(b, d.now, timeout), d, timeout)
  {
    var p := Purge(b, d.now, timeout);
    assert Purge(p, d.now, timeout) == p;
  }

  lemma GatheredKeys(parts: seq<Bytes>, indices: set<int>)
    requires indices <= Range(|parts|)
    ensures Gathered(parts, indices).Keys == indices
  {
    forall i | i in indices ensures i in Gathered(parts, indices) {
      assert i in Range(|parts|);
    }
  }

  lemma GatherOneMore(parts: seq<Bytes>, indices: set<int>, i: int)
    requires indices <= Range(|parts|) && 0 <= i < |parts|
    ensures Gathered(parts, indices)[i := parts[i]] == Gathered(parts, indices + {i})
    ensures Gathered(parts, indices).Keys == indices && Gathered(parts, indices + {i}).Keys == indices + {i}
  {
    GatheredKeys(parts, indices);
    GatheredKeys(parts, indices + {i});
  }

  /** One genuine chunk within the timeout: completes the round or adds its index. */
  lemma GenuineChunkStep(b: Book, d: Delivery, id: TransferId, parts: seq<Bytes>, r: Round, timeout: real)
    requires Holds(b, id, parts, r) && (r.seen != {} ==> d.now - r.since <= timeout)
    requires Counts(d, id) && 0 <= Index(d) < |parts| && d.envelope == ChunkEnvelope(id, parts, Index(d))
    ensures var (b', out) := Ingest(b, d, timeout);
      if r.seen + {Index(d)} == Range(|parts|)
      then out == Complete(InOrder(Gathered(parts, Range(|parts|)), |parts|)) && id !in b'
      else out == Nothing && Holds(b', id, parts, Round(r.seen + {Index(d)}, if r.seen != {} then r.since else d.stamp))
  {
    var i := Index(d);
    GatherOneMore(parts, r.seen, i);
    assert Gathered(parts, {}) == map[];
    var p := Purge(b, d.now, timeout);
    assert id in p <==> r.seen != {};
    if i in r.seen {
      assert r.seen + {i} == r.seen;
    }
  }

  lemma IdleHolds(b: Book, id: TransferId, parts: seq<Bytes>)
    requires |parts| > 0 && id !in b
    ensures Holds(b, id, parts, IDLE)
  {
    assert 0 in Range(|parts|);
  }

  /** Any call keeps book and round together; a chunk of the transfer completes it exactly when it
      is the last one the round misses. */
  lemma CallFollowsRound(b: Book, d: Delivery, id: TransferId, parts: seq<Bytes>, r: Round, timeout: real)
    requires Holds(b, id, parts, r) && |parts| > 0
    requires Counts(d, id) ==> 0 <= Index(d) < |parts| && d.envelope == ChunkEnvelope(id, parts, Index(d))
    ensures Holds(Ingest(b, d, timeout).0, id, parts, NextRound(r, d, id, |parts|, timeout))
    ensures Counts(d, id) ==>
      Ingest(b, d, timeout).1 == if Expired(r, d, timeout).seen + {Index(d)} == Range(|parts|)
                                 then Complete(InOrder(Gathered(parts, Range(|parts|)), |parts|)) else Nothing
  {
    if d.envelope.info.Some? {
      var p, e := Purge(b, d.now, timeout), Expired(r, d, timeout);
      PurgeExpires(b, d, id, parts, r, timeout);
      IngestPurges(b, d, timeout);
      if Counts(d, id) {
        GenuineChunkStep(p, d, id, parts, e, timeout);
        if e.seen + {Index(d)} == Range(|parts|) {
          IdleHolds(Ingest(b, d, timeout).0, id, parts);
        }
      } else {
        UncountedLeavesTransfer(p, d, timeout, id);
      }
    }
  }

  /** After any genuine stream the book holds exactly the current round. */
  lemma {:induction false} BookHoldsRound(ds: seq<Delivery>, id: TransferId, parts: seq<Bytes>, timeout: real)
    requires Genuine(ds, id, parts) && |parts| > 0
    ensures Holds(BookAfter(ds, timeout), id, parts, RoundAfter(ds, id, |parts|, timeout))
  {
    if ds == [] {
      IdleHolds(map[], id, parts);
    } else {
      BookHoldsRound(ds[..|ds| - 1], id, parts, timeout);
      CallFollowsRound(BookAfter(ds[..|ds| - 1], timeout), ds[|ds| - 1], id, parts,
                       RoundAfter(ds[..|ds| - 1], id, |parts|, timeout), timeout);
    }
  }

  function JoinTo(parts: seq<Bytes>, n: nat): Bytes
    requires n <= |parts|
  {
    if n == 0 then [] else JoinTo(parts, n - 1) + parts[n - 1]
  }

  lemma {:induction false} InOrderJoins(parts: seq<Bytes>, n: nat)
    requires n <= |parts|
    ensures InOrder(Gathered(parts, Range(|parts|)), n) == JoinTo(parts, n)
  {
    if n > 0 {
      InOrderJoins(parts, n - 1);
    }
  }

  lemma {:induction false} JoinToIsJoin(parts: seq<Bytes>, n: nat)
    requires n <= |parts|
    ensures JoinTo(parts, n) + Join(parts[n..]) == Join(parts)
  {
    if n == 0 {
      assert parts[0..] == parts;
    } else {
      JoinToIsJoin(parts, n - 1);
      assert parts[n - 1..][1..] == parts[n..];
      assert JoinTo(parts, n) + Join(parts[n..]) == JoinTo(parts, n - 1) + (parts[n - 1] + Join(parts[n..]));
    }
  }

  lemma AllGatheredIsJoin(parts: seq<Bytes>)
    ensures InOrder(Gathered(parts, Range(|parts|)), |parts|) == Join(parts)
  {
    InOrderJoins(parts, |parts|);
    JoinToIsJoin(parts, |parts|);
    assert parts[|parts|..] == [];
    assert JoinTo(parts, |parts|) + [] == JoinTo(parts, |parts|);
  }

  /** Every call of every genuine transfer - in any arrival order, with duplicates, interleaved with
      other transfers, before and after completions, within the timeout or not - returns nothing
      unless it supplies the last index its round misses, and then exactly the payload. */
  lemma TransferRoundTrips(ds: seq<Delivery>, p: nat, payload: Bytes, size: nat, id: TransferId, timeout: real)
    requires size > 0 && p < |ds| && Counts(ds[p], id) && Genuine(ds[..p + 1], id, Split(payload, size))
    ensures var n := |Split(payload, size)|;
      OutcomeAt(ds, p, timeout) ==
        if Expired(RoundAfter(ds[..p], id, n, timeout), ds[p], timeout).seen + {Index(ds[p])} == Range(n)
        then Complete(payload) else Nothing
  {
    var parts, front, upto := Split(payload, size), ds[..p], ds[..p + 1];
    assert upto[..p] == front && upto[p] == ds[p];
    assert Genuine(front, id, parts) by {
      assert forall q :: 0 <= q < |front| ==> front[q] == upto[q];
    }
    BookHoldsRound(front, id, parts, timeout);
    CallFollowsRound(BookAfter(front, timeout), ds[p], id, parts, RoundAfter(front, id, |parts|, timeout), timeout);
    AllGatheredIsJoin(parts);
    SplitJoins(payload, size);
  }

  // ----- the first completion, for a timely transfer -----

  function Seen(ds: seq<Delivery>, id: TransferId): set<int>
  {
    if ds == [] then {}
    else
      var last := ds[|ds| - 1];
      Seen(ds[..|ds| - 1], id) + if Counts(last, id) then {Index(last)} else {}
  }

  /** When the first chunk of `id` was stamped. */
  function OpenedAt(ds: seq<Delivery>, id: TransferId): real
  {
    if ds == [] then 0.0
    else if Seen(ds[..|ds| - 1], id) != {} then OpenedAt(ds[..|ds| - 1], id)
    else ds[|ds| - 1].stamp
  }

  /** No call comes later than `timeout` after the first chunk of `id`. */
  predicate Timely(ds: seq<Delivery>, id: TransferId, timeout: real)
  {
    forall r :: 0 <= r < |ds| && Seen(ds[..r], id) != {} ==> ds[r].now - OpenedAt(ds[..r], id) <= timeout
  }

  lemma TimelyFront(ds: seq<Delivery>, id: TransferId, timeout: real)
    requires ds != [] && Timely(ds, id, timeout)
    ensures Timely(ds[..|ds| - 1], id, timeout)
  {
    var front := ds[..|ds| - 1];
    forall r | 0 <= r < |front| && Seen(front[..r], id) != {} ensures front[r].now - OpenedAt(front[..r], id) <= timeout {
      assert front[..r] == ds[..r];
    }
  }

  lemma {:induction false} SeenInRange(ds: seq<Delivery>, id: TransferId, parts: seq<Bytes>)
    requires Genuine(ds, id, parts)
    ensures Seen(ds, id) <= Range(|parts|)
  {
    if ds != [] {
      SeenInRange(ds[..|ds| - 1], id, parts);
    }
  }

  /** Until every index was seen the round is all that was seen. */
  lemma {:induction false} FirstRoundIsAllSeen(ds: seq<Delivery>, id: TransferId, parts: seq<Bytes>, timeout: real)
    requires Genuine(ds, id, parts) && Timely(ds, id, timeout) && Seen(ds, id) != Range(|parts|)
    ensures RoundAfter(ds, id, |parts|, timeout).seen == Seen(ds, id)
    ensures Seen(ds, id) != {} ==> RoundAfter(ds, id, |parts|, timeout).since == OpenedAt(ds, id)
  {
    if ds != [] {
      var front, last := ds[..|ds| - 1], ds[|ds| - 1];
      SeenInRange(ds, id, parts);
      SeenInRange(front, id, parts);
      TimelyFront(ds, id, timeout);
      FirstRoundIsAllSeen(front, id, parts, timeout);
      assert ds[..|front|] == front;
    }
  }

  /** A timely transfer returns nothing until the call that supplies the last index not yet seen, and
      that call returns the original payload. */
  lemma FirstCompletion(ds: seq<Delivery>, p: nat, payload: Bytes, size: nat, id: TransferId, timeout: real)
    requires size > 0 && p < |ds| && Counts(ds[p], id)
    requires Genuine(ds[..p + 1], id, Split(payload, size)) && Timely(ds[..p + 1], id, timeout)
    requires Seen(ds[..p], id) != Range(|Split(payload, size)|)
    ensures OutcomeAt(ds, p, timeout) ==
      if Seen(ds[..p + 1], id) == Range(|Split(payload, size)|) then Complete(payload) else Nothing
  {
    var parts, front, upto := Split(payload, size), ds[..p], ds[..p + 1];
    assert upto[..|upto| - 1] == front && upto[p] == ds[p] && upto[..p] == front;
    TransferRoundTrips(ds, p, payload, size, id, timeout);
    TimelyFront(upto, id, timeout);
    assert Genuine(front, id, parts) by {
      assert forall q :: 0 <= q < |front| ==> front[q] == upto[q];
    }
    FirstRoundIsAllSeen(front, id, parts, timeout);
  }

  // ----- duplicates -----

  /** A one-chunk transfer that is not open completes with each chunk. */
  lemma SingleChunkRepeats(b: Book, d: Delivery, id: TransferId, part: Bytes, timeout: real)
    requires d.envelope == ChunkEnvelope(id, [part], 0) && id !in b
    ensures Ingest(b, d, timeout).1 == Complete(part) && id !in Ingest(b, d, timeout).0
  {
    var got: map<int, Bytes> := map[0 := part];
    assert got.Keys == Range(1);
    assert InOrder(got, 1) == InOrder(got, 0) + part;
  }

  /** A longer one is opened by any of its chunks. */
  lemma LateDuplicateReopens(b: Book, d: Delivery, id: TransferId, parts: seq<Bytes>, i: int, timeout: real)
    requires |parts| > 1 && 0 <= i < |parts| && d.envelope == ChunkEnvelope(id, parts, i) && id !in b
    ensures Ingest(b, d, timeout).1 == Nothing
    ensures id in Ingest(b, d, timeout).0 && Ingest(b, d, timeout).0[id] == Transfer(map[i := parts[i]], d.stamp)
  {
    var got: map<int, Bytes> := map[i := parts[i]];
    assert got.Keys == {i};
    SingletonRound(parts, i);
  }

  /** Exactly when a usable chunk is ignored: its transfer is open and holds that index already. */
  lemma IgnoredIffHeld(b: Book, d: Delivery, id: TransferId, timeout: real)
    requires Counts(d, id)
    ensures var p := Purge(b, d.now, timeout);
      Ingest(b, d, timeout) == (p, Nothing) <==> id in p && Index(d) in p[id].got
  {
    var p := Purge(b, d.now, timeout);
    if id in p && Index(d) !in p[id].got {
      assert Index(d) in p[id].got[Index(d) := d.envelope.payload.bytes];
    }
  }

  /** Calls p+1, .., r-1 bring no usable chunk of `id`. */
  predicate QuietBetween(ds: seq<Delivery>, p: nat, r: nat, id: TransferId)
  {
    p < r <= |ds| && forall q :: p < q < r ==> !Counts(ds[q], id)
  }

  lemma {:induction false} StaysIdle(ds: seq<Delivery>, p: nat, r: nat, id: TransferId, n: int, timeout: real)
    requires QuietBetween(ds, p, r, id) && RoundAfter(ds[..p + 1], id, n, timeout) == IDLE
    ensures RoundAfter(ds[..r], id, n, timeout) == IDLE
    decreases r
  {
    if r > p + 1 {
      StaysIdle(ds, p, r - 1, id, n, timeout);
      assert ds[..r][..r - 1] == ds[..r - 1];
    }
  }

  /** The transfer remembers no completion.  In every genuine stream the next chunk of it after a
      completing call - necessarily a duplicate - starts a new round: a one-chunk transfer returns
      the payload again, a longer one is open anew with that chunk alone. */
  lemma DuplicateAfterCompletion(ds: seq<Delivery>, p: nat, r: nat, payload: Bytes, size: nat, id: TransferId, timeout: real)
    requires size > 0 && QuietBetween(ds, p, r, id) && r < |ds| && Counts(ds[p], id) && Counts(ds[r], id)
    requires Genuine(ds[..r + 1], id, Split(payload, size)) && OutcomeAt(ds, p, timeout).Complete?
    ensures var parts := Split(payload, size);
      && OutcomeAt(ds, p, timeout) == Complete(payload)
      && (|parts| == 1 ==> OutcomeAt(ds, r, timeout) == Complete(payload))
      && (|parts| > 1 ==>
          && OutcomeAt(ds, r, timeout) == Nothing
          && id in BookAfter(ds[..r + 1], timeout)
          && BookAfter(ds[..r + 1], timeout)[id] == Transfer(map[Index(ds[r]) := parts[Index(ds[r])]], ds[r].stamp))
  {
    var parts := Split(payload, size);
    GenuineBefore(ds, p, r, id, parts);
    CompletionIdles(ds, p, payload, size, id, timeout);
    StaysIdle(ds, p, r, id, |parts|, timeout);
    FromIdle(ds, r, payload, size, id, timeout);
  }

  lemma GenuineBefore(ds: seq<Delivery>, p: nat, r: nat, id: TransferId, parts: seq<Bytes>)
    requires p < r < |ds| && Genuine(ds[..r + 1], id, parts)
    ensures Genuine(ds[..p + 1], id, parts)
  {
    var upto, before := ds[..r + 1], ds[..p + 1];
    assert forall q :: 0 <= q < |before| ==> before[q] == upto[q];
  }

  lemma CompletionIdles(ds: seq<Delivery>, p: nat, payload: Bytes, size: nat, id: TransferId, timeout: real)
    requires size > 0 && p < |ds| && Counts(ds[p], id) && Genuine(ds[..p + 1], id, Split(payload, size))
    requires OutcomeAt(ds, p, timeout).Complete?
    ensures OutcomeAt(ds, p, timeout) == Complete(payload)
    ensures RoundAfter(ds[..p + 1], id, |Split(payload, size)|, timeout) == IDLE
  {
    TransferRoundTrips(ds, p, payload, size, id, timeout);
    assert ds[..p + 1][..p] == ds[..p];
  }

  /** A chunk that finds its transfer idle. */
  lemma FromIdle(ds: seq<Delivery>, r: nat, payload: Bytes, size: nat, id: TransferId, timeout: real)
    requires size > 0 && r < |ds| && Counts(ds[r], id) && Genuine(ds[..r + 1], id, Split(payload, size))
    requires RoundAfter(ds[..r], id, |Split(payload, size)|, timeout) == IDLE
    ensures var parts := Split(payload, size);
      && 0 <= Index(ds[r]) < |parts|
      && (|parts| == 1 ==> OutcomeAt(ds, r, timeout) == Complete(payload))
      && (|parts| > 1 ==>
          && OutcomeAt(ds, r, timeout) == Nothing
          && id in BookAfter(ds[..r + 1], timeout)
          && BookAfter(ds[..r + 1], timeout)[id] == Transfer(map[Index(ds[r]) := parts[Index(ds[r])]], ds[r].stamp))
  {
    var parts, upto := Split(payload, size), ds[..r + 1];
    assert upto[r] == ds[r] && upto[..r] == ds[..r];
    TransferRoundTrips(ds, r, payload, size, id, timeout);
    BookHoldsRound(upto, id, parts, timeout);
    SingletonRound(parts, Index(ds[r]));
    assert IDLE.seen + {Index(ds[r])} == {Index(ds[r])};
  }

  lemma SingletonRound(parts: seq<Bytes>, i: int)
    requires 0 <= i < |parts|
    ensures {i} == Range(|parts|) <==> |parts| == 1
    ensures Gathered(parts, {i}) == map[i := parts[i]]
  {
    if |parts| > 1 {
      assert 0 in Range(|parts|) && 1 in Range(|parts|);
    }
  }
}
