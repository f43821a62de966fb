/** Splitting a payload into chunk envelopes. */
module Chunker {
  import opened Wrappers

  newtype byte = x: int | 0 <= x < 256
  type Bytes = seq<byte>
  type TransferId = string

  datatype ChunkInfo = ChunkInfo(index: int, total: int, transfer: TransferId)

  /** What `b64decode(payload.data_base64)` makes of the payload: bytes, an exception, or
      nothing because the payload has no such field. */
  datatype Payload = Data(bytes: Bytes) | BadBase64 | NoData

  datatype Envelope = Envelope(info: Option<ChunkInfo>, payload: Payload)

  datatype ChunkError = EmptyPayload | ChunkTooSmall

  datatype SendResult = Sent(envelopes: seq<Envelope>) | Rejected(error: ChunkError)

  const MIN_CHUNK_SIZE := 1024

  function Join(parts: seq<Bytes>): Bytes
  {
    if parts == [] then [] else parts[0] + Join(parts[1..])
  }

  /** Cut `size` bytes off the front until at most `size` remain. */
  function Split(payload: Bytes, size: nat): (parts: seq<Bytes>)
    requires size > 0
    ensures parts != []
    decreases |payload|
  {
    if |payload| <= size then [payload] else [payload[..size]] + Split(payload[size..], size)
  }

  lemma {:induction false} SplitJoins(payload: Bytes, size: nat)
    requires size > 0
    ensures Join(Split(payload, size)) == payload
    decreases |payload|
  {
    var parts := Split(payload, size);
    if |payload| <= size {
      assert Join(parts[1..]) == [];
    } else {
      assert parts[1..] == Split(payload[size..], size);
      SplitJoins(payload[size..], size);
    }
  }

  function CeilDiv(n: nat, size: nat): nat
    requires size > 0
  {
    (n + size - 1) / size
  }

  lemma MulAtLeast(d: int, size: int)
    requires d >= 1 && size > 0
    ensures d * size >= size
  {
    assert (d - 1) * size >= 0;
  }

  lemma MulDiff(p: int, q: int, size: int)
    ensures (p - q) * size == p * size - q * size
  {
  }

  lemma SameQuotient(p: int, q: int, size: int, r: int, t: int)
    requires size > 0 && p * size + r == q * size + t && 0 <= r < size && 0 <= t < size
    ensures p == q
  {
    MulDiff(p, q, size);
    MulDiff(q, p, size);
    if p > q {
      MulAtLeast(p - q, size);
    } else if p < q {
      MulAtLeast(q - p, size);
    }
  }

  lemma QuotientIs(n: int, size: int, q: int, r: int)
    requires size > 0 && n == q * size + r && 0 <= r < size
    ensures n / size == q
  {
    SameQuotient(n / size, q, size, n % size, r);
  }

  lemma CeilDivOneMore(n: nat, size: nat)
    requires size > 0
    ensures CeilDiv(n + size, size) == CeilDiv(n, size) + 1
  {
    var q := CeilDiv(n, size);
    var r := (n + size - 1) % size;
    assert (q + 1) * size == q * size + size;
    QuotientIs(n + size + size - 1, size, q + 1, r);
  }

  lemma ChunkBounds(n: nat, size: nat, i: nat)
    requires size > 0 && i < CeilDiv(n, size)
    ensures 0 <= i * size < n
  {
    var q := CeilDiv(n, size);
    assert n + size - 1 == q * size + (n + size - 1) % size;
    assert i * size <= (q - 1) * size == q * size - size;
  }

  /** The chunk loop's arithmetic agrees with cutting from the front. */
  lemma {:induction false} SplitByIndex(payload: Bytes, size: nat, i: nat)
    requires size > 0 && i < CeilDiv(|payload|, size)
    ensures |Split(payload, size)| == CeilDiv(|payload|, size)
    ensures 0 <= i * size < |payload|
    ensures Split(payload, size)[i] ==
      payload[i * size..if i * size + size <= |payload| then i * size + size else |payload|]
    decreases |payload|
  {
    ChunkBounds(|payload|, size, i);
    if |payload| <= size {
      QuotientIs(|payload| + size - 1, size, 1, |payload| - 1);
      assert i * size == 0;
    } else {
      var rest := payload[size..];
      CeilDivOneMore(|rest|, size);
      if i > 0 {
        SplitByIndex(rest, size, i - 1);
        assert (i - 1) * size == i * size - size;
      } else {
        assert |rest| > 0;
        PositiveCeil(|rest|, size);
        SplitByIndex(rest, size, 0);
      }
    }
  }

  lemma PositiveCeil(n: nat, size: nat)
    requires size > 0 && n > 0
    ensures CeilDiv(n, size) > 0
  {
    var q := (n - 1) / size;
    assert n - 1 == q * size + (n - 1) % size;
    assert (q + 1) * size == q * size + size;
    QuotientIs(n + size - 1, size, q + 1, (n - 1) % size);
  }

  function ChunkEnvelope(id: TransferId, parts: seq<Bytes>, i: int): Envelope
    requires 0 <= i < |parts|
  {
    Envelope(Some(ChunkInfo(i, |parts|, id)), Data(parts[i]))
  }

  /** `send_chunked`: one envelope per chunk, in index order. */
  method SendChunked(payload: Bytes, size: int, id: TransferId) returns (r: SendResult)
    ensures payload == [] ==> r == Rejected(EmptyPayload)
    ensures payload != [] && size < 1024 ==> r == Rejected(ChunkTooSmall)
    ensures payload != [] && size >= 1024 ==>
      && r.Sent? && |r.envelopes| == |Split(payload, size)|
      && forall i :: 0 <= i < |r.envelopes| ==> r.envelopes[i] == ChunkEnvelope(id, Split(payload, size), i)
  {
    if payload == [] {
      return Rejected(EmptyPayload);
    }
    if size < MIN_CHUNK_SIZE {
      return Rejected(ChunkTooSmall);
    }
    var total := CeilDiv(|payload|, size);
    ghost var parts := Split(payload, size);
    PositiveCeil(|payload|, size);
    SplitByIndex(payload, size, 0);
    var sent: seq<Envelope> := [];
    for chunkIndex := 0 to total
      invariant |sent| == chunkIndex
      invariant forall i :: 0 <= i < chunkIndex ==> sent[i] == ChunkEnvelope(id, parts, i)
    {
      SplitByIndex(payload, size, chunkIndex);
      var start := chunkIndex * size;
      var end := if start + size <= |payload| then start + size else |payload|;
      var chunk := payload[start..end];
      sent := sent + [Envelope(Some(ChunkInfo(chunkIndex, total, id)), Data(chunk))];
    }
    return Sent(sent);
  }
}
