/** The dead-letter queue: a bounded deque per peer, evicting at the back or the front. */
module MessageQueue {
  import opened Wrappers

  type Peer = string
  type Dlq<M> = map<Peer, seq<M>>

  /** What an insertion did to make room; popping an empty deque raises, which happens
      exactly when the configured maximum is not positive. */
  datatype Room<+M> = Kept | Evicted(m: M) | Raised

  function QueueOf<M>(dlq: Dlq<M>, p: Peer): seq<M>
  {
    if p in dlq then dlq[p] else []
  }

  /** `enqueue` on one deque: the oldest message gives way. */
  function Back<M>(max: int, q: seq<M>, m: M): (seq<M>, Room<M>)
  {
    if |q| < max then (q + [m], Kept)
    else if q == [] then (q, Raised)
    else (q[1..] + [m], Evicted(q[0]))
  }

  /** `enqueue_front` on one deque: the newest message gives way. */
  function Front<M>(max: int, q: seq<M>, m: M): (seq<M>, Room<M>)
  {
    if |q| < max then ([m] + q, Kept)
    else if q == [] then (q, Raised)
    else ([m] + q[..|q| - 1], Evicted(q[|q| - 1]))
  }

  function PushBack<M>(max: int, dlq: Dlq<M>, p: Peer, m: M): (Dlq<M>, Room<M>)
  {
    var (q, room) := Back(max, QueueOf(dlq, p), m);
    (dlq[p := q], room)
  }

  function PushFront<M>(max: int, dlq: Dlq<M>, p: Peer, m: M): (Dlq<M>, Room<M>)
  {
    var (q, room) := Front(max, QueueOf(dlq, p), m);
    (dlq[p := q], room)
  }

  /** `dequeue_one`: the key goes with the last message. */
  function PopFront<M>(dlq: Dlq<M>, p: Peer): (Dlq<M>, Option<M>)
  {
    var q := QueueOf(dlq, p);
    if q == [] then (dlq, None)
    else (if |q| == 1 then dlq - {p} else dlq[p := q[1..]], Some(q[0]))
  }

  /** A key exists exactly while its queue is non-empty, and no queue exceeds the maximum. */
  ghost predicate WellKept<M>(max: int, dlq: Dlq<M>)
  {
    forall p :: p in dlq ==> 0 < |dlq[p]| <= max
  }

  lemma InsertionsKeepBounds<M>(max: int, dlq: Dlq<M>, p: Peer, m: M)
    requires WellKept(max, dlq) && max >= 1
    ensures WellKept(max, PushBack(max, dlq, p, m).0) && WellKept(max, PushFront(max, dlq, p, m).0)
    ensures !PushBack(max, dlq, p, m).1.Raised? && !PushFront(max, dlq, p, m).1.Raised?
    ensures WellKept(max, PopFront(dlq, p).0)
  {
  }

  /** The documented bound and key discipline survive an insertion exactly when the
      configured maximum is at least one; otherwise an empty deque is left under the key. */
  lemma BoundKeptIffPositiveMaximum<M>(max: int, dlq: Dlq<M>, p: Peer, m: M)
    requires WellKept(max, dlq)
    ensures WellKept(max, PushBack(max, dlq, p, m).0) <==> max >= 1
    ensures WellKept(max, PushFront(max, dlq, p, m).0) <==> max >= 1
    ensures PushBack(max, dlq, p, m).1.Raised? <==> max < 1
  {
    assert p in PushBack(max, dlq, p, m).0 && p in PushFront(max, dlq, p, m).0;
  }

  /** An insertion evicts exactly when the queue is full: at the back it then loses the oldest message,
      at the front the newest, and everything else stays in order. */
  lemma EvictsIffFull<M>(max: int, q: seq<M>, m: M)
    requires max >= 1
    ensures var (back, room) := Back(max, q, m);
      && (room.Evicted? <==> |q| >= max) && !room.Raised?
      && (if |q| >= max then [room.m] + back == q + [m] else back == q + [m])
    ensures var (front, room) := Front(max, q, m);
      && (room.Evicted? <==> |q| >= max) && !room.Raised?
      && (if |q| >= max then front + [room.m] == [m] + q else front == [m] + q)
  {
  }

  /** Every operation leaves the other peers' queues alone; a dequeue hands over the oldest message. */
  lemma OtherPeersUntouched<M>(max: int, dlq: Dlq<M>, p: Peer, m: M, other: Peer)
    requires other != p
    ensures QueueOf(PushBack(max, dlq, p, m).0, other) == QueueOf(dlq, other)
    ensures QueueOf(PushFront(max, dlq, p, m).0, other) == QueueOf(dlq, other)
    ensures QueueOf(PopFront(dlq, p).0, other) == QueueOf(dlq, other)
    ensures QueueOf(dlq, p) != [] ==> PopFront(dlq, p).1.Some? && [PopFront(dlq, p).1.value] + QueueOf(PopFront(dlq, p).0, p) == QueueOf(dlq, p)
    ensures QueueOf(dlq, p) == [] ==> PopFront(dlq, p) == (dlq, None)
  {
  }

  class MessageQueue<M> {
    const maxSize: int
    var dlq: Dlq<M>

    constructor (maxSizePerPeer: int)
      ensures dlq == map[] && maxSize == maxSizePerPeer
    {
      maxSize, dlq := maxSizePerPeer, map[];
    }

    method Enqueue(target: Peer, envelope: M) returns (room: Room<M>)
      modifies this
      ensures (dlq, room) == PushBack(maxSize, old(dlq), target, envelope)
    {
      if target !in dlq {
        dlq := dlq[target := []];
      }
      room := Kept;
      if |dlq[target]| >= maxSize {
        if dlq[target] == [] {
          assert dlq == old(dlq)[target := []];
          return Raised;
        }
        room := Evicted(dlq[target][0]);
        dlq := dlq[target := dlq[target][1..]];
      }
      dlq := dlq[target := dlq[target] + [envelope]];
      assert dlq == old(dlq)[target := dlq[target]];
    }

    method EnqueueFront(target: Peer, envelope: M) returns (room: Room<M>)
      modifies this
      ensures (dlq, room) == PushFront(maxSize, old(dlq), target, envelope)
    {
      if target !in dlq {
        dlq := dlq[target := []];
      }
      room := Kept;
      if |dlq[target]| >= maxSize {
        if dlq[target] == [] {
          assert dlq == old(dlq)[target := []];
          return Raised;
        }
        var q := dlq[target];
        room := Evicted(q[|q| - 1]);
        dlq := dlq[target := q[..|q| - 1]];
      }
      dlq := dlq[target := [envelope] + dlq[target]];
      assert dlq == old(dlq)[target := dlq[target]];
    }

    method DequeueOne(target: Peer) returns (msg: Option<M>)
      modifies this
      ensures (dlq, msg) == PopFront(old(dlq), target)
    {
      if target in dlq && dlq[target] != [] {
        msg := Some(dlq[target][0]);
        dlq := dlq[target := dlq[target][1..]];
        if dlq[target] == [] {
          dlq := dlq - {target};
          assert dlq == old(dlq) - {target};
        }
        return;
      }
      return None;
    }

    method Drain(target: Peer) returns (msgs: seq<M>)
      modifies this
      ensures msgs == QueueOf(old(dlq), target) && dlq == old(dlq) - {target}
    {
      if target in dlq {
        msgs := dlq[target];
        dlq := dlq - {target};
        return;
      }
      return [];
    }

    method HasMessages(target: Peer) returns (b: bool)
      ensures b <==> QueueOf(dlq, target) != []
    {
      b := target in dlq && |dlq[target]| > 0;
    }
  }
}
