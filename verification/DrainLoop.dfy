/** Runs of the reconnect-and-drain tasks against the dead-letter queue.  Any number of
    drainers may be active for a peer, each holding at most one message between taking it
    from the queue and learning whether the send succeeded. */
module DrainLoop {
  import opened Wrappers
  import opened MessageQueue

  /** One peer: its queue, its drainers' hands, and the history of its messages. */
  datatype Lane<M> = Lane(
    queue: seq<M>, slots: seq<Option<M>>, enqueued: seq<M>, delivered: seq<M>, evicted: seq<M>)

  /** The atomic segments between two suspension points. */
  datatype Event<M> =
    | Dispatch(m: M)     // a direct send failed: enqueue, and start a drainer
    | Take(i: nat)       // drainer i dequeues
    | Sent(i: nat)       // its send succeeded
    | Failed(i: nat)     // its send failed: back to the front

  function Victims<M>(room: Room<M>): seq<M>
  {
    match room
    case Evicted(m) => [m]
    case _ => []
  }

  predicate Holding<M>(l: Lane<M>, i: nat)
  {
    i < |l.slots| && l.slots[i].Some?
  }

  predicate Idle<M>(l: Lane<M>, i: nat)
  {
    i < |l.slots| && l.slots[i].None?
  }

  function Step<M>(max: int, l: Lane<M>, e: Event<M>): Lane<M>
  {
    match e
    case Dispatch(m) =>
      var (q, room) := Back(max, l.queue, m);
      Lane(q, l.slots + [None], l.enqueued + [m], l.delivered, l.evicted + Victims(room))
    case Take(i) =>
      if !Idle(l, i) || l.queue == [] then l
      else l.(queue := l.queue[1..], slots := l.slots[i := Some(l.queue[0])])
    case Sent(i) =>
      if !Holding(l, i) then l
      else l.(slots := l.slots[i := None], delivered := l.delivered + [l.slots[i].value])
    case Failed(i) =>
      if !Holding(l, i) then l
      else
        var (q, room) := Front(max, l.queue, l.slots[i].value);
        l.(queue := q, slots := l.slots[i := None], evicted := l.evicted + Victims(room))
  }

  function Run<M>(max: int, l: Lane<M>, es: seq<Event<M>>): Lane<M>
  {
    if es == [] then l else Step(max, Run(max, l, es[..|es| - 1]), es[|es| - 1])
  }

  function Empty<M>(): Lane<M>
  {
    Lane([], [], [], [], [])
  }

  // ----- all peers share one queue object -----

  /** The node: the queue object's table, and each peer's drainers and history. */
  datatype Node<M> = Node(max: int, dlq: Dlq<M>, lanes: map<Peer, Lane<M>>)

  function LaneOf<M>(n: Node<M>, p: Peer): Lane<M>
  {
    if p in n.lanes then n.lanes[p] else Empty()
  }

  /** The event carried out on the table through the queue's own operations. */
  function NodeStep<M>(n: Node<M>, p: Peer, e: Event<M>): Node<M>
  {
    var l := LaneOf(n, p);
    var lanes := n.lanes[p := Step(n.max, l, e)];
    match e
    case Dispatch(m) => n.(dlq := PushBack(n.max, n.dlq, p, m).0, lanes := lanes)
    case Take(i) => n.(dlq := if Idle(l, i) then PopFront(n.dlq, p).0 else n.dlq, lanes := lanes)
    case Sent(i) => n.(lanes := lanes)
    case Failed(i) =>
      n.(dlq := if Holding(l, i) then PushFront(n.max, n.dlq, p, l.slots[i].value).0 else n.dlq, lanes := lanes)
  }

  function NodeRun<M>(max: int, es: seq<(Peer, Event<M>)>): Node<M>
  {
    if es == [] then Node(max, map[], map[])
    else NodeStep(NodeRun(max, es[..|es| - 1]), es[|es| - 1].0, es[|es| - 1].1)
  }

  function EventsOf<M>(es: seq<(Peer, Event<M>)>, p: Peer): seq<Event<M>>
  {
    if es == [] then []
    else EventsOf(es[..|es| - 1], p) + if es[|es| - 1].0 == p then [es[|es| - 1].1] else []
  }

  /** What the table holds for this peer, nothing counting as an empty queue, is the lane's queue. */
  ghost predicate TableFits<M>(n: Node<M>, p: Peer)
  {
    QueueOf(n.dlq, p) == LaneOf(n, p).queue
  }

  lemma NodeStepOnOwnPeer<M>(n: Node<M>, p: Peer, e: Event<M>)
    requires n.max >= 1 && WellKept(n.max, n.dlq) && TableFits(n, p)
    ensures var next := NodeStep(n, p, e);
      && LaneOf(next, p) == Step(n.max, LaneOf(n, p), e)
      && TableFits(next, p) && WellKept(n.max, next.dlq) && next.max == n.max
  {
    match e
    case Dispatch(m) => InsertionsKeepBounds(n.max, n.dlq, p, m);
    case Take(i) =>
    case Sent(i) =>
    case Failed(i) =>
      if Holding(LaneOf(n, p), i) {
        InsertionsKeepBounds(n.max, n.dlq, p, LaneOf(n, p).slots[i].value);
      }
  }

  lemma NodeStepOnOtherPeer<M>(n: Node<M>, q: Peer, e: Event<M>, p: Peer)
    requires p != q
    ensures LaneOf(NodeStep(n, q, e), p) == LaneOf(n, p) && QueueOf(NodeStep(n, q, e).dlq, p) == QueueOf(n.dlq, p)
  {
  }

  lemma RunOneMore<M>(max: int, l: Lane<M>, es: seq<Event<M>>, e: Event<M>)
    ensures Run(max, l, es + [e]) == Step(max, Run(max, l, es), e)
  {
    assert (es + [e])[..|es|] == es;
  }

  /** Peers do not interfere: each one's part of a run of the node is the run of its own
      events, the table holds its queue under its key, and a key exists exactly while its
      queue is non-empty and within the bound. */
  lemma {:induction false} PeersAreIndependent<M>(max: int, es: seq<(Peer, Event<M>)>, p: Peer)
    requires max >= 1
    ensures var n := NodeRun<M>(max, es);
      && n.max == max && WellKept(max, n.dlq) && TableFits(n, p)
      && LaneOf(n, p) == Run(max, Empty(), EventsOf(es, p))
  {
    if es != [] {
      var front := es[..|es| - 1];
      var (q, e) := es[|es| - 1];
      PeersAreIndependent(max, front, p);
      PeersAreIndependent(max, front, q);
      var n := NodeRun<M>(max, front);
      NodeStepOnOwnPeer(n, q, e);
      RunOneMore(max, Empty<M>(), EventsOf(front, p), e);
      if p != q {
        NodeStepOnOtherPeer(n, q, e, p);
        assert EventsOf(es, p) == EventsOf(front, p);
      }
    }
  }

  // ----- messages in flight -----

  function One<M>(slot: Option<M>): seq<M>
  {
    match slot
    case Some(m) => [m]
    case None => []
  }

  function InFlight<M>(slots: seq<Option<M>>): seq<M>
  {
    if slots == [] then [] else InFlight(slots[..|slots| - 1]) + One(slots[|slots| - 1])
  }

  lemma {:induction false} InFlightAt<M>(slots: seq<Option<M>>, i: nat)
    requires i < |slots|
    ensures InFlight(slots) == InFlight(slots[..i]) + One(slots[i]) + InFlight(slots[i + 1..])
  {
    var front, tail := slots[..|slots| - 1], slots[i + 1..];
    if i < |front| {
      InFlightAt(front, i);
      assert front[..i] == slots[..i] && tail[..|tail| - 1] == front[i + 1..];
      Regroup(InFlight(slots[..i]), One(slots[i]), InFlight(front[i + 1..]), One(slots[|front|]));
    }
  }

  lemma Regroup<M>(a: seq<M>, b: seq<M>, c: seq<M>, d: seq<M>)
    ensures a + b + c + d == a + b + (c + d)
  {
  }

  ghost function Count<M>(s: seq<M>, m: M): nat
  {
    multiset(s)[m]
  }

  lemma CountConcat<M>(a: seq<M>, b: seq<M>, m: M)
    ensures Count(a + b, m) == Count(a, m) + Count(b, m)
  {
  }

  lemma SlotChange<M>(slots: seq<Option<M>>, i: nat, x: Option<M>)
    requires i < |slots|
    ensures forall m :: Count(InFlight(slots[i := x]), m) + Count(One(slots[i]), m) == Count(InFlight(slots), m) + Count(One(x), m)
    ensures InFlight(slots) == One(slots[i]) ==> InFlight(slots[i := x]) == One(x)
  {
    var changed := slots[i := x];
    InFlightAt(slots, i);
    InFlightAt(changed, i);
    assert changed[..i] == slots[..i] && changed[i + 1..] == slots[i + 1..];
    Swapped(InFlight(slots[..i]), One(slots[i]), One(x), InFlight(slots[i + 1..]));
  }

  lemma Swapped<M>(a: seq<M>, x: seq<M>, y: seq<M>, c: seq<M>)
    ensures forall m :: Count(a + y + c, m) + Count(x, m) == Count(a + x + c, m) + Count(y, m)
    ensures a + x + c == x ==> a + y + c == y
  {
    if a + x + c == x {
      assert |a| == 0 && |c| == 0;
    }
  }

  lemma NewSlot<M>(slots: seq<Option<M>>)
    ensures InFlight(slots + [None]) == InFlight(slots)
  {
    assert (slots + [None])[..|slots|] == slots;
  }

  // ----- conservation -----

  /** As often as `m` was enqueued, it is delivered, in flight, queued or evicted. */
  ghost predicate Balanced<M>(l: Lane<M>, m: M)
  {
    Count(l.enqueued, m) == Count(l.delivered, m) + Count(InFlight(l.slots), m) + Count(l.queue, m) + Count(l.evicted, m)
  }

  lemma FrontConserves<M>(max: int, q: seq<M>, m: M)
    requires max >= 1
    ensures var (q', room) := Front(max, q, m); [m] + q == q' + Victims(room) && |q'| <= (if |q| > max then |q| else max)
  {
  }

  lemma BackConserves<M>(max: int, q: seq<M>, m: M)
    requires max >= 1
    ensures var (q', room) := Back(max, q, m); q + [m] == Victims(room) + q' && |q'| <= (if |q| > max then |q| else max)
  {
  }

  lemma DispatchKeepsBalance<M>(max: int, l: Lane<M>, x: M, m: M)
    requires max >= 1 && Balanced(l, m)
    ensures Balanced(Step(max, l, Dispatch(x)), m)
  {
    var (q, room) := Back(max, l.queue, x);
    BackConserves(max, l.queue, x);
    NewSlot(l.slots);
    CountConcat(l.queue, [x], m);
    CountConcat(Victims(room), q, m);
    CountConcat(l.enqueued, [x], m);
    CountConcat(l.evicted, Victims(room), m);
  }

  lemma SlotFilled<M>(slots: seq<Option<M>>, i: nat, x: M, m: M)
    requires i < |slots| && slots[i].None?
    ensures Count(InFlight(slots[i := Some(x)]), m) == Count(InFlight(slots), m) + Count([x], m)
  {
    SlotChange(slots, i, Some(x));
    assert Count(One(slots[i]), m) == 0;
  }

  lemma TakeKeepsBalance<M>(max: int, l: Lane<M>, i: nat, m: M)
    requires Balanced(l, m)
    ensures Balanced(Step(max, l, Take(i)), m)
  {
    if Idle(l, i) && l.queue != [] {
      SlotFilled(l.slots, i, l.queue[0], m);
      CountConcat([l.queue[0]], l.queue[1..], m);
      assert l.queue == [l.queue[0]] + l.queue[1..];
    }
  }

  lemma SentKeepsBalance<M>(max: int, l: Lane<M>, i: nat, m: M)
    requires Balanced(l, m)
    ensures Balanced(Step(max, l, Sent(i)), m)
  {
    if Holding(l, i) {
      SlotChange(l.slots, i, None);
      CountConcat(l.delivered, [l.slots[i].value], m);
      assert Count(InFlight(l.slots[i := None]), m) + Count([l.slots[i].value], m) == Count(InFlight(l.slots), m) + Count([], m);
    }
  }

  lemma FailedKeepsBalance<M>(max: int, l: Lane<M>, i: nat, m: M)
    requires max >= 1 && Balanced(l, m)
    ensures Balanced(Step(max, l, Failed(i)), m)
  {
    if Holding(l, i) {
      var x := l.slots[i].value;
      var (q, room) := Front(max, l.queue, x);
      FrontConserves(max, l.queue, x);
      SlotChange(l.slots, i, None);
      CountConcat([x], l.queue, m);
      CountConcat(q, Victims(room), m);
      CountConcat(l.evicted, Victims(room), m);
      assert Count(InFlight(l.slots[i := None]), m) + Count([x], m) == Count(InFlight(l.slots), m) + Count([], m);
    }
  }

  lemma StepKeepsBalance<M>(max: int, l: Lane<M>, e: Event<M>, m: M)
    requires max >= 1 && Balanced(l, m)
    ensures Balanced(Step(max, l, e), m)
  {
    match e
    case Dispatch(x) => DispatchKeepsBalance(max, l, x, m);
    case Take(i) => TakeKeepsBalance(max, l, i, m);
    case Sent(i) => SentKeepsBalance(max, l, i, m);
    case Failed(i) => FailedKeepsBalance(max, l, i, m);
  }

  lemma StepKeepsBound<M>(max: int, l: Lane<M>, e: Event<M>)
    requires max >= 1 && |l.queue| <= max
    ensures |Step(max, l, e).queue| <= max
  {
  }

  lemma {:induction false} RunKeepsBalance<M>(max: int, es: seq<Event<M>>, m: M)
    requires max >= 1
    ensures Balanced(Run(max, Empty<M>(), es), m) && |Run(max, Empty<M>(), es).queue| <= max
  {
    if es != [] {
      var before := Run(max, Empty<M>(), es[..|es| - 1]);
      RunKeepsBalance(max, es[..|es| - 1], m);
      StepKeepsBalance(max, before, es[|es| - 1], m);
      StepKeepsBound(max, before, es[|es| - 1]);
    }
  }

  /** Conservation in every run, for any number of concurrent drainers. */
  lemma NothingLostInAnyRun<M(!new)>(max: int, es: seq<Event<M>>)
    requires max >= 1
    ensures var l := Run(max, Empty<M>(), es);
      multiset(l.enqueued) == multiset(l.delivered) + multiset(InFlight(l.slots)) + multiset(l.queue) + multiset(l.evicted)
  {
    var l := Run(max, Empty<M>(), es);
    forall m: M ensures multiset(l.enqueued)[m] ==
      (multiset(l.delivered) + multiset(InFlight(l.slots)) + multiset(l.queue) + multiset(l.evicted))[m]
    {
      RunKeepsBalance(max, es, m);
    }
  }

  // ----- what each step does to a message -----

  /** The steps that insert into the queue. */
  predicate Inserts<M>(l: Lane<M>, e: Event<M>)
  {
    e.Dispatch? || (e.Failed? && Holding(l, e.i))
  }

  /** A message is evicted exactly by an insertion into a full queue. */
  lemma EvictsOnlyWhenFull<M>(max: int, l: Lane<M>, e: Event<M>)
    requires max >= 1
    ensures Step(max, l, e).evicted != l.evicted <==> Inserts(l, e) && |l.queue| >= max
    ensures Inserts(l, e) && |l.queue| >= max ==> |Step(max, l, e).evicted| == |l.evicted| + 1
  {
    match e
    case Dispatch(m) => EvictsIffFull(max, l.queue, m);
    case Failed(i) =>
      if Holding(l, i) {
        EvictsIffFull(max, l.queue, l.slots[i].value);
      }
    case _ =>
  }

  /** A failed send puts the message back at the front and empties the drainer's hand; only a full
      queue loses its newest message for it. */
  lemma FailureRequeues<M>(max: int, l: Lane<M>, i: nat)
    requires max >= 1 && Holding(l, i)
    ensures var next := Step(max, l, Failed(i));
      && next.slots == l.slots[i := None] && next.delivered == l.delivered && next.enqueued == l.enqueued
      && next.queue + next.evicted[|l.evicted|..] == [l.slots[i].value] + l.queue
      && l.evicted <= next.evicted
  {
    EvictsIffFull(max, l.queue, l.slots[i].value);
  }

  /** Drainer i takes and sends n times. */
  function Deliveries<M>(i: nat, n: nat): seq<Event<M>>
  {
    if n == 0 then [] else Deliveries(i, n - 1) + [Take(i)] + [Sent(i)]
  }

  /** While its sends succeed a drainer delivers the queue from the front, one message per round, and
      after as many rounds as there are messages all of it. */
  lemma {:induction false} DrainDelivers<M>(max: int, l: Lane<M>, i: nat, n: nat)
    requires Idle(l, i) && n <= |l.queue|
    ensures Run(max, l, Deliveries(i, n)) == AfterDeliveries(l, n)
  {
    if n == 0 {
      assert AfterDeliveries(l, 0) == l;
    } else {
      DrainDelivers(max, l, i, n - 1);
      OneDelivery(max, AfterDeliveries(l, n - 1), i);
      RunOneMore(max, l, Deliveries(i, n - 1), Take(i));
      RunOneMore(max, l, Deliveries(i, n - 1) + [Take(i)], Sent(i));
      OneMoreDelivered(l, n);
    }
  }

  /** The first n messages delivered, the rest still queued. */
  function AfterDeliveries<M>(l: Lane<M>, n: nat): Lane<M>
    requires n <= |l.queue|
  {
    l.(queue := l.queue[n..], delivered := l.delivered + l.queue[..n])
  }

  lemma OneMoreDelivered<M>(l: Lane<M>, n: nat)
    requires 0 < n <= |l.queue|
    ensures var before := AfterDeliveries(l, n - 1);
      before.queue != [] && before.(queue := before.queue[1..], delivered := before.delivered + [before.queue[0]]) == AfterDeliveries(l, n)
  {
    assert l.queue[n - 1..][1..] == l.queue[n..];
    assert l.queue[..n - 1] + [l.queue[n - 1]] == l.queue[..n];
    Joined(l.delivered, l.queue[..n - 1], [l.queue[n - 1]]);
  }

  lemma OneDelivery<M>(max: int, l: Lane<M>, i: nat)
    requires Idle(l, i) && l.queue != []
    ensures Step(max, Step(max, l, Take(i)), Sent(i)) == l.(queue := l.queue[1..], delivered := l.delivered + [l.queue[0]])
  {
    assert l.slots[i := Some(l.queue[0])][i := None] == l.slots;
  }

  // ----- order -----

  ghost predicate IsSubsequence<M>(a: seq<M>, b: seq<M>)
  {
    a == []
    || (b != []
        && ((a[|a| - 1] == b[|b| - 1] && IsSubsequence(a[..|a| - 1], b[..|b| - 1]))
            || IsSubsequence(a, b[..|b| - 1])))
  }

  lemma ExtendBoth<M>(a: seq<M>, b: seq<M>, x: M)
    requires IsSubsequence(a, b)
    ensures IsSubsequence(a + [x], b + [x]) && IsSubsequence(a, b + [x])
  {
    assert (a + [x])[..|a|] == a && (b + [x])[..|b|] == b;
  }

  lemma {:induction false} DropOne<M>(a: seq<M>, i: nat, b: seq<M>)
    requires i < |a| && IsSubsequence(a, b)
    ensures IsSubsequence(a[..i] + a[i + 1..], b)
    decreases |b|
  {
    var c := a[..i] + a[i + 1..];
    var b' := b[..|b| - 1];
    if a[|a| - 1] == b[|b| - 1] && IsSubsequence(a[..|a| - 1], b') {
      if i < |a| - 1 {
        DropOne(a[..|a| - 1], i, b');
        assert c[..|c| - 1] == a[..|a| - 1][..i] + a[..|a| - 1][i + 1..];
      } else {
        assert c == a[..|a| - 1];
      }
    } else {
      DropOne(a, i, b');
    }
  }

  /** Everything not evicted, oldest first, when at most one message is in flight. */
  function Line<M>(l: Lane<M>): seq<M>
  {
    l.delivered + InFlight(l.slots) + l.queue
  }

  ghost predicate InOrder<M>(l: Lane<M>)
  {
    && |InFlight(l.slots)| <= 1
    && IsSubsequence(Line(l), l.enqueued)
    && (l.evicted == [] ==> Line(l) == l.enqueued)
  }

  lemma HolderIsOnlyOne<M>(slots: seq<Option<M>>, i: nat)
    requires |InFlight(slots)| <= 1 && i < |slots| && slots[i].Some?
    ensures InFlight(slots) == One(slots[i])
  {
    InFlightAt(slots, i);
  }

  lemma DispatchKeepsOrder<M>(max: int, l: Lane<M>, m: M)
    requires max >= 1 && InOrder(l)
    ensures InOrder(Step(max, l, Dispatch(m)))
  {
    var next := Step(max, l, Dispatch(m));
    NewSlot(l.slots);
    ExtendBoth(Line(l), l.enqueued, m);
    BackConserves(max, l.queue, m);
    RoomAtFront(l.delivered + InFlight(l.slots), l.queue, m, next.queue, Back(max, l.queue, m).1, l.enqueued + [m]);
  }

  /** Evicting from the front of the queue removes one element from the middle of the line. */
  lemma RoomAtFront<M>(held: seq<M>, q: seq<M>, m: M, q': seq<M>, room: Room<M>, enqueued: seq<M>)
    requires IsSubsequence(held + q + [m], enqueued)
    requires q + [m] == Victims(room) + q'
    ensures IsSubsequence(held + q', enqueued)
    ensures Victims(room) == [] ==> held + q' == held + q + [m]
  {
    Joined(held, q, [m]);
    if room.Evicted? {
      DropAfter(held, room.m, q', enqueued);
    } else {
      assert q + [m] == q';
    }
  }

  lemma Joined<M>(a: seq<M>, b: seq<M>, c: seq<M>)
    ensures a + b + c == a + (b + c)
  {
  }

  lemma DropAfter<M>(held: seq<M>, x: M, q: seq<M>, enqueued: seq<M>)
    requires IsSubsequence(held + ([x] + q), enqueued)
    ensures IsSubsequence(held + q, enqueued)
  {
    var line := held + ([x] + q);
    DropOne(line, |held|, enqueued);
    assert line[..|held|] + line[|held| + 1..] == held + q;
  }

  lemma HandOver<M>(d: seq<M>, m: M, q: seq<M>)
    ensures d + [] + ([m] + q) == d + [m] + q
    ensures (d + [m]) + [] + q == d + [m] + q
  {
  }

  lemma OnlySlotChange<M>(slots: seq<Option<M>>, i: nat, x: Option<M>)
    requires i < |slots| && InFlight(slots) == One(slots[i])
    ensures InFlight(slots[i := x]) == One(x)
  {
    SlotChange(slots, i, x);
  }

  lemma SameLineInOrder<M>(l: Lane<M>, next: Lane<M>)
    requires InOrder(l) && Line(next) == Line(l) && |InFlight(next.slots)| <= 1
    requires next.enqueued == l.enqueued && next.evicted == l.evicted
    ensures InOrder(next)
  {
  }

  lemma TakeKeepsOrder<M>(max: int, l: Lane<M>, i: nat)
    requires InOrder(l) && (Takes(l, Take(i)) ==> InFlight(l.slots) == [])
    ensures InOrder(Step(max, l, Take(i)))
  {
    if Takes(l, Take(i)) {
      var m, q := l.queue[0], l.queue[1..];
      OnlySlotChange(l.slots, i, Some(m));
      HandOver(l.delivered, m, q);
      assert l.queue == [m] + q;
      SameLineInOrder(l, Step(max, l, Take(i)));
    }
  }

  lemma SentKeepsOrder<M>(max: int, l: Lane<M>, i: nat)
    requires InOrder(l)
    ensures InOrder(Step(max, l, Sent(i)))
  {
    if Holding(l, i) {
      var m := l.slots[i].value;
      HolderIsOnlyOne(l.slots, i);
      OnlySlotChange(l.slots, i, None);
      HandOver(l.delivered, m, l.queue);
      SameLineInOrder(l, Step(max, l, Sent(i)));
    }
  }

  lemma FailedKeepsOrder<M>(max: int, l: Lane<M>, i: nat)
    requires max >= 1 && InOrder(l)
    ensures InOrder(Step(max, l, Failed(i)))
  {
    if Holding(l, i) {
      var m := l.slots[i].value;
      HolderIsOnlyOne(l.slots, i);
      OnlySlotChange(l.slots, i, None);
      FrontConserves(max, l.queue, m);
      RoomAtBack(l.delivered, l.queue, m, Step(max, l, Failed(i)).queue, Front(max, l.queue, m).1, l.enqueued);
    }
  }

  /** Evicting from the back removes the last element of the line. */
  lemma RoomAtBack<M>(delivered: seq<M>, q: seq<M>, m: M, q': seq<M>, room: Room<M>, enqueued: seq<M>)
    requires IsSubsequence(delivered + [m] + q, enqueued)
    requires [m] + q == q' + Victims(room)
    ensures IsSubsequence(delivered + [] + q', enqueued)
    ensures Victims(room) == [] ==> delivered + [] + q' == delivered + [m] + q
  {
    Joined(delivered, [m], q);
    assert delivered + [] + q' == delivered + q';
    if room.Evicted? {
      Joined(delivered, q', [room.m]);
      DropLast(delivered + q', room.m, enqueued);
    } else {
      assert [m] + q == q';
    }
  }

  lemma DropLast<M>(line: seq<M>, x: M, enqueued: seq<M>)
    requires IsSubsequence(line + [x], enqueued)
    ensures IsSubsequence(line, enqueued)
  {
    DropOne(line + [x], |line|, enqueued);
    assert (line + [x])[..|line|] + (line + [x])[|line| + 1..] == line;
  }

  /** The step hands a message to a drainer; taking from an empty queue does nothing. */
  predicate Takes<M>(l: Lane<M>, e: Event<M>)
  {
    e.Take? && Idle(l, e.i) && l.queue != []
  }

  /** No drainer gets a message while another one is in flight. */
  ghost predicate OneAtATime<M>(max: int, es: seq<Event<M>>)
  {
    forall k :: 0 <= k < |es| ==> !Overlaps(max, es, k)
  }

  /** The lane after the first k events. */
  function Moment<M>(max: int, es: seq<Event<M>>, k: nat): Lane<M>
    requires k <= |es|
  {
    Run(max, Empty(), es[..k])
  }

  /** Event k hands a message to a drainer while another message is in flight. */
  predicate Overlaps<M>(max: int, es: seq<Event<M>>, k: nat)
    requires k < |es|
  {
    Takes(Moment(max, es, k), es[k]) && InFlight(Moment(max, es, k).slots) != []
  }

  lemma StepKeepsOrder<M>(max: int, l: Lane<M>, e: Event<M>)
    requires max >= 1 && InOrder(l) && (Takes(l, e) ==> InFlight(l.slots) == [])
    ensures InOrder(Step(max, l, e))
  {
    match e
    case Dispatch(m) => DispatchKeepsOrder(max, l, m);
    case Take(i) => TakeKeepsOrder(max, l, i);
    case Sent(i) => SentKeepsOrder(max, l, i);
    case Failed(i) => FailedKeepsOrder(max, l, i);
  }

  lemma OneAtATimeBefore<M>(max: int, es: seq<Event<M>>)
    requires es != [] && OneAtATime(max, es)
    ensures OneAtATime(max, es[..|es| - 1]) && !Overlaps(max, es, |es| - 1)
  {
    var front := es[..|es| - 1];
    forall k | 0 <= k < |front| ensures !Overlaps(max, front, k) {
      assert front[..k] == es[..k] && !Overlaps(max, es, k);
    }
  }

  /** First in, first out: under any pattern of send failures and enqueues mid-drain, what is
      delivered, in flight and queued is a subsequence of the enqueue order, and all of it
      when nothing was evicted - as long as drainers of one peer do not overlap. */
  lemma {:induction false} FifoWithoutOverlap<M>(max: int, es: seq<Event<M>>)
    requires max >= 1 && OneAtATime(max, es)
    ensures InOrder(Run(max, Empty<M>(), es))
  {
    if es != [] {
      OneAtATimeBefore(max, es);
      FifoWithoutOverlap(max, es[..|es| - 1]);
      StepKeepsOrder(max, Run(max, Empty<M>(), es[..|es| - 1]), es[|es| - 1]);
    }
  }

  lemma {:induction false} OnlySlotZero<M>(max: int, es: seq<Event<M>>)
    requires forall k :: 0 <= k < |es| && es[k].Take? ==> es[k].i == 0
    ensures forall i :: 0 < i < |Run(max, Empty<M>(), es).slots| ==> Run(max, Empty<M>(), es).slots[i].None?
  {
    if es != [] {
      var front, e := es[..|es| - 1], es[|es| - 1];
      OnlySlotZero(max, front);
      StepUsesOwnSlot(max, Run(max, Empty<M>(), front), e);
    }
  }

  lemma StepUsesOwnSlot<M>(max: int, l: Lane<M>, e: Event<M>)
    ensures forall i :: 0 <= i < |Step(max, l, e).slots| && Step(max, l, e).slots[i].Some? ==>
      (i < |l.slots| && l.slots[i].Some?) || (e.Take? && e.i == i)
  {
  }

  lemma {:induction false} NoneInFlight<M>(slots: seq<Option<M>>)
    requires forall i :: 0 <= i < |slots| ==> slots[i].None?
    ensures InFlight(slots) == []
  {
    if slots != [] {
      NoneInFlight(slots[..|slots| - 1]);
    }
  }

  /** With one drainer per peer the order is kept unconditionally. */
  lemma SingleDrainerKeepsFifo<M>(max: int, es: seq<Event<M>>)
    requires max >= 1 && forall k :: 0 <= k < |es| && es[k].Take? ==> es[k].i == 0
    ensures InOrder(Run(max, Empty<M>(), es))
  {
    forall k | 0 <= k < |es| ensures !Overlaps(max, es, k) {
      if es[k].Take? {
        OnlySlotZero(max, es[..k]);
        if Idle(Moment(max, es, k), 0) {
          NoneInFlight(Moment(max, es, k).slots);
        }
      }
    }
    FifoWithoutOverlap(max, es);
  }

  lemma {:induction false} LastTwoInOrder<M>(a: seq<M>, x: M, y: M, b: seq<M>) returns (i: nat, j: nat)
    requires IsSubsequence(a + [x] + [y], b)
    ensures i < j < |b| && b[i] == x && b[j] == y
    decreases |b|
  {
    var s := a + [x] + [y];
    var b' := b[..|b| - 1];
    if s[|s| - 1] == b[|b| - 1] && IsSubsequence(s[..|s| - 1], b') {
      assert s[..|s| - 1] == a + [x];
      j := |b| - 1;
      i := LastInside(a, x, b');
    } else {
      i, j := LastTwoInOrder(a, x, y, b');
    }
  }

  lemma {:induction false} LastInside<M>(a: seq<M>, x: M, b: seq<M>) returns (i: nat)
    requires IsSubsequence(a + [x], b)
    ensures i < |b| && b[i] == x
    decreases |b|
  {
    var s, b' := a + [x], b[..|b| - 1];
    if s[|s| - 1] == b[|b| - 1] && IsSubsequence(s[..|s| - 1], b') {
      i := |b| - 1;
    } else {
      i := LastInside(a, x, b');
    }
  }

  ghost predicate Distinct<M>(a: seq<M>)
  {
    forall i, j :: 0 <= i < j < |a| ==> a[i] != a[j]
  }

  /** The condition is needed: whenever two drainers of a peer hold two different messages at
      once, one of the two orders in which their sends may finish delivers out of order. */
  lemma OverlapCanBreakFifo<M>(max: int, l: Lane<M>, i: nat, j: nat)
    requires Holding(l, i) && Holding(l, j) && l.slots[i] != l.slots[j] && Distinct(l.enqueued)
    ensures !IsSubsequence(Run(max, l, [Sent(i), Sent(j)]).delivered, l.enqueued)
         || !IsSubsequence(Run(max, l, [Sent(j), Sent(i)]).delivered, l.enqueued)
  {
    var x, y := l.slots[i].value, l.slots[j].value;
    TwoSends(max, l, i, j);
    TwoSends(max, l, j, i);
    if IsSubsequence(l.delivered + [x] + [y], l.enqueued) {
      var a, b := LastTwoInOrder(l.delivered, x, y, l.enqueued);
      NotBothWays(l.delivered, x, y, l.enqueued, a, b);
    }
  }

  lemma NotBothWays<M>(d: seq<M>, x: M, y: M, enqueued: seq<M>, a: nat, b: nat)
    requires Distinct(enqueued) && a < b < |enqueued| && enqueued[a] == x && enqueued[b] == y
    ensures !IsSubsequence(d + [y] + [x], enqueued)
  {
    if IsSubsequence(d + [y] + [x], enqueued) {
      var c, e := LastTwoInOrder(d, y, x, enqueued);
      assert false;
    }
  }

  lemma TwoSends<M>(max: int, l: Lane<M>, i: nat, j: nat)
    requires Holding(l, i) && Holding(l, j) && i != j
    ensures Run(max, l, [Sent(i), Sent(j)]).delivered == l.delivered + [l.slots[i].value] + [l.slots[j].value]
  {
    var e1, e2 := Event<M>.Sent(i), Event<M>.Sent(j);
    assert [e1, e2][..1] == [e1];
    assert Run(max, l, [e1]) == Step(max, l, e1);
  }

  // ----- exactly when the order is kept -----

  lemma {:induction false} RunConcat<M>(max: int, l: Lane<M>, a: seq<Event<M>>, b: seq<Event<M>>)
    ensures Run(max, l, a + b) == Run(max, Run(max, l, a), b)
    decreases |b|
  {
    if b == [] {
      assert a + b == a;
    } else {
      var front := b[..|b| - 1];
      RunConcat(max, l, a, front);
      assert (a + b)[..|a + b| - 1] == a + front;
    }
  }

  /** The history of enqueues only grows. */
  lemma {:induction false} EnqueuedGrows<M>(max: int, es: seq<Event<M>>, k: nat)
    requires k <= |es|
    ensures Run(max, Empty<M>(), es[..k]).enqueued <= Run(max, Empty<M>(), es).enqueued
  {
    if k < |es| {
      var front := es[..|es| - 1];
      EnqueuedGrows(max, front, k);
      assert front[..k] == es[..k];
    } else {
      assert es[..k] == es;
    }
  }

  lemma DistinctCount<M>(a: seq<M>, m: M)
    requires Distinct(a)
    ensures Count(a, m) <= 1
    decreases |a|
  {
    if a != [] {
      var front := a[..|a| - 1];
      DistinctCount(front, m);
      assert a == front + [a[|a| - 1]];
      assert m == a[|a| - 1] ==> m !in front;
    }
  }

  lemma {:induction false} HeldIsCounted<M>(slots: seq<Option<M>>, i: nat, m: M)
    requires i < |slots| && slots[i] == Some(m)
    ensures Count(InFlight(slots), m) >= 1
  {
    InFlightAt(slots, i);
    CountConcat(InFlight(slots[..i]) + [m], InFlight(slots[i + 1..]), m);
    CountConcat(InFlight(slots[..i]), [m], m);
  }

  lemma HeldTwiceIsCountedTwice<M>(slots: seq<Option<M>>, i: nat, j: nat, m: M)
    requires i < j < |slots| && slots[i] == slots[j] == Some(m)
    ensures Count(InFlight(slots), m) >= 2
  {
    InFlightAt(slots, j);
    HeldIsCounted(slots[..j], i, m);
    CountConcat(InFlight(slots[..j]) + [m], InFlight(slots[j + 1..]), m);
    CountConcat(InFlight(slots[..j]), [m], m);
  }

  /** In a run that enqueues no message twice, two drainers never hold the same message. */
  lemma HeldSlotsDiffer<M>(max: int, es: seq<Event<M>>, i: nat, j: nat)
    requires max >= 1 && i != j
    requires var l := Run(max, Empty<M>(), es); Distinct(l.enqueued) && Holding(l, i) && Holding(l, j)
    ensures Run(max, Empty<M>(), es).slots[i] != Run(max, Empty<M>(), es).slots[j]
  {
    var l := Run(max, Empty<M>(), es);
    var m := l.slots[i].value;
    RunKeepsBalance(max, es, m);
    DistinctCount(l.enqueued, m);
    if l.slots[j] == l.slots[i] {
      HeldTwiceIsCountedTwice(l.slots, if i < j then i else j, if i < j then j else i, m);
    }
  }

  /** From l on, however the sends in progress finish, what was delivered is in enqueue order. */
  ghost predicate SendsInOrder<M(!new)>(max: int, l: Lane<M>)
  {
    forall fs: seq<Event<M>> :: OnlySends(fs) ==> IsSubsequence(Run(max, l, fs).delivered, l.enqueued)
  }

  ghost predicate OnlySends<M>(fs: seq<Event<M>>)
  {
    forall i :: 0 <= i < |fs| ==> fs[i].Sent?
  }

  lemma {:induction false} SendsEnqueueNothing<M>(max: int, l: Lane<M>, fs: seq<Event<M>>)
    requires OnlySends(fs)
    ensures Run(max, l, fs).enqueued == l.enqueued
  {
    if fs != [] {
      SendsEnqueueNothing(max, l, fs[..|fs| - 1]);
      assert fs[|fs| - 1].Sent?;
    }
  }

  lemma {:induction false} PrefixOfSubsequence<M>(a: seq<M>, b: seq<M>, enqueued: seq<M>)
    requires IsSubsequence(a + b, enqueued)
    ensures IsSubsequence(a, enqueued)
    decreases |b|
  {
    if b == [] {
      assert a + b == a;
    } else {
      var front := b[..|b| - 1];
      assert a + b == (a + front) + [b[|b| - 1]];
      DropLast(a + front, b[|b| - 1], enqueued);
      PrefixOfSubsequence(a, front, enqueued);
    }
  }

  lemma TakesSameInPrefix<M>(max: int, es: seq<Event<M>>, p: nat, fs: seq<Event<M>>)
    requires OneAtATime(max, es) && p <= |es| && OnlySends(fs)
    ensures OneAtATime(max, es[..p] + fs)
  {
    var all := es[..p] + fs;
    forall k | 0 <= k < |all| ensures !Overlaps(max, all, k) {
      if k < p {
        assert all[..k] == es[..k] && all[k] == es[k] && !Overlaps(max, es, k);
      } else {
        assert all[k] == fs[k - p];
      }
    }
  }

  lemma OneAtATimeSendsInOrder<M(!new)>(max: int, es: seq<Event<M>>, p: nat)
    requires max >= 1 && OneAtATime(max, es) && p <= |es|
    ensures SendsInOrder(max, Moment(max, es, p))
  {
    var l := Run(max, Empty<M>(), es[..p]);
    forall fs: seq<Event<M>> | OnlySends(fs) ensures IsSubsequence(Run(max, l, fs).delivered, l.enqueued) {
      TakesSameInPrefix(max, es, p, fs);
      FifoWithoutOverlap(max, es[..p] + fs);
      RunConcat(max, Empty<M>(), es[..p], fs);
      SendsEnqueueNothing(max, l, fs);
      var last := Run(max, l, fs);
      Joined(last.delivered, InFlight(last.slots), last.queue);
      PrefixOfSubsequence(last.delivered, InFlight(last.slots) + last.queue, l.enqueued);
    }
  }

  lemma {:induction false} SomeoneHolds<M>(slots: seq<Option<M>>) returns (j: nat)
    requires InFlight(slots) != []
    ensures j < |slots| && slots[j].Some?
  {
    j := |slots| - 1;
    if slots[j].None? {
      j := SomeoneHolds(slots[..|slots| - 1]);
    }
  }

  lemma TakeMakesTwoHolders<M>(max: int, l: Lane<M>, e: Event<M>) returns (j: nat)
    requires Takes(l, e) && InFlight(l.slots) != []
    ensures e.i != j && Holding(Step(max, l, e), e.i) && Holding(Step(max, l, e), j)
  {
    j := SomeoneHolds(l.slots);
  }

  lemma TwoHoldersBreakOrder<M(!new)>(max: int, l: Lane<M>, i: nat, j: nat)
    requires Holding(l, i) && Holding(l, j) && l.slots[i] != l.slots[j] && Distinct(l.enqueued)
    ensures !SendsInOrder(max, l)
  {
    OverlapCanBreakFifo(max, l, i, j);
    var f, g := [Event<M>.Sent(i), Event<M>.Sent(j)], [Event<M>.Sent(j), Event<M>.Sent(i)];
    assert OnlySends(f) && OnlySends(g);
  }

  lemma EnqueuedStaysDistinct<M>(max: int, es: seq<Event<M>>, k: nat)
    requires k <= |es| && Distinct(Run(max, Empty<M>(), es).enqueued)
    ensures Distinct(Run(max, Empty<M>(), es[..k]).enqueued)
  {
    EnqueuedGrows(max, es, k);
  }

  /** A take while another message is in flight: one of the two orders of completion breaks it. */
  lemma OverlapBreaksOrder<M(!new)>(max: int, es: seq<Event<M>>, e: Event<M>)
    requires max >= 1 && Distinct(Run(max, Empty<M>(), es + [e]).enqueued)
    requires var l := Run(max, Empty<M>(), es); Takes(l, e) && InFlight(l.slots) != []
    ensures !SendsInOrder(max, Run(max, Empty<M>(), es + [e]))
  {
    RunOneMore(max, Empty<M>(), es, e);
    var j := TakeMakesTwoHolders(max, Run(max, Empty<M>(), es), e);
    HeldSlotsDiffer(max, es + [e], e.i, j);
    TwoHoldersBreakOrder(max, Run(max, Empty<M>(), es + [e]), e.i, j);
  }

  ghost predicate AlwaysInOrder<M(!new)>(max: int, es: seq<Event<M>>)
  {
    forall p :: 0 <= p <= |es| ==> SendsInOrder(max, Moment(max, es, p))
  }

  lemma MomentAfter<M>(max: int, es: seq<Event<M>>, k: nat)
    requires k < |es|
    ensures Moment(max, es, k + 1) == Run(max, Empty<M>(), es[..k] + [es[k]])
  {
    assert es[..k + 1] == es[..k] + [es[k]];
  }

  lemma OverlapIsFelt<M(!new)>(max: int, es: seq<Event<M>>, k: nat)
    requires max >= 1 && Distinct(Run(max, Empty<M>(), es).enqueued) && k < |es| && Overlaps(max, es, k)
    ensures !SendsInOrder(max, Moment(max, es, k + 1))
  {
    EnqueuedStaysDistinct(max, es, k + 1);
    MomentAfter(max, es, k);
    OverlapBreaksOrder(max, es[..k], es[k]);
  }

  /** Exactly when the order is kept: at every moment of a run, however the sends then in progress
      finish, the deliveries are in enqueue order - if and only if no drainer gets a message
      while another one is in flight. */
  lemma InOrderIffOneAtATime<M(!new)>(max: int, es: seq<Event<M>>)
    requires max >= 1 && Distinct(Run(max, Empty<M>(), es).enqueued)
    ensures AlwaysInOrder(max, es) <==> OneAtATime(max, es)
  {
    if OneAtATime(max, es) {
      forall p | 0 <= p <= |es| ensures SendsInOrder(max, Moment(max, es, p)) {
        OneAtATimeSendsInOrder(max, es, p);
      }
    } else {
      var k :| 0 <= k < |es| && Overlaps(max, es, k);
      OverlapIsFelt(max, es, k);
    }
  }

  /** Such a state is reached as soon as two direct sends fail: the Python node starts one
      drainer per failure and nothing keeps them apart. */
  lemma TwoFailuresReachOverlap<M>(max: int, x: M, y: M)
    requires max >= 2
    ensures var l := Run(max, Empty<M>(), [Dispatch(x), Dispatch(y), Take(0), Take(1)]);
      && Holding(l, 0) && Holding(l, 1) && l.slots[0] == Some(x) && l.slots[1] == Some(y)
      && l.enqueued == [x, y]
  {
    var e1, e2, e3, e4 := Dispatch(x), Dispatch(y), Event<M>.Take(0), Event<M>.Take(1);
    var start, l := Empty<M>(), Lane([x, y], [None, None], [x, y], [], []);
    assert [e1] + [e2] == [e1, e2] && [e1, e2] + [e3] == [e1, e2, e3] && [e1, e2, e3] + [e4] == [e1, e2, e3, e4];
    RunOneMore(max, start, [], e1);
    assert [] + [e1] == [e1];
    RunOneMore(max, start, [e1], e2);
    assert Run(max, start, [e1, e2]) == l;
    RunOneMore(max, start, [e1, e2], e3);
    RunOneMore(max, start, [e1, e2, e3], e4);
  }

  // ----- the TypeScript drain -----

  /** `drainNext` runs to completion inside one `open` event: `ok` sends succeed, then either
      the queue is empty or the next send throws and its message goes back to the front. */
  function SyncDrain<M>(max: int, q: seq<M>, ok: nat): (seq<M>, seq<M>)
    decreases ok
  {
    if q == [] then ([], [])
    else if ok == 0 then ([], Front(max, q[1..], q[0]).0)
    else
      var (sent, left) := SyncDrain(max, q[1..], ok - 1);
      ([q[0]] + sent, left)
  }

  datatype TsEvent<M> = TsDispatch(m: M) | TsOpen(ok: nat)

  datatype TsLane<M> = TsLane(queue: seq<M>, enqueued: seq<M>, delivered: seq<M>, evicted: seq<M>)

  function TsStep<M>(max: int, l: TsLane<M>, e: TsEvent<M>): TsLane<M>
  {
    match e
    case TsDispatch(m) =>
      var (q, room) := Back(max, l.queue, m);
      TsLane(q, l.enqueued + [m], l.delivered, l.evicted + Victims(room))
    case TsOpen(ok) =>
      var (sent, q) := SyncDrain(max, l.queue, ok);
      l.(queue := q, delivered := l.delivered + sent)
  }

  function TsRun<M>(max: int, es: seq<TsEvent<M>>): TsLane<M>
  {
    if es == [] then TsLane([], [], [], []) else TsStep(max, TsRun(max, es[..|es| - 1]), es[|es| - 1])
  }

  /** A synchronous drain hands over a prefix of the queue and leaves the rest as it was. */
  lemma {:induction false} SyncDrainTakesPrefix<M>(max: int, q: seq<M>, ok: nat)
    requires |q| <= max
    ensures var (sent, left) := SyncDrain(max, q, ok);
      q == sent + left && |sent| == if ok < |q| then ok else |q|
    decreases ok
  {
    if q != [] && ok > 0 {
      SyncDrainTakesPrefix(max, q[1..], ok - 1);
      var (sent, left) := SyncDrain(max, q[1..], ok - 1);
      assert q == [q[0]] + (sent + left);
    }
  }

  /** The TypeScript drain keeps the enqueue order for any number of reconnect attempts and
      any pattern of failures, with no condition on overlap. */
  lemma {:induction false} TsFifo<M>(max: int, es: seq<TsEvent<M>>)
    requires max >= 1
    ensures var l := TsRun<M>(max, es);
      && |l.queue| <= max
      && IsSubsequence(l.delivered + l.queue, l.enqueued)
      && (l.evicted == [] ==> l.delivered + l.queue == l.enqueued)
  {
    if es != [] {
      TsFifo(max, es[..|es| - 1]);
      var l := TsRun<M>(max, es[..|es| - 1]);
      match es[|es| - 1]
      case TsDispatch(m) =>
        ExtendBoth(l.delivered + l.queue, l.enqueued, m);
        BackConserves(max, l.queue, m);
        RoomAtFront(l.delivered, l.queue, m, Back(max, l.queue, m).0, Back(max, l.queue, m).1, l.enqueued + [m]);
      case TsOpen(ok) =>
        SyncDrainTakesPrefix(max, l.queue, ok);
        var (sent, q) := SyncDrain(max, l.queue, ok);
        assert l.delivered + sent + q == l.delivered + (sent + q);
    }
  }
}
