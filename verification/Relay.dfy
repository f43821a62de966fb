/** The A-DNS relay as a state machine over connections, challenges and the registry.  A step is
    what one handler does between two suspensions, so handlers may interleave freely. */
module Relay {
  import opened Wrappers
  import opened Limiters

  const BROADCAST := "00000000-0000-0000-0000-000000000000"
  const DEFAULT_TTL := 30
  const CHALLENGE_SPAN := 300.0
  const KEY_LENGTH := 32

  datatype Registration = Registration(ws: nat, key: string)

  datatype Challenge = Challenge(ws: nat, nonce: string, key: string, at: real)

  /** What happened, oldest first. */
  datatype Note =
    | Asked(ip: string, at: real, admitted: bool)
    | Issued(nonce: string, id: string, key: string)
    | Registered(id: string, ws: nat, key: string, nonce: string, signature: string)

  /** `open` maps each connection whose handler still runs to its address; `history` is ghost
      bookkeeping that no decision reads. */
  datatype RelayState = RelayState(
    registry: map<string, Registration>,
    pending: map<string, Challenge>,
    challengeLogs: map<string, seq<real>>,
    open: map<nat, string>,
    history: seq<Note>)

  /** Library code: the key named by a handshake's content, the decoded length of a base64 text,
      and Ed25519 verification of (key, signature, nonce). */
  datatype Crypto = Crypto(
    publicKey: string -> Option<string>,
    keyLength: string -> Option<nat>,
    verify: (string, string, string) -> bool)

  /** `""` stands for a missing id or content; `rest` is everything the relay never looks at. */
  datatype Envelope = Envelope(intent: string, sender: string, receiver: string, ttl: Option<int>, content: string, rest: string)

  /** How an attempted send ended. */
  datatype Delivery = Sent | ConnectionClosed | OtherError

  datatype Event =
    | Connect(ws: nat, ip: string)
    | Message(ws: nat, envelope: Envelope, now: real, nonce: string, delivery: string -> Delivery)
    | ChallengeLost(id: string)     // sending the challenge raised
    | Deregister(id: string)        // the late deletions after a suspended fan-out or unicast
    | Disconnect(ws: nat)

  // ----- authentication -----

  function Unexpired(pending: map<string, Challenge>, now: real): map<string, Challenge>
  {
    map id | id in pending && !(now - pending[id].at > CHALLENGE_SPAN) :: pending[id]
  }

  function LogOf(r: RelayState, ip: string): seq<real>
  {
    if ip in r.challengeLogs then r.challengeLogs[ip] else []
  }

  /** The key a challenge would be about, when the handshake names a usable one. */
  function UsableKey(c: Crypto, content: string): Option<string>
  {
    match c.publicKey(content)
    case None => None
    case Some(key) => if c.keyLength(key) == Some(KEY_LENGTH) then Some(key) else None
  }

  function InitiateChallenge(c: Crypto, r: RelayState, ws: nat, id: string, content: string, now: real, nonce: string): RelayState
    requires ws in r.open
  {
    var ip := r.open[ws];
    var (log, admitted) := AdmitChallenge(LogOf(r, ip), now);
    var asked := RelayState(r.registry, Unexpired(r.pending, now), r.challengeLogs[ip := log], r.open, r.history + [Asked(ip, now, admitted)]);
    if admitted && UsableKey(c, content).Some? then
      Issue(asked, ws, id, UsableKey(c, content).value, now, nonce)
    else
      asked
  }

  function Issue(r: RelayState, ws: nat, id: string, key: string, now: real, nonce: string): RelayState
  {
    r.(pending := r.pending[id := Challenge(ws, nonce, key, now)], history := r.history + [Issued(nonce, id, key)])
  }

  function HandleChallengeResponse(c: Crypto, r: RelayState, ws: nat, id: string, signature: string): RelayState
  {
    if id !in r.pending then r
    else if signature != "" && c.verify(r.pending[id].key, signature, r.pending[id].nonce) then
      Complete(r, ws, id, r.pending[id].key, r.pending[id].nonce, signature)
    else
      r.(pending := r.pending - {id})
  }

  function Complete(r: RelayState, ws: nat, id: string, key: string, nonce: string, signature: string): RelayState
  {
    r.(registry := r.registry[id := Registration(ws, key)], pending := r.pending - {id},
       history := r.history + [Registered(id, ws, key, nonce, signature)])
  }

  // ----- routing -----

  function Ttl(m: Envelope): int
  {
    m.ttl.GetOr(DEFAULT_TTL)
  }

  function Forwarded(m: Envelope): Envelope
  {
    m.(ttl := Some(Ttl(m) - 1))
  }

  /** The peers a verified sender's message is sent to. */
  function Targets(registry: map<string, Registration>, m: Envelope): set<string>
  {
    if Ttl(m) <= 0 then {}
    else if m.receiver == BROADCAST then registry.Keys - {m.sender}
    else if m.receiver != "" && m.receiver in registry && m.receiver != m.sender then {m.receiver}
    else {}
  }

  /** A fan-out drops every peer whose send raised, a unicast only one found closed. */
  function Unreachable(registry: map<string, Registration>, m: Envelope, delivery: string -> Delivery): set<string>
  {
    set p | p in Targets(registry, m) &&
      (delivery(p) == ConnectionClosed || (m.receiver == BROADCAST && delivery(p) == OtherError))
  }

  // ----- the machine -----

  function OnMessage(c: Crypto, r: RelayState, ws: nat, m: Envelope, now: real, nonce: string, delivery: string -> Delivery): RelayState
    requires ws in r.open
  {
    if m.sender == "" then r
    else if m.intent == "Challenge_Response" then HandleChallengeResponse(c, r, ws, m.sender, m.content)
    else if m.sender !in r.registry then
      if m.sender in r.pending then r else InitiateChallenge(c, r, ws, m.sender, m.content, now, nonce)
    else if r.registry[m.sender].ws != ws then InitiateChallenge(c, r, ws, m.sender, m.content, now, nonce)
    else r.(registry := r.registry - Unreachable(r.registry, m, delivery))
  }

  function Forget(r: RelayState, ws: nat): RelayState
  {
    RelayState(
      map id | id in r.registry && r.registry[id].ws != ws :: r.registry[id],
      map id | id in r.pending && r.pending[id].ws != ws :: r.pending[id],
      r.challengeLogs, r.open - {ws}, r.history)
  }

  function Step(c: Crypto, r: RelayState, e: Event): RelayState
  {
    match e
    case Connect(ws, ip) => if ws in r.open then r else r.(open := r.open[ws := ip])
    case Message(ws, m, now, nonce, delivery) => if ws in r.open then OnMessage(c, r, ws, m, now, nonce, delivery) else r
    case ChallengeLost(id) => r.(pending := r.pending - {id})
    case Deregister(id) => r.(registry := r.registry - {id})
    case Disconnect(ws) => Forget(r, ws)
  }

  const EMPTY := RelayState(map[], map[], map[], map[], [])

  function Run(c: Crypto, r: RelayState, es: seq<Event>): RelayState
  {
    if es == [] then r else Step(c, Run(c, r, es[..|es| - 1]), es[|es| - 1])
  }

  // ----- what the history says -----

  function LatestRegistration(history: seq<Note>, id: string): Option<Registration>
  {
    if history == [] then None
    else
      var last := history[|history| - 1];
      if last.Registered? && last.id == id then Some(Registration(last.ws, last.key))
      else LatestRegistration(history[..|history| - 1], id)
  }

  /** Every registration followed the challenge it answers, correctly signed. */
  ghost predicate Earned(c: Crypto, history: seq<Note>)
  {
    history != [] ==>
      var front, last := history[..|history| - 1], history[|history| - 1];
      Earned(c, front) && (last.Registered? ==>
        c.verify(last.key, last.signature, last.nonce) && Issued(last.nonce, last.id, last.key) in front)
  }

  predicate Spent(history: seq<Note>, nonce: string)
  {
    exists j :: 0 <= j < |history| && history[j].Registered? && history[j].nonce == nonce
  }

  ghost predicate NeverSpentTwice(history: seq<Note>)
  {
    forall i, j :: 0 <= i < j < |history| && history[i].Registered? && history[j].Registered? ==> history[i].nonce != history[j].nonce
  }

  ghost predicate Safe(c: Crypto, r: RelayState)
  {
    && Earned(c, r.history)
    && (forall id :: id in r.registry ==> r.registry[id].ws in r.open && LatestRegistration(r.history, id) == Some(r.registry[id]))
    && (forall id :: id in r.pending ==> r.pending[id].ws in r.open && Issued(r.pending[id].nonce, id, r.pending[id].key) in r.history)
  }

  /** Nonces so far are among `used`; those still pending are distinct and unspent. */
  ghost predicate SingleUse(r: RelayState, used: set<string>)
  {
    && NeverSpentTwice(r.history)
    && (forall n :: n in r.history && n.Registered? ==> n.nonce in used)
    && (forall id :: id in r.pending ==> r.pending[id].nonce in used && !Spent(r.history, r.pending[id].nonce))
    && (forall id, id' :: id in r.pending && id' in r.pending && r.pending[id].nonce == r.pending[id'].nonce ==> id == id')
  }

  ghost predicate Within<K, V>(a: map<K, V>, b: map<K, V>)
  {
    forall k :: k in a ==> k in b && a[k] == b[k]
  }

  /** r' forgets some entries of r and changes nothing else that matters. */
  ghost predicate Fewer(r': RelayState, r: RelayState)
  {
    && Within(r'.registry, r.registry) && Within(r'.pending, r.pending) && r'.history == r.history
    && (forall id :: id in r'.registry ==> r'.registry[id].ws in r'.open)
    && (forall id :: id in r'.pending ==> r'.pending[id].ws in r'.open)
  }

  lemma FewerKeepsSafe(c: Crypto, r: RelayState, r': RelayState)
    requires Safe(c, r) && Fewer(r', r)
    ensures Safe(c, r')
  {
  }

  lemma FewerKeepsSingleUse(r: RelayState, r': RelayState, used: set<string>)
    requires SingleUse(r, used) && Fewer(r', r)
    ensures SingleUse(r', used)
  {
  }

  lemma AskKeepsSafe(c: Crypto, r: RelayState, x: Note)
    requires Safe(c, r) && x.Asked?
    ensures Safe(c, r.(history := r.history + [x]))
  {
    assert (r.history + [x])[..|r.history|] == r.history;
  }

  lemma IssueKeepsSafe(c: Crypto, r: RelayState, ws: nat, id: string, key: string, now: real, nonce: string)
    requires Safe(c, r) && ws in r.open
    ensures Safe(c, Issue(r, ws, id, key, now, nonce))
  {
    var x := Issued(nonce, id, key);
    assert (r.history + [x])[..|r.history|] == r.history;
    assert x in r.history + [x];
  }

  lemma CompleteKeepsSafe(c: Crypto, r: RelayState, ws: nat, id: string, signature: string)
    requires Safe(c, r) && ws in r.open && id in r.pending && c.verify(r.pending[id].key, signature, r.pending[id].nonce)
    ensures Safe(c, Complete(r, ws, id, r.pending[id].key, r.pending[id].nonce, signature))
  {
    var x := Registered(id, ws, r.pending[id].key, r.pending[id].nonce, signature);
    assert (r.history + [x])[..|r.history|] == r.history;
  }

  lemma StepKeepsSafe(c: Crypto, r: RelayState, e: Event)
    requires Safe(c, r)
    ensures Safe(c, Step(c, r, e))
  {
    match e
    case Message(ws, m, now, nonce, delivery) =>
      if ws in r.open && m.sender != "" {
        if m.intent == "Challenge_Response" {
          ResponseKeepsSafe(c, r, ws, m.sender, m.content);
        } else {
          InitiateKeepsSafe(c, r, ws, m.sender, m.content, now, nonce);
        }
      }
    case _ =>
      FewerKeepsSafe(c, r, Step(c, r, e));
  }

  lemma ResponseKeepsSafe(c: Crypto, r: RelayState, ws: nat, id: string, signature: string)
    requires Safe(c, r) && ws in r.open
    ensures Safe(c, HandleChallengeResponse(c, r, ws, id, signature))
  {
    if id in r.pending && signature != "" && c.verify(r.pending[id].key, signature, r.pending[id].nonce) {
      CompleteKeepsSafe(c, r, ws, id, signature);
    }
  }

  lemma InitiateKeepsSafe(c: Crypto, r: RelayState, ws: nat, id: string, content: string, now: real, nonce: string)
    requires Safe(c, r) && ws in r.open
    ensures Safe(c, InitiateChallenge(c, r, ws, id, content, now, nonce))
  {
    var ip := r.open[ws];
    var (log, admitted) := AdmitChallenge(LogOf(r, ip), now);
    var fewer := r.(pending := Unexpired(r.pending, now), challengeLogs := r.challengeLogs[ip := log]);
    FewerKeepsSafe(c, r, fewer);
    AskKeepsSafe(c, fewer, Asked(ip, now, admitted));
    if admitted && UsableKey(c, content).Some? {
      IssueKeepsSafe(c, fewer.(history := r.history + [Asked(ip, now, admitted)]), ws, id, UsableKey(c, content).value, now, nonce);
    }
  }

  lemma {:induction false} RunKeepsSafe(c: Crypto, es: seq<Event>)
    ensures Safe(c, Run(c, EMPTY, es))
  {
    if es != [] {
      RunKeepsSafe(c, es[..|es| - 1]);
      StepKeepsSafe(c, Run(c, EMPTY, es[..|es| - 1]), es[|es| - 1]);
    }
  }

  // ----- nonces -----

  lemma SpentGrows(history: seq<Note>, x: Note, nonce: string)
    ensures Spent(history + [x], nonce) <==> Spent(history, nonce) || (x.Registered? && x.nonce == nonce)
  {
    var more := history + [x];
    if Spent(history, nonce) {
      var j :| 0 <= j < |history| && history[j].Registered? && history[j].nonce == nonce;
      assert more[j] == history[j];
    }
    if x.Registered? && x.nonce == nonce {
      assert more[|history|] == x;
    }
  }

  lemma QuietNoteKeepsSingleUse(r: RelayState, x: Note, used: set<string>)
    requires SingleUse(r, used) && !x.Registered?
    ensures SingleUse(r.(history := r.history + [x]), used)
  {
    forall id | id in r.pending ensures !Spent(r.history + [x], r.pending[id].nonce) {
      SpentGrows(r.history, x, r.pending[id].nonce);
    }
  }

  lemma IssueKeepsSingleUse(r: RelayState, used: set<string>, ws: nat, id: string, key: string, now: real, nonce: string)
    requires SingleUse(r, used) && nonce !in used
    ensures SingleUse(Issue(r, ws, id, key, now, nonce), used + {nonce})
  {
    QuietNoteKeepsSingleUse(r, Issued(nonce, id, key), used);
  }

  lemma CompleteKeepsSingleUse(r: RelayState, used: set<string>, ws: nat, id: string, signature: string)
    requires SingleUse(r, used) && id in r.pending
    ensures SingleUse(Complete(r, ws, id, r.pending[id].key, r.pending[id].nonce, signature), used)
  {
    var x := Registered(id, ws, r.pending[id].key, r.pending[id].nonce, signature);
    var next := Complete(r, ws, id, r.pending[id].key, r.pending[id].nonce, signature);
    forall i, j | 0 <= i < j < |next.history| && next.history[i].Registered? && next.history[j].Registered?
      ensures next.history[i].nonce != next.history[j].nonce
    {
      assert next.history[i] == r.history[i];
    }
    forall id' | id' in next.pending ensures !Spent(next.history, next.pending[id'].nonce) {
      SpentGrows(r.history, x, r.pending[id'].nonce);
    }
  }

  lemma UsedGrows(r: RelayState, used: set<string>, nonce: string)
    requires SingleUse(r, used)
    ensures SingleUse(r, used + {nonce})
  {
  }

  lemma InitiateKeepsSingleUse(c: Crypto, r: RelayState, used: set<string>, ws: nat, id: string, content: string, now: real, nonce: string)
    requires SingleUse(r, used) && nonce !in used && ws in r.open && Safe(c, r)
    ensures SingleUse(InitiateChallenge(c, r, ws, id, content, now, nonce), used + {nonce})
  {
    var ip := r.open[ws];
    var (log, admitted) := AdmitChallenge(LogOf(r, ip), now);
    var fewer := r.(pending := Unexpired(r.pending, now), challengeLogs := r.challengeLogs[ip := log]);
    var x := Asked(ip, now, admitted);
    var asked := fewer.(history := r.history + [x]);
    FewerKeepsSingleUse(r, fewer, used);
    QuietNoteKeepsSingleUse(fewer, x, used);
    if admitted && UsableKey(c, content).Some? {
      IssueKeepsSingleUse(asked, used, ws, id, UsableKey(c, content).value, now, nonce);
    } else {
      UsedGrows(asked, used, nonce);
    }
  }

  /** The nonces drawn along a run, one per message handled. */
  function Drawn(es: seq<Event>): set<string>
  {
    if es == [] then {}
    else Drawn(es[..|es| - 1]) + if es[|es| - 1].Message? then {es[|es| - 1].nonce} else {}
  }

  /** 32 random bytes never repeat. */
  ghost predicate FreshNonces(es: seq<Event>)
  {
    es != [] ==>
      var front, last := es[..|es| - 1], es[|es| - 1];
      FreshNonces(front) && (last.Message? ==> last.nonce !in Drawn(front))
  }

  lemma MessageKeepsSingleUse(c: Crypto, r: RelayState, ws: nat, m: Envelope, now: real, nonce: string, delivery: string -> Delivery, used: set<string>)
    requires Safe(c, r) && SingleUse(r, used) && nonce !in used && ws in r.open
    ensures SingleUse(OnMessage(c, r, ws, m, now, nonce, delivery), used + {nonce})
  {
    UsedGrows(r, used, nonce);
    if m.sender == "" {
    } else if m.intent == "Challenge_Response" {
      ResponseKeepsSingleUse(c, r, used, nonce, ws, m.sender, m.content);
    } else if m.sender !in r.registry || r.registry[m.sender].ws != ws {
      InitiateKeepsSingleUse(c, r, used, ws, m.sender, m.content, now, nonce);
    } else {
      FewerKeepsSingleUse(r, r.(registry := r.registry - Unreachable(r.registry, m, delivery)), used + {nonce});
    }
  }

  lemma StepKeepsSingleUse(c: Crypto, r: RelayState, e: Event, used: set<string>)
    requires Safe(c, r) && SingleUse(r, used) && (e.Message? ==> e.nonce !in used)
    ensures SingleUse(Step(c, r, e), used + if e.Message? then {e.nonce} else {})
  {
    if e.Message? {
      UsedGrows(r, used, e.nonce);
      if e.ws in r.open {
        MessageKeepsSingleUse(c, r, e.ws, e.envelope, e.now, e.nonce, e.delivery, used);
      }
    } else {
      FewerKeepsSingleUse(r, Step(c, r, e), used);
      assert used + {} == used;
    }
  }

  lemma ResponseKeepsSingleUse(c: Crypto, r: RelayState, used: set<string>, nonce: string, ws: nat, id: string, signature: string)
    requires Safe(c, r) && SingleUse(r, used) && ws in r.open
    ensures SingleUse(HandleChallengeResponse(c, r, ws, id, signature), used + {nonce})
  {
    UsedGrows(r, used, nonce);
    if id in r.pending && signature != "" && c.verify(r.pending[id].key, signature, r.pending[id].nonce) {
      CompleteKeepsSingleUse(r, used + {nonce}, ws, id, signature);
    }
  }

  lemma {:induction false} RunKeepsSingleUse(c: Crypto, es: seq<Event>)
    requires FreshNonces(es)
    ensures SingleUse(Run(c, EMPTY, es), Drawn(es))
  {
    if es != [] {
      var front := es[..|es| - 1];
      RunKeepsSingleUse(c, front);
      RunKeepsSafe(c, front);
      StepKeepsSingleUse(c, Run(c, EMPTY, front), es[|es| - 1], Drawn(front));
    }
  }

  // ----- the main results -----

  /** Where the latest registration of id stands in the history, and where the challenge it answered. */
  lemma {:induction false} LatestWasEarned(c: Crypto, history: seq<Note>, id: string) returns (i: nat, j: nat)
    requires Earned(c, history) && LatestRegistration(history, id).Some?
    ensures i < j < |history| && history[j].Registered? && history[j].id == id
    ensures LatestRegistration(history, id) == Some(Registration(history[j].ws, history[j].key))
    ensures history[i] == Issued(history[j].nonce, id, history[j].key)
    ensures c.verify(history[j].key, history[j].signature, history[j].nonce)
    ensures forall k :: j < k < |history| && history[k].Registered? ==> history[k].id != id
  {
    var front, last := history[..|history| - 1], history[|history| - 1];
    if last.Registered? && last.id == id {
      j := |history| - 1;
      i :| 0 <= i < |front| && front[i] == Issued(last.nonce, id, last.key);
    } else {
      i, j := LatestWasEarned(c, front, id);
      assert forall k :: 0 <= k < |front| ==> history[k] == front[k];
    }
  }

  /** In every run each registry entry is the outcome of the latest registration of its id, which a
      verified signature under the stored key over a nonce issued earlier for that id completed; and
      every registry or pending entry refers to a connection whose handler still runs. */
  lemma RegistryIsEarnedInEveryRun(c: Crypto, es: seq<Event>, id: string) returns (i: nat, j: nat)
    ensures var r := Run(c, EMPTY, es);
      && (id in r.registry ==> r.registry[id].ws in r.open)
      && (id in r.pending ==> r.pending[id].ws in r.open)
      && (id in r.registry ==>
        && i < j < |r.history|
        && r.history[j].Registered? && r.history[j].id == id
        && r.history[i] == Issued(r.history[j].nonce, id, r.registry[id].key)
        && r.registry[id] == Registration(r.history[j].ws, r.history[j].key)
        && c.verify(r.registry[id].key, r.history[j].signature, r.history[j].nonce)
        && forall k :: j < k < |r.history| && r.history[k].Registered? ==> r.history[k].id != id)
  {
    RunKeepsSafe(c, es);
    var r := Run(c, EMPTY, es);
    i, j := 0, 0;
    if id in r.registry {
      i, j := LatestWasEarned(c, r.history, id);
    }
  }

  /** No nonce completes two registrations, and none still awaiting an answer has completed one. */
  lemma NoNonceCompletesTwice(c: Crypto, es: seq<Event>)
    requires FreshNonces(es)
    ensures var r := Run(c, EMPTY, es);
      && (forall i, j :: 0 <= i < j < |r.history| && r.history[i].Registered? && r.history[j].Registered? ==> r.history[i].nonce != r.history[j].nonce)
      && (forall id, j :: id in r.pending && 0 <= j < |r.history| && r.history[j].Registered? ==> r.history[j].nonce != r.pending[id].nonce)
  {
    RunKeepsSingleUse(c, es);
  }

  // ----- challenge limiter -----

  function AskedTimes(history: seq<Note>, ip: string): seq<real>
  {
    if history == [] then []
    else
      var last := history[|history| - 1];
      AskedTimes(history[..|history| - 1], ip) + if last.Asked? && last.ip == ip then [last.at] else []
  }

  function AdmittedTimes(history: seq<Note>, ip: string): seq<real>
  {
    if history == [] then []
    else
      var last := history[|history| - 1];
      AdmittedTimes(history[..|history| - 1], ip) + if last.Asked? && last.ip == ip && last.admitted then [last.at] else []
  }

  /** The address's log is the sliding-log limiter's after all its requests, none later than t. */
  ghost predicate Paced(r: RelayState, ip: string, t: real)
  {
    var asked := AskedTimes(r.history, ip);
    && Ascending(asked) && (asked != [] ==> asked[|asked| - 1] <= t)
    && LogOf(r, ip) == LogAfter(asked)
    && AdmittedTimes(r.history, ip) == Admitted(asked)
  }

  /** Messages are handled at non-decreasing times, none after t. */
  ghost predicate Timed(es: seq<Event>, t: real)
  {
    es != [] ==>
      var front, last := es[..|es| - 1], es[|es| - 1];
      if last.Message? then last.now <= t && Timed(front, last.now) else Timed(front, t)
  }

  lemma PacedLater(r: RelayState, ip: string, t: real, t': real)
    requires Paced(r, ip, t) && t <= t'
    ensures Paced(r, ip, t')
  {
  }

  lemma QuietNoteKeepsTimes(history: seq<Note>, x: Note, ip: string)
    requires x.Asked? ==> x.ip != ip
    ensures AskedTimes(history + [x], ip) == AskedTimes(history, ip)
    ensures AdmittedTimes(history + [x], ip) == AdmittedTimes(history, ip)
  {
    assert (history + [x])[..|history|] == history;
  }

  lemma AskingTimes(history: seq<Note>, ip: string, at: real, admitted: bool)
    ensures AskedTimes(history + [Asked(ip, at, admitted)], ip) == AskedTimes(history, ip) + [at]
    ensures AdmittedTimes(history + [Asked(ip, at, admitted)], ip) == AdmittedTimes(history, ip) + if admitted then [at] else []
  {
    var x := Asked(ip, at, admitted);
    assert (history + [x])[..|history|] == history;
  }

  lemma LaterStaysAscending(times: seq<real>, now: real)
    requires Ascending(times) && (times != [] ==> times[|times| - 1] <= now)
    ensures Ascending(times + [now])
  {
    forall i, j | 0 <= i <= j < |times + [now]| ensures (times + [now])[i] <= (times + [now])[j] {
      if i < |times| {
        assert times[i] <= times[|times| - 1];
      }
    }
  }

  lemma LogAfterOneMore(times: seq<real>, now: real)
    ensures LogAfter(times + [now]) == AdmitChallenge(LogAfter(times), now).0
  {
    assert (times + [now])[..|times|] == times;
  }

  /** One more request at an address. */
  lemma AskOnce(times: seq<real>, log: seq<real>, now: real)
    requires Ascending(times) && (times != [] ==> times[|times| - 1] <= now) && log == LogAfter(times)
    ensures var (log', admitted) := AdmitChallenge(log, now);
      && Ascending(times + [now])
      && log' == LogAfter(times + [now])
      && Admitted(times + [now]) == Admitted(times) + if admitted then [now] else []
  {
    LaterStaysAscending(times, now);
    LogAfterOneMore(times, now);
    ChallengeAdmittedIff(times, now);
  }

  lemma AskKeepsPaced(r: RelayState, asked: RelayState, client: string, now: real, ip: string)
    requires Paced(r, ip, now)
    requires var (log, admitted) := AdmitChallenge(LogOf(r, client), now);
      asked.challengeLogs == r.challengeLogs[client := log] && asked.history == r.history + [Asked(client, now, admitted)]
    ensures Paced(asked, ip, now)
  {
    var (log, admitted) := AdmitChallenge(LogOf(r, client), now);
    if client == ip {
      AskingTimes(r.history, ip, now, admitted);
      AskOnce(AskedTimes(r.history, ip), LogOf(r, ip), now);
      assert LogOf(asked, ip) == log;
    } else {
      QuietNoteKeepsTimes(r.history, Asked(client, now, admitted), ip);
      assert LogOf(asked, ip) == LogOf(r, ip);
    }
  }

  lemma SameLogsKeepPaced(r: RelayState, r': RelayState, x: Note, ip: string, t: real)
    requires Paced(r, ip, t) && !x.Asked?
    requires r'.challengeLogs == r.challengeLogs && (r'.history == r.history || r'.history == r.history + [x])
    ensures Paced(r', ip, t)
  {
    QuietNoteKeepsTimes(r.history, x, ip);
    assert LogOf(r', ip) == LogOf(r, ip);
  }

  lemma ResponseKeepsPaced(c: Crypto, r: RelayState, ws: nat, id: string, signature: string, ip: string, t: real)
    requires Paced(r, ip, t)
    ensures Paced(HandleChallengeResponse(c, r, ws, id, signature), ip, t)
  {
    if id in r.pending {
      var x := Registered(id, ws, r.pending[id].key, r.pending[id].nonce, signature);
      SameLogsKeepPaced(r, HandleChallengeResponse(c, r, ws, id, signature), x, ip, t);
    }
  }

  lemma RouteKeepsPaced(r: RelayState, r': RelayState, ip: string, t: real)
    requires Paced(r, ip, t) && r'.challengeLogs == r.challengeLogs && r'.history == r.history
    ensures Paced(r', ip, t)
  {
    assert LogOf(r', ip) == LogOf(r, ip);
  }

  lemma MessageKeepsPaced(c: Crypto, r: RelayState, ws: nat, m: Envelope, now: real, nonce: string, delivery: string -> Delivery, ip: string)
    requires Paced(r, ip, now) && ws in r.open
    ensures Paced(OnMessage(c, r, ws, m, now, nonce, delivery), ip, now)
  {
    if m.sender == "" {
    } else if m.intent == "Challenge_Response" {
      ResponseKeepsPaced(c, r, ws, m.sender, m.content, ip, now);
    } else if m.sender !in r.registry || r.registry[m.sender].ws != ws {
      InitiateKeepsPaced(c, r, ws, m.sender, m.content, now, nonce, ip);
    } else {
      RouteKeepsPaced(r, r.(registry := r.registry - Unreachable(r.registry, m, delivery)), ip, now);
    }
  }

  lemma StepKeepsPaced(c: Crypto, r: RelayState, e: Event, ip: string, t: real)
    requires Paced(r, ip, t) && (e.Message? ==> t == e.now)
    ensures Paced(Step(c, r, e), ip, t)
  {
    if e.Message? {
      if e.ws in r.open {
        MessageKeepsPaced(c, r, e.ws, e.envelope, e.now, e.nonce, e.delivery, ip);
      }
    } else {
      RouteKeepsPaced(r, Step(c, r, e), ip, t);
    }
  }

  lemma InitiateKeepsPaced(c: Crypto, r: RelayState, ws: nat, id: string, content: string, now: real, nonce: string, ip: string)
    requires Paced(r, ip, now) && ws in r.open
    ensures Paced(InitiateChallenge(c, r, ws, id, content, now, nonce), ip, now)
  {
    var client := r.open[ws];
    var (log, admitted) := AdmitChallenge(LogOf(r, client), now);
    var asked := RelayState(r.registry, Unexpired(r.pending, now), r.challengeLogs[client := log], r.open, r.history + [Asked(client, now, admitted)]);
    AskKeepsPaced(r, asked, client, now, ip);
    if admitted && UsableKey(c, content).Some? {
      var key := UsableKey(c, content).value;
      SameLogsKeepPaced(asked, Issue(asked, ws, id, key, now, nonce), Issued(nonce, id, key), ip, now);
    }
  }

  lemma {:induction false} RunKeepsPaced(c: Crypto, es: seq<Event>, ip: string, t: real)
    requires Timed(es, t)
    ensures Paced(Run(c, EMPTY, es), ip, t)
  {
    if es != [] {
      var front, last := es[..|es| - 1], es[|es| - 1];
      var at := if last.Message? then last.now else t;
      RunKeepsPaced(c, front, ip, at);
      StepKeepsPaced(c, Run(c, EMPTY, front), last, ip, at);
      PacedLater(Step(c, Run(c, EMPTY, front), last), ip, at, t);
    }
  }

  /** In every run any eleven challenges admitted for one address span at least 60 seconds. */
  lemma ElevenChallengesTakeAMinute(c: Crypto, es: seq<Event>, ip: string, t: real, p: nat)
    requires Timed(es, t)
    requires p + 10 < |AdmittedTimes(Run(c, EMPTY, es).history, ip)|
    ensures var times := AdmittedTimes(Run(c, EMPTY, es).history, ip); times[p + 10] - times[p] >= 60.0
  {
    RunKeepsPaced(c, es, ip, t);
    TenPerMinute(AskedTimes(Run(c, EMPTY, es).history, ip), p);
  }

  /** Every challenge issued took an admission of its own. */
  ghost predicate IssuedAfterAdmission(history: seq<Note>)
  {
    forall j :: 0 <= j < |history| && history[j].Issued? ==> j > 0 && history[j - 1].Asked? && history[j - 1].admitted
  }

  lemma QuietNoteKeepsAdmission(history: seq<Note>, x: Note)
    requires IssuedAfterAdmission(history) && !x.Issued?
    ensures IssuedAfterAdmission(history + [x])
  {
    var more := history + [x];
    assert forall j :: 0 <= j < |history| ==> more[j] == history[j];
  }

  lemma IssueAfterAdmission(history: seq<Note>, ask: Note, x: Note)
    requires IssuedAfterAdmission(history) && ask.Asked? && ask.admitted
    ensures IssuedAfterAdmission(history + [ask] + [x])
  {
    QuietNoteKeepsAdmission(history, ask);
    var more := history + [ask];
    assert forall j :: 0 <= j < |more| ==> (more + [x])[j] == more[j];
  }

  lemma InitiateKeepsAdmission(c: Crypto, r: RelayState, ws: nat, id: string, content: string, now: real, nonce: string)
    requires IssuedAfterAdmission(r.history) && ws in r.open
    ensures IssuedAfterAdmission(InitiateChallenge(c, r, ws, id, content, now, nonce).history)
  {
    var admitted := AdmitChallenge(LogOf(r, r.open[ws]), now).1;
    var ask := Asked(r.open[ws], now, admitted);
    if admitted && UsableKey(c, content).Some? {
      IssueAfterAdmission(r.history, ask, Issued(nonce, id, UsableKey(c, content).value));
    } else {
      QuietNoteKeepsAdmission(r.history, ask);
    }
  }

  lemma {:induction false} EveryChallengeWasAdmitted(c: Crypto, es: seq<Event>)
    ensures IssuedAfterAdmission(Run(c, EMPTY, es).history)
  {
    if es != [] {
      EveryChallengeWasAdmitted(c, es[..|es| - 1]);
      var r, e := Run(c, EMPTY, es[..|es| - 1]), es[|es| - 1];
      if e.Message? && e.ws in r.open && e.envelope.sender != "" {
        var m := e.envelope;
        if m.intent != "Challenge_Response" {
          InitiateKeepsAdmission(c, r, e.ws, m.sender, m.content, e.now, e.nonce);
        } else if m.sender in r.pending {
          QuietNoteKeepsAdmission(r.history, Registered(m.sender, e.ws, r.pending[m.sender].key, r.pending[m.sender].nonce, m.content));
        }
      }
    }
  }

  // ----- completing a handshake -----

  /** The branches of `OnMessage` that initiate a challenge. */
  predicate Initiates(r: RelayState, e: Event)
  {
    && e.Message? && e.ws in r.open && e.envelope.sender != "" && e.envelope.intent != "Challenge_Response"
    && (if e.envelope.sender in r.registry then r.registry[e.envelope.sender].ws != e.ws else e.envelope.sender !in r.pending)
  }

  /** e initiates a challenge, for whomever, more than 300 s after ch. */
  predicate Purges(r: RelayState, e: Event, ch: Challenge)
  {
    Initiates(r, e) && e.now - ch.at > CHALLENGE_SPAN
  }

  /** e initiates a challenge that is admitted and names a usable key: it is issued. */
  ghost predicate Challenges(c: Crypto, r: RelayState, e: Event)
  {
    && Initiates(r, e)
    && |Recent(LogOf(r, r.open[e.ws]), e.now)| < LOG_LIMIT && UsableKey(c, e.envelope.content).Some?
  }

  /** e puts a new challenge in the place of the one pending for id.  While id is not registered
      its pending challenge keeps new ones from being initiated. */
  ghost predicate Overwrites(c: Crypto, r: RelayState, e: Event, id: string)
  {
    Challenges(c, r, e) && e.envelope.sender == id
  }

  ghost predicate Ends(c: Crypto, r: RelayState, e: Event, id: string, ch: Challenge)
  {
    Purges(r, e, ch) || Overwrites(c, r, e, id)
  }

  ghost predicate NeverEnded(c: Crypto, r: RelayState, es: seq<Event>, id: string, ch: Challenge)
  {
    es != [] ==> NeverEnded(c, r, es[..|es| - 1], id, ch) && !Ends(c, Run(c, r, es[..|es| - 1]), es[|es| - 1], id, ch)
  }

  /** e neither answers the challenge, nor loses it, nor ends its connection. */
  ghost predicate Harmless(e: Event, id: string, ch: Challenge)
  {
    match e
    case Message(ws, m, now, nonce, delivery) => !(m.sender == id && m.intent == "Challenge_Response")
    case ChallengeLost(id') => id' != id
    case Disconnect(ws) => ws != ch.ws
    case _ => true
  }

  ghost predicate Undisturbed(es: seq<Event>, id: string, ch: Challenge)
  {
    forall i :: 0 <= i < |es| ==> Harmless(es[i], id, ch)
  }

  ghost predicate FreshAfter(es: seq<Event>, nonce: string)
  {
    forall i :: 0 <= i < |es| && es[i].Message? ==> es[i].nonce != nonce
  }

  predicate Awaits(r: RelayState, id: string, ch: Challenge)
  {
    id in r.pending && r.pending[id] == ch
  }

  /** A step leaves an undisturbed challenge pending exactly when it neither initiates one more than
      300 s later nor issues a new one for the same id. */
  lemma AwaitsIffNotEnded(c: Crypto, r: RelayState, e: Event, id: string, ch: Challenge)
    requires Awaits(r, id, ch) && Harmless(e, id, ch) && (e.Message? ==> e.nonce != ch.nonce)
    ensures Awaits(Step(c, r, e), id, ch) <==> !Ends(c, r, e, id, ch)
    ensures id in Step(c, r, e).pending && Step(c, r, e).pending[id] != ch ==> Step(c, r, e).pending[id].nonce != ch.nonce
  {
    match e
    case Message(ws, m, now, nonce, delivery) =>
      assert id in Unexpired(r.pending, now) <==> !(now - ch.at > CHALLENGE_SPAN);
    case _ =>
  }

  /** A message over an open connection that answers for id, rightly or wrongly. */
  predicate AnswersFor(r: RelayState, e: Event, id: string)
  {
    e.Message? && e.ws in r.open && e.envelope.sender == id != "" && e.envelope.intent == "Challenge_Response"
  }

  /** All that can end a pending challenge: besides the purge and a new challenge for the id, any answer
      - right, wrong or empty - a failed send, and the end of its connection. */
  lemma AwaitsExactly(c: Crypto, r: RelayState, e: Event, id: string, ch: Challenge)
    requires Awaits(r, id, ch) && (e.Message? ==> e.nonce != ch.nonce)
    ensures Awaits(Step(c, r, e), id, ch) <==>
      !Ends(c, r, e, id, ch) && !AnswersFor(r, e, id) && e != ChallengeLost(id) && e != Disconnect(ch.ws)
  {
    match e
    case Message(ws, m, now, nonce, delivery) =>
      assert id in Unexpired(r.pending, now) <==> !(now - ch.at > CHALLENGE_SPAN);
    case _ =>
  }

  /** A challenge comes to be pending exactly when a message of its id is challenged: with the message's
      connection, nonce and time and the key it names. */
  lemma ChallengeAppearsIff(c: Crypto, r: RelayState, e: Event, id: string, ch: Challenge)
    requires !Awaits(r, id, ch)
    ensures Awaits(Step(c, r, e), id, ch) <==> Challenges(c, r, e) && e.envelope.sender == id && ch == ChallengeOf(c, e)
  {
    match e
    case Message(ws, m, now, nonce, delivery) =>
      assert id in Unexpired(r.pending, now) ==> Unexpired(r.pending, now)[id] == r.pending[id];
    case _ =>
  }

  /** An address's log is consulted, pruned and, if it admits, extended by every message that initiates a
      challenge from there - usable key or not - and by nothing else. */
  lemma LogExactly(c: Crypto, r: RelayState, e: Event, ip: string)
    ensures LogOf(Step(c, r, e), ip) ==
      if Initiates(r, e) && r.open[e.ws] == ip then AdmitChallenge(LogOf(r, ip), e.now).0 else LogOf(r, ip)
  {
    match e
    case Message(ws, m, now, nonce, delivery) =>
    case _ =>
  }

  /** For an id that is not registered only the purge is left. */
  lemma ForgottenIffPurged(c: Crypto, r: RelayState, e: Event, id: string, ch: Challenge)
    requires Awaits(r, id, ch) && id !in r.registry && Harmless(e, id, ch)
    ensures var r' := Step(c, r, e);
      id !in r'.registry && (id !in r'.pending <==> Initiates(r, e) && e.now - ch.at > 300.0) && (id in r'.pending ==> r'.pending[id] == ch)
  {
    match e
    case Message(ws, m, now, nonce, delivery) =>
      assert id in Unexpired(r.pending, now) <==> !(now - ch.at > CHALLENGE_SPAN);
    case _ =>
  }

  /** What was forgotten does not come back. */
  lemma StaysForgotten(c: Crypto, r: RelayState, e: Event, id: string, ch: Challenge)
    requires id in r.pending ==> r.pending[id].nonce != ch.nonce
    requires e.Message? ==> e.nonce != ch.nonce
    ensures var r' := Step(c, r, e); id in r'.pending ==> r'.pending[id].nonce != ch.nonce
  {
    match e
    case Message(ws, m, now, nonce, delivery) =>
      assert id in Unexpired(r.pending, now) ==> id in r.pending;
    case _ =>
  }

  lemma SurvivesStep(c: Crypto, r: RelayState, e: Event, id: string, ch: Challenge)
    requires Awaits(r, id, ch) && Harmless(e, id, ch) && !Ends(c, r, e, id, ch)
    ensures Awaits(Step(c, r, e), id, ch)
  {
    match e
    case Message(ws, m, now, nonce, delivery) =>
      assert id in Unexpired(r.pending, now) <==> !(now - ch.at > CHALLENGE_SPAN);
    case _ =>
  }

  lemma {:induction false} ChallengeSurvives(c: Crypto, r: RelayState, es: seq<Event>, id: string, ch: Challenge)
    requires Awaits(r, id, ch) && Undisturbed(es, id, ch) && NeverEnded(c, r, es, id, ch)
    ensures Awaits(Run(c, r, es), id, ch)
  {
    if es != [] {
      var front, last := es[..|es| - 1], es[|es| - 1];
      assert Undisturbed(front, id, ch);
      ChallengeSurvives(c, r, front, id, ch);
      assert Harmless(last, id, ch);
      SurvivesStep(c, Run(c, r, front), last, id, ch);
    }
  }

  /** Over a run: the challenge still awaits its answer exactly when no step ended it. */
  lemma {:induction false} AwaitsIffNeverEnded(c: Crypto, r: RelayState, es: seq<Event>, id: string, ch: Challenge)
    requires Awaits(r, id, ch) && Undisturbed(es, id, ch) && FreshAfter(es, ch.nonce)
    ensures var r' := Run(c, r, es);
      && (Awaits(r', id, ch) <==> NeverEnded(c, r, es, id, ch))
      && (id in r'.pending && r'.pending[id] != ch ==> r'.pending[id].nonce != ch.nonce)
  {
    if es != [] {
      var front, last := es[..|es| - 1], es[|es| - 1];
      assert Undisturbed(front, id, ch) && FreshAfter(front, ch.nonce);
      AwaitsIffNeverEnded(c, r, front, id, ch);
      assert Harmless(last, id, ch);
      if Awaits(Run(c, r, front), id, ch) {
        AwaitsIffNotEnded(c, Run(c, r, front), last, id, ch);
      } else {
        StaysForgotten(c, Run(c, r, front), last, id, ch);
      }
    }
  }

  function ChallengeOf(c: Crypto, hello: Event): Challenge
    requires hello.Message? && UsableKey(c, hello.envelope.content).Some?
  {
    Challenge(hello.ws, hello.nonce, UsableKey(c, hello.envelope.content).value, hello.now)
  }

  /** A correctly signed answer to ch, over any connection open in r. */
  ghost predicate Answers(c: Crypto, r: RelayState, answer: Event, id: string, ch: Challenge)
  {
    && answer.Message? && answer.ws in r.open && answer.envelope.sender == id && id != ""
    && answer.envelope.intent == "Challenge_Response" && answer.envelope.content != ""
    && c.verify(ch.key, answer.envelope.content, ch.nonce)
  }

  lemma ChallengedAwaits(c: Crypto, r: RelayState, hello: Event)
    requires Challenges(c, r, hello)
    ensures Awaits(Step(c, r, hello), hello.envelope.sender, ChallengeOf(c, hello))
  {
  }

  /** A message that is challenged - first contact, or a registered id on a new connection - then any
      traffic that neither answers, loses nor disconnects, then a correct answer at whatever time:
      the answer completes that challenge exactly when no step of the traffic ended it, and then
      the id is registered at the answering connection. */
  lemma HandshakeRegistersIff(c: Crypto, r: RelayState, hello: Event, es: seq<Event>, answer: Event)
    requires Challenges(c, r, hello)
    requires Undisturbed(es, hello.envelope.sender, ChallengeOf(c, hello)) && FreshAfter(es, hello.nonce)
    requires Answers(c, Run(c, Step(c, r, hello), es), answer, hello.envelope.sender, ChallengeOf(c, hello))
    ensures var id, ch, mid := hello.envelope.sender, ChallengeOf(c, hello), Run(c, Step(c, r, hello), es);
      var last := Step(c, mid, answer);
      && (last.history == mid.history + [Registered(id, answer.ws, ch.key, ch.nonce, answer.envelope.content)]
          <==> NeverEnded(c, Step(c, r, hello), es, id, ch))
      && (NeverEnded(c, Step(c, r, hello), es, id, ch) ==>
          id in last.registry && last.registry[id] == Registration(answer.ws, ch.key) && id !in last.pending)
  {
    var id, ch, mid := hello.envelope.sender, ChallengeOf(c, hello), Run(c, Step(c, r, hello), es);
    ChallengedAwaits(c, r, hello);
    AwaitsIffNeverEnded(c, Step(c, r, hello), es, id, ch);
    AnswerCompletesIff(c, mid, answer, id, ch);
  }

  lemma AnswerCompletesIff(c: Crypto, r: RelayState, answer: Event, id: string, ch: Challenge)
    requires Answers(c, r, answer, id, ch)
    requires id in r.pending && r.pending[id] != ch ==> r.pending[id].nonce != ch.nonce
    ensures var last := Step(c, r, answer);
      && (last.history == r.history + [Registered(id, answer.ws, ch.key, ch.nonce, answer.envelope.content)] <==> Awaits(r, id, ch))
      && (Awaits(r, id, ch) ==>
          id in last.registry && last.registry[id] == Registration(answer.ws, ch.key) && id !in last.pending)
  {
    var x := Registered(id, answer.ws, ch.key, ch.nonce, answer.envelope.content);
    var last := Step(c, r, answer);
    assert (r.history + [x])[|r.history|] == x;
    if id in r.pending && r.pending[id] != ch {
      var y := Registered(id, answer.ws, r.pending[id].key, r.pending[id].nonce, answer.envelope.content);
      assert (r.history + [y])[|r.history|] == y != x;
      assert last.history == r.history || last.history == r.history + [y];
    }
  }

  /** Five minutes are no bound on the answer: while nothing initiates a challenge, an answer at any
      later time registers. */
  lemma LateAnswerRegisters(c: Crypto, r: RelayState, hello: Event, es: seq<Event>, answer: Event)
    requires Challenges(c, r, hello)
    requires Undisturbed(es, hello.envelope.sender, ChallengeOf(c, hello))
    requires forall i :: 0 <= i < |es| ==> !Initiates(Run(c, Step(c, r, hello), es[..i]), es[i])
    requires Answers(c, Run(c, Step(c, r, hello), es), answer, hello.envelope.sender, ChallengeOf(c, hello))
    requires answer.now - hello.now > CHALLENGE_SPAN
    ensures var last := Step(c, Run(c, Step(c, r, hello), es), answer);
      hello.envelope.sender in last.registry && last.registry[hello.envelope.sender] == Registration(answer.ws, ChallengeOf(c, hello).key)
  {
    var id, ch := hello.envelope.sender, ChallengeOf(c, hello);
    ChallengedAwaits(c, r, hello);
    NothingInitiatedNothingEnded(c, Step(c, r, hello), es, id, ch);
    ChallengeSurvives(c, Step(c, r, hello), es, id, ch);
  }

  lemma {:induction false} NothingInitiatedNothingEnded(c: Crypto, r: RelayState, es: seq<Event>, id: string, ch: Challenge)
    requires forall i :: 0 <= i < |es| ==> !Initiates(Run(c, r, es[..i]), es[i])
    ensures NeverEnded(c, r, es, id, ch)
  {
    if es != [] {
      var front := es[..|es| - 1];
      forall i | 0 <= i < |front| ensures !Initiates(Run(c, r, front[..i]), front[i]) {
        assert front[..i] == es[..i];
      }
      NothingInitiatedNothingEnded(c, r, front, id, ch);
    }
  }

  /** The overwriting is real: a registered id, challenged on a new connection, sends one more
      ordinary message there - well within five minutes - and the first challenge is gone. */
  lemma SecondMessageOverwrites(c: Crypto, r: RelayState, e: Event, id: string, ch: Challenge)
    requires Awaits(r, id, ch) && id in r.registry && r.registry[id].ws != ch.ws && ch.ws in r.open && id != ""
    requires e.Message? && e.ws == ch.ws && e.envelope.sender == id && e.envelope.intent != "Challenge_Response"
    requires |Recent(LogOf(r, r.open[ch.ws]), e.now)| < LOG_LIMIT && UsableKey(c, e.envelope.content).Some?
    requires e.nonce != ch.nonce && e.now - ch.at <= CHALLENGE_SPAN
    ensures Harmless(e, id, ch) && !Purges(r, e, ch) && !Awaits(Step(c, r, e), id, ch)
  {
    AwaitsIffNotEnded(c, r, e, id, ch);
  }

  // ----- exactly what a step does to one registration, one connection -----

  /** A message that answers id's pending challenge correctly, over an open connection. */
  ghost predicate Proves(c: Crypto, r: RelayState, e: Event, id: string)
  {
    && e.Message? && e.ws in r.open && e.envelope.sender == id != "" && e.envelope.intent == "Challenge_Response"
    && id in r.pending && e.envelope.content != "" && c.verify(r.pending[id].key, e.envelope.content, r.pending[id].nonce)
  }

  /** A message of a verified sender, with ttl left, that the relay tries to send to p. */
  ghost predicate RoutedTo(r: RelayState, e: Event, p: string)
  {
    && e.Message? && e.ws in r.open && e.envelope.sender != "" && e.envelope.intent != "Challenge_Response"
    && e.envelope.sender in r.registry && r.registry[e.envelope.sender].ws == e.ws
    && (e.envelope.ttl.Some? ==> e.envelope.ttl.value > 0)
    && p in r.registry && p != e.envelope.sender
    && (e.envelope.receiver == BROADCAST || (e.envelope.receiver == p && p != ""))
  }

  /** The steps that take id's registration away or replace it by another. */
  ghost predicate Deregisters(c: Crypto, r: RelayState, e: Event, id: string)
    requires id in r.registry
  {
    || e == Disconnect(r.registry[id].ws)
    || e == Deregister(id)
    || (Proves(c, r, e, id) && Registration(e.ws, r.pending[id].key) != r.registry[id])
    || (RoutedTo(r, e, id) && (e.delivery(id) == ConnectionClosed || (e.delivery(id) == OtherError && e.envelope.receiver == BROADCAST)))
  }

  ghost predicate Has(r: RelayState, id: string, entry: Registration)
  {
    id in r.registry && r.registry[id] == entry
  }

  /** A registration is still there after a step exactly when the step is not one of: the end of its
      connection, a late deregistration, a correct answer that changes it, a failed send to it. */
  lemma RegistrationStaysIff(c: Crypto, r: RelayState, e: Event, id: string)
    requires id in r.registry
    ensures Has(Step(c, r, e), id, r.registry[id]) <==> !Deregisters(c, r, e, id)
  {
    match e
    case Message(ws, m, now, nonce, delivery) =>
    case Disconnect(ws) =>
    case _ =>
  }

  /** A new or changed registration appears exactly with a correct answer: at the answering connection,
      under the challenged key. */
  lemma RegistrationAppearsIff(c: Crypto, r: RelayState, e: Event, id: string, entry: Registration)
    requires !Has(r, id, entry)
    ensures Has(Step(c, r, e), id, entry) <==> Proves(c, r, e, id) && entry == Registration(e.ws, r.pending[id].key)
  {
    match e
    case Message(ws, m, now, nonce, delivery) =>
    case _ =>
  }

  ghost predicate NeverDeregistered(c: Crypto, r: RelayState, es: seq<Event>, id: string, entry: Registration)
  {
    es != [] ==>
      var before := Run(c, r, es[..|es| - 1]);
      NeverDeregistered(c, r, es[..|es| - 1], id, entry) && (Has(before, id, entry) ==> !Deregisters(c, before, es[|es| - 1], id))
  }

  ghost predicate AlwaysHas(c: Crypto, r: RelayState, es: seq<Event>, id: string, entry: Registration)
  {
    Has(Run(c, r, es), id, entry) && (es != [] ==> AlwaysHas(c, r, es[..|es| - 1], id, entry))
  }

  /** Over a run: a registration stays throughout exactly when no step is one of those. */
  lemma {:induction false} StaysRegisteredIff(c: Crypto, r: RelayState, es: seq<Event>, id: string, entry: Registration)
    requires Has(r, id, entry)
    ensures AlwaysHas(c, r, es, id, entry) <==> NeverDeregistered(c, r, es, id, entry)
  {
    if es != [] {
      var front := es[..|es| - 1];
      StaysRegisteredIff(c, r, front, id, entry);
      if AlwaysHas(c, r, front, id, entry) {
        RegistrationStaysIff(c, Run(c, r, front), es[|es| - 1], id);
      }
    }
  }

  /** A connection is open from its start to its end, at its address. */
  lemma OpenExactly(c: Crypto, r: RelayState, e: Event, ws: nat)
    ensures var r' := Step(c, r, e);
      && (ws in r'.open <==> (ws in r.open && e != Disconnect(ws)) || (e.Connect? && e.ws == ws))
      && (ws in r.open && ws in r'.open ==> r'.open[ws] == r.open[ws])
      && (ws !in r.open && ws in r'.open ==> e == Connect(ws, r'.open[ws]))
  {
    match e
    case Message(ws, m, now, nonce, delivery) =>
    case _ =>
  }

  // ----- keys -----

  ghost predicate UsableKeysOnly(c: Crypto, history: seq<Note>)
  {
    forall n :: n in history && n.Issued? ==> c.keyLength(n.key) == Some(32)
  }

  lemma IssuedKeyIsUsable(c: Crypto, content: string)
    ensures UsableKey(c, content).Some? ==> c.keyLength(UsableKey(c, content).value) == Some(32)
  {
  }

  lemma InitiateKeepsUsableKeys(c: Crypto, r: RelayState, ws: nat, id: string, content: string, now: real, nonce: string)
    requires UsableKeysOnly(c, r.history) && ws in r.open
    ensures UsableKeysOnly(c, InitiateChallenge(c, r, ws, id, content, now, nonce).history)
  {
    IssuedKeyIsUsable(c, content);
  }

  /** In every run challenges are issued, and ids registered, under keys of 32 bytes only. */
  lemma {:induction false} OnlyUsableKeys(c: Crypto, es: seq<Event>)
    ensures UsableKeysOnly(c, Run(c, EMPTY, es).history)
    ensures forall id :: id in Run(c, EMPTY, es).registry ==> c.keyLength(Run(c, EMPTY, es).registry[id].key) == Some(32)
  {
    if es != [] {
      var r, e := Run(c, EMPTY, es[..|es| - 1]), es[|es| - 1];
      OnlyUsableKeys(c, es[..|es| - 1]);
      if e.Message? && e.ws in r.open && e.envelope.sender != "" && e.envelope.intent != "Challenge_Response" {
        InitiateKeepsUsableKeys(c, r, e.ws, e.envelope.sender, e.envelope.content, e.now, e.nonce);
      }
    }
    forall id | id in Run(c, EMPTY, es).registry ensures c.keyLength(Run(c, EMPTY, es).registry[id].key) == Some(32) {
      var i, j := RegistryIsEarnedInEveryRun(c, es, id);
      assert Run(c, EMPTY, es).history[i] in Run(c, EMPTY, es).history;
    }
  }

  // ----- routing -----

  /** Who gets a copy: nobody once the ttl, 30 when missing, is used up; every registered peer but the
      sender for a broadcast; else the one registered receiver, unless it is the sender. */
  lemma TargetsAre(registry: map<string, Registration>, m: Envelope, p: string)
    ensures p in Targets(registry, m) <==>
      && (m.ttl.Some? ==> m.ttl.value > 0) && p in registry && p != m.sender
      && (m.receiver == "00000000-0000-0000-0000-000000000000" || (m.receiver == p && p != ""))
    ensures m.ttl == None ==> Forwarded(m).ttl == Some(29)
  {
  }

  /** Each message of ms is the relay's copy of the one before. */
  ghost predicate RelayChain(ms: seq<Envelope>)
  {
    |ms| > 1 ==>
      var front := ms[..|ms| - 1];
      RelayChain(front) && Ttl(front[|front| - 1]) > 0 && ms[|ms| - 1] == Forwarded(front[|front| - 1])
  }

  /** A chain of relay forwards is no longer than the initial ttl, changes nothing but the ttl, and
      the copy at which the ttl is used up goes to nobody, whatever the registry. */
  lemma {:induction false} ChainWithinTtl(ms: seq<Envelope>, registry: map<string, Registration>)
    requires ms != [] && RelayChain(ms)
    ensures var hops := |ms| - 1;
      && (hops > 0 ==> hops <= Ttl(ms[0]) && ms[hops] == ms[0].(ttl := Some(Ttl(ms[0]) - hops)))
      && (hops >= Ttl(ms[0]) ==> Targets(registry, ms[hops]) == {})
  {
    if |ms| > 1 {
      ChainWithinTtl(ms[..|ms| - 1], registry);
    }
  }
}
