/** The relay object, method by method, against the state machine of module Relay. */
module RelayServer {
  import opened Wrappers
  import opened Limiters
  import opened Relay

  /** One attempted send of a routed message. */
  datatype Attempt = Attempt(peer: string, ws: nat, envelope: Envelope)

  /** Exactly one attempt for each of the peers and no other, each with the relay's copy of m. */
  ghost predicate AttemptsReach(attempts: seq<Attempt>, registry: map<string, Registration>, m: Envelope, peers: set<string>)
    requires peers <= registry.Keys
  {
    && (forall i :: 0 <= i < |attempts| ==> CopyTo(attempts[i], registry, m, peers))
    && (forall i, j :: 0 <= i < j < |attempts| ==> attempts[i].peer != attempts[j].peer)
    && (forall p :: p in peers ==> Attempt(p, registry[p].ws, Forwarded(m)) in attempts)
  }

  ghost predicate CopyTo(a: Attempt, registry: map<string, Registration>, m: Envelope, peers: set<string>)
    requires peers <= registry.Keys
  {
    a.peer in peers && a.ws == registry[a.peer].ws && a.envelope == Forwarded(m)
  }

  /** The message comes over the connection its sender is registered at. */
  predicate IsVerified(registry: map<string, Registration>, ws: nat, m: Envelope)
  {
    m.sender != "" && m.intent != "Challenge_Response" && m.sender in registry && registry[m.sender].ws == ws
  }

  lemma OneMoreAttempt(attempts: seq<Attempt>, registry: map<string, Registration>, m: Envelope, peers: set<string>, p: string)
    requires peers <= registry.Keys && p in registry && p !in peers && AttemptsReach(attempts, registry, m, peers)
    ensures AttemptsReach(attempts + [Attempt(p, registry[p].ws, Forwarded(m))], registry, m, peers + {p})
  {
    var more := attempts + [Attempt(p, registry[p].ws, Forwarded(m))];
    assert more[|attempts|] in more;
    forall i | 0 <= i < |attempts| ensures CopyTo(more[i], registry, m, peers + {p}) && more[i].peer != p {
      assert CopyTo(attempts[i], registry, m, peers);
    }
  }

  class ADNSRelayServer {
    const crypto: Crypto
    var registry: map<string, Registration>
    var pendingChallenges: map<string, Challenge>
    var challengeRateLimits: map<string, seq<real>>
    ghost var open: map<nat, string>
    ghost var history: seq<Note>

    ghost function View(): RelayState
      reads this
    {
      RelayState(registry, pendingChallenges, challengeRateLimits, open, history)
    }

    constructor (crypto: Crypto)
      ensures View() == EMPTY && this.crypto == crypto
    {
      this.crypto := crypto;
      registry, pendingChallenges, challengeRateLimits := map[], map[], map[];
      open, history := map[], [];
    }

    /** A handler starts for a new connection. */
    method ConnectionOpened(ghost ws: nat, ghost ip: string)
      requires ws !in open
      modifies this
      ensures View() == Step(crypto, old(View()), Connect(ws, ip))
    {
      open := open[ws := ip];
    }

    method CleanupStaleChallenges(now: real)
      modifies this`pendingChallenges
      ensures pendingChallenges == Unexpired(old(pendingChallenges), now)
    {
      var stale := set id | id in pendingChallenges && now - pendingChallenges[id].at > CHALLENGE_SPAN;
      var left := stale;
      while left != {}
        invariant left <= stale && pendingChallenges == old(pendingChallenges) - (stale - left)
      {
        var id :| id in left;
        pendingChallenges, left := pendingChallenges - {id}, left - {id};
      }
    }

    /** The sliding log of one address. */
    method AdmitFrom(ip: string, now: real) returns (admitted: bool)
      modifies this`challengeRateLimits
      ensures var (log, ok) := AdmitChallenge(LogOf(old(View()), ip), now);
        challengeRateLimits == old(challengeRateLimits)[ip := log] && admitted == ok
    {
      var log := if ip in challengeRateLimits then challengeRateLimits[ip] else [];
      var recent: seq<real> := [];
      for i := 0 to |log|
        invariant recent == Recent(log[..i], now)
      {
        assert log[..i + 1][..i] == log[..i];
        if now - log[i] < LOG_SPAN {
          recent := recent + [log[i]];
        }
      }
      assert log[..|log|] == log;
      challengeRateLimits := challengeRateLimits[ip := recent];
      if |recent| >= LOG_LIMIT {
        return false;
      }
      challengeRateLimits := challengeRateLimits[ip := recent + [now]];
      return true;
    }

    /** Up to the send; `ChallengeSendFailed` is what follows when it raises. */
    method InitiateChallenge(ws: nat, ip: string, id: string, content: string, now: real, nonce: string) returns (issued: bool)
      requires ws in open && open[ws] == ip
      modifies this
      ensures View() == Relay.InitiateChallenge(crypto, old(View()), ws, id, content, now, nonce)
      ensures issued <==> AdmitChallenge(LogOf(old(View()), ip), now).1 && UsableKey(crypto, content).Some?
    {
      CleanupStaleChallenges(now);
      var admitted := AdmitFrom(ip, now);
      history := history + [Asked(ip, now, admitted)];
      if !admitted {
        return false;
      }
      var publicKey := crypto.publicKey(content);
      if publicKey.None? {
        return false;
      }
      if crypto.keyLength(publicKey.value) != Some(KEY_LENGTH) {
        return false;
      }
      pendingChallenges := pendingChallenges[id := Challenge(ws, nonce, publicKey.value, now)];
      history := history + [Issued(nonce, id, publicKey.value)];
      return true;
    }

    method ChallengeSendFailed(id: string)
      modifies this
      ensures View() == Step(crypto, old(View()), ChallengeLost(id))
    {
      if id in pendingChallenges {
        pendingChallenges := pendingChallenges - {id};
      }
      assert pendingChallenges == old(pendingChallenges) - {id};
    }

    method HandleChallengeResponse(ws: nat, id: string, signature: string)
      modifies this
      ensures View() == Relay.HandleChallengeResponse(crypto, old(View()), ws, id, signature)
    {
      if id !in pendingChallenges {
        return;
      }
      var challenge := pendingChallenges[id];
      if signature == "" {
        pendingChallenges := pendingChallenges - {id};
        return;
      }
      if crypto.verify(challenge.key, signature, challenge.nonce) {
        registry := registry[id := Registration(ws, challenge.key)];
        pendingChallenges := pendingChallenges - {id};
        history := history + [Registered(id, ws, challenge.key, challenge.nonce, signature)];
      } else {
        pendingChallenges := pendingChallenges - {id};
      }
    }

    /** Routing of a verified sender's message. */
    method Route(m: Envelope, delivery: string -> Delivery) returns (attempts: seq<Attempt>)
      modifies this`registry
      ensures AttemptsReach(attempts, old(registry), m, Targets(old(registry), m))
      ensures registry == old(registry) - Unreachable(old(registry), m, delivery)
      ensures m.receiver == BROADCAST && Ttl(m) > 0 ==>
        forall p :: p in registry <==> p in old(registry) && (p == m.sender || delivery(p) == Sent)
    {
      attempts := [];
      var ttl := if m.ttl.None? then DEFAULT_TTL else m.ttl.value;
      if ttl <= 0 {
        return;
      }
      var forwarded := m.(ttl := Some(ttl - 1));
      if m.receiver == BROADCAST {
        attempts := FanOut(m, forwarded, delivery);
      } else if m.receiver != "" && m.receiver in registry && m.receiver != m.sender {
        attempts := [Attempt(m.receiver, registry[m.receiver].ws, forwarded)];
        if delivery(m.receiver) == ConnectionClosed {
          registry := registry - {m.receiver};
        }
      }
    }

    method FanOut(m: Envelope, forwarded: Envelope, delivery: string -> Delivery) returns (attempts: seq<Attempt>)
      requires Ttl(m) > 0 && m.receiver == BROADCAST && forwarded == Forwarded(m)
      modifies this`registry
      ensures AttemptsReach(attempts, old(registry), m, old(registry).Keys - {m.sender})
      ensures registry == old(registry) - Unreachable(old(registry), m, delivery)
    {
      attempts := [];
      var peers, stale: set<string> := registry.Keys, {};
      ghost var done: set<string> := {};
      while peers != {}
        invariant registry == old(registry)
        invariant peers <= registry.Keys && done == registry.Keys - {m.sender} - peers
        invariant AttemptsReach(attempts, registry, m, done)
        invariant forall p :: p in stale <==> p in done && delivery(p) != Sent
      {
        var peer :| peer in peers;
        if peer != m.sender {
          OneMoreAttempt(attempts, registry, m, done, peer);
          attempts := attempts + [Attempt(peer, registry[peer].ws, forwarded)];
          if delivery(peer) != Sent {
            stale := stale + {peer};
          }
          done := done + {peer};
        }
        peers := peers - {peer};
      }
      assert done == registry.Keys - {m.sender};
      assert stale == Unreachable(registry, m, delivery);
      Drop(stale);
    }

    method Drop(staleAgents: set<string>)
      modifies this`registry
      ensures registry == old(registry) - staleAgents
    {
      var left := staleAgents;
      while left != {}
        invariant left <= staleAgents && registry == old(registry) - (staleAgents - left)
      {
        var id :| id in left;
        registry, left := registry - {id}, left - {id};
      }
    }

    /** One message of the connection's loop. */
    method HandleMessage(ws: nat, ip: string, m: Envelope, now: real, nonce: string, delivery: string -> Delivery) returns (attempts: seq<Attempt>)
      requires ws in open && open[ws] == ip
      modifies this
      ensures View() == Step(crypto, old(View()), Message(ws, m, now, nonce, delivery))
      ensures if IsVerified(old(registry), ws, m)
        then AttemptsReach(attempts, old(registry), m, Targets(old(registry), m))
        else attempts == []
    {
      attempts := [];
      if m.sender == "" {
        return;
      }
      if m.intent == "Challenge_Response" {
        HandleChallengeResponse(ws, m.sender, m.content);
        return;
      }
      if m.sender !in registry {
        if m.sender !in pendingChallenges {
          var issued := InitiateChallenge(ws, ip, m.sender, m.content, now, nonce);
        }
        return;
      }
      if registry[m.sender].ws != ws {
        var issued := InitiateChallenge(ws, ip, m.sender, m.content, now, nonce);
        return;
      }
      attempts := Route(m, delivery);
    }

    /** The `finally` block of a connection's handler. */
    method ConnectionClosing(ws: nat)
      modifies this
      ensures View() == Step(crypto, old(View()), Disconnect(ws))
    {
      ForgetRegistrations(ws);
      ForgetChallenges(ws);
      open := open - {ws};
    }

    method ForgetRegistrations(ws: nat)
      modifies this`registry
      ensures registry == Forget(old(View()), ws).registry
    {
      var agentsToRemove := set id | id in registry && registry[id].ws == ws;
      Drop(agentsToRemove);
    }

    method ForgetChallenges(ws: nat)
      modifies this`pendingChallenges
      ensures pendingChallenges == Forget(old(View()), ws).pending
    {
      var agentsToClean := set id | id in pendingChallenges && pendingChallenges[id].ws == ws;
      var left := agentsToClean;
      while left != {}
        invariant left <= agentsToClean && pendingChallenges == old(pendingChallenges) - (agentsToClean - left)
      {
        var id :| id in left;
        pendingChallenges, left := pendingChallenges - {id}, left - {id};
      }
    }
  }
}
