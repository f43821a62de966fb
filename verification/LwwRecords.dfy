/** The conflict rules of the five LWW-Maps, on values: which of two records for one key
    survives, and what a whole sequence of record applications leaves behind. */
module LwwRecords {
  import LexOrder

  datatype Rec<V> = Rec(value: V, ts: int, writer: string)

  /** One `(key, record)` application, as one call of `set` receives it. */
  type Item<V> = (string, Rec<V>)

  type State<V> = map<string, Rec<V>>

  /** Go, Rust and Java stop at the writer id; Python and TypeScript go on to compare
      the canonical texts of the two values. */
  datatype Rule<!V> = TwoLevel | ThreeLevel(text: V -> string)

  /** True when the incoming record `r` replaces the stored record `e`. */
  predicate Beats<V>(rule: Rule<V>, r: Rec<V>, e: Rec<V>)
  {
    r.ts > e.ts
    || (r.ts == e.ts && LexOrder.Less(e.writer, r.writer))
    || (r.ts == e.ts && r.writer == e.writer && rule.ThreeLevel?
        && LexOrder.Less(rule.text(e.value), rule.text(r.value)))
  }

  lemma NeverBeatsItself<V>(rule: Rule<V>, r: Rec<V>)
    ensures !Beats(rule, r, r)
  {
    LexOrder.Irreflexive(r.writer);
    if rule.ThreeLevel? {
      LexOrder.Irreflexive(rule.text(r.value));
    }
  }

  lemma BeatsAsymmetric<V>(rule: Rule<V>, r: Rec<V>, e: Rec<V>)
    requires Beats(rule, r, e)
    ensures !Beats(rule, e, r)
  {
    if LexOrder.Less(e.writer, r.writer) {
      LexOrder.Asymmetric(e.writer, r.writer);
    }
    LexOrder.Irreflexive(r.writer);
    if rule.ThreeLevel? && LexOrder.Less(rule.text(e.value), rule.text(r.value)) {
      LexOrder.Asymmetric(rule.text(e.value), rule.text(r.value));
    }
  }

  /** Two records neither of which beats the other carry the same stamp, and under the
      three-level rule also the same canonical text. */
  lemma TieMeansSameRank<V>(rule: Rule<V>, r: Rec<V>, e: Rec<V>)
    ensures (!Beats(rule, r, e) && !Beats(rule, e, r))
       <==> (r.ts == e.ts && r.writer == e.writer
             && (rule.ThreeLevel? ==> rule.text(r.value) == rule.text(e.value)))
  {
    LexOrder.Total(r.writer, e.writer);
    LexOrder.Irreflexive(r.writer);
    if rule.ThreeLevel? {
      LexOrder.Total(rule.text(r.value), rule.text(e.value));
      LexOrder.Irreflexive(rule.text(r.value));
    }
  }

  /** The rule is a total preorder: "does not beat" is transitive. */
  lemma NotBeatsTransitive<V>(rule: Rule<V>, a: Rec<V>, b: Rec<V>, c: Rec<V>)
    requires !Beats(rule, a, b) && !Beats(rule, b, c)
    ensures !Beats(rule, a, c)
  {
    if a.ts == b.ts == c.ts {
      LexOrder.NotGreaterTransitive(a.writer, b.writer, c.writer);
      if a.writer == c.writer {
        LexOrder.Total(a.writer, b.writer);
        if rule.ThreeLevel? {
          LexOrder.NotGreaterTransitive(rule.text(a.value), rule.text(b.value), rule.text(c.value));
        }
      }
    }
  }

  /** The state after `set` is offered record `r` for key `k`. */
  function Put<V>(rule: Rule<V>, s: State<V>, k: string, r: Rec<V>): State<V>
  {
    if k in s && !Beats(rule, r, s[k]) then s else s[k := r]
  }

  /** The state after applying the items of `rs` one by one, first to last. */
  function PutAll<V>(rule: Rule<V>, s: State<V>, rs: seq<Item<V>>): State<V>
  {
    if rs == [] then s
    else
      var last := rs[|rs| - 1];
      Put(rule, PutAll(rule, s, rs[..|rs| - 1]), last.0, last.1)
  }

  /** `r` was offered for `k` and no record offered for `k` beats it. */
  ghost predicate Best<V>(rule: Rule<V>, rs: seq<Item<V>>, k: string, r: Rec<V>)
  {
    (k, r) in rs && forall x :: x in rs && x.0 == k ==> !Beats(rule, x.1, r)
  }

  ghost predicate Offered<V>(rs: seq<Item<V>>, k: string)
  {
    exists x :: x in rs && x.0 == k
  }

  /** Whatever the order of arrival, each key ends at a record nothing offered beats, and
      exactly the offered keys are present. */
  lemma {:induction false} FoldKeepsBest<V>(rule: Rule<V>, rs: seq<Item<V>>)
    ensures forall k :: k in PutAll(rule, map[], rs) <==> Offered(rs, k)
    ensures forall k :: k in PutAll(rule, map[], rs) ==> Best(rule, rs, k, PutAll(rule, map[], rs)[k])
  {
    if rs != [] {
      var front, last := rs[..|rs| - 1], rs[|rs| - 1];
      assert rs == front + [last];
      FoldKeepsBest(rule, front);
      var before, after := PutAll(rule, map[], front), PutAll(rule, map[], rs);
      forall k
        ensures k in after <==> Offered(rs, k)
        ensures k in after ==> Best(rule, rs, k, after[k])
      {
        if Offered(front, k) {
          var x :| x in front && x.0 == k;
          assert x in rs;
        }
        if k == last.0 {
          assert last in rs;
          NeverBeatsItself(rule, last.1);
          if k in before && Beats(rule, last.1, before[k]) {
            BeatsAsymmetric(rule, last.1, before[k]);
            forall x | x in rs && x.0 == k ensures !Beats(rule, x.1, last.1) {
              if x in front {
                NotBeatsTransitive(rule, x.1, before[k], last.1);
              }
            }
          } else if k !in before {
            assert forall x :: x in rs && x.0 == k ==> x == last;
          }
        }
      }
    }
  }

  /** x ranks no higher than r: an earlier timestamp, then a smaller writer id, then - for the
      three-level rule only - a text that is not greater. */
  predicate RanksUpTo<V>(rule: Rule<V>, x: Rec<V>, r: Rec<V>)
  {
    || x.ts < r.ts
    || (x.ts == r.ts && LexOrder.Less(x.writer, r.writer))
    || (x.ts == r.ts && x.writer == r.writer && rule.TwoLevel?)
    || (x.ts == r.ts && x.writer == r.writer && rule.ThreeLevel? &&
        (rule.text(x.value) == rule.text(r.value) || LexOrder.Less(rule.text(x.value), rule.text(r.value))))
  }

  lemma UnbeatenRanksHighest<V>(rule: Rule<V>, x: Rec<V>, r: Rec<V>)
    ensures !Beats(rule, x, r) <==> RanksUpTo(rule, x, r)
  {
    LexOrder.Total(x.writer, r.writer);
    LexOrder.Irreflexive(r.writer);
    if LexOrder.Less(x.writer, r.writer) {
      LexOrder.Asymmetric(x.writer, r.writer);
    }
    if rule.ThreeLevel? {
      var t, u := rule.text(x.value), rule.text(r.value);
      LexOrder.Total(t, u);
      LexOrder.Irreflexive(u);
      if LexOrder.Less(t, u) {
        LexOrder.Asymmetric(t, u);
      }
    }
  }

  /** Which record survives: for each key an offered one such that every record offered for the key
      has an earlier timestamp, or the same and a smaller writer id, or the same of both and, under
      the three-level rule, no greater text. */
  lemma SurvivorRanksHighest<V>(rule: Rule<V>, rs: seq<Item<V>>, k: string)
    ensures var s := PutAll(rule, map[], rs);
      && (k in s <==> Offered(rs, k))
      && (k in s ==> (k, s[k]) in rs && forall x :: x in rs && x.0 == k ==> RanksUpTo(rule, x.1, s[k]))
  {
    FoldKeepsBest(rule, rs);
    var s := PutAll(rule, map[], rs);
    if k in s {
      forall x | x in rs && x.0 == k ensures RanksUpTo(rule, x.1, s[k]) {
        UnbeatenRanksHighest(rule, x.1, s[k]);
      }
    }
  }

  /** Of two records under one timestamp the one with the larger writer id survives, of two with one
      writer the later, whichever arrives first and under both rules. */
  lemma LargerStampSurvives<V>(rule: Rule<V>, k: string, r: Rec<V>, q: Rec<V>)
    requires r.ts < q.ts || (r.ts == q.ts && LexOrder.Less(r.writer, q.writer))
    ensures PutAll(rule, map[], [(k, r), (k, q)]) == map[k := q] && PutAll(rule, map[], [(k, q), (k, r)]) == map[k := q]
  {
    TwoApplications(rule, (k, r), (k, q));
    TwoApplications(rule, (k, q), (k, r));
    LexOrder.Irreflexive(r.writer);
    if r.ts == q.ts {
      LexOrder.Asymmetric(r.writer, q.writer);
    }
  }

  /** Under one stamp the three-level rule keeps the value with the greater text. */
  lemma GreaterTextSurvives<V>(text: V -> string, k: string, v: V, w: V, ts: int, writer: string)
    requires LexOrder.Less(text(v), text(w))
    ensures var x, y := (k, Rec(v, ts, writer)), (k, Rec(w, ts, writer));
      PutAll(ThreeLevel(text), map[], [x, y]) == map[k := y.1] && PutAll(ThreeLevel(text), map[], [y, x]) == map[k := y.1]
  {
    var x, y := (k, Rec(v, ts, writer)), (k, Rec(w, ts, writer));
    LexOrder.Irreflexive(writer);
    LexOrder.Asymmetric(text(v), text(w));
    TwoApplications(ThreeLevel(text), x, y);
    TwoApplications(ThreeLevel(text), y, x);
  }

  /** At most one record per key is left unbeaten. */
  ghost predicate NoTopConflict<V(!new)>(rule: Rule<V>, rs: seq<Item<V>>)
  {
    forall k, r, q :: Best(rule, rs, k, r) && Best(rule, rs, k, q) ==> r == q
  }

  ghost predicate SameItems<V(!new)>(rs: seq<Item<V>>, ps: seq<Item<V>>)
  {
    forall x :: x in rs <==> x in ps
  }

  /** Convergence, for either rule: replicas offered the same records in any order and any
      multiplicity hold the same state, provided no key has two unbeaten records. */
  lemma SameItemsSameState<V(!new)>(rule: Rule<V>, rs: seq<Item<V>>, ps: seq<Item<V>>)
    requires SameItems(rs, ps)
    requires NoTopConflict(rule, rs)
    ensures PutAll(rule, map[], rs) == PutAll(rule, map[], ps)
  {
    FoldKeepsBest(rule, rs);
    FoldKeepsBest(rule, ps);
    var s, t := PutAll(rule, map[], rs), PutAll(rule, map[], ps);
    assert forall k, r :: Best(rule, rs, k, r) <==> Best(rule, ps, k, r);
    assert forall k :: Offered(rs, k) <==> Offered(ps, k);
    assert s.Keys == t.Keys;
  }

  ghost predicate Injective<V(!new)>(text: V -> string)
  {
    forall v, w :: text(v) == text(w) ==> v == w
  }

  /** With texts that tell all values apart the three-level rule leaves no conflict. */
  lemma ThreeLevelHasNoConflict<V(!new)>(text: V -> string, rs: seq<Item<V>>)
    requires Injective(text)
    ensures NoTopConflict(ThreeLevel(text), rs)
  {
    var rule := ThreeLevel(text);
    forall k, r, q | Best(rule, rs, k, r) && Best(rule, rs, k, q) ensures r == q {
      assert (k, r) in rs && (k, q) in rs;
      TieMeansSameRank(rule, r, q);
    }
  }

  /** Strong convergence of the Python and TypeScript maps. */
  lemma StrongConvergence<V(!new)>(text: V -> string, rs: seq<Item<V>>, ps: seq<Item<V>>)
    requires Injective(text)
    requires SameItems(rs, ps)
    ensures PutAll(ThreeLevel(text), map[], rs) == PutAll(ThreeLevel(text), map[], ps)
  {
    ThreeLevelHasNoConflict(text, rs);
    SameItemsSameState(ThreeLevel(text), rs, ps);
  }

  ghost predicate Reordering<V>(rs: seq<Item<V>>, ps: seq<Item<V>>)
  {
    multiset(ps) == multiset(rs)
  }

  lemma ReorderingHasSameItems<V(!new)>(rs: seq<Item<V>>, ps: seq<Item<V>>)
    requires Reordering(rs, ps)
    ensures SameItems(rs, ps)
  {
    forall x ensures x in rs <==> x in ps {
      assert x in rs <==> x in multiset(rs);
      assert x in ps <==> x in multiset(ps);
    }
  }

  /** The arrival order that delivers item `x` of `rs` first. */
  lemma FirstArrival<V>(rs: seq<Item<V>>, x: Item<V>) returns (ps: seq<Item<V>>)
    requires x in rs
    ensures Reordering(rs, ps) && ps != [] && ps[0] == x
  {
    var i :| 0 <= i < |rs| && rs[i] == x;
    ps := [x] + rs[..i] + rs[i + 1..];
    assert rs == rs[..i] + [x] + rs[i + 1..];
  }

  /** A record that arrives first and is never beaten stays. */
  lemma {:induction false} FirstUnbeatenStays<V>(rule: Rule<V>, rs: seq<Item<V>>)
    requires rs != []
    requires forall x :: x in rs && x.0 == rs[0].0 ==> !Beats(rule, x.1, rs[0].1)
    ensures rs[0].0 in PutAll(rule, map[], rs) && PutAll(rule, map[], rs)[rs[0].0] == rs[0].1
  {
    if |rs| == 1 {
      assert rs[..0] == [];
    } else {
      FirstUnbeatenStays(rule, rs[..|rs| - 1]);
    }
  }

  ghost predicate OrderIndependent<V(!new)>(rule: Rule<V>, rs: seq<Item<V>>)
  {
    forall ps :: Reordering(rs, ps) ==> PutAll(rule, map[], ps) == PutAll(rule, map[], rs)
  }

  /** Exactly when the order of arrival cannot matter, for either rule. */
  lemma OrderIndependentIff<V(!new)>(rule: Rule<V>, rs: seq<Item<V>>)
    ensures OrderIndependent(rule, rs) <==> NoTopConflict(rule, rs)
  {
    if NoTopConflict(rule, rs) {
      forall ps | Reordering(rs, ps) ensures PutAll(rule, map[], ps) == PutAll(rule, map[], rs) {
        ReorderingHasSameItems(rs, ps);
        SameItemsSameState(rule, rs, ps);
      }
    } else {
      var k, r, q :| Best(rule, rs, k, r) && Best(rule, rs, k, q) && r != q;
      var pr, pq := BothWaysRound(rule, rs, k, r, q);
    }
  }

  /** Two unbeaten records for one key can each be made the survivor. */
  lemma BothWaysRound<V(!new)>(rule: Rule<V>, rs: seq<Item<V>>, k: string, r: Rec<V>, q: Rec<V>)
      returns (pr: seq<Item<V>>, pq: seq<Item<V>>)
    requires Best(rule, rs, k, r) && Best(rule, rs, k, q)
    ensures Reordering(rs, pr) && Reordering(rs, pq)
    ensures k in PutAll(rule, map[], pr) && PutAll(rule, map[], pr)[k] == r
    ensures k in PutAll(rule, map[], pq) && PutAll(rule, map[], pq)[k] == q
  {
    pr := FirstArrival(rs, (k, r));
    pq := FirstArrival(rs, (k, q));
    ReorderingHasSameItems(rs, pr);
    ReorderingHasSameItems(rs, pq);
    FirstUnbeatenStays(rule, pr);
    FirstUnbeatenStays(rule, pq);
  }

  ghost predicate RulesAgree<V(!new)>(text: V -> string, rs: seq<Item<V>>)
  {
    forall ps :: Reordering(rs, ps) ==>
      PutAll(TwoLevel, map[], ps) == PutAll(ThreeLevel(text), map[], ps)
  }

  /** The Go, Rust and Java maps match the Python one on every arrival order of `rs` exactly
      when no key has two different records under its highest (timestamp, writer) stamp. */
  lemma RulesAgreeIff<V(!new)>(text: V -> string, rs: seq<Item<V>>)
    requires Injective(text)
    ensures RulesAgree(text, rs) <==> NoTopConflict(TwoLevel, rs)
  {
    if NoTopConflict(TwoLevel, rs) {
      forall ps | Reordering(rs, ps)
        ensures PutAll(TwoLevel, map[], ps) == PutAll(ThreeLevel(text), map[], ps)
      {
        ReorderingHasSameItems(rs, ps);
        assert forall k, r :: Best(TwoLevel, rs, k, r) <==> Best(TwoLevel, ps, k, r);
        RulesAgreeOnOrder(text, ps);
      }
    } else {
      var k, r, q :| Best(TwoLevel, rs, k, r) && Best(TwoLevel, rs, k, q) && r != q;
      var pr, pq := BothWaysRound(TwoLevel, rs, k, r, q);
      ReorderingHasSameItems(rs, pr);
      ReorderingHasSameItems(rs, pq);
      StrongConvergence(text, pr, pq);
    }
  }

  lemma RulesAgreeOnOrder<V(!new)>(text: V -> string, rs: seq<Item<V>>)
    requires NoTopConflict(TwoLevel, rs)
    ensures PutAll(TwoLevel, map[], rs) == PutAll(ThreeLevel(text), map[], rs)
  {
    var s, t := PutAll(TwoLevel, map[], rs), PutAll(ThreeLevel(text), map[], rs);
    FoldKeepsBest(TwoLevel, rs);
    FoldKeepsBest(ThreeLevel(text), rs);
    assert s.Keys == t.Keys;
    forall k | k in s ensures s[k] == t[k] {
      assert Best(ThreeLevel(text), rs, k, t[k]);
      assert Best(TwoLevel, rs, k, t[k]);
    }
  }

  /** The (key, timestamp, writer) triple fixes the value. */
  ghost predicate StampFixesValue<V>(rs: seq<Item<V>>)
  {
    forall x, y :: x in rs && y in rs && x.0 == y.0 && x.1.ts == y.1.ts && x.1.writer == y.1.writer
      ==> x.1.value == y.1.value
  }

  lemma FixedValuesMakeRulesAgree<V(!new)>(text: V -> string, rs: seq<Item<V>>)
    requires StampFixesValue(rs)
    ensures PutAll(TwoLevel, map[], rs) == PutAll(ThreeLevel(text), map[], rs)
  {
    forall k, r, q | Best(TwoLevel, rs, k, r) && Best(TwoLevel, rs, k, q) ensures r == q {
      assert (k, r) in rs && (k, q) in rs;
      TieMeansSameRank(TwoLevel, r, q);
    }
    RulesAgreeOnOrder(text, rs);
  }

  lemma TwoApplications<V>(rule: Rule<V>, x: Item<V>, y: Item<V>)
    ensures PutAll(rule, map[], [x, y]) == Put(rule, map[x.0 := x.1], y.0, y.1)
  {
    assert [x, y][..1] == [x];
    assert PutAll(rule, map[], [x]) == map[x.0 := x.1];
  }

  /** Without that condition the two-level rule keeps whichever record came first, so two
      replicas offered the same two records stay different, where the three-level rule agrees. */
  lemma TwoLevelDependsOnOrder<V(!new)>(text: V -> string, k: string, v: V, w: V, ts: int, writer: string)
    requires v != w && Injective(text)
    ensures var x, y := (k, Rec(v, ts, writer)), (k, Rec(w, ts, writer));
      && PutAll(TwoLevel, map[], [x, y]) == map[k := x.1]
      && PutAll(TwoLevel, map[], [y, x]) == map[k := y.1]
      && PutAll(ThreeLevel(text), map[], [x, y]) == PutAll(ThreeLevel(text), map[], [y, x])
  {
    var x, y := (k, Rec(v, ts, writer)), (k, Rec(w, ts, writer));
    LexOrder.Irreflexive(writer);
    TwoApplications(TwoLevel, x, y);
    TwoApplications(TwoLevel, y, x);
    assert SameItems([x, y], [y, x]);
    StrongConvergence(text, [x, y], [y, x]);
  }

  // ----- two tie-breaking texts -----

  predicate OrderAlike<V>(t: V -> string, u: V -> string, v: V, w: V)
  {
    LexOrder.Less(t(v), t(w)) <==> LexOrder.Less(u(v), u(w))
  }

  lemma PutAlike<V>(t: V -> string, u: V -> string, s: State<V>, k: string, r: Rec<V>)
    requires k in s && s[k].ts == r.ts && s[k].writer == r.writer ==> OrderAlike(t, u, s[k].value, r.value)
    ensures Put(ThreeLevel(t), s, k, r) == Put(ThreeLevel(u), s, k, r)
  {
  }

  /** Two maps whose texts order the values of equally stamped records alike reach the same state. */
  lemma {:induction false} AlikeTextsSameState<V>(t: V -> string, u: V -> string, rs: seq<Item<V>>)
    requires forall x, y :: x in rs && y in rs && x.0 == y.0 && x.1.ts == y.1.ts && x.1.writer == y.1.writer ==>
      OrderAlike(t, u, x.1.value, y.1.value)
    ensures PutAll(ThreeLevel(t), map[], rs) == PutAll(ThreeLevel(u), map[], rs)
  {
    if rs != [] {
      var front, last := rs[..|rs| - 1], rs[|rs| - 1];
      assert (forall x :: x in front ==> x in rs) && last in rs;
      AlikeTextsSameState(t, u, front);
      FoldKeepsBest(ThreeLevel(t), front);
      var s := PutAll(ThreeLevel(t), map[], front);
      assert last.0 in s ==> (last.0, s[last.0]) in front;
      PutAlike(t, u, s, last.0, last.1);
    }
  }

  /** On two values under one stamp two maps end alike exactly when their texts order them alike. */
  lemma TieEndsAlikeIff<V(!new)>(t: V -> string, u: V -> string, k: string, v: V, w: V, ts: int, writer: string)
    requires Injective(t) && Injective(u)
    ensures var x, y := (k, Rec(v, ts, writer)), (k, Rec(w, ts, writer));
      PutAll(ThreeLevel(t), map[], [x, y]) == PutAll(ThreeLevel(u), map[], [x, y]) <==> OrderAlike(t, u, v, w)
  {
    var x, y := (k, Rec(v, ts, writer)), (k, Rec(w, ts, writer));
    LexOrder.Irreflexive(writer);
    LexOrder.Irreflexive(t(v));
    LexOrder.Irreflexive(u(v));
    TwoApplications(ThreeLevel(t), x, y);
    TwoApplications(ThreeLevel(u), x, y);
    var a, b := map[k := x.1], map[k := y.1];
    assert v != w ==> a[k] != b[k];
  }

  /** Two maps agree on every sequence of records with values from p exactly when their texts
      order the values of p alike. */
  lemma MapsAgreeOnIff<V(!new)>(t: V -> string, u: V -> string, p: V -> bool)
    requires Injective(t) && Injective(u)
    ensures (forall rs: seq<Item<V>> :: ValuesFrom(rs, p) ==> PutAll(ThreeLevel(t), map[], rs) == PutAll(ThreeLevel(u), map[], rs))
       <==> (forall v, w :: p(v) && p(w) ==> OrderAlike(t, u, v, w))
  {
    if forall v, w :: p(v) && p(w) ==> OrderAlike(t, u, v, w) {
      forall rs: seq<Item<V>> | ValuesFrom(rs, p) ensures PutAll(ThreeLevel(t), map[], rs) == PutAll(ThreeLevel(u), map[], rs) {
        AlikeTextsSameState(t, u, rs);
      }
    } else {
      var v, w :| p(v) && p(w) && !OrderAlike(t, u, v, w);
      TieEndsAlikeIff(t, u, "k", v, w, 0, "w");
      assert ValuesFrom([("k", Rec(v, 0, "w")), ("k", Rec(w, 0, "w"))], p);
    }
  }

  ghost predicate ValuesFrom<V>(rs: seq<Item<V>>, p: V -> bool)
  {
    forall x :: x in rs ==> p(x.1.value)
  }

  // ----- whole-state merge -----

  /** Per key, the record that survives when the records of `b` are offered to `a`. */
  function Join<V>(rule: Rule<V>, a: State<V>, b: State<V>): State<V>
  {
    map k | k in a.Keys + b.Keys ::
      if k !in b then a[k] else if k in a && !Beats(rule, b[k], a[k]) then a[k] else b[k]
  }

  /** `rs` lists the entries of `b`, in some order, possibly with repetitions. */
  ghost predicate Lists<V(!new)>(rs: seq<Item<V>>, b: State<V>)
  {
    forall x :: x in rs <==> x.0 in b && b[x.0] == x.1
  }

  /** The per-key steps of a merge add up to the join, whatever the iteration order. */
  lemma {:induction false} FoldOfEntriesIsJoin<V(!new)>(rule: Rule<V>, a: State<V>, rs: seq<Item<V>>, b: State<V>)
    requires Lists(rs, b)
    ensures PutAll(rule, a, rs) == Join(rule, a, b)
  {
    PartialFold(rule, a, rs, b);
    var done := map k | k in b && (k, b[k]) in rs :: b[k];
    assert forall k :: k in b ==> (k, b[k]) in rs;
    assert done == b;
  }

  lemma {:induction false} PartialFold<V>(rule: Rule<V>, a: State<V>, rs: seq<Item<V>>, b: State<V>)
    requires forall x :: x in rs ==> x.0 in b && b[x.0] == x.1
    ensures PutAll(rule, a, rs) == Join(rule, a, map k | k in b && (k, b[k]) in rs :: b[k])
  {
    var done := map k | k in b && (k, b[k]) in rs :: b[k];
    if rs == [] {
      assert done == map[];
      assert Join(rule, a, done).Keys == a.Keys;
    } else {
      var front, last := rs[..|rs| - 1], rs[|rs| - 1];
      assert rs == front + [last];
      PartialFold(rule, a, front, b);
      var before := map k | k in b && (k, b[k]) in front :: b[k];
      assert done == before[last.0 := last.1];
      PutIntoJoin(rule, a, before, last.0, last.1);
    }
  }

  /** Offering one more entry of the other state extends the join by that entry. */
  lemma PutIntoJoin<V>(rule: Rule<V>, a: State<V>, b: State<V>, k: string, r: Rec<V>)
    requires k in b ==> b[k] == r
    ensures Put(rule, Join(rule, a, b), k, r) == Join(rule, a, b[k := r])
  {
    NeverBeatsItself(rule, r);
    var l, m := Put(rule, Join(rule, a, b), k, r), Join(rule, a, b[k := r]);
    assert l.Keys == m.Keys;
  }

  lemma JoinIdempotent<V>(rule: Rule<V>, a: State<V>)
    ensures Join(rule, a, a) == a
  {
    assert Join(rule, a, a).Keys == a.Keys;
  }

  lemma JoinAssociative<V>(rule: Rule<V>, a: State<V>, b: State<V>, c: State<V>)
    ensures Join(rule, Join(rule, a, b), c) == Join(rule, a, Join(rule, b, c))
  {
    var l, r := Join(rule, Join(rule, a, b), c), Join(rule, a, Join(rule, b, c));
    assert l.Keys == r.Keys;
    forall k | k in l ensures l[k] == r[k] {
      if k in a && k in b && k in c {
        if !Beats(rule, c[k], b[k]) && !Beats(rule, b[k], a[k]) {
          NotBeatsTransitive(rule, c[k], b[k], a[k]);
        }
        if Beats(rule, b[k], a[k]) && Beats(rule, c[k], b[k]) && !Beats(rule, c[k], a[k]) {
          BeatsAsymmetric(rule, c[k], b[k]);
          NotBeatsTransitive(rule, b[k], c[k], a[k]);
        }
      }
    }
  }

  /** Merging is commutative exactly when no shared key holds two different records of the
      same rank; with injective texts the three-level rule always meets this. */
  lemma JoinCommutativeIff<V>(rule: Rule<V>, a: State<V>, b: State<V>)
    ensures Join(rule, a, b) == Join(rule, b, a)
       <==> (forall k :: k in a && k in b && a[k] != b[k] ==> Beats(rule, a[k], b[k]) || Beats(rule, b[k], a[k]))
  {
    var l, r := Join(rule, a, b), Join(rule, b, a);
    assert l.Keys == r.Keys;
    forall k | k in a && k in b
      ensures l[k] == r[k] <==> (a[k] != b[k] ==> Beats(rule, a[k], b[k]) || Beats(rule, b[k], a[k]))
    {
      if Beats(rule, a[k], b[k]) {
        BeatsAsymmetric(rule, a[k], b[k]);
      }
    }
    if l == r {
      forall k | k in a && k in b && a[k] != b[k] ensures Beats(rule, a[k], b[k]) || Beats(rule, b[k], a[k]) {
        assert l[k] == r[k];
      }
    }
  }

  lemma PutIsJoin<V>(rule: Rule<V>, s: State<V>, k: string, r: Rec<V>)
    ensures Put(rule, s, k, r) == Join(rule, s, map[k := r])
  {
    var one := map[k := r];
    assert Join(rule, s, one).Keys == s.Keys + {k};
    assert Put(rule, s, k, r).Keys == s.Keys + {k};
  }

  /** From any start, applying records is joining what they leave behind on their own. */
  lemma {:induction false} FoldFromIsJoin<V>(rule: Rule<V>, s: State<V>, rs: seq<Item<V>>)
    ensures PutAll(rule, s, rs) == Join(rule, s, PutAll(rule, map[], rs))
  {
    if rs == [] {
      var none: State<V> := map[];
      assert Join(rule, s, none).Keys == s.Keys;
    } else {
      var front, last := rs[..|rs| - 1], rs[|rs| - 1];
      var m := PutAll(rule, map[], front);
      FoldFromIsJoin(rule, s, front);
      PutIsJoin(rule, Join(rule, s, m), last.0, last.1);
      PutIsJoin(rule, m, last.0, last.1);
      JoinAssociative(rule, s, m, map[last.0 := last.1]);
    }
  }

  lemma JoinCommutative<V(!new)>(text: V -> string, a: State<V>, b: State<V>)
    requires Injective(text)
    ensures Join(ThreeLevel(text), a, b) == Join(ThreeLevel(text), b, a)
  {
    forall k | k in a && k in b && a[k] != b[k]
      ensures Beats(ThreeLevel(text), a[k], b[k]) || Beats(ThreeLevel(text), b[k], a[k])
    {
      TieMeansSameRank(ThreeLevel(text), a[k], b[k]);
    }
    JoinCommutativeIff(ThreeLevel(text), a, b);
  }
}
