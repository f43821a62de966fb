/** Canonical JSON: keys sorted at every depth.  The printers' loops are proved against the
    recursive text of the normalised tree, and that text is proved to identify exactly the
    trees that differ only in key order. */
module JsonCanonical {
  import opened JsonText
  import LexOrder

  // ----- sorting by key -----

  function InsertKey(k: string, ks: seq<string>): seq<string>
  {
    if ks != [] && LexOrder.Less(ks[0], k) then [ks[0]] + InsertKey(k, ks[1..]) else [k] + ks
  }

  function SortKeys(ks: seq<string>): seq<string>
  {
    if ks == [] then [] else InsertKey(ks[0], SortKeys(ks[1..]))
  }

  function InsertMember(m: Member, ms: seq<Member>): seq<Member>
  {
    if ms != [] && LexOrder.Less(ms[0].key, m.key) then [ms[0]] + InsertMember(m, ms[1..]) else [m] + ms
  }

  function SortMembers(ms: seq<Member>): seq<Member>
  {
    if ms == [] then [] else InsertMember(ms[0], SortMembers(ms[1..]))
  }

  function KeysOf(ms: seq<Member>): (ks: seq<string>)
    ensures |ks| == |ms| && forall i :: 0 <= i < |ms| ==> ks[i] == ms[i].key
  {
    if ms == [] then [] else [ms[0].key] + KeysOf(ms[1..])
  }

  predicate UniqueKeys(ms: seq<Member>)
  {
    forall i, j :: 0 <= i < j < |ms| ==> ms[i].key != ms[j].key
  }

  predicate StrictlySorted(ms: seq<Member>)
  {
    forall i, j :: 0 <= i < j < |ms| ==> LexOrder.Less(ms[i].key, ms[j].key)
  }

  lemma {:induction false} KeysOfInsert(m: Member, ms: seq<Member>)
    ensures KeysOf(InsertMember(m, ms)) == InsertKey(m.key, KeysOf(ms))
  {
    if ms != [] && LexOrder.Less(ms[0].key, m.key) {
      KeysOfInsert(m, ms[1..]);
      assert KeysOf(ms)[1..] == KeysOf(ms[1..]);
      assert InsertMember(m, ms)[1..] == InsertMember(m, ms[1..]);
    } else {
      assert InsertMember(m, ms)[1..] == ms;
    }
  }

  lemma {:induction false} KeysOfSort(ms: seq<Member>)
    ensures KeysOf(SortMembers(ms)) == SortKeys(KeysOf(ms))
  {
    if ms != [] {
      KeysOfSort(ms[1..]);
      KeysOfInsert(ms[0], SortMembers(ms[1..]));
      assert KeysOf(ms)[1..] == KeysOf(ms[1..]);
    }
  }

  lemma {:induction false} InsertKeepsOrder(m: Member, ms: seq<Member>)
    requires StrictlySorted(ms) && forall i :: 0 <= i < |ms| ==> ms[i].key != m.key
    ensures StrictlySorted(InsertMember(m, ms))
    ensures forall x :: x in InsertMember(m, ms) <==> x == m || x in ms
  {
    if ms != [] {
      LexOrder.Total(ms[0].key, m.key);
      if LexOrder.Less(ms[0].key, m.key) {
        InsertKeepsOrder(m, ms[1..]);
        var tail := InsertMember(m, ms[1..]);
        forall x | x in tail ensures LexOrder.Less(ms[0].key, x.key) {
          if x != m {
            var i :| 0 <= i < |ms[1..]| && ms[1..][i] == x;
            assert ms[i + 1] == x;
          }
        }
        assert ms == [ms[0]] + ms[1..];
      } else {
        forall i | 0 <= i < |ms| ensures LexOrder.Less(m.key, ms[i].key) {
          if i > 0 {
            LexOrder.Transitive(m.key, ms[0].key, ms[i].key);
          }
        }
      }
    }
  }

  lemma {:induction false} SortSorts(ms: seq<Member>)
    requires UniqueKeys(ms)
    ensures StrictlySorted(SortMembers(ms))
    ensures forall x :: x in SortMembers(ms) <==> x in ms
  {
    if ms != [] {
      var tail := SortMembers(ms[1..]);
      SortSorts(ms[1..]);
      forall i | 0 <= i < |tail| ensures tail[i].key != ms[0].key {
        assert tail[i] in ms[1..];
      }
      InsertKeepsOrder(ms[0], tail);
      assert ms == [ms[0]] + ms[1..];
    }
  }

  /** A strictly sorted list is determined by its elements. */
  lemma {:induction false} SameElementsSameList(xs: seq<Member>, ys: seq<Member>)
    requires StrictlySorted(xs) && StrictlySorted(ys)
    requires forall x :: x in xs <==> x in ys
    ensures xs == ys
  {
    assert xs != [] ==> xs[0] in ys;
    assert ys != [] ==> ys[0] in xs;
    if xs != [] {
      if xs[0] != ys[0] {
        LexOrder.Asymmetric(xs[0].key, ys[0].key);
      }
      forall x | x in xs[1..] ensures x in ys[1..] {
        LexOrder.Irreflexive(x.key);
        assert x in ys && x != xs[0];
      }
      forall x | x in ys[1..] ensures x in xs[1..] {
        LexOrder.Irreflexive(x.key);
        assert x in xs && x != ys[0];
      }
      SameElementsSameList(xs[1..], ys[1..]);
      assert xs == [xs[0]] + xs[1..] && ys == [ys[0]] + ys[1..];
    }
  }

  lemma {:induction false} SortOfSorted(ms: seq<Member>)
    requires StrictlySorted(ms)
    ensures SortMembers(ms) == ms
  {
    StrictMeansUnique(ms);
    SortSorts(ms);
    SameElementsSameList(SortMembers(ms), ms);
  }

  lemma StrictMeansUnique(ms: seq<Member>)
    requires StrictlySorted(ms)
    ensures UniqueKeys(ms)
  {
    forall i, j | 0 <= i < j < |ms| ensures ms[i].key != ms[j].key {
      LexOrder.Irreflexive(ms[i].key);
    }
  }

  // ----- normal form -----

  function Normalise(v: Json): Json
    decreases v
  {
    match v
    case Arr(items) => Arr(NormaliseItems(items))
    case Obj(ms) => Obj(SortMembers(NormaliseMembers(ms)))
    case _ => v
  }

  function NormaliseItems(items: seq<Json>): (ns: seq<Json>)
    ensures |ns| == |items| && forall i :: 0 <= i < |items| ==> ns[i] == Normalise(items[i])
    decreases items
  {
    if items == [] then [] else [Normalise(items[0])] + NormaliseItems(items[1..])
  }

  function NormaliseMembers(ms: seq<Member>): (ns: seq<Member>)
    ensures |ns| == |ms| && forall i :: 0 <= i < |ms| ==> ns[i] == Member(ms[i].key, Normalise(ms[i].value))
    decreases ms
  {
    if ms == [] then [] else [Member(ms[0].key, Normalise(ms[0].value))] + NormaliseMembers(ms[1..])
  }

  /** No object has a key twice, which the sources' map types guarantee. */
  predicate WellFormed(v: Json)
    decreases v
  {
    match v
    case Arr(items) => forall i :: 0 <= i < |items| ==> WellFormed(items[i])
    case Obj(ms) => UniqueKeys(ms) && forall i :: 0 <= i < |ms| ==> WellFormed(ms[i].value)
    case _ => true
  }

  function Canonical(d: Dialect, v: Json): string
  {
    Print(d, Normalise(v))
  }

  // ----- equality of JSON values -----

  ghost predicate SameKeys(ms: seq<Member>, ns: seq<Member>)
  {
    forall k :: k in KeysOf(ms) <==> k in KeysOf(ns)
  }

  /** Equal as JSON values: arrays by position, objects by key. */
  ghost predicate Equivalent(v: Json, w: Json)
    decreases v
  {
    match v
    case Arr(items) =>
      w.Arr? && |items| == |w.items| && forall i :: 0 <= i < |items| ==> Equivalent(items[i], w.items[i])
    case Obj(ms) =>
      w.Obj? && SameKeys(ms, w.members)
      && forall i, j :: 0 <= i < |ms| && 0 <= j < |w.members| && ms[i].key == w.members[j].key ==>
           Equivalent(ms[i].value, w.members[j].value)
    case _ => v == w
  }

  lemma {:induction false} NormalFormIffEquivalent(v: Json, w: Json)
    requires WellFormed(v) && WellFormed(w)
    ensures Normalise(v) == Normalise(w) <==> Equivalent(v, w)
    decreases v
  {
    match v
    case Arr(items) =>
      if w.Arr? && |items| == |w.items| {
        forall i | 0 <= i < |items|
          ensures Normalise(items[i]) == Normalise(w.items[i]) <==> Equivalent(items[i], w.items[i])
        {
          NormalFormIffEquivalent(items[i], w.items[i]);
        }
        ItemsNormalAlike(items, w.items);
      }
    case Obj(ms) =>
      if w.Obj? {
        forall i, j | 0 <= i < |ms| && 0 <= j < |w.members|
          ensures Normalise(ms[i].value) == Normalise(w.members[j].value) <==> Equivalent(ms[i].value, w.members[j].value)
        {
          NormalFormIffEquivalent(ms[i].value, w.members[j].value);
        }
        MembersNormalAlike(ms, w.members);
      }
    case _ =>
  }

  lemma ItemsNormalAlike(items: seq<Json>, items': seq<Json>)
    requires |items| == |items'|
    ensures Normalise(Arr(items)) == Normalise(Arr(items'))
       <==> forall i :: 0 <= i < |items| ==> Normalise(items[i]) == Normalise(items'[i])
  {
    var ns, ns' := NormaliseItems(items), NormaliseItems(items');
    if ns == ns' {
      assert forall i :: 0 <= i < |items| ==> ns[i] == ns'[i];
    }
  }

  lemma MembersNormalAlike(ms: seq<Member>, ms': seq<Member>)
    requires UniqueKeys(ms) && UniqueKeys(ms')
    ensures Normalise(Obj(ms)) == Normalise(Obj(ms'))
       <==> (SameKeys(ms, ms')
             && forall i, j :: 0 <= i < |ms| && 0 <= j < |ms'| && ms[i].key == ms'[j].key ==>
                  Normalise(ms[i].value) == Normalise(ms'[j].value))
  {
    var ns, ns' := NormaliseMembers(ms), NormaliseMembers(ms');
    SortSorts(ns);
    SortSorts(ns');
    if SortMembers(ns) == SortMembers(ns') {
      assert forall x :: x in ns <==> x in ns';
      forall k ensures k in KeysOf(ms) <==> k in KeysOf(ms') {
        KeyOfSomeMember(ms, ms', ns, ns', k);
        KeyOfSomeMember(ms', ms, ns', ns, k);
      }
      forall i, j | 0 <= i < |ms| && 0 <= j < |ms'| && ms[i].key == ms'[j].key
        ensures Normalise(ms[i].value) == Normalise(ms'[j].value)
      {
        assert ns[i] in ns';
        assert ns'[j].key == ns[i].key;
      }
    } else if SameKeys(ms, ms')
        && forall i, j :: 0 <= i < |ms| && 0 <= j < |ms'| && ms[i].key == ms'[j].key ==>
             Normalise(ms[i].value) == Normalise(ms'[j].value) {
      forall x | x in ns ensures x in ns' {
        MatchingMember(ms, ms', ns, ns', x);
      }
      forall x | x in ns' ensures x in ns {
        MatchingMember(ms', ms, ns', ns, x);
      }
      SameElementsSameList(SortMembers(ns), SortMembers(ns'));
    }
  }

  lemma KeyOfSomeMember(ms: seq<Member>, ms': seq<Member>, ns: seq<Member>, ns': seq<Member>, k: string)
    requires ns == NormaliseMembers(ms) && ns' == NormaliseMembers(ms')
    requires forall x :: x in ns ==> x in ns'
    ensures k in KeysOf(ms) ==> k in KeysOf(ms')
  {
    if k in KeysOf(ms) {
      var i :| 0 <= i < |ms| && KeysOf(ms)[i] == k;
      assert ns[i] in ns';
      var j :| 0 <= j < |ns'| && ns'[j] == ns[i];
      assert KeysOf(ms')[j] == k;
    }
  }

  lemma MatchingMember(ms: seq<Member>, ms': seq<Member>, ns: seq<Member>, ns': seq<Member>, x: Member)
    requires ns == NormaliseMembers(ms) && ns' == NormaliseMembers(ms') && x in ns
    requires SameKeys(ms, ms')
    requires forall i, j :: 0 <= i < |ms| && 0 <= j < |ms'| && ms[i].key == ms'[j].key ==>
               Normalise(ms[i].value) == Normalise(ms'[j].value)
    ensures x in ns'
  {
    var i :| 0 <= i < |ns| && ns[i] == x;
    assert KeysOf(ms)[i] == x.key;
    assert x.key in KeysOf(ms');
    var j :| 0 <= j < |ms'| && KeysOf(ms')[j] == x.key;
    assert ns'[j] == x;
  }

  lemma {:induction false} NormaliseIdempotent(v: Json)
    requires WellFormed(v)
    ensures Normalise(Normalise(v)) == Normalise(v) && WellFormed(Normalise(v))
    decreases v
  {
    match v
    case Arr(items) =>
      var ns := NormaliseItems(items);
      forall i | 0 <= i < |items| ensures Normalise(ns[i]) == ns[i] && WellFormed(ns[i]) {
        NormaliseIdempotent(items[i]);
      }
      assert NormaliseItems(ns) == ns;
    case Obj(ms) =>
      var ns := NormaliseMembers(ms);
      forall i | 0 <= i < |ms| ensures Normalise(ns[i].value) == ns[i].value && WellFormed(ns[i].value) {
        NormaliseIdempotent(ms[i].value);
      }
      SortedMembersAreNormal(ns);
    case _ =>
  }

  lemma SortedMembersAreNormal(ns: seq<Member>)
    requires UniqueKeys(ns)
    requires forall i :: 0 <= i < |ns| ==> Normalise(ns[i].value) == ns[i].value && WellFormed(ns[i].value)
    ensures var sorted := SortMembers(ns);
      && SortMembers(NormaliseMembers(sorted)) == sorted && UniqueKeys(sorted)
      && forall i :: 0 <= i < |sorted| ==> WellFormed(sorted[i].value)
  {
    SortSorts(ns);
    var sorted := SortMembers(ns);
    forall i | 0 <= i < |sorted| ensures Normalise(sorted[i].value) == sorted[i].value && WellFormed(sorted[i].value) {
      assert sorted[i] in ns;
    }
    assert NormaliseMembers(sorted) == sorted;
    SortOfSorted(sorted);
    StrictMeansUnique(sorted);
  }

  // ----- the results -----

  /** A reader recovers the normalised tree, and what followed it, from the canonical text. */
  lemma CanonicalIsReadable(d: Dialect, v: Json, rest: string)
    requires Delimited(rest)
    ensures Read(d, Canonical(d, v) + rest) == Got(Normalise(v), rest)
  {
    ReadPrinted(d, Normalise(v), rest);
  }

  /** Equal texts mean equal JSON values, and conversely: key order at any depth never
      changes the bytes, and nothing else is ever identified. */
  lemma SameTextIffEquivalent(d: Dialect, v: Json, w: Json)
    requires WellFormed(v) && WellFormed(w)
    ensures Canonical(d, v) == Canonical(d, w) <==> Equivalent(v, w)
  {
    NormalFormIffEquivalent(v, w);
    if Canonical(d, v) == Canonical(d, w) {
      assert Canonical(d, v) + "" == Canonical(d, w) + "";
      UniquelyReadable(d, Normalise(v), "", Normalise(w), "");
    }
  }

  lemma {:induction false} EquivalenceLaws(u: Json, v: Json, w: Json)
    requires WellFormed(u) && WellFormed(v) && WellFormed(w)
    ensures Equivalent(v, v)
    ensures Equivalent(v, w) ==> Equivalent(w, v)
    ensures Equivalent(u, v) && Equivalent(v, w) ==> Equivalent(u, w)
  {
    NormalFormIffEquivalent(v, v);
    NormalFormIffEquivalent(u, v);
    NormalFormIffEquivalent(v, w);
    NormalFormIffEquivalent(w, v);
    NormalFormIffEquivalent(u, w);
  }

  lemma ReorderedMembersPrintAlike(d: Dialect, ms: seq<Member>, ms': seq<Member>)
    requires WellFormed(Obj(ms)) && WellFormed(Obj(ms'))
    requires multiset(ms) == multiset(ms')
    ensures Canonical(d, Obj(ms)) == Canonical(d, Obj(ms'))
  {
    assert forall x :: x in ms <==> x in multiset(ms);
    assert forall x :: x in ms' <==> x in multiset(ms');
    var ns, ns' := NormaliseMembers(ms), NormaliseMembers(ms');
    SortSorts(ns);
    SortSorts(ns');
    forall x ensures x in ns <==> x in ns' {
      if x in ns {
        var i :| 0 <= i < |ns| && ns[i] == x;
        assert ms[i] in ms';
      }
      if x in ns' {
        var i :| 0 <= i < |ns'| && ns'[i] == x;
        assert ms'[i] in ms;
      }
    }
    SameElementsSameList(SortMembers(ns), SortMembers(ns'));
  }

  /** Printing, reading back and printing again gives the same text. */
  lemma PrintReadPrint(d: Dialect, v: Json)
    requires WellFormed(v)
    ensures Read(d, Canonical(d, v)).Got? && Canonical(d, Read(d, Canonical(d, v)).value) == Canonical(d, v)
  {
    CanonicalIsReadable(d, v, "");
    assert Canonical(d, v) + "" == Canonical(d, v);
    NormaliseIdempotent(v);
  }

  // ----- the printers' loops -----

  function Lookup(ms: seq<Member>, k: string): Json
    requires k in KeysOf(ms)
  {
    if ms[0].key == k then ms[0].value else Lookup(ms[1..], k)
  }

  lemma {:induction false} LookupFindsMember(ms: seq<Member>, i: int)
    requires UniqueKeys(ms) && 0 <= i < |ms|
    ensures KeysOf(ms)[i] == ms[i].key && Lookup(ms, ms[i].key) == ms[i].value
  {
    if i > 0 {
      LookupFindsMember(ms[1..], i - 1);
      assert KeysOf(ms)[1..] == KeysOf(ms[1..]);
    }
  }

  /** The i-th sorted member, found by sorting the keys alone and looking its value up. */
  lemma SortedMemberByLookup(ms: seq<Member>, i: int)
    requires UniqueKeys(ms) && 0 <= i < |SortKeys(KeysOf(ms))|
    ensures var sorted, k := SortMembers(NormaliseMembers(ms)), SortKeys(KeysOf(ms))[i];
      && |sorted| == |SortKeys(KeysOf(ms))|
      && k in KeysOf(ms)
      && (exists j :: 0 <= j < |ms| && Lookup(ms, k) == ms[j].value)
      && sorted[i] == Member(k, Normalise(Lookup(ms, k)))
  {
    var ns := NormaliseMembers(ms);
    assert KeysOf(ns) == KeysOf(ms);
    KeysOfSort(ns);
    SortSorts(ns);
    var sorted := SortMembers(ns);
    assert KeysOf(sorted)[i] == sorted[i].key;
    assert sorted[i] in ns;
    var j :| 0 <= j < |ns| && ns[j] == sorted[i];
    LookupFindsMember(ms, j);
  }

  lemma PrintMembersStep(d: Dialect, ms: seq<Member>, i: int)
    requires 0 <= i < |ms|
    ensures PrintMembers(d, ms[i..]) ==
      PrintMember(d, ms[i]) + (if i + 1 < |ms| then ItemSep(d) else "") + PrintMembers(d, ms[i + 1..])
  {
    assert ms[i..][1..] == ms[i + 1..];
  }

  lemma PrintItemsStep(d: Dialect, items: seq<Json>, i: int)
    requires 0 <= i < |items|
    ensures PrintItems(d, items[i..]) ==
      Print(d, items[i]) + (if i + 1 < |items| then ItemSep(d) else "") + PrintItems(d, items[i + 1..])
  {
    assert items[i..][1..] == items[i + 1..];
  }

  lemma AppendingParts(out: string, a: string, b: string, c: string, sep: string, rest: string)
    ensures out + (a + b + c + sep + rest) == out + a + b + c + sep + rest
    ensures sep == "" ==> out + a + b + c + sep == out + a + b + c
  {
  }

  /** `canonical_json_bytes` and `marshalSorted`: keys sorted, values looked up, a separator
      after every element but the last. */
  method CanonicalJson(d: Dialect, v: Json) returns (out: string)
    requires WellFormed(v)
    ensures out == Canonical(d, v)
    decreases v, 1
  {
    match v
    case Obj(members) => out := CanonicalObject(d, members);
    case Arr(items) => out := CanonicalArray(d, items);
    case _ => out := Print(d, v);
  }

  method CanonicalObject(d: Dialect, members: seq<Member>) returns (out: string)
    requires WellFormed(Obj(members))
    ensures out == Canonical(d, Obj(members))
    decreases Obj(members), 0
  {
    var keys := SortKeys(KeysOf(members));
    ghost var sorted := SortMembers(NormaliseMembers(members));
    KeysOfSort(NormaliseMembers(members));
    assert KeysOf(NormaliseMembers(members)) == KeysOf(members);
    out := "{";
    for i := 0 to |keys|
      invariant |sorted| == |keys|
      invariant out + PrintMembers(d, sorted[i..]) == "{" + PrintMembers(d, sorted)
    {
      var k := keys[i];
      SortedMemberByLookup(members, i);
      PrintMembersStep(d, sorted, i);
      var valueText := CanonicalJson(d, Lookup(members, k));
      AppendingParts(out, Quote(d, k), KeySep(d), valueText, if i + 1 < |keys| then ItemSep(d) else "",
                     PrintMembers(d, sorted[i + 1..]));
      out := out + Quote(d, k);
      out := out + KeySep(d);
      out := out + valueText;
      if i + 1 < |keys| {
        out := out + ItemSep(d);
      }
    }
    out := out + "}";
  }

  method CanonicalArray(d: Dialect, items: seq<Json>) returns (out: string)
    requires WellFormed(Arr(items))
    ensures out == Canonical(d, Arr(items))
    decreases Arr(items), 0
  {
    ghost var ns := NormaliseItems(items);
    out := "[";
    for i := 0 to |items|
      invariant out + PrintItems(d, ns[i..]) == "[" + PrintItems(d, ns)
    {
      PrintItemsStep(d, ns, i);
      var itemText := CanonicalJson(d, items[i]);
      ghost var before, rest := out, PrintItems(d, ns[i + 1..]);
      out := out + itemText;
      if i + 1 < |items| {
        out := out + ItemSep(d);
      }
      assert out + rest == before + PrintItems(d, ns[i..]);
    }
    out := out + "]";
  }
}
