/** The LWW-Map theorems on actual JSON values: the canonical text is the tie-breaker and
    the database column, and unique readability is what makes both of them exact. */
module LwwJson {
  import opened JsonText
  import opened JsonCanonical
  import opened JsonOrder
  import opened LwwRecords
  import opened LwwReplica
  import opened LwwNetwork
  import LexOrder

  predicate IsNormal(v: Json)
  {
    WellFormed(v) && Normalise(v) == v
  }

  /** JSON values up to key order, each represented by its normal form. */
  type NormalJson = v: Json | IsNormal(v) witness Null

  function StringValue(s: string): NormalJson
  {
    Str(s)
  }

  function Loads(d: Dialect, text: string): NormalJson
  {
    match Read(d, text)
    case Fail => Null
    case Got(v, _) =>
      if WellFormed(v) then NormaliseIdempotent(v); Normalise(v) else Null
  }

  function JsonCodec(d: Dialect): Codec<NormalJson>
  {
    Codec((v: NormalJson) => Print(d, v), text => Loads(d, text))
  }

  /** Every JSON value survives being written to and read from the value column. */
  lemma JsonCodecIsLossless(d: Dialect)
    ensures Lossless(JsonCodec(d))
  {
    forall v: NormalJson ensures JsonCodec(d).loads(JsonCodec(d).dumps(v)) == v {
      CanonicalIsReadable(d, v, "");
      assert Canonical(d, v) + "" == Print(d, v);
    }
  }

  /** Strong convergence of JSON-valued replicas over whole runs, with no assumption about the codec. */
  lemma JsonReplicasConverge(d: Dialect, ids: map<string, bool>, es: seq<Event<NormalJson>>, i: string, j: string)
    requires i in ids && j in ids
    requires var n := Run(JsonCodec(d), Init(ids), es);
      Entries(n.sites[i].rep.state) <= n.sites[j].absorbed && Entries(n.sites[j].rep.state) <= n.sites[i].absorbed
    ensures var n := Run(JsonCodec(d), Init(ids), es);
      n.sites[i].rep.state == n.sites[j].rep.state && n.sites[i].rep.clock == n.sites[j].rep.clock
  {
    JsonCodecIsLossless(d);
    MutualEntriesSameState(JsonCodec(d), ids, es, i, ids, es, j);
  }

  lemma JsonStampsUniqueIffDurable(d: Dialect, ids: map<string, bool>)
    ensures (forall es :: Native(es) ==> UniqueStamps(Run(JsonCodec(d), Init(ids), es))) <==> (forall i :: i in ids ==> ids[i])
  {
    JsonCodecIsLossless(d);
    UniqueStampsIffDurable<NormalJson>(JsonCodec(d), ids, Null, Bool(true));
  }

  // ----- Python against TypeScript -----

  function PythonTie(): NormalJson -> string
  {
    JsonCodec(PYTHON_DUMPS).dumps
  }

  function TypeScriptTie(): NormalJson -> string
  {
    (v: NormalJson) => TypeScriptText(v)
  }

  lemma TieTextsInjective()
    ensures Injective(PythonTie()) && Injective(TypeScriptTie())
  {
    forall v: NormalJson, w: NormalJson | PythonTie()(v) == PythonTie()(w) ensures v == w {
      assert Print(PYTHON_DUMPS, v) + "" == Print(PYTHON_DUMPS, w) + "";
      UniquelyReadable(PYTHON_DUMPS, v, "", w, "");
    }
    forall v: NormalJson, w: NormalJson | TypeScriptTie()(v) == TypeScriptTie()(w) ensures v == w {
      Utf16Injective(Print(SERDE, v), Print(SERDE, w));
      assert Print(SERDE, v) + "" == Print(SERDE, w) + "";
      UniquelyReadable(SERDE, v, "", w, "");
    }
  }

  /** The TypeScript map converges too, comparing by code unit. */
  lemma TypeScriptConverges(rs: seq<Item<NormalJson>>, ps: seq<Item<NormalJson>>)
    requires SameItems(rs, ps)
    ensures PutAll(ThreeLevel(TypeScriptTie()), map[], rs) == PutAll(ThreeLevel(TypeScriptTie()), map[], ps)
  {
    TieTextsInjective();
    StrongConvergence(TypeScriptTie(), rs, ps);
  }

  /** On two values under one stamp Python and TypeScript keep the same one exactly when the
      texts TypeScript compares do not clash. */
  lemma PythonMatchesTypeScriptIff(k: string, v: NormalJson, w: NormalJson, ts: int, writer: string)
    ensures var x, y := (k, Rec(v, ts, writer)), (k, Rec(w, ts, writer));
      PutAll(ThreeLevel(PythonTie()), map[], [x, y]) == PutAll(ThreeLevel(TypeScriptTie()), map[], [x, y])
      <==> !Clash(TypeScriptText(v), TypeScriptText(w))
  {
    TieTextsInjective();
    TieEndsAlikeIff(PythonTie(), TypeScriptTie(), k, v, w, ts, writer);
    TextOrdersAgreeIff(v, w);
  }

  /** Over whole sequences: they agree on all records with values from p exactly when no two
      texts of p clash. */
  lemma PythonMatchesTypeScriptOnIff(p: NormalJson -> bool)
    ensures (forall rs: seq<Item<NormalJson>> :: ValuesFrom(rs, p) ==>
              PutAll(ThreeLevel(PythonTie()), map[], rs) == PutAll(ThreeLevel(TypeScriptTie()), map[], rs))
       <==> (forall v: NormalJson, w: NormalJson :: p(v) && p(w) ==> !Clash(TypeScriptText(v), TypeScriptText(w)))
  {
    TieTextsInjective();
    MapsAgreeOnIff(PythonTie(), TypeScriptTie(), p);
    forall v: NormalJson, w: NormalJson
      ensures OrderAlike(PythonTie(), TypeScriptTie(), v, w) <==> !Clash(TypeScriptText(v), TypeScriptText(w))
    {
      TextOrdersAgreeIff(v, w);
    }
  }

  /** In particular while no text leaves the printable ASCII range. */
  lemma AsciiValuesMatch(rs: seq<Item<NormalJson>>)
    requires forall x :: x in rs ==> forall c :: c in TypeScriptText(x.1.value) ==> c <= '~'
    ensures PutAll(ThreeLevel(PythonTie()), map[], rs) == PutAll(ThreeLevel(TypeScriptTie()), map[], rs)
  {
    forall x, y | x in rs && y in rs ensures OrderAlike(PythonTie(), TypeScriptTie(), x.1.value, y.1.value) {
      TextOrdersAgreeIff(x.1.value, y.1.value);
      PlainTextsDoNotClash(TypeScriptText(x.1.value), TypeScriptText(y.1.value));
    }
    AlikeTextsSameState(PythonTie(), TypeScriptTie(), rs);
  }

  /** It does happen: for "é" against "z" Python keeps "z" and TypeScript "é". */
  lemma TieBreakTextsCanDisagree(k: string, ts: int, writer: string)
    ensures var x, y := (k, Rec(StringValue("\U{e9}"), ts, writer)), (k, Rec(StringValue("z"), ts, writer));
      && PutAll(ThreeLevel(PythonTie()), map[], [x, y]) == map[k := y.1]
      && PutAll(ThreeLevel(TypeScriptTie()), map[], [x, y]) == map[k := x.1]
  {
    var x, y := (k, Rec(StringValue("\U{e9}"), ts, writer)), (k, Rec(StringValue("z"), ts, writer));
    LexOrder.Irreflexive(writer);
    TwoApplications(ThreeLevel(PythonTie()), x, y);
    TwoApplications(ThreeLevel(TypeScriptTie()), x, y);
    PythonPutsAccentFirst();
    TypeScriptPutsAccentLast();
  }

  lemma PythonPutsAccentFirst()
    ensures LexOrder.Less(PythonText(Str("\U{e9}")), PythonText(Str("z")))
  {
    var a, b := PythonText(Str("\U{e9}")), PythonText(Str("z"));
    QuoteOfOne(PYTHON_DUMPS, '\U{e9}');
    QuoteOfOne(PYTHON_DUMPS, 'z');
    assert a[..1] == b[..1] && a[1] == '\\' && b[1] == 'z';
    FirstDifference(a, b, 1);
  }

  lemma TypeScriptPutsAccentLast()
    ensures !LexOrder.Less(TypeScriptText(Str("\U{e9}")), TypeScriptText(Str("z")))
  {
    var a, b := TypeScriptText(Str("\U{e9}")), TypeScriptText(Str("z"));
    QuoteOfOne(SERDE, '\U{e9}');
    QuoteOfOne(SERDE, 'z');
    ThreeUnits('\U{e9}');
    ThreeUnits('z');
    assert a[..1] == b[..1] && a[1] == '\U{e9}' && b[1] == 'z';
    FirstDifference(a, b, 1);
  }

  lemma ThreeUnits(c: char)
    requires c as int < 0xD800
    ensures Utf16("\"" + [c] + "\"") == "\"" + [c] + "\""
  {
    var quote := "\"";
    assert quote[1..] == [] && [c][1..] == [];
    assert Utf16(quote) == quote && Utf16([c]) == [c];
    Utf16Concat(quote + [c], quote);
    Utf16Concat(quote, [c]);
  }

  lemma QuoteOfOne(d: Dialect, c: char)
    ensures Quote(d, [c]) == "\"" + Escape(d, c) + "\""
  {
    assert EscapeAll(d, [c][1..]) == [];
  }
}
