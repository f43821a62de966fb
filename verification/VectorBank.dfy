/** The vector bank: cached norms and cosine ranking, over reals. */
module VectorBank {
  import opened Wrappers

  type Vector = seq<real>

  function SumSquares(v: Vector): real
  {
    if v == [] then 0.0 else SumSquares(v[..|v| - 1]) + v[|v| - 1] * v[|v| - 1]
  }

  function Dot(a: Vector, b: Vector): real
    requires |a| == |b|
  {
    if a == [] then 0.0 else Dot(a[..|a| - 1], b[..|b| - 1]) + a[|a| - 1] * b[|b| - 1]
  }

  /** `math.sqrt` returned `root` for `x`. */
  predicate IsRoot(root: real, x: real)
  {
    root >= 0.0 && root * root == x
  }

  // ----- Cauchy-Schwarz -----

  lemma {:induction false} SumSquaresNotNegative(v: Vector)
    ensures SumSquares(v) >= 0.0
  {
    if v != [] {
      SumSquaresNotNegative(v[..|v| - 1]);
      SquareNotNegative(v[|v| - 1]);
    }
  }

  lemma SquareNotNegative(x: real)
    ensures x * x >= 0.0
  {
  }

  lemma SquarePositive(x: real)
    requires x != 0.0
    ensures x * x > 0.0
  {
    if x < 0.0 {
      assert x * x == (-x) * (-x);
    }
  }

  lemma ProductNotNegative(x: real, y: real)
    requires x >= 0.0 && y >= 0.0
    ensures x * y >= 0.0
  {
  }

  /** From D^2 <= A B follows 2 D x y <= A y^2 + B x^2. */
  lemma CrossTerm(d: real, a: real, b: real, x: real, y: real)
    requires a >= 0.0 && b >= 0.0 && d * d <= a * b
    ensures 2.0 * (d * (x * y)) <= a * (y * y) + b * (x * x)
  {
    if a == 0.0 {
      if d != 0.0 {
        SquarePositive(d);
      }
      SquareNotNegative(x);
      ProductNotNegative(b, x * x);
    } else {
      var gap := a * (y * y) + b * (x * x) - 2.0 * (d * (x * y));
      Discriminant(d, a, b, x, y);
      if gap < 0.0 {
        NegativeTimesPositive(a, gap);
      }
    }
  }

  lemma NegativeTimesPositive(a: real, gap: real)
    requires a > 0.0 && gap < 0.0
    ensures a * gap < 0.0
  {
  }

  lemma Discriminant(d: real, a: real, b: real, x: real, y: real)
    requires d * d <= a * b
    ensures a * (a * (y * y) + b * (x * x) - 2.0 * (d * (x * y))) >= 0.0
  {
    var u := a * y - d * x;
    SquareNotNegative(u);
    SquareNotNegative(x);
    ProductNotNegative(a * b - d * d, x * x);
    assert a * (a * (y * y) + b * (x * x) - 2.0 * (d * (x * y))) == u * u + (a * b - d * d) * (x * x);
  }

  lemma {:induction false} CauchySchwarz(a: Vector, b: Vector)
    requires |a| == |b|
    ensures Dot(a, b) * Dot(a, b) <= SumSquares(a) * SumSquares(b)
  {
    if a != [] {
      var a', b', x, y := a[..|a| - 1], b[..|b| - 1], a[|a| - 1], b[|b| - 1];
      CauchySchwarz(a', b');
      SumSquaresNotNegative(a');
      SumSquaresNotNegative(b');
      OneMoreCoordinate(Dot(a', b'), SumSquares(a'), SumSquares(b'), x, y, Dot(a, b), SumSquares(a), SumSquares(b));
    }
  }

  lemma OneMoreCoordinate(d: real, a: real, b: real, x: real, y: real, d': real, a': real, b': real)
    requires a >= 0.0 && b >= 0.0 && d * d <= a * b
    requires d' == d + x * y && a' == a + x * x && b' == b + y * y
    ensures d' * d' <= a' * b'
  {
    CrossTerm(d, a, b, x, y);
    assert d' * d' == d * d + 2.0 * (d * (x * y)) + (x * y) * (x * y);
    assert a' * b' == a * b + a * (y * y) + b * (x * x) + (x * x) * (y * y);
    assert (x * y) * (x * y) == (x * x) * (y * y);
  }

  lemma SquareGrows(x: real, y: real)
    requires x > y >= 0.0
    ensures x * x > y * y
  {
    PositiveProduct(x - y, x + y, x * x - y * y);
  }

  lemma PositiveProduct(x: real, y: real, product: real)
    requires x > 0.0 && y > 0.0 && x * y == product
    ensures product > 0.0
  {
  }

  lemma SmallerSquareSmaller(x: real, y: real)
    requires y >= 0.0 && x * x <= y * y
    ensures -y <= x <= y
  {
    if x > y {
      SquareGrows(x, y);
    } else if x < -y {
      SquareGrows(-x, y);
    }
  }

  /** Cosine similarity from cached norms. */
  function Similarity(q: Vector, qNorm: real, v: Vector, norm: real): real
    requires |q| == |v| && qNorm * norm != 0.0
  {
    Dot(q, v) / (qNorm * norm)
  }

  /** With exact norms every similarity lies in [-1, 1]. */
  lemma SimilarityInRange(q: Vector, qNorm: real, v: Vector, norm: real)
    requires |q| == |v| && IsRoot(qNorm, SumSquares(q)) && IsRoot(norm, SumSquares(v)) && qNorm != 0.0 && norm != 0.0
    ensures qNorm * norm > 0.0 && -1.0 <= Similarity(q, qNorm, v, norm) <= 1.0
  {
    var bound := qNorm * norm;
    PositiveProduct(qNorm, norm, bound);
    CauchySchwarz(q, v);
    SquareOfProduct(qNorm, norm, SumSquares(q), SumSquares(v));
    SmallerSquareSmaller(Dot(q, v), bound);
    QuotientInUnit(Dot(q, v), bound);
  }

  lemma SquareOfProduct(x: real, y: real, x2: real, y2: real)
    requires x * x == x2 && y * y == y2
    ensures (x * y) * (x * y) == x2 * y2
  {
    assert (x * y) * (x * y) == (x * x) * (y * y);
  }

  lemma QuotientInUnit(x: real, y: real)
    requires y > 0.0 && -y <= x <= y
    ensures -1.0 <= x / y <= 1.0
  {
    assert x / y * y == x;
  }

  /** A stored vector scores 1 against itself. */
  lemma {:induction false} SelfSimilarity(v: Vector, norm: real)
    requires IsRoot(norm, SumSquares(v)) && norm != 0.0
    ensures norm * norm != 0.0 && Similarity(v, norm, v, norm) == 1.0
  {
    DotSelf(v);
    RootOfPositive(norm, SumSquares(v));
    QuotientOfSelf(SumSquares(v));
  }

  lemma RootOfPositive(root: real, x: real)
    requires IsRoot(root, x) && root != 0.0
    ensures x > 0.0
  {
    PositiveProduct(root, root, x);
  }

  lemma QuotientOfSelf(x: real)
    requires x > 0.0
    ensures x / x == 1.0
  {
  }

  lemma {:induction false} DotSelf(v: Vector)
    ensures Dot(v, v) == SumSquares(v)
  {
    if v != [] {
      DotSelf(v[..|v| - 1]);
    }
  }

  // ----- the law of cosines -----

  /** Coordinate by coordinate. */
  function Difference(a: Vector, b: Vector): Vector
    requires |a| == |b|
  {
    seq(|a|, i requires 0 <= i < |a| => a[i] - b[i])
  }

  lemma SquareOfDifference(x: real, y: real)
    ensures (x - y) * (x - y) == x * x + y * y - 2.0 * (x * y)
  {
  }

  lemma {:induction false} SumSquaresOfDifference(a: Vector, b: Vector)
    requires |a| == |b|
    ensures SumSquares(Difference(a, b)) == SumSquares(a) + SumSquares(b) - 2.0 * Dot(a, b)
  {
    if a != [] {
      var a', b', x, y := a[..|a| - 1], b[..|b| - 1], a[|a| - 1], b[|b| - 1];
      SumSquaresOfDifference(a', b');
      assert Difference(a, b)[..|a| - 1] == Difference(a', b');
      SquareOfDifference(x, y);
    }
  }

  /** s is the cosine of the angle between q and v: the law of cosines on the triangle they span. */
  predicate IsCosine(s: real, q: Vector, qNorm: real, v: Vector, norm: real)
    requires |q| == |v|
  {
    SumSquares(Difference(q, v)) == qNorm * qNorm + norm * norm - 2.0 * (qNorm * norm * s)
  }

  /** Every similarity is that cosine, sign included, and nothing else is. */
  lemma SimilarityIsCosine(q: Vector, qNorm: real, v: Vector, norm: real, s: real)
    requires |q| == |v| && IsRoot(qNorm, SumSquares(q)) && IsRoot(norm, SumSquares(v)) && qNorm != 0.0 && norm != 0.0
    ensures qNorm * norm != 0.0 && (IsCosine(s, q, qNorm, v, norm) <==> s == Similarity(q, qNorm, v, norm))
  {
    NonZeroProduct(qNorm, norm);
    SumSquaresOfDifference(q, v);
    CosineSolution(SumSquares(Difference(q, v)), SumSquares(q), SumSquares(v), Dot(q, v), qNorm, norm, s);
  }

  lemma CosineSolution(d: real, q2: real, v2: real, dot: real, qNorm: real, norm: real, s: real)
    requires d == q2 + v2 - 2.0 * dot && qNorm * qNorm == q2 && norm * norm == v2 && qNorm * norm != 0.0
    ensures d == qNorm * qNorm + norm * norm - 2.0 * (qNorm * norm * s) <==> s == dot / (qNorm * norm)
  {
    QuotientIsOnlySolution(dot, qNorm * norm, s);
    CosineOrDot(d, q2, v2, dot, qNorm * norm * s);
  }

  lemma CosineOrDot(d: real, q2: real, v2: real, dot: real, scaled: real)
    requires d == q2 + v2 - 2.0 * dot
    ensures d == q2 + v2 - 2.0 * scaled <==> scaled == dot
  {
  }

  lemma QuotientIsOnlySolution(x: real, y: real, s: real)
    requires y != 0.0
    ensures y * s == x <==> s == x / y
  {
    assert x / y * y == x;
    if y * s == x {
      assert s == (y * s) / y;
    }
  }

  /** A vector and its opposite have similarity -1. */
  lemma {:induction false} OppositeSimilarity(v: Vector, norm: real)
    requires IsRoot(norm, SumSquares(v)) && norm != 0.0
    ensures norm * norm != 0.0 && Similarity(v, norm, Negated(v), norm) == -1.0
  {
    DotNegated(v);
    RootOfPositive(norm, SumSquares(v));
    QuotientOfSelf(SumSquares(v));
    assert (-SumSquares(v)) / SumSquares(v) == -(SumSquares(v) / SumSquares(v));
  }

  function Negated(v: Vector): Vector
  {
    seq(|v|, i requires 0 <= i < |v| => -v[i])
  }

  lemma {:induction false} DotNegated(v: Vector)
    ensures Dot(v, Negated(v)) == -SumSquares(v)
  {
    if v != [] {
      DotNegated(v[..|v| - 1]);
      assert Negated(v)[..|v| - 1] == Negated(v[..|v| - 1]);
      assert v[|v| - 1] * -v[|v| - 1] == -(v[|v| - 1] * v[|v| - 1]);
    }
  }

  // ----- ranking -----

  datatype Hit = Hit(id: string, score: real, text: Option<string>)

  /** A hit goes behind everything that scores at least as high: `sort(reverse=True)` is stable. */
  function InsertHit(h: Hit, hs: seq<Hit>): (r: seq<Hit>)
    ensures |r| == |hs| + 1
  {
    if hs != [] && hs[0].score >= h.score then [hs[0]] + InsertHit(h, hs[1..]) else [h] + hs
  }

  function Rank(hs: seq<Hit>): (r: seq<Hit>)
    ensures |r| == |hs|
  {
    if hs == [] then [] else InsertHit(hs[|hs| - 1], Rank(hs[..|hs| - 1]))
  }

  predicate Descending(hs: seq<Hit>)
  {
    forall i, j :: 0 <= i <= j < |hs| ==> hs[i].score >= hs[j].score
  }

  lemma {:induction false} InsertPermutes(h: Hit, hs: seq<Hit>)
    ensures multiset(InsertHit(h, hs)) == multiset(hs) + multiset{h}
  {
    if hs != [] && hs[0].score >= h.score {
      InsertPermutes(h, hs[1..]);
      assert hs == [hs[0]] + hs[1..];
    }
  }

  lemma {:induction false} InsertKeepsRank(h: Hit, hs: seq<Hit>)
    requires Descending(hs)
    ensures Descending(InsertHit(h, hs))
    ensures hs != [] && hs[0].score >= h.score ==> InsertHit(h, hs)[0] == hs[0]
  {
    if hs != [] && hs[0].score >= h.score {
      InsertKeepsRank(h, hs[1..]);
    }
  }

  lemma {:induction false} RankSorts(hs: seq<Hit>)
    ensures Descending(Rank(hs)) && multiset(Rank(hs)) == multiset(hs)
  {
    if hs != [] {
      var front, last := hs[..|hs| - 1], hs[|hs| - 1];
      RankSorts(front);
      InsertKeepsRank(last, Rank(front));
      InsertPermutes(last, Rank(front));
      Grow(hs, front, last);
    }
  }

  lemma Grow<T>(whole: seq<T>, front: seq<T>, last: T)
    requires whole != [] && front == whole[..|whole| - 1] && last == whole[|whole| - 1]
    ensures multiset(whole) == multiset(front) + multiset{last}
  {
    assert whole == front + [last];
  }

  /** The hits of one score, in order. */
  function Scoring(hs: seq<Hit>, x: real): seq<Hit>
  {
    if hs == [] then [] else (if hs[0].score == x then [hs[0]] else []) + Scoring(hs[1..], x)
  }

  lemma {:induction false} ScoringConcat(a: seq<Hit>, b: seq<Hit>, x: real)
    ensures Scoring(a + b, x) == Scoring(a, x) + Scoring(b, x)
    decreases |a|
  {
    if a == [] {
      assert a + b == b;
    } else {
      ScoringConcat(a[1..], b, x);
      assert (a + b)[1..] == a[1..] + b && (a + b)[0] == a[0];
      Associate(if a[0].score == x then [a[0]] else [], Scoring(a[1..], x), Scoring(b, x));
    }
  }

  lemma Associate<T>(a: seq<T>, b: seq<T>, c: seq<T>)
    ensures (a + b) + c == a + (b + c)
  {
  }

  lemma {:induction false} InsertIsStable(h: Hit, hs: seq<Hit>, x: real)
    requires Descending(hs)
    ensures Scoring(InsertHit(h, hs), x) == Scoring(hs, x) + Scoring([h], x)
  {
    if hs != [] && hs[0].score >= h.score {
      InsertIsStable(h, hs[1..], x);
      assert InsertHit(h, hs)[1..] == InsertHit(h, hs[1..]);
    } else {
      assert InsertHit(h, hs) == [h] + hs;
      ScoringConcat([h], hs, x);
      if h.score == x {
        NoneScoring(hs, x);
      }
    }
  }

  lemma {:induction false} NoneScoring(hs: seq<Hit>, x: real)
    requires forall i :: 0 <= i < |hs| ==> hs[i].score != x
    ensures Scoring(hs, x) == []
  {
    if hs != [] {
      NoneScoring(hs[1..], x);
    }
  }

  /** Equal scores keep the order in which the vectors were stored. */
  lemma {:induction false} RankIsStable(hs: seq<Hit>, x: real)
    ensures Scoring(Rank(hs), x) == Scoring(hs, x)
  {
    if hs != [] {
      var front, last := hs[..|hs| - 1], hs[|hs| - 1];
      RankIsStable(front, x);
      RankSorts(front);
      InsertIsStable(last, Rank(front), x);
      ScoringConcat(front, [last], x);
      assert hs == front + [last];
    }
  }

  /** `results[:top_k]`: a negative bound drops from the end. */
  function SliceTo(hs: seq<Hit>, k: int): seq<Hit>
  {
    if k >= |hs| then hs else if k >= 0 then hs[..k] else if -k >= |hs| then [] else hs[..|hs| + k]
  }

  /** The answer is descending, of length min(k, eligible), and with the hits left out it is a
      permutation of all hits; none of those left out scores above anything returned. */
  lemma TopKIsBest(hs: seq<Hit>, k: nat) returns (omitted: seq<Hit>)
    ensures var top := SliceTo(Rank(hs), k);
      && Descending(top)
      && |top| == (if k < |hs| then k else |hs|)
      && multiset(top + omitted) == multiset(hs)
      && forall h, t :: h in omitted && t in top ==> h.score <= t.score
  {
    RankSorts(hs);
    var ranked, top := Rank(hs), SliceTo(Rank(hs), k);
    omitted := ranked[|top|..];
    assert ranked == top + omitted;
    forall h, t | h in omitted && t in top ensures h.score <= t.score {
      PrefixScoresHigher(ranked, |top|, h, t);
    }
  }

  lemma PrefixScoresHigher(ranked: seq<Hit>, n: nat, h: Hit, t: Hit)
    requires Descending(ranked) && n <= |ranked| && h in ranked[n..] && t in ranked[..n]
    ensures h.score <= t.score
  {
    var i :| 0 <= i < |ranked[n..]| && ranked[n..][i] == h;
    var j :| 0 <= j < n && ranked[j] == t;
    assert ranked[n + i] == h;
  }

  // ----- the bank -----

  datatype Entry = Entry(id: string, vector: Vector, norm: real, text: Option<string>)

  datatype Answer = Found(hits: seq<Hit>) | DimensionMismatch(id: string)

  /** Cached norms agree with the stored vectors; ids are unique (it is a dictionary). */
  predicate Consistent(es: seq<Entry>)
  {
    && (forall i :: 0 <= i < |es| ==> IsRoot(es[i].norm, SumSquares(es[i].vector)))
    && (forall i, j :: 0 <= i < j < |es| ==> es[i].id != es[j].id)
  }

  /** Dictionary assignment: overwriting keeps the position, a new key goes last. */
  function Assign(es: seq<Entry>, e: Entry): seq<Entry>
  {
    if es == [] then [e]
    else if es[0].id == e.id then [e] + es[1..]
    else [es[0]] + Assign(es[1..], e)
  }

  /** Where the assignment lands: on the first entry with that id, else at the end. */
  lemma {:induction false} AssignLandsAt(es: seq<Entry>, e: Entry, i: nat)
    requires i <= |es| && forall j :: 0 <= j < i ==> es[j].id != e.id
    requires i < |es| ==> es[i].id == e.id
    ensures Assign(es, e) == if i < |es| then es[i := e] else es + [e]
  {
    if i > 0 {
      AssignLandsAt(es[1..], e, i - 1);
      var tail := if i < |es| then es[1..][i - 1 := e] else es[1..] + [e];
      assert Assign(es, e) == [es[0]] + tail;
    }
  }

  lemma {:induction false} AssignKeepsConsistent(es: seq<Entry>, e: Entry)
    requires Consistent(es) && IsRoot(e.norm, SumSquares(e.vector))
    ensures Consistent(Assign(es, e))
    ensures forall x :: x in Assign(es, e) <==> x == e || (x in es && x.id != e.id)
  {
    if es != [] {
      assert es == [es[0]] + es[1..];
      if es[0].id != e.id {
        AssignKeepsConsistent(es[1..], e);
        var tail := Assign(es[1..], e);
        forall i | 0 <= i < |tail| ensures tail[i].id != es[0].id {
          assert tail[i] in tail;
          assert tail[i] == e || tail[i] in es[1..];
        }
      } else {
        forall x | x in es[1..] ensures x.id != e.id {
          var i :| 0 <= i < |es[1..]| && es[1..][i] == x;
          assert es[i + 1] == x;
        }
      }
    }
  }

  /** Entry i makes a search raise. */
  predicate Mismatch(es: seq<Entry>, q: Vector, i: int)
  {
    0 <= i < |es| && es[i].norm != 0.0 && |es[i].vector| != |q|
  }

  predicate SameDimensions(es: seq<Entry>, q: Vector)
  {
    forall i :: 0 <= i < |es| ==> !Mismatch(es, q, i)
  }

  lemma NonZeroProduct(x: real, y: real)
    requires x != 0.0 && y != 0.0
    ensures x * y != 0.0
  {
  }

  function HitOf(e: Entry, q: Vector, qNorm: real): Hit
    requires qNorm != 0.0 && e.norm != 0.0 && |e.vector| == |q|
  {
    NonZeroProduct(qNorm, e.norm);
    Hit(e.id, Similarity(q, qNorm, e.vector, e.norm), e.text)
  }

  /** The hits of the eligible entries, in storage order. */
  function HitsOf(es: seq<Entry>, q: Vector, qNorm: real): seq<Hit>
    requires qNorm != 0.0 && SameDimensions(es, q)
  {
    if es == [] then []
    else
      var front, last := es[..|es| - 1], es[|es| - 1];
      assert !Mismatch(es, q, |es| - 1);
      assert SameDimensions(front, q) by {
        assert forall i :: 0 <= i < |front| ==> Mismatch(front, q, i) == Mismatch(es, q, i);
      }
      HitsOf(front, q, qNorm) + if last.norm == 0.0 then [] else [HitOf(last, q, qNorm)]
  }

  lemma OneMoreEntry(es: seq<Entry>, q: Vector, qNorm: real, i: nat)
    requires i < |es| && qNorm != 0.0 && SameDimensions(es[..i], q) && !Mismatch(es, q, i)
    ensures SameDimensions(es[..i + 1], q)
    ensures HitsOf(es[..i + 1], q, qNorm) == HitsOf(es[..i], q, qNorm) + if es[i].norm == 0.0 then [] else [HitOf(es[i], q, qNorm)]
  {
    var more := es[..i + 1];
    assert more[..i] == es[..i];
    forall j | 0 <= j < |more| ensures !Mismatch(more, q, j) {
      if j < i {
        assert !Mismatch(es[..i], q, j);
      }
    }
  }

  /** Entry i, called id, is the first with a non-zero norm and another dimension. */
  predicate IsFirstMismatch(es: seq<Entry>, q: Vector, i: int, id: string)
  {
    && 0 <= i < |es| && id == es[i].id && es[i].norm != 0.0 && |es[i].vector| != |q|
    && forall j :: 0 <= j < i ==> es[j].norm == 0.0 || |es[j].vector| == |q|
  }

  class VectorBank {
    var embeddings: seq<Entry>

    constructor ()
      ensures embeddings == []
    {
      embeddings := [];
    }

    /** `norm` is what `math.sqrt` returned for the sum of squares. */
    method StoreVector(id: string, vector: Vector, norm: real, text: Option<string>)
      requires Consistent(embeddings) && IsRoot(norm, SumSquares(vector))
      modifies this
      ensures Consistent(embeddings) && embeddings == Assign(old(embeddings), Entry(id, vector, norm, text))
    {
      var entry := Entry(id, vector, norm, text);
      var i := 0;
      while i < |embeddings| && embeddings[i].id != id
        invariant 0 <= i <= |embeddings|
        invariant forall j :: 0 <= j < i ==> embeddings[j].id != id
      {
        i := i + 1;
      }
      AssignLandsAt(embeddings, entry, i);
      AssignKeepsConsistent(embeddings, entry);
      if i < |embeddings| {
        embeddings := embeddings[i := entry];
      } else {
        embeddings := embeddings + [entry];
      }
    }

    method Search(q: Vector, qNorm: real, topK: int) returns (a: Answer)
      requires Consistent(embeddings) && IsRoot(qNorm, SumSquares(q))
      ensures embeddings == [] || qNorm == 0.0 ==> a == Found([])
      ensures a.DimensionMismatch?
         <==> qNorm != 0.0 && exists i :: 0 <= i < |embeddings| && embeddings[i].norm != 0.0 && |embeddings[i].vector| != |q|
      ensures a.DimensionMismatch? ==> exists i :: 0 <= i < |embeddings| && IsFirstMismatch(embeddings, q, i, a.id)
      ensures embeddings != [] && qNorm != 0.0 && !SameDimensions(embeddings, q) ==>
        exists i :: Mismatch(embeddings, q, i) && SameDimensions(embeddings[..i], q) && a == DimensionMismatch(embeddings[i].id)
      ensures embeddings != [] && qNorm != 0.0 && SameDimensions(embeddings, q) ==>
        a == Found(SliceTo(Rank(HitsOf(embeddings, q, qNorm)), topK))
    {
      if embeddings == [] {
        return Found([]);
      }
      if qNorm == 0.0 {
        return Found([]);
      }
      var results: seq<Hit> := [];
      for i := 0 to |embeddings|
        invariant SameDimensions(embeddings[..i], q)
        invariant results == HitsOf(embeddings[..i], q, qNorm)
      {
        var entry := embeddings[i];
        if entry.norm == 0.0 {
          OneMoreEntry(embeddings, q, qNorm, i);
          continue;
        }
        if |entry.vector| != |q| {
          assert Mismatch(embeddings, q, i);
          forall j | 0 <= j < i ensures embeddings[j].norm == 0.0 || |embeddings[j].vector| == |q| {
            assert !Mismatch(embeddings[..i], q, j);
          }
          assert IsFirstMismatch(embeddings, q, i, entry.id);
          return DimensionMismatch(entry.id);
        }
        OneMoreEntry(embeddings, q, qNorm, i);
        NonZeroProduct(qNorm, entry.norm);
        var similarity := Dot(q, entry.vector) / (qNorm * entry.norm);
        assert HitOf(entry, q, qNorm) == Hit(entry.id, similarity, entry.text);
        results := results + [Hit(entry.id, similarity, entry.text)];
      }
      assert embeddings[..|embeddings|] == embeddings;
      forall i | 0 <= i < |embeddings| ensures embeddings[i].norm == 0.0 || |embeddings[i].vector| == |q| {
        assert !Mismatch(embeddings, q, i);
      }
      a := Found(SliceTo(Rank(results), topK));
    }
  }

  /** Every score of an answer lies in [-1, 1]. */
  lemma {:induction false} ScoresInRange(es: seq<Entry>, q: Vector, qNorm: real)
    requires Consistent(es) && IsRoot(qNorm, SumSquares(q)) && qNorm != 0.0
    requires SameDimensions(es, q)
    ensures forall h :: h in HitsOf(es, q, qNorm) ==> -1.0 <= h.score <= 1.0
  {
    if es != [] {
      var front, last := es[..|es| - 1], es[|es| - 1];
      assert !Mismatch(es, q, |es| - 1);
      assert SameDimensions(front, q) by {
        assert forall i :: 0 <= i < |front| ==> Mismatch(front, q, i) == Mismatch(es, q, i);
      }
      ScoresInRange(front, q, qNorm);
      if last.norm != 0.0 {
        SimilarityInRange(q, qNorm, last.vector, last.norm);
      }
    }
  }

  /** h is entry e's hit: its id, its text and the cosine of its vector with the query. */
  predicate HitFor(h: Hit, e: Entry, q: Vector, qNorm: real)
  {
    |e.vector| == |q| && h.id == e.id && h.text == e.text && IsCosine(h.score, q, qNorm, e.vector, e.norm)
  }

  /** The positions of the entries a search looks at. */
  function EligiblePositions(es: seq<Entry>): seq<int>
    ensures forall j :: 0 <= j < |EligiblePositions(es)| ==> 0 <= EligiblePositions(es)[j] < |es|
  {
    if es == [] then []
    else EligiblePositions(es[..|es| - 1]) + if es[|es| - 1].norm != 0.0 then [|es| - 1] else []
  }

  lemma {:induction false} EligibleAreNonZero(es: seq<Entry>)
    ensures forall i :: i in EligiblePositions(es) <==> 0 <= i < |es| && es[i].norm != 0.0
    ensures forall j, k :: 0 <= j < k < |EligiblePositions(es)| ==> EligiblePositions(es)[j] < EligiblePositions(es)[k]
  {
    if es != [] {
      EligibleAreNonZero(es[..|es| - 1]);
    }
  }

  /** The hits before ranking: for the entries of non-zero norm and no other, in storage order, each
      entry's id, text and cosine with the query. */
  lemma {:induction false} HitsAreCosines(es: seq<Entry>, q: Vector, qNorm: real)
    requires Consistent(es) && IsRoot(qNorm, SumSquares(q)) && qNorm != 0.0
    requires SameDimensions(es, q)
    ensures var hits, at := HitsOf(es, q, qNorm), EligiblePositions(es);
      |hits| == |at| && forall j :: 0 <= j < |hits| ==> HitFor(hits[j], es[at[j]], q, qNorm)
  {
    if es != [] {
      var front, last := es[..|es| - 1], es[|es| - 1];
      assert !Mismatch(es, q, |es| - 1);
      assert SameDimensions(front, q) by {
        assert forall i :: 0 <= i < |front| ==> Mismatch(front, q, i) == Mismatch(es, q, i);
      }
      HitsAreCosines(front, q, qNorm);
      if last.norm != 0.0 {
        LastHitIsCosine(es, q, qNorm);
      }
    }
  }

  lemma LastHitIsCosine(es: seq<Entry>, q: Vector, qNorm: real)
    requires es != [] && es[|es| - 1].norm != 0.0 && |es[|es| - 1].vector| == |q|
    requires IsRoot(es[|es| - 1].norm, SumSquares(es[|es| - 1].vector)) && IsRoot(qNorm, SumSquares(q)) && qNorm != 0.0
    ensures HitFor(HitOf(es[|es| - 1], q, qNorm), es[|es| - 1], q, qNorm)
  {
    var e := es[|es| - 1];
    NonZeroProduct(qNorm, e.norm);
    SimilarityIsCosine(q, qNorm, e.vector, e.norm, Similarity(q, qNorm, e.vector, e.norm));
  }

  /** A negative bound drops that many from the end of the ranked hits, or all. */
  lemma NegativeBoundDropsFromEnd(hs: seq<Hit>, k: int)
    requires k < 0
    ensures SliceTo(hs, k) <= hs && |SliceTo(hs, k)| == if -k < |hs| then |hs| + k else 0
  {
  }

  /** An eligible entry with that hit. */
  predicate HitsEntry(es: seq<Entry>, q: Vector, qNorm: real, i: int, h: Hit)
  {
    0 <= i < |es| && es[i].norm != 0.0 && HitFor(h, es[i], q, qNorm)
  }

  /** What a search answers: for k >= 0 the min(k, eligible) hits of largest cosine, descending; each is
      the hit of an eligible entry, and every eligible entry has its hit either among them or scoring
      no more than any of them. */
  lemma AnswerIsBestCosines(es: seq<Entry>, q: Vector, qNorm: real, k: nat)
    requires Consistent(es) && IsRoot(qNorm, SumSquares(q)) && qNorm != 0.0
    requires SameDimensions(es, q)
    ensures var top, n := SliceTo(Rank(HitsOf(es, q, qNorm)), k), |EligiblePositions(es)|;
      && Descending(top) && |top| == (if k < n then k else n)
      && (forall h :: h in top ==> exists i :: HitsEntry(es, q, qNorm, i, h))
      && (forall i :: 0 <= i < |es| && es[i].norm != 0.0 ==>
            exists h :: HitsEntry(es, q, qNorm, i, h) && (h in top || forall t :: t in top ==> h.score <= t.score))
  {
    var hits, at := HitsOf(es, q, qNorm), EligiblePositions(es);
    HitsAreCosines(es, q, qNorm);
    EligibleAreNonZero(es);
    var top := SliceTo(Rank(hits), k);
    var omitted := TopKIsBest(hits, k);
    forall h | h in top ensures exists i :: HitsEntry(es, q, qNorm, i, h) {
      SameMembers(top + omitted, hits, h);
      var j :| 0 <= j < |hits| && hits[j] == h;
      assert at[j] in at;
      assert HitsEntry(es, q, qNorm, at[j], h);
    }
    forall i | 0 <= i < |es| && es[i].norm != 0.0
      ensures exists h :: HitsEntry(es, q, qNorm, i, h) && (h in top || forall t :: t in top ==> h.score <= t.score)
    {
      assert i in at;
      var j :| 0 <= j < |at| && at[j] == i;
      SameMembers(top + omitted, hits, hits[j]);
      assert HitsEntry(es, q, qNorm, i, hits[j]);
    }
  }

  lemma SameMembers(a: seq<Hit>, b: seq<Hit>, h: Hit)
    requires multiset(a) == multiset(b)
    ensures h in a <==> h in b
  {
    assert h in a <==> h in multiset(a);
    assert h in b <==> h in multiset(b);
  }
}
