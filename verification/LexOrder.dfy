/** The order in which the sources compare strings: by first differing character,
    a proper prefix coming first.  Dafny's own `<` on sequences is the prefix order. */
module LexOrder {

  predicate Less(a: string, b: string)
    decreases |a|
  {
    b != [] && (a == [] || a[0] < b[0] || (a[0] == b[0] && Less(a[1..], b[1..])))
  }

  lemma {:induction false} Irreflexive(a: string)
    ensures !Less(a, a)
    decreases |a|
  {
    if a != [] {
      Irreflexive(a[1..]);
    }
  }

  lemma {:induction false} Transitive(a: string, b: string, c: string)
    requires Less(a, b) && Less(b, c)
    ensures Less(a, c)
    decreases |a|
  {
    if a != [] && a[0] == b[0] == c[0] {
      Transitive(a[1..], b[1..], c[1..]);
    }
  }

  lemma {:induction false} Asymmetric(a: string, b: string)
    requires Less(a, b)
    ensures !Less(b, a)
  {
    if Less(b, a) {
      Transitive(a, b, a);
      Irreflexive(a);
    }
  }

  lemma {:induction false} Total(a: string, b: string)
    ensures a == b || Less(a, b) || Less(b, a)
    decreases |a|
  {
    if a != [] && b != [] && a[0] == b[0] {
      Total(a[1..], b[1..]);
      if a[1..] == b[1..] {
        assert a == [a[0]] + a[1..] && b == [b[0]] + b[1..];
      }
    }
  }

  /** "Not greater" is transitive: the order is total, so it has no incomparable pairs. */
  lemma NotGreaterTransitive(a: string, b: string, c: string)
    requires !Less(b, a) && !Less(c, b)
    ensures !Less(c, a)
  {
    Total(a, b);
    Total(b, c);
    if Less(c, a) {
      if Less(a, b) {
        Transitive(c, a, b);
      }
    }
  }

  /** a and b are the same up to n; there a ends and b goes on, or a has the smaller character. */
  predicate PrecedesAt(a: string, b: string, n: int)
  {
    0 <= n <= |a| && n < |b| && a[..n] == b[..n] && (n < |a| ==> a[n] < b[n])
  }

  lemma SameHeads(a: string, b: string, n: int)
    requires PrecedesAt(a, b, n)
    ensures n > 0 ==> a[0] == b[0]
  {
    if n > 0 {
      assert a[..n][0] == a[0] && b[..n][0] == b[0];
    }
  }

  /** What the order is: at the first difference the smaller character decides, and a text that
      ends there comes first. */
  lemma {:induction false} FirstDifferenceDecides(a: string, b: string)
    ensures Less(a, b) <==> exists n :: PrecedesAt(a, b, n)
    decreases |a|
  {
    if b != [] {
      if a != [] && a[0] == b[0] {
        FirstDifferenceDecides(a[1..], b[1..]);
        if n :| PrecedesAt(a[1..], b[1..], n) {
          assert a[..n + 1] == [a[0]] + a[1..][..n] && b[..n + 1] == [b[0]] + b[1..][..n];
          assert PrecedesAt(a, b, n + 1);
        }
        if n :| PrecedesAt(a, b, n) {
          assert a[1..][..n - 1] == a[..n][1..] && b[1..][..n - 1] == b[..n][1..];
          assert PrecedesAt(a[1..], b[1..], n - 1);
        }
      } else {
        assert Less(a, b) ==> PrecedesAt(a, b, 0);
        if n :| PrecedesAt(a, b, n) {
          SameHeads(a, b, n);
        }
      }
    }
  }
}
