/** Lexicographic order on sequences of naturals.

    This is the order Rust derives for byte arrays (`[u8; 16]`, hence `Uuid`) and the order of
    `String` comparison (byte by byte; for ASCII text, code point by code point). A proper prefix
    is smaller than the longer sequence.
 */
module LexOrder {

  /** Strict lexicographic order. */
  predicate LexLess(a: seq<nat>, b: seq<nat>)
  {
    if a == [] then b != []
    else b != [] && (a[0] < b[0] || (a[0] == b[0] && LexLess(a[1..], b[1..])))
  }

  /** Comparing two concatenations whose first parts have the same length: the first parts decide,
      and only when they are equal do the second parts. */
  lemma {:induction false} LexAppend(x: seq<nat>, y: seq<nat>, x2: seq<nat>, y2: seq<nat>)
    requires |x| == |x2|
    ensures LexLess(x + y, x2 + y2) <==> LexLess(x, x2) || (x == x2 && LexLess(y, y2))
  {
    if x == [] {
      assert x + y == y && x2 + y2 == y2;
    } else {
      assert (x + y)[0] == x[0] && (x2 + y2)[0] == x2[0];
      assert (x + y)[1..] == x[1..] + y && (x2 + y2)[1..] == x2[1..] + y2;
      LexAppend(x[1..], y, x2[1..], y2);
      if x[0] == x2[0] {
        assert x == x2 <==> x[1..] == x2[1..] by {
          if x[1..] == x2[1..] { assert x == [x[0]] + x[1..] && x2 == [x2[0]] + x2[1..]; }
        }
      }
    }
  }

  /** A common suffix does not change the order of two sequences of one length. */
  lemma LexCommonSuffix(x: seq<nat>, x2: seq<nat>, z: seq<nat>)
    requires |x| == |x2|
    ensures LexLess(x + z, x2 + z) <==> LexLess(x, x2)
  {
    LexAppend(x, z, x2, z);
    LexIrreflexive(z);
  }

  /** Single elements compare as the elements do. */
  lemma LexSingleton(u: nat, v: nat)
    ensures LexLess([u], [v]) <==> u < v
  {
    assert [u][1..] == [] && [v][1..] == [];
  }

  /** Nothing is below itself. */
  lemma {:induction false} LexIrreflexive(a: seq<nat>)
    ensures !LexLess(a, a)
  {
    if a != [] {
      LexIrreflexive(a[1..]);
    }
  }

  /** Two sequences of the same length are equal or ordered one way, and never both ways. */
  lemma {:induction false} LexTrichotomy(a: seq<nat>, b: seq<nat>)
    requires |a| == |b|
    ensures a == b || LexLess(a, b) || LexLess(b, a)
    ensures !(LexLess(a, b) && LexLess(b, a))
  {
    if a != [] {
      LexTrichotomy(a[1..], b[1..]);
      if a[0] == b[0] && a[1..] == b[1..] {
        assert a == [a[0]] + a[1..] && b == [b[0]] + b[1..];
      }
    }
  }

  /** The order is transitive. */
  lemma {:induction false} LexTransitive(a: seq<nat>, b: seq<nat>, c: seq<nat>)
    requires LexLess(a, b) && LexLess(b, c)
    ensures LexLess(a, c)
  {
    if a != [] && a[0] == b[0] && b[0] == c[0] {
      LexTransitive(a[1..], b[1..], c[1..]);
    }
  }
}
