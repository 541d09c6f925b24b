/** Ring arithmetic of the scheme, as the driver uses it: a polynomial is a
    vector of `degree` coefficients reduced modulo `modulus`, and the only
    operation the driver and its accumulators perform on it is coefficient-wise
    addition. The residue-number-system representation (one modulus per level)
    is collapsed into a single abstract modulus. */
module RingQ {

  type Modulus = q: nat | q > 0 witness 1

  /** The ring the `Computer` is created with: coefficient modulus and degree. */
  datatype Ring = Ring(modulus: Modulus, degree: nat)

  type Poly = seq<int>

  /** A polynomial of ring `r` in canonical form. */
  predicate IsPoly(r: Ring, p: Poly) {
    |p| == r.degree && forall k :: 0 <= k < |p| ==> 0 <= p[k] < r.modulus
  }

  predicate AllPolys(r: Ring, s: seq<Poly>) {
    forall p :: p in s ==> IsPoly(r, p)
  }

  /** The first n components of s are polynomials of r. */
  predicate PolysUpTo(r: Ring, s: seq<Poly>, n: nat) {
    n <= |s| && forall k :: 0 <= k < n ==> IsPoly(r, s[k])
  }

  /** The freshly allocated (all-zero) polynomial: the identity of `Add`. */
  function Zero(r: Ring): (z: Poly)
    ensures IsPoly(r, z)
  {
    seq(r.degree, _ => 0)
  }

  /** Coefficient-wise addition modulo the ring's modulus (ringQ.Add). */
  function Add(r: Ring, a: Poly, b: Poly): (c: Poly)
    requires IsPoly(r, a) && IsPoly(r, b)
    ensures IsPoly(r, c)
  {
    seq(r.degree, k requires 0 <= k < r.degree => (a[k] + b[k]) % r.modulus)
  }

  // ---------------------------------------------------------------------
  // Coefficient arithmetic

  lemma ModOfSum(x: int, y: int, q: Modulus)
    requires 0 <= x < q && 0 <= y < q
    ensures (x + y) % q == if x + y < q then x + y else x + y - q
  {
    if x + y >= q {
      assert x + y == q * 1 + (x + y - q);
    }
  }

  lemma ModSumAssoc(x: int, y: int, z: int, q: Modulus)
    requires 0 <= x < q && 0 <= y < q && 0 <= z < q
    ensures ((x + y) % q + z) % q == (x + (y + z) % q) % q
  {
    ModOfSum(x, y, q);
    ModOfSum(y, z, q);
    ModOfSum((x + y) % q, z, q);
    ModOfSum(x, (y + z) % q, q);
  }

  // ---------------------------------------------------------------------
  // The laws of an abelian group that the accumulators rely on

  lemma AddCommutes(r: Ring, a: Poly, b: Poly)
    requires IsPoly(r, a) && IsPoly(r, b)
    ensures Add(r, a, b) == Add(r, b, a)
  {
  }

  lemma {:induction false} AddAssociates(r: Ring, a: Poly, b: Poly, c: Poly)
    requires IsPoly(r, a) && IsPoly(r, b) && IsPoly(r, c)
    ensures Add(r, Add(r, a, b), c) == Add(r, a, Add(r, b, c))
  {
    forall k | 0 <= k < r.degree
      ensures Add(r, Add(r, a, b), c)[k] == Add(r, a, Add(r, b, c))[k]
    {
      ModSumAssoc(a[k], b[k], c[k], r.modulus);
    }
  }

  lemma {:induction false} AddZero(r: Ring, a: Poly)
    requires IsPoly(r, a)
    ensures Add(r, a, Zero(r)) == a && Add(r, Zero(r), a) == a
  {
    forall k | 0 <= k < r.degree
      ensures Add(r, a, Zero(r))[k] == a[k]
    {
      ModOfSum(a[k], 0, r.modulus);
    }
  }

  /** Adding `b` leaves `a` unchanged exactly when `b` is zero. */
  lemma {:induction false} AddCancels(r: Ring, a: Poly, b: Poly)
    requires IsPoly(r, a) && IsPoly(r, b)
    ensures Add(r, a, b) == a <==> b == Zero(r)
  {
    if Add(r, a, b) == a {
      forall k | 0 <= k < r.degree
        ensures b[k] == 0
      {
        assert Add(r, a, b)[k] == a[k];
        ModOfSum(a[k], b[k], r.modulus);
      }
    } else {
      if b == Zero(r) {
        AddZero(r, a);
      }
    }
  }

  // ---------------------------------------------------------------------
  // Folding a sequence of contributions into an accumulator

  /** The accumulator after folding `s`, left to right, into a freshly
      allocated (zero) share: `acc := acc + s[0]; acc := acc + s[1]; ...`. */
  function Sum(r: Ring, s: seq<Poly>): (total: Poly)
    requires AllPolys(r, s)
    ensures IsPoly(r, total)
    decreases |s|
  {
    if |s| == 0 then Zero(r) else Add(r, Sum(r, s[..|s| - 1]), s[|s| - 1])
  }

  lemma SumSnoc(r: Ring, s: seq<Poly>, x: Poly)
    requires AllPolys(r, s) && IsPoly(r, x)
    ensures AllPolys(r, s + [x])
    ensures Sum(r, s + [x]) == Add(r, Sum(r, s), x)
  {
    assert (s + [x])[..|s|] == s;
  }

  /** Folding one contribution into a fresh share gives that contribution. */
  lemma SumSingleton(r: Ring, x: Poly)
    requires IsPoly(r, x)
    ensures Sum(r, [x]) == x
  {
    SumSnoc(r, [], x);
    AddZero(r, x);
  }

  /** A contribution may be moved to the end of the fold. */
  lemma {:induction false} SumMoveToEnd(r: Ring, a: seq<Poly>, x: Poly, b: seq<Poly>)
    requires AllPolys(r, a) && IsPoly(r, x) && AllPolys(r, b)
    ensures AllPolys(r, a + [x] + b) && AllPolys(r, a + b)
    ensures Sum(r, a + [x] + b) == Add(r, Sum(r, a + b), x)
    decreases |b|
  {
    if |b| == 0 {
      assert a + [x] + b == a + [x];
      assert a + b == a;
      SumSnoc(r, a, x);
    } else {
      var b', y := b[..|b| - 1], b[|b| - 1];
      assert b == b' + [y];
      assert AllPolys(r, b');
      SumMoveToEnd(r, a, x, b');
      assert a + [x] + b == (a + [x] + b') + [y];
      assert a + b == (a + b') + [y];
      SumSnoc(r, a + [x] + b', y);
      SumSnoc(r, a + b', y);
      var s := Sum(r, a + b');
      calc {
        Sum(r, a + [x] + b);
        Add(r, Add(r, s, x), y);
        { AddAssociates(r, s, x, y); AddCommutes(r, x, y); }
        Add(r, s, Add(r, y, x));
        { AddAssociates(r, s, y, x); }
        Add(r, Add(r, s, y), x);
        Add(r, Sum(r, a + b), x);
      }
    }
  }

  /** A rearrangement of ring elements consists of ring elements. */
  lemma PermutedInRing(r: Ring, s: seq<Poly>, t: seq<Poly>)
    requires AllPolys(r, s) && multiset(s) == multiset(t)
    ensures AllPolys(r, t)
  {
    forall p | p in t ensures IsPoly(r, p) {
      assert p in multiset(t);
      assert p in s;
    }
  }

  /** Removing the last element of `s'` + [x] and an occurrence of x in t
      keeps the two multisets equal. */
  lemma RemoveOccurrence(s': seq<Poly>, x: Poly, t: seq<Poly>, i: nat)
    requires multiset(s' + [x]) == multiset(t) && i < |t| && t[i] == x
    ensures t == t[..i] + [x] + t[i + 1..]
    ensures multiset(s') == multiset(t[..i] + t[i + 1..])
  {
    var a, b := t[..i], t[i + 1..];
    assert t == a + [x] + b;
    assert multiset(s' + [x]) == multiset(s') + multiset{x};
    assert multiset(t) == multiset(a) + multiset{x} + multiset(b);
    assert multiset(a + b) == multiset(a) + multiset(b);
    assert multiset(s') == multiset(s' + [x]) - multiset{x};
    assert multiset(a + b) == multiset(t) - multiset{x};
  }

  /** Aggregation is order-independent: folding any rearrangement of the
      same contributions gives the same total. */
  lemma {:induction false} SumPermutation(r: Ring, s: seq<Poly>, t: seq<Poly>)
    requires AllPolys(r, s) && multiset(s) == multiset(t)
    ensures AllPolys(r, t) && Sum(r, s) == Sum(r, t)
    decreases |s|
  {
    PermutedInRing(r, s, t);
    if |s| == 0 {
      assert |t| == |multiset(t)| == 0;
    } else {
      var s', x := s[..|s| - 1], s[|s| - 1];
      assert s == s' + [x];
      assert x in multiset(t) by { assert x in multiset(s); }
      var i :| 0 <= i < |t| && t[i] == x;
      RemoveOccurrence(s', x, t, i);
      var a, b := t[..i], t[i + 1..];
      assert AllPolys(r, s') && AllPolys(r, a) && AllPolys(r, b) by {
        assert forall p :: p in s' ==> p in s;
        assert forall p :: p in a ==> p in t;
        assert forall p :: p in b ==> p in t;
      }
      SumPermutation(r, s', a + b);
      SumMoveToEnd(r, a, x, b);
      SumSnoc(r, s', x);
    }
  }
}
