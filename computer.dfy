/** `Computer.Add`, the homomorphic addition shared verbatim by the three
    drivers: component by component, the destination's slot k becomes the
    ring sum of the two inputs' slots k, for every k below the first input's
    component count. */
module Computer {
  import opened RingQ
  import opened Primitives

  /** The destination after `Add(c1, c2, dst)`: the first |c1| slots hold the
      slot-wise sums, the remaining slots of `dst` are kept. */
  function AddInto(r: Ring, c1: Ciphertext, c2: Ciphertext, dst: Ciphertext): seq<Poly>
    requires |c1| <= |c2| && |c1| <= |dst|
    requires AllPolys(r, c1) && PolysUpTo(r, c2, |c1|)
  {
    seq(|dst|, k requires 0 <= k < |dst| =>
      if k < |c1| then RingQ.Add(r, c1[k], c2[k]) else dst[k])
  }

  datatype Computer = Computer(ringQ: Ring) {

    /** Writes ct1.Value[k] + ct2.Value[k] into ctadd.Value[k] for each k
        below ct1's component count; N is not used. Only `ctadd` changes. */
    method Add(ct1: array<Poly>, ct2: array<Poly>, ctadd: array<Poly>, N: int)
      requires ct1.Length <= ct2.Length && ct1.Length <= ctadd.Length
      requires forall k :: 0 <= k < ct1.Length ==> IsPoly(ringQ, ct1[k]) && IsPoly(ringQ, ct2[k])
      modifies ctadd
      ensures AllPolys(ringQ, old(ct1[..])) && PolysUpTo(ringQ, old(ct2[..]), ct1.Length)
      ensures ctadd[..] == AddInto(ringQ, old(ct1[..]), old(ct2[..]), old(ctadd[..]))
      ensures ct1 != ctadd ==> unchanged(ct1)
      ensures ct2 != ctadd ==> unchanged(ct2)
    {
      for i := 0 to ct1.Length
        invariant forall k :: 0 <= k < i ==>
          ctadd[k] == RingQ.Add(ringQ, old(ct1[k]), old(ct2[k]))
        invariant forall k :: i <= k < ctadd.Length ==> ctadd[k] == old(ctadd[k])
        invariant forall k :: i <= k < ct1.Length ==> ct1[k] == old(ct1[k])
        invariant forall k :: i <= k < ct2.Length ==> ct2[k] == old(ct2[k])
      {
        ctadd[i] := RingQ.Add(ringQ, ct1[i], ct2[i]);
      }
    }
  }

  /** The driver's computation phase: `Add` into a fresh destination holding
      `dst`, on fresh copies of the two input ciphertexts. */
  method AddCiphertexts(c: Computer, ct1: Ciphertext, ct2: Ciphertext, dst: Ciphertext, N: int)
    returns (sum: Ciphertext)
    requires |ct1| <= |ct2| && |ct1| <= |dst|
    requires AllPolys(c.ringQ, ct1) && PolysUpTo(c.ringQ, ct2, |ct1|)
    ensures |sum| == |dst|
    ensures sum == AddInto(c.ringQ, ct1, ct2, dst)
  {
    var a1 := new Poly[|ct1|](k requires 0 <= k < |ct1| => ct1[k]);
    var a2 := new Poly[|ct2|](k requires 0 <= k < |ct2| => ct2[k]);
    var out := new Poly[|dst|](k requires 0 <= k < |dst| => dst[k]);
    assert a1[..] == ct1 && a2[..] == ct2 && out[..] == dst;
    c.Add(a1, a2, out, N);
    sum := out[..];
  }

  /** Slot k of the destination is the sum of the inputs' slots k when it is
      below the first input's length, and untouched otherwise. */
  lemma AddIntoSlot(r: Ring, c1: Ciphertext, c2: Ciphertext, dst: Ciphertext, k: nat)
    requires |c1| <= |c2| && |c1| <= |dst| && k < |dst|
    requires AllPolys(r, c1) && PolysUpTo(r, c2, |c1|)
    ensures |AddInto(r, c1, c2, dst)| == |dst|
    ensures k < |c1| ==> AddInto(r, c1, c2, dst)[k] == RingQ.Add(r, c1[k], c2[k])
    ensures k >= |c1| ==> AddInto(r, c1, c2, dst)[k] == dst[k]
  {
  }

  /** Add is commutative in its two inputs when they have the same length. */
  lemma {:induction false} AddIntoCommutes(r: Ring, c1: Ciphertext, c2: Ciphertext, dst: Ciphertext)
    requires |c1| == |c2| <= |dst|
    requires AllPolys(r, c1) && AllPolys(r, c2)
    ensures AddInto(r, c1, c2, dst) == AddInto(r, c2, c1, dst)
  {
    forall k | 0 <= k < |c1|
      ensures RingQ.Add(r, c1[k], c2[k]) == RingQ.Add(r, c2[k], c1[k])
    {
      AddCommutes(r, c1[k], c2[k]);
    }
  }

  /** When the first input covers the whole destination, the destination's
      previous contents do not matter, and the result lies in the ring. */
  lemma AddIntoOverwrites(r: Ring, c1: Ciphertext, c2: Ciphertext, dst: Ciphertext, dst': Ciphertext)
    requires |c1| <= |c2| && |c1| == |dst| == |dst'|
    requires AllPolys(r, c1) && PolysUpTo(r, c2, |c1|)
    ensures AddInto(r, c1, c2, dst) == AddInto(r, c1, c2, dst')
    ensures AllPolys(r, AddInto(r, c1, c2, dst))
  {
    forall p | p in AddInto(r, c1, c2, dst) ensures IsPoly(r, p) {
      var k :| 0 <= k < |dst| && AddInto(r, c1, c2, dst)[k] == p;
      AddIntoSlot(r, c1, c2, dst, k);
    }
  }
}
