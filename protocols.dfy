/** The aggregation loops that the N-of-N driver (MHE_CRS) and the threshold
    driver (TMHE) share line for line: collective public-key generation
    against one CRP, encryption of every party's input under the joint key,
    and decryption by summing partial decryptions into a fresh accumulator
    that one party finalizes. They differ only in how many parties
    contribute (`m`): all N, or the quorum of t. */
module Protocols {
  import opened RingQ
  import opened Primitives

  // ---------------------------------------------------------------------
  // Collective public-key generation

  /** The key-generation shares of parties 0..m-1, all against `crp`. */
  function CkgShares(lib: Library, sks: seq<SecretKey>, crp: Crp, m: nat): (shares: seq<Poly>)
    requires m <= |sks|
  {
    seq(m, i requires 0 <= i < m => lib.genShare(sks[i], crp))
  }

  lemma CkgSharesInRing(lib: Library, r: Ring, sks: seq<SecretKey>, crp: Crp, m: nat)
    requires lib.Valid(r) && m <= |sks|
    ensures AllPolys(r, CkgShares(lib, sks, crp, m))
  {
    forall p | p in CkgShares(lib, sks, crp, m) ensures IsPoly(r, p) {
      var i :| 0 <= i < m && CkgShares(lib, sks, crp, m)[i] == p;
      assert p == lib.genShare(sks[i], crp);
    }
  }

  /** The collective public key of parties 0..m-1: GenPublicKey on the sum of
      their shares, against the same `crp`. */
  function CollectiveKey(lib: Library, r: Ring, sks: seq<SecretKey>, crp: Crp, m: nat): PublicKey
    requires lib.Valid(r) && m <= |sks|
  {
    CkgSharesInRing(lib, r, sks, crp, m);
    lib.genPublicKey(Sum(r, CkgShares(lib, sks, crp, m)), crp)
  }

  /** One key-generation round: each of parties 0..m-1 generates its share
      against the single `crp` and the share is aggregated into `roundShare`,
      which starts as a freshly allocated share; GenPublicKey is then called
      once, on the total and the same `crp`. */
  method CkgRound(lib: Library, r: Ring, sks: seq<SecretKey>, crp: Crp, m: nat)
    returns (shareOut: seq<Poly>, roundShare: Poly, pk: PublicKey)
    requires lib.Valid(r) && m <= |sks|
    ensures shareOut == CkgShares(lib, sks, crp, m)
    ensures AllPolys(r, shareOut) && roundShare == Sum(r, shareOut)
    ensures pk == lib.genPublicKey(roundShare, crp) == CollectiveKey(lib, r, sks, crp, m)
  {
    shareOut := [];
    roundShare := Zero(r);
    for i := 0 to m
      invariant shareOut == CkgShares(lib, sks, crp, i)
      invariant AllPolys(r, shareOut) && roundShare == Sum(r, shareOut)
    {
      var share := lib.genShare(sks[i], crp);
      SumSnoc(r, shareOut, share);
      AddCommutes(r, share, roundShare);
      // AggregateShares(share, roundShare, &roundShare)
      roundShare := RingQ.Add(r, share, roundShare);
      shareOut := shareOut + [share];
    }
    pk := lib.genPublicKey(roundShare, crp);
  }

  // ---------------------------------------------------------------------
  // Encryption of the parties' inputs

  /** Every one of the N parties encodes its constant input and encrypts it
      under the same public key; the first failure aborts. */
  method EncryptInputs(lib: Library, r: Ring, pk: PublicKey, N: nat, n: nat)
    returns (res: Result<seq<Ciphertext>>)
    requires lib.Valid(r)
    ensures res.Ok? <==> forall i :: 0 <= i < N ==> EncryptInput(lib, pk, i, n).Ok?
    ensures res.Ok? ==> |res.value| == N && forall i :: 0 <= i < N ==>
      res.value[i] == EncryptInput(lib, pk, i, n).value &&
      |res.value[i]| == 2 && AllPolys(r, res.value[i])
  {
    var cts: seq<Ciphertext> := [];
    for i := 0 to N
      invariant |cts| == i
      invariant forall k :: 0 <= k < i ==>
        EncryptInput(lib, pk, k, n).Ok? && cts[k] == EncryptInput(lib, pk, k, n).value
    {
      var ct := EncryptInput(lib, pk, i, n);
      if ct.Err? {
        return Err(ct.error);
      }
      cts := cts + [ct.value];
    }
    return Ok(cts);
  }

  // ---------------------------------------------------------------------
  // Decryption by aggregated partial decryptions

  /** The partial decryptions of `ct` by parties 0..m-1. */
  function PartialShares(lib: Library, sks: seq<SecretKey>, ct: Ciphertext, m: nat): seq<Plaintext>
    requires m <= |sks|
  {
    seq(m, i requires 0 <= i < m => lib.decryptPart(sks[i], ct))
  }

  /** One decryption: a fresh accumulator receives exactly one partial
      decryption of `ct` from each of parties 0..m-1 and is then finalized
      once with party `f`'s key on the same ciphertext. */
  method DecryptWith(lib: Library, r: Ring, sks: seq<SecretKey>, ct: Ciphertext, m: nat, f: nat)
    returns (parts: seq<Plaintext>, hisigema: Plaintext, pt: Plaintext)
    requires lib.Valid(r) && m <= |sks| && f < |sks|
    ensures parts == PartialShares(lib, sks, ct, m)
    ensures AllPolys(r, parts) && hisigema == Sum(r, parts)
    ensures pt == lib.decryptAll(sks[f], ct, hisigema)
  {
    parts := [];
    hisigema := Zero(r);
    for i := 0 to m
      invariant parts == PartialShares(lib, sks, ct, i)
      invariant AllPolys(r, parts) && hisigema == Sum(r, parts)
    {
      var ptpart := lib.decryptPart(sks[i], ct);
      SumSnoc(r, parts, ptpart);
      // Decryptadd(ptpart, hisigema)
      hisigema := RingQ.Add(r, hisigema, ptpart);
      parts := parts + [ptpart];
    }
    pt := lib.decryptAll(sks[f], ct, hisigema);
  }

  /** The decryption of every party's ciphertext: ciphertext j is decrypted by
      the partial decryptions of parties 0..m-1 and finalized by party j. */
  method DecryptEach(lib: Library, r: Ring, sks: seq<SecretKey>, cts: seq<Ciphertext>, m: nat)
    returns (pts: seq<Plaintext>)
    requires lib.Valid(r) && m <= |sks| && |cts| <= |sks|
    ensures |pts| == |cts|
    ensures forall j :: 0 <= j < |cts| ==>
      AllPolys(r, PartialShares(lib, sks, cts[j], m)) &&
      pts[j] == lib.decryptAll(sks[j], cts[j], Sum(r, PartialShares(lib, sks, cts[j], m)))
  {
    pts := [];
    for j := 0 to |cts|
      invariant |pts| == j
      invariant forall k :: 0 <= k < j ==>
        AllPolys(r, PartialShares(lib, sks, cts[k], m)) &&
        pts[k] == lib.decryptAll(sks[k], cts[k], Sum(r, PartialShares(lib, sks, cts[k], m)))
    {
      var _, _, pt := DecryptWith(lib, r, sks, cts[j], m, j);
      pts := pts + [pt];
    }
  }

  /** The accumulated decryption share does not depend on the order in which
      the contributors' partial decryptions arrive. */
  lemma {:induction false} PartialSumOrderIrrelevant(lib: Library, r: Ring, sks: seq<SecretKey>,
                                                     ct: Ciphertext, m: nat, arrival: seq<Plaintext>)
    requires lib.Valid(r) && m <= |sks|
    requires multiset(arrival) == multiset(PartialShares(lib, sks, ct, m))
    ensures AllPolys(r, arrival)
    ensures Sum(r, arrival) == Sum(r, PartialShares(lib, sks, ct, m))
  {
    SumPermutation(r, PartialShares(lib, sks, ct, m), arrival);
  }

  /** The joint public key does not depend on the order in which the parties'
      key-generation shares are aggregated. */
  lemma {:induction false} CkgOrderIrrelevant(lib: Library, r: Ring, sks: seq<SecretKey>, crp: Crp,
                                              m: nat, arrival: seq<Poly>)
    requires lib.Valid(r) && m <= |sks|
    requires multiset(arrival) == multiset(CkgShares(lib, sks, crp, m))
    ensures AllPolys(r, arrival)
    ensures lib.genPublicKey(Sum(r, arrival), crp) == lib.genPublicKey(Sum(r, CkgShares(lib, sks, crp, m)), crp)
  {
    SumPermutation(r, CkgShares(lib, sks, crp, m), arrival);
  }
}
