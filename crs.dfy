/** The N-of-N driver with a common reference string (MHE_CRS): all N parties
    generate one joint public key against a single CRP, every party encrypts
    its input under it, ciphertexts 1 and 2 are added, and every decryption
    aggregates the partial decryptions of all N parties. */
module MheCrs {
  import opened RingQ
  import opened Primitives
  import opened Computer
  import opened Protocols

  /** What one run of the driver produces. */
  datatype Outcome = Outcome(
    pk: PublicKey,
    cts: seq<Ciphertext>,
    ctadd: Ciphertext,
    pts: seq<Plaintext>,
    ptAdd: Plaintext)

  /** The driver end to end, for secret keys `sks` (key generation itself is
      the library's and its randomness a parameter), the sampled `crp` and
      input length `n`. */
  method Run(lib: Library, c: Computer, sks: seq<SecretKey>, crp: Crp, n: nat) returns (res: Result<Outcome>)
    requires lib.Valid(c.ringQ) && 3 <= |sks|
    ensures res.Ok? <==>
      forall i :: 0 <= i < |sks| ==> EncryptInput(lib, CollectiveKey(lib, c.ringQ, sks, crp, |sks|), i, n).Ok?
    ensures res.Ok? ==>
      var out := res.value;
      && |out.cts| == |out.pts| == |sks|
      && out.pk == CollectiveKey(lib, c.ringQ, sks, crp, |sks|)
      && (forall i :: 0 <= i < |sks| ==>
            out.cts[i] == EncryptInput(lib, out.pk, i, n).value &&
            |out.cts[i]| == 2 && AllPolys(c.ringQ, out.cts[i]))
      && out.ctadd == AddInto(c.ringQ, out.cts[1], out.cts[2], NewCiphertext(c.ringQ, 1))
      && (forall j :: 0 <= j < |sks| ==>
            AllPolys(c.ringQ, PartialShares(lib, sks, out.cts[j], |sks|)) &&
            out.pts[j] == lib.decryptAll(sks[j], out.cts[j], Sum(c.ringQ, PartialShares(lib, sks, out.cts[j], |sks|))))
      && AllPolys(c.ringQ, PartialShares(lib, sks, out.ctadd, |sks|))
      && out.ptAdd == lib.decryptAll(sks[1], out.ctadd, Sum(c.ringQ, PartialShares(lib, sks, out.ctadd, |sks|)))
  {
    var r := c.ringQ;
    var N := |sks|;
    var _, _, pk := CkgRound(lib, r, sks, crp, N);
    var enc := EncryptInputs(lib, r, pk, N, n);
    if enc.Err? {
      return Err(enc.error);
    }
    var cts := enc.value;
    var ctadd := AddCiphertexts(c, cts[1], cts[2], NewCiphertext(r, 1), N);
    AddIntoOverwrites(r, cts[1], cts[2], NewCiphertext(r, 1), NewCiphertext(r, 1));
    var pts := DecryptEach(lib, r, sks, cts, N);
    var _, _, ptAdd := DecryptWith(lib, r, sks, ctadd, N, 1);
    return Ok(Outcome(pk, cts, ctadd, pts, ptAdd));
  }
}
