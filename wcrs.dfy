/** The N-of-N driver without a common reference string (MHE_WCRS): every
    party generates its own public key against its own CRP, and the parties'
    degree-1 ciphertexts are bundled into one extended ciphertext of N + 1
    components, where slot 0 is shared by all parties and slot i + 1 belongs
    to party i. */
module MheWcrs {
  import opened RingQ
  import opened Primitives
  import opened Computer

  // ---------------------------------------------------------------------
  // The ciphertext bundler

  /** extendCiphertext: a fresh degree-N ciphertext holding ct's shared
      component in slot 0 and its own component in slot i + 1. */
  function ExtendCiphertext(r: Ring, ct: Ciphertext, N: nat, i: int): (ext: Ciphertext)
    requires 0 <= i < N && |ct| >= 2
    ensures |ext| == N + 1
    ensures ext[0] == ct[0] && ext[i + 1] == ct[1]
    ensures forall k :: 1 <= k <= N && k != i + 1 ==> ext[k] == Zero(r)
    ensures IsPoly(r, ct[0]) && IsPoly(r, ct[1]) ==> AllPolys(r, ext)
  {
    NewCiphertext(r, N)[0 := ct[0]][i + 1 := ct[1]]
  }

  /** reCiphertext: the ordinary two-component ciphertext (slot 0, slot i + 1)
      of party i. N is not used. */
  function ReCiphertext(r: Ring, ct: Ciphertext, N: nat, i: int): (re: Ciphertext)
    requires 0 <= i && i + 1 < |ct|
    ensures |re| == 2 && re[0] == ct[0] && re[1] == ct[i + 1]
  {
    NewCiphertext(r, 1)[0 := ct[0]][1 := ct[i + 1]]
  }

  /** ctaddzero: only the shared slot 0, with a zero second component. */
  function CtAddZero(r: Ring, ct: Ciphertext, N: nat): (z: Ciphertext)
    requires |ct| >= 1
    ensures |z| == 2 && z[0] == ct[0] && z[1] == Zero(r)
  {
    NewCiphertext(r, 1)[0 := ct[0]]
  }

  /** Restricting an extended ciphertext to its owner gives back the
      two-component ciphertext it was built from. */
  lemma ReExtendRoundTrip(r: Ring, c: Ciphertext, N: nat, i: int)
    requires 0 <= i < N && |c| == 2
    ensures ReCiphertext(r, ExtendCiphertext(r, c, N, i), N, i) == c
  {
  }

  /** Extending the zero ciphertext gives the zero extended ciphertext. */
  lemma ExtendZero(r: Ring, N: nat, i: int)
    requires 0 <= i < N
    ensures ExtendCiphertext(r, NewCiphertext(r, 1), N, i) == NewCiphertext(r, N)
  {
  }

  /** Addition on extended ciphertexts is N independent additions of the
      parties' two-component ciphertexts that share one addition on slot 0. */
  lemma {:induction false} ReCiphertextOfAdd(r: Ring, x: Ciphertext, y: Ciphertext, dst: Ciphertext, N: nat, k: int)
    requires |x| == |y| == |dst| == N + 1 && AllPolys(r, x) && AllPolys(r, y)
    requires 0 <= k < N
    ensures AllPolys(r, ReCiphertext(r, x, N, k)) && AllPolys(r, ReCiphertext(r, y, N, k))
    ensures ReCiphertext(r, AddInto(r, x, y, dst), N, k)
         == AddInto(r, ReCiphertext(r, x, N, k), ReCiphertext(r, y, N, k), NewCiphertext(r, 1))
  {
    var rx, ry := ReCiphertext(r, x, N, k), ReCiphertext(r, y, N, k);
    assert rx == [x[0], x[k + 1]] && ry == [y[0], y[k + 1]];
    AddIntoSlot(r, x, y, dst, 0);
    AddIntoSlot(r, x, y, dst, k + 1);
    AddIntoSlot(r, rx, ry, NewCiphertext(r, 1), 0);
    AddIntoSlot(r, rx, ry, NewCiphertext(r, 1), 1);
  }

  /** No cross-contamination: after adding party i's and party j's extended
      ciphertexts, party i's restriction holds the summed shared slot and
      only a's own component, party j's only b's, and every other party's a
      zero component. */
  lemma {:induction false} NoCrossContamination(r: Ring, a: Ciphertext, b: Ciphertext, dst: Ciphertext,
                                                N: nat, i: int, j: int)
    requires |a| == 2 && |b| == 2 && AllPolys(r, a) && AllPolys(r, b)
    requires 0 <= i < N && 0 <= j < N && |dst| == N + 1
    ensures AllPolys(r, ExtendCiphertext(r, a, N, i)) && AllPolys(r, ExtendCiphertext(r, b, N, j))
    ensures var c := AddInto(r, ExtendCiphertext(r, a, N, i), ExtendCiphertext(r, b, N, j), dst);
      && (i != j ==> ReCiphertext(r, c, N, i) == [RingQ.Add(r, a[0], b[0]), a[1]])
      && (i != j ==> ReCiphertext(r, c, N, j) == [RingQ.Add(r, a[0], b[0]), b[1]])
      && (i == j ==> ReCiphertext(r, c, N, i) == [RingQ.Add(r, a[0], b[0]), RingQ.Add(r, a[1], b[1])])
      && (forall k :: 0 <= k < N && k != i && k != j ==>
            ReCiphertext(r, c, N, k) == [RingQ.Add(r, a[0], b[0]), Zero(r)])
  {
    assert a[0] in a && a[1] in a && b[0] in b && b[1] in b;
    var x, y := ExtendCiphertext(r, a, N, i), ExtendCiphertext(r, b, N, j);
    var c := AddInto(r, x, y, dst);
    AddZero(r, a[1]);
    AddZero(r, b[1]);
    AddZero(r, Zero(r));
    AddIntoSlot(r, x, y, dst, 0);
    forall k | 1 <= k <= N
      ensures c[k] == RingQ.Add(r, x[k], y[k])
    {
      AddIntoSlot(r, x, y, dst, k);
    }
  }

  /** Restricting the sum to party i gives back party i's own ciphertext `a`
      exactly when b's shared component is zero: in general the shared slot
      carries both parties' contributions. */
  lemma {:induction false} ReCiphertextOfSumIsInputIff(r: Ring, a: Ciphertext, b: Ciphertext, dst: Ciphertext,
                                                       N: nat, i: int, j: int)
    requires |a| == 2 && |b| == 2 && AllPolys(r, a) && AllPolys(r, b)
    requires 0 <= i < N && 0 <= j < N && i != j && |dst| == N + 1
    ensures AllPolys(r, ExtendCiphertext(r, a, N, i)) && AllPolys(r, ExtendCiphertext(r, b, N, j))
    ensures var c := AddInto(r, ExtendCiphertext(r, a, N, i), ExtendCiphertext(r, b, N, j), dst);
      ReCiphertext(r, c, N, i) == a <==> b[0] == Zero(r)
  {
    assert a[0] in a && b[0] in b;
    NoCrossContamination(r, a, b, dst, N, i, j);
    AddCancels(r, a[0], b[0]);
    assert a == [a[0], a[1]];
  }

  // ---------------------------------------------------------------------
  // Per-party key generation (one CRP per party)

  /** Party i generates its key-generation share against its own CRP
      `crps[i]` and turns it into its own public key with the same CRP. */
  method PerPartyKeys(lib: Library, r: Ring, sks: seq<SecretKey>, crps: seq<Crp>)
    returns (shareOut: seq<Poly>, pks: seq<PublicKey>)
    requires |crps| == |sks|
    ensures |shareOut| == |pks| == |sks|
    ensures forall i :: 0 <= i < |sks| ==>
      shareOut[i] == lib.genShare(sks[i], crps[i]) &&
      pks[i] == lib.genPublicKey(shareOut[i], crps[i])
  {
    shareOut, pks := [], [];
    for i := 0 to |sks|
      invariant |shareOut| == |pks| == i
      invariant forall k :: 0 <= k < i ==>
        shareOut[k] == lib.genShare(sks[k], crps[k]) &&
        pks[k] == lib.genPublicKey(shareOut[k], crps[k])
    {
      var crpi := crps[i];
      var share := lib.genShare(sks[i], crpi);
      shareOut := shareOut + [share];
      pks := pks + [lib.genPublicKey(share, crpi)];
    }
  }

  // ---------------------------------------------------------------------
  // Encryption: each party under its own key, then extended into its slot

  method EncryptExtended(lib: Library, r: Ring, pks: seq<PublicKey>, N: nat, n: nat)
    returns (res: Result<seq<Ciphertext>>)
    requires lib.Valid(r) && |pks| == N
    ensures res.Ok? <==> forall i :: 0 <= i < N ==> EncryptInput(lib, pks[i], i, n).Ok?
    ensures res.Ok? ==> |res.value| == N && forall i :: 0 <= i < N ==>
      |EncryptInput(lib, pks[i], i, n).value| == 2 &&
      AllPolys(r, EncryptInput(lib, pks[i], i, n).value) &&
      res.value[i] == ExtendCiphertext(r, EncryptInput(lib, pks[i], i, n).value, N, i) &&
      AllPolys(r, res.value[i])
  {
    var cts: seq<Ciphertext> := [];
    for i := 0 to N
      invariant |cts| == i
      invariant forall k :: 0 <= k < i ==>
        && EncryptInput(lib, pks[k], k, n).Ok?
        && |EncryptInput(lib, pks[k], k, n).value| == 2
        && AllPolys(r, EncryptInput(lib, pks[k], k, n).value)
        && cts[k] == ExtendCiphertext(r, EncryptInput(lib, pks[k], k, n).value, N, k)
        && AllPolys(r, cts[k])
    {
      var ct := EncryptInput(lib, pks[i], i, n);
      if ct.Err? {
        return Err(ct.error);
      }
      assert ct.value[0] in ct.value && ct.value[1] in ct.value;
      cts := cts + [ExtendCiphertext(r, ct.value, N, i)];
    }
    return Ok(cts);
  }

  // ---------------------------------------------------------------------
  // Computation: parties 1 and 2 added into an extended zero ciphertext

  method ComputePhase(c: Computer, cts: seq<Ciphertext>, N: nat) returns (ctadd: Ciphertext)
    requires 3 <= N && |cts| == N
    requires forall i :: 0 <= i < N ==> |cts[i]| == N + 1 && AllPolys(c.ringQ, cts[i])
    ensures AllPolys(c.ringQ, cts[2]) && ctadd == AddInto(c.ringQ, cts[1], cts[2], NewCiphertext(c.ringQ, N))
  {
    ctadd := NewCiphertext(c.ringQ, 1);
    ctadd := ExtendCiphertext(c.ringQ, ctadd, N, 2);
    ExtendZero(c.ringQ, N, 2);
    ctadd := AddCiphertexts(c, cts[1], cts[2], ctadd, N);
  }

  // ---------------------------------------------------------------------
  // Decryption

  /** Each party j decrypts its own restricted ciphertext alone: one partial
      decryption, finalized by the same party on the same ciphertext. */
  method DecryptOwn(lib: Library, r: Ring, sks: seq<SecretKey>, cts: seq<Ciphertext>, N: nat)
    returns (restricted: seq<Ciphertext>, pts: seq<Plaintext>)
    requires lib.Valid(r) && |sks| == |cts| == N
    requires forall j :: 0 <= j < N ==> |cts[j]| == N + 1
    ensures |restricted| == |pts| == N
    ensures forall j :: 0 <= j < N ==>
      restricted[j] == ReCiphertext(r, cts[j], N, j) &&
      pts[j] == lib.decryptAll(sks[j], restricted[j], lib.decryptPart(sks[j], restricted[j]))
    // the same as a one-contributor decryption: the fold of party j's share alone
    ensures forall j :: 0 <= j < N ==>
      pts[j] == lib.decryptAll(sks[j], restricted[j], Sum(r, [lib.decryptPart(sks[j], restricted[j])]))
  {
    restricted, pts := [], [];
    for j := 0 to N
      invariant |restricted| == |pts| == j
      invariant forall k :: 0 <= k < j ==>
        restricted[k] == ReCiphertext(r, cts[k], N, k) &&
        pts[k] == lib.decryptAll(sks[k], restricted[k], lib.decryptPart(sks[k], restricted[k])) &&
        pts[k] == lib.decryptAll(sks[k], restricted[k], Sum(r, [lib.decryptPart(sks[k], restricted[k])]))
    {
      var ct := ReCiphertext(r, cts[j], N, j);
      var ptpart := lib.decryptPart(sks[j], ct);
      SumSingleton(r, ptpart);
      restricted := restricted + [ct];
      pts := pts + [lib.decryptAll(sks[j], ct, ptpart)];
    }
  }

  /** The partial decryptions the sum's accumulator receives: party i, for
      i in 1..N-1, decrypts its own restriction of `ctadd`. */
  function SumShares(lib: Library, r: Ring, sks: seq<SecretKey>, ctadd: Ciphertext, N: nat): seq<Plaintext>
    requires 1 <= N && |sks| == N && |ctadd| == N + 1
  {
    seq(N - 1, k requires 0 <= k < N - 1 => lib.decryptPart(sks[k + 1], ReCiphertext(r, ctadd, N, k + 1)))
  }

  /** Decryption of the sum: parties 1..N-1 each add one partial decryption of
      their own restricted pair to a fresh accumulator; party 0 finalizes it
      once, on the shared-slot-only ciphertext. */
  method DecryptSum(lib: Library, r: Ring, sks: seq<SecretKey>, ctadd: Ciphertext, N: nat)
    returns (parts: seq<Plaintext>, hisigema: Plaintext, pt: Plaintext)
    requires lib.Valid(r) && 1 <= N && |sks| == N && |ctadd| == N + 1
    ensures parts == SumShares(lib, r, sks, ctadd, N)
    ensures AllPolys(r, parts) && hisigema == Sum(r, parts)
    ensures pt == lib.decryptAll(sks[0], CtAddZero(r, ctadd, N), hisigema)
  {
    parts := [];
    hisigema := Zero(r);
    for i := 1 to N
      invariant |parts| == i - 1
      invariant forall k :: 0 <= k < i - 1 ==>
        parts[k] == lib.decryptPart(sks[k + 1], ReCiphertext(r, ctadd, N, k + 1))
      invariant AllPolys(r, parts) && hisigema == Sum(r, parts)
    {
      var ctaddi := ReCiphertext(r, ctadd, N, i);
      var ptaddpart := lib.decryptPart(sks[i], ctaddi);
      SumSnoc(r, parts, ptaddpart);
      hisigema := RingQ.Add(r, hisigema, ptaddpart);
      parts := parts + [ptaddpart];
    }
    var zero := CtAddZero(r, ctadd, N);
    pt := lib.decryptAll(sks[0], zero, hisigema);
  }

  // ---------------------------------------------------------------------
  // The whole session

  /** Party i's own public key, from its share against its own CRP. */
  function PartyKey(lib: Library, sks: seq<SecretKey>, crps: seq<Crp>, i: nat): PublicKey
    requires i < |sks| && |crps| == |sks|
  {
    lib.genPublicKey(lib.genShare(sks[i], crps[i]), crps[i])
  }

  /** Party i's encrypted input under its own key. */
  function OwnCiphertext(lib: Library, sks: seq<SecretKey>, crps: seq<Crp>, i: nat, n: nat): Result<Ciphertext>
    requires i < |sks| && |crps| == |sks|
  {
    EncryptInput(lib, PartyKey(lib, sks, crps, i), i, n)
  }

  /** Key generation and encryption: lines 87-153. */
  method KeysAndCiphertexts(lib: Library, r: Ring, sks: seq<SecretKey>, crps: seq<Crp>, n: nat)
    returns (pks: seq<PublicKey>, res: Result<seq<Ciphertext>>)
    requires lib.Valid(r) && |sks| == |crps|
    ensures |pks| == |sks| && forall i :: 0 <= i < |sks| ==> pks[i] == PartyKey(lib, sks, crps, i)
    ensures res.Ok? <==> forall i :: 0 <= i < |sks| ==> OwnCiphertext(lib, sks, crps, i, n).Ok?
    ensures res.Ok? ==> |res.value| == |sks| && forall i :: 0 <= i < |sks| ==>
      |OwnCiphertext(lib, sks, crps, i, n).value| == 2 &&
      AllPolys(r, OwnCiphertext(lib, sks, crps, i, n).value) &&
      res.value[i] == ExtendCiphertext(r, OwnCiphertext(lib, sks, crps, i, n).value, |sks|, i) &&
      |res.value[i]| == |sks| + 1 && AllPolys(r, res.value[i])
  {
    var _, keys := PerPartyKeys(lib, r, sks, crps);
    pks := keys;
    assert forall i :: 0 <= i < |sks| ==> EncryptInput(lib, pks[i], i, n) == OwnCiphertext(lib, sks, crps, i, n);
    res := EncryptExtended(lib, r, pks, |sks|, n);
  }

  /** What one run of the driver produces. */
  datatype Outcome = Outcome(
    pks: seq<PublicKey>,
    cts: seq<Ciphertext>,
    ctadd: Ciphertext,
    pts: seq<Plaintext>,
    ptAdd: Plaintext)

  /** The driver end to end, for secret keys `sks`, one sampled CRP per party
      and input length `n`. Each party decrypts exactly the ciphertext it
      encrypted; the sum's shared slot holds both summands' shared
      components, party 1's and party 2's restrictions their own second
      components, and every other party's a zero component. */
  method Run(lib: Library, c: Computer, sks: seq<SecretKey>, crps: seq<Crp>, n: nat) returns (res: Result<Outcome>)
    requires lib.Valid(c.ringQ) && 3 <= |sks| == |crps|
    ensures res.Ok? <==> forall i :: 0 <= i < |sks| ==> OwnCiphertext(lib, sks, crps, i, n).Ok?
    ensures res.Ok? ==>
      var out := res.value;
      var N := |sks|;
      var r := c.ringQ;
      && |out.pks| == |out.cts| == |out.pts| == N
      && (forall i :: 0 <= i < N ==>
            && out.pks[i] == PartyKey(lib, sks, crps, i)
            && |OwnCiphertext(lib, sks, crps, i, n).value| == 2
            && out.cts[i] == ExtendCiphertext(r, OwnCiphertext(lib, sks, crps, i, n).value, N, i)
            && out.pts[i] == lib.decryptAll(sks[i], OwnCiphertext(lib, sks, crps, i, n).value,
                                             lib.decryptPart(sks[i], OwnCiphertext(lib, sks, crps, i, n).value)))
      && AllPolys(r, out.cts[1]) && AllPolys(r, out.cts[2])
      && out.ctadd == AddInto(r, out.cts[1], out.cts[2], NewCiphertext(r, N))
      && (var a, b := OwnCiphertext(lib, sks, crps, 1, n).value, OwnCiphertext(lib, sks, crps, 2, n).value;
          && AllPolys(r, a) && AllPolys(r, b)
          && ReCiphertext(r, out.ctadd, N, 1) == [RingQ.Add(r, a[0], b[0]), a[1]]
          && ReCiphertext(r, out.ctadd, N, 2) == [RingQ.Add(r, a[0], b[0]), b[1]]
          && (forall k :: 0 <= k < N && k != 1 && k != 2 ==> ReCiphertext(r, out.ctadd, N, k) == [RingQ.Add(r, a[0], b[0]), Zero(r)])
          && AllPolys(r, SumShares(lib, r, sks, out.ctadd, N))
          && out.ptAdd == lib.decryptAll(sks[0], [RingQ.Add(r, a[0], b[0]), Zero(r)],
                                         Sum(r, SumShares(lib, r, sks, out.ctadd, N))))
  {
    var r := c.ringQ;
    var N := |sks|;
    var pks, enc := KeysAndCiphertexts(lib, r, sks, crps, n);
    if enc.Err? {
      return Err(enc.error);
    }
    var cts := enc.value;
    var ctadd := ComputePhase(c, cts, N);
    var a, b := OwnCiphertext(lib, sks, crps, 1, n).value, OwnCiphertext(lib, sks, crps, 2, n).value;
    NoCrossContamination(r, a, b, NewCiphertext(r, N), N, 1, 2);
    var restricted, pts := DecryptOwn(lib, r, sks, cts, N);
    forall j | 0 <= j < N ensures restricted[j] == OwnCiphertext(lib, sks, crps, j, n).value {
      ReExtendRoundTrip(r, OwnCiphertext(lib, sks, crps, j, n).value, N, j);
    }
    var _, _, ptAdd := DecryptSum(lib, r, sks, ctadd, N);
    assert CtAddZero(r, ctadd, N) == [RingQ.Add(r, a[0], b[0]), Zero(r)];
    return Ok(Outcome(pks, cts, ctadd, pts, ptAdd));
  }
}
