/** The boundary to the lattice library. The driver treats every scheme object
    as opaque and only moves it between library calls; the library's operations
    are therefore parameters of the model (fields of `Library`), about which
    nothing is assumed except the shape of what they return. */
module Primitives {
  import opened RingQ

  /** A library call that can fail; the driver panics on every `Err`. */
  datatype Result<T> = Ok(value: T) | Err(error: string)

  datatype SecretKey = SecretKey(value: Poly)
  datatype PublicKey = PublicKey(p0: Poly, p1: Poly)

  /** Common reference polynomial sampled from a public seed. */
  datatype Crp = Crp(value: Poly)

  type Plaintext = Poly

  /** The components (`Value`) of a ciphertext; a degree-d ciphertext has d + 1. */
  type Ciphertext = seq<Poly>

  /** Public evaluation point of a party's Shamir polynomial. */
  type ShamirPublicPoint = nat

  datatype ShamirPolynomial = ShamirPolynomial(coeffs: seq<Poly>)

  /** What NewCombiner is configured with: the party's own point, the points
      of all parties and the threshold. A party whose combiner was never
      configured holds `UnsetCombiner`, the zero value of the record. */
  datatype Combiner = Combiner(ownPoint: ShamirPublicPoint, points: seq<ShamirPublicPoint>, threshold: int)

  const UnsetCombiner := Combiner(0, [], 0)

  /** heint.NewCiphertext: a fresh ciphertext of the given degree, all zero. */
  function NewCiphertext(r: Ring, degree: nat): (ct: Ciphertext)
    ensures |ct| == degree + 1 && AllPolys(r, ct)
    ensures forall k :: 0 <= k < |ct| ==> ct[k] == Zero(r)
  {
    seq(degree + 1, _ => Zero(r))
  }

  /** The library operations the driver calls. Each one is deterministic once
      its randomness is fixed, so it is a function of the values passed in
      (a decryptor, encryptor or protocol object is replaced by the key or
      parameters it was built from). */
  datatype Library = Library(
    genShare: (SecretKey, Crp) -> Poly,                     // PublicKeyGenProtocol.GenShare
    genPublicKey: (Poly, Crp) -> PublicKey,                 // PublicKeyGenProtocol.GenPublicKey
    encode: seq<int> -> Result<Plaintext>,                  // Encoder.Encode
    encrypt: (PublicKey, Plaintext) -> Result<Ciphertext>,  // Encryptor.Encrypt into a degree-1 ciphertext
    decryptPart: (SecretKey, Ciphertext) -> Plaintext,      // Decryptor.Decryptpart
    decryptAll: (SecretKey, Ciphertext, Plaintext) -> Plaintext,  // Decryptor.Decryptall
    genShamirPolynomial: (int, SecretKey) -> Result<ShamirPolynomial>,
    genShamirSecretShare: (ShamirPublicPoint, ShamirPolynomial) -> Poly,
    genAdditiveShare: (Combiner, seq<ShamirPublicPoint>, ShamirPublicPoint, Poly) -> Result<SecretKey>)
  {
    /** The shape of the library's results: shares are polynomials of the
        ring, and an encryption fills the two components of a degree-1
        ciphertext. */
    ghost predicate Valid(r: Ring) {
      && (forall sk, crp :: IsPoly(r, genShare(sk, crp)))
      && (forall sk, ct :: IsPoly(r, decryptPart(sk, ct)))
      && (forall pt, poly :: IsPoly(r, genShamirSecretShare(pt, poly)))
      && (forall pk, pt :: encrypt(pk, pt).Ok? ==>
            |encrypt(pk, pt).value| == 2 && AllPolys(r, encrypt(pk, pt).value))
    }
  }

  /** A party's input: the constant vector `i` of length `n` (params.N()). */
  function ConstInput(i: nat, n: nat): (v: seq<int>)
    ensures |v| == n && forall k :: 0 <= k < n ==> v[k] == i
  {
    seq(n, _ => i)
  }

  /** Encoding party i's input and encrypting it under `pk`. */
  function EncryptInput(lib: Library, pk: PublicKey, i: nat, n: nat): Result<Ciphertext> {
    match lib.encode(ConstInput(i, n))
    case Err(e) => Err(e)
    case Ok(pt) => lib.encrypt(pk, pt)
  }
}
