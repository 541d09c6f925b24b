/** The t-of-N threshold driver (TMHE): every party Shamir-shares its secret
    key with a degree t-1 polynomial, each party folds the evaluations it
    receives at its own public point, and the online quorum turns those into
    additive shares of the joint secret with the library's combiner before
    key generation and decryption. */
module Tmhe {
  import opened RingQ
  import opened Primitives
  import opened Computer
  import opened Protocols

  /** The fields of a party that the threshold phases read and write (the
      plaintext and ciphertext buffers are phase results, kept apart). */
  datatype Party = Party(
    index: nat,
    sk: SecretKey,
    share: Poly,                       // accumulated ShamirSecretShare
    shamirPoly: ShamirPolynomial,
    point: ShamirPublicPoint,
    combiner: Combiner)

  function PointsOf(ps: seq<Party>): (points: seq<ShamirPublicPoint>)
    ensures |points| == |ps|
  {
    seq(|ps|, k requires 0 <= k < |ps| => ps[k].point)
  }

  function Sks(ps: seq<Party>): (sks: seq<SecretKey>)
    ensures |sks| == |ps|
  {
    seq(|ps|, k requires 0 <= k < |ps| => ps[k].sk)
  }

  /** The points 1, ..., n: the public points of parties 0..n-1. */
  function PointRange(n: nat): seq<ShamirPublicPoint> {
    seq(n, k requires 0 <= k < n => k + 1)
  }

  // ---------------------------------------------------------------------
  // Sharing set-up

  /** Every party's Shamir polynomial of threshold t could be generated. */
  predicate PolynomialsOk(lib: Library, t: int, sks: seq<SecretKey>) {
    forall j :: 0 <= j < |sks| ==> lib.genShamirPolynomial(t, sks[j]).Ok?
  }

  /** The parties right after set-up: party i holds key i, a zero share,
      its polynomial, the point i + 1 and no combiner. */
  predicate SetUp(lib: Library, r: Ring, t: int, sks: seq<SecretKey>, parties: seq<Party>) {
    && |parties| == |sks|
    && (forall i :: 0 <= i < |sks| ==>
          lib.genShamirPolynomial(t, sks[i]).Ok? &&
          parties[i] == Party(i, sks[i], Zero(r), lib.genShamirPolynomial(t, sks[i]).value, i + 1, UnsetCombiner))
  }

  /** Each party allocates a zero share, generates its Shamir polynomial of
      threshold t for its secret key (panicking on failure) and takes the
      public point i + 1, which is appended to the list of all points. */
  method ShamirSetup(lib: Library, r: Ring, t: int, sks: seq<SecretKey>)
    returns (res: Result<(seq<Party>, seq<ShamirPublicPoint>)>)
    ensures res.Ok? <==> PolynomialsOk(lib, t, sks)
    ensures res.Ok? ==>
      var (parties, points) := res.value;
      && SetUp(lib, r, t, sks, parties)
      && points == PointsOf(parties) == PointRange(|sks|)
      && (forall i, j :: 0 <= i < j < |points| ==> 0 < points[i] < points[j])
  {
    var parties: seq<Party> := [];
    var points: seq<ShamirPublicPoint> := [];
    for i := 0 to |sks|
      invariant |parties| == |points| == i
      invariant forall k :: 0 <= k < i ==>
        lib.genShamirPolynomial(t, sks[k]).Ok? &&
        parties[k] == Party(k, sks[k], Zero(r), lib.genShamirPolynomial(t, sks[k]).value, k + 1, UnsetCombiner)
      invariant points == PointsOf(parties)
    {
      var share := Zero(r);
      var poly := lib.genShamirPolynomial(t, sks[i]);
      if poly.Err? {
        return Err(poly.error);
      }
      var p := Party(i, sks[i], share, poly.value, i + 1, UnsetCombiner);
      parties := parties + [p];
      points := points + [p.point];
    }
    return Ok((parties, points));
  }

  // ---------------------------------------------------------------------
  // Distribution and aggregation of the Shamir shares (only when t != N)

  /** The share matrix: shares[i][j] is party i's polynomial evaluated at
      party j's public point, for every ordered pair. */
  method GenShareMatrix(lib: Library, parties: seq<Party>) returns (shares: seq<seq<Poly>>)
    ensures |shares| == |parties|
    ensures forall i :: 0 <= i < |parties| ==> |shares[i]| == |parties|
    ensures forall i, j :: 0 <= i < |parties| && 0 <= j < |parties| ==>
      shares[i][j] == lib.genShamirSecretShare(parties[j].point, parties[i].shamirPoly)
  {
    shares := [];
    for i := 0 to |parties|
      invariant |shares| == i
      invariant forall a :: 0 <= a < i ==> |shares[a]| == |parties|
      invariant forall a, b :: 0 <= a < i && 0 <= b < |parties| ==>
        shares[a][b] == lib.genShamirSecretShare(parties[b].point, parties[a].shamirPoly)
    {
      var row: seq<Poly> := [];
      for j := 0 to |parties|
        invariant |row| == j
        invariant forall b :: 0 <= b < j ==>
          row[b] == lib.genShamirSecretShare(parties[b].point, parties[i].shamirPoly)
      {
        var share := lib.genShamirSecretShare(parties[j].point, parties[i].shamirPoly);
        row := row + [share];
      }
      shares := shares + [row];
    }
  }

  /** Column i of the share matrix, read back transposed: what party i
      receives from parties 0..m-1. */
  function Column(shares: seq<seq<Poly>>, i: nat, m: nat): seq<Poly>
    requires m <= |shares| && forall a :: 0 <= a < m ==> i < |shares[a]|
  {
    seq(m, a requires 0 <= a < m => shares[a][i])
  }

  /** The evaluations of every party's polynomial at party i's own point. */
  function ReceivedShares(lib: Library, parties: seq<Party>, i: nat): seq<Poly>
    requires i < |parties|
  {
    seq(|parties|, j requires 0 <= j < |parties| => lib.genShamirSecretShare(parties[i].point, parties[j].shamirPoly))
  }

  /** Each party folds into its own share, in place, the shares addressed to
      it by every party: AggregateShares(pi.share, shares[pj][pi], &pi.share). */
  method AggregateReceived(r: Ring, parties: seq<Party>, shares: seq<seq<Poly>>)
    returns (ps: seq<Party>)
    requires |shares| == |parties|
    requires forall a :: 0 <= a < |parties| ==> |shares[a]| == |parties| && AllPolys(r, shares[a])
    requires forall i :: 0 <= i < |parties| ==> IsPoly(r, parties[i].share)
    ensures |ps| == |parties|
    ensures forall i :: 0 <= i < |parties| ==>
      AllPolys(r, Column(shares, i, |parties|)) &&
      ps[i] == parties[i].(share := RingQ.Add(r, parties[i].share, Sum(r, Column(shares, i, |parties|))))
  {
    var N := |parties|;
    ps := parties;
    for i := 0 to N
      invariant |ps| == N
      invariant forall a :: 0 <= a < i ==>
        AllPolys(r, Column(shares, a, N)) &&
        ps[a] == parties[a].(share := RingQ.Add(r, parties[a].share, Sum(r, Column(shares, a, N))))
      invariant forall a :: i <= a < N ==> ps[a] == parties[a]
    {
      ghost var received: seq<Poly> := [];
      AddZero(r, parties[i].share);
      for j := 0 to N
        invariant |ps| == N
        invariant received == Column(shares, i, j) && AllPolys(r, received)
        invariant ps[i] == parties[i].(share := RingQ.Add(r, parties[i].share, Sum(r, received)))
        invariant forall a :: 0 <= a < i ==>
          ps[a] == parties[a].(share := RingQ.Add(r, parties[a].share, Sum(r, Column(shares, a, N))))
        invariant forall a :: i < a < N ==> ps[a] == parties[a]
      {
        var share := shares[j][i];
        assert share in shares[j];
        SumSnoc(r, received, share);
        AddAssociates(r, parties[i].share, Sum(r, received), share);
        ps := ps[i := ps[i].(share := RingQ.Add(r, ps[i].share, share))];
        received := received + [share];
      }
    }
  }

  /** Lines 117-147: when t != N every party's combiner is configured with
      its own point, all points and t, the share matrix is generated and
      every party aggregates what it receives; when t == N nothing happens. */
  method Distribute(lib: Library, r: Ring, t: int, parties: seq<Party>, points: seq<ShamirPublicPoint>)
    returns (ps: seq<Party>)
    requires lib.Valid(r)
    requires forall i :: 0 <= i < |parties| ==> IsPoly(r, parties[i].share)
    ensures t == |parties| ==> ps == parties
    ensures t != |parties| ==> |ps| == |parties| && forall i :: 0 <= i < |parties| ==>
      AllPolys(r, ReceivedShares(lib, parties, i)) &&
      ps[i] == parties[i].(combiner := Combiner(parties[i].point, points, t),
                           share := RingQ.Add(r, parties[i].share, Sum(r, ReceivedShares(lib, parties, i))))
  {
    var N := |parties|;
    ps := parties;
    if t != N {
      for i := 0 to N
        invariant |ps| == N
        invariant forall a :: 0 <= a < i ==> ps[a] == parties[a].(combiner := Combiner(parties[a].point, points, t))
        invariant forall a :: i <= a < N ==> ps[a] == parties[a]
      {
        ps := ps[i := ps[i].(combiner := Combiner(ps[i].point, points, t))];
      }
      var shares := GenShareMatrix(lib, ps);
      forall a | 0 <= a < N ensures AllPolys(r, shares[a]) {
        forall p | p in shares[a] ensures IsPoly(r, p) {
          var b :| 0 <= b < N && shares[a][b] == p;
          assert p == lib.genShamirSecretShare(ps[b].point, ps[a].shamirPoly);
        }
      }
      forall i | 0 <= i < N
        ensures Column(shares, i, N) == ReceivedShares(lib, parties, i)
        ensures AllPolys(r, ReceivedShares(lib, parties, i))
      {
        ReceivedSharesInRing(lib, r, parties, i);
      }
      ps := AggregateReceived(r, ps, shares);
    }
  }

  lemma ReceivedSharesInRing(lib: Library, r: Ring, parties: seq<Party>, i: nat)
    requires lib.Valid(r) && i < |parties|
    ensures AllPolys(r, ReceivedShares(lib, parties, i))
  {
    forall p | p in ReceivedShares(lib, parties, i) ensures IsPoly(r, p) {
      var j :| 0 <= j < |parties| && ReceivedShares(lib, parties, i)[j] == p;
      assert p == lib.genShamirSecretShare(parties[i].point, parties[j].shamirPoly);
    }
  }

  /** A party whose share was freshly allocated ends up holding the sum of all
      N evaluations taken at its own point. */
  lemma FreshShareIsSumOfEvaluations(lib: Library, r: Ring, parties: seq<Party>, i: nat)
    requires lib.Valid(r) && i < |parties| && parties[i].share == Zero(r)
    ensures AllPolys(r, ReceivedShares(lib, parties, i))
    ensures RingQ.Add(r, parties[i].share, Sum(r, ReceivedShares(lib, parties, i)))
         == Sum(r, ReceivedShares(lib, parties, i))
  {
    ReceivedSharesInRing(lib, r, parties, i);
    AddZero(r, Sum(r, ReceivedShares(lib, parties, i)));
  }

  // ---------------------------------------------------------------------
  // Online quorum and reconstruction

  /** party.combine as a value: the party's own key when t == N, otherwise
      the library combiner's additive share for the active points. */
  function Combined(lib: Library, p: Party, t: int, N: nat, active: seq<ShamirPublicPoint>): Result<SecretKey> {
    if t == N then Ok(p.sk) else lib.genAdditiveShare(p.combiner, active, p.point, p.share)
  }

  /** party.combine: builds the list of the online parties' public points in
      order and passes it to the combiner, except when t == N. */
  method Combine(lib: Library, p: Party, t: int, N: nat, online: seq<Party>) returns (res: Result<SecretKey>)
    ensures res == Combined(lib, p, t, N, PointsOf(online))
  {
    if t == N {
      res := Ok(p.sk);
    } else {
      var activePublicPoint: seq<ShamirPublicPoint> := [];
      for k := 0 to |online|
        invariant activePublicPoint == PointsOf(online[..k])
      {
        assert online[..k + 1] == online[..k] + [online[k]];
        activePublicPoint := activePublicPoint + [online[k].point];
      }
      assert online[..|online|] == online;
      res := lib.genAdditiveShare(p.combiner, activePublicPoint, p.point, p.share);
    }
  }

  /** `after` is `before` with the secret keys of parties 0..t-1 replaced by
      their combined keys for the active points; parties t..N-1 unchanged. */
  predicate QuorumCombined(lib: Library, before: seq<Party>, after: seq<Party>, t: int, N: nat,
                           active: seq<ShamirPublicPoint>)
  {
    && 0 <= t <= |before| == |after|
    && (forall i :: 0 <= i < t ==>
          Combined(lib, before[i], t, N, active).Ok? &&
          after[i] == before[i].(sk := Combined(lib, before[i], t, N, active).value))
    && (forall i :: t <= i < |before| ==> after[i] == before[i])
  }

  /** Lines 162-164 and 254-256: parties 0..t-1 in turn overwrite their secret
      key with the result of combine; the first failure aborts. */
  method CombineQuorum(lib: Library, parties: seq<Party>, t: int, N: nat, online: seq<Party>)
    returns (res: Result<seq<Party>>)
    requires 0 <= t <= |parties|
    ensures res.Ok? <==> forall i :: 0 <= i < t ==> Combined(lib, parties[i], t, N, PointsOf(online)).Ok?
    ensures res.Ok? ==> QuorumCombined(lib, parties, res.value, t, N, PointsOf(online))
  {
    var ps := parties;
    for i := 0 to t
      invariant |ps| == |parties|
      invariant forall a :: 0 <= a < i ==>
        Combined(lib, parties[a], t, N, PointsOf(online)).Ok? &&
        ps[a] == parties[a].(sk := Combined(lib, parties[a], t, N, PointsOf(online)).value)
      invariant forall a :: i <= a < |parties| ==> ps[a] == parties[a]
    {
      var sk := Combine(lib, ps[i], t, N, online);
      if sk.Err? {
        return Err(sk.error);
      }
      ps := ps[i := ps[i].(sk := sk.value)];
    }
    return Ok(ps);
  }

  /** combine is the identity on the quorum when t == N. */
  lemma FullThresholdKeepsKeys(lib: Library, before: seq<Party>, after: seq<Party>, N: nat,
                               active: seq<ShamirPublicPoint>)
    requires QuorumCombined(lib, before, after, N, N, active)
    ensures after == before
  {
    assert forall i :: 0 <= i < |before| ==> after[i] == before[i];
  }

  /** Combining a second time, as the decryption phase does, changes nothing:
      combine reads only the share, the point, the combiner and the active
      points, none of which it writes. */
  lemma RecombineIsStable(lib: Library, p0: seq<Party>, p1: seq<Party>, p2: seq<Party>, t: int, N: nat,
                          active: seq<ShamirPublicPoint>)
    requires QuorumCombined(lib, p0, p1, t, N, active)
    requires QuorumCombined(lib, p1, p2, t, N, active)
    ensures p2 == p1
  {
    assert forall i :: 0 <= i < |p1| ==> p2[i] == p1[i];
  }

  /** Combining keeps every party's public point, so the online list taken
      before reconstruction still names the same points afterwards. */
  lemma CombineKeepsPoints(lib: Library, before: seq<Party>, after: seq<Party>, t: int, N: nat,
                           active: seq<ShamirPublicPoint>)
    requires QuorumCombined(lib, before, after, t, N, active)
    ensures PointsOf(after) == PointsOf(before)
  {
  }

  /** The online parties are the prefix of length t, so the active points
      handed to the combiner are exactly 1, ..., t in order. */
  lemma ActivePointsArePrefix(parties: seq<Party>, t: int)
    requires 0 <= t <= |parties| && PointsOf(parties) == PointRange(|parties|)
    ensures PointsOf(parties[..t]) == PointRange(t)
  {
    forall k | 0 <= k < t ensures PointsOf(parties[..t])[k] == k + 1 {
      assert PointsOf(parties)[k] == k + 1;
    }
  }

  // ---------------------------------------------------------------------
  // The whole session, in closed form

  /** The N evaluations at party i's point i + 1 of every party's polynomial. */
  function Evaluations(lib: Library, t: int, sks: seq<SecretKey>, i: nat): seq<Poly>
    requires PolynomialsOk(lib, t, sks)
  {
    seq(|sks|, j requires 0 <= j < |sks| =>
      lib.genShamirSecretShare(i + 1, lib.genShamirPolynomial(t, sks[j]).value))
  }

  lemma EvaluationsInRing(lib: Library, r: Ring, t: int, sks: seq<SecretKey>, i: nat)
    requires lib.Valid(r) && PolynomialsOk(lib, t, sks)
    ensures AllPolys(r, Evaluations(lib, t, sks, i))
  {
    forall p | p in Evaluations(lib, t, sks, i) ensures IsPoly(r, p) {
      var j :| 0 <= j < |sks| && Evaluations(lib, t, sks, i)[j] == p;
      assert p == lib.genShamirSecretShare(i + 1, lib.genShamirPolynomial(t, sks[j]).value);
    }
  }

  /** The key party i < t holds after reconstruction: its own key when
      t == N; otherwise the additive share the combiner configured with
      (i + 1, [1..N], t) derives for the active points [1..t] from the sum
      of the evaluations at i + 1. */
  function QuorumKey(lib: Library, r: Ring, t: int, sks: seq<SecretKey>, i: nat): Result<SecretKey>
    requires lib.Valid(r) && PolynomialsOk(lib, t, sks) && 0 <= t && i < |sks|
  {
    if t == |sks| then Ok(sks[i])
    else
      EvaluationsInRing(lib, r, t, sks, i);
      lib.genAdditiveShare(Combiner(i + 1, PointRange(|sks|), t), PointRange(t), i + 1,
                           Sum(r, Evaluations(lib, t, sks, i)))
  }

  predicate QuorumKeysOk(lib: Library, r: Ring, t: int, sks: seq<SecretKey>)
    requires lib.Valid(r) && PolynomialsOk(lib, t, sks) && 0 <= t <= |sks|
  {
    forall i :: 0 <= i < t ==> QuorumKey(lib, r, t, sks, i).Ok?
  }

  /** The secret keys after reconstruction: the quorum's combined keys, then
      the untouched keys of parties t..N-1. */
  function SessionKeys(lib: Library, r: Ring, t: int, sks: seq<SecretKey>): (keys: seq<SecretKey>)
    requires lib.Valid(r) && PolynomialsOk(lib, t, sks) && 0 <= t <= |sks| && QuorumKeysOk(lib, r, t, sks)
    ensures |keys| == |sks|
  {
    seq(|sks|, i requires 0 <= i < |sks| => if i < t then QuorumKey(lib, r, t, sks, i).value else sks[i])
  }

  /** The joint public key: the collective key of the quorum's keys. */
  function JointPublicKey(lib: Library, r: Ring, t: int, sks: seq<SecretKey>, crp: Crp): PublicKey
    requires lib.Valid(r) && PolynomialsOk(lib, t, sks) && 0 <= t <= |sks| && QuorumKeysOk(lib, r, t, sks)
  {
    CollectiveKey(lib, r, SessionKeys(lib, r, t, sks), crp, t)
  }

  /** What one run of the threshold driver produces. */
  datatype Outcome = Outcome(
    parties: seq<Party>,
    points: seq<ShamirPublicPoint>,
    pk: PublicKey,
    cts: seq<Ciphertext>,
    ctadd: Ciphertext,
    pts: seq<Plaintext>,
    ptAdd: Plaintext)

  /** After distribution, combining party i's record over the points [1..t]
      gives the reference key. */
  lemma {:induction false} DistributedCombinesToQuorumKey(lib: Library, r: Ring, t: int, sks: seq<SecretKey>,
      parties0: seq<Party>, parties1: seq<Party>, i: nat)
    requires lib.Valid(r) && SetUp(lib, r, t, sks, parties0) && 0 <= t && i < |sks|
    requires t == |parties0| ==> parties1 == parties0
    requires t != |parties0| ==> |parties1| == |parties0| && forall k :: 0 <= k < |parties0| ==>
      AllPolys(r, ReceivedShares(lib, parties0, k)) &&
      parties1[k] == parties0[k].(combiner := Combiner(parties0[k].point, PointRange(|sks|), t),
                                  share := RingQ.Add(r, parties0[k].share, Sum(r, ReceivedShares(lib, parties0, k))))
    ensures PolynomialsOk(lib, t, sks)
    ensures Combined(lib, parties1[i], t, |sks|, PointRange(t)) == QuorumKey(lib, r, t, sks, i)
  {
    assert PolynomialsOk(lib, t, sks) by {
      forall j | 0 <= j < |sks| ensures lib.genShamirPolynomial(t, sks[j]).Ok? { }
    }
    if t != |sks| {
      assert ReceivedShares(lib, parties0, i) == Evaluations(lib, t, sks, i);
      FreshShareIsSumOfEvaluations(lib, r, parties0, i);
    }
  }

  /** Every quorum party already holds the key combine would give it. */
  predicate KeysSettled(lib: Library, ps: seq<Party>, t: int, N: nat) {
    && 0 <= t <= |ps|
    && forall i :: 0 <= i < t ==> Combined(lib, ps[i], t, N, PointRange(t)) == Ok(ps[i].sk)
  }

  /** A reconstruction leaves the quorum settled: combine reads no secret key
      unless t == N, where it returns the key itself. */
  lemma CombinedKeysAreSettled(lib: Library, before: seq<Party>, after: seq<Party>, t: int, N: nat)
    requires 0 <= t && QuorumCombined(lib, before, after, t, N, PointRange(t))
    ensures KeysSettled(lib, after, t, N)
  {
  }

  /** Lines 84-147: set-up and, when t != N, distribution of the Shamir
      shares; afterwards combining party i over the points [1..t] gives the
      reference key. */
  method SharePhase(lib: Library, r: Ring, sks: seq<SecretKey>, t: int)
    returns (res: Result<(seq<Party>, seq<ShamirPublicPoint>)>)
    requires lib.Valid(r) && 0 <= t <= |sks|
    ensures res.Ok? <==> PolynomialsOk(lib, t, sks)
    ensures res.Ok? ==>
      var (parties, points) := res.value;
      && |parties| == |sks|
      && points == PointsOf(parties) == PointRange(|sks|)
      && (forall i :: 0 <= i < |sks| ==> parties[i].sk == sks[i])
      && forall i :: 0 <= i < |sks| ==>
           Combined(lib, parties[i], t, |sks|, PointRange(t)) == QuorumKey(lib, r, t, sks, i)
  {
    var N := |sks|;
    var setup := ShamirSetup(lib, r, t, sks);
    if setup.Err? {
      return Err(setup.error);
    }
    var (parties0, points) := setup.value;
    var parties1 := Distribute(lib, r, t, parties0, points);
    forall i | 0 <= i < N ensures Combined(lib, parties1[i], t, N, PointRange(t)) == QuorumKey(lib, r, t, sks, i) {
      DistributedCombinesToQuorumKey(lib, r, t, sks, parties0, parties1, i);
    }
    assert PointsOf(parties1) == PointsOf(parties0);
    return Ok((parties1, points));
  }

  /** Lines 77-82 and 153-188: the online count read from the -o flag is
      overwritten by t, the quorum parties[:t] reconstructs its keys, then
      generates the joint public key. Whatever the flag, the online parties
      are the first t, with the points 1..t. */
  method KeyPhase(lib: Library, r: Ring, sks: seq<SecretKey>, t: int, flagO: int, crp: Crp)
    returns (res: Result<(seq<Party>, seq<ShamirPublicPoint>, seq<Party>, PublicKey)>)
    requires lib.Valid(r) && 0 <= t <= |sks|
    ensures res.Ok? <==> PolynomialsOk(lib, t, sks) && QuorumKeysOk(lib, r, t, sks)
    ensures res.Ok? ==>
      var (parties, points, online, pk) := res.value;
      && |parties| == |sks|
      && online == parties[..t] && PointsOf(online) == PointRange(t)
      && points == PointsOf(parties) == PointRange(|sks|)
      && Sks(parties) == SessionKeys(lib, r, t, sks)
      && KeysSettled(lib, parties, t, |sks|)
      && pk == JointPublicKey(lib, r, t, sks, crp)
  {
    var N := |sks|;
    var shared := SharePhase(lib, r, sks, t);
    if shared.Err? {
      return Err(shared.error);
    }
    var (parties1, points) := shared.value;
    var o := if flagO <= 0 then N else flagO;
    o := t;
    var online := parties1[..o];
    ActivePointsArePrefix(parties1, t);
    var keyed := CombineQuorum(lib, parties1, t, N, online);
    if keyed.Err? {
      return Err(keyed.error);
    }
    var parties2 := keyed.value;
    assert Sks(parties2) == SessionKeys(lib, r, t, sks);
    CombineKeepsPoints(lib, parties1, parties2, t, N, PointRange(t));
    CombinedKeysAreSettled(lib, parties1, parties2, t, N);
    var _, _, pk := CkgRound(lib, r, Sks(parties2), crp, t);
    ActivePointsArePrefix(parties2, t);
    // the online slice shares its parties with `parties`, so it sees the new keys
    online := parties2[..o];
    return Ok((parties2, points, online, pk));
  }

  /** Lines 253-256: a second reconstruction of settled parties, over any
      online list with the points 1..t, succeeds and changes nothing. */
  method Recombine(lib: Library, parties: seq<Party>, online: seq<Party>, t: int, N: nat) returns (ps: seq<Party>)
    requires KeysSettled(lib, parties, t, N) && PointsOf(online) == PointRange(t)
    ensures ps == parties
  {
    var rekeyed := CombineQuorum(lib, parties, t, N, online);
    assert rekeyed.Ok?;
    ps := rekeyed.value;
    assert forall i :: 0 <= i < |parties| ==> ps[i] == parties[i];
  }

  /** The threshold driver end to end: set-up and distribution of the Shamir
      shares, reconstruction by the quorum parties[:t], collective key
      generation by the quorum, encryption of every input, the sum of
      ciphertexts 1 and 2, a second reconstruction, and the decryptions. */
  method Run(lib: Library, c: Computer, sks: seq<SecretKey>, t: int, flagO: int, crp: Crp, n: nat)
    returns (res: Result<Outcome>)
    requires lib.Valid(c.ringQ) && 3 <= |sks| && 0 <= t <= |sks|
    ensures res.Ok? <==>
      && PolynomialsOk(lib, t, sks)
      && QuorumKeysOk(lib, c.ringQ, t, sks)
      && forall i :: 0 <= i < |sks| ==> EncryptInput(lib, JointPublicKey(lib, c.ringQ, t, sks, crp), i, n).Ok?
    ensures res.Ok? ==>
      var out := res.value;
      var keys := SessionKeys(lib, c.ringQ, t, sks);
      && |out.parties| == |out.cts| == |out.pts| == |sks|
      && out.points == PointsOf(out.parties) == PointRange(|sks|)
      && Sks(out.parties) == keys
      && out.pk == JointPublicKey(lib, c.ringQ, t, sks, crp)
      && (forall i :: 0 <= i < |sks| ==>
            out.cts[i] == EncryptInput(lib, out.pk, i, n).value &&
            |out.cts[i]| == 2 && AllPolys(c.ringQ, out.cts[i]))
      && out.ctadd == AddInto(c.ringQ, out.cts[1], out.cts[2], NewCiphertext(c.ringQ, 1))
      && (forall j :: 0 <= j < |sks| ==>
            AllPolys(c.ringQ, PartialShares(lib, keys, out.cts[j], t)) &&
            out.pts[j] == lib.decryptAll(keys[j], out.cts[j], Sum(c.ringQ, PartialShares(lib, keys, out.cts[j], t))))
      && AllPolys(c.ringQ, PartialShares(lib, keys, out.ctadd, t))
      && out.ptAdd == lib.decryptAll(keys[1], out.ctadd, Sum(c.ringQ, PartialShares(lib, keys, out.ctadd, t)))
  {
    var r := c.ringQ;
    var N := |sks|;
    var keyed := KeyPhase(lib, r, sks, t, flagO, crp);
    if keyed.Err? {
      return Err(keyed.error);
    }
    var (parties, points, online, pk) := keyed.value;
    var enc := EncryptInputs(lib, r, pk, N, n);
    if enc.Err? {
      return Err(enc.error);
    }
    var cts := enc.value;
    var ctadd := AddCiphertexts(c, cts[1], cts[2], NewCiphertext(r, 1), N);
    AddIntoOverwrites(r, cts[1], cts[2], NewCiphertext(r, 1), NewCiphertext(r, 1));
    parties := Recombine(lib, parties, online, t, N);
    var pts := DecryptEach(lib, r, Sks(parties), cts, t);
    var _, _, ptAdd := DecryptWith(lib, r, Sks(parties), ctadd, t, 1);
    return Ok(Outcome(parties, points, pk, cts, ctadd, pts, ptAdd));
  }
}
