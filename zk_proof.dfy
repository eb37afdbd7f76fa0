/** backend/services/zk_proof.py: Schnorr proofs of knowledge of a document's scalar on
    secp256k1, bound to the document identifier and a context string. */
module ZkProof {
  import opened Wrappers
  import opened Bytes
  import opened Hex
  import Utf8
  import opened Crypto
  import opened Secp256k1

  /** `_ensure_scalar`: reduction modulo `N`, with 0 replaced by 1 so that the result is a
      usable secret exponent. */
  function EnsureScalar(x: int): (r: Scalar)
    ensures 1 <= r
    ensures x % N != 0 ==> r == x % N
    ensures x % N == 0 ==> r == 1
  {
    if x % N == 0 then 1 else x % N
  }

  /** Reducing twice changes nothing. */
  lemma EnsureScalarIdempotent(x: int)
    ensures EnsureScalar(EnsureScalar(x)) == EnsureScalar(x)
  {
  }

  /** Numbers congruent modulo `N` give the same scalar. */
  lemma EnsureScalarCongruent(x: int, y: int)
    requires x % N == y % N
    ensures EnsureScalar(x) == EnsureScalar(y)
  {
  }

  /** `commitment_from_hash(hash_hex)`: the compressed public point `G * scalar` in hex;
      `None` where `int(hash_hex, 16)` raises ValueError. */
  function CommitmentFromHash(curve: Curve, hashHex: string): (r: Option<string>)
    ensures r.Some? <==> ParseHexInt(hashHex).Some?
    ensures r.Some? ==> IsLowerHex(r.value) && |r.value| % 2 == 0
  {
    match ParseHexInt(hashHex)
    case None => None
    case Some(v) => Some(HexDigest(curve.compress(Mul(G, EnsureScalar(v)))))
  }

  /** A commitment is 66 lower-case hex digits starting with "02" or "03". */
  lemma CommitmentFromHashFormat(curve: Curve, hashHex: string)
    requires ValidCurve(curve)
    requires ParseHexInt(hashHex).Some?
    ensures var c := CommitmentFromHash(curve, hashHex).value;
      && |c| == 66 && IsLowerHex(c)
      && (c[..2] == "02" || c[..2] == "03")
  {
    var a := EnsureScalar(ParseHexInt(hashHex).value);
    MulGeneratorInfinity(a);
    assert Mul(G, a) != Infinity;
    var bs := curve.compress(Mul(G, a));
    assert CommitmentFromHash(curve, hashHex).value == HexDigest(bs);
    CompressedHex(bs);
  }

  lemma CompressedHex(bs: seq<Byte>)
    requires |bs| == 33 && (bs[0] == 2 || bs[0] == 3)
    ensures var c := HexDigest(bs); |c| == 66 && (c[..2] == "02" || c[..2] == "03")
  {
    assert HexDigest(bs)[..2] == ByteHex(bs[0]);
  }

  /** Two hashes give the same commitment when they give the same scalar, that is when they are
      congruent modulo `N` or one is 0 and the other 1 modulo `N`; for a valid curve, only
      then. */
  lemma CommitmentFromHashCongruent(curve: Curve, h1: string, h2: string)
    requires ParseHexInt(h1).Some? && ParseHexInt(h2).Some?
    ensures EnsureScalar(ParseHexInt(h1).value) == EnsureScalar(ParseHexInt(h2).value) ==>
      CommitmentFromHash(curve, h1) == CommitmentFromHash(curve, h2)
    ensures ValidCurve(curve) && CommitmentFromHash(curve, h1) == CommitmentFromHash(curve, h2) ==>
      EnsureScalar(ParseHexInt(h1).value) == EnsureScalar(ParseHexInt(h2).value)
  {
    var a, b := EnsureScalar(ParseHexInt(h1).value), EnsureScalar(ParseHexInt(h2).value);
    MulGeneratorScalar(a);
    MulGeneratorScalar(b);
    var p, q := Mul(G, a), Mul(G, b);
    FromHexDigest(curve.compress(p));
    FromHexDigest(curve.compress(q));
    if ValidCurve(curve) && CommitmentFromHash(curve, h1) == CommitmentFromHash(curve, h2) {
      assert HexDigest(curve.compress(p)) == HexDigest(curve.compress(q));
      assert curve.compress(p) == curve.compress(q);
      assert p != Infinity && q != Infinity;
      assert Some(p) == curve.fromString(curve.compress(q)) == Some(q);
    }
  }

  /** A commitment parses back to the point `G * scalar`, where scalar is the hash read as a
      hex number. */
  lemma CommitmentFromHashParses(curve: Curve, hashHex: string)
    requires ValidCurve(curve)
    requires ParseHexInt(hashHex).Some?
    ensures ParseCommitment(curve, CommitmentFromHash(curve, hashHex).value)
      == Some(Mul(G, EnsureScalar(ParseHexInt(hashHex).value)))
  {
    var a := EnsureScalar(ParseHexInt(hashHex).value);
    MulGeneratorInfinity(a);
    FromHexDigest(curve.compress(Mul(G, a)));
  }

  /** The proof `(R, s)` with `R = (rx, ry)` in affine coordinates. */
  datatype SchnorrProof = SchnorrProof(rx: int, ry: int, s: int)

  /** `SchnorrProof.from_payload`: the three hex numbers `rx`, `ry`, `s`; `None` where the
      source raises ValueError (a missing key or a malformed number). */
  function FromPayload(payload: map<string, string>): (r: Option<SchnorrProof>)
    ensures r.Some? <==>
      && "rx" in payload && ParseHexInt(payload["rx"]).Some?
      && "ry" in payload && ParseHexInt(payload["ry"]).Some?
      && "s" in payload && ParseHexInt(payload["s"]).Some?
    ensures r.Some? ==>
      && Some(r.value.rx) == ParseHexInt(payload["rx"])
      && Some(r.value.ry) == ParseHexInt(payload["ry"])
      && Some(r.value.s) == ParseHexInt(payload["s"])
  {
    if "rx" !in payload || "ry" !in payload || "s" !in payload then None
    else
      match (ParseHexInt(payload["rx"]), ParseHexInt(payload["ry"]), ParseHexInt(payload["s"]))
      case (Some(rx), Some(ry), Some(s)) => Some(SchnorrProof(rx, ry, s))
      case _ => None
  }

  /** The payload a prover sends: each component as 64 hex digits. */
  function ToPayload(proof: SchnorrProof): map<string, string>
    requires 0 <= proof.rx < TwoTo256 && 0 <= proof.ry < TwoTo256 && 0 <= proof.s < TwoTo256
  {
    map["rx" := HexFixed(proof.rx, 64), "ry" := HexFixed(proof.ry, 64), "s" := HexFixed(proof.s, 64)]
  }

  /** Reading a prover's payload gives the proof back. */
  lemma FromPayloadToPayload(proof: SchnorrProof)
    requires 0 <= proof.rx < TwoTo256 && 0 <= proof.ry < TwoTo256 && 0 <= proof.s < TwoTo256
    ensures FromPayload(ToPayload(proof)) == Some(proof)
  {
    Pow16Of64();
    var m := ToPayload(proof);
    assert m["rx"] == HexFixed(proof.rx, 64) && m["ry"] == HexFixed(proof.ry, 64) && m["s"] == HexFixed(proof.s, 64);
    ParseHexFixed(proof.rx, 64);
    ParseHexFixed(proof.ry, 64);
    ParseHexFixed(proof.s, 64);
    var r := FromPayload(m);
    assert r.Some?;
    assert r.value.rx == proof.rx && r.value.ry == proof.ry && r.value.s == proof.s;
  }

  /** Keys other than `rx`, `ry` and `s` are ignored. */
  lemma FromPayloadIgnoresOtherKeys(p1: map<string, string>, p2: map<string, string>)
    requires forall k :: k in {"rx", "ry", "s"} ==> (k in p1 <==> k in p2)
    requires forall k :: k in {"rx", "ry", "s"} && k in p1 ==> p1[k] == p2[k]
    ensures FromPayload(p1) == FromPayload(p2)
  {
    assert "rx" in {"rx", "ry", "s"} && "ry" in {"rx", "ry", "s"} && "s" in {"rx", "ry", "s"};
  }

  /** The bytes hashed into the challenge: `rx` and `ry` as 32-byte big-endian numbers, the
      commitment bytes, the document identifier and the context in UTF-8; `None` where
      `int.to_bytes` raises OverflowError. */
  function ChallengeMaterial(proof: SchnorrProof, commitment: seq<Byte>, documentId: string, context: string): (r: Option<seq<Byte>>)
    ensures r.Some? <==> 0 <= proof.rx < TwoTo256 && 0 <= proof.ry < TwoTo256
    ensures r.Some? ==>
      && |r.value| >= 64
      && BigEndian(r.value[..32]) == proof.rx
      && BigEndian(r.value[32..64]) == proof.ry
      && r.value[64..] == commitment + Utf8.Encode(documentId) + Utf8.Encode(context)
  {
    Pow256Of32();
    match (ToBytes(proof.rx, 32), ToBytes(proof.ry, 32))
    case (Some(rxBytes), Some(ryBytes)) =>
      var m := rxBytes + ryBytes + commitment + Utf8.Encode(documentId) + Utf8.Encode(context);
      assert m[..32] == rxBytes && m[32..64] == ryBytes;
      Some(m)
    case _ => None
  }

  /** `SchnorrProof.challenge`: the SHA-256 of the material, big-endian, modulo `N`; `None`
      where `bytes.fromhex` raises ValueError or `int.to_bytes` raises OverflowError. */
  function Challenge(h: Sha256, proof: SchnorrProof, commitmentHex: string, documentId: string, context: string): (r: Option<nat>)
    ensures r.Some? <==>
      FromHex(commitmentHex).Some? && 0 <= proof.rx < TwoTo256 && 0 <= proof.ry < TwoTo256
    ensures r.Some? ==> r.value < N
  {
    match FromHex(commitmentHex)
    case None => None
    case Some(commitment) =>
      match ChallengeMaterial(proof, commitment, documentId, context)
      case None => None
      case Some(m) => Some(BigEndian(h(m)) % N)
  }

  /** The challenge material sees the identifier and the context only through their
      concatenation. */
  lemma MaterialSeesConcatenation(proof: SchnorrProof, commitment: seq<Byte>,
                                  id1: string, ctx1: string, id2: string, ctx2: string)
    requires id1 + ctx1 == id2 + ctx2
    ensures ChallengeMaterial(proof, commitment, id1, ctx1) == ChallengeMaterial(proof, commitment, id2, ctx2)
  {
    Utf8.EncodeAppend(id1, ctx1);
    Utf8.EncodeAppend(id2, ctx2);
    match (ToBytes(proof.rx, 32), ToBytes(proof.ry, 32))
    case (Some(a), Some(b)) =>
      var x := a + b + commitment;
      AppendAssociative(x, Utf8.Encode(id1), Utf8.Encode(ctx1));
      AppendAssociative(x, Utf8.Encode(id2), Utf8.Encode(ctx2));
    case _ =>
  }

  lemma AppendAssociative(x: seq<Byte>, a: seq<Byte>, b: seq<Byte>)
    ensures x + a + b == x + (a + b)
  {
  }

  /** The challenge sees the identifier and the context only through their concatenation. */
  lemma ChallengeSeesConcatenation(h: Sha256, proof: SchnorrProof, commitmentHex: string,
                                   id1: string, ctx1: string, id2: string, ctx2: string)
    requires id1 + ctx1 == id2 + ctx2
    ensures Challenge(h, proof, commitmentHex, id1, ctx1) == Challenge(h, proof, commitmentHex, id2, ctx2)
  {
    match FromHex(commitmentHex)
    case None =>
    case Some(c) =>
      MaterialSeesConcatenation(proof, c, id1, ctx1, id2, ctx2);
  }

  /** `SchnorrProof.to_point`: `None` where the point constructor's on-curve assertion fails. */
  function ToPoint(curve: Curve, proof: SchnorrProof): Option<Point>
  {
    curve.affine(proof.rx, proof.ry)
  }

  /** The outcome of `verify_schnorr_proof`: `True`, `False`, or an exception escaping it. */
  datatype Verdict = Accepted | Rejected | Raised

  /** The public point of a commitment, `VerifyingKey.from_string(bytes.fromhex(c))`; `None`
      where either call raises. */
  function ParseCommitment(curve: Curve, commitmentHex: string): Option<Point>
  {
    match FromHex(commitmentHex)
    case None => None
    case Some(commitment) => curve.fromString(commitment)
  }

  /** The verification equation on logarithms: `s == r + c * e` modulo `N`. */
  predicate Responds(s: int, r: int, c: int, e: nat)
  {
    s == (r + Times(c, e)) % N
  }

  /** The extraction relation of two responses: `s1 - s2 == c * e1 - c * e2` modulo `N`. */
  predicate Extracts(s1: int, s2: int, c: int, e1: nat, e2: nat)
  {
    (s1 - s2) % N == (Times(c, e1) - Times(c, e2)) % N
  }

  /** The check of a parsed proof against the commitment point `C`: the challenge `e`, the
      point `R`, and the equation `G * s == R + C * e`. */
  function CheckProof(curve: Curve, h: Sha256, publicPoint: Point, commitmentHex: string,
                      documentId: string, proof: SchnorrProof, context: string): Verdict
  {
    match Challenge(h, proof, commitmentHex, documentId, context)
    case None => Raised
    case Some(e) =>
      match ToPoint(curve, proof)
      case None => Raised
      case Some(proofPoint) =>
        if proofPoint == Infinity then Rejected
        else if Mul(G, EnsureScalar(proof.s)) == Add(proofPoint, Mul(publicPoint, e)) then Accepted
        else Rejected
  }

  /** `verify_schnorr_proof(commitment_hex, document_id, proof_payload, context)`. */
  function VerifySchnorrProof(curve: Curve, h: Sha256, commitmentHex: string, documentId: string,
                              payload: map<string, string>, context: string): Verdict
  {
    match ParseCommitment(curve, commitmentHex)
    case None => Rejected
    case Some(publicPoint) =>
      match FromPayload(payload)
      case None => Rejected
      case Some(proof) => CheckProof(curve, h, publicPoint, commitmentHex, documentId, proof, context)
  }

  /** A commitment that does not parse, or a payload without three hex numbers, is refused. */
  lemma VerifyRejectsMalformed(curve: Curve, h: Sha256, commitmentHex: string, documentId: string,
                               payload: map<string, string>, context: string)
    requires ParseCommitment(curve, commitmentHex).None? || FromPayload(payload).None?
    ensures VerifySchnorrProof(curve, h, commitmentHex, documentId, payload, context) == Rejected
  {
  }

  /** An exception escapes exactly when the inputs parse but `rx` or `ry` does not fit in
      32 bytes or `(rx, ry)` is not on the curve. */
  lemma VerifyRaisesIff(curve: Curve, h: Sha256, commitmentHex: string, documentId: string,
                        payload: map<string, string>, context: string)
    ensures VerifySchnorrProof(curve, h, commitmentHex, documentId, payload, context) == Raised <==>
      && ParseCommitment(curve, commitmentHex).Some?
      && FromPayload(payload).Some?
      && var proof := FromPayload(payload).value;
         || !(0 <= proof.rx < TwoTo256 && 0 <= proof.ry < TwoTo256)
         || ToPoint(curve, proof).None?
  {
  }

  /** Once everything parses, the proof is accepted exactly when the verification equation
      `G * s == R + C * e` holds, that is when `s` (made a scalar) is `r + c * e` modulo `N`
      for the logarithms `r` of `R` and `c` of the commitment point `C`. */
  lemma CheckEquation(curve: Curve, h: Sha256, publicPoint: Point, commitmentHex: string, documentId: string,
                      proof: SchnorrProof, context: string, e: nat, proofPoint: Point)
    requires Challenge(h, proof, commitmentHex, documentId, context) == Some(e)
    requires ToPoint(curve, proof) == Some(proofPoint)
    ensures CheckProof(curve, h, publicPoint, commitmentHex, documentId, proof, context) != Raised
    ensures CheckProof(curve, h, publicPoint, commitmentHex, documentId, proof, context) == Accepted <==>
      proofPoint != Infinity && Responds(EnsureScalar(proof.s), proofPoint.dlog, publicPoint.dlog, e)
  {
    EquationOnLogs(EnsureScalar(proof.s), proofPoint, publicPoint, e);
  }

  lemma EquationOnLogs(s: Scalar, proofPoint: Point, publicPoint: Point, e: nat)
    ensures Mul(G, s) == Add(proofPoint, Mul(publicPoint, e)) <==> Responds(s, proofPoint.dlog, publicPoint.dlog, e)
  {
    MulGeneratorScalar(s);
    AddMulLog(proofPoint, publicPoint, e);
  }

  /** The verification equation, stated for `verify_schnorr_proof` itself. */
  lemma VerifyEquation(curve: Curve, h: Sha256, commitmentHex: string, documentId: string,
                       payload: map<string, string>, context: string,
                       publicPoint: Point, proof: SchnorrProof, e: nat, proofPoint: Point)
    requires ParseCommitment(curve, commitmentHex) == Some(publicPoint)
    requires FromPayload(payload) == Some(proof)
    requires Challenge(h, proof, commitmentHex, documentId, context) == Some(e)
    requires ToPoint(curve, proof) == Some(proofPoint)
    ensures VerifySchnorrProof(curve, h, commitmentHex, documentId, payload, context) != Raised
    ensures VerifySchnorrProof(curve, h, commitmentHex, documentId, payload, context) == Accepted <==>
      proofPoint != Infinity && Responds(EnsureScalar(proof.s), proofPoint.dlog, publicPoint.dlog, e)
  {
    CheckEquation(curve, h, publicPoint, commitmentHex, documentId, proof, context, e, proofPoint);
  }

  /** Completeness: a prover who knows the scalar `x` behind the commitment and picks a nonce
      `k` with `R = G * k` and answers `s = k + e * x` is accepted, unless `s` is 0 modulo `N`. */
  lemma HonestProofAccepted(curve: Curve, h: Sha256, x: nat, k: nat, commitmentHex: string,
                            documentId: string, context: string, proof: SchnorrProof, e: nat)
    requires ValidCurve(curve)
    requires x % N != 0
    requires FromHex(commitmentHex) == Some(curve.compress(Mul(G, x)))
    requires 0 <= proof.rx < TwoTo256 && 0 <= proof.ry < TwoTo256 && 0 <= proof.s < N
    requires curve.affine(proof.rx, proof.ry) == Some(Mul(G, k))
    requires Challenge(h, proof, commitmentHex, documentId, context) == Some(e)
    requires proof.s % N == (k + Times(x, e)) % N && proof.s % N != 0
    ensures VerifySchnorrProof(curve, h, commitmentHex, documentId, ToPayload(proof), context) == Accepted
  {
    HonestPoints(curve, x, k, proof.rx, proof.ry);
    assert ParseCommitment(curve, commitmentHex) == Some(Mul(G, x));
    FromPayloadToPayload(proof);
    HonestCheck(curve, h, x, k, commitmentHex, documentId, context, proof, e);
  }

  lemma HonestCheck(curve: Curve, h: Sha256, x: nat, k: nat, commitmentHex: string,
                    documentId: string, context: string, proof: SchnorrProof, e: nat)
    requires Mul(G, k) != Infinity
    requires ToPoint(curve, proof) == Some(Mul(G, k))
    requires Challenge(h, proof, commitmentHex, documentId, context) == Some(e)
    requires proof.s % N == (k + Times(x, e)) % N && proof.s % N != 0
    ensures CheckProof(curve, h, Mul(G, x), commitmentHex, documentId, proof, context) == Accepted
  {
    HonestResponse(k, x, e, proof.s);
    CheckEquation(curve, h, Mul(G, x), commitmentHex, documentId, proof, context, e, Mul(G, k));
  }

  lemma HonestPoints(curve: Curve, x: nat, k: nat, rx: int, ry: int)
    requires ValidCurve(curve)
    requires x % N != 0
    requires curve.affine(rx, ry) == Some(Mul(G, k))
    ensures curve.fromString(curve.compress(Mul(G, x))) == Some(Mul(G, x))
    ensures Mul(G, k) != Infinity
  {
    MulGeneratorInfinity(x);
  }

  lemma HonestResponse(k: nat, x: nat, e: nat, s: int)
    requires s % N == (k + Times(x, e)) % N && s % N != 0
    ensures Responds(EnsureScalar(s), Mul(G, k).dlog, Mul(G, x).dlog, e)
  {
    MulGenerator(k);
    MulGenerator(x);
    ResponseOnLogs(k, x, e, s, Mul(G, k).dlog, Mul(G, x).dlog);
  }

  lemma ResponseOnLogs(k: nat, x: nat, e: nat, s: int, r: int, c: int)
    requires r == k % N && c == x % N
    requires s % N == (k + Times(x, e)) % N && s % N != 0
    ensures EnsureScalar(s) == (r + Times(c, e)) % N
  {
    LinearMod(k, x, e);
  }

  /** Special soundness: two accepted proofs with the same point `R` and challenges `e1`, `e2`
      determine the logarithm `c` of the commitment point through
      `s1 - s2 == c * (e1 - e2)` modulo `N`. */
  lemma SpecialSoundness(curve: Curve, h: Sha256, commitmentHex: string, publicPoint: Point, proofPoint: Point,
                         id1: string, ctx1: string, proof1: SchnorrProof, e1: nat,
                         id2: string, ctx2: string, proof2: SchnorrProof, e2: nat)
    requires ToPoint(curve, proof1) == Some(proofPoint) && ToPoint(curve, proof2) == Some(proofPoint)
    requires Challenge(h, proof1, commitmentHex, id1, ctx1) == Some(e1)
    requires Challenge(h, proof2, commitmentHex, id2, ctx2) == Some(e2)
    requires CheckProof(curve, h, publicPoint, commitmentHex, id1, proof1, ctx1) == Accepted
    requires CheckProof(curve, h, publicPoint, commitmentHex, id2, proof2, ctx2) == Accepted
    ensures Extracts(EnsureScalar(proof1.s), EnsureScalar(proof2.s), publicPoint.dlog, e1, e2)
  {
    AcceptedEquation(curve, h, publicPoint, commitmentHex, id1, proof1, ctx1, e1, proofPoint);
    AcceptedEquation(curve, h, publicPoint, commitmentHex, id2, proof2, ctx2, e2, proofPoint);
    ResponseDifference(proofPoint.dlog, publicPoint.dlog, e1, e2, EnsureScalar(proof1.s), EnsureScalar(proof2.s));
  }

  lemma AcceptedEquation(curve: Curve, h: Sha256, publicPoint: Point, commitmentHex: string, documentId: string,
                         proof: SchnorrProof, context: string, e: nat, proofPoint: Point)
    requires Challenge(h, proof, commitmentHex, documentId, context) == Some(e)
    requires ToPoint(curve, proof) == Some(proofPoint)
    requires CheckProof(curve, h, publicPoint, commitmentHex, documentId, proof, context) == Accepted
    ensures Responds(EnsureScalar(proof.s), proofPoint.dlog, publicPoint.dlog, e)
  {
    CheckEquation(curve, h, publicPoint, commitmentHex, documentId, proof, context, e, proofPoint);
  }

  lemma ResponseDifference(r: int, c: int, e1: nat, e2: nat, s1: int, s2: int)
    requires Responds(s1, r, c, e1) && Responds(s2, r, c, e2)
    ensures Extracts(s1, s2, c, e1, e2)
  {
    ModSub(r + Times(c, e1), r + Times(c, e2), N);
  }

  /** A proof for one identifier and context verifies in the same way for any other pair with
      the same concatenation: `("ab", "")` and `("a", "b")` cannot be told apart. */
  lemma VerifySeesConcatenation(curve: Curve, h: Sha256, commitmentHex: string, payload: map<string, string>,
                                id1: string, ctx1: string, id2: string, ctx2: string)
    requires id1 + ctx1 == id2 + ctx2
    ensures VerifySchnorrProof(curve, h, commitmentHex, id1, payload, ctx1) ==
            VerifySchnorrProof(curve, h, commitmentHex, id2, payload, ctx2)
  {
    if FromPayload(payload).Some? {
      ChallengeSeesConcatenation(h, FromPayload(payload).value, commitmentHex, id1, ctx1, id2, ctx2);
    }
  }
}
