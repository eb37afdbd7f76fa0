/** backend/main.py: looking a document up by its identifier, and the verify-or-heal step that
    assembles a document's verification payload (checksum, signature, QR code) and writes back
    whatever it had to recompute. */
module Backend {
  import opened Wrappers
  import opened Bytes
  import opened Chars
  import opened Hex
  import opened Dicts
  import opened Crypto
  import Utf8
  import Signature
  import QrPayload
  import Base64

  const NormalizationStrategy: string := "unicode_nfkc_lowercase_whitespace_collapse"

  /** A stored document record, as `json.load` gives it. */
  type Document = map<string, Value>

  // ---------------------------------------------------------------------------------------
  // Looking a document up

  /** The characters `[a-zA-Z0-9-]` that the identifier cleaner keeps. */
  predicate IsIdChar(c: char)
  {
    IsAsciiLetterOrDigit(c) || c == '-'
  }

  /** `re.sub(r"[^a-zA-Z0-9-]", "", s).upper()`: the kept characters, upper-cased (on ASCII
      text, `str.upper()` changes only `a`-`z`). */
  function CleanId(s: string): (t: string)
    ensures |t| <= |s|
    ensures forall i :: 0 <= i < |t| ==> IsIdChar(t[i]) && !('a' <= t[i] <= 'z')
  {
    if s == [] then []
    else (if IsIdChar(s[0]) then [AsciiUpper(s[0])] else []) + CleanId(s[1..])
  }

  /** One character is kept, upper-cased, exactly when it is in `[a-zA-Z0-9-]`; with
      `CleanIdAppend` this determines the cleaning of every string. */
  lemma CleanIdChar(c: char)
    ensures CleanId([c]) == (if IsIdChar(c) then [AsciiUpper(c)] else [])
  {
    assert [c][1..] == [];
  }

  /** Cleaning works character by character: it distributes over concatenation. */
  lemma {:induction false} CleanIdAppend(a: string, b: string)
    ensures CleanId(a + b) == CleanId(a) + CleanId(b)
  {
    if a == [] {
      assert a + b == b;
    } else {
      assert (a + b)[1..] == a[1..] + b;
      CleanIdAppend(a[1..], b);
    }
  }

  /** An identifier that is already clean (letters upper-case, digits, `-`) is its own cleaning,
      so cleaning twice is cleaning once. */
  lemma {:induction false} CleanIdFixed(s: string)
    requires forall i :: 0 <= i < |s| ==> IsIdChar(s[i]) && !('a' <= s[i] <= 'z')
    ensures CleanId(s) == s
  {
    if s != [] {
      CleanIdFixed(s[1..]);
    }
  }

  lemma CleanIdIdempotent(s: string)
    ensures CleanId(CleanId(s)) == CleanId(s)
  {
    CleanIdFixed(CleanId(s));
  }

  /** How one stored document compares with the identifier asked for. */
  datatype Match = Hit | Miss | Crash

  /** `doc_id == document_id or doc_id.upper() == clean_id`, with `doc_id` the stored `id` or
      `""` when there is none; a stored `null` id has no `upper()` and raises AttributeError. */
  function MatchDocument(u: UnicodeTables, doc: Document, documentId: string, cleanId: string): Match
  {
    var docId := if "id" in doc then doc["id"] else Str("");
    match docId
    case Null => Crash
    case Str(s) => if s == documentId || u.upper(s) == cleanId then Hit else Miss
  }

  /** `find_document`: the first stored document that matches, none, or AttributeError. */
  datatype Lookup = Found(index: nat) | Missing | Crashed

  /** The store of document records (the JSON metadata file, read in full by every lookup and
      written back in full by every update). */
  class DocumentStore {
    var documents: seq<Document>

    constructor(documents: seq<Document>)
      ensures this.documents == documents
    {
      this.documents := documents;
    }

    /** `find_document(document_id)`: the scan stops at the first document that matches, or at
        the first whose `null` id raises before any match. */
    method FindDocument(u: UnicodeTables, documentId: string) returns (r: Lookup)
      ensures var cleanId := CleanId(documentId);
        && (r.Found? ==>
              && r.index < |documents| && MatchDocument(u, documents[r.index], documentId, cleanId) == Hit
              && forall j :: 0 <= j < r.index ==> MatchDocument(u, documents[j], documentId, cleanId) == Miss)
        && (r.Crashed? ==>
              exists i :: 0 <= i < |documents| && MatchDocument(u, documents[i], documentId, cleanId) == Crash
                && forall j :: 0 <= j < i ==> MatchDocument(u, documents[j], documentId, cleanId) == Miss)
        && (r.Missing? ==> forall j :: 0 <= j < |documents| ==> MatchDocument(u, documents[j], documentId, cleanId) == Miss)
    {
      var cleanId := CleanId(documentId);
      var i := 0;
      while i < |documents|
        invariant 0 <= i <= |documents|
        invariant forall j :: 0 <= j < i ==> MatchDocument(u, documents[j], documentId, cleanId) == Miss
      {
        var m := MatchDocument(u, documents[i], documentId, cleanId);
        if m == Hit {
          return Found(i);
        } else if m == Crash {
          return Crashed;
        }
        i := i + 1;
      }
      return Missing;
    }

    /** The write-back loop of `build_verification_payload`: the first stored record whose `id`
        equals `id` gets the updated fields; no record changes when none has that `id`. */
    method WriteBack(id: Value, upd: map<string, Value>) returns (found: bool)
      modifies this
      ensures found <==> FirstWithId(old(documents), id).Some?
      ensures found ==> documents == old(documents)[FirstWithId(old(documents), id).value :=
                                                      old(documents)[FirstWithId(old(documents), id).value] + upd]
      ensures !found ==> documents == old(documents)
    {
      var i := 0;
      while i < |documents|
        invariant 0 <= i <= |documents|
        invariant documents == old(documents)
        invariant forall j :: 0 <= j < i ==> Get(documents[j], "id") != id
      {
        if Get(documents[i], "id") == id {
          documents := documents[i := documents[i] + upd];
          return true;
        }
        i := i + 1;
      }
      return false;
    }

    /** `build_verification_payload(document)`: settle the record's fields (or raise); when any
        of the fields it writes back differs from the record's, update the first stored record
        with the same `id` and the caller's record alike; then validate the payload. The store
        is written before the validation, so a payload the model rejects still persists. */
    method BuildVerificationPayload(h: Sha256, u: UnicodeTables, env: Signature.Env, render: string -> seq<Byte>,
                                    clock: string, document: Document)
      returns (r: Result<VerificationPayload, BuildError>, doc: Document)
      modifies this
      ensures var healed := Heal(h, u, env, render, clock, document);
        healed.Err? ==> r == Err(healed.error) && doc == document && documents == old(documents)
      ensures var healed := Heal(h, u, env, render, clock, document);
        healed.Ok? ==>
          var p := healed.value;
          var upd := UpdatedFields(p);
          var hit := if PersistenceNeeded(document, upd) then FirstWithId(old(documents), p.basis.id) else None;
          && r == ToPayload(p)
          && documents == (if hit.Some? then old(documents)[hit.value := old(documents)[hit.value] + upd] else old(documents))
          && doc == (if hit.Some? then document + upd else document)
    {
      var healed := Heal(h, u, env, render, clock, document);
      if healed.Err? {
        return Err(healed.error), document;
      }
      var p := healed.value;
      var upd := UpdatedFields(p);
      ghost var hit := if PersistenceNeeded(document, upd) then FirstWithId(documents, p.basis.id) else None;
      var found := false;
      if PersistenceNeeded(document, upd) {
        found := WriteBack(p.basis.id, upd);
      }
      assert found <==> hit.Some?;
      doc := if found then document + upd else document;
      r := ToPayload(p);
      assert hit.Some? ==> doc == document + upd && documents == old(documents)[hit.value := old(documents)[hit.value] + upd];
      assert hit.None? ==> doc == document && documents == old(documents);
    }
  }

  // ---------------------------------------------------------------------------------------
  // The checksum

  /** `str(v)` inside an f-string: the text itself, or `None`. */
  function Format(v: Value): string
  {
    match v
    case Str(s) => s
    case Null => "None"
  }

  function UpperText(s: string): (t: string)
    ensures |t| == |s|
  {
    seq(|s|, i requires 0 <= i < |s| => AsciiUpper(s[i]))
  }

  /** `hashlib.sha256(f"{id}:{commitment}:{file_hash}".encode("utf-8")).hexdigest()[:12].upper()`. */
  function Checksum(h: Sha256, id: Value, commitment: string, fileHash: Value): string
  {
    var digest := h(Utf8.Encode(Format(id) + ":" + commitment + ":" + Format(fileHash)));
    UpperText(HexDigest(digest)[..12])
  }

  lemma {:induction false} HexDigestPrefix(bs: seq<Byte>, n: nat)
    requires n <= |bs|
    ensures HexDigest(bs)[..2 * n] == HexDigest(bs[..n])
  {
    if n > 0 {
      HexDigestPrefix(bs[1..], n - 1);
      assert bs[..n] == [bs[0]] + bs[1..][..n - 1];
      assert HexDigest(bs[..n]) == ByteHex(bs[0]) + HexDigest(bs[1..][..n - 1]);
    }
  }

  /** Upper-casing hex text does not change the bytes it reads as. */
  lemma {:induction false} FromUpperHexDigest(bs: seq<Byte>)
    ensures FromHex(UpperText(HexDigest(bs))) == Some(bs)
  {
    if bs != [] {
      var b := bs[0];
      var hd := HexDigest(bs);
      var t := UpperText(hd);
      FromUpperHexDigest(bs[1..]);
      assert hd[2..] == HexDigest(bs[1..]);
      UpperTextDrop(hd, 2);
      UpperDigit(hd[0]);
      UpperDigit(hd[1]);
      FromHexPair(t, bs[1..]);
      assert hd[0] == LowerDigit(b / 16) && hd[1] == LowerDigit(b % 16);
      assert bs == [b] + bs[1..];
    }
  }

  lemma UpperTextDrop(s: string, k: nat)
    requires k <= |s|
    ensures UpperText(s)[k..] == UpperText(s[k..])
  {
  }

  /** Upper-casing a hex digit keeps its value. */
  lemma UpperDigit(c: char)
    requires IsLowerHexDigit(c)
    ensures IsHexDigit(AsciiUpper(c)) && DigitValue(AsciiUpper(c)) == DigitValue(c)
  {
  }

  /** The derived checksum is twelve characters from `[0-9A-F]`, and it is the first six bytes of
      the SHA-256 digest of the seed, in upper-case hex. */
  lemma ChecksumDigest(h: Sha256, id: Value, commitment: string, fileHash: Value)
    ensures var c := Checksum(h, id, commitment, fileHash);
      && |c| == 12
      && (forall i :: 0 <= i < 12 ==> IsUpperHexDigit(c[i]))
      && FromHex(c) == Some(h(Utf8.Encode(Format(id) + ":" + commitment + ":" + Format(fileHash)))[..6])
  {
    var digest := h(Utf8.Encode(Format(id) + ":" + commitment + ":" + Format(fileHash)));
    HexDigestPrefix(digest, 6);
    FromUpperHexDigest(digest[..6]);
    var hd := HexDigest(digest);
    forall i | 0 <= i < 12 ensures IsUpperHexDigit(Checksum(h, id, commitment, fileHash)[i]) {
      assert IsLowerHexDigit(hd[i]);
    }
  }

  // ---------------------------------------------------------------------------------------
  // build_verification_payload

  /** `isoformat_utc(datetime.utcnow())`, with the clock's reading (ISO 8601 text to the second)
      as a parameter. */
  function IsoformatUtc(clock: string): (t: string)
    ensures |t| > 0 && t[|t| - 1] == 'Z'
  {
    clock + "Z"
  }

  /** What the step can raise: ValueError (no commitment), KeyError (no `id`), TypeError (from
      `hmac.compare_digest`), and pydantic's ValidationError (a `null` where the payload model
      requires text). */
  datatype BuildError = ValueError | KeyError | TypeError | ValidationError

  /** The six fields the step signs: `id`, `file_hash`, `issued_at`, `normalization_strategy`,
      `zk_commitment` and `checksum`. */
  datatype Basis = Basis(
    id: Value,
    fileHash: Value,
    issuedAt: string,
    normalizationStrategy: Value,
    zkCommitment: string,
    checksum: string)

  /** The values the step settles on before it writes anything back. */
  datatype Healed = Healed(basis: Basis, signature: string, qrPayload: string, qrPngBase64: string)

  /** `DocumentVerificationPayload` (backend/models.py): every field text. */
  datatype VerificationPayload = VerificationPayload(
    id: string,
    fileHash: string,
    issuedAt: string,
    normalizationStrategy: string,
    zkCommitment: string,
    checksum: string,
    signature: string,
    qrPayload: string,
    qrPngBase64: string)

  /** The signed fields as a dictionary, in the order the source builds it. */
  function Signable(b: Basis): (d: Dict)
    ensures DistinctKeys(d) && forall x :: x in d ==> x.0 != "signature"
  {
    [("id", b.id), ("file_hash", b.fileHash), ("issued_at", Str(b.issuedAt)),
     ("normalization_strategy", b.normalizationStrategy), ("zk_commitment", Str(b.zkCommitment)),
     ("checksum", Str(b.checksum))]
  }

  /** `{**signable, "signature": signature}`, what the QR code carries. */
  function QrContent(signable: Dict, signature: string): Dict
  {
    signable + [("signature", Str(signature))]
  }

  /** The signature step: a stored signature is kept when it verifies against `signable`, and
      replaced by a fresh one when it is missing, empty or does not verify. */
  function ChooseSignature(h: Sha256, u: UnicodeTables, env: Signature.Env, signable: Dict, stored: Value): Result<string, BuildError>
  {
    if !Truthy(stored) then Ok(Signature.SignPayload(h, u, env, signable))
    else
      match Signature.VerifySignature(h, u, env, signable, stored.s)
      case Err(_) => Err(TypeError)
      case Ok(valid) => Ok(if valid then stored.s else Signature.SignPayload(h, u, env, signable))
  }

  /** The QR step: the stored pair is kept when both fields are present and non-empty, and
      regenerated from `signable` and the signature otherwise. */
  function ChooseQr(render: string -> seq<Byte>, signable: Dict, signature: string, storedPayload: Value, storedPng: Value): (r: (string, string))
  {
    if Truthy(storedPayload) && Truthy(storedPng) then (storedPng.s, storedPayload.s)
    else QrPayload.GenerateQr(render, QrContent(signable, signature))
  }

  /** The signed fields: the stored timestamp or the clock's, the stored strategy (even a `null`
      one) or the current constant, and the stored checksum or a derived one. */
  function BasisOf(h: Sha256, clock: string, doc: Document): Basis
    requires Truthy(Get(doc, "zk_commitment")) && "id" in doc
  {
    var stamp := Get(doc, "timestamp");
    var issuedAt := if Truthy(stamp) then stamp.s else IsoformatUtc(clock);
    var fileHash := Get(doc, "file_hash");
    var strategy := if "normalization_strategy" in doc then doc["normalization_strategy"] else Str(NormalizationStrategy);
    var zk := doc["zk_commitment"].s;
    var storedChecksum := Get(doc, "checksum");
    var checksum := if Truthy(storedChecksum) then storedChecksum.s else Checksum(h, doc["id"], zk, fileHash);
    Basis(doc["id"], fileHash, issuedAt, strategy, zk, checksum)
  }

  /** The signature and QR steps over settled signed fields. */
  function Settle(h: Sha256, u: UnicodeTables, env: Signature.Env, render: string -> seq<Byte>,
                  b: Basis, doc: Document): Result<Healed, BuildError>
  {
    match ChooseSignature(h, u, env, Signable(b), Get(doc, "signature"))
    case Err(e) => Err(e)
    case Ok(signature) =>
      var qr := ChooseQr(render, Signable(b), signature, Get(doc, "qr_payload"), Get(doc, "qr_png_base64"));
      Ok(Healed(b, signature, qr.1, qr.0))
  }

  /** Everything `build_verification_payload` decides before it writes: the fields it keeps
      and the ones it recomputes, or the exception it raises first. */
  function Heal(h: Sha256, u: UnicodeTables, env: Signature.Env, render: string -> seq<Byte>,
                clock: string, doc: Document): Result<Healed, BuildError>
  {
    if !Truthy(Get(doc, "zk_commitment")) then Err(ValueError)
    else if "id" !in doc then Err(KeyError)
    else Settle(h, u, env, render, BasisOf(h, clock, doc), doc)
  }

  /** `updated_fields`. */
  function UpdatedFields(p: Healed): map<string, Value>
  {
    map["normalization_strategy" := p.basis.normalizationStrategy, "timestamp" := Str(p.basis.issuedAt),
        "checksum" := Str(p.basis.checksum), "signature" := Str(p.signature),
        "qr_payload" := Str(p.qrPayload), "qr_png_base64" := Str(p.qrPngBase64)]
  }

  /** `any(document.get(key) != value for key, value in updated_fields.items())`. */
  predicate PersistenceNeeded(doc: Document, updated: map<string, Value>)
  {
    exists k :: k in updated && Get(doc, k) != updated[k]
  }

  /** The payload model's validation: a `null` id, file hash or strategy is rejected. */
  function ToPayload(p: Healed): (r: Result<VerificationPayload, BuildError>)
    ensures r.Err? <==> p.basis.id.Null? || p.basis.fileHash.Null? || p.basis.normalizationStrategy.Null?
    ensures r.Ok? ==>
      && Str(r.value.id) == p.basis.id && Str(r.value.fileHash) == p.basis.fileHash
      && r.value.issuedAt == p.basis.issuedAt
      && Str(r.value.normalizationStrategy) == p.basis.normalizationStrategy
      && r.value.zkCommitment == p.basis.zkCommitment && r.value.checksum == p.basis.checksum
      && r.value.signature == p.signature
      && r.value.qrPayload == p.qrPayload && r.value.qrPngBase64 == p.qrPngBase64
  {
    var b := p.basis;
    if b.id.Null? || b.fileHash.Null? || b.normalizationStrategy.Null? then Err(ValidationError)
    else
      Ok(VerificationPayload(b.id.s, b.fileHash.s, b.issuedAt, b.normalizationStrategy.s, b.zkCommitment,
                             b.checksum, p.signature, p.qrPayload, p.qrPngBase64))
  }

  /** The first stored document whose `id` equals `id` (a missing `id` reads as `null`). */
  function FirstWithId(docs: seq<Document>, id: Value): (r: Option<nat>)
    ensures r.Some? ==>
      && r.value < |docs| && Get(docs[r.value], "id") == id
      && forall j :: 0 <= j < r.value ==> Get(docs[j], "id") != id
    ensures r.None? ==> forall j :: 0 <= j < |docs| ==> Get(docs[j], "id") != id
  {
    if docs == [] then None
    else if Get(docs[0], "id") == id then Some(0)
    else
      match FirstWithId(docs[1..], id)
      case None => None
      case Some(j) => Some(j + 1)
  }

  /** The step's own errors, each exactly when the source raises it. */
  lemma HealErrors(h: Sha256, u: UnicodeTables, env: Signature.Env, render: string -> seq<Byte>,
                   clock: string, doc: Document)
    ensures Heal(h, u, env, render, clock, doc) == Err(ValueError) <==> !Truthy(Get(doc, "zk_commitment"))
    ensures Heal(h, u, env, render, clock, doc) == Err(KeyError) <==> Truthy(Get(doc, "zk_commitment")) && "id" !in doc
    ensures Heal(h, u, env, render, clock, doc) == Err(TypeError) <==>
      && Truthy(Get(doc, "zk_commitment")) && "id" in doc && Truthy(Get(doc, "signature"))
      && !IsAsciiString(Get(doc, "signature").s)
  {
    if Truthy(Get(doc, "zk_commitment")) && "id" in doc {
      SettleErrors(h, u, env, render, BasisOf(h, clock, doc), doc);
    }
  }

  /** The signature and QR steps fail only with TypeError, and exactly when the stored signature
      is non-empty text with a non-ASCII character. */
  lemma SettleErrors(h: Sha256, u: UnicodeTables, env: Signature.Env, render: string -> seq<Byte>, b: Basis, doc: Document)
    ensures Settle(h, u, env, render, b, doc).Err? ==> Settle(h, u, env, render, b, doc).error == TypeError
    ensures Settle(h, u, env, render, b, doc).Err? <==> Truthy(Get(doc, "signature")) && !IsAsciiString(Get(doc, "signature").s)
  {
    ChooseSignatureErrors(h, u, env, Signable(b), Get(doc, "signature"));
  }

  lemma ChooseSignatureErrors(h: Sha256, u: UnicodeTables, env: Signature.Env, signable: Dict, stored: Value)
    ensures ChooseSignature(h, u, env, signable, stored).Err? ==> ChooseSignature(h, u, env, signable, stored).error == TypeError
    ensures ChooseSignature(h, u, env, signable, stored).Err? <==> Truthy(stored) && !IsAsciiString(stored.s)
  {
  }

  /** A signature the step returns always verifies against the six signed fields; a stored
      signature is kept exactly when it verifies. */
  lemma ChooseSignatureVerifies(h: Sha256, u: UnicodeTables, env: Signature.Env, signable: Dict, stored: Value)
    requires ChooseSignature(h, u, env, signable, stored).Ok?
    ensures var sig := ChooseSignature(h, u, env, signable, stored).value;
      && Signature.VerifySignature(h, u, env, signable, sig) == Ok(true)
      && (Str(sig) == stored <==> Truthy(stored) && Signature.VerifySignature(h, u, env, signable, stored.s) == Ok(true))
  {
    Signature.SignThenVerify(h, u, env, signable);
    if Truthy(stored) {
      var v := Signature.VerifySignature(h, u, env, signable, stored.s);
      assert v.Ok?;
      if !v.value {
        assert Signature.SignPayload(h, u, env, signable) != stored.s;
      }
    }
  }

  /** The QR pair is kept when both stored fields are present, and otherwise regenerated; either
      way the payload text is the one returned beside the image. A regenerated payload decodes to
      the signed fields and the signature. */
  lemma ChooseQrSpec(render: string -> seq<Byte>, signable: Dict, signature: string, storedPayload: Value, storedPng: Value)
    requires DistinctKeys(signable) && forall x :: x in signable ==> x.0 != "signature"
    ensures DistinctKeys(QrContent(signable, signature))
    ensures var r := ChooseQr(render, signable, signature, storedPayload, storedPng);
      && (Truthy(storedPayload) && Truthy(storedPng) ==> Str(r.0) == storedPng && Str(r.1) == storedPayload)
      && (!(Truthy(storedPayload) && Truthy(storedPng)) ==>
            QrPayload.DecodePayload(r.1) == Ok(ToMap(QrContent(signable, signature))))
  {
    if !(Truthy(storedPayload) && Truthy(storedPng)) {
      QrPayload.GenerateQrPayload(render, QrContent(signable, signature));
    }
  }

  /** On success the signed fields are the record's own where it has them: its `id` and
      commitment, its file hash (even `null`), its timestamp when non-empty (the clock's reading
      otherwise, so never empty), its strategy when the key is present (the current one
      otherwise), and its checksum when non-empty (otherwise the derived one, twelve upper-case
      hex digits). */
  lemma HealBasis(h: Sha256, u: UnicodeTables, env: Signature.Env, render: string -> seq<Byte>,
                  clock: string, doc: Document)
    requires Heal(h, u, env, render, clock, doc).Ok?
    ensures var b := Heal(h, u, env, render, clock, doc).value.basis;
      && "id" in doc && b.id == doc["id"]
      && Truthy(Get(doc, "zk_commitment")) && Str(b.zkCommitment) == Get(doc, "zk_commitment")
      && b.fileHash == Get(doc, "file_hash")
      && |b.issuedAt| > 0
      && (Truthy(Get(doc, "timestamp")) ==> Str(b.issuedAt) == Get(doc, "timestamp"))
      && (!Truthy(Get(doc, "timestamp")) ==> b.issuedAt == IsoformatUtc(clock))
      && ("normalization_strategy" in doc ==> b.normalizationStrategy == doc["normalization_strategy"])
      && ("normalization_strategy" !in doc ==> b.normalizationStrategy == Str(NormalizationStrategy))
      && (Truthy(Get(doc, "checksum")) ==> Str(b.checksum) == Get(doc, "checksum"))
      && (!Truthy(Get(doc, "checksum")) ==>
            && b.checksum == Checksum(h, doc["id"], b.zkCommitment, b.fileHash)
            && |b.checksum| == 12 && forall i :: 0 <= i < 12 ==> IsUpperHexDigit(b.checksum[i]))
  {
    HealErrors(h, u, env, render, clock, doc);
    var b := BasisOf(h, clock, doc);
    SettleErrors(h, u, env, render, b, doc);
    ChecksumDigest(h, doc["id"], b.zkCommitment, b.fileHash);
  }

  /** On success the returned signature verifies against the six signed fields, and the stored
      one is returned exactly when it is non-empty and verifies. */
  lemma HealSignature(h: Sha256, u: UnicodeTables, env: Signature.Env, render: string -> seq<Byte>,
                      clock: string, doc: Document)
    requires Heal(h, u, env, render, clock, doc).Ok?
    ensures var p := Heal(h, u, env, render, clock, doc).value;
      && Signature.VerifySignature(h, u, env, Signable(p.basis), p.signature) == Ok(true)
      && (Str(p.signature) == Get(doc, "signature") <==>
            Truthy(Get(doc, "signature"))
            && Signature.VerifySignature(h, u, env, Signable(p.basis), Get(doc, "signature").s) == Ok(true))
  {
    HealErrors(h, u, env, render, clock, doc);
    ChooseSignatureVerifies(h, u, env, Signable(BasisOf(h, clock, doc)), Get(doc, "signature"));
  }

  /** On success the QR pair is the stored one when both fields are non-empty; otherwise the
      payload decodes to the signed fields plus the signature, and the image text is standard
      base64. */
  lemma HealQr(h: Sha256, u: UnicodeTables, env: Signature.Env, render: string -> seq<Byte>,
               clock: string, doc: Document)
    requires Heal(h, u, env, render, clock, doc).Ok?
    ensures var p := Heal(h, u, env, render, clock, doc).value;
      var kept := Truthy(Get(doc, "qr_payload")) && Truthy(Get(doc, "qr_png_base64"));
      && (kept ==> Str(p.qrPayload) == Get(doc, "qr_payload") && Str(p.qrPngBase64) == Get(doc, "qr_png_base64"))
      && (!kept ==>
            && QrPayload.DecodePayload(p.qrPayload) == Ok(ToMap(QrContent(Signable(p.basis), p.signature)))
            && forall i :: 0 <= i < |p.qrPngBase64| ==>
                 Base64.InAlphabet(Base64.Standard, p.qrPngBase64[i]) || p.qrPngBase64[i] == Base64.Pad)
  {
    HealErrors(h, u, env, render, clock, doc);
    var b := BasisOf(h, clock, doc);
    SettleErrors(h, u, env, render, b, doc);
    var sig := Heal(h, u, env, render, clock, doc).value.signature;
    ChooseQrSpec(render, Signable(b), sig, Get(doc, "qr_payload"), Get(doc, "qr_png_base64"));
  }

  /** Healing is idempotent: once the written-back fields are in the record, the step settles on
      the same values and finds nothing to write, whatever the clock says. */
  lemma HealIdempotent(h: Sha256, u: UnicodeTables, env: Signature.Env, render: string -> seq<Byte>,
                       clock: string, clock2: string, doc: Document)
    requires Heal(h, u, env, render, clock, doc).Ok?
    ensures var p := Heal(h, u, env, render, clock, doc).value;
      && Heal(h, u, env, render, clock2, doc + UpdatedFields(p)) == Ok(p)
      && !PersistenceNeeded(doc + UpdatedFields(p), UpdatedFields(p))
  {
    var p := Heal(h, u, env, render, clock, doc).value;
    var doc2 := doc + UpdatedFields(p);
    HealBasis(h, u, env, render, clock, doc);
    HealSignature(h, u, env, render, clock, doc);
    UpdatedGets(doc, p);
    BasisOfUpdated(h, clock, clock2, doc, p);
    SettleUpdated(h, u, env, render, doc, p);
    assert Heal(h, u, env, render, clock2, doc2) == Settle(h, u, env, render, p.basis, doc2);
    assert forall k :: k in UpdatedFields(p) ==> Get(doc2, k) == UpdatedFields(p)[k];
  }

  lemma BasisOfUpdated(h: Sha256, clock: string, clock2: string, doc: Document, p: Healed)
    requires Truthy(Get(doc, "zk_commitment")) && "id" in doc
    requires p.basis == BasisOf(h, clock, doc)
    requires p.basis.checksum != "" && p.basis.issuedAt != ""
    ensures BasisOf(h, clock2, doc + UpdatedFields(p)) == p.basis
  {
    UpdatedGets(doc, p);
  }

  /** What a record reads after the written-back fields are merged into it. */
  lemma UpdatedGets(doc: Document, p: Healed)
    ensures var d := doc + UpdatedFields(p);
      && Get(d, "signature") == Str(p.signature)
      && Get(d, "qr_payload") == Str(p.qrPayload)
      && Get(d, "qr_png_base64") == Str(p.qrPngBase64)
      && Get(d, "zk_commitment") == Get(doc, "zk_commitment")
      && ("id" in d <==> "id" in doc) && ("id" in doc ==> d["id"] == doc["id"])
      && Get(d, "file_hash") == Get(doc, "file_hash")
      && Get(d, "timestamp") == Str(p.basis.issuedAt)
      && Get(d, "checksum") == Str(p.basis.checksum)
      && "normalization_strategy" in d && d["normalization_strategy"] == p.basis.normalizationStrategy
  {
  }

  /** Regenerating the QR pair from what the QR step returned gives the same pair. */
  lemma ChooseQrStable(render: string -> seq<Byte>, signable: Dict, signature: string, storedPayload: Value, storedPng: Value)
    ensures var qr := ChooseQr(render, signable, signature, storedPayload, storedPng);
      ChooseQr(render, signable, signature, Str(qr.1), Str(qr.0)) == qr
  {
  }

  lemma SettleUpdated(h: Sha256, u: UnicodeTables, env: Signature.Env, render: string -> seq<Byte>, doc: Document, p: Healed)
    requires Settle(h, u, env, render, p.basis, doc) == Ok(p)
    requires p.signature != ""
    requires Signature.VerifySignature(h, u, env, Signable(p.basis), p.signature) == Ok(true)
    ensures Settle(h, u, env, render, p.basis, doc + UpdatedFields(p)) == Ok(p)
  {
    UpdatedGets(doc, p);
    var sig := ChooseSignature(h, u, env, Signable(p.basis), Get(doc, "signature"));
    assert sig == Ok(p.signature);
    ChooseQrStable(render, Signable(p.basis), p.signature, Get(doc, "qr_payload"), Get(doc, "qr_png_base64"));
  }
}
