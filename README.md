# Verified model of the document-verification backend

This project models the core of a FastAPI backend that issues and checks verification records for uploaded PDF documents. It is written in Dafny. The parts modelled are:

- **Text canonicaliser** (`backend/services/text_processing.py`). It folds text (NFKC, lower case), collapses every run of whitespace into one space and strips the ends. It then hashes the result, except when the text is empty.
- **Schnorr verifier** (`backend/services/zk_proof.py`). It handles:
  - the public commitment `G * scalar`, derived from the text digest;
  - parsing the proof payload `{rx, ry, s}`;
  - the Fiat–Shamir challenge, taken over `rx ‖ ry ‖ commitment ‖ id ‖ context`;
  - the check `G * s == R + C * e`.
- **QR payload codec** (`backend/services/qr_payload.py`). The payload is sorted compact JSON, then UTF-8, then URL-safe base64. The model covers its decoder, and the PNG-as-base64 pair returned beside the payload.
- **HMAC signer** (`backend/services/signature.py`). It computes HMAC-SHA256 over `repr(sorted(payload.items()))` with the environment's secret. `hmac.compare_digest` does the checking.
- **Orchestration** (`backend/main.py`). It covers:
  - `find_document`;
  - the 12-digit checksum;
  - `build_verification_payload`, the "verify or heal" step. It keeps each stored field that is non-empty (the strategy whenever its key exists, the signature only if it also verifies). It recomputes the timestamp, the checksum or the QR pair only when it is missing or empty, and the signature only when it is missing, empty or does not verify. The file hash is taken as stored. A kept checksum, timestamp or QR pair is not checked against the other fields. It writes back only when something changed, and then validates the response model.

The Python library behaviour the core relies on is modelled from its documented semantics:

- `json.dumps`/`json.loads` (RFC 8259);
- `base64` and CPython's non-strict `binascii.a2b_base64` (RFC 4648);
- UTF-8 (RFC 3629);
- `bytes.hex`/`bytes.fromhex`, `int(s, 16)` and `int.to_bytes`/`int.from_bytes`;
- `sorted(d.items())`;
- `repr` of a list of string pairs;
- HMAC (section 2 of RFC 2104).

Several primitives are parameters of the members that use them, not definitions:

- the SHA-256 compression function (`Crypto.Sha256`, any function to 32-byte digests);
- the Unicode tables (NFKC, `str.lower`, `str.upper`, `str.isprintable`);
- the secp256k1 point encodings;
- the QR/PNG renderer;
- the process environment;
- the clock.

Every property proved holds for whichever of these is passed in, with three exceptions. The curve lemmas state what they assume of the curve in `Secp256k1.ValidCurve`. `TextProcessing.NormalizeTextIdempotent` and `TextProcessing.WhitespaceOnlyHasNoDigest` state what they assume of the Unicode fold in their `requires`.

Points of the group are modelled by their discrete logarithm, so the group is the integers modulo `N` with the group laws proved. The verifier's completeness and special soundness are stated at that level. Scalar multiplication multiplies logarithms through `Secp256k1.Times`, the `e`-fold sum `a + ... + a`, which `Secp256k1.TimesIsProduct` shows equal to the product `a·e`.

Dictionaries are insertion-ordered item sequences. This makes the order-independence of signing and encoding actual theorems (`Dicts.SortItemsOrderIndependent`).

The document store is a class. Its `documents` field stands for the JSON metadata file that `load_documents`/`save_documents` read and write in full.

The code at `backend/main.py:349-352` regenerates the QR pair only when `qr_payload` or `qr_png_base64` is missing or empty. A stored QR pair therefore survives a re-signature and may still hold the old signature; `Backend.ChooseQr` and `Backend.HealQr` model exactly that.

## Model

| member | source | states |
|---|---|---|
| ZkProof.EnsureScalar | backend/services/zk_proof.py:17-21 | the scalar is at least 1; it is `x mod N` when that is non-zero and 1 otherwise |
| ZkProof.EnsureScalarIdempotent | backend/services/zk_proof.py:17-21 | reducing an already reduced scalar changes nothing |
| ZkProof.EnsureScalarCongruent | backend/services/zk_proof.py:17-21 | numbers congruent modulo `N` give the same scalar |
| ZkProof.CommitmentFromHash | backend/services/zk_proof.py:24-31 | a commitment exists exactly when `int(hash_hex, 16)` parses; it is lower-case hex of even length |
| ZkProof.CommitmentFromHashCongruent | backend/services/zk_proof.py:24-31 | hashes with the same `_ensure_scalar` (congruent modulo `N`, or 0 and 1 modulo `N`) give the same commitment, and on a valid curve only those do |
| ZkProof.CommitmentFromHashFormat | backend/services/zk_proof.py:24-31 | a commitment is 66 lower-case hex digits starting with `02` or `03` |
| ZkProof.CommitmentFromHashParses | backend/services/zk_proof.py:24-31 | the commitment parses back (as the verifier parses it) to `G * _ensure_scalar(int(hash_hex, 16))` |
| ZkProof.FromPayload | backend/services/zk_proof.py:41-49 | a proof exists exactly when `rx`, `ry` and `s` are all present and parse as base-16 integers, and then it holds those three values |
| ZkProof.FromPayloadToPayload | backend/services/zk_proof.py:41-49 | a prover's 64-digit hex payload reads back as the proof |
| ZkProof.FromPayloadIgnoresOtherKeys | backend/services/zk_proof.py:41-49 | keys other than `rx`, `ry`, `s` do not affect parsing |
| ZkProof.ChallengeMaterial | backend/services/zk_proof.py:55-66 | the material exists exactly when `rx`, `ry` fit in 32 bytes (else `to_bytes` raises); it is their 32-byte big-endian forms, the commitment bytes and the UTF-8 of id and context |
| ZkProof.Challenge | backend/services/zk_proof.py:51-68 | a challenge exists exactly when the commitment is hex and `rx`, `ry` fit; it is below `N` |
| ZkProof.MaterialSeesConcatenation | backend/services/zk_proof.py:58-66 | the hashed material depends on id and context only through `id + context` |
| ZkProof.ChallengeSeesConcatenation | backend/services/zk_proof.py:51-68 | the challenge depends on id and context only through `id + context` |
| ZkProof.VerifyRejectsMalformed | backend/services/zk_proof.py:86-95 | an unparsable commitment or proof payload gives `False` |
| ZkProof.VerifyRaisesIff | backend/services/zk_proof.py:77-110 | an exception escapes exactly when both parse but `rx` or `ry` does not fit in 32 bytes, or `(rx, ry)` is not on the curve |
| ZkProof.CheckEquation | backend/services/zk_proof.py:97-110 | once challenge and point exist, the check never raises, and it accepts exactly when `G * _ensure_scalar(s) == R + C * e` |
| ZkProof.EquationOnLogs | backend/services/zk_proof.py:103-110 | the verification equation holds exactly when `s ≡ r + c·e (mod N)` on logarithms |
| ZkProof.VerifyEquation | backend/services/zk_proof.py:77-110 | for well-formed inputs, `verify_schnorr_proof` accepts exactly when the verification equation holds |
| ZkProof.HonestProofAccepted | backend/services/zk_proof.py:77-110 | completeness: a prover knowing the committed scalar, answering `s = k + e·x` with a nonce point `G * k`, is accepted |
| ZkProof.HonestCheck | backend/services/zk_proof.py:97-110 | the honest response passes the point check |
| ZkProof.HonestPoints | backend/services/zk_proof.py:87-101 | the honest commitment parses back to `G * x` and the honest nonce point is finite |
| ZkProof.HonestResponse | backend/services/zk_proof.py:103-110 | the honest response satisfies the equation on logarithms |
| ZkProof.SpecialSoundness | backend/services/zk_proof.py:77-110 | two accepted proofs with the same `R` give `s1 - s2 ≡ c·(e1 - e2) (mod N)`, so distinct challenges reveal the committed logarithm |
| ZkProof.AcceptedEquation | backend/services/zk_proof.py:97-110 | an accepted proof satisfies the equation on logarithms |
| ZkProof.ResponseDifference | backend/services/zk_proof.py:103-110 | two responses to the same `R` differ by `c·(e1 - e2)` modulo `N` |
| ZkProof.VerifySeesConcatenation | backend/services/zk_proof.py:77-110 | a proof verifies identically for any id/context pair with the same concatenation |
| Secp256k1.MulGenerator | backend/services/zk_proof.py:104 | `G * a` is the point with logarithm `a mod N` |
| Secp256k1.MulGeneratorInfinity | backend/services/zk_proof.py:100-104 | `G * a` is the point at infinity exactly when `N` divides `a` |
| Secp256k1.AddMulGenerator | backend/services/zk_proof.py:105 | `G*a + G*b == G*(a+b)` |
| Secp256k1.MulMulGenerator | backend/services/zk_proof.py:105 | `(G*a)*b == G*(a·b)` |
| Secp256k1.AddMulLog | backend/services/zk_proof.py:105 | `p + q*e` has logarithm `p.dlog + q.dlog·e mod N` |
| Secp256k1.TimesIsProduct | backend/services/zk_proof.py:104-105 | the `e`-fold sum that scalar multiplication uses is the product `a·e` |
| Bytes.ToBytes | backend/services/zk_proof.py:56-57 | `n.to_bytes(len, "big")` succeeds exactly when `0 <= n < 256^len`, gives `len` bytes and reads back as `n` |
| Bytes.BigEndianInjective | backend/services/zk_proof.py:67 | different byte strings of one length have different `int.from_bytes` values |
| Hex.HexDigest | backend/services/text_processing.py:63 | `hexdigest()` is twice as long as the digest and lower-case hex |
| Hex.FromHexDigest | backend/services/zk_proof.py:55 | `bytes.fromhex(bs.hex()) == bs` |
| Hex.HexDigestValue | backend/services/zk_proof.py:28 | a hex digest read as a number is the big-endian value of the digest |
| Hex.ParseHexDigest | backend/services/zk_proof.py:28 | `int(bs.hex(), 16) == int.from_bytes(bs, "big")` |
| Hex.ParseHexFixed | backend/services/zk_proof.py:44-46 | `int(format(n, "0{w}x"), 16) == n` |
| Crypto.Hmac | backend/services/signature.py:17-18 | HMAC-SHA256 gives a 32-byte tag |
| TextProcessing.DropSpaces | backend/services/text_processing.py:54 | the result is a suffix with no leading whitespace, shorter when the text starts with whitespace |
| TextProcessing.TakeWord | backend/services/text_processing.py:54 | the result is the maximal non-whitespace prefix |
| TextProcessing.Words | backend/services/text_processing.py:54-55 | every word is a non-empty run of non-whitespace |
| TextProcessing.CollapseShape | backend/services/text_processing.py:54 | `re.sub(r"\s+", " ", s)` is the words joined by single spaces, with one space where the text had leading or trailing whitespace |
| TextProcessing.StripPadded | backend/services/text_processing.py:55 | stripping removes exactly the one-space padding around text without whitespace at its ends |
| TextProcessing.CanonicalizeIsJoinedWords | backend/services/text_processing.py:54-55 | collapse-and-strip equals `" ".join(s.split())` |
| TextProcessing.JoinWordsCanonical | backend/services/text_processing.py:54-55 | joined words are canonical: no whitespace at the ends, and every whitespace a single space between non-spaces |
| TextProcessing.WordsOfJoinWords | backend/services/text_processing.py:54-55 | splitting joined words gives the words back |
| TextProcessing.CanonicalizeSpec | backend/services/text_processing.py:54-55 | collapse-and-strip yields canonical text with the same words as its input |
| TextProcessing.CanonicalizeIdempotent | backend/services/text_processing.py:54-55 | collapse-and-strip is idempotent |
| TextProcessing.CanonicalizeKeepsNonSpace | backend/services/text_processing.py:54-55 | the non-whitespace characters survive, in order and unchanged |
| TextProcessing.NormalizeTextSpec | backend/services/text_processing.py:40-56 | empty input gives `""`; the output is canonical; its words and non-whitespace characters are those of the NFKC-lower-cased input |
| TextProcessing.NormalizeTextIdempotent | backend/services/text_processing.py:40-56 | normalising twice equals normalising once, when the Unicode fold is idempotent and text it leaves unchanged stays unchanged once its whitespace is canonicalised |
| TextProcessing.HashNormalizedText | backend/services/text_processing.py:59-64 | no digest exactly for the empty text; otherwise 64 lower-case hex digits that read back as the SHA-256 of the UTF-8 bytes |
| TextProcessing.WhitespaceOnlyHasNoDigest | backend/services/text_processing.py:40-64 | text that folds to whitespace only normalises to `""` and has no digest |
| Utf8.DecodeEncode | backend/services/qr_payload.py:17-23 | decoding the UTF-8 encoding of a string gives the string |
| Utf8.EncodeInjective | backend/services/signature.py:11-13 | different strings have different UTF-8 encodings |
| Utf8.EncodeAscii | backend/services/qr_payload.py:18 | an ASCII string's UTF-8 bytes are its character codes |
| Base64.EncodeLength | backend/services/qr_payload.py:18 | base64 text has 4 characters per started 3 bytes |
| Base64.EncodeAlphabet | backend/services/qr_payload.py:18 | base64 text uses only its alphabet, with `=` only in its last two places |
| Base64.DecodeEncode | backend/services/qr_payload.py:18-22 | `urlsafe_b64decode(urlsafe_b64encode(bs)) == bs` under non-strict `a2b_base64` |
| Dicts.SortItemsSpec | backend/services/signature.py:17 | `sorted(d.items())` is strictly ascending by key and a permutation of the items |
| Dicts.SortItemsOrderIndependent | backend/services/signature.py:17 | `sorted(d.items())` does not depend on insertion order |
| Dicts.SortedUnique | backend/services/signature.py:17 | two strictly sorted item lists with the same items are equal |
| Dicts.ToMapSortItems | backend/services/qr_payload.py:17 | the sorted items hold the dictionary's items with distinct keys and build the same mapping |
| Json.DumpsOrderIndependent | backend/services/qr_payload.py:17 | the sorted compact JSON does not depend on insertion order |
| Json.LoadsDumps | backend/services/qr_payload.py:17-23 | `json.loads(json.dumps(d, separators=(",", ":"), sort_keys=True)) == d` for flat string/null dictionaries |
| PyRepr.QuoteFor | backend/services/signature.py:17 | `repr` quotes with `"` exactly when the text has `'` and no `"` |
| PyRepr.ParseListRepr | backend/services/signature.py:17 | the `repr` text of a list of pairs reads back as the list |
| PyRepr.ListReprInjective | backend/services/signature.py:17 | different lists of pairs have different `repr` texts |
| QrPayload.EncodePayloadShape | backend/services/qr_payload.py:13-18 | the payload is ASCII over the URL-safe alphabet, padded only at the end, `4·⌈n/3⌉` characters for `n` JSON bytes |
| QrPayload.EncodePayloadOrderIndependent | backend/services/qr_payload.py:13-18 | the payload does not depend on insertion order |
| QrPayload.DecodeEncodePayload | backend/services/qr_payload.py:13-23 | `decode_payload(encode_payload(d)) == d` |
| QrPayload.EncodePayloadInjective | backend/services/qr_payload.py:13-18 | two records have the same payload exactly when they hold the same items |
| QrPayload.MapSameItems | backend/services/qr_payload.py:21-23 | with distinct keys, the same decoded mapping means the same items |
| QrPayload.GenerateQr | backend/services/qr_payload.py:26-44 | the returned payload is `encode_payload(data)`; the image text is ASCII standard base64 of the rendered PNG, `4·⌈n/3⌉` characters |
| QrPayload.GenerateQrPayload | backend/services/qr_payload.py:26-44 | the payload returned beside the image decodes to the record |
| Signature.LoadSecretText | backend/services/signature.py:7-13 | the key is the UTF-8 of the environment's secret or the default; different secrets give different keys |
| Signature.SignPayload | backend/services/signature.py:16-19 | 64 lower-case hex digits that read back as HMAC-SHA256 of the UTF-8 `repr` of the sorted items under the secret |
| Signature.CompareDigest | backend/services/signature.py:24 | `TypeError` exactly when an argument has a non-ASCII character, otherwise equality |
| Signature.VerifySignature | backend/services/signature.py:22-24 | an error exactly when the offered signature is non-ASCII; otherwise true exactly when it equals the recomputed one |
| Signature.SignatureAscii | backend/services/signature.py:16-19 | a signature is ASCII, so comparing against it never raises on its side |
| Signature.SignThenVerify | backend/services/signature.py:16-24 | a fresh signature verifies |
| Signature.MessageDeterminesItems | backend/services/signature.py:17 | the signed message is the same exactly when the items are the same, in any order |
| Signature.SignOrderIndependent | backend/services/signature.py:16-19 | the signature does not depend on insertion order |
| Backend.CleanId | backend/main.py:312 | the cleaned id is no longer than the input, holds only `[A-Z0-9-]` characters |
| Backend.CleanIdChar | backend/main.py:312 | a character is kept, upper-cased, exactly when it is in `[a-zA-Z0-9-]`; with `CleanIdAppend` this fixes the cleaning of every string |
| Backend.CleanIdAppend | backend/main.py:312 | cleaning distributes over concatenation |
| Backend.CleanIdFixed | backend/main.py:312 | an already clean id is unchanged |
| Backend.CleanIdIdempotent | backend/main.py:312 | cleaning twice is cleaning once |
| Backend.DocumentStore.FindDocument | backend/main.py:311-317 | the first stored record matching by exact id or upper-cased id, after only non-matches; `AttributeError` at the first `null` id before a match; none when nothing matches |
| Backend.ChecksumDigest | backend/main.py:475-476 | the checksum is 12 characters of `[0-9A-F]` reading back as the first 6 bytes of SHA-256 of `"{id}:{commitment}:{file_hash}"` |
| Backend.IsoformatUtc | backend/main.py:292-293 | the timestamp is non-empty and ends in `Z` |
| Backend.Signable | backend/main.py:336-343 | the signed record has distinct keys, none of them `signature` |
| Backend.ToPayload | backend/main.py:373-383 | validation fails exactly when id, file hash or strategy is `null`; otherwise each field is the settled value |
| Backend.FirstWithId | backend/main.py:366-367 | the first stored record whose `id` equals the given one, after only non-matches; none when no record has it |
| Backend.DocumentStore.WriteBack | backend/main.py:364-371 | the first record with the id gets the updated fields and no other record changes; nothing changes when none has the id |
| Backend.DocumentStore.BuildVerificationPayload | backend/main.py:320-383 | errors leave store and record untouched; otherwise, when some written field differs, the first stored record with the id and the caller's record get the updated fields, before the payload is validated |
| Backend.HealErrors | backend/main.py:321-347 | `ValueError` exactly without a commitment, `KeyError` exactly without an `id`, `TypeError` exactly for a non-empty non-ASCII stored signature |
| Backend.SettleErrors | backend/main.py:345-352 | the signature and QR steps fail only with `TypeError`, exactly for a non-empty non-ASCII stored signature |
| Backend.ChooseSignatureErrors | backend/main.py:345-347 | the signature step fails only with `TypeError`, exactly for a non-empty non-ASCII stored signature |
| Backend.ChooseSignatureVerifies | backend/main.py:345-347 | the chosen signature verifies, and the stored one is kept exactly when it is non-empty and verifies |
| Backend.ChooseQrSpec | backend/main.py:349-352 | the stored pair is kept when both are non-empty; a regenerated payload decodes to the signed fields plus the signature |
| Backend.HealBasis | backend/main.py:321-343 | the signed fields are the record's own where present (timestamp and checksum when non-empty, strategy when the key exists), else the clock's time, the current strategy, and the derived 12-digit checksum |
| Backend.HealSignature | backend/main.py:336-347 | the returned signature verifies against the six signed fields; the stored one is returned exactly when it verifies |
| Backend.HealQr | backend/main.py:349-352 | the stored QR pair is kept when both are non-empty; otherwise the new payload decodes to the signed fields plus the signature and the image is standard base64 |
| Backend.HealIdempotent | backend/main.py:320-371 | after the written-back fields are merged, the step settles on the same values under any clock and finds nothing to persist |
| Backend.ChooseQrStable | backend/main.py:349-352 | feeding the QR step its own output returns the same pair |
| Backend.SettleUpdated | backend/main.py:345-371 | after the merge, the signature and QR steps return the same values |
| Backend.BasisOfUpdated | backend/main.py:324-334 | after the merge, the signed fields are settled to the same values under any clock |
| Backend.UpdatedGets | backend/main.py:354-361 | after the merge, the record holds the written signature and QR fields and keeps its id and commitment |

## Left out

- File handling is not modelled:
  - the PDF text extraction (`extract_text`, pypdf);
  - the file upload, HTTP routing, authentication and the other endpoints of `backend/main.py`;
  - reading and writing the metadata file as JSON. The store is a class field holding the parsed records.
- The QR encoder and the PNG writer (`qrcode`, `io.BytesIO`) are the parameter `render`. The model does not relate the image to the payload beyond "the PNG of this payload".
- SHA-256, Unicode NFKC, `str.lower`/`str.upper`/`str.isprintable` and the `ecdsa` point encodings are parameters, not implementations.
- `datetime.utcnow()` is a parameter `clock` (the time as ISO text to the second). `os.getenv` reads a parameter map.
- Logging calls are left out. So are concurrency between requests and the aliasing of the caller's `document` dict: the method returns the updated record instead of mutating it.
- Backend.MatchDocument: for a non-`str`, non-`None` stored `id` (the records hold only strings and `null`), the model does not raise the way `upper()` would.
- Json.Loads: lone UTF-16 surrogates, nested JSON, non-string values and a top-level value that is not an object decode to `JsonError` here. Python accepts them, and `decode_payload` (`backend/services/qr_payload.py:23`) returns such a top-level value, a JSON string say, as it is. No encoder in the core produces them.
- QrPayload.DecodePayload: a payload that decodes to a top-level JSON value that is not an object gives `JsonError` here, where `decode_payload` returns that value without raising.
- Base64.UrlSafeDecode follows the non-strict `a2b_base64` of current CPython. Older versions treat a `=` in the middle of the data differently.
- Hex.ParseHexInt accepts only ASCII digits. Python's `int(x, 16)` also accepts the other Unicode decimal digits (for example U+0661 U+0662 reads as `0x12`).
- ZkProof.FromPayload: `rx`, `ry` and `s` arrive unchecked from the request (`backend/services/zk_proof.py:44-46`). A value written with non-ASCII Unicode decimal digits is read by Python as a number, and verification goes on. Here it does not parse, and the proof is rejected.
- ZkProof.CommitmentFromHash: likewise, a stored hash written with non-ASCII Unicode decimal digits gives a commitment in Python and none here.
- Signature.LoadSecret: environment values that hold surrogate escapes (undecodable bytes) are not modelled. Python would raise on encoding them.
- ZkProof.ToPoint and ZkProof.VerifySchnorrProof model the elliptic curve by discrete logarithms. The curve's coordinate arithmetic is not modelled.
- ZkProof.ChallengeMaterial: the UnicodeEncodeError that `document_id.encode("utf-8")` or `context.encode("utf-8")` raises for a lone surrogate (`backend/services/zk_proof.py:63-64`, outside any `try`) is not modelled. A Dafny `char` is a Unicode scalar value, so a model string cannot hold a lone surrogate.
- ZkProof.Challenge: the UnicodeEncodeError that `document_id.encode("utf-8")` or `context.encode("utf-8")` raises for a lone surrogate (`backend/services/zk_proof.py:63-64`, outside any `try`) is not modelled. A Dafny `char` is a Unicode scalar value, so a model string cannot hold a lone surrogate.
- ZkProof.VerifyRaisesIff: the UnicodeEncodeError that `document_id.encode("utf-8")` or `context.encode("utf-8")` raises for a lone surrogate (`backend/services/zk_proof.py:63-64`, outside any `try`) is not modelled. A Dafny `char` is a Unicode scalar value, so a model string cannot hold a lone surrogate.
- TextProcessing.HashNormalizedText: the UnicodeEncodeError of `.encode("utf-8")` on text holding a lone surrogate (`backend/services/text_processing.py:63`) is not modelled, for the same reason.
- Backend.HealErrors: the UnicodeEncodeError of the checksum seed's `.encode` (`backend/main.py:334`) for a lone surrogate is not modelled, for the same reason. Neither is the `DataOverflowError` that `qrcode` raises for a payload too large for any QR version (`backend/services/qr_payload.py:38`, reached through `backend/main.py:352`), because the renderer `render` is a total parameter.
- Backend.SettleErrors: the `DataOverflowError` of `qrcode` for a payload too large for any QR version is not modelled, because `render` is a total parameter.
