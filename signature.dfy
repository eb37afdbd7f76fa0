/** backend/services/signature.py: the HMAC-SHA256 signature over a payload's sorted items. */
module Signature {
  import opened Wrappers
  import opened Bytes
  import opened Chars
  import opened Hex
  import opened Dicts
  import opened Crypto
  import Utf8
  import PyRepr

  const DefaultSecret: string := "dev-signing-secret"
  const SigningSecretEnv: string := "DOCUMENT_SIGNING_SECRET"

  /** The process environment, read afresh by every call that needs the secret. */
  type Env = map<string, string>

  /** The secret's text: the environment's value when it is set, the development default
      otherwise. */
  function SecretText(env: Env): string
  {
    if SigningSecretEnv in env then env[SigningSecretEnv] else DefaultSecret
  }

  /** `_load_secret()`: the secret's UTF-8 bytes. */
  function LoadSecret(env: Env): seq<Byte>
  {
    Utf8.Encode(SecretText(env))
  }

  /** The key holds exactly the secret's text, and different secrets give different keys. */
  lemma LoadSecretText(env1: Env, env2: Env)
    ensures Utf8.Decode(LoadSecret(env1)) == Some(SecretText(env1))
    ensures LoadSecret(env1) == LoadSecret(env2) <==> SecretText(env1) == SecretText(env2)
  {
    Utf8.DecodeEncode(SecretText(env1));
    if LoadSecret(env1) == LoadSecret(env2) {
      Utf8.EncodeInjective(SecretText(env1), SecretText(env2));
    }
  }

  /** The signed message: `repr(sorted(payload.items()))`. */
  function Message(u: UnicodeTables, d: Dict): string
  {
    PyRepr.ListRepr(u, SortItems(d))
  }

  /** `sign_payload(payload)`: the HMAC-SHA256 of the message's UTF-8 bytes under the secret, as
      64 lower-case hex digits that read back as the 32-byte tag. */
  function SignPayload(h: Sha256, u: UnicodeTables, env: Env, d: Dict): (sig: string)
    ensures |sig| == 64 && IsLowerHex(sig)
    ensures FromHex(sig) == Some(Hmac(h, LoadSecret(env), Utf8.Encode(Message(u, d))))
  {
    var tag := Hmac(h, LoadSecret(env), Utf8.Encode(Message(u, d)));
    FromHexDigest(tag);
    HexDigest(tag)
  }

  /** `hmac.compare_digest` raises TypeError for a `str` argument with a non-ASCII character. */
  datatype SignatureError = TypeError

  /** `hmac.compare_digest(a, b)` on two `str` values. */
  function CompareDigest(a: string, b: string): (r: Result<bool, SignatureError>)
    ensures r.Err? <==> !(IsAsciiString(a) && IsAsciiString(b))
    ensures r.Ok? ==> (r.value <==> a == b)
  {
    if IsAsciiString(a) && IsAsciiString(b) then Ok(a == b) else Err(TypeError)
  }

  /** `verify_signature(payload, signature)`: an error exactly when the offered signature has a
      non-ASCII character (the recomputed one never has), otherwise whether the two are equal. */
  function VerifySignature(h: Sha256, u: UnicodeTables, env: Env, d: Dict, sig: string): (r: Result<bool, SignatureError>)
    ensures r.Err? <==> !IsAsciiString(sig)
    ensures r.Ok? ==> (r.value <==> sig == SignPayload(h, u, env, d))
  {
    SignatureAscii(h, u, env, d);
    CompareDigest(SignPayload(h, u, env, d), sig)
  }

  lemma SignatureAscii(h: Sha256, u: UnicodeTables, env: Env, d: Dict)
    ensures IsAsciiString(SignPayload(h, u, env, d))
  {
    var sig := SignPayload(h, u, env, d);
    assert forall i :: 0 <= i < |sig| ==> IsLowerHexDigit(sig[i]);
  }

  /** A freshly made signature verifies under the same secret. */
  lemma SignThenVerify(h: Sha256, u: UnicodeTables, env: Env, d: Dict)
    ensures VerifySignature(h, u, env, d, SignPayload(h, u, env, d)) == Ok(true)
  {
    SignatureAscii(h, u, env, d);
  }

  /** The message depends only on the payload's items, not on their insertion order; and, for
      payloads with distinct keys, it differs whenever the items differ (a changed, added or
      removed field changes the message). */
  lemma MessageDeterminesItems(u: UnicodeTables, d1: Dict, d2: Dict)
    requires DistinctKeys(d1) && DistinctKeys(d2)
    ensures Message(u, d1) == Message(u, d2) <==> SameItems(d1, d2)
  {
    if SameItems(d1, d2) {
      SortItemsOrderIndependent(d1, d2);
    }
    if Message(u, d1) == Message(u, d2) {
      PyRepr.ListReprInjective(u, SortItems(d1), SortItems(d2));
      ToMapSortItems(d1);
      ToMapSortItems(d2);
    }
  }

  /** Signing does not depend on the order the payload's items were inserted in. */
  lemma SignOrderIndependent(h: Sha256, u: UnicodeTables, env: Env, d1: Dict, d2: Dict)
    requires DistinctKeys(d1) && DistinctKeys(d2) && SameItems(d1, d2)
    ensures SignPayload(h, u, env, d1) == SignPayload(h, u, env, d2)
  {
    MessageDeterminesItems(u, d1, d2);
  }
}
