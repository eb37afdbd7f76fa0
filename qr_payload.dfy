/** The compact text a verification QR code carries: the record's JSON (sorted keys, no spaces),
    UTF-8 encoded and then URL-safe base64 encoded; its decoder; and the PNG of the code, itself
    base64 encoded for embedding in a page. */
module QrPayload {
  import opened Wrappers
  import opened Bytes
  import opened Chars
  import opened Dicts
  import Json
  import Base64
  import Utf8

  /** Where `decode_payload` raises: binascii.Error, UnicodeDecodeError, JSONDecodeError (or a
      JSON value the model does not cover). */
  datatype PayloadError = Base64Error | UnicodeError | JsonError

  /** An ASCII string's UTF-8 encoding is its character codes. */
  lemma AsciiEncoding(s: string)
    requires IsAsciiString(s)
    ensures Utf8.Encode(s) == Base64.Codes(s)
  {
    Utf8.EncodeAscii(s);
  }

  /** `encode_payload(data)`. */
  function EncodePayload(d: Dict): (encoded: string)
  {
    Base64.Encode(Base64.UrlSafe, Utf8.Encode(Json.Dumps(d)))
  }

  /** The payload is ASCII text over the URL-safe alphabet, `=` padding only in its last two
      places, four characters for every started three bytes of JSON. */
  lemma EncodePayloadShape(d: Dict)
    ensures var e := EncodePayload(d);
      && IsAsciiString(e)
      && (forall i :: 0 <= i < |e| ==> Base64.InAlphabet(Base64.UrlSafe, e[i]) || e[i] == Base64.Pad)
      && (forall i :: 0 <= i < |e| && e[i] == Base64.Pad ==> i >= |e| - 2)
      && |e| == 4 * ((|Json.Dumps(d)| + 2) / 3)
  {
    var js := Json.Dumps(d);
    Utf8.EncodeAscii(js);
    Base64.EncodeAlphabet(Base64.UrlSafe, Utf8.Encode(js));
    Base64.EncodeLength(Base64.UrlSafe, Utf8.Encode(js));
  }

  /** The payload depends only on the record's items, not on the order they were inserted in. */
  lemma EncodePayloadOrderIndependent(d1: Dict, d2: Dict)
    requires DistinctKeys(d1) && DistinctKeys(d2) && SameItems(d1, d2)
    ensures EncodePayload(d1) == EncodePayload(d2)
  {
    Json.DumpsOrderIndependent(d1, d2);
  }

  /** `decode_payload(encoded)`. */
  function DecodePayload(encoded: string): Result<map<string, Value>, PayloadError>
  {
    match Base64.UrlSafeDecode(Utf8.Encode(encoded))
    case None => Err(Base64Error)
    case Some(bs) =>
      match Utf8.Decode(bs)
      case None => Err(UnicodeError)
      case Some(text) =>
        match Json.Loads(text)
        case None => Err(JsonError)
        case Some(m) => Ok(m)
  }

  /** `decode_payload(encode_payload(d)) == d`: the payload carries the whole record. */
  lemma DecodeEncodePayload(d: Dict)
    requires DistinctKeys(d)
    ensures DecodePayload(EncodePayload(d)) == Ok(ToMap(d))
  {
    var js := Json.Dumps(d);
    AsciiEncoding(js);
    var bs := Base64.Codes(js);
    Base64.DecodeEncode(bs);
    var e := Base64.Encode(Base64.UrlSafe, bs);
    AsciiEncoding(e);
    assert Base64.UrlSafeDecode(Utf8.Encode(e)) == Some(bs);
    Utf8.DecodeEncode(js);
    Json.LoadsDumps(d);
  }

  /** Two records with distinct keys have the same payload exactly when they hold the same items. */
  lemma EncodePayloadInjective(d1: Dict, d2: Dict)
    requires DistinctKeys(d1) && DistinctKeys(d2)
    ensures EncodePayload(d1) == EncodePayload(d2) <==> ToMap(d1) == ToMap(d2)
  {
    DecodeEncodePayload(d1);
    DecodeEncodePayload(d2);
    if ToMap(d1) == ToMap(d2) {
      MapSameItems(d1, d2);
      EncodePayloadOrderIndependent(d1, d2);
    }
  }

  /** With distinct keys, the same mapping means the same items. */
  lemma MapSameItems(d1: Dict, d2: Dict)
    requires DistinctKeys(d1) && DistinctKeys(d2) && ToMap(d1) == ToMap(d2)
    ensures SameItems(d1, d2)
  {
    ToMapItems(d1);
    ToMapItems(d2);
    forall x | x in d1 ensures x in d2 {
      var i :| 0 <= i < |d1| && d1[i] == x;
      assert x.0 in ToMap(d2);
      var j :| 0 <= j < |d2| && d2[j].0 == x.0;
    }
    forall x | x in d2 ensures x in d1 {
      var j :| 0 <= j < |d2| && d2[j] == x;
      assert x.0 in ToMap(d1);
      var i :| 0 <= i < |d1| && d1[i].0 == x.0;
    }
  }

  /** `generate_qr_png_base64(data)`: the PNG of a QR code holding the payload (medium error
      correction, 8-pixel boxes, a 2-box border), base64 encoded, and the payload itself. The QR
      encoder and the PNG writer are the parameter `render`, the PNG file for a text. */
  function GenerateQr(render: string -> seq<Byte>, d: Dict): (r: (string, string))
    ensures IsAsciiString(r.0)
    ensures forall i :: 0 <= i < |r.0| ==> Base64.InAlphabet(Base64.Standard, r.0[i]) || r.0[i] == Base64.Pad
    ensures |r.0| == 4 * ((|render(r.1)| + 2) / 3)
    ensures r.1 == EncodePayload(d)
  {
    var encoded := EncodePayload(d);
    var png := render(encoded);
    Base64.EncodeAlphabet(Base64.Standard, png);
    Base64.EncodeLength(Base64.Standard, png);
    (Base64.Encode(Base64.Standard, png), encoded)
  }

  /** The payload returned beside the image decodes to the record the code was made for. */
  lemma GenerateQrPayload(render: string -> seq<Byte>, d: Dict)
    requires DistinctKeys(d)
    ensures DecodePayload(GenerateQr(render, d).1) == Ok(ToMap(d))
  {
    DecodeEncodePayload(d);
  }
}
