/** The hash primitive, taken as a parameter, and HMAC (RFC 2104) built on it. */
module Crypto {
  import opened Bytes

  const DigestSize: nat := 32
  const BlockSize: nat := 64

  /** A function with SHA-256's shape (FIPS 180-4): any message to a 32-byte digest. The model
      does not contain the compression function; every member that hashes takes one of these
      as a parameter, and what it proves holds for whichever function is passed. */
  type Sha256 = f: seq<Byte> -> seq<Byte> | forall m :: |f(m)| == DigestSize
    witness (m: seq<Byte>) => seq(32, i => 0)

  function Xor(a: Byte, b: Byte): Byte
  {
    ((a as bv8) ^ (b as bv8)) as int
  }

  /** The key as one hash block: hashed first if longer than a block, then padded with zeros. */
  function BlockKey(h: Sha256, key: seq<Byte>): (k0: seq<Byte>)
    ensures |k0| == BlockSize
  {
    var k := if |key| > BlockSize then h(key) else key;
    k + seq(BlockSize - |k|, i => 0)
  }

  function XorPad(k0: seq<Byte>, pad: Byte): (r: seq<Byte>)
    requires |k0| == BlockSize
    ensures |r| == BlockSize
  {
    seq(BlockSize, i requires 0 <= i < BlockSize => Xor(k0[i], pad))
  }

  /** HMAC-H(key, msg) = H((K0 xor opad) || H((K0 xor ipad) || msg)), section 2 of RFC 2104,
      with the SHA-256 block size and the pads 0x36 and 0x5c. */
  function Hmac(h: Sha256, key: seq<Byte>, msg: seq<Byte>): (mac: seq<Byte>)
    ensures |mac| == DigestSize
  {
    var k0 := BlockKey(h, key);
    h(XorPad(k0, 0x5c) + h(XorPad(k0, 0x36) + msg))
  }
}
