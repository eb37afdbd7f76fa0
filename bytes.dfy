/** Byte strings and the big-endian integer conversions of Python's `int.from_bytes` and `int.to_bytes`. */
module Bytes {
  import opened Wrappers

  type Byte = b: int | 0 <= b < 256

  function Pow256(n: nat): (r: nat)
    ensures r >= 1
  {
    if n == 0 then 1 else 256 * Pow256(n - 1)
  }

  /** 2^256, the bound of a 32-byte big-endian number. */
  const TwoTo256: nat := 0x1_0000000000000000_0000000000000000_0000000000000000_0000000000000000

  lemma {:induction false} Pow256Add(a: nat, b: nat)
    ensures Pow256(a + b) == Pow256(a) * Pow256(b)
  {
    if a > 0 {
      Pow256Add(a - 1, b);
    }
  }

  lemma Pow256Of32()
    ensures Pow256(32) == TwoTo256
  {
    assert Pow256(2) == 0x1_0000;
    Pow256Add(2, 2);
    Pow256Add(4, 4);
    Pow256Add(8, 8);
    Pow256Add(16, 16);
  }

  /** `int.from_bytes(bs, "big")`. */
  function BigEndian(bs: seq<Byte>): (v: nat)
    ensures v < Pow256(|bs|)
  {
    if bs == [] then 0 else BigEndian(bs[..|bs| - 1]) * 256 + bs[|bs| - 1]
  }

  /** The `len` low-order base-256 digits of `n`, most significant first. */
  function Digits(n: nat, len: nat): (bs: seq<Byte>)
    ensures |bs| == len
  {
    if len == 0 then [] else Digits(n / 256, len - 1) + [n % 256]
  }

  /** `n.to_bytes(len, "big")`: `None` where Python raises OverflowError (a negative `n`, or
      one that needs more than `len` bytes). */
  function ToBytes(n: int, len: nat): (r: Option<seq<Byte>>)
    ensures r.Some? <==> 0 <= n < Pow256(len)
    ensures r.Some? ==> |r.value| == len && BigEndian(r.value) == n
  {
    if 0 <= n < Pow256(len) then
      DigitsRoundTrip(n, len);
      Some(Digits(n, len))
    else None
  }

  /** Reading back the digits of a number that fits gives the number. */
  lemma {:induction false} DigitsRoundTrip(n: nat, len: nat)
    requires n < Pow256(len)
    ensures BigEndian(Digits(n, len)) == n
  {
    if len > 0 {
      var d := Digits(n / 256, len - 1);
      DigitsRoundTrip(n / 256, len - 1);
      assert Digits(n, len) == d + [n % 256];
      assert (d + [n % 256])[..|d|] == d;
    }
  }

  /** Appending a byte multiplies the big-endian value by 256 and adds the byte. */
  lemma BigEndianSnoc(bs: seq<Byte>, b: Byte)
    ensures BigEndian(bs + [b]) == BigEndian(bs) * 256 + b
  {
    assert (bs + [b])[..|bs|] == bs;
  }

  /** Different byte strings of the same length have different big-endian values. */
  lemma {:induction false} BigEndianInjective(a: seq<Byte>, b: seq<Byte>)
    requires |a| == |b| && BigEndian(a) == BigEndian(b)
    ensures a == b
  {
    if |a| > 0 {
      var n := |a| - 1;
      assert BigEndian(a) % 256 == a[n] && BigEndian(a) / 256 == BigEndian(a[..n]);
      assert BigEndian(b) % 256 == b[n] && BigEndian(b) / 256 == BigEndian(b[..n]);
      BigEndianInjective(a[..n], b[..n]);
      assert a == a[..n] + [a[n]] && b == b[..n] + [b[n]];
    }
  }
}
