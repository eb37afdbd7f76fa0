/** Hexadecimal text: `bytes.hex()` / `hexdigest()`, `bytes.fromhex`, fixed-width `%0Nx`
    formatting and CPython's `int(s, 16)`. */
module Hex {
  import opened Wrappers
  import opened Bytes
  import opened Chars

  predicate IsHexDigit(c: char)
  {
    ('0' <= c <= '9') || ('a' <= c <= 'f') || ('A' <= c <= 'F')
  }

  predicate IsLowerHexDigit(c: char)
  {
    ('0' <= c <= '9') || ('a' <= c <= 'f')
  }

  predicate IsUpperHexDigit(c: char)
  {
    ('0' <= c <= '9') || ('A' <= c <= 'F')
  }

  predicate IsLowerHex(s: string)
  {
    forall i :: 0 <= i < |s| ==> IsLowerHexDigit(s[i])
  }

  predicate AllHexDigits(s: string)
  {
    forall i :: 0 <= i < |s| ==> IsHexDigit(s[i])
  }

  function DigitValue(c: char): (v: nat)
    requires IsHexDigit(c)
    ensures v < 16
  {
    if '0' <= c <= '9' then c as int - '0' as int
    else if 'a' <= c <= 'f' then c as int - 'a' as int + 10
    else c as int - 'A' as int + 10
  }

  function LowerDigit(d: nat): (c: char)
    requires d < 16
    ensures IsLowerHexDigit(c) && DigitValue(c) == d
  {
    if d < 10 then ('0' as int + d) as char else ('a' as int + d - 10) as char
  }

  function Pow16(n: nat): (r: nat)
    ensures r >= 1
  {
    if n == 0 then 1 else 16 * Pow16(n - 1)
  }

  lemma {:induction false} Pow16Pow256(n: nat)
    ensures Pow16(2 * n) == Pow256(n)
  {
    if n > 0 {
      Pow16Pow256(n - 1);
      assert Pow16(2 * n) == 16 * 16 * Pow16(2 * (n - 1));
    }
  }

  lemma Pow16Of64()
    ensures Pow16(64) == TwoTo256
  {
    Pow16Pow256(32);
    Pow256Of32();
  }

  /** The value of a string of hex digits, most significant first. */
  function DigitsValue(s: string): (v: nat)
    requires AllHexDigits(s)
    ensures v < Pow16(|s|)
  {
    if s == [] then 0 else DigitsValue(s[..|s| - 1]) * 16 + DigitValue(s[|s| - 1])
  }

  /** `format(n, "0{width}x")` for an `n` below 16^width: exactly `width` lower-case digits. */
  function HexFixed(n: nat, width: nat): (s: string)
    ensures |s| == width && IsLowerHex(s) && AllHexDigits(s)
  {
    if width == 0 then [] else HexFixed(n / 16, width - 1) + [LowerDigit(n % 16)]
  }

  /** Fixed-width hex text reads back as the number it formats. */
  lemma {:induction false} HexFixedValue(n: nat, width: nat)
    requires n < Pow16(width)
    ensures DigitsValue(HexFixed(n, width)) == n
  {
    if width > 0 {
      var h := HexFixed(n / 16, width - 1);
      HexFixedValue(n / 16, width - 1);
      assert HexFixed(n, width)[..width - 1] == h;
    }
  }

  /** `"%02x" % b`. */
  function ByteHex(b: Byte): (s: string)
    ensures |s| == 2 && IsLowerHex(s) && AllHexDigits(s)
  {
    [LowerDigit(b / 16), LowerDigit(b % 16)]
  }

  /** `bs.hex()`, which is also `hashlib`'s `hexdigest()` of a digest `bs`. */
  function HexDigest(bs: seq<Byte>): (s: string)
    ensures |s| == 2 * |bs| && IsLowerHex(s) && AllHexDigits(s)
  {
    if bs == [] then [] else ByteHex(bs[0]) + HexDigest(bs[1..])
  }

  lemma {:induction false} HexDigestSnoc(bs: seq<Byte>, b: Byte)
    ensures HexDigest(bs + [b]) == HexDigest(bs) + ByteHex(b)
  {
    if bs != [] {
      assert (bs + [b])[1..] == bs[1..] + [b];
      HexDigestSnoc(bs[1..], b);
    } else {
      assert bs + [b] == [b];
    }
  }

  /** The hex digest, read as a hexadecimal number, is the big-endian value of the bytes. */
  lemma {:induction false} HexDigestValue(bs: seq<Byte>)
    ensures DigitsValue(HexDigest(bs)) == BigEndian(bs)
  {
    if bs != [] {
      var n := |bs| - 1;
      var init, b := bs[..n], bs[n];
      assert bs == init + [b];
      HexDigestSnoc(init, b);
      HexDigestValue(init);
      var h := HexDigest(init);
      var t := h + ByteHex(b);
      assert t[..|h| + 1] == h + [LowerDigit(b / 16)];
      assert (h + [LowerDigit(b / 16)])[..|h|] == h;
      assert DigitsValue(t) == (DigitsValue(h) * 16 + b / 16) * 16 + b % 16;
      BigEndianSnoc(init, b);
    }
  }

  /** `bytes.fromhex(s)`: pairs of hex digits, with ASCII whitespace allowed between pairs;
      `None` where Python raises ValueError. */
  function FromHex(s: string): Option<seq<Byte>>
    decreases |s|
  {
    if s == [] then Some([])
    else if IsAsciiSpace(s[0]) then FromHex(s[1..])
    else if |s| >= 2 && IsHexDigit(s[0]) && IsHexDigit(s[1]) then
      match FromHex(s[2..])
      case None => None
      case Some(rest) => Some([DigitValue(s[0]) * 16 + DigitValue(s[1])] + rest)
    else None
  }

  /** A leading pair of hex digits reads as one byte in front of what the rest reads as. */
  lemma FromHexPair(s: string, rest: seq<Byte>)
    requires |s| >= 2 && IsHexDigit(s[0]) && IsHexDigit(s[1])
    requires FromHex(s[2..]) == Some(rest)
    ensures FromHex(s) == Some([DigitValue(s[0]) * 16 + DigitValue(s[1])] + rest)
  {
  }

  /** `bytes.fromhex(bs.hex()) == bs`. */
  lemma {:induction false} FromHexDigest(bs: seq<Byte>)
    ensures FromHex(HexDigest(bs)) == Some(bs)
  {
    if bs != [] {
      var h := HexDigest(bs);
      assert h[2..] == HexDigest(bs[1..]);
      FromHexDigest(bs[1..]);
      var b := bs[0];
      assert DigitValue(h[0]) * 16 + DigitValue(h[1]) == (b / 16) * 16 + b % 16 == b;
      assert bs == [b] + bs[1..];
    }
  }

  /** The characters CPython's `int()` skips around a number: the C library's whitespace, and
      any non-ASCII `str.isspace()` character (which `int()` first turns into a space). */
  predicate IsIntSpace(c: char)
  {
    IsAsciiSpace(c) || (!IsAscii(c) && IsSpace(c))
  }

  function TrimIntSpaceLeft(s: string): (t: string)
    ensures |t| <= |s|
    ensures t == [] || !IsIntSpace(t[0])
  {
    if s != [] && IsIntSpace(s[0]) then TrimIntSpaceLeft(s[1..]) else s
  }

  function TrimIntSpaceRight(s: string): (t: string)
    ensures |t| <= |s|
    ensures t == [] || !IsIntSpace(t[|t| - 1])
  {
    if s != [] && IsIntSpace(s[|s| - 1]) then TrimIntSpaceRight(s[..|s| - 1]) else s
  }

  /** A digit string as `int()` accepts it: hex digits with single underscores between them. */
  predicate WellFormedDigits(b: string)
  {
    && |b| > 0 && b[0] != '_' && b[|b| - 1] != '_'
    && (forall i :: 0 <= i < |b| ==> IsHexDigit(b[i]) || b[i] == '_')
    && (forall i :: 0 <= i < |b| - 1 ==> !(b[i] == '_' && b[i + 1] == '_'))
  }

  function RemoveUnderscores(b: string): (d: string)
    requires forall i :: 0 <= i < |b| ==> IsHexDigit(b[i]) || b[i] == '_'
    ensures AllHexDigits(d)
  {
    if b == [] then [] else (if b[0] == '_' then [] else [b[0]]) + RemoveUnderscores(b[1..])
  }

  /** The digits after an optional `0x`/`0X` prefix, which may be followed by one underscore. */
  function AfterPrefix(u: string): string
  {
    if |u| >= 2 && u[0] == '0' && (u[1] == 'x' || u[1] == 'X') then
      if |u| >= 3 && u[2] == '_' then u[3..] else u[2..]
    else u
  }

  /** CPython's `int(s, 16)`: surrounding whitespace, an optional sign, an optional `0x` prefix
      and digits with single underscores; `None` where Python raises ValueError. */
  function ParseHexInt(s: string): Option<int>
  {
    var t := TrimIntSpaceRight(TrimIntSpaceLeft(s));
    var signed := |t| > 0 && (t[0] == '+' || t[0] == '-');
    var body := AfterPrefix(if signed then t[1..] else t);
    if !WellFormedDigits(body) then None
    else
      var v: int := DigitsValue(RemoveUnderscores(body));
      Some(if signed && t[0] == '-' then -v else v)
  }

  lemma {:induction false} RemoveUnderscoresNone(b: string)
    requires AllHexDigits(b)
    ensures RemoveUnderscores(b) == b
  {
    if b != [] {
      RemoveUnderscoresNone(b[1..]);
    }
  }

  /** A plain non-empty run of hex digits parses as its value. */
  lemma ParseDigitsOnly(h: string)
    requires |h| > 0 && AllHexDigits(h)
    ensures ParseHexInt(h) == Some(DigitsValue(h))
  {
    assert !IsIntSpace(h[0]) && !IsIntSpace(h[|h| - 1]);
    assert TrimIntSpaceLeft(h) == h;
    assert TrimIntSpaceRight(h) == h;
    assert !(h[0] == '+' || h[0] == '-');
    assert |h| >= 2 ==> h[1] != 'x' && h[1] != 'X';
    assert AfterPrefix(h) == h;
    assert WellFormedDigits(h);
    RemoveUnderscoresNone(h);
  }

  /** `int(bs.hex(), 16) == int.from_bytes(bs, "big")` for a non-empty `bs`. */
  lemma ParseHexDigest(bs: seq<Byte>)
    requires |bs| > 0
    ensures ParseHexInt(HexDigest(bs)) == Some(BigEndian(bs))
  {
    ParseDigitsOnly(HexDigest(bs));
    HexDigestValue(bs);
  }

  /** `int(format(n, "0{width}x"), 16) == n` for every width that holds `n`. */
  lemma ParseHexFixed(n: nat, width: nat)
    requires 0 < width && n < Pow16(width)
    ensures ParseHexInt(HexFixed(n, width)) == Some(n)
  {
    ParseDigitsOnly(HexFixed(n, width));
    HexFixedValue(n, width);
  }
}
