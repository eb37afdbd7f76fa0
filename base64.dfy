/** Base64 (RFC 4648): `base64.b64encode`, `base64.urlsafe_b64encode` and
    `base64.urlsafe_b64decode`, whose decoder is CPython's non-strict `binascii.a2b_base64`. */
module Base64 {
  import opened Wrappers
  import opened Bytes
  import opened Chars

  /** The two alphabets: section 4 of RFC 4648 (`+`, `/`) and section 5 (`-`, `_`). */
  datatype Alphabet = Standard | UrlSafe

  const Pad: char := '='

  /** The character for a 6-bit value. */
  function SextetChar(a: Alphabet, v: nat): (c: char)
    requires v < 64
    ensures IsAscii(c) && c != Pad
  {
    if v < 26 then ('A' as int + v) as char
    else if v < 52 then ('a' as int + v - 26) as char
    else if v < 62 then ('0' as int + v - 52) as char
    else if v == 62 then (if a == Standard then '+' else '-')
    else (if a == Standard then '/' else '_')
  }

  predicate InAlphabet(a: Alphabet, c: char)
  {
    || ('A' <= c <= 'Z') || ('a' <= c <= 'z') || ('0' <= c <= '9')
    || (a == Standard && (c == '+' || c == '/'))
    || (a == UrlSafe && (c == '-' || c == '_'))
  }

  /** The encoding of a 1-, 2- or 3-byte group: four characters, padded with `=`. */
  function Group(a: Alphabet, bs: seq<Byte>): (s: string)
    requires 1 <= |bs| <= 3
    ensures |s| == 4
  {
    var b0 := bs[0];
    if |bs| == 1 then
      [SextetChar(a, b0 / 4), SextetChar(a, (b0 % 4) * 16), Pad, Pad]
    else if |bs| == 2 then
      var b1 := bs[1];
      [SextetChar(a, b0 / 4), SextetChar(a, (b0 % 4) * 16 + b1 / 16), SextetChar(a, (b1 % 16) * 4), Pad]
    else
      var b1, b2 := bs[1], bs[2];
      [SextetChar(a, b0 / 4), SextetChar(a, (b0 % 4) * 16 + b1 / 16), SextetChar(a, (b1 % 16) * 4 + b2 / 64),
       SextetChar(a, b2 % 64)]
  }

  /** The sextets of a group put back together give its bytes. */
  lemma SextetArithmetic(b0: Byte, b1: Byte, b2: Byte)
    ensures var v0, v1, v2, v3 := b0 / 4, (b0 % 4) * 16 + b1 / 16, (b1 % 16) * 4 + b2 / 64, b2 % 64;
      && v0 * 4 + v1 / 16 == b0
      && (v1 % 16) * 16 + v2 / 4 == b1
      && (v2 % 4) * 64 + v3 == b2
  {
    var v1, v2 := (b0 % 4) * 16 + b1 / 16, (b1 % 16) * 4 + b2 / 64;
    assert v1 / 16 == b0 % 4 && v1 % 16 == b1 / 16;
    assert v2 / 4 == b1 % 16 && v2 % 4 == b2 / 64;
  }

  /** `base64.b64encode(bs)` for `Standard`, `base64.urlsafe_b64encode(bs)` for `UrlSafe`. */
  function Encode(a: Alphabet, bs: seq<Byte>): string
    decreases |bs|
  {
    if bs == [] then []
    else if |bs| <= 3 then Group(a, bs)
    else Group(a, bs[..3]) + Encode(a, bs[3..])
  }

  /** Every started group of three bytes becomes four characters: `4 * ceil(n / 3)`. */
  lemma {:induction false} EncodeLength(a: Alphabet, bs: seq<Byte>)
    ensures |Encode(a, bs)| == 4 * ((|bs| + 2) / 3)
    decreases |bs|
  {
    if |bs| > 3 {
      EncodeLength(a, bs[3..]);
      assert (|bs| + 2) / 3 == (|bs| - 3 + 2) / 3 + 1;
    }
  }

  /** A group uses only the alphabet, with `=` padding at its end alone. */
  lemma GroupAlphabet(a: Alphabet, bs: seq<Byte>)
    requires 1 <= |bs| <= 3
    ensures var g := Group(a, bs);
      && IsAsciiString(g)
      && (forall i :: 0 <= i < 4 ==> InAlphabet(a, g[i]) || g[i] == Pad)
      && (forall i :: 0 <= i < 4 && g[i] == Pad ==> |bs| < 3 && i >= |bs| + 1)
  {
    var g := Group(a, bs);
    forall i | 0 <= i < 4 && g[i] != Pad ensures InAlphabet(a, g[i]) {
      var b0 := bs[0];
      var b1 := if |bs| > 1 then bs[1] else 0;
      var b2 := if |bs| > 2 then bs[2] else 0;
      var v := if i == 0 then b0 / 4 else if i == 1 then (b0 % 4) * 16 + b1 / 16
        else if i == 2 then (b1 % 16) * 4 + b2 / 64 else b2 % 64;
      assert g[i] == SextetChar(a, v);
      CharInAlphabet(a, v);
    }
  }

  lemma CharInAlphabet(a: Alphabet, v: nat)
    requires v < 64
    ensures InAlphabet(a, SextetChar(a, v))
  {
  }

  /** The encoding uses only the alphabet, with `=` padding in its last two places alone. */
  lemma {:induction false} EncodeAlphabet(a: Alphabet, bs: seq<Byte>)
    ensures var s := Encode(a, bs);
      && IsAsciiString(s)
      && (forall i :: 0 <= i < |s| ==> InAlphabet(a, s[i]) || s[i] == Pad)
      && (forall i :: 0 <= i < |s| && s[i] == Pad ==> i >= |s| - 2)
    decreases |bs|
  {
    if 0 < |bs| <= 3 {
      GroupAlphabet(a, bs);
    } else if |bs| > 3 {
      GroupAlphabet(a, bs[..3]);
      EncodeAlphabet(a, bs[3..]);
      var g, r := Group(a, bs[..3]), Encode(a, bs[3..]);
      assert Encode(a, bs) == g + r;
      forall i | 0 <= i < |g + r|
        ensures IsAscii((g + r)[i]) && (InAlphabet(a, (g + r)[i]) || (g + r)[i] == Pad)
        ensures (g + r)[i] == Pad ==> i >= |g + r| - 2
      {
        if i >= 4 {
          assert (g + r)[i] == r[i - 4];
        }
      }
    }
  }

  /** `binascii`'s decoding table: the value of a standard-alphabet byte. */
  function Sextet(b: Byte): (r: Option<nat>)
    ensures r.Some? ==> r.value < 64
  {
    if 65 <= b <= 90 then Some(b - 65)
    else if 97 <= b <= 122 then Some(b - 97 + 26)
    else if 48 <= b <= 57 then Some(b - 48 + 52)
    else if b == 43 then Some(62)
    else if b == 47 then Some(63)
    else None
  }

  /** `urlsafe_b64decode` first maps `-` to `+` and `_` to `/`. */
  function Translate(bs: seq<Byte>): (t: seq<Byte>)
    ensures |t| == |bs|
  {
    seq(|bs|, i requires 0 <= i < |bs| => if bs[i] == 45 then 43 else if bs[i] == 95 then 47 else bs[i])
  }

  /** The bits left over from the last character, which depend on the position in the quad. */
  predicate LeftFits(quadPos: nat, left: nat)
  {
    && quadPos < 4
    && (quadPos == 1 ==> left < 64)
    && (quadPos == 2 ==> left < 16)
    && (quadPos == 3 ==> left < 4)
  }

  function Prepend(b: Byte, r: Option<seq<Byte>>): Option<seq<Byte>>
  {
    match r
    case None => None
    case Some(t) => Some([b] + t)
  }

  /** `binascii.a2b_base64(bs)` without strict mode, from the state `(quadPos, left, pads)`: bytes
      outside the alphabet are skipped, a `=` ends the input once it completes a quad, and input
      that ends inside a quad is an error (`None`, where binascii.Error is raised). */
  function A2b(bs: seq<Byte>, quadPos: nat, left: nat, pads: nat): Option<seq<Byte>>
    requires LeftFits(quadPos, left)
    decreases |bs|
  {
    if bs == [] then (if quadPos == 0 then Some([]) else None)
    else if bs[0] == 61 then
      if quadPos >= 2 && quadPos + pads + 1 >= 4 then Some([])
      else A2b(bs[1..], quadPos, left, if quadPos >= 2 then pads + 1 else pads)
    else
      match Sextet(bs[0])
      case None => A2b(bs[1..], quadPos, left, pads)
      case Some(v) =>
        if quadPos == 0 then A2b(bs[1..], 1, v, 0)
        else if quadPos == 1 then Prepend(left * 4 + v / 16, A2b(bs[1..], 2, v % 16, 0))
        else if quadPos == 2 then Prepend(left * 16 + v / 4, A2b(bs[1..], 3, v % 4, 0))
        else Prepend(left * 64 + v, A2b(bs[1..], 0, 0, 0))
  }

  /** `base64.urlsafe_b64decode(bs)`; `None` where binascii.Error is raised. */
  function UrlSafeDecode(bs: seq<Byte>): Option<seq<Byte>>
  {
    A2b(Translate(bs), 0, 0, 0)
  }

  /** The byte values of an ASCII string, which are also its UTF-8 encoding. */
  function Codes(s: string): (bs: seq<Byte>)
    requires IsAsciiString(s)
    ensures |bs| == |s|
  {
    seq(|s|, i requires 0 <= i < |s| => s[i] as int)
  }

  lemma SextetOfChar(v: nat)
    requires v < 64
    ensures var b := SextetChar(UrlSafe, v) as int;
      Sextet(if b == 45 then 43 else if b == 95 then 47 else b) == Some(v)
  {
  }

  /** A translated sextet character is read as its value, and is not `=`. */
  lemma SextetAt(t: seq<Byte>, k: nat, v: nat, c: char)
    requires v < 64 && c == SextetChar(UrlSafe, v)
    requires k < |t| && t[k] == (var b := c as int; if b == 45 then 43 else if b == 95 then 47 else b)
    ensures Sextet(t[k]) == Some(v) && t[k] != 61
  {
    SextetOfChar(v);
  }

  /** The bytes of a full group, translated, decode to its three bytes. */
  lemma GroupBytes(g: seq<Byte>, rest: seq<Byte>, v0: nat, v1: nat, v2: nat, v3: nat)
    requires v0 < 64 && v1 < 64 && v2 < 64 && v3 < 64
    requires |g| == 4
    requires g[0] == SextetChar(UrlSafe, v0) as int && g[1] == SextetChar(UrlSafe, v1) as int
    requires g[2] == SextetChar(UrlSafe, v2) as int && g[3] == SextetChar(UrlSafe, v3) as int
    ensures A2b(Translate(g + rest), 0, 0, 0)
      == Prepend(v0 * 4 + v1 / 16, Prepend((v1 % 16) * 16 + v2 / 4, Prepend((v2 % 4) * 64 + v3, A2b(Translate(rest), 0, 0, 0))))
  {
    var t := Translate(g + rest);
    SextetAt(t, 0, v0, SextetChar(UrlSafe, v0));
    SextetAt(t, 1, v1, SextetChar(UrlSafe, v1));
    SextetAt(t, 2, v2, SextetChar(UrlSafe, v2));
    SextetAt(t, 3, v3, SextetChar(UrlSafe, v3));
    assert t[4..] == Translate(rest);
    assert A2b(t, 0, 0, 0) == A2b(t[1..], 1, v0, 0);
    assert A2b(t[1..], 1, v0, 0) == Prepend(v0 * 4 + v1 / 16, A2b(t[2..], 2, v1 % 16, 0)) by {
      assert t[1..][0] == t[1] && t[1..][1..] == t[2..];
    }
    assert A2b(t[2..], 2, v1 % 16, 0) == Prepend((v1 % 16) * 16 + v2 / 4, A2b(t[3..], 3, v2 % 4, 0)) by {
      assert t[2..][0] == t[2] && t[2..][1..] == t[3..];
    }
    assert A2b(t[3..], 3, v2 % 4, 0) == Prepend((v2 % 4) * 64 + v3, A2b(t[4..], 0, 0, 0)) by {
      assert t[3..][0] == t[3] && t[3..][1..] == t[4..];
    }
  }

  /** Decoding a full group of three bytes gives them back ahead of the rest. */
  lemma DecodeFullGroup(bs: seq<Byte>, rest: seq<Byte>)
    requires |bs| == 3
    ensures IsAsciiString(Group(UrlSafe, bs))
    ensures A2b(Translate(Codes(Group(UrlSafe, bs)) + rest), 0, 0, 0)
      == Prepend(bs[0], Prepend(bs[1], Prepend(bs[2], A2b(Translate(rest), 0, 0, 0))))
  {
    GroupAlphabet(UrlSafe, bs);
    var b0, b1, b2 := bs[0], bs[1], bs[2];
    var v0, v1, v2, v3 := b0 / 4, (b0 % 4) * 16 + b1 / 16, (b1 % 16) * 4 + b2 / 64, b2 % 64;
    var g := Codes(Group(UrlSafe, bs));
    assert g[0] == SextetChar(UrlSafe, v0) as int && g[1] == SextetChar(UrlSafe, v1) as int;
    assert g[2] == SextetChar(UrlSafe, v2) as int && g[3] == SextetChar(UrlSafe, v3) as int;
    GroupBytes(g, rest, v0, v1, v2, v3);
    SextetArithmetic(b0, b1, b2);
  }

  /** Decoding the padded group of the last byte gives it back and stops. */
  lemma DecodeLastOne(bs: seq<Byte>)
    requires |bs| == 1
    ensures IsAsciiString(Group(UrlSafe, bs))
    ensures A2b(Translate(Codes(Group(UrlSafe, bs))), 0, 0, 0) == Some(bs)
  {
    GroupAlphabet(UrlSafe, bs);
    var t := Translate(Codes(Group(UrlSafe, bs)));
    var b0 := bs[0];
    var v0, v1 := b0 / 4, (b0 % 4) * 16;
    SextetAt(t, 0, v0, SextetChar(UrlSafe, v0));
    SextetAt(t, 1, v1, SextetChar(UrlSafe, v1));
    SextetArithmetic(b0, 0, 0);
    assert t[2] == 61 && t[3] == 61;
    assert A2b(t[3..], 2, v1 % 16, 1) == Some([]);
    assert A2b(t[2..], 2, v1 % 16, 0) == Some([]) by {
      assert t[2..][0] == t[2] && t[2..][1..] == t[3..];
    }
    assert A2b(t[1..], 1, v0, 0) == Prepend(v0 * 4 + v1 / 16, A2b(t[2..], 2, v1 % 16, 0)) by {
      assert t[1..][0] == t[1] && t[1..][1..] == t[2..];
    }
    assert A2b(t, 0, 0, 0) == A2b(t[1..], 1, v0, 0);
    assert v0 * 4 + v1 / 16 == b0;
    assert [b0] + [] == bs;
  }

  /** Decoding the padded group of the last two bytes gives them back and stops. */
  lemma DecodeLastTwo(bs: seq<Byte>)
    requires |bs| == 2
    ensures IsAsciiString(Group(UrlSafe, bs))
    ensures A2b(Translate(Codes(Group(UrlSafe, bs))), 0, 0, 0) == Some(bs)
  {
    GroupAlphabet(UrlSafe, bs);
    var g := Codes(Group(UrlSafe, bs));
    var b0, b1 := bs[0], bs[1];
    var v0, v1, v2 := b0 / 4, (b0 % 4) * 16 + b1 / 16, (b1 % 16) * 4;
    assert g[0] == SextetChar(UrlSafe, v0) as int && g[1] == SextetChar(UrlSafe, v1) as int;
    assert g[2] == SextetChar(UrlSafe, v2) as int && g[3] == 61;
    PaddedPair(g, v0, v1, v2);
    SextetArithmetic(b0, b1, 0);
    assert [b1] + [] == [b1] && [b0] + [b1] == bs;
  }

  /** Three sextets and one `=` decode to two bytes. */
  lemma PaddedPair(g: seq<Byte>, v0: nat, v1: nat, v2: nat)
    requires v0 < 64 && v1 < 64 && v2 < 64
    requires |g| == 4
    requires g[0] == SextetChar(UrlSafe, v0) as int && g[1] == SextetChar(UrlSafe, v1) as int
    requires g[2] == SextetChar(UrlSafe, v2) as int && g[3] == 61
    ensures A2b(Translate(g), 0, 0, 0) == Prepend(v0 * 4 + v1 / 16, Prepend((v1 % 16) * 16 + v2 / 4, Some([])))
  {
    var t := Translate(g);
    SextetAt(t, 0, v0, SextetChar(UrlSafe, v0));
    SextetAt(t, 1, v1, SextetChar(UrlSafe, v1));
    SextetAt(t, 2, v2, SextetChar(UrlSafe, v2));
    assert t[3] == 61;
    assert A2b(t[3..], 3, v2 % 4, 0) == Some([]);
    assert A2b(t[2..], 2, v1 % 16, 0) == Prepend((v1 % 16) * 16 + v2 / 4, A2b(t[3..], 3, v2 % 4, 0)) by {
      assert t[2..][0] == t[2] && t[2..][1..] == t[3..];
    }
    assert A2b(t[1..], 1, v0, 0) == Prepend(v0 * 4 + v1 / 16, A2b(t[2..], 2, v1 % 16, 0)) by {
      assert t[1..][0] == t[1] && t[1..][1..] == t[2..];
    }
  }

  lemma CodesAppend(a: string, b: string)
    requires IsAsciiString(a) && IsAsciiString(b)
    ensures IsAsciiString(a + b) && Codes(a + b) == Codes(a) + Codes(b)
  {
  }

  /** `urlsafe_b64decode(urlsafe_b64encode(bs)) == bs`: decoding inverts encoding. */
  lemma {:induction false} DecodeEncode(bs: seq<Byte>)
    ensures IsAsciiString(Encode(UrlSafe, bs))
    ensures UrlSafeDecode(Codes(Encode(UrlSafe, bs))) == Some(bs)
    decreases |bs|
  {
    EncodeAlphabet(UrlSafe, bs);
    if |bs| == 1 {
      DecodeLastOne(bs);
    } else if |bs| == 2 {
      DecodeLastTwo(bs);
    } else if |bs| == 3 {
      var g := Group(UrlSafe, bs);
      assert Encode(UrlSafe, bs) == g;
      DecodeFullGroup(bs, []);
      assert Codes(g) + [] == Codes(g);
      assert A2b(Translate([]), 0, 0, 0) == Some([]);
      assert [bs[0]] + ([bs[1]] + ([bs[2]] + [])) == bs;
    } else if |bs| > 3 {
      DecodeEncode(bs[3..]);
      assert Encode(UrlSafe, bs) == Group(UrlSafe, bs[..3]) + Encode(UrlSafe, bs[3..]);
      DecodeGroups(bs[..3], Encode(UrlSafe, bs[3..]), bs[3..]);
      assert bs[..3] + bs[3..] == bs;
    }
  }

  lemma DecodeGroups(head: seq<Byte>, r: string, tail: seq<Byte>)
    requires |head| == 3 && IsAsciiString(r)
    requires A2b(Translate(Codes(r)), 0, 0, 0) == Some(tail)
    ensures IsAsciiString(Group(UrlSafe, head) + r)
    ensures A2b(Translate(Codes(Group(UrlSafe, head) + r)), 0, 0, 0) == Some(head + tail)
  {
    var g := Group(UrlSafe, head);
    GroupAlphabet(UrlSafe, head);
    CodesAppend(g, r);
    DecodeFullGroup(head, Codes(r));
    assert [head[0]] + ([head[1]] + ([head[2]] + tail)) == head + tail;
  }
}
