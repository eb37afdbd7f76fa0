/** JSON text (RFC 8259) as CPython's `json` module writes and reads it, for flat objects whose
    values are strings or null: `json.dumps(d, separators=(",", ":"), sort_keys=True)` with its
    default `ensure_ascii`, and `json.loads`. */
module Json {
  import opened Wrappers
  import opened Chars
  import opened Hex
  import opened Dicts

  const Backspace: char := 8 as char
  const FormFeed: char := 12 as char

  /** `\uXXXX` with four lower-case hex digits. */
  function UnicodeEscape(n: nat): (s: string)
    requires n < 0x10000
    ensures |s| == 6 && IsAsciiString(s)
  {
    var h := HexFixed(n, 4);
    assert forall i :: 0 <= i < 4 ==> IsLowerHexDigit(h[i]);
    "\\u" + h
  }

  /** The text `ensure_ascii` writes for one character: the two-character escapes of `"`, `\`
      and five control characters, printable ASCII as itself, and anything else as `\uXXXX`,
      as a surrogate pair above U+FFFF. */
  function EscapeChar(c: char): (s: string)
    ensures |s| > 0 && IsAsciiString(s)
  {
    if c == '"' then "\\\""
    else if c == '\\' then "\\\\"
    else if c == '\n' then "\\n"
    else if c == '\r' then "\\r"
    else if c == '\t' then "\\t"
    else if c == Backspace then "\\b"
    else if c == FormFeed then "\\f"
    else if ' ' <= c <= '~' then [c]
    else if c as int < 0x10000 then UnicodeEscape(c as int)
    else
      var n := c as int - 0x10000;
      UnicodeEscape(0xD800 + n / 0x400) + UnicodeEscape(0xDC00 + n % 0x400)
  }

  function EscapeString(s: string): (t: string)
    ensures IsAsciiString(t)
  {
    if s == [] then [] else EscapeChar(s[0]) + EscapeString(s[1..])
  }

  /** A string as a JSON string literal. */
  function Quote(s: string): (t: string)
    ensures IsAsciiString(t)
  {
    "\"" + EscapeString(s) + "\""
  }

  function ValueText(v: Value): (t: string)
    ensures |t| > 0 && IsAsciiString(t)
  {
    match v
    case Str(s) => Quote(s)
    case Null => "null"
  }

  /** The members of an object, `"key":value`, separated by commas. */
  function MembersText(items: Dict): (t: string)
    ensures IsAsciiString(t)
  {
    if items == [] then []
    else
      var m := Quote(items[0].0) + ":" + ValueText(items[0].1);
      if |items| == 1 then m else m + "," + MembersText(items[1..])
  }

  /** `json.dumps(d, separators=(",", ":"), sort_keys=True)`. */
  function Dumps(d: Dict): (t: string)
    ensures IsAsciiString(t)
  {
    "{" + MembersText(SortItems(d)) + "}"
  }

  /** The dumped text depends only on the dictionary's items, not on their insertion order. */
  lemma DumpsOrderIndependent(d1: Dict, d2: Dict)
    requires DistinctKeys(d1) && DistinctKeys(d2) && SameItems(d1, d2)
    ensures Dumps(d1) == Dumps(d2)
  {
    SortItemsOrderIndependent(d1, d2);
  }

  // Reading

  /** The four characters JSON allows between tokens. */
  predicate IsJsonSpace(c: char)
  {
    c == ' ' || c == '\t' || c == '\n' || c == '\r'
  }

  function SkipSpace(s: string): (t: string)
    ensures |t| <= |s|
    ensures t == [] || !IsJsonSpace(t[0])
  {
    if s != [] && IsJsonSpace(s[0]) then SkipSpace(s[1..]) else s
  }

  /** Four hex digits, in either case, and what follows them. */
  function ParseHex4(s: string): (r: Option<(nat, string)>)
    ensures r.Some? ==> r.value.0 < 0x10000 && |r.value.1| == |s| - 4
  {
    if |s| >= 4 && IsHexDigit(s[0]) && IsHexDigit(s[1]) && IsHexDigit(s[2]) && IsHexDigit(s[3]) then
      assert AllHexDigits(s[..4]);
      assert Pow16(4) == 0x10000;
      Some((DigitsValue(s[..4]), s[4..]))
    else None
  }

  /** The character of a backslash escape (the text after the backslash), and what follows it;
      `None` where `json.loads` raises JSONDecodeError, or where `\uXXXX` leaves a surrogate
      without its partner. */
  function ParseEscape(s: string): (r: Option<(char, string)>)
    ensures r.Some? ==> |r.value.1| < |s|
  {
    if s == [] then None
    else if s[0] == '"' then Some(('"', s[1..]))
    else if s[0] == '\\' then Some(('\\', s[1..]))
    else if s[0] == '/' then Some(('/', s[1..]))
    else if s[0] == 'b' then Some((Backspace, s[1..]))
    else if s[0] == 'f' then Some((FormFeed, s[1..]))
    else if s[0] == 'n' then Some(('\n', s[1..]))
    else if s[0] == 'r' then Some(('\r', s[1..]))
    else if s[0] == 't' then Some(('\t', s[1..]))
    else if s[0] == 'u' then
      match ParseHex4(s[1..])
      case None => None
      case Some((n, rest)) =>
        if 0xD800 <= n < 0xDC00 then
          if |rest| >= 2 && rest[0] == '\\' && rest[1] == 'u' then
            match ParseHex4(rest[2..])
            case None => None
            case Some((m, rest2)) =>
              if 0xDC00 <= m < 0xE000 then Some(((0x10000 + (n - 0xD800) * 0x400 + (m - 0xDC00)) as char, rest2))
              else None
          else None
        else if 0xDC00 <= n < 0xE000 then None
        else Some((n as char, rest))
    else None
  }

  /** The body of a string literal up to its closing quote, and what follows the quote;
      `None` for an unterminated string, a bad escape or a raw control character. */
  function ParseChars(s: string): (r: Option<(string, string)>)
    ensures r.Some? ==> |r.value.1| < |s|
    decreases |s|
  {
    if s == [] then None
    else if s[0] == '"' then Some(([], s[1..]))
    else if s[0] == '\\' then
      match ParseEscape(s[1..])
      case None => None
      case Some((c, rest)) =>
        match ParseChars(rest)
        case None => None
        case Some((t, r)) => Some(([c] + t, r))
    else if (s[0] as int) < 0x20 then None
    else
      match ParseChars(s[1..])
      case None => None
      case Some((t, r)) => Some(([s[0]] + t, r))
  }

  function ParseString(s: string): (r: Option<(string, string)>)
    ensures r.Some? ==> |r.value.1| < |s|
  {
    if s != [] && s[0] == '"' then ParseChars(s[1..]) else None
  }

  /** A string or `null`; any other JSON value is outside the model and gives `None`. */
  function ParseValue(s: string): (r: Option<(Value, string)>)
    ensures r.Some? ==> |r.value.1| < |s|
  {
    if |s| >= 4 && s[..4] == "null" then Some((Null, s[4..]))
    else
      match ParseString(s)
      case None => None
      case Some((t, rest)) => Some((Str(t), rest))
  }

  /** One member, `"key" : value`, with the space around its colon and after its value. */
  function ParseMember(s: string): (r: Option<(Item, string)>)
    ensures r.Some? ==> |r.value.1| < |s|
  {
    match ParseString(s)
    case None => None
    case Some((k, r1)) =>
      var r2 := SkipSpace(r1);
      if r2 == [] || r2[0] != ':' then None
      else
        match ParseValue(SkipSpace(r2[1..]))
        case None => None
        case Some((v, r3)) => Some(((k, v), SkipSpace(r3)))
  }

  /** The members of an object and its closing brace, and what follows the brace. */
  function ParseMembers(s: string): (r: Option<(Dict, string)>)
    ensures r.Some? ==> |r.value.1| < |s|
    decreases |s|
  {
    match ParseMember(s)
    case None => None
    case Some((item, r)) =>
      if r == [] then None
      else if r[0] == '}' then Some(([item], r[1..]))
      else if r[0] == ',' then
        match ParseMembers(SkipSpace(r[1..]))
        case None => None
        case Some((items, rest)) => Some(([item] + items, rest))
      else None
  }

  function ParseObject(s: string): Option<(Dict, string)>
  {
    if s == [] || s[0] != '{' then None
    else
      var t := SkipSpace(s[1..]);
      if t != [] && t[0] == '}' then Some(([], t[1..])) else ParseMembers(t)
  }

  /** `json.loads(text)` for a text holding one flat object; `None` where JSONDecodeError is
      raised (or where the text holds a JSON value the model does not cover). Of two members
      with the same key, the later one is kept. */
  function Loads(text: string): Option<map<string, Value>>
  {
    match ParseObject(SkipSpace(text))
    case None => None
    case Some((items, rest)) => if SkipSpace(rest) == [] then Some(ToMap(items)) else None
  }

  // The round trip

  lemma ParseHex4Fixed(n: nat, rest: string)
    requires n < 0x10000
    ensures ParseHex4(HexFixed(n, 4) + rest) == Some((n, rest))
  {
    var h := HexFixed(n, 4);
    assert Pow16(4) == 0x10000;
    HexFixedValue(n, 4);
    assert (h + rest)[..4] == h && (h + rest)[4..] == rest;
  }

  lemma ParseUnicodeEscape(n: nat, rest: string)
    requires n < 0x10000
    ensures (UnicodeEscape(n) + rest)[0] == '\\'
    ensures (UnicodeEscape(n) + rest)[1..] == "u" + HexFixed(n, 4) + rest
    ensures ParseHex4((UnicodeEscape(n) + rest)[2..]) == Some((n, rest))
  {
    ParseHex4Fixed(n, rest);
    assert (UnicodeEscape(n) + rest)[2..] == HexFixed(n, 4) + rest;
  }

  /** The two halves of a surrogate pair, and the code point they combine to. */
  lemma SurrogateHalves(c: char)
    requires c as int >= 0x10000
    ensures var n := c as int - 0x10000;
      var hi, lo := 0xD800 + n / 0x400, 0xDC00 + n % 0x400;
      && 0xD800 <= hi < 0xDC00 && 0xDC00 <= lo < 0xE000
      && 0x10000 + (hi - 0xD800) * 0x400 + (lo - 0xDC00) == c as int
  {
  }

  /** `\uD8xx\uDCxx` reads back as the character the pair encodes. */
  lemma ParseEscapePair(s: string, hi: nat, t: string, lo: nat, rest: string, c: char)
    requires s != [] && s[0] == 'u' && ParseHex4(s[1..]) == Some((hi, t))
    requires |t| >= 2 && t[0] == '\\' && t[1] == 'u' && ParseHex4(t[2..]) == Some((lo, rest))
    requires 0xD800 <= hi < 0xDC00 && 0xDC00 <= lo < 0xE000
    requires 0x10000 + (hi - 0xD800) * 0x400 + (lo - 0xDC00) == c as int
    ensures ParseEscape(s) == Some((c, rest))
  {
  }

  /** A character escaped above U+FFFF reads back through its surrogate pair. */
  lemma ParseSurrogatePair(c: char, rest: string)
    requires c as int >= 0x10000
    ensures EscapeChar(c)[0] == '\\'
    ensures ParseEscape((EscapeChar(c) + rest)[1..]) == Some((c, rest))
  {
    var n := c as int - 0x10000;
    var hi, lo := 0xD800 + n / 0x400, 0xDC00 + n % 0x400;
    SurrogateHalves(c);
    var e2 := UnicodeEscape(lo) + rest;
    ParseUnicodeEscape(hi, e2);
    ParseUnicodeEscape(lo, rest);
    var s := (EscapeChar(c) + rest)[1..];
    assert EscapeChar(c) + rest == UnicodeEscape(hi) + e2;
    assert s[1..] == (UnicodeEscape(hi) + e2)[2..];
    ParseEscapePair(s, hi, e2, lo, rest, c);
  }

  /** An escaped character reads back as itself. */
  lemma ParseEscapeChar(c: char, rest: string)
    ensures ParseChars(EscapeChar(c) + rest) == (match ParseChars(rest)
      case None => None
      case Some((t, r)) => Some(([c] + t, r)))
  {
    var s := EscapeChar(c) + rest;
    if c == '"' || c == '\\' || c == '\n' || c == '\r' || c == '\t' || c == Backspace || c == FormFeed {
      ParseShortEscape(c, rest);
    } else if ' ' <= c <= '~' {
      assert s[0] == c && s[1..] == rest;
    } else if c as int < 0x10000 {
      ParseBmpEscape(c, rest);
    } else {
      ParseSurrogatePair(c, rest);
    }
  }

  lemma ParseShortEscape(c: char, rest: string)
    requires c == '"' || c == '\\' || c == '\n' || c == '\r' || c == '\t' || c == Backspace || c == FormFeed
    ensures EscapeChar(c)[0] == '\\'
    ensures ParseEscape((EscapeChar(c) + rest)[1..]) == Some((c, rest))
  {
    var s := EscapeChar(c) + rest;
    assert |EscapeChar(c)| == 2 && s[2..] == rest;
    assert s[1..][1..] == rest;
  }

  lemma ParseBmpEscape(c: char, rest: string)
    requires !(' ' <= c <= '~') && c as int < 0x10000
    requires !(c == '"' || c == '\\' || c == '\n' || c == '\r' || c == '\t' || c == Backspace || c == FormFeed)
    ensures EscapeChar(c)[0] == '\\'
    ensures ParseEscape((EscapeChar(c) + rest)[1..]) == Some((c, rest))
  {
    var s := EscapeChar(c) + rest;
    ParseUnicodeEscape(c as int, rest);
    assert s[1..][1..] == s[2..];
  }

  /** The escaped text of a string, followed by a quote, reads back as the string. */
  lemma {:induction false} ParseEscapeString(s: string, rest: string)
    ensures ParseChars(EscapeString(s) + "\"" + rest) == Some((s, rest))
  {
    if s == [] {
      assert EscapeString(s) + "\"" + rest == "\"" + rest;
    } else {
      var tail := EscapeString(s[1..]) + "\"" + rest;
      assert EscapeString(s) + "\"" + rest == EscapeChar(s[0]) + tail;
      ParseEscapeChar(s[0], tail);
      ParseEscapeString(s[1..], rest);
      assert [s[0]] + s[1..] == s;
    }
  }

  lemma ParseQuote(s: string, rest: string)
    ensures ParseString(Quote(s) + rest) == Some((s, rest))
  {
    ParseEscapeString(s, rest);
    assert (Quote(s) + rest)[1..] == EscapeString(s) + "\"" + rest;
  }

  lemma ParseValueText(v: Value, rest: string)
    ensures ParseValue(ValueText(v) + rest) == Some((v, rest))
  {
    match v
    case Null =>
      assert (ValueText(v) + rest)[..4] == "null" && (ValueText(v) + rest)[4..] == rest;
    case Str(s) =>
      ParseQuote(s, rest);
      assert (ValueText(v) + rest)[0] == '"';
  }

  lemma SkipNoSpace(s: string)
    requires s != [] && !IsJsonSpace(s[0])
    ensures SkipSpace(s) == s
  {
  }

  /** A member reads back from its parts: the key's string, the colon, the value. */
  lemma ParseMemberParts(s: string, k: string, r1: string, v: Value, tail: string)
    requires ParseString(s) == Some((k, r1))
    requires |r1| > 1 && r1[0] == ':' && !IsJsonSpace(r1[1])
    requires ParseValue(r1[1..]) == Some((v, tail))
    requires tail != [] && !IsJsonSpace(tail[0])
    ensures ParseMember(s) == Some(((k, v), tail))
  {
    SkipNoSpace(r1);
    SkipNoSpace(r1[1..]);
    SkipNoSpace(tail);
  }

  /** A value's text starts with a quote or with the `n` of `null`. */
  lemma ValueTextStart(v: Value, rest: string)
    ensures ValueText(v) + rest != [] && !IsJsonSpace((ValueText(v) + rest)[0])
  {
  }

  /** One member's text reads back as the member. */
  lemma ParseMemberText(k: string, v: Value, tail: string)
    requires tail != [] && !IsJsonSpace(tail[0])
    ensures ParseMember(Quote(k) + ":" + ValueText(v) + tail) == Some(((k, v), tail))
  {
    var x := ValueText(v) + tail;
    var r1 := ":" + x;
    assert Quote(k) + ":" + ValueText(v) + tail == Quote(k) + r1;
    ParseQuote(k, r1);
    assert r1[1..] == x;
    ValueTextStart(v, tail);
    ParseValueText(v, tail);
    ParseMemberParts(Quote(k) + r1, k, r1, v, tail);
  }

  /** The last member: its closing brace ends the members. */
  lemma ParseMembersLast(s: string, item: Item, rest: string)
    requires ParseMember(s) == Some((item, "}" + rest))
    ensures ParseMembers(s) == Some(([item], rest))
  {
    assert ("}" + rest)[1..] == rest;
  }

  /** A member followed by a comma and the remaining members. */
  lemma ParseMembersMore(s: string, item: Item, next: string, items: Dict, rest: string)
    requires ParseMember(s) == Some((item, "," + next))
    requires next != [] && !IsJsonSpace(next[0])
    requires ParseMembers(next) == Some((items, rest))
    ensures ParseMembers(s) == Some(([item] + items, rest))
  {
    assert ("," + next)[1..] == next;
    SkipNoSpace(next);
  }

  lemma ParseOneMemberText(items: Dict, rest: string)
    requires |items| == 1
    ensures ParseMembers(MembersText(items) + "}" + rest) == Some((items, rest))
  {
    var k, v := items[0].0, items[0].1;
    var s := MembersText(items) + "}" + rest;
    assert s == Quote(k) + ":" + ValueText(v) + ("}" + rest);
    ParseMemberText(k, v, "}" + rest);
    ParseMembersLast(s, (k, v), rest);
    assert items == [(k, v)];
  }

  /** The members' text and the closing brace read back as the members. */
  lemma {:induction false} ParseMembersText(items: Dict, rest: string)
    requires items != []
    ensures ParseMembers(MembersText(items) + "}" + rest) == Some((items, rest))
  {
    var k, v := items[0].0, items[0].1;
    var s := MembersText(items) + "}" + rest;
    if |items| == 1 {
      ParseOneMemberText(items, rest);
    } else {
      var next := MembersText(items[1..]) + "}" + rest;
      CommaShape(Quote(k) + ":" + ValueText(v), MembersText(items[1..]), rest);
      ParseMemberText(k, v, "," + next);
      MembersStartWithQuote(items[1..]);
      assert next[0] == MembersText(items[1..])[0];
      ParseMembersText(items[1..], rest);
      ParseMembersMore(s, (k, v), next, items[1..], rest);
      HeadTail(items);
    }
  }

  /** How a comma-separated text, and what follows it, splits at its first comma. */
  lemma CommaShape(a: string, b: string, rest: string)
    ensures a + "," + b + "}" + rest == a + ("," + (b + "}" + rest))
  {
  }

  lemma MembersStartWithQuote(items: Dict)
    requires items != []
    ensures |MembersText(items)| > 0 && MembersText(items)[0] == '"'
  {
  }

  /** An object with members reads back from its brace and its members. */
  lemma ParseObjectParts(text: string, items: Dict)
    requires |text| > 1 && text[0] == '{' && text[1] == '"'
    requires ParseMembers(text[1..]) == Some((items, ""))
    ensures ParseObject(text) == Some((items, ""))
  {
    SkipNoSpace(text[1..]);
  }

  lemma InsideBraces(m: string)
    ensures ("{" + m + "}")[1..] == m + "}" + ""
    ensures m != [] ==> ("{" + m + "}")[1] == m[0]
  {
  }

  /** An object's text, from its opening brace, reads back as its members. */
  lemma ParseObjectText(items: Dict)
    ensures ParseObject("{" + MembersText(items) + "}") == Some((items, ""))
  {
    if items == [] {
      ParseEmptyObjectText();
    } else {
      var text := "{" + MembersText(items) + "}";
      ParseMembersText(items, "");
      MembersStartWithQuote(items);
      InsideBraces(MembersText(items));
      ParseObjectParts(text, items);
    }
  }

  lemma ParseEmptyObjectText()
    ensures ParseObject("{" + MembersText([]) + "}") == Some(([], ""))
  {
    InsideBraces(MembersText([]));
    var text := "{" + MembersText([]) + "}";
    assert text[1..] == "}" && text[1..][1..] == "";
    SkipNoSpace(text[1..]);
  }

  /** `json.loads(json.dumps(d, separators=(",", ":"), sort_keys=True)) == d` for a flat
      dictionary of strings and nulls. */
  lemma LoadsDumps(d: Dict)
    requires DistinctKeys(d)
    ensures Loads(Dumps(d)) == Some(ToMap(d))
  {
    ToMapSortItems(d);
    ParseObjectText(SortItems(d));
    SkipNoSpace(Dumps(d));
  }
}
