/** Python's `repr()` of a list of `(str, str | None)` pairs, the message the payload signer
    authenticates, and a reader that takes the text back apart. */
module PyRepr {
  import opened Wrappers
  import opened Chars
  import opened Hex
  import opened Dicts

  /** The quote `repr()` puts around a string: `"` when the string holds a `'` and no `"`,
      otherwise `'`. */
  function QuoteFor(s: string): (q: char)
    ensures q == '\'' || q == '"'
    ensures q == '"' <==> ('\'' in s && '"' !in s)
  {
    if '\'' in s && '"' !in s then '"' else '\''
  }

  /** A code point as `\x`, `\u` or `\U` and a fixed number of lower-case hex digits. */
  function HexEscape(tag: char, n: nat, width: nat): (t: string)
    ensures |t| == width + 2 && t[0] == '\\' && t[1] == tag
  {
    ['\\', tag] + HexFixed(n, width)
  }

  /** The text `repr()` writes for one character of a string quoted with `q`: the quote and the
      backslash escaped, `\t` `\n` `\r`, other ASCII control characters and DEL as `\xhh`,
      printable characters as themselves, and other non-ASCII characters as `\xhh`, `\uhhhh` or
      `\Uhhhhhhhh` by size. */
  function EscapeChar(u: UnicodeTables, q: char, c: char): (t: string)
    ensures |t| > 0
    ensures t[0] != '\\' ==> t == [c] && c != q && c != '\\'
  {
    if c == q || c == '\\' then ['\\', c]
    else if c == '\t' then "\\t"
    else if c == '\n' then "\\n"
    else if c == '\r' then "\\r"
    else if c < ' ' || c as int == 0x7F then HexEscape('x', c as int, 2)
    else if c as int < 0x7F then [c]
    else if u.printable(c) then [c]
    else if c as int <= 0xFF then HexEscape('x', c as int, 2)
    else if c as int <= 0xFFFF then HexEscape('u', c as int, 4)
    else HexEscape('U', c as int, 8)
  }

  function EscapeBody(u: UnicodeTables, q: char, s: string): string
  {
    if s == [] then [] else EscapeChar(u, q, s[0]) + EscapeBody(u, q, s[1..])
  }

  /** `repr(s)` for a `str`. */
  function StrRepr(u: UnicodeTables, s: string): (t: string)
    ensures |t| >= 2 && (t[0] == '\'' || t[0] == '"')
  {
    var q := QuoteFor(s);
    [q] + EscapeBody(u, q, s) + [q]
  }

  function ValueRepr(u: UnicodeTables, v: Value): (t: string)
    ensures |t| > 0 && (t[0] == 'N' || t[0] == '\'' || t[0] == '"')
  {
    match v
    case Str(s) => StrRepr(u, s)
    case Null => "None"
  }

  /** `repr((k, v))`. */
  function ItemRepr(u: UnicodeTables, item: Item): (t: string)
    ensures |t| > 0 && t[0] == '('
  {
    "(" + StrRepr(u, item.0) + ", " + ValueRepr(u, item.1) + ")"
  }

  /** The pairs' texts joined by `", "`. */
  function ItemsRepr(u: UnicodeTables, items: Dict): string
  {
    if items == [] then []
    else if |items| == 1 then ItemRepr(u, items[0])
    else ItemRepr(u, items[0]) + ", " + ItemsRepr(u, items[1..])
  }

  /** `repr(items)` for a list of pairs. */
  function ListRepr(u: UnicodeTables, items: Dict): string
  {
    "[" + ItemsRepr(u, items) + "]"
  }

  // Reading the text back

  /** `width` hex digits and what follows them. */
  function ParseHexN(s: string, width: nat): (r: Option<(nat, string)>)
    ensures r.Some? ==> |r.value.1| == |s| - width
  {
    if |s| >= width && AllHexDigits(s[..width]) then Some((DigitsValue(s[..width]), s[width..]))
    else None
  }

  /** A code point that is a Unicode scalar value, as a character. */
  function ScalarChar(n: nat): Option<char>
  {
    if n < 0xD800 || 0xE000 <= n < 0x11_0000 then Some(n as char) else None
  }

  /** The character of an escape (the text after the backslash), and what follows it. */
  function ParseEscape(s: string): (r: Option<(char, string)>)
    ensures r.Some? ==> |r.value.1| < |s|
  {
    if s == [] then None
    else if s[0] == '\\' || s[0] == '\'' || s[0] == '"' then Some((s[0], s[1..]))
    else if s[0] == 't' then Some(('\t', s[1..]))
    else if s[0] == 'n' then Some(('\n', s[1..]))
    else if s[0] == 'r' then Some(('\r', s[1..]))
    else
      var width := if s[0] == 'x' then 2 else if s[0] == 'u' then 4 else if s[0] == 'U' then 8 else 0;
      if width == 0 then None
      else
        match ParseHexN(s[1..], width)
        case None => None
        case Some((n, rest)) =>
          match ScalarChar(n)
          case None => None
          case Some(c) => Some((c, rest))
  }

  function Cons(c: char, r: Option<(string, string)>): Option<(string, string)>
  {
    match r
    case None => None
    case Some((t, rest)) => Some(([c] + t, rest))
  }

  /** The body of a string quoted with `q` up to its closing quote, and what follows it. */
  function ParseBody(q: char, s: string): (r: Option<(string, string)>)
    ensures r.Some? ==> |r.value.1| < |s|
    decreases |s|
  {
    if s == [] then None
    else if s[0] == q then Some(([], s[1..]))
    else if s[0] == '\\' then
      match ParseEscape(s[1..])
      case None => None
      case Some((c, rest)) => Cons(c, ParseBody(q, rest))
    else Cons(s[0], ParseBody(q, s[1..]))
  }

  function ParseStr(s: string): (r: Option<(string, string)>)
    ensures r.Some? ==> |r.value.1| < |s|
  {
    if s != [] && (s[0] == '\'' || s[0] == '"') then ParseBody(s[0], s[1..]) else None
  }

  function ParseValue(s: string): (r: Option<(Value, string)>)
    ensures r.Some? ==> |r.value.1| < |s|
  {
    if |s| >= 4 && s[0] == 'N' && s[1] == 'o' && s[2] == 'n' && s[3] == 'e' then Some((Null, s[4..]))
    else
      match ParseStr(s)
      case None => None
      case Some((t, rest)) => Some((Str(t), rest))
  }

  function ParseItem(s: string): (r: Option<(Item, string)>)
    ensures r.Some? ==> |r.value.1| < |s|
  {
    if s == [] || s[0] != '(' then None
    else
      match ParseStr(s[1..])
      case None => None
      case Some((k, r1)) =>
        if |r1| < 2 || r1[0] != ',' || r1[1] != ' ' then None
        else
          match ParseValue(r1[2..])
          case None => None
          case Some((v, r2)) => if r2 != [] && r2[0] == ')' then Some(((k, v), r2[1..])) else None
  }

  /** Pairs separated by `", "` up to the closing bracket, and what follows it. */
  function ParseItems(s: string): (r: Option<(Dict, string)>)
    decreases |s|
  {
    match ParseItem(s)
    case None => None
    case Some((item, r)) =>
      if r != [] && r[0] == ']' then Some(([item], r[1..]))
      else if |r| >= 2 && r[0] == ',' && r[1] == ' ' then
        match ParseItems(r[2..])
        case None => None
        case Some((items, rest)) => Some(([item] + items, rest))
      else None
  }

  function ParseList(s: string): Option<(Dict, string)>
  {
    if s == [] || s[0] != '[' then None
    else if |s| >= 2 && s[1] == ']' then Some(([], s[2..]))
    else ParseItems(s[1..])
  }

  // The round trip

  lemma ParseHexFixedText(n: nat, width: nat, rest: string)
    requires n < Pow16(width)
    ensures ParseHexN(HexFixed(n, width) + rest, width) == Some((n, rest))
  {
    var h := HexFixed(n, width);
    HexFixedValue(n, width);
    assert (h + rest)[..width] == h && (h + rest)[width..] == rest;
  }

  /** A `\x`, `\u` or `\U` escape of a character reads back as the character. */
  lemma ParseHexEscape(tag: char, width: nat, c: char, rest: string)
    requires (tag == 'x' && width == 2) || (tag == 'u' && width == 4) || (tag == 'U' && width == 8)
    requires c as int < Pow16(width)
    ensures ParseEscape((HexEscape(tag, c as int, width) + rest)[1..]) == Some((c, rest))
  {
    var h := HexFixed(c as int, width);
    EscapeShape(tag, h, rest);
    ParseHexFixedText(c as int, width, rest);
    ParseHexEscapeParts([tag] + (h + rest), tag, width, c, rest);
  }

  /** How an escape, and what follows it, splits after the backslash. */
  lemma EscapeShape(tag: char, h: string, rest: string)
    ensures (['\\', tag] + h + rest)[1..] == [tag] + (h + rest)
    ensures ([tag] + (h + rest))[0] == tag && ([tag] + (h + rest))[1..] == h + rest
  {
  }

  lemma ParseHexEscapeParts(s: string, tag: char, width: nat, c: char, rest: string)
    requires (tag == 'x' && width == 2) || (tag == 'u' && width == 4) || (tag == 'U' && width == 8)
    requires s != [] && s[0] == tag
    requires ParseHexN(s[1..], width) == Some((c as int, rest))
    ensures ParseEscape(s) == Some((c, rest))
  {
  }

  lemma Pow16Widths()
    ensures Pow16(2) == 0x100 && Pow16(4) == 0x1_0000 && Pow16(8) == 0x1_0000_0000
  {
  }

  /** Every character's escape, read inside a string quoted with `q`, gives the character back. */
  lemma ParseEscapeChar(u: UnicodeTables, q: char, c: char, rest: string)
    requires q == '\'' || q == '"'
    ensures ParseBody(q, EscapeChar(u, q, c) + rest) == Cons(c, ParseBody(q, rest))
  {
    var t := EscapeChar(u, q, c);
    if t[0] != '\\' {
      assert (t + rest)[0] == c && (t + rest)[1..] == rest;
    } else {
      EscapedCharParses(u, q, c, rest);
      ParseBackslash(q, t + rest, c, rest);
    }
  }

  /** A backslash and an escape that reads as `c`. */
  lemma ParseBackslash(q: char, s: string, c: char, rest: string)
    requires q == '\'' || q == '"'
    requires s != [] && s[0] == '\\' && ParseEscape(s[1..]) == Some((c, rest))
    ensures ParseBody(q, s) == Cons(c, ParseBody(q, rest))
  {
  }

  lemma EscapedCharParses(u: UnicodeTables, q: char, c: char, rest: string)
    requires q == '\'' || q == '"'
    requires EscapeChar(u, q, c)[0] == '\\'
    ensures ParseEscape((EscapeChar(u, q, c) + rest)[1..]) == Some((c, rest))
  {
    var t := EscapeChar(u, q, c);
    Pow16Widths();
    if c == q || c == '\\' || c == '\t' || c == '\n' || c == '\r' {
      assert |t| == 2 && (t + rest)[1..] == [t[1]] + rest;
    } else if c < ' ' || c as int == 0x7F {
      ParseHexEscape('x', 2, c, rest);
    } else if c as int <= 0xFF {
      ParseHexEscape('x', 2, c, rest);
    } else if c as int <= 0xFFFF {
      ParseHexEscape('u', 4, c, rest);
    } else {
      ParseHexEscape('U', 8, c, rest);
    }
  }

  /** The escaped body of a string, followed by the quote, reads back as the string. */
  lemma {:induction false} ParseEscapeBody(u: UnicodeTables, q: char, s: string, rest: string)
    requires q == '\'' || q == '"'
    ensures ParseBody(q, EscapeBody(u, q, s) + [q] + rest) == Some((s, rest))
  {
    if s == [] {
      assert EscapeBody(u, q, s) + [q] + rest == [q] + rest;
    } else {
      var tail := EscapeBody(u, q, s[1..]) + [q] + rest;
      assert EscapeBody(u, q, s) + [q] + rest == EscapeChar(u, q, s[0]) + tail;
      ParseEscapeChar(u, q, s[0], tail);
      ParseEscapeBody(u, q, s[1..], rest);
      assert [s[0]] + s[1..] == s;
    }
  }

  /** `repr(s)` reads back as `s`, whatever follows it. */
  lemma ParseStrRepr(u: UnicodeTables, s: string, rest: string)
    ensures ParseStr(StrRepr(u, s) + rest) == Some((s, rest))
  {
    var q := QuoteFor(s);
    var b := EscapeBody(u, q, s);
    ParseEscapeBody(u, q, s, rest);
    QuotedShape(q, b, rest);
    ParseStrParts([q] + b + [q] + rest, q);
  }

  /** How a quoted text, and what follows it, splits after the opening quote. */
  lemma QuotedShape(q: char, b: string, rest: string)
    ensures var t := [q] + b + [q] + rest;
      t != [] && t[0] == q && t[1..] == b + [q] + rest
  {
  }

  lemma ParseStrParts(t: string, q: char)
    requires q == '\'' || q == '"'
    requires t != [] && t[0] == q
    ensures ParseStr(t) == ParseBody(q, t[1..])
  {
  }

  lemma ParseValueRepr(u: UnicodeTables, v: Value, rest: string)
    ensures ParseValue(ValueRepr(u, v) + rest) == Some((v, rest))
  {
    match v
    case Null =>
      assert (ValueRepr(u, v) + rest)[4..] == rest;
    case Str(s) =>
      ParseStrRepr(u, s, rest);
      assert (ValueRepr(u, v) + rest)[0] != 'N';
  }

  /** A pair reads back from its parts. */
  lemma ParseItemParts(s: string, k: string, r1: string, v: Value, r2: string)
    requires s != [] && s[0] == '(' && ParseStr(s[1..]) == Some((k, r1))
    requires |r1| >= 2 && r1[0] == ',' && r1[1] == ' ' && ParseValue(r1[2..]) == Some((v, r2))
    requires r2 != [] && r2[0] == ')'
    ensures ParseItem(s) == Some(((k, v), r2[1..]))
  {
  }

  /** How the text of a pair, and what follows it, splits into its parts. */
  lemma ItemShape(a: string, b: string, rest: string)
    ensures var r2 := ")" + rest;
      var r1 := ", " + b + r2;
      var s := "(" + a + ", " + b + ")" + rest;
      && s != [] && s[0] == '(' && s[1..] == a + r1
      && |r1| >= 2 && r1[0] == ',' && r1[1] == ' ' && r1[2..] == b + r2
      && r2 != [] && r2[0] == ')' && r2[1..] == rest
  {
  }

  /** `repr((k, v))` reads back as the pair. */
  lemma ParseItemRepr(u: UnicodeTables, item: Item, rest: string)
    ensures ParseItem(ItemRepr(u, item) + rest) == Some((item, rest))
  {
    var a, b := StrRepr(u, item.0), ValueRepr(u, item.1);
    ItemShape(a, b, rest);
    var r2 := ")" + rest;
    var r1 := ", " + b + r2;
    ParseStrRepr(u, item.0, r1);
    ParseValueRepr(u, item.1, r2);
    ParseItemParts(ItemRepr(u, item) + rest, item.0, r1, item.1, r2);
  }

  lemma ParseItemsLast(s: string, item: Item, rest: string)
    requires ParseItem(s) == Some((item, "]" + rest))
    ensures ParseItems(s) == Some(([item], rest))
  {
    assert ("]" + rest)[1..] == rest;
  }

  lemma ParseItemsMore(s: string, item: Item, next: string, items: Dict, rest: string)
    requires ParseItem(s) == Some((item, ", " + next))
    requires ParseItems(next) == Some((items, rest))
    ensures ParseItems(s) == Some(([item] + items, rest))
  {
    assert (", " + next)[2..] == next;
  }

  /** How a separated list, and what follows it, splits at its first separator. */
  lemma SeparatedShape(a: string, b: string, rest: string)
    ensures a + ", " + b + "]" + rest == a + (", " + (b + "]" + rest))
  {
  }

  /** The joined pairs and the closing bracket read back as the pairs. */
  lemma {:induction false} ParseItemsRepr(u: UnicodeTables, items: Dict, rest: string)
    requires items != []
    ensures ParseItems(ItemsRepr(u, items) + "]" + rest) == Some((items, rest))
  {
    var s := ItemsRepr(u, items) + "]" + rest;
    if |items| == 1 {
      ParseOneItemRepr(u, items, rest);
    } else {
      var next := ItemsRepr(u, items[1..]) + "]" + rest;
      SeparatedShape(ItemRepr(u, items[0]), ItemsRepr(u, items[1..]), rest);
      ParseItemRepr(u, items[0], ", " + next);
      ParseItemsRepr(u, items[1..], rest);
      ParseItemsMore(s, items[0], next, items[1..], rest);
      HeadTail(items);
    }
  }

  lemma ParseOneItemRepr(u: UnicodeTables, items: Dict, rest: string)
    requires |items| == 1
    ensures ParseItems(ItemsRepr(u, items) + "]" + rest) == Some((items, rest))
  {
    var s := ItemsRepr(u, items) + "]" + rest;
    assert s == ItemRepr(u, items[0]) + ("]" + rest);
    ParseItemRepr(u, items[0], "]" + rest);
    ParseItemsLast(s, items[0], rest);
    assert items == [items[0]];
  }

  lemma InsideBrackets(m: string)
    ensures ("[" + m + "]")[1..] == m + "]" + ""
  {
  }

  /** `repr(items)` reads back as the list of pairs. */
  lemma ParseListRepr(u: UnicodeTables, items: Dict)
    ensures ParseList(ListRepr(u, items)) == Some((items, ""))
  {
    var s := ListRepr(u, items);
    if items == [] {
      assert s == "[]" && s[2..] == "";
    } else {
      InsideBrackets(ItemsRepr(u, items));
      ParseItemsRepr(u, items, "");
      assert s[1] == ItemsRepr(u, items)[0] == '(';
    }
  }

  /** Different lists of pairs have different `repr()` texts. */
  lemma ListReprInjective(u: UnicodeTables, a: Dict, b: Dict)
    requires ListRepr(u, a) == ListRepr(u, b)
    ensures a == b
  {
    ParseListRepr(u, a);
    ParseListRepr(u, b);
  }
}
