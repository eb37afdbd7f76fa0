/** backend/services/text_processing.py: the text canonicaliser and its digest. */
module TextProcessing {
  import opened Wrappers
  import opened Bytes
  import opened Chars
  import opened Hex
  import Utf8
  import opened Crypto

  /** A word: a non-empty run of non-whitespace characters. */
  predicate IsWord(w: string)
  {
    |w| > 0 && forall i :: 0 <= i < |w| ==> !IsSpace(w[i])
  }

  /** `s` without its leading run of whitespace. */
  function DropSpaces(s: string): (t: string)
    ensures |t| <= |s| && t == s[|s| - |t|..]
    ensures t == [] || !IsSpace(t[0])
    ensures s != [] && IsSpace(s[0]) ==> |t| < |s|
  {
    if s != [] && IsSpace(s[0]) then DropSpaces(s[1..]) else s
  }

  /** The maximal run of non-whitespace characters at the start of `s`. */
  function TakeWord(s: string): (w: string)
    ensures |w| <= |s| && w == s[..|w|]
    ensures forall i :: 0 <= i < |w| ==> !IsSpace(w[i])
    ensures |w| == |s| || IsSpace(s[|w|])
    ensures s != [] && !IsSpace(s[0]) ==> |w| > 0
  {
    if s != [] && !IsSpace(s[0]) then [s[0]] + TakeWord(s[1..]) else []
  }

  /** `re.sub(r"\s+", " ", s)`: every maximal run of whitespace becomes one space. */
  function Collapse(s: string): string
    decreases |s|
  {
    if s == [] then []
    else if IsSpace(s[0]) then " " + Collapse(DropSpaces(s))
    else var w := TakeWord(s); w + Collapse(s[|w|..])
  }

  function StripLeft(s: string): string
  {
    if s != [] && IsSpace(s[0]) then StripLeft(s[1..]) else s
  }

  function StripRight(s: string): string
  {
    if s != [] && IsSpace(s[|s| - 1]) then StripRight(s[..|s| - 1]) else s
  }

  /** `str.strip()`. */
  function Strip(s: string): string
  {
    StripRight(StripLeft(s))
  }

  /** The collapse-and-strip stage of `normalize_text`. */
  function Canonicalize(s: string): string
  {
    Strip(Collapse(s))
  }

  /** NFKC normalisation followed by `str.lower()`, from the Unicode tables. */
  function Fold(u: UnicodeTables, s: string): string
  {
    u.lower(u.nfkc(s))
  }

  /** `normalize_text(raw_text)`. */
  function NormalizeText(u: UnicodeTables, raw: string): string
  {
    if raw == "" then "" else Canonicalize(Fold(u, raw))
  }

  /** `hash_normalized_text(normalized_text)`: no digest for empty text, otherwise the
      SHA-256 hex digest of the UTF-8 bytes. */
  function HashNormalizedText(h: Sha256, text: string): (r: Option<string>)
    ensures r.None? <==> text == ""
    ensures r.Some? ==> |r.value| == 64 && IsLowerHex(r.value)
    ensures r.Some? ==> FromHex(r.value) == Some(h(Utf8.Encode(text)))
  {
    if text == "" then None
    else
      FromHexDigest(h(Utf8.Encode(text)));
      Some(HexDigest(h(Utf8.Encode(text))))
  }

  // ---------------------------------------------------------------------------------------
  // The reference definition: the words of a text, joined by single spaces.

  /** The whitespace-separated words of `s`, in order (`s.split()`). */
  function Words(s: string): (ws: seq<string>)
    ensures forall k :: 0 <= k < |ws| ==> IsWord(ws[k])
    decreases |s|
  {
    if s == [] then []
    else if IsSpace(s[0]) then Words(DropSpaces(s))
    else var w := TakeWord(s); [w] + Words(s[|w|..])
  }

  /** `" ".join(ws)`. */
  function JoinWords(ws: seq<string>): string
  {
    if ws == [] then "" else if |ws| == 1 then ws[0] else ws[0] + " " + JoinWords(ws[1..])
  }

  /** Text in canonical form: no whitespace at either end, and every whitespace character a
      single space between two non-whitespace characters. */
  predicate IsCanonical(t: string)
  {
    && (t == [] || (!IsSpace(t[0]) && !IsSpace(t[|t| - 1])))
    && (forall i :: 0 <= i < |t| ==> IsSpace(t[i]) ==> t[i] == ' ')
    && (forall i :: 0 <= i < |t| - 1 ==> !(IsSpace(t[i]) && IsSpace(t[i + 1])))
  }

  function Lead(s: string): string
  {
    if s != [] && IsSpace(s[0]) then " " else ""
  }

  function Trail(s: string): string
  {
    if s != [] && IsSpace(s[|s| - 1]) && Words(s) != [] then " " else ""
  }

  lemma NoWordsAllSpace(s: string)
    requires Words(s) == []
    ensures forall i :: 0 <= i < |s| ==> IsSpace(s[i])
  {
    if s != [] {
      assert DropSpaces(s) == [];
      forall i | 0 <= i < |s| ensures IsSpace(s[i]) {
        DropSpacesPrefix(s, i);
      }
    }
  }

  lemma {:induction false} DropSpacesPrefix(s: string, i: nat)
    requires i < |s| - |DropSpaces(s)|
    ensures IsSpace(s[i])
    decreases |s|
  {
    if i > 0 {
      DropSpacesPrefix(s[1..], i - 1);
    }
  }

  /** `re.sub(r"\s+", " ", s)` is the words of `s` joined by single spaces, with one space in
      front when `s` starts with whitespace and one behind when it ends with whitespace. */
  lemma {:induction false} CollapseShape(s: string)
    ensures Collapse(s) == Lead(s) + JoinWords(Words(s)) + Trail(s)
    decreases |s|
  {
    if s == [] {
    } else if IsSpace(s[0]) {
      CollapseShape(DropSpaces(s));
      CollapseShapeSpace(s);
    } else {
      var w := TakeWord(s);
      CollapseShape(s[|w|..]);
      CollapseShapeWord(s);
    }
  }

  lemma Associative(a: string, b: string, c: string)
    ensures a + (b + c) == a + b + c
  {
  }

  lemma TrailDropSpaces(s: string)
    requires s != [] && IsSpace(s[0])
    ensures Trail(DropSpaces(s)) == Trail(s)
  {
    var d := DropSpaces(s);
    assert Words(s) == Words(d);
    if d != [] {
      assert d[|d| - 1] == s[|s| - 1];
    }
  }

  lemma CollapseShapeSpace(s: string)
    requires s != [] && IsSpace(s[0])
    requires var d := DropSpaces(s); Collapse(d) == Lead(d) + JoinWords(Words(d)) + Trail(d)
    ensures Collapse(s) == Lead(s) + JoinWords(Words(s)) + Trail(s)
  {
    var d := DropSpaces(s);
    var j := JoinWords(Words(d));
    var t := Trail(s);
    assert Collapse(s) == " " + Collapse(d);
    assert Words(s) == Words(d);
    TrailDropSpaces(s);
    assert Lead(d) + j == j;
    assert Collapse(d) == j + t;
    Associative(" ", j, t);
  }

  lemma CollapseShapeWord(s: string)
    requires s != [] && !IsSpace(s[0])
    requires var r := s[|TakeWord(s)|..]; Collapse(r) == Lead(r) + JoinWords(Words(r)) + Trail(r)
    ensures Collapse(s) == Lead(s) + JoinWords(Words(s)) + Trail(s)
  {
    var w := TakeWord(s);
    var r := s[|w|..];
    if r == [] {
      CollapseShapeLastWord(s, w);
    } else if Words(r) == [] {
      CollapseShapeWordSpaces(s, w, r);
    } else {
      CollapseShapeWordWords(s, w, r);
    }
  }

  lemma CollapseShapeLastWord(s: string, w: string)
    requires s != [] && !IsSpace(s[0]) && w == TakeWord(s) && s[|w|..] == []
    ensures Collapse(s) == Lead(s) + JoinWords(Words(s)) + Trail(s)
  {
    assert s == w;
    assert Collapse(s) == w + Collapse([]);
    assert Words(s) == [w] + Words([]);
    assert JoinWords([w]) == w;
  }

  /** One step of collapsing and splitting at a leading word `w` followed by `r`. */
  lemma WordStep(s: string, w: string, r: string)
    requires s != [] && !IsSpace(s[0]) && w == TakeWord(s) && r == s[|w|..]
    ensures Collapse(s) == w + Collapse(r) && Words(s) == [w] + Words(r)
    ensures Lead(s) == "" && (r != [] ==> s[|s| - 1] == r[|r| - 1])
  {
  }

  lemma CollapseShapeWordSpaces(s: string, w: string, r: string)
    requires s != [] && !IsSpace(s[0]) && w == TakeWord(s) && r == s[|w|..] && r != []
    requires Words(r) == []
    requires Collapse(r) == Lead(r) + JoinWords(Words(r)) + Trail(r)
    ensures Collapse(s) == Lead(s) + JoinWords(Words(s)) + Trail(s)
  {
    WordStep(s, w, r);
    NoWordsAllSpace(r);
    assert Lead(r) == " " && Trail(r) == "" && JoinWords(Words(r)) == "";
    assert Collapse(r) == " ";
    assert Words(s) == [w];
    assert Trail(s) == " ";
    JoinedPadding(w, " ");
  }

  lemma CollapseShapeWordWords(s: string, w: string, r: string)
    requires s != [] && !IsSpace(s[0]) && w == TakeWord(s) && r == s[|w|..] && r != []
    requires Words(r) != []
    requires Collapse(r) == Lead(r) + JoinWords(Words(r)) + Trail(r)
    ensures Collapse(s) == Lead(s) + JoinWords(Words(s)) + Trail(s)
  {
    WordStep(s, w, r);
    var ws := Words(r);
    var j := JoinWords(ws);
    var t := Trail(s);
    assert Trail(r) == t;
    assert Lead(r) == " " by {
      assert r[0] == s[|w|] && IsSpace(s[|w|]);
    }
    JoinCons(w, ws);
    assert Collapse(r) == " " + j + t;
    Associative(w, " " + j, t);
    Associative(w, " ", j);
    JoinedPadding(w + " " + j, t);
  }

  /** `"" + a + b == a + b`. */
  lemma JoinedPadding(a: string, b: string)
    ensures "" + a + b == a + b
  {
  }

  lemma JoinCons(w: string, ws: seq<string>)
    requires ws != []
    ensures JoinWords([w] + ws) == w + " " + JoinWords(ws)
  {
    assert ([w] + ws)[1..] == ws;
  }

  lemma {:induction false} JoinWordsEnds(ws: seq<string>)
    requires forall k :: 0 <= k < |ws| ==> IsWord(ws[k])
    ensures JoinWords(ws) == [] <==> ws == []
    ensures JoinWords(ws) != [] ==> !IsSpace(JoinWords(ws)[0]) && !IsSpace(JoinWords(ws)[|JoinWords(ws)| - 1])
  {
    if |ws| > 1 {
      JoinWordsEnds(ws[1..]);
    }
  }

  lemma {:induction false} StripLeftSpace(x: string)
    ensures StripLeft(" " + x) == StripLeft(x)
  {
    assert (" " + x)[1..] == x;
  }

  lemma {:induction false} StripRightSpace(x: string)
    ensures StripRight(x + " ") == StripRight(x)
  {
    assert (x + " ")[..|x|] == x;
  }

  /** Stripping removes at most one space of padding on either side of a text that neither
      starts nor ends with whitespace. */
  lemma StripPadded(lead: string, j: string, t: string)
    requires lead == "" || lead == " "
    requires t == "" || t == " "
    requires j == [] || (!IsSpace(j[0]) && !IsSpace(j[|j| - 1]))
    ensures Strip(lead + j + t) == j
  {
    var jt := j + t;
    assert StripLeft(lead + j + t) == StripLeft(jt) by {
      Associative(lead, j, t);
      if lead == " " {
        StripLeftSpace(jt);
      } else {
        assert lead + jt == jt;
      }
    }
    if j == [] {
      assert jt == t;
      assert StripLeft(jt) == "";
    } else {
      assert jt[0] == j[0];
      assert StripLeft(jt) == jt;
      if t == " " {
        StripRightSpace(j);
      } else {
        assert jt == j;
      }
    }
  }

  /** The collapse-and-strip stage equals the words of the text joined by single spaces. */
  lemma CanonicalizeIsJoinedWords(s: string)
    ensures Canonicalize(s) == JoinWords(Words(s))
  {
    CollapseShape(s);
    JoinWordsEnds(Words(s));
    StripPadded(Lead(s), JoinWords(Words(s)), Trail(s));
  }

  lemma {:induction false} JoinWordsCanonical(ws: seq<string>)
    requires forall k :: 0 <= k < |ws| ==> IsWord(ws[k])
    ensures IsCanonical(JoinWords(ws))
  {
    JoinWordsEnds(ws);
    if |ws| > 1 {
      var w, rest := ws[0], JoinWords(ws[1..]);
      JoinWordsCanonical(ws[1..]);
      JoinWordsEnds(ws[1..]);
      var t := w + " " + rest;
      assert JoinWords(ws) == t;
      forall i | 0 <= i < |t| && IsSpace(t[i]) ensures t[i] == ' ' {
        if i > |w| {
          assert t[i] == rest[i - |w| - 1];
        }
      }
      forall i | 0 <= i < |t| - 1 ensures !(IsSpace(t[i]) && IsSpace(t[i + 1])) {
        if i > |w| {
          assert t[i] == rest[i - |w| - 1] && t[i + 1] == rest[i - |w|];
        } else if i == |w| {
          assert t[i + 1] == rest[0];
        } else if i == |w| - 1 {
          assert t[i] == w[|w| - 1];
        } else {
          assert t[i] == w[i];
        }
      }
    }
  }

  lemma {:induction false} TakeWordOf(w: string, rest: string)
    requires IsWord(w)
    requires rest == [] || IsSpace(rest[0])
    ensures TakeWord(w + rest) == w
  {
    if |w| > 1 {
      assert (w + rest)[1..] == w[1..] + rest;
      TakeWordOf(w[1..], rest);
    } else {
      assert (w + rest)[1..] == rest;
    }
  }

  /** Splitting the joined words gives the words back. */
  lemma {:induction false} WordsOfJoinWords(ws: seq<string>)
    requires forall k :: 0 <= k < |ws| ==> IsWord(ws[k])
    ensures Words(JoinWords(ws)) == ws
  {
    if |ws| == 1 {
      WordsOfWord(ws[0]);
    } else if |ws| > 1 {
      var rest := JoinWords(ws[1..]);
      JoinWordsEnds(ws[1..]);
      WordsOfJoinWords(ws[1..]);
      WordsSpaced(ws[0], rest);
      assert JoinWords(ws) == ws[0] + " " + rest;
      HeadTail(ws);
    }
  }

  lemma HeadTail(ws: seq<string>)
    requires ws != []
    ensures [ws[0]] + ws[1..] == ws
  {
  }

  /** A single word splits as itself. */
  lemma WordsOfWord(w: string)
    requires IsWord(w)
    ensures Words(w) == [w]
  {
    TakeWordOf(w, "");
    assert w + "" == w;
    assert w[|w|..] == "";
    assert Words(w) == [w] + Words("");
  }

  /** A word, a space and a text that does not start with whitespace split at the space. */
  lemma WordsSpaced(w: string, rest: string)
    requires IsWord(w)
    requires rest != [] && !IsSpace(rest[0])
    ensures Words(w + " " + rest) == [w] + Words(rest)
  {
    var t := w + " " + rest;
    TakeWordOf(w, " " + rest);
    assert t == w + (" " + rest);
    assert t[|w|..] == " " + rest;
    assert DropSpaces(" " + rest) == rest by {
      assert (" " + rest)[1..] == rest;
    }
    WordStep(t, w, " " + rest);
  }

  // ---------------------------------------------------------------------------------------
  // Properties of the canonicaliser.

  /** The collapse-and-strip stage yields canonical text with the same words as its input. */
  lemma CanonicalizeSpec(s: string)
    ensures IsCanonical(Canonicalize(s))
    ensures Words(Canonicalize(s)) == Words(s)
  {
    CanonicalizeIsJoinedWords(s);
    JoinWordsCanonical(Words(s));
    WordsOfJoinWords(Words(s));
  }

  /** The collapse-and-strip stage is idempotent. */
  lemma CanonicalizeIdempotent(s: string)
    ensures Canonicalize(Canonicalize(s)) == Canonicalize(s)
  {
    CanonicalizeIsJoinedWords(s);
    CanonicalizeIsJoinedWords(Canonicalize(s));
    WordsOfJoinWords(Words(s));
  }

  /** The non-whitespace characters of `s`, in order. */
  function NonSpace(s: string): string
  {
    if s == [] then [] else (if IsSpace(s[0]) then [] else [s[0]]) + NonSpace(s[1..])
  }

  function Concat(ws: seq<string>): string
  {
    if ws == [] then [] else ws[0] + Concat(ws[1..])
  }

  lemma {:induction false} NonSpaceAppend(a: string, b: string)
    ensures NonSpace(a + b) == NonSpace(a) + NonSpace(b)
  {
    if a != [] {
      assert (a + b)[1..] == a[1..] + b;
      NonSpaceAppend(a[1..], b);
    } else {
      assert a + b == b;
    }
  }

  lemma {:induction false} NonSpaceOfWord(w: string)
    requires forall i :: 0 <= i < |w| ==> !IsSpace(w[i])
    ensures NonSpace(w) == w
  {
    if w != [] {
      NonSpaceOfWord(w[1..]);
    }
  }

  lemma {:induction false} NonSpaceOfSpaces(s: string)
    requires forall i :: 0 <= i < |s| ==> IsSpace(s[i])
    ensures NonSpace(s) == []
  {
    if s != [] {
      NonSpaceOfSpaces(s[1..]);
    }
  }

  lemma {:induction false} NonSpaceIsConcatWords(s: string)
    ensures NonSpace(s) == Concat(Words(s))
    decreases |s|
  {
    if s == [] {
    } else if IsSpace(s[0]) {
      var d := DropSpaces(s);
      NonSpaceIsConcatWords(d);
      NonSpaceDropSpaces(s);
      assert Words(s) == Words(d);
    } else {
      var w := TakeWord(s);
      var r := s[|w|..];
      NonSpaceIsConcatWords(r);
      assert s == w + r;
      NonSpaceAppend(w, r);
      NonSpaceOfWord(w);
      assert Words(s) == [w] + Words(r);
      assert ([w] + Words(r))[1..] == Words(r);
    }
  }

  lemma NonSpaceDropSpaces(s: string)
    ensures NonSpace(DropSpaces(s)) == NonSpace(s)
  {
    var d := DropSpaces(s);
    var p := s[..|s| - |d|];
    assert s == p + d;
    forall i | 0 <= i < |p| ensures IsSpace(p[i]) {
      DropSpacesPrefix(s, i);
    }
    NonSpaceAppend(p, d);
    NonSpaceOfSpaces(p);
  }

  lemma {:induction false} NonSpaceOfJoinWords(ws: seq<string>)
    requires forall k :: 0 <= k < |ws| ==> IsWord(ws[k])
    ensures NonSpace(JoinWords(ws)) == Concat(ws)
  {
    if |ws| == 1 {
      NonSpaceOfWord(ws[0]);
      assert Concat(ws) == ws[0] + Concat([]);
    } else if |ws| > 1 {
      var w, rest := ws[0], JoinWords(ws[1..]);
      NonSpaceAppend(w + " ", rest);
      NonSpaceAppend(w, " ");
      NonSpaceOfWord(w);
      assert NonSpace(" ") == [] by {
        assert " "[1..] == [];
      }
      NonSpaceOfJoinWords(ws[1..]);
    }
  }

  /** The non-whitespace characters of the folded text survive, in order and unchanged. */
  lemma CanonicalizeKeepsNonSpace(s: string)
    ensures NonSpace(Canonicalize(s)) == NonSpace(s)
  {
    CanonicalizeIsJoinedWords(s);
    NonSpaceOfJoinWords(Words(s));
    NonSpaceIsConcatWords(s);
  }

  /** `normalize_text` yields canonical text whose words are those of the folded input, and
      `normalize_text("") == ""`. */
  lemma NormalizeTextSpec(u: UnicodeTables, raw: string)
    ensures raw == "" ==> NormalizeText(u, raw) == ""
    ensures IsCanonical(NormalizeText(u, raw))
    ensures raw != "" ==> Words(NormalizeText(u, raw)) == Words(Fold(u, raw))
    ensures raw != "" ==> NonSpace(NormalizeText(u, raw)) == NonSpace(Fold(u, raw))
  {
    if raw != "" {
      CanonicalizeSpec(Fold(u, raw));
      CanonicalizeKeepsNonSpace(Fold(u, raw));
    }
  }

  /** `normalize_text` is idempotent when the Unicode fold is idempotent and text that the fold
      leaves unchanged is still left unchanged after its whitespace is canonicalised. */
  lemma NormalizeTextIdempotent(u: UnicodeTables, raw: string)
    requires forall s :: Fold(u, Fold(u, s)) == Fold(u, s)
    requires forall s :: Fold(u, s) == s ==> Fold(u, Canonicalize(s)) == Canonicalize(s)
    ensures NormalizeText(u, NormalizeText(u, raw)) == NormalizeText(u, raw)
  {
    if raw != "" {
      var f := Fold(u, raw);
      var c := Canonicalize(f);
      if c != "" {
        assert Fold(u, f) == f;
        assert Fold(u, c) == c;
        CanonicalizeIdempotent(f);
      }
    }
  }

  /** Raw text whose folded form is all whitespace normalises to the empty text, which has
      no digest. */
  lemma WhitespaceOnlyHasNoDigest(h: Sha256, u: UnicodeTables, raw: string)
    requires forall i :: 0 <= i < |Fold(u, raw)| ==> IsSpace(Fold(u, raw)[i])
    ensures NormalizeText(u, raw) == ""
    ensures HashNormalizedText(h, NormalizeText(u, raw)) == None
  {
    if raw != "" {
      CanonicalizeKeepsNonSpace(Fold(u, raw));
      NonSpaceOfSpaces(Fold(u, raw));
      var c := Canonicalize(Fold(u, raw));
      CanonicalizeSpec(Fold(u, raw));
    }
  }
}
