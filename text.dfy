/**
 * String handling used by the task store: the whitespace trimming that
 * titles and descriptions go through (JavaScript's String.prototype.trim)
 * and the minimal HTML sanitiser escapeHtml applied before titles and
 * descriptions are rendered.
 */
module Text {

  /** The characters String.prototype.trim strips: ECMAScript WhiteSpace
      (TAB, VT, FF, SP, NBSP, ZWNBSP and the other Zs characters) and
      LineTerminator (LF, CR, LS, PS). */
  predicate IsWhitespace(c: char)
  {
    || c == '\t' || c == '\n' || c == '\U{000B}' || c == '\U{000C}' || c == '\r'
    || c == ' ' || c == '\U{00A0}' || c == '\U{1680}'
    || ('\U{2000}' <= c <= '\U{200A}')
    || c == '\U{2028}' || c == '\U{2029}' || c == '\U{202F}' || c == '\U{205F}'
    || c == '\U{3000}' || c == '\U{FEFF}'
  }

  /** s without its leading whitespace: a suffix of s, everything cut off is whitespace. */
  function TrimStart(s: string): (r: string)
    ensures |r| <= |s| && r == s[|s| - |r|..]
    ensures forall k :: 0 <= k < |s| - |r| ==> IsWhitespace(s[k])
    ensures r == [] || !IsWhitespace(r[0])
  {
    if s != [] && IsWhitespace(s[0]) then TrimStart(s[1..]) else s
  }

  /** s without its trailing whitespace: a prefix of s, everything cut off is whitespace. */
  function TrimEnd(s: string): (r: string)
    ensures |r| <= |s| && r == s[..|r|]
    ensures forall k :: |r| <= k < |s| ==> IsWhitespace(s[k])
    ensures r == [] || !IsWhitespace(r[|r| - 1])
  {
    if s != [] && IsWhitespace(s[|s| - 1]) then TrimEnd(s[..|s| - 1]) else s
  }

  /** The model of s.trim(). */
  function Trim(s: string): string
  {
    TrimEnd(TrimStart(s))
  }

  /** A string is blank when nothing is left of it after trimming;
      in the source that is the falsy empty string `s.trim()`. */
  predicate IsBlank(s: string)
  {
    Trim(s) == []
  }

  /** Trim cuts whitespace, and only whitespace, from both ends of s,
      and what it keeps neither starts nor ends with whitespace. */
  lemma TrimSpec(s: string)
    ensures exists i, j :: 0 <= i <= j <= |s| && Trim(s) == s[i..j]
                        && (forall k :: 0 <= k < i ==> IsWhitespace(s[k]))
                        && (forall k :: j <= k < |s| ==> IsWhitespace(s[k]))
    ensures Trim(s) == [] || (!IsWhitespace(Trim(s)[0]) && !IsWhitespace(Trim(s)[|Trim(s)| - 1]))
  {
    var u := TrimStart(s);
    var i := |s| - |u|;
    var j := i + |TrimEnd(u)|;
    assert Trim(s) == s[i..j];
  }

  /** A string is blank exactly when it consists of whitespace only. */
  lemma BlankIffAllWhitespace(s: string)
    ensures IsBlank(s) <==> forall k :: 0 <= k < |s| ==> IsWhitespace(s[k])
  {
    var u := TrimStart(s);
    if IsBlank(s) {
      assert forall k :: |s| - |u| <= k < |s| ==> s[k] == u[k - (|s| - |u|)];
    }
  }

  /** Trimming twice is trimming once. */
  lemma TrimIdempotent(s: string)
    ensures Trim(Trim(s)) == Trim(s)
  {
    var r := Trim(s);
    TrimSpec(s);
    assert TrimStart(r) == r;
  }

  /** s with every occurrence of c replaced by rep: the model of s.replace(/c/g, rep). */
  function ReplaceAll(s: string, c: char, rep: string): string
  {
    if s == [] then [] else (if s[0] == c then rep else [s[0]]) + ReplaceAll(s[1..], c, rep)
  }

  /** escapeHtml as written: three global replacements, '&' first. */
  function EscapeHtml(s: string): string
  {
    ReplaceAll(ReplaceAll(ReplaceAll(s, '&', "&amp;"), '<', "&lt;"), '>', "&gt;")
  }

  /** The entity, or the character itself, that escaping writes for one character. */
  function EscapeChar(c: char): string
  {
    if c == '&' then "&amp;" else if c == '<' then "&lt;" else if c == '>' then "&gt;" else [c]
  }

  /** A single-pass escaper, the reference definition escapeHtml is compared with. */
  function EscapeEach(s: string): string
  {
    if s == [] then [] else EscapeChar(s[0]) + EscapeEach(s[1..])
  }

  /** Decoding the three entities escaping writes: `&amp;`, `&lt;` and `&gt;`
      become their characters, every other character is kept as it is. This
      is not a full HTML parser: newline normalisation and NUL removal are
      not part of it. */
  function Unescape(s: string): string
  {
    if s == [] then []
    else if |s| >= 5 && s[..5] == "&amp;" then "&" + Unescape(s[5..])
    else if |s| >= 4 && s[..4] == "&lt;" then "<" + Unescape(s[4..])
    else if |s| >= 4 && s[..4] == "&gt;" then ">" + Unescape(s[4..])
    else [s[0]] + Unescape(s[1..])
  }

  /** A global replacement distributes over concatenation. */
  lemma {:induction false} ReplaceAllAppend(a: string, b: string, c: char, rep: string)
    ensures ReplaceAll(a + b, c, rep) == ReplaceAll(a, c, rep) + ReplaceAll(b, c, rep)
  {
    if a == [] {
      assert a + b == b;
    } else {
      assert (a + b)[1..] == a[1..] + b;
      ReplaceAllAppend(a[1..], b, c, rep);
    }
  }

  lemma ReplaceAllOne(d: char, c: char, rep: string)
    ensures ReplaceAll([d], c, rep) == if d == c then rep else [d]
  {
    assert [d][1..] == [];
  }

  /** Every character of the result comes from s (and is not c) or from rep. */
  lemma {:induction false} ReplaceAllMembers(s: string, c: char, rep: string)
    ensures forall d :: d in ReplaceAll(s, c, rep) ==> (d in s && d != c) || d in rep
  {
    if s != [] {
      ReplaceAllMembers(s[1..], c, rep);
      assert s == [s[0]] + s[1..];
    }
  }

  /** Replacing a character that does not occur changes nothing, and with a
      replacement of two or more characters an occurring one always lengthens s. */
  lemma {:induction false} ReplaceAllLength(s: string, c: char, rep: string)
    requires |rep| >= 1
    ensures |ReplaceAll(s, c, rep)| >= |s|
    ensures c !in s ==> ReplaceAll(s, c, rep) == s
    ensures c in s && |rep| >= 2 ==> |ReplaceAll(s, c, rep)| > |s|
  {
    if s != [] {
      ReplaceAllLength(s[1..], c, rep);
      assert s == [s[0]] + s[1..];
    }
  }

  /** The escaped text holds no '<' and no '>'. */
  lemma EscapeHtmlNoAngleBrackets(s: string)
    ensures '<' !in EscapeHtml(s) && '>' !in EscapeHtml(s)
  {
    var a := ReplaceAll(s, '&', "&amp;");
    var b := ReplaceAll(a, '<', "&lt;");
    ReplaceAllMembers(a, '<', "&lt;");
    ReplaceAllMembers(b, '>', "&gt;");
  }

  /** Escaping never shortens its input, and it returns its input unchanged
      exactly when the input holds none of '&', '<', '>'. */
  lemma EscapeHtmlLength(s: string)
    ensures |EscapeHtml(s)| >= |s|
    ensures EscapeHtml(s) == s <==> ('&' !in s && '<' !in s && '>' !in s)
  {
    var a := ReplaceAll(s, '&', "&amp;");
    var b := ReplaceAll(a, '<', "&lt;");
    ReplaceAllLength(s, '&', "&amp;");
    ReplaceAllLength(a, '<', "&lt;");
    ReplaceAllLength(b, '>', "&gt;");
    ReplaceAllMembers(s, '&', "&amp;");
    ReplaceAllMembers(a, '<', "&lt;");
    if '&' !in s && '<' !in s && '>' !in s {
      assert a == s && b == s;
    } else if '&' in s {
      assert |a| > |s|;
    } else if '<' in s {
      assert a == s;
      assert |b| > |s|;
    } else {
      assert a == s && b == s;
    }
  }

  lemma EscapeHtmlOneChar(c: char)
    ensures EscapeHtml([c]) == EscapeChar(c)
  {
    ReplaceAllOne(c, '&', "&amp;");
    if c == '&' {
      var a: string := "&amp;";
      assert '<' !in a && '>' !in a;
      ReplaceAllLength(a, '<', "&lt;");
      ReplaceAllLength(a, '>', "&gt;");
    } else {
      ReplaceAllOne(c, '<', "&lt;");
      if c == '<' {
        var b: string := "&lt;";
        assert '>' !in b;
        ReplaceAllLength(b, '>', "&gt;");
      } else {
        ReplaceAllOne(c, '>', "&gt;");
      }
    }
  }

  lemma EscapeHtmlAppend(a: string, b: string)
    ensures EscapeHtml(a + b) == EscapeHtml(a) + EscapeHtml(b)
  {
    var a1, b1 := ReplaceAll(a, '&', "&amp;"), ReplaceAll(b, '&', "&amp;");
    var a2, b2 := ReplaceAll(a1, '<', "&lt;"), ReplaceAll(b1, '<', "&lt;");
    ReplaceAllAppend(a, b, '&', "&amp;");
    ReplaceAllAppend(a1, b1, '<', "&lt;");
    ReplaceAllAppend(a2, b2, '>', "&gt;");
  }

  /** The three chained replacements, '&' first, agree with escaping each
      character on its own: no entity written by one pass is touched by a later one. */
  lemma {:induction false} EscapeHtmlSinglePass(s: string)
    ensures EscapeHtml(s) == EscapeEach(s)
  {
    if s != [] {
      assert s == [s[0]] + s[1..];
      EscapeHtmlAppend([s[0]], s[1..]);
      EscapeHtmlOneChar(s[0]);
      EscapeHtmlSinglePass(s[1..]);
    }
  }

  lemma UnescapeStep(c: char, rest: string)
    ensures Unescape(EscapeChar(c) + rest) == [c] + Unescape(rest)
  {
    if c == '&' {
      UnescapeAmp(rest);
    } else if c == '<' {
      UnescapeLt(rest);
    } else if c == '>' {
      UnescapeGt(rest);
    } else {
      UnescapePlain(c, rest);
    }
  }

  lemma UnescapeAmp(rest: string)
    ensures Unescape("&amp;" + rest) == "&" + Unescape(rest)
  {
    var e := "&amp;" + rest;
    assert e[..5] == "&amp;" && e[5..] == rest;
  }

  lemma UnescapeLt(rest: string)
    ensures Unescape("&lt;" + rest) == "<" + Unescape(rest)
  {
    var e := "&lt;" + rest;
    assert e[1] == 'l';
    assert |e| < 5 || e[..5] != "&amp;" by {
      if |e| >= 5 { assert e[..5][1] == 'l'; }
    }
    assert e[..4] == "&lt;" && e[4..] == rest;
  }

  lemma UnescapeGt(rest: string)
    ensures Unescape("&gt;" + rest) == ">" + Unescape(rest)
  {
    var e := "&gt;" + rest;
    assert e[1] == 'g';
    assert |e| < 5 || e[..5] != "&amp;" by {
      if |e| >= 5 { assert e[..5][1] == 'g'; }
    }
    assert e[..4] != "&lt;" by { assert e[..4][1] == 'g'; }
    assert e[..4] == "&gt;" && e[4..] == rest;
  }

  lemma UnescapePlain(c: char, rest: string)
    requires c != '&'
    ensures Unescape([c] + rest) == [c] + Unescape(rest)
  {
    var e := [c] + rest;
    assert e[0] == c && e[1..] == rest;
    assert |e| < 5 || e[..5] != "&amp;" by {
      if |e| >= 5 { assert e[..5][0] == c; }
    }
    assert |e| < 4 || (e[..4] != "&lt;" && e[..4] != "&gt;") by {
      if |e| >= 4 { assert e[..4][0] == c; }
    }
  }

  /** Decoding the three entities in what escapeHtml writes gives back the
      original text: escaping is lossless. */
  lemma {:induction false} EscapeHtmlRoundTrip(s: string)
    ensures Unescape(EscapeHtml(s)) == s
  {
    EscapeHtmlSinglePass(s);
    UnescapeEach(s);
  }

  lemma {:induction false} UnescapeEach(s: string)
    ensures Unescape(EscapeEach(s)) == s
  {
    if s != [] {
      UnescapeStep(s[0], EscapeEach(s[1..]));
      UnescapeEach(s[1..]);
    }
  }
}
