/** `escapeHtml` of the to-do list: five global single-character
    replacements applied one after another, ampersand first. The module
    proves that this chain behaves as one character-by-character mapping
    (so nothing is escaped twice), that no markup character survives, and
    that the escaping can be undone. */
module Escape {

  /** JavaScript's `s.replace(/c/g, rep)` for a single character `c`:
      every occurrence of `c`, left to right, becomes `rep`. */
  function ReplaceAll(s: string, c: char, rep: string): (r: string)
    ensures |rep| >= 1 ==> |r| >= |s|
  {
    if s == [] then []
    else (if s[0] == c then rep else [s[0]]) + ReplaceAll(s[1..], c, rep)
  }

  /** The chain of replacements, in the order the source applies them. */
  function EscapeHtml(s: string): (r: string)
    ensures |r| >= |s|
  {
    var r1 := ReplaceAll(s, '&', "&amp;");
    var r2 := ReplaceAll(r1, '<', "&lt;");
    var r3 := ReplaceAll(r2, '>', "&gt;");
    var r4 := ReplaceAll(r3, '"', "&quot;");
    ReplaceAll(r4, '\'', "&#039;")
  }

  /** The character reference a single character is rendered as. */
  function EscapeChar(c: char): (r: string)
    ensures |r| >= 1
  {
    match c
    case '&' => "&amp;"
    case '<' => "&lt;"
    case '>' => "&gt;"
    case '"' => "&quot;"
    case '\'' => "&#039;"
    case _ => [c]
  }

  /** Reference definition: each character escaped on its own, the pieces
      concatenated in order. */
  function EscapeEach(s: string): string
  {
    if s == [] then [] else EscapeChar(s[0]) + EscapeEach(s[1..])
  }

  lemma {:induction false} ReplaceAllAppend(a: string, b: string, c: char, rep: string)
    ensures ReplaceAll(a + b, c, rep) == ReplaceAll(a, c, rep) + ReplaceAll(b, c, rep)
  {
    if a == [] {
      assert a + b == b;
    } else {
      assert (a + b)[0] == a[0];
      assert (a + b)[1..] == a[1..] + b;
      ReplaceAllAppend(a[1..], b, c, rep);
    }
  }

  /** A replacement of a character that does not occur changes nothing. */
  lemma {:induction false} ReplaceAllAbsent(s: string, c: char, rep: string)
    requires c !in s
    ensures ReplaceAll(s, c, rep) == s
  {
    if s != [] {
      assert c !in s[1..] by { assert forall x :: x in s[1..] ==> x in s; }
      ReplaceAllAbsent(s[1..], c, rep);
    }
  }

  /** The chain distributes over concatenation. */
  lemma EscapeHtmlAppend(a: string, b: string)
    ensures EscapeHtml(a + b) == EscapeHtml(a) + EscapeHtml(b)
  {
    var a1, b1 := ReplaceAll(a, '&', "&amp;"), ReplaceAll(b, '&', "&amp;");
    ReplaceAllAppend(a, b, '&', "&amp;");
    var a2, b2 := ReplaceAll(a1, '<', "&lt;"), ReplaceAll(b1, '<', "&lt;");
    ReplaceAllAppend(a1, b1, '<', "&lt;");
    var a3, b3 := ReplaceAll(a2, '>', "&gt;"), ReplaceAll(b2, '>', "&gt;");
    ReplaceAllAppend(a2, b2, '>', "&gt;");
    var a4, b4 := ReplaceAll(a3, '"', "&quot;"), ReplaceAll(b3, '"', "&quot;");
    ReplaceAllAppend(a3, b3, '"', "&quot;");
    ReplaceAllAppend(a4, b4, '\'', "&#039;");
  }

  /** One step of the chain on a single character. */
  lemma ReplaceAllOne(c: char, d: char, rep: string)
    ensures ReplaceAll([c], d, rep) == if c == d then rep else [c]
  {
    assert [c][1..] == [];
  }

  /** On one character, the chain yields that character's reference: each
      reference holds none of the characters the later steps replace. */
  lemma EscapeHtmlChar(c: char)
    ensures EscapeHtml([c]) == EscapeChar(c)
  {
    ReplaceAllOne(c, '&', "&amp;");
    if c == '&' {
      EscapeHtmlAfterAmpersand("&amp;");
    } else {
      ReplaceAllOne(c, '<', "&lt;");
      if c == '<' {
        EscapeHtmlAfterLessThan("&lt;");
      } else {
        ReplaceAllOne(c, '>', "&gt;");
        if c == '>' {
          EscapeHtmlAfterGreaterThan("&gt;");
        } else {
          ReplaceAllOne(c, '"', "&quot;");
          ReplaceAllOne(c, '\'', "&#039;");
        }
      }
    }
  }

  /** The steps after the ampersand one leave "&amp;" alone. */
  lemma EscapeHtmlAfterAmpersand(r1: string)
    requires r1 == "&amp;"
    ensures ReplaceAll(ReplaceAll(ReplaceAll(ReplaceAll(r1, '<', "&lt;"), '>', "&gt;"), '"', "&quot;"), '\'', "&#039;") == r1
  {
    ReplaceAllAbsent(r1, '<', "&lt;");
    ReplaceAllAbsent(r1, '>', "&gt;");
    ReplaceAllAbsent(r1, '"', "&quot;");
    ReplaceAllAbsent(r1, '\'', "&#039;");
  }

  /** The steps after the less-than one leave "&lt;" alone. */
  lemma EscapeHtmlAfterLessThan(r2: string)
    requires r2 == "&lt;"
    ensures ReplaceAll(ReplaceAll(ReplaceAll(r2, '>', "&gt;"), '"', "&quot;"), '\'', "&#039;") == r2
  {
    ReplaceAllAbsent(r2, '>', "&gt;");
    ReplaceAllAbsent(r2, '"', "&quot;");
    ReplaceAllAbsent(r2, '\'', "&#039;");
  }

  /** The steps after the greater-than one leave "&gt;" alone. */
  lemma EscapeHtmlAfterGreaterThan(r3: string)
    requires r3 == "&gt;"
    ensures ReplaceAll(ReplaceAll(r3, '"', "&quot;"), '\'', "&#039;") == r3
  {
    ReplaceAllAbsent(r3, '"', "&quot;");
    ReplaceAllAbsent(r3, '\'', "&#039;");
  }

  /** Text without any of the five reserved characters is rendered as it is. */
  lemma EscapeHtmlInert(s: string)
    requires '&' !in s && '<' !in s && '>' !in s && '"' !in s && '\'' !in s
    ensures EscapeHtml(s) == s
  {
    ReplaceAllAbsent(s, '&', "&amp;");
    ReplaceAllAbsent(s, '<', "&lt;");
    ReplaceAllAbsent(s, '>', "&gt;");
    ReplaceAllAbsent(s, '"', "&quot;");
    ReplaceAllAbsent(s, '\'', "&#039;");
  }

  /** Replacing `&` first makes the chain equal to the single-pass,
      per-character escaping: no reference is escaped a second time. */
  lemma {:induction false} EscapeHtmlIsPerChar(s: string)
    ensures EscapeHtml(s) == EscapeEach(s)
  {
    if s == [] {
    } else {
      assert s == [s[0]] + s[1..];
      EscapeHtmlAppend([s[0]], s[1..]);
      EscapeHtmlChar(s[0]);
      EscapeHtmlIsPerChar(s[1..]);
    }
  }

  predicate StartsWith(t: string, prefix: string) {
    |prefix| <= |t| && t[..|prefix|] == prefix
  }

  /** The character a reference at the front of `t` stands for, and the
      reference's length; any other character stands for itself. */
  function DecodeFront(t: string): (d: (char, nat))
    requires t != []
    ensures 1 <= d.1 <= |t|
  {
    if StartsWith(t, "&amp;") then ('&', 5)
    else if StartsWith(t, "&lt;") then ('<', 4)
    else if StartsWith(t, "&gt;") then ('>', 4)
    else if StartsWith(t, "&quot;") then ('"', 6)
    else if StartsWith(t, "&#039;") then ('\'', 6)
    else (t[0], 1)
  }

  /** Decoding of the five references, reading left to right. */
  function Unescape(t: string): string
    decreases |t|
  {
    if t == [] then [] else var d := DecodeFront(t); [d.0] + Unescape(t[d.1..])
  }

  /** Decoding reads exactly one character's reference from the front. */
  lemma DecodeFrontEscapeChar(c: char, rest: string)
    ensures DecodeFront(EscapeChar(c) + rest) == (c, |EscapeChar(c)|)
  {
    var e := EscapeChar(c);
    var t := e + rest;
    assert t[..|e|] == e && t[0] == e[0];
    assert |e| > 1 ==> t[1] == e[1];
  }

  lemma UnescapeCons(c: char, rest: string)
    ensures Unescape(EscapeChar(c) + rest) == [c] + Unescape(rest)
  {
    var t := EscapeChar(c) + rest;
    DecodeFrontEscapeChar(c, rest);
    assert t[|EscapeChar(c)|..] == rest;
  }

  /** Escaping loses no information: decoding the rendered text gives back
      the original text. */
  lemma {:induction false} UnescapeEscapeHtml(s: string)
    ensures Unescape(EscapeHtml(s)) == s
  {
    EscapeHtmlIsPerChar(s);
    EscapeEachRoundTrip(s);
  }

  lemma {:induction false} EscapeEachRoundTrip(s: string)
    ensures Unescape(EscapeEach(s)) == s
  {
    if s != [] {
      UnescapeCons(s[0], EscapeEach(s[1..]));
      EscapeEachRoundTrip(s[1..]);
    }
  }

  predicate HasNoMarkup(t: string) {
    '<' !in t && '>' !in t && '"' !in t && '\'' !in t
  }

  lemma {:induction false} EscapeEachNoMarkup(s: string)
    ensures HasNoMarkup(EscapeEach(s))
  {
    if s != [] {
      EscapeEachNoMarkup(s[1..]);
      var e := EscapeChar(s[0]);
      assert HasNoMarkup(e);
      var t := EscapeEach(s[1..]);
      assert forall x :: x in e + t ==> x in e || x in t;
    }
  }

  /** No markup delimiter or quote survives escaping: the only characters
      that can open a tag or close an attribute value are all replaced. */
  lemma EscapeHtmlNoMarkup(s: string)
    ensures HasNoMarkup(EscapeHtml(s))
  {
    EscapeHtmlIsPerChar(s);
    EscapeEachNoMarkup(s);
  }
}
