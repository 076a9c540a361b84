/**
 * Escaping for XML (crates/glpi-inventory-remote/src/winrm.rs and
 * crates/glpi-vsphere/src/soap.rs), with the reader that undoes it.
 */
module Escape {
  import opened Common

  /** `str::replace` of one character by a text. */
  function Replace(s: string, c: char, text: string): string {
    if s == [] then [] else (if s[0] == c then text else [s[0]]) + Replace(s[1..], c, text)
  }

  lemma {:induction false} ReplaceAppend(a: string, b: string, c: char, text: string)
    ensures Replace(a + b, c, text) == Replace(a, c, text) + Replace(b, c, text)
  {
    if a == [] {
      assert a + b == b;
    } else {
      assert (a + b)[1..] == a[1..] + b;
      ReplaceAppend(a[1..], b, c, text);
    }
  }

  lemma {:induction false} ReplaceAbsent(s: string, c: char, text: string)
    requires c !in s
    ensures Replace(s, c, text) == s
  {
    if s != [] { ReplaceAbsent(s[1..], c, text); }
  }

  // ---- XML ----------------------------------------------------------------------------

  /** The chained replaces of the WinRM client. */
  function WinrmEscape(s: string): string {
    Replace(Replace(Replace(Replace(s, '&', "&amp;"), '<', "&lt;"), '>', "&gt;"), '"', "&quot;")
  }

  /** The chained replaces of the SOAP client. */
  function SoapEscape(s: string): string {
    Replace(WinrmEscape(s), '\'', "&apos;")
  }

  /** The entity of a special character, or the character itself. */
  function Entity(c: char, apos: bool): string {
    if c == '&' then "&amp;" else if c == '<' then "&lt;" else if c == '>' then "&gt;"
    else if c == '"' then "&quot;" else if apos && c == '\'' then "&apos;" else [c]
  }

  /** One pass over the characters. */
  function EscapeOnce(s: string, apos: bool): string {
    if s == [] then [] else Entity(s[0], apos) + EscapeOnce(s[1..], apos)
  }

  lemma WinrmAppend(a: string, b: string)
    ensures WinrmEscape(a + b) == WinrmEscape(a) + WinrmEscape(b)
  {
    ReplaceAppend(a, b, '&', "&amp;");
    var a1, b1 := Replace(a, '&', "&amp;"), Replace(b, '&', "&amp;");
    ReplaceAppend(a1, b1, '<', "&lt;");
    var a2, b2 := Replace(a1, '<', "&lt;"), Replace(b1, '<', "&lt;");
    ReplaceAppend(a2, b2, '>', "&gt;");
    ReplaceAppend(Replace(a2, '>', "&gt;"), Replace(b2, '>', "&gt;"), '"', "&quot;");
  }

  lemma ReplaceOne(d: char, c: char, text: string)
    ensures Replace([d], c, text) == if d == c then text else [d]
  {
    assert Replace([d][1..], c, text) == [];
  }

  lemma WinrmOfChar(d: char)
    ensures WinrmEscape([d]) == Entity(d, false)
  {
    var s1 := if d == '&' then "&amp;" else [d];
    var s2 := if d == '<' then "&lt;" else s1;
    var s3 := if d == '>' then "&gt;" else s2;
    Stage([d], d, '&', "&amp;");
    assert '<' !in "&amp;" && '>' !in "&amp;" && '"' !in "&amp;";
    Stage(s1, d, '<', "&lt;");
    assert '>' !in "&lt;" && '"' !in "&lt;";
    Stage(s2, d, '>', "&gt;");
    assert '"' !in "&gt;";
    Stage(s3, d, '"', "&quot;");
  }

  /** One replace on a single character, or on the entity another replace put in its place. */
  lemma Stage(s: string, d: char, c: char, text: string)
    requires s == [d] || (d != c && c !in s)
    ensures Replace(s, c, text) == if d == c then text else s
  {
    if d == c { ReplaceOne(d, c, text); } else { ReplaceAbsent(s, c, text); }
  }

  /** The WinRM chain is a single pass: no replace touches what an earlier one put in. */
  lemma {:induction false} WinrmIsOnePass(s: string)
    ensures WinrmEscape(s) == EscapeOnce(s, false)
  {
    if s != [] {
      assert s == [s[0]] + s[1..];
      WinrmAppend([s[0]], s[1..]);
      WinrmOfChar(s[0]);
      WinrmIsOnePass(s[1..]);
    }
  }

  lemma {:induction false} AposPass(s: string)
    ensures Replace(EscapeOnce(s, false), '\'', "&apos;") == EscapeOnce(s, true)
  {
    if s != [] {
      ReplaceAppend(Entity(s[0], false), EscapeOnce(s[1..], false), '\'', "&apos;");
      AposPass(s[1..]);
      Stage(Entity(s[0], false), s[0], '\'', "&apos;");
    }
  }

  /** So is the SOAP chain, with the apostrophe as fifth character. */
  lemma SoapIsOnePass(s: string)
    ensures SoapEscape(s) == EscapeOnce(s, true)
  {
    WinrmIsOnePass(s);
    AposPass(s);
  }

  /** Character data with the predefined entities (section 4.6 of XML 1.0); no other reference is known. */
  function Unescape(t: string): Option<string>
    decreases |t|
  {
    if t == [] then Some([])
    else if t[0] != '&' then Cons(t[0], Unescape(t[1..]))
    else if "&amp;" <= t then Cons('&', Unescape(t[5..]))
    else if "&lt;" <= t then Cons('<', Unescape(t[4..]))
    else if "&gt;" <= t then Cons('>', Unescape(t[4..]))
    else if "&quot;" <= t then Cons('"', Unescape(t[6..]))
    else if "&apos;" <= t then Cons('\'', Unescape(t[6..]))
    else None
  }

  function Cons(c: char, rest: Option<string>): Option<string> {
    if rest.Some? then Some([c] + rest.value) else None
  }

  lemma EntityReads(c: char, apos: bool, rest: string)
    ensures Unescape(Entity(c, apos) + rest) == Cons(c, Unescape(rest))
  {
    var e := Entity(c, apos);
    var t := e + rest;
    assert t[|e|..] == rest;
    assert e <= t;
    if |e| > 1 { assert t[1] == e[1] && t[2] == e[2]; }
  }

  /** Decoding undoes the single pass for every string. */
  lemma {:induction false} UnescapeEscape(s: string, apos: bool)
    ensures Unescape(EscapeOnce(s, apos)) == Some(s)
  {
    if s != [] {
      EntityReads(s[0], apos, EscapeOnce(s[1..], apos));
      UnescapeEscape(s[1..], apos);
      assert s == [s[0]] + s[1..];
    }
  }

  /** Both escapes are undone by entity decoding. */
  lemma EscapesRoundTrip(s: string)
    ensures Unescape(WinrmEscape(s)) == Some(s) && Unescape(SoapEscape(s)) == Some(s)
  {
    WinrmIsOnePass(s);
    SoapIsOnePass(s);
    UnescapeEscape(s, false);
    UnescapeEscape(s, true);
  }

  lemma NoMarkupInEntity(c: char, apos: bool)
    ensures var t := Entity(c, apos); '<' !in t && '>' !in t && '"' !in t && (apos ==> '\'' !in t)
  {
  }

  /** Nothing that could open or close markup is left, nor a quote that could end an attribute. */
  lemma {:induction false} NoMarkupLeft(s: string, apos: bool)
    ensures var t := EscapeOnce(s, apos); '<' !in t && '>' !in t && '"' !in t && (apos ==> '\'' !in t)
  {
    if s != [] {
      NoMarkupLeft(s[1..], apos);
      NoMarkupInEntity(s[0], apos);
    }
  }

  /** Both chains escape character by character, with these entities. */
  lemma EscapesByCharacter(a: string, b: string, c: char)
    ensures SoapEscape(a + b) == SoapEscape(a) + SoapEscape(b)
    ensures WinrmEscape(a + b) == WinrmEscape(a) + WinrmEscape(b)
    ensures WinrmEscape([c]) == (
      if c == '&' then "&amp;" else if c == '<' then "&lt;" else if c == '>' then "&gt;"
      else if c == '"' then "&quot;" else [c])
    ensures SoapEscape([c]) == if c == '\'' then "&apos;" else WinrmEscape([c])
  {
    WinrmAppend(a, b);
    ReplaceAppend(WinrmEscape(a), WinrmEscape(b), '\'', "&apos;");
    WinrmOfChar(c);
    Stage(Entity(c, false), c, '\'', "&apos;");
  }
}
