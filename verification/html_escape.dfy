/** HTML escaping as the renderer uses it: Python's `html.escape(s)` with its
    default `quote=True`, which rewrites the five characters `& < > " '`. */
module HtmlEscape {

  /** Characters that would be markup if left in place. */
  predicate IsMarkup(c: char)
  {
    c == '<' || c == '>' || c == '"' || c == '\''
  }

  function EscapeChar(c: char): (r: string)
    ensures |r| >= 1
    ensures forall i :: 0 <= i < |r| ==> !IsMarkup(r[i])
    ensures c != '&' && !IsMarkup(c) ==> r == [c]
  {
    if c == '&' then "&amp;"
    else if c == '<' then "&lt;"
    else if c == '>' then "&gt;"
    else if c == '"' then "&quot;"
    else if c == '\'' then "&#x27;"
    else [c]
  }

  /** `html.escape(s)` */
  function Escape(s: string): (r: string)
    ensures |r| >= |s|
    ensures forall i :: 0 <= i < |r| ==> !IsMarkup(r[i])
  {
    if s == [] then "" else EscapeChar(s[0]) + Escape(s[1..])
  }

  /** Escaping distributes over concatenation. */
  lemma {:induction false} EscapeAppend(a: string, b: string)
    ensures Escape(a + b) == Escape(a) + Escape(b)
    decreases |a|
  {
    if a != [] {
      assert (a + b)[1..] == a[1..] + b;
      EscapeAppend(a[1..], b);
    } else {
      assert a + b == b;
    }
  }

  predicate HasPrefix(s: string, p: string)
  {
    |p| <= |s| && s[..|p|] == p
  }

  /** The character an escaped text starts with, and how many characters
      of the text spell it. */
  function DecodeFirst(s: string): (r: (char, nat))
    requires s != []
    ensures 1 <= r.1 <= |s|
  {
    if s[0] != '&' then (s[0], 1)
    else if HasPrefix(s, "&amp;") then ('&', 5)
    else if HasPrefix(s, "&lt;") then ('<', 4)
    else if HasPrefix(s, "&gt;") then ('>', 4)
    else if HasPrefix(s, "&quot;") then ('"', 6)
    else if HasPrefix(s, "&#x27;") then ('\'', 6)
    else ('&', 1)
  }

  /** Reads the five entities back; everything else is copied. */
  function Unescape(s: string): string
    decreases |s|
  {
    if s == [] then ""
    else
      var d := DecodeFirst(s);
      [d.0] + Unescape(s[d.1..])
  }

  /** The escape of one character is read back as that character. */
  lemma DecodeEscapeChar(c: char, rest: string)
    ensures DecodeFirst(EscapeChar(c) + rest) == (c, |EscapeChar(c)|)
  {
    var t := EscapeChar(c) + rest;
    if c == '&' {
      assert t[..5] == "&amp;";
    } else if c == '<' {
      assert t[1] == 'l';
      assert t[..4] == "&lt;";
    } else if c == '>' {
      assert t[1] == 'g' && t[2] == 't';
      assert t[..4] == "&gt;";
    } else if c == '"' {
      assert t[1] == 'q';
      assert t[..6] == "&quot;";
    } else if c == '\'' {
      assert t[1] == '#';
      assert t[..6] == "&#x27;";
    } else {
      assert t[0] == c;
    }
  }

  /** Escaping loses nothing: the original text can always be recovered. */
  lemma {:induction false} UnescapeEscape(s: string)
    ensures Unescape(Escape(s)) == s
    decreases |s|
  {
    if s != [] {
      var e := EscapeChar(s[0]);
      var rest := Escape(s[1..]);
      var t := e + rest;
      assert Escape(s) == t;
      DecodeEscapeChar(s[0], rest);
      assert t[|e|..] == rest;
      UnescapeEscape(s[1..]);
      assert s == [s[0]] + s[1..];
    }
  }

  /** Different texts never escape to the same markup. */
  lemma EscapeInjective(a: string, b: string)
    requires Escape(a) == Escape(b)
    ensures a == b
  {
    UnescapeEscape(a);
    UnescapeEscape(b);
  }
}
