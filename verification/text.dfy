/** String helpers shared by the model: the small part of Python's `str`
    behaviour the bot relies on (substring tests, prefix/suffix tests,
    lower-casing, stripping, splitting, slicing and integer formatting).
    Strings are sequences of Unicode scalar values, as Python's are. */
module Text {

  /** `sub in s` */
  predicate Contains(s: string, sub: string)
    decreases |s|
  {
    StartsWith(s, sub) || (s != [] && Contains(s[1..], sub))
  }

  /** `s.startswith(p)` */
  predicate StartsWith(s: string, p: string)
  {
    |p| <= |s| && s[..|p|] == p
  }

  /** `s.endswith(p)` */
  predicate EndsWith(s: string, p: string)
  {
    |p| <= |s| && s[|s| - |p|..] == p
  }

  /** An occurrence at position `i` makes `sub in s` true. */
  lemma {:induction false} ContainsAt(s: string, sub: string, i: nat)
    requires i + |sub| <= |s| && s[i..i + |sub|] == sub
    ensures Contains(s, sub)
    decreases i
  {
    if i > 0 {
      assert s[1..][i - 1..i - 1 + |sub|] == sub;
      ContainsAt(s[1..], sub, i - 1);
    } else {
      assert s[..|sub|] == sub;
    }
  }

  /** `sub in s` gives an occurrence. */
  lemma {:induction false} ContainsWitness(s: string, sub: string) returns (i: nat)
    requires Contains(s, sub)
    ensures i + |sub| <= |s| && s[i..i + |sub|] == sub
    decreases |s|
  {
    if StartsWith(s, sub) {
      i := 0;
    } else {
      var j := ContainsWitness(s[1..], sub);
      assert s[1..][j..j + |sub|] == s[j + 1..j + 1 + |sub|];
      i := j + 1;
    }
  }

  /** A longer string contains whatever its part contains. */
  lemma ContainsInfix(pre: string, s: string, post: string, sub: string)
    requires Contains(s, sub)
    ensures Contains(pre + s + post, sub)
  {
    var i := ContainsWitness(s, sub);
    assert (pre + s + post)[|pre| + i..|pre| + i + |sub|] == s[i..i + |sub|];
    ContainsAt(pre + s + post, sub, |pre| + i);
  }

  /** Python's `a or b or ...` over strings: the first non-empty one. */
  function FirstNonEmpty(xs: seq<string>): (r: string)
    ensures r == "" <==> forall i :: 0 <= i < |xs| ==> xs[i] == ""
    ensures r != "" ==> exists i :: 0 <= i < |xs| && xs[i] == r && forall j :: 0 <= j < i ==> xs[j] == ""
  {
    if xs == [] then ""
    else if xs[0] != "" then xs[0]
    else
      var r := FirstNonEmpty(xs[1..]);
      assert forall i :: 1 <= i < |xs| ==> xs[i] == xs[1..][i - 1];
      r
  }

  /** `s[:n]` for a non-negative `n` (Python clamps a too-large bound). */
  function Take(s: string, n: nat): (r: string)
    ensures |r| == if n < |s| then n else |s|
    ensures r == s[..|r|]
  {
    if n < |s| then s[..n] else s
  }

  /** `c * n` for a single character; Python gives "" for `n <= 0`. */
  function Repeat(c: char, n: int): (r: string)
    ensures |r| == if n <= 0 then 0 else n
    ensures forall i :: 0 <= i < |r| ==> r[i] == c
  {
    if n <= 0 then "" else [c] + Repeat(c, n - 1)
  }

  /** Upper-case letters `lower()` folds: ASCII A-Z, Cyrillic А-Я and Ё. */
  predicate IsUpper(c: char)
  {
    ('A' <= c <= 'Z') || ('\U{0410}' <= c <= '\U{042F}') || c == '\U{0401}'
  }

  function LowerChar(c: char): (r: char)
    ensures !IsUpper(r)
    ensures !IsUpper(c) ==> r == c
  {
    if 'A' <= c <= 'Z' then (c as int + 32) as char
    else if '\U{0410}' <= c <= '\U{042F}' then (c as int + 32) as char
    else if c == '\U{0401}' then '\U{0451}'
    else c
  }

  /** `s.lower()`, restricted to the letters listed in `IsUpper`. */
  function Lower(s: string): (r: string)
    ensures |r| == |s|
    ensures forall i :: 0 <= i < |s| ==> r[i] == LowerChar(s[i])
  {
    if s == [] then [] else [LowerChar(s[0])] + Lower(s[1..])
  }

  /** Lower-casing is idempotent. */
  lemma LowerIdempotent(s: string)
    ensures Lower(Lower(s)) == Lower(s)
  {
  }

  /** The characters `str.isspace()` accepts, which `str.strip()` removes:
      tab to carriage return, the four separators U+001C..U+001F, space,
      next line, no-break space, the Ogham space mark, the general
      punctuation spaces U+2000..U+200A, the line and paragraph separators,
      the narrow no-break and medium mathematical spaces, and the
      ideographic space. */
  predicate IsSpace(c: char)
  {
    || '\U{0009}' <= c <= '\U{000D}'
    || '\U{001C}' <= c <= '\U{0020}'
    || c == '\U{0085}' || c == '\U{00A0}' || c == '\U{1680}'
    || '\U{2000}' <= c <= '\U{200A}'
    || c == '\U{2028}' || c == '\U{2029}' || c == '\U{202F}' || c == '\U{205F}'
    || c == '\U{3000}'
  }

  function StripLeft(s: string): (r: string)
    ensures |r| <= |s| && r == s[|s| - |r|..]
    ensures r == [] || !IsSpace(r[0])
    ensures forall i :: 0 <= i < |s| - |r| ==> IsSpace(s[i])
  {
    if s != [] && IsSpace(s[0]) then StripLeft(s[1..]) else s
  }

  function StripRight(s: string): (r: string)
    ensures |r| <= |s| && r == s[..|r|]
    ensures r == [] || !IsSpace(r[|r| - 1])
    ensures forall i :: |r| <= i < |s| ==> IsSpace(s[i])
  {
    if s != [] && IsSpace(s[|s| - 1]) then StripRight(s[..|s| - 1]) else s
  }

  /** `s.strip()` */
  function Strip(s: string): (r: string)
    ensures r == [] || (!IsSpace(r[0]) && !IsSpace(r[|r| - 1]))
    ensures |r| <= |s|
  {
    StripRight(StripLeft(s))
  }

  /** Stripping keeps a run of the original characters. */
  lemma StripChars(s: string)
    ensures forall i :: 0 <= i < |Strip(s)| ==> Strip(s)[i] in s
  {
    var l := StripLeft(s);
    var r := StripRight(l);
    forall i | 0 <= i < |r|
      ensures r[i] in s
    {
      assert r[i] == l[i] == s[|s| - |l| + i];
    }
  }

  /** A string with no surrounding whitespace strips to itself. */
  lemma StripNoSpace(s: string)
    requires s == [] || (!IsSpace(s[0]) && !IsSpace(s[|s| - 1]))
    ensures Strip(s) == s
  {
  }

  lemma {:induction false} StripLeftPad(pre: string, u: string)
    requires forall i :: 0 <= i < |pre| ==> IsSpace(pre[i])
    requires u == [] || !IsSpace(u[0])
    ensures StripLeft(pre + u) == u
    decreases |pre|
  {
    if pre == [] {
      assert pre + u == u;
    } else {
      assert (pre + u)[0] == pre[0];
      assert (pre + u)[1..] == pre[1..] + u;
      StripLeftPad(pre[1..], u);
    }
  }

  lemma {:induction false} StripRightPad(u: string, post: string)
    requires forall i :: 0 <= i < |post| ==> IsSpace(post[i])
    requires u == [] || !IsSpace(u[|u| - 1])
    ensures StripRight(u + post) == u
    decreases |post|
  {
    if post == [] {
      assert u + post == u;
    } else {
      var v := u + post;
      assert v[|v| - 1] == post[|post| - 1];
      assert v[..|v| - 1] == u + post[..|post| - 1];
      StripRightPad(u, post[..|post| - 1]);
    }
  }

  /** Whitespace around a token is what `strip()` removes. */
  lemma StripPadding(pre: string, t: string, post: string)
    requires forall i :: 0 <= i < |pre| ==> IsSpace(pre[i])
    requires forall i :: 0 <= i < |post| ==> IsSpace(post[i])
    requires t != [] && !IsSpace(t[0]) && !IsSpace(t[|t| - 1])
    ensures Strip(pre + t + post) == t
  {
    assert pre + t + post == pre + (t + post);
    StripLeftPad(pre, t + post);
    StripRightPad(t, post);
  }

  /** `s.split(sep)` for a one-character separator: always at least one piece. */
  function Split(s: string, sep: char): (r: seq<string>)
    ensures |r| >= 1
    ensures forall i :: 0 <= i < |r| ==> sep !in r[i]
    decreases |s|
  {
    if sep !in s then [s]
    else
      var k := IndexOf(s, sep);
      [s[..k]] + Split(s[k + 1..], sep)
  }

  /** Position of the first `c` in `s`. */
  function IndexOf(s: string, c: char): (k: nat)
    requires c in s
    ensures k < |s| && s[k] == c && c !in s[..k]
  {
    if s[0] == c then 0 else 1 + IndexOf(s[1..], c)
  }

  /** The first position holding `c` is the one `IndexOf` finds. */
  lemma {:induction false} IndexOfAt(s: string, c: char, k: nat)
    requires k < |s| && s[k] == c && c !in s[..k]
    ensures IndexOf(s, c) == k
  {
    if k > 0 {
      assert s[..k][0] == s[0];
      assert s[1..][..k - 1] == s[1..k];
      assert s[1..k] <= s[..k][1..];
      IndexOfAt(s[1..], c, k - 1);
    }
  }

  /** Position of the last `c` in `s`. */
  function LastIndexOf(s: string, c: char): (k: nat)
    requires c in s
    ensures k < |s| && s[k] == c && c !in s[k + 1..]
  {
    if s[|s| - 1] == c then |s| - 1 else LastIndexOf(s[..|s| - 1], c)
  }

  /** The last position holding `c` is the one `LastIndexOf` finds. */
  lemma {:induction false} LastIndexOfAt(s: string, c: char, k: nat)
    requires k < |s| && s[k] == c && c !in s[k + 1..]
    ensures LastIndexOf(s, c) == k
    decreases |s|
  {
    if s[|s| - 1] != c {
      var u := s[..|s| - 1];
      assert u[k + 1..] == s[k + 1..|s| - 1];
      assert forall j :: k + 1 <= j < |s| - 1 ==> s[j] == s[k + 1..][j - k - 1];
      LastIndexOfAt(u, c, k);
    }
  }

  /** `s.split(sep)[-1]` is the text after the last separator. */
  lemma SplitLast(s: string, sep: char)
    requires sep in s
    ensures var parts := Split(s, sep); parts[|parts| - 1] == s[LastIndexOf(s, sep) + 1..]
  {
    SplitLastPieceAfter(s, sep);
  }

  function LastPiece(parts: seq<string>): string
    requires |parts| >= 1
  {
    parts[|parts| - 1]
  }

  lemma {:induction false} SplitLastPieceAfter(s: string, sep: char)
    requires sep in s
    ensures LastPiece(Split(s, sep)) == s[LastIndexOf(s, sep) + 1..]
    decreases |s|
  {
    var k := IndexOf(s, sep);
    var rest := s[k + 1..];
    assert |rest| < |s|;
    if sep in rest {
      SplitLastPieceAfter(rest, sep);
      LastPieceOfMore(s, sep);
    } else {
      LastPieceOfTwo(s, sep);
    }
  }

  /** With one separator, the last piece is what follows it. */
  lemma LastPieceOfTwo(s: string, sep: char)
    requires sep in s && sep !in s[IndexOf(s, sep) + 1..]
    ensures LastPiece(Split(s, sep)) == s[LastIndexOf(s, sep) + 1..]
  {
    var k := IndexOf(s, sep);
    SplitLastPiece(s, sep);
    SplitNoSep(s[k + 1..], sep);
    LastIndexOfAt(s, sep, k);
  }

  /** With more separators, the last piece is the last piece of what follows
      the first one. */
  lemma LastPieceOfMore(s: string, sep: char)
    requires sep in s
    requires var rest := s[IndexOf(s, sep) + 1..];
      sep in rest && LastPiece(Split(rest, sep)) == rest[LastIndexOf(rest, sep) + 1..]
    ensures LastPiece(Split(s, sep)) == s[LastIndexOf(s, sep) + 1..]
  {
    var k := IndexOf(s, sep);
    SplitLastPiece(s, sep);
    LastAfterFirst(s, sep);
    SliceAfter(s, k, LastIndexOf(s[k + 1..], sep));
  }

  lemma SliceAfter(s: string, k: nat, j: nat)
    requires k + 1 + j < |s|
    ensures s[k + 1 + j + 1..] == s[k + 1..][j + 1..]
  {
  }

  lemma SplitNoSep(s: string, sep: char)
    requires sep !in s
    ensures Split(s, sep) == [s]
  {
  }

  /** When a separator follows the first one, the last separator of `s` is
      the last one of what follows the first. */
  lemma LastAfterFirst(s: string, sep: char)
    requires sep in s && sep in s[IndexOf(s, sep) + 1..]
    ensures LastIndexOf(s, sep) == IndexOf(s, sep) + 1 + LastIndexOf(s[IndexOf(s, sep) + 1..], sep)
  {
    var k := IndexOf(s, sep);
    var rest := s[k + 1..];
    var j := LastIndexOf(rest, sep);
    assert s[k + 1 + j] == sep;
    SliceAfter(s, k, j);
    LastIndexOfAt(s, sep, k + 1 + j);
  }

  /** `s.split(sep)` when `s` holds a separator: the text before the first
      one, then the pieces of the rest. */
  lemma SplitUnfold(s: string, sep: char)
    requires sep in s
    ensures Split(s, sep) == [s[..IndexOf(s, sep)]] + Split(s[IndexOf(s, sep) + 1..], sep)
  {
  }

  lemma LastPieceAppend(a: seq<string>, b: seq<string>)
    requires |b| >= 1
    ensures LastPiece(a + b) == LastPiece(b)
  {
  }

  /** The last piece of `s` is the last piece of what follows its first
      separator. */
  lemma SplitLastPiece(s: string, sep: char)
    requires sep in s
    ensures LastPiece(Split(s, sep)) == LastPiece(Split(s[IndexOf(s, sep) + 1..], sep))
  {
    SplitUnfold(s, sep);
    var k := IndexOf(s, sep);
    LastPieceAppend([s[..k]], Split(s[k + 1..], sep));
  }

  /** `sep.join(parts)` */
  function Join(parts: seq<string>, sep: char): string
  {
    if |parts| == 0 then ""
    else if |parts| == 1 then parts[0]
    else parts[0] + [sep] + Join(parts[1..], sep)
  }

  /** Splitting undoes joining when no piece holds the separator. */
  lemma {:induction false} SplitJoin(parts: seq<string>, sep: char)
    requires |parts| >= 1
    requires forall i :: 0 <= i < |parts| ==> sep !in parts[i]
    ensures Split(Join(parts, sep), sep) == parts
    decreases |parts|
  {
    if |parts| == 1 {
      assert Join(parts, sep) == parts[0];
    } else {
      var rest := Join(parts[1..], sep);
      var s := parts[0] + [sep] + rest;
      assert Join(parts, sep) == s;
      assert s[|parts[0]|] == sep;
      assert s[..|parts[0]|] == parts[0];
      assert sep in s;
      IndexOfAt(s, sep, |parts[0]|);
      var k := IndexOf(s, sep);
      assert s[k + 1..] == rest;
      SplitJoin(parts[1..], sep);
    }
  }

  predicate IsDigit(c: char)
  {
    '0' <= c <= '9'
  }

  /** No digit is whitespace. */
  lemma DigitNotSpace(c: char)
    requires IsDigit(c)
    ensures !IsSpace(c)
  {
  }

  /** `s.isdigit()` over ASCII digits: non-empty and all digits. */
  predicate AllDigits(s: string)
  {
    |s| > 0 && forall i :: 0 <= i < |s| ==> IsDigit(s[i])
  }

  function DigitValue(c: char): (d: nat)
    requires IsDigit(c)
    ensures d < 10
  {
    c as int - '0' as int
  }

  function DigitChar(d: nat): (c: char)
    requires d < 10
    ensures IsDigit(c) && DigitValue(c) == d
  {
    ('0' as int + d) as char
  }

  /** `int(s)` for a string of ASCII digits (leading zeros allowed). */
  function ParseNat(s: string): nat
    requires forall i :: 0 <= i < |s| ==> IsDigit(s[i])
  {
    if s == [] then 0 else 10 * ParseNat(s[..|s| - 1]) + DigitValue(s[|s| - 1])
  }

  /** `str(n)` for a natural number: no leading zeros. */
  function NatToString(n: nat): (r: string)
    ensures AllDigits(r)
    ensures |r| > 1 ==> r[0] != '0'
  {
    if n < 10 then [DigitChar(n)] else NatToString(n / 10) + [DigitChar(n % 10)]
  }

  /** Reading back what `NatToString` wrote gives the number. */
  lemma {:induction false} ParseNatToString(n: nat)
    ensures ParseNat(NatToString(n)) == n
  {
    if n >= 10 {
      var s := NatToString(n);
      assert s[..|s| - 1] == NatToString(n / 10);
      ParseNatToString(n / 10);
    }
  }

  /** `str(n)` for any integer. */
  function IntToString(n: int): (r: string)
    ensures |r| > 0
    ensures (r[0] == '-') <==> n < 0
  {
    if n < 0 then "-" + NatToString(-n) else NatToString(n)
  }
}
