/**
 * String helpers shared by the request handlers and the admin script:
 * Python's `str.strip()` and `str.upper()`, JavaScript's `String.prototype.trim()`
 * and `toLowerCase()`, and prefix tests.
 */
module Text {

  /** The characters Python's `str.isspace()` accepts, which `str.strip()` removes. */
  const PyWhitespace: set<char> := {
    '\t', '\n', '\U{0B}', '\U{0C}', '\r',                  // TAB, LF, VT, FF, CR
    '\U{1C}', '\U{1D}', '\U{1E}', '\U{1F}',                // file, group, record and unit separators
    ' ', '\U{85}', '\U{A0}', '\U{1680}',
    '\U{2000}', '\U{2001}', '\U{2002}', '\U{2003}', '\U{2004}', '\U{2005}', '\U{2006}', '\U{2007}', '\U{2008}', '\U{2009}', '\U{200A}',
    '\U{2028}', '\U{2029}', '\U{202F}', '\U{205F}', '\U{3000}'}

  /** WhiteSpace and LineTerminator of ECMAScript, which `String.prototype.trim()` removes. */
  const JsWhitespace: set<char> := {
    '\t', '\n', '\U{0B}', '\U{0C}', '\r', ' ', '\U{A0}', '\U{FEFF}', '\U{1680}',
    '\U{2000}', '\U{2001}', '\U{2002}', '\U{2003}', '\U{2004}', '\U{2005}', '\U{2006}', '\U{2007}', '\U{2008}', '\U{2009}', '\U{200A}',
    '\U{2028}', '\U{2029}', '\U{202F}', '\U{205F}', '\U{3000}'}

  /** Drops the leading characters in `ws`. */
  function TrimStart(s: string, ws: set<char>): string {
    if s != [] && s[0] in ws then TrimStart(s[1..], ws) else s
  }

  /** Drops the trailing characters in `ws`. */
  function TrimEnd(s: string, ws: set<char>): string {
    if s != [] && s[|s| - 1] in ws then TrimEnd(s[..|s| - 1], ws) else s
  }

  /** Removes the characters in `ws` from both ends. */
  function Trim(s: string, ws: set<char>): string {
    TrimEnd(TrimStart(s, ws), ws)
  }

  /** Python `str.strip()` with no argument. */
  function Strip(s: string): string {
    Trim(s, PyWhitespace)
  }

  /**
   * TrimStart leaves a suffix of its input; everything it cut is in `ws`
   * and what is left does not start with a character of `ws`.
   */
  lemma {:induction false} TrimStartSpec(s: string, ws: set<char>)
    ensures var r := TrimStart(s, ws);
            && |r| <= |s| && r == s[|s| - |r|..]
            && (forall i :: 0 <= i < |s| - |r| ==> s[i] in ws)
            && (r != [] ==> r[0] !in ws)
  {
    if s != [] && s[0] in ws {
      TrimStartSpec(s[1..], ws);
    }
  }

  /**
   * TrimEnd leaves a prefix of its input; everything it cut is in `ws`
   * and what is left does not end with a character of `ws`.
   */
  lemma {:induction false} TrimEndSpec(s: string, ws: set<char>)
    ensures var r := TrimEnd(s, ws);
            && |r| <= |s| && r == s[..|r|]
            && (forall i :: |r| <= i < |s| ==> s[i] in ws)
            && (r != [] ==> r[|r| - 1] !in ws)
  {
    if s != [] && s[|s| - 1] in ws {
      TrimEndSpec(s[..|s| - 1], ws);
    }
  }

  /**
   * What Trim leaves is the slice of `s` from `a` on, for some `a`; it
   * neither starts nor ends with a character of `ws`, and everything cut
   * away on either side is in `ws`.
   */
  lemma TrimSpec(s: string, ws: set<char>) returns (a: nat)
    ensures var r := Trim(s, ws);
            && a + |r| <= |s| && r == s[a..a + |r|]
            && (forall i :: 0 <= i < a ==> s[i] in ws)
            && (forall i :: a + |r| <= i < |s| ==> s[i] in ws)
            && (r != [] ==> r[0] !in ws && r[|r| - 1] !in ws)
  {
    var t := TrimStart(s, ws);
    var r := TrimEnd(t, ws);
    TrimStartSpec(s, ws);
    TrimEndSpec(t, ws);
    a := |s| - |t|;
    assert r == s[a..a + |r|];
    forall i | a + |r| <= i < |s| ensures s[i] in ws {
      assert s[i] == t[i - a];
    }
  }

  /** The result of a strip is empty exactly when the input is all whitespace. */
  lemma TrimEmptyIff(s: string, ws: set<char>)
    ensures Trim(s, ws) == [] <==> forall i :: 0 <= i < |s| ==> s[i] in ws
  {
    var a := TrimSpec(s, ws);
    var r := Trim(s, ws);
    if r != [] {
      assert r[0] == s[a] && s[a] !in ws;
    }
  }

  /** Stripping twice is stripping once. */
  lemma TrimIdempotent(s: string, ws: set<char>)
    ensures Trim(Trim(s, ws), ws) == Trim(s, ws)
  {
    var r := Trim(s, ws);
    var _ := TrimSpec(s, ws);
    var t := TrimStart(r, ws);
    assert t == r;
    var u := TrimEnd(t, ws);
    assert u == r;
  }

  function UpperAsciiChar(c: char): char {
    if 'a' <= c <= 'z' then c - 'a' + 'A' else c
  }

  function LowerAsciiChar(c: char): char {
    if 'A' <= c <= 'Z' then c - 'A' + 'a' else c
  }

  /**
   * Python `str.upper()` on one character, exactly for the characters whose
   * upper-case form consists of ASCII characters only: ASCII letters, dotless i,
   * long s, sharp s and the Latin ligatures U+FB00..U+FB06. Every other
   * non-ASCII character is kept as it is; its real upper-case form always
   * contains a non-ASCII character, so the choice never affects a comparison
   * with an ASCII string.
   */
  function UpperChar(c: char): (u: string)
    ensures 'a' <= c <= 'z' ==> u == [c - 'a' + 'A']
    ensures c < '\U{80}' && !('a' <= c <= 'z') ==> u == [c]
  {
    if c == '\U{131}' then "I"
    else if c == '\U{17F}' then "S"
    else if c == '\U{DF}' then "SS"
    else if c == '\U{FB00}' then "FF"
    else if c == '\U{FB01}' then "FI"
    else if c == '\U{FB02}' then "FL"
    else if c == '\U{FB03}' then "FFI"
    else if c == '\U{FB04}' then "FFL"
    else if c == '\U{FB05}' || c == '\U{FB06}' then "ST"
    else [UpperAsciiChar(c)]
  }

  /** Python `str.upper()`, see UpperChar. */
  function Upper(s: string): (u: string)
    ensures (forall i :: 0 <= i < |s| ==> s[i] < '\U{80}') ==>
              |u| == |s| && forall i :: 0 <= i < |s| ==> u[i] == UpperAsciiChar(s[i])
  {
    if s == [] then [] else UpperChar(s[0]) + Upper(s[1..])
  }

  /**
   * JavaScript `toLowerCase()` restricted to ASCII letters. The only non-ASCII
   * characters whose lower-case form contains an ASCII letter are U+0130 (to
   * "i" and a combining dot) and U+212A (to "k"); neither can make a string
   * lower-case to "truth" or "dare", which is all this model compares with.
   */
  function LowerAscii(s: string): (l: string)
    ensures |l| == |s|
    ensures forall i :: 0 <= i < |s| ==> l[i] == LowerAsciiChar(s[i])
  {
    if s == [] then [] else [LowerAsciiChar(s[0])] + LowerAscii(s[1..])
  }

  /** `p` is a prefix of `s`. */
  predicate StartsWith(s: string, p: string) {
    |p| <= |s| && s[..|p|] == p
  }
}
