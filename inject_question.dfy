/**
 * The moderator's question-injection script (static/admin/js/inject_question.js):
 * reading a cookie out of `document.cookie`, which is the `;`-separated
 * cookie-pair list of section 4.2.1 of RFC 6265, with the value
 * percent-decoded by `decodeURIComponent` (percent-encoding as in section 2.1
 * of RFC 3986, octets read as UTF-8), and the checks made before the POST.
 *
 * `prompt` answers are inputs (`None` when the dialog is cancelled); the
 * POST itself is returned as a value instead of being sent.
 */
module InjectQuestion {
  import opened Common
  import opened Text
  import Models

  // ----------------------------------------------------------------------
  // Splitting and joining
  // ----------------------------------------------------------------------

  /** JavaScript `s.split(sep)` for a one-character separator: the pieces between separators. */
  function Split(s: string, sep: char): (pieces: seq<string>)
    ensures |pieces| >= 1
  {
    if s == [] then [""]
    else
      var rest := Split(s[1..], sep);
      if s[0] == sep then [""] + rest else [[s[0]] + rest[0]] + rest[1..]
  }

  /** JavaScript `pieces.join(sep)`. */
  function Join(pieces: seq<string>, sep: char): string {
    if pieces == [] then ""
    else if |pieces| == 1 then pieces[0]
    else pieces[0] + [sep] + Join(pieces[1..], sep)
  }

  /** No piece of a split holds the separator. */
  lemma {:induction false} SplitPiecesFree(s: string, sep: char)
    ensures forall k :: 0 <= k < |Split(s, sep)| ==> sep !in Split(s, sep)[k]
  {
    if s != [] {
      SplitPiecesFree(s[1..], sep);
    }
  }

  /** Joining the pieces of a split gives back the string. */
  lemma {:induction false} JoinSplit(s: string, sep: char)
    ensures Join(Split(s, sep), sep) == s
  {
    if s != [] {
      JoinSplit(s[1..], sep);
      var rest := Split(s[1..], sep);
      if s[0] != sep && |rest| > 1 {
        assert Join(rest, sep) == rest[0] + [sep] + Join(rest[1..], sep);
        assert ([[s[0]] + rest[0]] + rest[1..])[1..] == rest[1..];
      }
    }
  }

  /** A piece without the separator, then the separator: the split starts with that piece. */
  lemma {:induction false} SplitAfterPiece(p: string, sep: char, t: string)
    requires sep !in p
    ensures Split(p + [sep] + t, sep) == [p] + Split(t, sep)
  {
    if p == [] {
      assert ([sep] + t)[1..] == t;
    } else {
      assert (p + [sep] + t)[1..] == p[1..] + [sep] + t;
      SplitAfterPiece(p[1..], sep, t);
      assert [p[0]] + p[1..] == p;
    }
  }

  /** A string without the separator splits into itself. */
  lemma {:induction false} SplitSingle(p: string, sep: char)
    requires sep !in p
    ensures Split(p, sep) == [p]
  {
    if p != [] {
      SplitSingle(p[1..], sep);
      assert [p[0]] + p[1..] == p;
    }
  }

  /** Splitting the join of separator-free pieces gives back the pieces. */
  lemma {:induction false} SplitJoin(pieces: seq<string>, sep: char)
    requires pieces != []
    requires forall k :: 0 <= k < |pieces| ==> sep !in pieces[k]
    ensures Split(Join(pieces, sep), sep) == pieces
  {
    if |pieces| == 1 {
      SplitSingle(pieces[0], sep);
    } else {
      SplitJoin(pieces[1..], sep);
      SplitAfterPiece(pieces[0], sep, Join(pieces[1..], sep));
      assert [pieces[0]] + pieces[1..] == pieces;
    }
  }

  // ----------------------------------------------------------------------
  // decodeURIComponent
  // ----------------------------------------------------------------------

  /** The value of a hexadecimal digit of either case. */
  function HexValue(c: char): (d: Option<nat>)
    ensures d.Some? ==> d.value < 16
  {
    if '0' <= c <= '9' then Some(c as nat - '0' as nat)
    else if 'a' <= c <= 'f' then Some(c as nat - 'a' as nat + 10)
    else if 'A' <= c <= 'F' then Some(c as nat - 'A' as nat + 10)
    else None
  }

  /** The octet written `%XY` at position `k`, if one is written there. */
  function OctetAt(s: string, k: nat): (b: Option<nat>)
    ensures b.Some? ==> k + 3 <= |s| && b.value < 256
  {
    if k + 3 <= |s| && s[k] == '%' && HexValue(s[k + 1]).Some? && HexValue(s[k + 2]).Some? then
      Some(16 * HexValue(s[k + 1]).value + HexValue(s[k + 2]).value)
    else None
  }

  /** `n` escaped octets in a row from position `k`, if they are all there. */
  function OctetsAt(s: string, k: nat, n: nat): (octets: Option<seq<nat>>)
    ensures octets.Some? ==> |octets.value| == n && (n > 0 ==> k + 3 * n <= |s|)
    ensures octets.Some? && n > 0 ==> OctetAt(s, k) == Some(octets.value[0])
    decreases n
  {
    if n == 0 then Some([])
    else match OctetAt(s, k)
      case None => None
      case Some(b) =>
        match OctetsAt(s, k + 3, n - 1)
        case None => None
        case Some(rest) => Some([b] + rest)
  }

  /**
   * The length of the UTF-8 sequence that octet `b` starts, from its
   * leading one bits; 0 when it cannot start one (one leading bit, or more
   * than four).
   */
  function SequenceLength(b: nat): nat {
    if b < 0x80 then 1
    else if 0xC0 <= b < 0xE0 then 2
    else if 0xE0 <= b < 0xF0 then 3
    else if 0xF0 <= b < 0xF8 then 4
    else 0
  }

  /** A continuation octet, `10xxxxxx`. */
  predicate IsContinuation(b: nat) {
    0x80 <= b < 0xC0
  }

  /**
   * The character a UTF-8 sequence encodes, if it is a valid encoding: the
   * continuation octets are `10xxxxxx`, the code point needs this many
   * octets (no overlong form), and it is neither a surrogate nor above
   * U+10FFFF.
   */
  function Utf8Decode(octets: seq<nat>): Option<char>
    requires 1 <= |octets| <= 4 && |octets| == SequenceLength(octets[0])
  {
    var n := |octets|;
    if n == 1 then Some(octets[0] as char)
    else if !(forall j :: 1 <= j < n ==> IsContinuation(octets[j])) then None
    else
      var cp :=
        if n == 2 then (octets[0] - 0xC0) * 64 + (octets[1] - 0x80)
        else if n == 3 then (octets[0] - 0xE0) * 4096 + (octets[1] - 0x80) * 64 + (octets[2] - 0x80)
        else (octets[0] - 0xF0) * 262144 + (octets[1] - 0x80) * 4096 + (octets[2] - 0x80) * 64 + (octets[3] - 0x80);
      var least := if n == 2 then 0x80 else if n == 3 then 0x800 else 0x10000;
      if least <= cp <= 0x10FFFF && !(0xD800 <= cp <= 0xDFFF) then Some(cp as char) else None
  }

  function Prepend(c: char, rest: Option<string>): Option<string> {
    match rest
    case None => None
    case Some(r) => Some([c] + r)
  }

  /**
   * `decodeURIComponent(s)`: every `%XY` escape is an octet, and each run of
   * octets that forms a valid UTF-8 sequence becomes its character; every
   * other character is kept. `None` is the URIError thrown for a `%` not
   * followed by two hexadecimal digits, a truncated sequence, or octets that
   * are not valid UTF-8.
   */
  function PercentDecode(s: string): Option<string>
    decreases |s|
  {
    if s == [] then Some("")
    else if s[0] != '%' then Prepend(s[0], PercentDecode(s[1..]))
    else match OctetAt(s, 0)
      case None => None
      case Some(b) =>
        var n := SequenceLength(b);
        if n == 0 then None
        else match OctetsAt(s, 0, n)
          case None => None
          case Some(octets) =>
            match Utf8Decode(octets)
            case None => None
            case Some(c) => Prepend(c, PercentDecode(s[3 * n..]))
  }

  /** Without a `%` there is nothing to decode. */
  lemma {:induction false} DecodePlain(s: string)
    requires '%' !in s
    ensures PercentDecode(s) == Some(s)
  {
    if s != [] {
      DecodePlain(s[1..]);
      assert [s[0]] + s[1..] == s;
    }
  }

  // ----------------------------------------------------------------------
  // Percent-encoding, the inverse of decodeURIComponent
  // ----------------------------------------------------------------------

  /** An upper-case hexadecimal digit. */
  function HexDigit(d: nat): char
    requires d < 16
  {
    if d < 10 then (d + '0' as nat) as char else (d - 10 + 'A' as nat) as char
  }

  /** `%XY` for octet `b`. */
  function Escape(b: nat): string
    requires b < 256
  {
    ['%', HexDigit(b / 16), HexDigit(b % 16)]
  }

  /** The UTF-8 octets of a character. */
  function Utf8Encode(c: char): (octets: seq<nat>)
    ensures 1 <= |octets| <= 4 && |octets| == SequenceLength(octets[0])
    ensures forall j :: 0 <= j < |octets| ==> octets[j] < 256
  {
    var cp := c as int;
    if cp < 0x80 then [cp]
    else if cp < 0x800 then [0xC0 + cp / 64, 0x80 + cp % 64]
    else if cp < 0x10000 then [0xE0 + cp / 64 / 64, 0x80 + cp / 64 % 64, 0x80 + cp % 64]
    else [0xF0 + cp / 64 / 64 / 64, 0x80 + cp / 64 / 64 % 64, 0x80 + cp / 64 % 64, 0x80 + cp % 64]
  }

  /** The escapes of a run of octets. */
  function EscapeAll(octets: seq<nat>): string
    requires forall j :: 0 <= j < |octets| ==> octets[j] < 256
  {
    if octets == [] then "" else Escape(octets[0]) + EscapeAll(octets[1..])
  }

  /** Every character escaped as its UTF-8 octets. */
  function PercentEncode(s: string): string {
    if s == [] then "" else EscapeAll(Utf8Encode(s[0])) + PercentEncode(s[1..])
  }

  lemma HexRoundTrip(d: nat)
    requires d < 16
    ensures HexValue(HexDigit(d)) == Some(d)
  {
  }

  /** An escape reads back as its octet. */
  lemma EscapeRead(b: nat, rest: string)
    requires b < 256
    ensures OctetAt(Escape(b) + rest, 0) == Some(b)
  {
    HexRoundTrip(b / 16);
    HexRoundTrip(b % 16);
  }

  /** A run of escapes is three characters per octet. */
  lemma {:induction false} EscapeAllLength(octets: seq<nat>)
    requires forall j :: 0 <= j < |octets| ==> octets[j] < 256
    ensures |EscapeAll(octets)| == 3 * |octets|
  {
    if octets != [] {
      EscapeAllLength(octets[1..]);
    }
  }

  /** A run of escapes reads back as its octets. */
  lemma {:induction false} EscapeAllRead(octets: seq<nat>, rest: string)
    requires forall j :: 0 <= j < |octets| ==> octets[j] < 256
    ensures OctetsAt(EscapeAll(octets) + rest, 0, |octets|) == Some(octets)
  {
    if octets != [] {
      var n := |octets| - 1;
      var e := Escape(octets[0]);
      var t := EscapeAll(octets[1..]) + rest;
      assert EscapeAll(octets) + rest == e + t;
      EscapeAllRead(octets[1..], rest);
      EscapeRead(octets[0], t);
      OctetsShift(e, t, n);
      assert OctetsAt(e + t, 3, n) == Some(octets[1..]);
      assert [octets[0]] + octets[1..] == octets;
    }
  }

  /** Reading octets after a three-character prefix is reading them in the rest. */
  lemma {:induction false} OctetsShift(p: string, s: string, n: nat)
    requires |p| == 3
    ensures OctetsAt(p + s, 3, n) == OctetsAt(s, 0, n)
  {
    OctetsShiftAt(p, s, 0, n);
  }

  lemma {:induction false} OctetsShiftAt(p: string, s: string, k: nat, n: nat)
    requires |p| == 3
    ensures OctetsAt(p + s, k + 3, n) == OctetsAt(s, k, n)
    decreases n
  {
    if n > 0 {
      assert OctetAt(p + s, k + 3) == OctetAt(s, k) by {
        if k + 3 <= |s| {
          assert (p + s)[k + 3] == s[k] && (p + s)[k + 4] == s[k + 1] && (p + s)[k + 5] == s[k + 2];
        }
      }
      OctetsShiftAt(p, s, k + 3, n - 1);
    }
  }

  /** A three-octet sequence decodes to the code point its payload bits spell. */
  lemma Utf8Decode3(a: int, b: int, c: int)
    requires 0 <= a < 16 && 0 <= b < 64 && 0 <= c < 64
    requires 0x800 <= a * 4096 + b * 64 + c && !(0xD800 <= a * 4096 + b * 64 + c <= 0xDFFF)
    ensures Utf8Decode([0xE0 + a, 0x80 + b, 0x80 + c]) == Some((a * 4096 + b * 64 + c) as char)
  {
  }

  /** A four-octet sequence decodes to the code point its payload bits spell. */
  lemma Utf8Decode4(a: int, b: int, c: int, d: int)
    requires 0 <= a < 8 && 0 <= b < 64 && 0 <= c < 64 && 0 <= d < 64
    requires 0x10000 <= a * 262144 + b * 4096 + c * 64 + d <= 0x10FFFF
    ensures Utf8Decode([0xF0 + a, 0x80 + b, 0x80 + c, 0x80 + d]) == Some((a * 262144 + b * 4096 + c * 64 + d) as char)
  {
  }

  /** UTF-8 decoding undoes UTF-8 encoding. */
  lemma Utf8RoundTrip(c: char)
    ensures Utf8Decode(Utf8Encode(c)) == Some(c)
  {
    var cp := c as int;
    var q1 := cp / 64;
    var q2 := q1 / 64;
    if cp < 0x80 {
    } else if cp < 0x800 {
      assert cp == q1 * 64 + cp % 64;
    } else if cp < 0x10000 {
      assert cp == q2 * 4096 + q1 % 64 * 64 + cp % 64 by {
        assert q1 == q2 * 64 + q1 % 64;
      }
      Utf8Decode3(q2, q1 % 64, cp % 64);
    } else {
      var q3 := q2 / 64;
      assert cp == q3 * 262144 + q2 % 64 * 4096 + q1 % 64 * 64 + cp % 64 by {
        assert q1 == q2 * 64 + q1 % 64;
        assert q2 == q3 * 64 + q2 % 64;
      }
      Utf8Decode4(q3, q2 % 64, q1 % 64, cp % 64);
    }
  }

  /** Decoding an escaped character followed by more text yields the character, then the rest decoded. */
  lemma DecodeEscapedChar(c: char, rest: string)
    ensures PercentDecode(EscapeAll(Utf8Encode(c)) + rest) == Prepend(c, PercentDecode(rest))
  {
    var o := Utf8Encode(c);
    var s := EscapeAll(o) + rest;
    EscapeAllLength(o);
    EscapeAllRead(o, rest);
    assert s[0] == '%';
    Utf8RoundTrip(c);
    assert s[3 * |o|..] == rest;
  }

  /** `decodeURIComponent` undoes percent-encoding. */
  lemma {:induction false} DecodeEncode(s: string)
    ensures PercentDecode(PercentEncode(s)) == Some(s)
  {
    if s != [] {
      DecodeEncode(s[1..]);
      DecodeEscapedChar(s[0], PercentEncode(s[1..]));
      assert [s[0]] + s[1..] == s;
    }
  }

  /** The characters an escape is written with. */
  predicate IsEscapeChar(c: char) {
    c == '%' || '0' <= c <= '9' || 'A' <= c <= 'F'
  }

  /** The characters of an escape and `=` are neither white space nor `;`. */
  lemma EscapeCharPlain(c: char)
    requires IsEscapeChar(c) || c == '='
    ensures c !in JsWhitespace && c != ';'
  {
  }

  /** An encoding holds only `%` and upper-case hexadecimal digits. */
  lemma {:induction false} EncodeAlphabet(s: string)
    ensures forall i :: 0 <= i < |PercentEncode(s)| ==> IsEscapeChar(PercentEncode(s)[i])
  {
    if s != [] {
      EncodeAlphabet(s[1..]);
      EscapeAllAlphabet(Utf8Encode(s[0]));
    }
  }

  lemma {:induction false} EscapeAllAlphabet(octets: seq<nat>)
    requires forall j :: 0 <= j < |octets| ==> octets[j] < 256
    ensures forall i :: 0 <= i < |EscapeAll(octets)| ==> IsEscapeChar(EscapeAll(octets)[i])
  {
    if octets != [] {
      EscapeAllAlphabet(octets[1..]);
    }
  }

  // ----------------------------------------------------------------------
  // getCookie
  // ----------------------------------------------------------------------

  /** What `getCookie` ends in: `null`, a value, or the URIError of a malformed value. */
  datatype CookieResult = NoCookie | Found(value: string) | Malformed

  /**
   * JavaScript `s.substring(start, end)` for non-negative arguments: both
   * are clamped to the length, and swapped when out of order.
   */
  function Substring(s: string, start: nat, end: nat): string {
    var a := if start < |s| then start else |s|;
    var b := if end < |s| then end else |s|;
    if a <= b then s[a..b] else s[b..a]
  }

  /** The test `cookie.substring(0, name.length + 1) === name + '='` is the prefix test. */
  lemma MatchIsPrefix(entry: string, name: string)
    ensures Substring(entry, 0, |name| + 1) == name + "=" <==> StartsWith(entry, name + "=")
  {
  }

  /** The decoded value of an entry that names the cookie. */
  function EntryValue(entry: string, name: string): CookieResult
    requires |name| + 1 <= |entry|
  {
    match PercentDecode(entry[|name| + 1..])
    case None => Malformed
    case Some(v) => Found(v)
  }

  /** The value of the first trimmed entry that starts with `name + '='`; none if no entry does. */
  function FirstMatch(entries: seq<string>, name: string): CookieResult {
    if entries == [] then NoCookie
    else
      var entry := Trim(entries[0], JsWhitespace);
      if StartsWith(entry, name + "=") then EntryValue(entry, name)
      else FirstMatch(entries[1..], name)
  }

  /** The result of `getCookie(name)` when `document.cookie` is `cookie`. */
  function CookieLookup(cookie: string, name: string): CookieResult {
    if cookie == "" then NoCookie else FirstMatch(Split(cookie, ';'), name)
  }

  /** `getCookie(name)`: the loop over the entries, stopping at the first match. */
  method GetCookie(cookie: string, name: string) returns (r: CookieResult)
    ensures r == CookieLookup(cookie, name)
  {
    r := NoCookie;
    if cookie != "" {
      var cookies := Split(cookie, ';');
      var i := 0;
      while i < |cookies|
        invariant 0 <= i <= |cookies|
        invariant r == NoCookie
        invariant FirstMatch(cookies[i..], name) == FirstMatch(cookies, name)
      {
        var entry := Trim(cookies[i], JsWhitespace);
        MatchIsPrefix(entry, name);
        if Substring(entry, 0, |name| + 1) == name + "=" {
          var decoded := PercentDecode(Substring(entry, |name| + 1, |entry|));
          r := if decoded.Some? then Found(decoded.value) else Malformed;
          assert StartsWith(entry, name + "=");
          assert Substring(entry, |name| + 1, |entry|) == entry[|name| + 1..];
          assert r == EntryValue(entry, name);
          assert cookies[i..][0] == cookies[i];
          break;
        }
        assert cookies[i..][1..] == cookies[i + 1..];
        i := i + 1;
      }
    }
  }

  /** No entry names the cookie exactly when the lookup finds nothing. */
  lemma {:induction false} FirstMatchNone(entries: seq<string>, name: string)
    ensures FirstMatch(entries, name) == NoCookie <==>
              forall k :: 0 <= k < |entries| ==> !StartsWith(Trim(entries[k], JsWhitespace), name + "=")
  {
    if entries != [] {
      FirstMatchNone(entries[1..], name);
      assert forall k :: 1 <= k < |entries| ==> entries[k] == entries[1..][k - 1];
    }
  }

  /** The first matching entry wins: entries after it are never looked at. */
  lemma {:induction false} FirstMatchWins(a: seq<string>, b: seq<string>, name: string)
    ensures FirstMatch(a + b, name) == if FirstMatch(a, name) != NoCookie then FirstMatch(a, name) else FirstMatch(b, name)
  {
    if a == [] {
      assert a + b == b;
    } else {
      FirstMatchWins(a[1..], b, name);
      assert (a + b)[1..] == a[1..] + b;
    }
  }

  /** An entry for a longer name (`csrftokenX=...`) does not match `csrftoken`. */
  lemma ExtendedNameNoMatch(entry: string, name: string, c: char)
    requires c != '='
    requires StartsWith(entry, name + [c])
    ensures !StartsWith(entry, name + "=")
  {
    assert entry[|name|] == c;
  }

  /** A `name=value` entry with the value percent-encoded: no `;` in it, and nothing for trim to cut. */
  lemma EncodedEntry(name: string, value: string)
    requires name != [] && name[0] !in JsWhitespace && ';' !in name
    ensures ';' !in name + "=" + PercentEncode(value)
    ensures Trim(name + "=" + PercentEncode(value), JsWhitespace) == name + "=" + PercentEncode(value)
  {
    var enc := PercentEncode(value);
    var tail := "=" + enc;
    var entry := name + tail;
    assert entry == name + "=" + enc;
    EncodeAlphabet(value);
    forall i | 0 <= i < |tail|
      ensures IsEscapeChar(tail[i]) || tail[i] == '='
    {
      if i > 0 {
        assert tail[i] == enc[i - 1];
      }
    }
    forall i | 0 <= i < |entry|
      ensures entry[i] != ';'
    {
      if i >= |name| {
        assert entry[i] == tail[i - |name|];
        EscapeCharPlain(tail[i - |name|]);
      } else {
        assert entry[i] == name[i];
      }
    }
    assert entry[0] == name[0];
    assert TrimStart(entry, JsWhitespace) == entry;
    assert entry[|entry| - 1] == tail[|tail| - 1];
    EscapeCharPlain(tail[|tail| - 1]);
  }

  /** Looking up the cookie in a list of entries whose first match is `name=` and an encoded value. */
  lemma EncodedEntryFound(before: seq<string>, name: string, value: string, after: seq<string>)
    requires name != [] && name[0] !in JsWhitespace && ';' !in name
    requires FirstMatch(before, name) == NoCookie
    ensures FirstMatch(before + [name + "=" + PercentEncode(value)] + after, name) == Found(value)
  {
    var entry := name + "=" + PercentEncode(value);
    EncodedEntry(name, value);
    assert StartsWith(entry, name + "=");
    assert entry[|name| + 1..] == PercentEncode(value);
    DecodeEncode(value);
    FirstMatchWins(before, [entry] + after, name);
    assert before + [entry] + after == before + ([entry] + after);
  }

  lemma PiecesAround(before: seq<string>, entry: string, after: seq<string>, sep: char)
    requires forall k :: 0 <= k < |before| ==> sep !in before[k]
    requires forall k :: 0 <= k < |after| ==> sep !in after[k]
    requires sep !in entry
    ensures forall k :: 0 <= k < |before + [entry] + after| ==> sep !in (before + [entry] + after)[k]
  {
    var pieces := before + [entry] + after;
    forall k | 0 <= k < |pieces| ensures sep !in pieces[k] {
      if k < |before| {
        assert pieces[k] == before[k];
      } else if k > |before| {
        assert pieces[k] == after[k - |before| - 1];
      }
    }
  }

  /**
   * A cookie written as `name=` followed by the percent-encoded value, and
   * not preceded by another entry for `name`, reads back as that value.
   */
  lemma CookieRoundTrip(before: seq<string>, name: string, value: string, after: seq<string>)
    requires name != [] && name[0] !in JsWhitespace && ';' !in name
    requires forall k :: 0 <= k < |before| ==> ';' !in before[k]
    requires forall k :: 0 <= k < |after| ==> ';' !in after[k]
    requires FirstMatch(before, name) == NoCookie
    ensures CookieLookup(Join(before + [name + "=" + PercentEncode(value)] + after, ';'), name) == Found(value)
  {
    var entry := name + "=" + PercentEncode(value);
    var pieces := before + [entry] + after;
    EncodedEntry(name, value);
    PiecesAround(before, entry, after, ';');
    SplitJoin(pieces, ';');
    assert Join(pieces, ';') != "" by {
      JoinSplit(Join(pieces, ';'), ';');
      assert pieces[|before|] == entry;
    }
    EncodedEntryFound(before, name, value, after);
  }

  // ----------------------------------------------------------------------
  // injectQuestion
  // ----------------------------------------------------------------------

  /**
   * What `injectQuestion` does: stops silently, alerts about the type, fails
   * with the exception of `getCookie`, or sends the POST.
   */
  datatype Injection =
    | Stopped
    | InvalidType
    | CookieError
    | Post(url: string, questionText: string, questionType: string, csrfToken: string)

  /** JavaScript truthiness of a `prompt` answer: not cancelled and not empty. */
  predicate Answered(answer: Option<string>) {
    answer.Some? && answer.value != ""
  }

  /**
   * `injectQuestion(roomCode)` with the two `prompt` answers and the cookie
   * string: no text stops it, a type that does not lower-case to "truth" or
   * "dare" alerts and stops, and otherwise the text and the lower-cased type
   * are posted to the room's injection URL with the CSRF cookie as header
   * (the string "null" when there is no such cookie).
   */
  method InjectQuestion(roomCode: string, questionText: Option<string>, questionType: Option<string>,
                        cookie: string)
    returns (r: Injection)
    ensures !Answered(questionText) ==> r == Stopped
    ensures Answered(questionText) && !(Answered(questionType) && Models.IsCategory(LowerAscii(questionType.value))) ==>
              r == InvalidType
    ensures r.Post? <==>
              Answered(questionText) && Answered(questionType) && Models.IsCategory(LowerAscii(questionType.value))
              && !CookieLookup(cookie, "csrftoken").Malformed?
    ensures r.Post? ==>
              && r.url == "/api/admin/room/" + roomCode + "/inject-question/"
              && r.questionText == questionText.value && r.questionText != ""
              && r.questionType == LowerAscii(questionType.value) && Models.IsCategory(r.questionType)
              && r.csrfToken == match CookieLookup(cookie, "csrftoken")
                                case Found(v) => v
                                case _ => "null"
    ensures r == CookieError <==>
              Answered(questionText) && Answered(questionType) && Models.IsCategory(LowerAscii(questionType.value))
              && CookieLookup(cookie, "csrftoken").Malformed?
  {
    if !Answered(questionText) {
      return Stopped;
    }
    if !Answered(questionType) || !Models.IsCategory(LowerAscii(questionType.value)) {
      return InvalidType;
    }
    var token := GetCookie(cookie, "csrftoken");
    match token
    case Malformed =>
      r := CookieError;
    case NoCookie =>
      r := Post("/api/admin/room/" + roomCode + "/inject-question/", questionText.value,
                LowerAscii(questionType.value), "null");
    case Found(v) =>
      r := Post("/api/admin/room/" + roomCode + "/inject-question/", questionText.value,
                LowerAscii(questionType.value), v);
  }
}
