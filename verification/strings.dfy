/**
 * Character-level string operations of the Rust standard library that the
 * build tool relies on: `trim`, `starts_with`, `contains`, `replace`,
 * `split`, `join`, `split_whitespace` and the decimal rendering of integers.
 * Strings are `seq<char>`; characters compare by code point, as Rust's do.
 */
module Strings {

  /** Rust's `char::is_whitespace`: the Unicode White_Space property. */
  predicate IsWhitespace(c: char) {
    || ('\U{9}' <= c <= '\U{D}')
    || c == ' '
    || c == '\U{85}'
    || c == '\U{A0}'
    || c == '\U{1680}'
    || ('\U{2000}' <= c <= '\U{200A}')
    || c == '\U{2028}'
    || c == '\U{2029}'
    || c == '\U{202F}'
    || c == '\U{205F}'
    || c == '\U{3000}'
  }

  predicate AllWhitespace(s: string) {
    forall i :: 0 <= i < |s| ==> IsWhitespace(s[i])
  }

  predicate StartsWith(s: string, prefix: string) {
    |prefix| <= |s| && s[..|prefix|] == prefix
  }

  predicate EndsWith(s: string, suffix: string) {
    |suffix| <= |s| && s[|s| - |suffix|..] == suffix
  }

  /** `s` contains `p` as a contiguous substring (Rust's `str::contains`). */
  predicate Contains(s: string, p: string)
    decreases |s|
  {
    StartsWith(s, p) || (|s| > 0 && Contains(s[1..], p))
  }

  lemma StartsWithConcat(p: string, rest: string)
    ensures StartsWith(p + rest, p)
  {
    assert (p + rest)[..|p|] == p;
  }

  /** Rust's `trim_start`: drops every leading whitespace character. */
  function TrimStart(s: string): (r: string)
    ensures |r| <= |s|
    ensures r == [] || !IsWhitespace(r[0])
    decreases |s|
  {
    if |s| > 0 && IsWhitespace(s[0]) then TrimStart(s[1..]) else s
  }

  /** `trim_start` keeps a suffix and drops only whitespace before it. */
  lemma {:induction false} TrimStartSuffix(s: string)
    ensures var r := TrimStart(s);
      r == s[|s| - |r|..] && AllWhitespace(s[..|s| - |r|])
    decreases |s|
  {
    if |s| > 0 && IsWhitespace(s[0]) {
      TrimStartSuffix(s[1..]);
      var r := TrimStart(s);
      assert s[1..][|s| - 1 - |r|..] == s[|s| - |r|..];
      forall i | 0 <= i < |s| - |r| ensures IsWhitespace(s[i]) {
        if i > 0 {
          assert s[i] == s[1..][..|s| - 1 - |r|][i - 1];
        }
      }
    }
  }

  /** Rust's `trim_end`: drops every trailing whitespace character. */
  function TrimEnd(s: string): (r: string)
    ensures |r| <= |s|
    ensures r == [] || !IsWhitespace(r[|r| - 1])
    decreases |s|
  {
    if |s| > 0 && IsWhitespace(s[|s| - 1]) then TrimEnd(s[..|s| - 1]) else s
  }

  /** `trim_end` keeps a prefix and drops only whitespace after it. */
  lemma {:induction false} TrimEndPrefix(s: string)
    ensures var r := TrimEnd(s);
      r == s[..|r|] && AllWhitespace(s[|r|..])
    decreases |s|
  {
    if |s| > 0 && IsWhitespace(s[|s| - 1]) {
      TrimEndPrefix(s[..|s| - 1]);
      var r := TrimEnd(s);
      assert s[..|s| - 1][..|r|] == s[..|r|];
      forall i | |r| <= i < |s| ensures IsWhitespace(s[i]) {
        if i < |s| - 1 {
          assert s[i] == s[..|s| - 1][|r|..][i - |r|];
        }
      }
    }
  }

  /** Rust's `trim`. */
  function Trim(s: string): (r: string)
    ensures r == [] || (!IsWhitespace(r[0]) && !IsWhitespace(r[|r| - 1]))
    ensures r == [] <==> AllWhitespace(s)
  {
    TrimFacts(s);
    TrimEnd(TrimStart(s))
  }

  lemma TrimFacts(s: string)
    ensures TrimEnd(TrimStart(s)) == [] <==> AllWhitespace(s)
    ensures TrimEnd(TrimStart(s)) == [] || !IsWhitespace(TrimEnd(TrimStart(s))[0])
  {
    var t := TrimStart(s);
    var r := TrimEnd(t);
    TrimStartSuffix(s);
    TrimEndPrefix(t);
    if r == [] {
      assert AllWhitespace(t) by {
        assert t[0..] == t;
      }
      assert s == s[..|s| - |t|] + t;
    } else {
      assert r[0] == t[0];
      assert !IsWhitespace(s[|s| - |t|]);
    }
  }

  /** Trimming only removes characters: everything left was in the input. */
  lemma TrimChars(s: string)
    ensures forall c :: c in Trim(s) ==> c in s
  {
    var t := TrimStart(s);
    var r := TrimEnd(t);
    TrimStartSuffix(s);
    TrimEndPrefix(t);
    assert r == Trim(s);
    var k := |s| - |t|;
    assert r == t[..|r|] == s[k..][..|r|] == s[k..k + |r|];
    SliceChars(s, k, k + |r|);
  }

  /** Every character of a slice is a character of the whole. */
  lemma SliceChars(s: string, i: nat, j: nat)
    requires i <= j <= |s|
    ensures forall c :: c in s[i..j] ==> c in s
  {
  }

  /** A single character trims to itself unless it is whitespace. */
  lemma TrimOne(c: char)
    ensures Trim([c]) == if IsWhitespace(c) then [] else [c]
  {
    assert [c][0] == c;
    assert AllWhitespace([c]) <==> IsWhitespace(c);
    var t := TrimStart([c]);
    assert |TrimEnd(t)| <= |t| <= 1;
    TrimChars([c]);
    if !IsWhitespace(c) {
      assert Trim([c])[0] in [c];
    }
  }

  /** Leading whitespace makes no difference to `trim_start`. */
  lemma {:induction false} TrimStartAfterWhitespace(p: string, x: string)
    requires AllWhitespace(p)
    ensures TrimStart(p + x) == TrimStart(x)
    decreases |p|
  {
    if |p| > 0 {
      assert (p + x)[1..] == p[1..] + x;
      TrimStartAfterWhitespace(p[1..], x);
    } else {
      assert p + x == x;
    }
  }

  /** Leading whitespace makes no difference to `trim`. */
  lemma TrimAfterWhitespace(p: string, x: string)
    requires AllWhitespace(p)
    ensures Trim(p + x) == Trim(x)
  {
    TrimStartAfterWhitespace(p, x);
  }

  /** A string contains each of its suffixes. */
  lemma {:induction false} EndsWithContains(s: string, p: string)
    requires EndsWith(s, p)
    ensures Contains(s, p)
    decreases |s|
  {
    if |s| == |p| {
      assert s[..|p|] == s == s[|s| - |p|..];
    } else {
      assert s[1..][|s| - 1 - |p|..] == s[|s| - |p|..];
      EndsWithContains(s[1..], p);
    }
  }

  /**
   * A two-character pattern found in `a + b` lies inside `a`, inside `b`, or
   * straddles the boundary.
   */
  lemma {:induction false} ContainsPairConcat(a: string, b: string, p: string)
    requires |p| == 2 && Contains(a + b, p)
    ensures Contains(a, p) || Contains(b, p) || (|a| > 0 && |b| > 0 && a[|a| - 1] == p[0] && b[0] == p[1])
    decreases |a|
  {
    if |a| == 0 {
      assert a + b == b;
    } else {
      var ab := a + b;
      if StartsWith(ab, p) {
        if |a| >= 2 {
          assert a[..2] == ab[..2];
        }
      } else {
        assert ab[1..] == a[1..] + b;
        ContainsPairConcat(a[1..], b, p);
        if |a| > 1 {
          assert a[1..][|a| - 2] == a[|a| - 1];
        }
      }
    }
  }

  /** Rust's `str::replace`: every non-overlapping occurrence of `pat`, scanned left to right, becomes `rep`. */
  function ReplaceAll(s: string, pat: string, rep: string): (r: string)
    requires |pat| > 0
    ensures !Contains(s, pat) ==> r == s
    decreases |s|
  {
    if |s| == 0 then s
    else if StartsWith(s, pat) then rep + ReplaceAll(s[|pat|..], pat, rep)
    else [s[0]] + ReplaceAll(s[1..], pat, rep)
  }

  /** Rust's `str::split` on one character: always at least one piece, separators removed. */
  function Split(s: string, sep: char): (r: seq<string>)
    ensures |r| >= 1
    ensures forall i :: 0 <= i < |r| ==> sep !in r[i]
    decreases |s|
  {
    if |s| == 0 then [""]
    else if s[0] == sep then [""] + Split(s[1..], sep)
    else
      var rest := Split(s[1..], sep);
      [[s[0]] + rest[0]] + rest[1..]
  }

  /** Rust's `[String]::join`. */
  function Join(parts: seq<string>, sep: string): string
    decreases |parts|
  {
    if |parts| == 0 then ""
    else if |parts| == 1 then parts[0]
    else parts[0] + sep + Join(parts[1..], sep)
  }

  /** Splitting undoes joining, so `Split` loses nothing. */
  lemma {:induction false} JoinSplit(s: string, sep: char)
    ensures Join(Split(s, sep), [sep]) == s
    decreases |s|
  {
    if |s| == 0 {
    } else if s[0] == sep {
      JoinSplit(s[1..], sep);
      var rest := Split(s[1..], sep);
      assert Join([""] + rest, [sep]) == "" + [sep] + Join(rest, [sep]);
    } else {
      JoinSplit(s[1..], sep);
      var rest := Split(s[1..], sep);
      if |rest| == 1 {
        assert Split(s, sep) == [[s[0]] + rest[0]];
      } else {
        assert ([[s[0]] + rest[0]] + rest[1..])[1..] == rest[1..];
        assert Join(rest, [sep]) == rest[0] + [sep] + Join(rest[1..], [sep]);
      }
    }
  }

  /** Joining pieces free of the separator and splitting again gives the pieces back. */
  lemma {:induction false} SplitJoin(parts: seq<string>, sep: char)
    requires |parts| >= 1
    requires forall i :: 0 <= i < |parts| ==> sep !in parts[i]
    ensures Split(Join(parts, [sep]), sep) == parts
    decreases |parts|, |parts[0]|
  {
    if |parts| == 1 {
      SplitNoSep(parts[0], sep);
    } else {
      var tail := parts[1..];
      SplitJoin(tail, sep);
      SplitPrefix(parts[0], Join(tail, [sep]), sep);
      assert Join(parts, [sep]) == parts[0] + ([sep] + Join(tail, [sep]));
    }
  }

  lemma {:induction false} SplitNoSep(s: string, sep: char)
    requires sep !in s
    ensures Split(s, sep) == [s]
    decreases |s|
  {
    if |s| > 0 {
      SplitNoSep(s[1..], sep);
      assert [s[0]] + s[1..] == s;
    }
  }

  /** A separator-free head followed by a separator is split off as the first piece. */
  lemma {:induction false} SplitPrefix(head: string, rest: string, sep: char)
    requires sep !in head
    ensures Split(head + [sep] + rest, sep) == [head] + Split(rest, sep)
    decreases |head|
  {
    if |head| == 0 {
      assert head + [sep] + rest == [sep] + rest;
      assert ([sep] + rest)[1..] == rest;
    } else {
      SplitPrefix(head[1..], rest, sep);
      assert (head + [sep] + rest)[1..] == head[1..] + [sep] + rest;
      assert [head[0]] + head[1..] == head;
    }
  }

  /** Length of the longest prefix of `s` free of whitespace. */
  function WordLength(s: string): (n: nat)
    ensures n <= |s|
    ensures forall i :: 0 <= i < n ==> !IsWhitespace(s[i])
    ensures n < |s| ==> IsWhitespace(s[n])
    decreases |s|
  {
    if |s| == 0 || IsWhitespace(s[0]) then 0 else 1 + WordLength(s[1..])
  }

  /** Rust's `split_whitespace`: the maximal runs of non-whitespace characters, in order. */
  function SplitWhitespace(s: string): (r: seq<string>)
    ensures forall i :: 0 <= i < |r| ==> |r[i]| > 0
    ensures forall i, j :: 0 <= i < |r| && 0 <= j < |r[i]| ==> !IsWhitespace(r[i][j])
    decreases |s|
  {
    if |s| == 0 then []
    else if IsWhitespace(s[0]) then SplitWhitespace(s[1..])
    else
      var n := WordLength(s);
      [s[..n]] + SplitWhitespace(s[n..])
  }

  function DigitChar(d: nat): (c: char)
    requires d < 10
    ensures '0' <= c <= '9'
  {
    ('0' as int + d) as char
  }

  /** Decimal rendering of a natural number (Rust's `Display` for unsigned integers). */
  function NatToString(n: nat): (r: string)
    ensures |r| >= 1
    ensures forall i :: 0 <= i < |r| ==> '0' <= r[i] <= '9'
    ensures |r| > 1 ==> r[0] != '0'
    decreases n
  {
    if n < 10 then [DigitChar(n)] else NatToString(n / 10) + [DigitChar(n % 10)]
  }

  /** The value of a string of decimal digits. */
  function DecimalValue(s: string): nat
    requires forall i :: 0 <= i < |s| ==> '0' <= s[i] <= '9'
    decreases |s|
  {
    if |s| == 0 then 0 else 10 * DecimalValue(s[..|s| - 1]) + (s[|s| - 1] as int - '0' as int)
  }

  /** Reading the decimal rendering back gives the number. */
  lemma {:induction false} DecimalValueOfNatToString(n: nat)
    ensures DecimalValue(NatToString(n)) == n
    decreases n
  {
    if n >= 10 {
      DecimalValueOfNatToString(n / 10);
      var r := NatToString(n);
      assert r[..|r| - 1] == NatToString(n / 10);
    }
  }

  /**
   * Rust's `char::to_uppercase` as far as it matters for comparing with an ASCII keyword:
   * ASCII letters, plus every non-ASCII character whose upper case is pure ASCII
   * (dotless i, long s, sharp s and the Latin ligatures U+FB00..U+FB06). Every other
   * character is kept; it is non-ASCII exactly when Rust's upper case of it is.
   */
  function UpperChar(c: char): (r: string)
    ensures |r| >= 1
    ensures forall i :: 0 <= i < |r| ==> !('a' <= r[i] <= 'z')
    ensures c < 128 as char ==> r == [if 'a' <= c <= 'z' then (c as int - 32) as char else c]
  {
    if 'a' <= c <= 'z' then [(c as int - 32) as char]
    else if c == '\U{131}' then "I"
    else if c == '\U{17F}' then "S"
    else if c == '\U{DF}' then "SS"
    else if c == '\U{FB00}' then "FF"
    else if c == '\U{FB01}' then "FI"
    else if c == '\U{FB02}' then "FL"
    else if c == '\U{FB03}' then "FFI"
    else if c == '\U{FB04}' then "FFL"
    else if c == '\U{FB05}' || c == '\U{FB06}' then "ST"
    else [c]
  }

  /** Upper case never shortens the text and leaves no ASCII lower-case letter; on ASCII it maps letter by letter. */
  function ToUpper(s: string): (r: string)
    ensures |r| >= |s|
    ensures forall i :: 0 <= i < |r| ==> !('a' <= r[i] <= 'z')
    ensures (forall i :: 0 <= i < |s| ==> s[i] < 128 as char) ==>
      |r| == |s| && forall i :: 0 <= i < |s| ==> r[i] == (if 'a' <= s[i] <= 'z' then (s[i] as int - 32) as char else s[i])
    decreases |s|
  {
    if |s| == 0 then ""
    else
      var head := UpperChar(s[0]);
      var tail := ToUpper(s[1..]);
      assert forall i :: 0 <= i < |head + tail| ==> (head + tail)[i] == if i < |head| then head[i] else tail[i - |head|];
      head + tail
  }

  lemma {:induction false} ToUpperConcat(a: string, b: string)
    ensures ToUpper(a + b) == ToUpper(a) + ToUpper(b)
    decreases |a|
  {
    if |a| == 0 {
      assert a + b == b;
    } else {
      assert (a + b)[1..] == a[1..] + b;
      ToUpperConcat(a[1..], b);
    }
  }

  /** Every character upper case produces is its own upper case. */
  lemma UpperCharFixed(c: char)
    ensures forall i :: 0 <= i < |UpperChar(c)| ==> UpperChar(UpperChar(c)[i]) == [UpperChar(c)[i]]
  {
  }

  /** Upper-casing twice is upper-casing once. */
  lemma {:induction false} ToUpperIdempotent(s: string)
    ensures ToUpper(ToUpper(s)) == ToUpper(s)
    decreases |s|
  {
    if |s| > 0 {
      var head := UpperChar(s[0]);
      ToUpperIdempotent(s[1..]);
      ToUpperConcat(head, ToUpper(s[1..]));
      UpperCharFixed(s[0]);
      ToUpperFixed(head);
    }
  }

  /** Text made of characters that are their own upper case is unchanged. */
  lemma {:induction false} ToUpperFixed(s: string)
    requires forall i :: 0 <= i < |s| ==> UpperChar(s[i]) == [s[i]]
    ensures ToUpper(s) == s
    decreases |s|
  {
    if |s| > 0 {
      ToUpperFixed(s[1..]);
    }
  }

  // ---------------------------------------------------------------------------
  // Rust's `{:?}` escaping of a string
  // ---------------------------------------------------------------------------

  /** A lower-case hexadecimal digit. */
  function HexDigit(d: nat): (c: char)
    requires d < 16
    ensures ('0' <= c <= '9') || ('a' <= c <= 'f')
  {
    if d < 10 then (48 + d) as char else (87 + d) as char
  }

  /** The value of a lower-case hexadecimal digit, or -1. */
  function HexValue(c: char): (v: int)
    ensures -1 <= v < 16
    ensures v >= 0 ==> HexDigit(v) == c
  {
    if '0' <= c <= '9' then c as int - 48
    else if 'a' <= c <= 'f' then c as int - 87
    else -1
  }

  /** An ASCII control character, which `char::is_printable` rejects. */
  predicate IsAsciiControl(c: char) {
    c < ' ' || c == '\U{7F}'
  }

  /**
   * `char::escape_debug` as `{:?}` applies it inside a string: `\0`, `\t`,
   * `\r`, `\n`, `\\` and `\"` for those six characters, `\u{..}` with
   * minimal lower-case hex digits for the other ASCII control characters,
   * and the character itself otherwise.
   */
  function DebugEscape(c: char): (r: string)
    ensures r == [c] <==> !IsAsciiControl(c) && c != '\\' && c != '"'
    ensures r != [c] ==> 2 <= |r| <= 6 && r[0] == '\\'
  {
    if c == '\0' then "\\0"
    else if c == '\t' then "\\t"
    else if c == '\r' then "\\r"
    else if c == '\n' then "\\n"
    else if c == '\\' then "\\\\"
    else if c == '"' then "\\\""
    else if IsAsciiControl(c) then
      var n := c as int;
      if n < 16 then ['\\', 'u', '{', HexDigit(n), '}']
      else ['\\', 'u', '{', HexDigit(n / 16), HexDigit(n % 16), '}']
    else [c]
  }

  /** `{:?}` of a string, without the surrounding quotes. */
  function DebugEscapeAll(s: string): (r: string)
    ensures |r| >= |s|
    decreases |s|
  {
    if |s| == 0 then "" else DebugEscape(s[0]) + DebugEscapeAll(s[1..])
  }

  /** Reads back the escapes `DebugEscape` writes; any other text is copied. */
  function DebugUnescape(s: string): (r: string)
    decreases |s|
  {
    if |s| < 2 || s[0] != '\\' then
      if |s| == 0 then "" else [s[0]] + DebugUnescape(s[1..])
    else if s[1] == '0' then ['\0'] + DebugUnescape(s[2..])
    else if s[1] == 't' then ['\t'] + DebugUnescape(s[2..])
    else if s[1] == 'r' then ['\r'] + DebugUnescape(s[2..])
    else if s[1] == 'n' then ['\n'] + DebugUnescape(s[2..])
    else if s[1] == '\\' || s[1] == '"' then [s[1]] + DebugUnescape(s[2..])
    else if |s| >= 5 && s[1] == 'u' && s[2] == '{' && HexValue(s[3]) >= 0 && s[4] == '}' then
      [HexValue(s[3]) as char] + DebugUnescape(s[5..])
    else if |s| >= 6 && s[1] == 'u' && s[2] == '{' && HexValue(s[3]) >= 0 && HexValue(s[4]) >= 0 && s[5] == '}' then
      [(HexValue(s[3]) * 16 + HexValue(s[4])) as char] + DebugUnescape(s[6..])
    else [s[0]] + DebugUnescape(s[1..])
  }

  /** One escaped character reads back as itself, whatever follows. */
  lemma DebugUnescapeOne(c: char, rest: string)
    ensures DebugUnescape(DebugEscape(c) + rest) == [c] + DebugUnescape(rest)
  {
    var e := DebugEscape(c);
    if e == [c] {
      assert (e + rest)[0] == c && (e + rest)[1..] == rest;
    } else if IsAsciiControl(c) && c != '\0' && c != '\t' && c != '\r' && c != '\n' {
      var n := c as int;
      if n < 16 {
        assert HexValue(HexDigit(n)) == n;
        assert (e + rest)[5..] == rest;
      } else {
        assert HexValue(HexDigit(n / 16)) == n / 16 && HexValue(HexDigit(n % 16)) == n % 16;
        assert (e + rest)[6..] == rest;
      }
    } else {
      assert (e + rest)[2..] == rest;
    }
  }

  /** Escaping reads back: the escaped text of `{:?}` determines the string. */
  lemma {:induction false} DebugEscapeRoundTrip(s: string)
    ensures DebugUnescape(DebugEscapeAll(s)) == s
    decreases |s|
  {
    if |s| > 0 {
      DebugUnescapeOne(s[0], DebugEscapeAll(s[1..]));
      DebugEscapeRoundTrip(s[1..]);
      assert [s[0]] + s[1..] == s;
    }
  }

  /** A string without quotes, backslashes or ASCII control characters is written as it is. */
  lemma {:induction false} DebugEscapePlain(s: string)
    requires forall i :: 0 <= i < |s| ==> !IsAsciiControl(s[i]) && s[i] != '\\' && s[i] != '"'
    ensures DebugEscapeAll(s) == s
    decreases |s|
  {
    if |s| > 0 {
      DebugEscapePlain(s[1..]);
      assert [s[0]] + s[1..] == s;
    }
  }
}
