/**
 * The string primitives the JavaScript code relies on: substring search and
 * `String.prototype.replace` with a string pattern, the character classes of
 * JavaScript regular expressions (`\d`, `\s`, `[A-Za-z]`), ASCII lower-casing,
 * `.length` (which counts UTF-16 code units) and the decimal rendering of a
 * number.  Strings are sequences of Unicode scalar values.
 */
module Strings {
  import opened Wrappers

  /** `sub` occurs in `s` starting at index `i`. */
  predicate OccursAt(s: string, sub: string, i: nat) {
    i + |sub| <= |s| && s[i..i + |sub|] == sub
  }

  /** The first index at or after `from` where `sub` occurs in `s`. */
  function IndexOfFrom(s: string, sub: string, from: nat): (r: Option<nat>)
    requires from <= |s|
    decreases |s| - from
    ensures r.Some? ==> from <= r.value && OccursAt(s, sub, r.value)
    ensures r.Some? ==> forall j :: from <= j < r.value ==> !OccursAt(s, sub, j)
    ensures r.None? ==> forall j: nat :: from <= j ==> !OccursAt(s, sub, j)
  {
    if OccursAt(s, sub, from) then Some(from)
    else if from == |s| then None
    else IndexOfFrom(s, sub, from + 1)
  }

  /** `s.indexOf(sub)`, with a missing substring as `None`. */
  function IndexOf(s: string, sub: string): (r: Option<nat>)
    ensures r.Some? ==> OccursAt(s, sub, r.value)
    ensures r.Some? ==> forall j :: 0 <= j < r.value ==> !OccursAt(s, sub, j)
    ensures r.None? ==> forall j: nat :: !OccursAt(s, sub, j)
  {
    IndexOfFrom(s, sub, 0)
  }

  /**
   * `sub` occurs somewhere in `s`: an unanchored regular expression made of
   * literal characters, or SQL `LIKE '%sub%'` without wildcards.
   */
  predicate Contains(s: string, sub: string) {
    IndexOf(s, sub).Some?
  }

  lemma ContainsAt(s: string, sub: string, i: nat)
    requires OccursAt(s, sub, i)
    ensures Contains(s, sub)
  {
  }

  /**
   * `s.replace(pattern, replacement)` for a string pattern: only the first
   * occurrence is replaced, wherever it is, and a string without the pattern
   * is returned unchanged.
   */
  function ReplaceFirst(s: string, pattern: string, replacement: string): (r: string)
    ensures !Contains(s, pattern) ==> r == s
    ensures Contains(s, pattern) ==>
      var i := IndexOf(s, pattern).value;
      r == s[..i] + replacement + s[i + |pattern|..]
  {
    match IndexOf(s, pattern)
    case None => s
    case Some(i) => s[..i] + replacement + s[i + |pattern|..]
  }

  /** `\d` in a JavaScript regular expression without the `u` flag: ASCII digits only. */
  predicate IsDigit(c: char) {
    '0' <= c <= '9'
  }

  /** `[A-Za-z]`. */
  predicate IsAsciiLetter(c: char) {
    'A' <= c <= 'Z' || 'a' <= c <= 'z'
  }

  /** `\s` in a JavaScript regular expression: white space and line terminators. */
  predicate IsSpace(c: char) {
    c == '\t' || c == '\n' || c == '\U{000B}' || c == '\U{000C}' || c == '\r' || c == ' '
    || c == '\U{00A0}' || c == '\U{1680}' || ('\U{2000}' <= c <= '\U{200A}')
    || c == '\U{2028}' || c == '\U{2029}' || c == '\U{202F}' || c == '\U{205F}'
    || c == '\U{3000}' || c == '\U{FEFF}'
  }

  /** `/\d/.test(s)`: some character is a digit. */
  predicate HasDigit(s: string) {
    exists i :: 0 <= i < |s| && IsDigit(s[i])
  }

  /** `/^\d+$/.test(s)`: non-empty and made of digits only. */
  predicate DigitsOnly(s: string) {
    |s| > 0 && forall i :: 0 <= i < |s| ==> IsDigit(s[i])
  }

  /** `/^[A-Za-z\s]+$/.test(s)`: non-empty and made of ASCII letters and white space only. */
  predicate LettersAndSpacesOnly(s: string) {
    |s| > 0 && forall i :: 0 <= i < |s| ==> IsAsciiLetter(s[i]) || IsSpace(s[i])
  }

  /** Characters outside the Basic Multilingual Plane take two UTF-16 code units. */
  function Utf16Units(c: char): nat {
    if c as int > 0xFFFF then 2 else 1
  }

  /** JavaScript's `s.length`: the number of UTF-16 code units of `s`. */
  function Utf16Length(s: string): (n: nat)
    ensures |s| <= n <= 2 * |s|
    ensures (forall i :: 0 <= i < |s| ==> s[i] as int <= 0xFFFF) ==> n == |s|
  {
    if s == [] then 0 else Utf16Units(s[0]) + Utf16Length(s[1..])
  }

  /** U+FE0E and U+FE0F, the text and emoji presentation selectors. */
  predicate IsPresentationSelector(c: char) {
    c == '\U{FE0E}' || c == '\U{FE0F}'
  }

  /**
   * The length validator.js's `isLength` compares with its bounds: the
   * UTF-16 length, less one for each surrogate pair and one for each
   * presentation selector; so every character but a selector counts once.
   */
  function IsLengthCount(s: string): (n: nat)
    ensures n <= |s|
    ensures (forall i :: 0 <= i < |s| ==> !IsPresentationSelector(s[i])) ==> n == |s|
  {
    if s == [] then 0 else (if IsPresentationSelector(s[0]) then 0 else 1) + IsLengthCount(s[1..])
  }

  /**
   * `isLength`'s count agrees with `.length` exactly on strings in the Basic
   * Multilingual Plane without presentation selectors, and is never larger.
   */
  lemma {:induction false} IsLengthCountVersusUtf16(s: string)
    ensures IsLengthCount(s) <= Utf16Length(s)
    ensures IsLengthCount(s) == Utf16Length(s) <==>
      forall i :: 0 <= i < |s| ==> s[i] as int <= 0xFFFF && !IsPresentationSelector(s[i])
  {
    if s != [] {
      IsLengthCountVersusUtf16(s[1..]);
      if forall i :: 1 <= i < |s| ==> s[i] as int <= 0xFFFF && !IsPresentationSelector(s[i]) {
        forall i | 0 <= i < |s[1..]|
          ensures s[1..][i] as int <= 0xFFFF && !IsPresentationSelector(s[1..][i])
        {
          assert s[1..][i] == s[i + 1];
        }
      } else {
        var i :| 1 <= i < |s| && !(s[i] as int <= 0xFFFF && !IsPresentationSelector(s[i]));
        assert s[1..][i - 1] == s[i];
      }
    }
  }

  /** The UTF-8 encoding of one character, as byte values. */
  function Utf8Char(c: char): (bs: seq<nat>)
    ensures 1 <= |bs| <= 4
  {
    var v := c as int;
    if v < 0x80 then [v]
    else if v < 0x800 then [0xC0 + v / 0x40, 0x80 + v % 0x40]
    else if v < 0x10000 then [0xE0 + v / 0x40 / 0x40, 0x80 + v / 0x40 % 0x40, 0x80 + v % 0x40]
    else [0xF0 + v / 0x40 / 0x40 / 0x40, 0x80 + v / 0x40 / 0x40 % 0x40, 0x80 + v / 0x40 % 0x40, 0x80 + v % 0x40]
  }

  /** How many bytes a UTF-8 sequence has, read off its first byte. */
  function Utf8SequenceLength(lead: nat): nat {
    if lead < 0x80 then 1 else if lead < 0xE0 then 2 else if lead < 0xF0 then 3 else 4
  }

  lemma Utf8CharLead(c: char)
    ensures |Utf8Char(c)| == Utf8SequenceLength(Utf8Char(c)[0])
  {
  }

  /** The value of a UTF-8 sequence: the lead byte's payload, then six bits per continuation byte. */
  function Utf8Value(bs: seq<nat>): int
    requires 1 <= |bs| <= 4
  {
    var b := seq(|bs|, i requires 0 <= i < |bs| => bs[i] as int);
    if |b| == 1 then b[0]
    else if |b| == 2 then (b[0] - 0xC0) * 0x40 + (b[1] - 0x80)
    else if |b| == 3 then ((b[0] - 0xE0) * 0x40 + (b[1] - 0x80)) * 0x40 + (b[2] - 0x80)
    else (((b[0] - 0xF0) * 0x40 + (b[1] - 0x80)) * 0x40 + (b[2] - 0x80)) * 0x40 + (b[3] - 0x80)
  }

  /** Decoding the encoding of a character gives the character back. */
  lemma Utf8Decodes(c: char)
    ensures Utf8Value(Utf8Char(c)) == c as int
  {
    var v := c as int;
    var q1 := v / 0x40;
    var q2 := q1 / 0x40;
    var q3 := q2 / 0x40;
    assert v == q1 * 0x40 + v % 0x40;
    assert q1 == q2 * 0x40 + q1 % 0x40;
    assert q2 == q3 * 0x40 + q2 % 0x40;
  }

  /** Distinct characters have distinct encodings. */
  lemma Utf8CharInjective(c: char, d: char)
    requires Utf8Char(c) == Utf8Char(d)
    ensures c == d
  {
    Utf8Decodes(c);
    Utf8Decodes(d);
  }

  /** The UTF-8 encoding of `s`, as byte values. */
  function Utf8(s: string): (bs: seq<nat>)
    ensures |bs| >= |s|
  {
    if s == [] then [] else Utf8Char(s[0]) + Utf8(s[1..])
  }

  lemma {:induction false} Utf8Append(s: string, t: string)
    ensures Utf8(s + t) == Utf8(s) + Utf8(t)
  {
    if s != [] {
      assert (s + t)[0] == s[0] && (s + t)[1..] == s[1..] + t;
      Utf8Append(s[1..], t);
    } else {
      assert s + t == t;
    }
  }

  /** Distinct strings have distinct encodings. */
  lemma {:induction false} Utf8Injective(s: string, t: string)
    requires Utf8(s) == Utf8(t)
    ensures s == t
  {
    if s != [] {
      var cs, ct := Utf8Char(s[0]), Utf8Char(t[0]);
      Utf8CharLead(s[0]);
      Utf8CharLead(t[0]);
      assert Utf8(s)[0] == cs[0] && Utf8(t)[0] == ct[0];
      assert |cs| == |ct|;
      assert cs == Utf8(s)[..|cs|] == Utf8(t)[..|ct|] == ct;
      Utf8CharInjective(s[0], t[0]);
      assert Utf8(s[1..]) == Utf8(s)[|cs|..] == Utf8(t)[|ct|..] == Utf8(t[1..]);
      Utf8Injective(s[1..], t[1..]);
    }
  }

  lemma LengthsOfPrepend(c: char, s: string)
    ensures Utf16Length([c] + s) == Utf16Units(c) + Utf16Length(s)
    ensures IsLengthCount([c] + s) == (if IsPresentationSelector(c) then 0 else 1) + IsLengthCount(s)
  {
    assert ([c] + s)[0] == c && ([c] + s)[1..] == s;
  }

  /** `c.toLowerCase()` restricted to ASCII: upper-case letters become lower-case. */
  function LowerChar(c: char): (d: char)
    ensures 'A' <= c <= 'Z' ==> d as int == c as int + 32
    ensures !('A' <= c <= 'Z') ==> d == c
  {
    if 'A' <= c <= 'Z' then (c as int + 32) as char else c
  }

  /** ASCII `s.toLowerCase()`. */
  function ToLower(s: string): (r: string)
    ensures |r| == |s|
    ensures forall i :: 0 <= i < |s| ==> r[i] == LowerChar(s[i])
  {
    seq(|s|, i requires 0 <= i < |s| => LowerChar(s[i]))
  }

  function DigitChar(d: nat): (c: char)
    requires d < 10
    ensures IsDigit(c)
  {
    ('0' as int + d) as char
  }

  /** The decimal rendering of `n`, as `String(n)` gives it for a non-negative integer. */
  function Decimal(n: nat): (s: string)
    ensures DigitsOnly(s)
    ensures n < 10 <==> |s| == 1
  {
    if n < 10 then [DigitChar(n)] else Decimal(n / 10) + [DigitChar(n % 10)]
  }
}
