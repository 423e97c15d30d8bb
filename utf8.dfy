/**
 * Well-formed UTF-8, the check behind Rust's `str::from_utf8` and
 * `String::from_utf8`: the byte ranges of Table 3-7 of the Unicode Standard,
 * which section 4 of RFC 3629 restates (no overlong forms, no surrogates,
 * nothing above U+10FFFF).
 */
module Utf8 {
  import opened Base

  predicate Tail(b: byte) {
    0x80 <= b <= 0xBF
  }

  /** The length of the well-formed sequence that starts `s`, or 0 when none does. */
  function LeadLength(s: Bytes): (n: nat)
    ensures n <= |s| && n <= 4
    ensures |s| > 0 && s[0] < 0x80 ==> n == 1
  {
    if |s| == 0 then 0
    else
      var b := s[0];
      if b < 0x80 then 1
      else if 0xC2 <= b <= 0xDF then
        if |s| >= 2 && Tail(s[1]) then 2 else 0
      else if b == 0xE0 then
        if |s| >= 3 && 0xA0 <= s[1] <= 0xBF && Tail(s[2]) then 3 else 0
      else if 0xE1 <= b <= 0xEC || 0xEE <= b <= 0xEF then
        if |s| >= 3 && Tail(s[1]) && Tail(s[2]) then 3 else 0
      else if b == 0xED then
        if |s| >= 3 && 0x80 <= s[1] <= 0x9F && Tail(s[2]) then 3 else 0
      else if b == 0xF0 then
        if |s| >= 4 && 0x90 <= s[1] <= 0xBF && Tail(s[2]) && Tail(s[3]) then 4 else 0
      else if 0xF1 <= b <= 0xF3 then
        if |s| >= 4 && Tail(s[1]) && Tail(s[2]) && Tail(s[3]) then 4 else 0
      else if b == 0xF4 then
        if |s| >= 4 && 0x80 <= s[1] <= 0x8F && Tail(s[2]) && Tail(s[3]) then 4 else 0
      else 0
  }

  /** `s` is a sequence of well-formed UTF-8 encoded characters. */
  predicate ValidUtf8(s: Bytes)
    decreases |s|
  {
    s == [] || (LeadLength(s) > 0 && ValidUtf8(s[LeadLength(s)..]))
  }

  predicate IsAscii(s: Bytes) {
    forall i :: 0 <= i < |s| ==> s[i] < 0x80
  }

  /** Every ASCII string is valid UTF-8, so the protocol literals decode. */
  lemma {:induction false} AsciiIsUtf8(s: Bytes)
    requires IsAscii(s)
    ensures ValidUtf8(s)
    decreases |s|
  {
    if s != [] {
      assert LeadLength(s) == 1;
      AsciiIsUtf8(s[1..]);
    }
  }

  /** The bytes of a literal made of characters below 128 are ASCII. */
  lemma AsciiLiteral(s: string)
    requires forall i :: 0 <= i < |s| ==> s[i] as int < 0x80
    ensures IsAscii(Ascii(s))
  {
  }
}
