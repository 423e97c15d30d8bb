/**
 * Byte strings, the option and result shapes the engine returns, and the
 * decimal numerals that travel in `Content-Length` and in the status line.
 *
 * Rust strings are modelled by their UTF-8 bytes: every delimiter the engine
 * looks for is ASCII, and in UTF-8 an ASCII byte never occurs inside the
 * encoding of another character, so scanning the bytes finds exactly the
 * characters a scan of the `&str` finds.
 */
module Base {

  newtype byte = b: int | 0 <= b < 256

  type Bytes = seq<byte>

  datatype Option<+T> = None | Some(value: T)

  datatype Result<+T, +E> = Ok(value: T) | Err(error: E)

  // ASCII codes that the wire format uses.
  const LF: byte := 10
  const CR: byte := 13
  const SP: byte := 32
  const PLUS: byte := 43
  const COLON: byte := 58
  const QUESTION: byte := 63
  const CRLF: Bytes := [CR, LF]

  /** The bytes of an ASCII string literal. */
  function Ascii(s: string): (r: Bytes)
    ensures |r| == |s|
  {
    seq(|s|, i requires 0 <= i < |s| => (s[i] as int % 256) as byte)
  }

  /** `buf.ends_with(suffix)` of Rust slices. */
  predicate EndsWith(buf: Bytes, suffix: Bytes) {
    |suffix| <= |buf| && buf[|buf| - |suffix|..] == suffix
  }

  /** The concatenation of a sequence of byte strings. */
  function Flatten(parts: seq<Bytes>): Bytes {
    if parts == [] then [] else parts[0] + Flatten(parts[1..])
  }

  lemma {:induction false} FlattenAppend(a: seq<Bytes>, b: seq<Bytes>)
    ensures Flatten(a + b) == Flatten(a) + Flatten(b)
  {
    if a == [] {
      assert a + b == b;
    } else {
      assert (a + b)[1..] == a[1..] + b;
      FlattenAppend(a[1..], b);
    }
  }

  /** Concatenation regroups freely. */
  lemma AppendAssoc(a: Bytes, b: Bytes, c: Bytes)
    ensures (a + b) + c == a + (b + c)
  {
  }

  /** ASCII lower-casing of one byte (`u8::to_ascii_lowercase`). */
  function LowerByte(b: byte): byte {
    if 65 <= b <= 90 then b + 32 else b
  }

  predicate IsUpper(b: byte) {
    65 <= b <= 90
  }

  /** No upper-case ASCII letter. */
  predicate NoUpper(s: Bytes) {
    forall i :: 0 <= i < |s| ==> !IsUpper(s[i])
  }

  /** The same byte, or the same ASCII letter in the other case. */
  predicate SameIgnoringCase(x: byte, y: byte) {
    || x == y
    || (IsUpper(x) && y as int == x as int + 32)
    || (IsUpper(y) && x as int == y as int + 32)
  }

  /** `eq_ignore_ascii_case` of Rust slices. */
  predicate EqualIgnoringCase(a: Bytes, b: Bytes) {
    |a| == |b| && forall i :: 0 <= i < |a| ==> SameIgnoringCase(a[i], b[i])
  }

  /**
   * `str::to_ascii_lowercase`: the result matches the input ignoring ASCII
   * case and holds no upper-case letter.
   */
  function AsciiLower(s: Bytes): (r: Bytes)
    ensures EqualIgnoringCase(s, r)
    ensures NoUpper(r)
  {
    seq(|s|, i requires 0 <= i < |s| => LowerByte(s[i]))
  }

  /**
   * Those two properties pin the result down: a string with no upper-case
   * letter that matches `s` ignoring case is the lower-cased `s`. So two
   * strings lower-case alike exactly when they match ignoring case.
   */
  lemma LowerUnique(s: Bytes, t: Bytes)
    requires EqualIgnoringCase(s, t) && NoUpper(t)
    ensures AsciiLower(s) == t
  {
    var r := AsciiLower(s);
    forall i | 0 <= i < |t|
      ensures r[i] == t[i]
    {
      assert SameIgnoringCase(s[i], r[i]) && SameIgnoringCase(s[i], t[i]);
    }
  }

  /** An ASCII literal with no upper-case letter. */
  lemma LowerLiteral(s: string)
    requires forall i :: 0 <= i < |s| ==> s[i] as int < 256 && !('A' <= s[i] <= 'Z')
    ensures NoUpper(Ascii(s))
  {
  }

  // ---------------------------------------------------------------------
  // Decimal numerals

  predicate IsDigit(b: byte) {
    48 <= b <= 57
  }

  predicate AllDigits(s: Bytes) {
    forall i :: 0 <= i < |s| ==> IsDigit(s[i])
  }

  /** The value of a run of ASCII digits, most significant first. */
  function DigitsValue(s: Bytes): nat
    requires AllDigits(s)
  {
    if s == [] then 0 else DigitsValue(s[..|s| - 1]) * 10 + (s[|s| - 1] - 48) as int
  }

  /** `to_string()` of an unsigned integer: its decimal digits, no sign, no leading zero. */
  function Decimal(n: nat): (r: Bytes)
    ensures |r| > 0 && AllDigits(r)
    ensures |r| > 1 ==> r[0] != 48
    decreases n
  {
    if n < 10 then [(48 + n) as byte] else Decimal(n / 10) + [(48 + n % 10) as byte]
  }

  /** The largest `u16` and the largest `u64`. */
  const U16_MAX: nat := 0xFFFF
  const U64_MAX: nat := 0xFFFF_FFFF_FFFF_FFFF

  /**
   * Rust's `str::parse` for an unsigned integer type whose largest value is
   * `max`: an optional leading `+`, then at least one ASCII digit, and the value
   * must fit. A `-` sign, an empty string, a lone `+` and any other byte fail.
   */
  function ParseUnsigned(s: Bytes, max: nat): (r: Option<nat>)
    ensures r.Some? ==> r.value <= max
    ensures r.Some? ==> |s| > 0 && (IsDigit(s[0]) || s[0] == PLUS)
    ensures r.Some? ==> forall i :: 0 < i < |s| ==> IsDigit(s[i])
    ensures s == [] || s == [PLUS] ==> r.None?
  {
    var digits := if |s| > 0 && s[0] == PLUS then s[1..] else s;
    if |digits| > 0 && AllDigits(digits) && DigitsValue(digits) <= max
    then Some(DigitsValue(digits))
    else None
  }

  lemma {:induction false} DecimalValue(n: nat)
    ensures DigitsValue(Decimal(n)) == n
    decreases n
  {
    if n >= 10 {
      var d := Decimal(n / 10) + [(48 + n % 10) as byte];
      assert d[..|d| - 1] == Decimal(n / 10);
      DecimalValue(n / 10);
    }
  }

  /** The numeral `to_string` writes is read back by `parse` as the same number. */
  lemma DecimalRoundTrip(n: nat, max: nat)
    requires n <= max
    ensures ParseUnsigned(Decimal(n), max) == Some(n)
  {
    DecimalValue(n);
  }
}
