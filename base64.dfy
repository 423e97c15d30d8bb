/**
 * Base64 with the standard alphabet and `=` padding (section 4 of RFC 4648),
 * the encoding the `Authorization: Basic` line carries (section 2 of RFC 7617).
 */
module Base64 {
  import opened Base

  const PAD: byte := 61

  /** The alphabet of Table 1 of RFC 4648: `A`-`Z`, `a`-`z`, `0`-`9`, `+`, `/`. */
  function Symbol(v: int): (c: byte)
    requires 0 <= v < 64
  {
    if v < 26 then (65 + v) as byte
    else if v < 52 then (97 + v - 26) as byte
    else if v < 62 then (48 + v - 52) as byte
    else if v == 62 then 43
    else 47
  }

  /** The value a symbol stands for, if it is one. */
  function SymbolValue(c: byte): Option<int> {
    if 65 <= c <= 90 then Some(c as int - 65)
    else if 97 <= c <= 122 then Some(c as int - 97 + 26)
    else if 48 <= c <= 57 then Some(c as int - 48 + 52)
    else if c == 43 then Some(62)
    else if c == 47 then Some(63)
    else None
  }

  lemma SymbolInverse(v: int)
    requires 0 <= v < 64
    ensures SymbolValue(Symbol(v)) == Some(v)
  {
  }

  /** Three bytes as four symbols. */
  function Quartet(b0: byte, b1: byte, b2: byte): Bytes {
    [Symbol(b0 as int / 4), Symbol(b0 as int % 4 * 16 + b1 as int / 16),
     Symbol(b1 as int % 16 * 4 + b2 as int / 64), Symbol(b2 as int % 64)]
  }

  /** A final two bytes as three symbols and one pad. */
  function PaddedPair(b0: byte, b1: byte): Bytes {
    [Symbol(b0 as int / 4), Symbol(b0 as int % 4 * 16 + b1 as int / 16), Symbol(b1 as int % 16 * 4), PAD]
  }

  /** A final byte as two symbols and two pads. */
  function PaddedSingle(b0: byte): Bytes {
    [Symbol(b0 as int / 4), Symbol(b0 as int % 4 * 16), PAD, PAD]
  }

  /** Encodes `s`, three bytes to four symbols, padding the last group. */
  function Encode(s: Bytes): (r: Bytes)
    ensures |r| == 4 * ((|s| + 2) / 3)
    decreases |s|
  {
    if |s| == 0 then []
    else if |s| == 1 then PaddedSingle(s[0])
    else if |s| == 2 then PaddedPair(s[0], s[1])
    else Quartet(s[0], s[1], s[2]) + Encode(s[3..])
  }

  predicate IsSymbol(c: byte) {
    SymbolValue(c).Some?
  }

  function Value(c: byte): (v: int)
    requires IsSymbol(c)
    ensures 0 <= v < 64
  {
    SymbolValue(c).value
  }

  /** Decodes padded Base64; the partner of `Encode`. */
  function Decode(t: Bytes): Option<Bytes>
    decreases |t|
  {
    if |t| == 0 then Some([])
    else if |t| < 4 || !IsSymbol(t[0]) || !IsSymbol(t[1]) then None
    else
      var a, b := Value(t[0]), Value(t[1]);
      if |t| == 4 && t[2] == PAD && t[3] == PAD then Some([(a * 4 + b / 16) as byte])
      else if !IsSymbol(t[2]) then None
      else
        var c := Value(t[2]);
        if |t| == 4 && t[3] == PAD then Some([(a * 4 + b / 16) as byte, (b % 16 * 16 + c / 4) as byte])
        else if !IsSymbol(t[3]) then None
        else
          var d := Value(t[3]);
          var rest := Decode(t[4..]);
          if rest.None? then None
          else Some([(a * 4 + b / 16) as byte, (b % 16 * 16 + c / 4) as byte, (c % 4 * 64 + d) as byte] + rest.value)
  }

  /** The arithmetic that undoes the regrouping of three bytes into four sextets. */
  lemma Regroup(b0: int, b1: int, b2: int)
    requires 0 <= b0 < 256 && 0 <= b1 < 256 && 0 <= b2 < 256
    ensures b0 / 4 * 4 + (b0 % 4 * 16 + b1 / 16) / 16 == b0
    ensures (b0 % 4 * 16 + b1 / 16) % 16 * 16 + (b1 % 16 * 4 + b2 / 64) / 4 == b1
    ensures (b1 % 16 * 4 + b2 / 64) % 4 * 64 + b2 % 64 == b2
  {
  }

  lemma DecodeSingle(b0: byte)
    ensures Decode(PaddedSingle(b0)) == Some([b0])
  {
    var a, b := b0 as int / 4, b0 as int % 4 * 16;
    SymbolInverse(a);
    SymbolInverse(b);
    Regroup(b0 as int, 0, 0);
    assert a * 4 + b / 16 == b0 as int;
  }

  lemma DecodePair(b0: byte, b1: byte)
    ensures Decode(PaddedPair(b0, b1)) == Some([b0, b1])
  {
    var a, b, c := b0 as int / 4, b0 as int % 4 * 16 + b1 as int / 16, b1 as int % 16 * 4;
    SymbolInverse(a);
    SymbolInverse(b);
    SymbolInverse(c);
    assert Symbol(c) != PAD;
    Regroup(b0 as int, b1 as int, 0);
    assert a * 4 + b / 16 == b0 as int && b % 16 * 16 + c / 4 == b1 as int;
  }

  lemma DecodeQuartet(b0: byte, b1: byte, b2: byte, t: Bytes, rest: Bytes)
    requires Decode(t) == Some(rest)
    ensures Decode(Quartet(b0, b1, b2) + t) == Some([b0, b1, b2] + rest)
  {
    var a, b := b0 as int / 4, b0 as int % 4 * 16 + b1 as int / 16;
    var c, d := b1 as int % 16 * 4 + b2 as int / 64, b2 as int % 64;
    var q := Quartet(b0, b1, b2) + t;
    SymbolInverse(a);
    SymbolInverse(b);
    SymbolInverse(c);
    SymbolInverse(d);
    assert Symbol(d) != PAD;
    assert q[4..] == t;
    Regroup(b0 as int, b1 as int, b2 as int);
    assert a * 4 + b / 16 == b0 as int && b % 16 * 16 + c / 4 == b1 as int && c % 4 * 64 + d == b2 as int;
  }

  /** The encoded credentials are recovered exactly by decoding them. */
  lemma {:induction false} DecodeEncode(s: Bytes)
    ensures Decode(Encode(s)) == Some(s)
    decreases |s|
  {
    if |s| == 1 {
      DecodeSingle(s[0]);
      assert [s[0]] == s;
    } else if |s| == 2 {
      DecodePair(s[0], s[1]);
      assert [s[0], s[1]] == s;
    } else if |s| >= 3 {
      DecodeEncode(s[3..]);
      DecodeQuartet(s[0], s[1], s[2], Encode(s[3..]), s[3..]);
      assert [s[0], s[1], s[2]] + s[3..] == s;
    }
  }

  /** Every byte of an encoding is a symbol of the alphabet or the pad. */
  lemma {:induction false} EncodeAlphabet(s: Bytes)
    ensures forall i :: 0 <= i < |Encode(s)| ==> IsSymbol(Encode(s)[i]) || Encode(s)[i] == PAD
    decreases |s|
  {
    forall v | 0 <= v < 64
      ensures IsSymbol(Symbol(v))
    {
      SymbolInverse(v);
    }
    if |s| >= 3 {
      EncodeAlphabet(s[3..]);
    }
  }
}
