/**
  The `@polkadot/util` hex-string form that src/helpers/convert.ts works in:
  `0x` followed by two hex digits per byte, as produced by `u8aToHex`,
  recognised by `isHex` and parsed by `hexToU8a`.
 */
module Hex {
  import opened Bytes

  /** A hexadecimal digit in either case. */
  predicate IsHexDigit(c: char) {
    '0' <= c <= '9' || 'a' <= c <= 'f' || 'A' <= c <= 'F'
  }

  /** The value of a hex digit. */
  function DigitValue(c: char): (v: nat)
    requires IsHexDigit(c)
    ensures v < 16
  {
    if '0' <= c <= '9' then c as nat - '0' as nat
    else if 'a' <= c <= 'f' then c as nat - 'a' as nat + 10
    else c as nat - 'A' as nat + 10
  }

  /** The lower-case digit that `u8aToHex` writes for a nibble. */
  function Digit(v: nat): (c: char)
    requires v < 16
    ensures IsHexDigit(c) && DigitValue(c) == v
    ensures !('A' <= c <= 'F')
  {
    if v < 10 then ('0' as int + v) as char else ('a' as int + v - 10) as char
  }

  /** A run of hex digits of even length: whole bytes, no prefix. */
  predicate IsHexBody(s: string) {
    |s| % 2 == 0 && forall i :: 0 <= i < |s| ==> IsHexDigit(s[i])
  }

  /**
    `isHex(value)` with its default arguments: the value is `0x` followed by
    hex digits, and its total length is even (`0x` alone is accepted).
   */
  predicate IsHex(s: string) {
    |s| >= 2 && s[..2] == "0x" && IsHexBody(s[2..])
  }

  /** The digits of `b`, two lower-case digits per byte, high nibble first. */
  function Digits(b: seq<uint8>): (s: string)
    ensures |s| == 2 * |b|
  {
    if b == [] then "" else [Digit(b[0] as nat / 16), Digit(b[0] as nat % 16)] + Digits(b[1..])
  }

  /** `u8aToHex`: the `0x`-prefixed digits of a byte sequence. */
  function U8aToHex(b: seq<uint8>): (s: string)
    ensures IsHex(s) && |s| == 2 + 2 * |b|
    ensures LowerCase(s)
  {
    ParseDigitsOfDigits(b);
    DigitsAreLowerCase(b);
    var s := "0x" + Digits(b);
    assert s[..2] == "0x" && s[2..] == Digits(b);
    s
  }

  /** `u8aToHex` writes only lower-case hex digits. */
  lemma {:induction false} DigitsAreLowerCase(b: seq<uint8>)
    ensures LowerCase(Digits(b))
    decreases |b|
  {
    if b != [] {
      DigitsAreLowerCase(b[1..]);
      var d := Digits(b);
      assert d == [Digit(b[0] as nat / 16), Digit(b[0] as nat % 16)] + Digits(b[1..]);
      forall i | 2 <= i < |d|
        ensures d[i] == Digits(b[1..])[i - 2]
      {
      }
    }
  }

  /** Parses whole bytes from a run of digits, two digits per byte. */
  function ParseDigits(s: string): (b: seq<uint8>)
    requires IsHexBody(s)
    ensures |b| == |s| / 2
  {
    if s == [] then [] else [(DigitValue(s[0]) * 16 + DigitValue(s[1])) as uint8] + ParseDigits(s[2..])
  }

  /** Drops a leading `0x`, as `hexToU8a` does before it reads the digits. */
  function StripPrefix(s: string): string {
    if |s| >= 2 && s[..2] == "0x" then s[2..] else s
  }

  /** `hexToU8a`: the bytes named by a hex string with or without its `0x` prefix. */
  function HexToU8a(s: string): (b: seq<uint8>)
    requires IsHexBody(StripPrefix(s))
    ensures |b| == |StripPrefix(s)| / 2
  {
    ParseDigits(StripPrefix(s))
  }

  /** Byte `i` of `b` is the value of digits `2i` and `2i + 1` of `s`, high nibble first. */
  predicate NamesBytes(s: string, b: seq<uint8>)
    requires IsHexBody(s)
  {
    |b| == |s| / 2 &&
    forall i :: 0 <= i < |b| ==> b[i] as nat == DigitValue(s[2 * i]) * 16 + DigitValue(s[2 * i + 1])
  }

  /** Each parsed byte is the value of its two digits, high nibble first. */
  lemma {:induction false} ParseDigitsValues(s: string)
    requires IsHexBody(s)
    ensures NamesBytes(s, ParseDigits(s))
    decreases |s|
  {
    if s != [] {
      var rest := s[2..];
      assert IsHexBody(rest) by {
        forall i | 0 <= i < |rest|
          ensures IsHexDigit(rest[i])
        {
          assert rest[i] == s[i + 2];
        }
      }
      ParseDigitsValues(rest);
      var b := ParseDigits(s);
      forall i | 0 <= i < |b|
        ensures b[i] as nat == DigitValue(s[2 * i]) * 16 + DigitValue(s[2 * i + 1])
      {
        if i > 0 {
          assert b[i] == ParseDigits(rest)[i - 1];
          assert rest[2 * (i - 1)] == s[2 * i] && rest[2 * (i - 1) + 1] == s[2 * i + 1];
        }
      }
    }
  }

  /** Every string of digits `u8aToHex` writes is a well-formed body that parses back to the bytes. */
  lemma {:induction false} ParseDigitsOfDigits(b: seq<uint8>)
    ensures IsHexBody(Digits(b))
    ensures ParseDigits(Digits(b)) == b
    decreases |b|
  {
    if b != [] {
      ParseDigitsOfDigits(b[1..]);
      var d := Digits(b);
      var hi, lo := b[0] as nat / 16, b[0] as nat % 16;
      assert d == [Digit(hi), Digit(lo)] + Digits(b[1..]);
      assert d[2..] == Digits(b[1..]);
      forall i | 0 <= i < |d|
        ensures IsHexDigit(d[i])
      {
        if i >= 2 {
          assert d[i] == Digits(b[1..])[i - 2];
        }
      }
      assert hi * 16 + lo == b[0] as nat;
    }
  }

  /** Round trip of the hex layer: `hexToU8a(u8aToHex(b)) == b`, and the written string passes `isHex`. */
  lemma HexToU8aOfU8aToHex(b: seq<uint8>)
    ensures IsHex(U8aToHex(b))
    ensures |U8aToHex(b)| == 2 + 2 * |b|
    ensures IsHexBody(StripPrefix(U8aToHex(b))) && HexToU8a(U8aToHex(b)) == b
  {
    ParseDigitsOfDigits(b);
    var s := U8aToHex(b);
    assert s[..2] == "0x" && s[2..] == Digits(b);
  }

  /** The bare digits parse back too: no digit run begins with `0x`, so nothing is stripped. */
  lemma HexToU8aOfDigits(b: seq<uint8>)
    ensures IsHexBody(StripPrefix(Digits(b))) && HexToU8a(Digits(b)) == b
  {
    ParseDigitsOfDigits(b);
    var s := Digits(b);
    if |s| >= 2 {
      assert IsHexDigit(s[1]);
      assert s[..2] != "0x";
    }
  }

  /** True when a string holds no upper-case hex digit. */
  predicate LowerCase(s: string) {
    forall i :: 0 <= i < |s| ==> !('A' <= s[i] <= 'F')
  }

  /** The converse round trip: a lower-case digit run is exactly what `u8aToHex` writes for its bytes. */
  lemma {:induction false} DigitsOfParseDigits(s: string)
    requires IsHexBody(s) && LowerCase(s)
    ensures Digits(ParseDigits(s)) == s
    decreases |s|
  {
    if s != [] {
      var rest := s[2..];
      assert IsHexBody(rest) && LowerCase(rest) by {
        forall i | 0 <= i < |rest|
          ensures IsHexDigit(rest[i]) && !('A' <= rest[i] <= 'F')
        {
          assert rest[i] == s[i + 2];
        }
      }
      DigitsOfParseDigits(rest);
      var hi, lo := DigitValue(s[0]), DigitValue(s[1]);
      var v := hi * 16 + lo;
      assert v / 16 == hi && v % 16 == lo;
      assert Digit(hi) == s[0] && Digit(lo) == s[1];
      assert ParseDigits(s) == [v as uint8] + ParseDigits(rest);
      assert s == [s[0], s[1]] + rest;
    }
  }
}
