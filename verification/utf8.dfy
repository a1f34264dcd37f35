/**
  UTF-8 as defined in section 3 of RFC 3629: the encoding that the platform's
  `TextEncoder` applies to a string and that `TextDecoder` reverses. Text is
  modelled as a sequence of Unicode scalar values (code points other than the
  surrogates U+D800..U+DFFF).
 */
module Utf8 {
  import opened Bytes
  import opened Wrappers

  /** A Unicode scalar value. */
  type Scalar = c: int | 0 <= c <= 0x10FFFF && !(0xD800 <= c <= 0xDFFF)

  /** True for a continuation byte, `10xxxxxx`. */
  predicate IsContinuation(b: uint8) {
    0x80 <= b <= 0xBF
  }

  /** The bytes of one scalar value: the table in section 3 of RFC 3629. */
  function EncodeScalar(c: Scalar): (b: seq<uint8>)
    ensures 1 <= |b| <= 4
    ensures |b| == (if c < 0x80 then 1 else if c < 0x800 then 2 else if c < 0x10000 then 3 else 4)
    ensures |b| > 1 ==> forall i :: 0 <= i < |b| ==> b[i] >= 0x80
  {
    if c < 0x80 then
      [c as uint8]
    else if c < 0x800 then
      [(0xC0 + c / 0x40) as uint8, (0x80 + c % 0x40) as uint8]
    else if c < 0x10000 then
      [(0xE0 + c / 0x1000) as uint8, (0x80 + c / 0x40 % 0x40) as uint8, (0x80 + c % 0x40) as uint8]
    else
      [(0xF0 + c / 0x40000) as uint8, (0x80 + c / 0x1000 % 0x40) as uint8,
       (0x80 + c / 0x40 % 0x40) as uint8, (0x80 + c % 0x40) as uint8]
  }

  /** The UTF-8 encoding of a text. */
  function Encode(t: seq<Scalar>): seq<uint8> {
    if t == [] then [] else EncodeScalar(t[0]) + Encode(t[1..])
  }

  /** One decoded scalar value and the number of bytes it occupied. */
  datatype Decoded = Decoded(scalar: Scalar, width: nat)

  /**
    Decodes the scalar value at the head of `b`, following the syntax of
    section 4 of RFC 3629: no overlong forms, no surrogates, nothing above
    U+10FFFF. None when the head of `b` is not well-formed UTF-8.
   */
  function DecodeFirst(b: seq<uint8>): (r: Option<Decoded>)
    requires |b| > 0
    ensures r.Some? ==> 1 <= r.value.width <= |b| && r.value.width <= 4
  {
    var b0 := b[0] as int;
    if b0 < 0x80 then
      Some(Decoded(b0, 1))
    else if 0xC2 <= b0 <= 0xDF then
      if |b| >= 2 && IsContinuation(b[1]) then
        Some(Decoded((b0 - 0xC0) * 0x40 + (b[1] as int - 0x80), 2))
      else None
    else if 0xE0 <= b0 <= 0xEF then
      if |b| >= 3 && IsContinuation(b[1]) && IsContinuation(b[2]) then
        var c := (b0 - 0xE0) * 0x1000 + (b[1] as int - 0x80) * 0x40 + (b[2] as int - 0x80);
        if c < 0x800 || 0xD800 <= c <= 0xDFFF then None else Some(Decoded(c, 3))
      else None
    else if 0xF0 <= b0 <= 0xF4 then
      if |b| >= 4 && IsContinuation(b[1]) && IsContinuation(b[2]) && IsContinuation(b[3]) then
        var c := (b0 - 0xF0) * 0x40000 + (b[1] as int - 0x80) * 0x1000
                 + (b[2] as int - 0x80) * 0x40 + (b[3] as int - 0x80);
        if c < 0x10000 || c > 0x10FFFF then None else Some(Decoded(c, 4))
      else None
    else
      None
  }

  /** Decodes a whole byte sequence; None unless all of it is well-formed UTF-8. */
  function Decode(b: seq<uint8>): Option<seq<Scalar>>
    decreases |b|
  {
    if b == [] then Some([])
    else
      match DecodeFirst(b)
      case None => None
      case Some(d) =>
        match Decode(b[d.width..])
        case None => None
        case Some(rest) => Some([d.scalar] + rest)
  }

  /** Encoding distributes over concatenation of texts. */
  lemma {:induction false} EncodeAppend(s: seq<Scalar>, t: seq<Scalar>)
    ensures Encode(s + t) == Encode(s) + Encode(t)
    decreases |s|
  {
    if s == [] {
      assert s + t == t;
    } else {
      assert (s + t)[1..] == s[1..] + t;
      EncodeAppend(s[1..], t);
    }
  }

  /** Every scalar value takes one to four bytes, so a text never encodes shorter than it is long. */
  lemma {:induction false} EncodeLength(t: seq<Scalar>)
    ensures |t| <= |Encode(t)| <= 4 * |t|
    decreases |t|
  {
    if t != [] {
      EncodeLength(t[1..]);
    }
  }

  /** Quotient and remainder are determined by any decomposition with the remainder in range. */
  lemma DivModUnique(c: int, d: int, q: int, r: int)
    requires d > 0 && c == q * d + r && 0 <= r < d
    ensures c / d == q && c % d == r
  {
    var q', r' := c / d, c % d;
    var k := q' - q;
    assert k * d == r - r';
    assert k >= 1 ==> k * d == (k - 1) * d + d;
    assert k <= -1 ==> k * d == (k + 1) * d - d;
    assert k >= 1 ==> (k - 1) * d >= 0;
    assert k <= -1 ==> (k + 1) * d <= 0;
  }

  /** The two-byte form read back. */
  lemma DecodeFirstEncodeTwo(c: Scalar, rest: seq<uint8>)
    requires 0x80 <= c < 0x800
    ensures DecodeFirst(EncodeScalar(c) + rest) == Some(Decoded(c, 2))
  {
    var b := EncodeScalar(c) + rest;
    var hi, lo := c / 0x40, c % 0x40;
    assert b[0] as int == 0xC0 + hi && b[1] as int == 0x80 + lo;
  }

  /** The three-byte form read back. */
  lemma DecodeFirstEncodeThree(c: Scalar, rest: seq<uint8>)
    requires 0x800 <= c < 0x10000
    ensures DecodeFirst(EncodeScalar(c) + rest) == Some(Decoded(c, 3))
  {
    var b := EncodeScalar(c) + rest;
    var q, lo := c / 0x40, c % 0x40;
    var hi, mid := q / 0x40, q % 0x40;
    DivModUnique(c, 0x1000, hi, mid * 0x40 + lo);
    assert b[0] as int == 0xE0 + hi && b[1] as int == 0x80 + mid && b[2] as int == 0x80 + lo;
  }

  /** The four-byte form read back. */
  lemma DecodeFirstEncodeFour(c: Scalar, rest: seq<uint8>)
    requires 0x10000 <= c
    ensures DecodeFirst(EncodeScalar(c) + rest) == Some(Decoded(c, 4))
  {
    var b := EncodeScalar(c) + rest;
    var q, lo := c / 0x40, c % 0x40;
    var q2, mid := q / 0x40, q % 0x40;
    var hi, top := q2 / 0x40, q2 % 0x40;
    DivModUnique(c, 0x1000, q2, mid * 0x40 + lo);
    DivModUnique(c, 0x40000, hi, top * 0x1000 + mid * 0x40 + lo);
    assert b[0] as int == 0xF0 + hi && b[1] as int == 0x80 + top;
    assert b[2] as int == 0x80 + mid && b[3] as int == 0x80 + lo;
  }

  /** The decoder reads back exactly the scalar value the encoder wrote. */
  lemma DecodeFirstEncodeScalar(c: Scalar, rest: seq<uint8>)
    ensures DecodeFirst(EncodeScalar(c) + rest) == Some(Decoded(c, |EncodeScalar(c)|))
  {
    if c < 0x80 {
    } else if c < 0x800 {
      DecodeFirstEncodeTwo(c, rest);
    } else if c < 0x10000 {
      DecodeFirstEncodeThree(c, rest);
    } else {
      DecodeFirstEncodeFour(c, rest);
    }
  }

  /** Round trip: decoding the encoding of any text gives that text back. */
  lemma {:induction false} DecodeEncode(t: seq<Scalar>)
    ensures Decode(Encode(t)) == Some(t)
    decreases |t|
  {
    if t != [] {
      var e := EncodeScalar(t[0]);
      DecodeFirstEncodeScalar(t[0], Encode(t[1..]));
      assert Encode(t) == e + Encode(t[1..]);
      assert Encode(t)[|e|..] == Encode(t[1..]);
      DecodeEncode(t[1..]);
      assert [t[0]] + t[1..] == t;
    }
  }

  /** Whatever the decoder accepts at the head is exactly the encoding of the scalar it returns. */
  lemma EncodeScalarDecodeFirst(b: seq<uint8>)
    requires |b| > 0 && DecodeFirst(b).Some?
    ensures EncodeScalar(DecodeFirst(b).value.scalar) == b[..DecodeFirst(b).value.width]
  {
    var d := DecodeFirst(b).value;
    var c := d.scalar;
    var e := EncodeScalar(c);
    var b0 := b[0] as int;
    if d.width == 2 {
      var b1 := b[1] as int;
      DivModUnique(c, 0x40, b0 - 0xC0, b1 - 0x80);
      assert e == b[..2];
    } else if d.width == 3 {
      var b1, b2 := b[1] as int, b[2] as int;
      DivModUnique(c, 0x40, (b0 - 0xE0) * 0x40 + (b1 - 0x80), b2 - 0x80);
      DivModUnique(c / 0x40, 0x40, b0 - 0xE0, b1 - 0x80);
      DivModUnique(c, 0x1000, b0 - 0xE0, (b1 - 0x80) * 0x40 + (b2 - 0x80));
      assert e == b[..3];
    } else if d.width == 4 {
      var b1, b2, b3 := b[1] as int, b[2] as int, b[3] as int;
      DivModUnique(c, 0x40, (b0 - 0xF0) * 0x1000 + (b1 - 0x80) * 0x40 + (b2 - 0x80), b3 - 0x80);
      DivModUnique(c / 0x40, 0x40, (b0 - 0xF0) * 0x40 + (b1 - 0x80), b2 - 0x80);
      DivModUnique(c, 0x1000, (b0 - 0xF0) * 0x40 + (b1 - 0x80), (b2 - 0x80) * 0x40 + (b3 - 0x80));
      DivModUnique(c / 0x1000, 0x40, b0 - 0xF0, b1 - 0x80);
      DivModUnique(c, 0x40000, b0 - 0xF0, (b1 - 0x80) * 0x1000 + (b2 - 0x80) * 0x40 + (b3 - 0x80));
      assert e == b[..4];
    }
  }

  /** The other round trip: bytes the decoder accepts are the encoding of what it returns. */
  lemma {:induction false} EncodeDecode(b: seq<uint8>)
    requires Decode(b).Some?
    ensures Encode(Decode(b).value) == b
    decreases |b|
  {
    if b != [] {
      var d := DecodeFirst(b).value;
      EncodeScalarDecodeFirst(b);
      EncodeDecode(b[d.width..]);
      var t := Decode(b).value;
      assert t[0] == d.scalar && t[1..] == Decode(b[d.width..]).value;
      assert b == b[..d.width] + b[d.width..];
    }
  }

  /** Encoding is injective: different texts never share a byte sequence. */
  lemma EncodeInjective(s: seq<Scalar>, t: seq<Scalar>)
    requires Encode(s) == Encode(t)
    ensures s == t
  {
    DecodeEncode(s);
    DecodeEncode(t);
  }

  /** A zero byte appears in the encoding exactly where the text holds U+0000. */
  lemma {:induction false} EncodeZeroFree(t: seq<Scalar>)
    ensures ZeroFree(Encode(t)) <==> 0 !in t
    decreases |t|
  {
    if t != [] {
      var e := EncodeScalar(t[0]);
      EncodeZeroFree(t[1..]);
      assert Encode(t) == e + Encode(t[1..]);
      if t[0] == 0 {
        assert Encode(t)[0] == 0;
      } else {
        assert ZeroFree(e);
        if ZeroFree(Encode(t[1..])) {
          forall i | 0 <= i < |Encode(t)|
            ensures Encode(t)[i] != 0
          {
            if i >= |e| {
              assert Encode(t)[i] == Encode(t[1..])[i - |e|];
            }
          }
        } else {
          var j :| 0 <= j < |Encode(t[1..])| && Encode(t[1..])[j] == 0;
          assert Encode(t)[|e| + j] == 0;
        }
      }
      assert t == [t[0]] + t[1..];
    }
  }
}
