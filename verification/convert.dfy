/**
  The fixed-width name codec of the gateway (src/helpers/convert.ts). A name is
  stored on the ledger as a 32-byte word: its UTF-8 bytes followed by zero
  bytes. `Utf8StringToHex` builds that word and renders it as a hex string;
  `HexToUtf8String` reads a hex string back, dropping every zero byte before
  it decodes.
 */
module Convert {
  import opened Bytes
  import opened Wrappers
  import Utf8
  import Hex

  /** The width of the ledger's name slot, in bytes. */
  const MaxByteSize: nat := 32

  /** Why a conversion was refused. */
  datatype CodecError =
    | TooLarge(byteSize: nat)     // the text needs more than 32 bytes
    | NotHex(input: string)       // the input fails `isHex`
    | InvalidUtf8                 // what is left after dropping zeros is not UTF-8

  /** `stringToHex` of `@polkadot/util`: the hex of the text's UTF-8 bytes. */
  function StringToHex(text: seq<Utf8.Scalar>): (r: string)
    ensures Hex.IsHex(r) && |r| == 2 + 2 * |Utf8.Encode(text)|
    ensures Hex.IsHexBody(Hex.StripPrefix(r)) && Hex.HexToU8a(r) == Utf8.Encode(text)
  {
    Hex.HexToU8aOfU8aToHex(Utf8.Encode(text));
    Hex.U8aToHex(Utf8.Encode(text))
  }

  /**
    JavaScript's `s.replace('0x', '')`: with a string pattern only the FIRST
    occurrence is removed, wherever it is.
   */
  function ReplaceFirst0x(s: string): (r: string)
    ensures |s| >= 2 && s[..2] == "0x" ==> r == s[2..]
    decreases |s|
  {
    if |s| < 2 then s
    else if s[..2] == "0x" then s[2..]
    else [s[0]] + ReplaceFirst0x(s[1..])
  }

  /**
    The `encodedString` of utf8StringToHex: the text is hex-encoded, its prefix
    removed and the digits parsed back. The detour through hex changes nothing:
    the result is the text's UTF-8 encoding.
   */
  function EncodedString(text: seq<Utf8.Scalar>): (b: seq<uint8>)
    ensures b == Utf8.Encode(text)
  {
    var bytes := Utf8.Encode(text);
    assert StringToHex(text) == "0x" + Hex.Digits(bytes);
    assert (StringToHex(text))[..2] == "0x";
    Hex.HexToU8aOfDigits(bytes);
    Hex.HexToU8a(ReplaceFirst0x(StringToHex(text)))
  }

  /**
    The byte level of utf8StringToHex: refuse a text whose UTF-8 encoding is
    longer than 32 bytes, pad a shorter one with zero bytes, and keep one of
    exactly 32 bytes as it is.
   */
  function EncodeName(text: seq<Utf8.Scalar>): (r: Result<Bytes32, CodecError>)
    ensures r.Failure? <==> |Utf8.Encode(text)| > MaxByteSize
    ensures r.Failure? ==> r.error == TooLarge(|Utf8.Encode(text)|)
    ensures r.Success? ==> r.value[..|Utf8.Encode(text)|] == Utf8.Encode(text)
    ensures r.Success? ==> forall i :: |Utf8.Encode(text)| <= i < MaxByteSize ==> r.value[i] == 0
  {
    var encodedString := EncodedString(text);
    var inputByteSize := |encodedString|;
    if inputByteSize > MaxByteSize then
      Failure(TooLarge(inputByteSize))
    else if inputByteSize < MaxByteSize then
      var filler := Zeros(MaxByteSize - inputByteSize);
      Success(encodedString + filler)
    else
      Success(encodedString)
  }

  /** utf8StringToHex: the 32-byte name word of a text, as a hex string. */
  function Utf8StringToHex(text: seq<Utf8.Scalar>): (r: Result<string, CodecError>)
    ensures r.Failure? <==> |Utf8.Encode(text)| > MaxByteSize
    ensures r.Failure? ==> r.error == TooLarge(|Utf8.Encode(text)|)
    ensures r.Success? ==> Hex.IsHex(r.value) && |r.value| == 2 + 2 * MaxByteSize
    ensures r.Success? ==>
      var n := |Utf8.Encode(text)|;
      Hex.IsHexBody(Hex.StripPrefix(r.value)) &&
      Hex.HexToU8a(r.value) == Utf8.Encode(text) + Zeros(MaxByteSize - n)
  {
    match EncodeName(text)
    case Failure(e) => Failure(e)
    case Success(word) =>
      Hex.HexToU8aOfU8aToHex(word);
      var n := |Utf8.Encode(text)|;
      assert word == word[..n] + word[n..];
      assert word[n..] == Zeros(MaxByteSize - n);
      Success(Hex.U8aToHex(word))
  }

  /** `bytes.filter(i => i !== 0x00)`: every zero byte removed, wherever it sits. */
  function RemoveZeros(b: seq<uint8>): (r: seq<uint8>)
    ensures ZeroFree(r)
    ensures multiset(r) == multiset(b)[0 := 0]
    ensures |r| <= |b|
  {
    if b == [] then []
    else
      assert b == [b[0]] + b[1..];
      (if b[0] == 0 then [] else [b[0]]) + RemoveZeros(b[1..])
  }

  /** The UTF-8 bytes of the byte-order mark U+FEFF. */
  predicate StartsWithBom(b: seq<uint8>) {
    |b| >= 3 && b[..3] == [0xEF, 0xBB, 0xBF]
  }

  /** The bytes without one leading byte-order mark. */
  function WithoutBom(b: seq<uint8>): seq<uint8> {
    if StartsWithBom(b) then b[3..] else b
  }

  /**
    `u8aToString`: the platform `TextDecoder` with its default options, which
    decodes UTF-8 and drops one leading byte-order mark U+FEFF. Input that is
    not UTF-8 gives None here (see README).
   */
  function U8aToString(b: seq<uint8>): (r: Option<seq<Utf8.Scalar>>)
    ensures r.Some? <==> Utf8.Decode(b).Some?
    ensures r.Some? ==> Utf8.Encode(r.value) == WithoutBom(b)
  {
    match Utf8.Decode(b)
    case None => None
    case Some(t) =>
      Utf8.EncodeDecode(b);
      if |t| > 0 && t[0] == 0xFEFF then
        BomDecodes(b);
        Some(t[1..])
      else
        assert !StartsWithBom(b) by {
          if StartsWithBom(b) {
            BomDecodes(b);
          }
        }
        Some(t)
  }

  /** A byte sequence the decoder accepts starts with a byte-order mark exactly when its text does. */
  lemma BomDecodes(b: seq<uint8>)
    requires Utf8.Decode(b).Some?
    ensures var t := Utf8.Decode(b).value;
      StartsWithBom(b) <==> |t| > 0 && t[0] == 0xFEFF
    ensures var t := Utf8.Decode(b).value;
      StartsWithBom(b) ==> Utf8.Decode(b[3..]) == Some(t[1..])
  {
    var t := Utf8.Decode(b).value;
    if b != [] {
      var d := DecodeFirstOf(b);
      Utf8.EncodeScalarDecodeFirst(b);
      assert Utf8.EncodeScalar(0xFEFF) == [0xEF, 0xBB, 0xBF];
      if StartsWithBom(b) {
        assert d.width == 3 && d.scalar == 0xFEFF;
      }
      if t[0] == 0xFEFF {
        assert b[..d.width] == [0xEF, 0xBB, 0xBF];
      }
    }
  }

  /** The first scalar the decoder reads from a non-empty accepted byte sequence. */
  function DecodeFirstOf(b: seq<uint8>): (d: Utf8.Decoded)
    requires b != [] && Utf8.Decode(b).Some?
    ensures Utf8.DecodeFirst(b) == Some(d)
    ensures Utf8.Decode(b[d.width..]).Some?
    ensures Utf8.Decode(b).value == [d.scalar] + Utf8.Decode(b[d.width..]).value
  {
    Utf8.DecodeFirst(b).value
  }

  /**
    The byte level of hexToUtf8String: drop every zero byte, then decode the
    rest with `u8aToString`. Nothing checks the length of `b`.
   */
  function DecodeName(b: seq<uint8>): (r: Result<seq<Utf8.Scalar>, CodecError>)
    ensures r.Success? <==> Utf8.Decode(RemoveZeros(b)).Some?
    ensures r.Success? ==> Utf8.Encode(r.value) == WithoutBom(RemoveZeros(b))
    ensures r.Failure? ==> r.error == InvalidUtf8
  {
    var stringHex := RemoveZeros(b);
    match U8aToString(stringHex)
    case None => Failure(InvalidUtf8)
    case Some(text) => Success(text)
  }

  /**
    hexToUtf8String: refuse what `isHex` refuses; otherwise parse the bytes,
    drop every zero byte and decode the rest.
   */
  function HexToUtf8String(s: string): (r: Result<seq<Utf8.Scalar>, CodecError>)
    ensures !Hex.IsHex(s) <==> r == Failure(NotHex(s))
    ensures r.Success? ==>
      Hex.IsHex(s) && Hex.IsHexBody(Hex.StripPrefix(s)) &&
      Utf8.Encode(r.value) == WithoutBom(RemoveZeros(Hex.HexToU8a(s)))
    ensures Hex.IsHex(s) && r.Failure? ==> r.error == InvalidUtf8
    ensures Hex.IsHex(s) ==>
      Hex.IsHexBody(Hex.StripPrefix(s)) &&
      (r.Success? <==> Utf8.Decode(RemoveZeros(Hex.HexToU8a(s))).Some?)
  {
    if !Hex.IsHex(s) then
      Failure(NotHex(s))
    else
      assert Hex.StripPrefix(s) == s[2..];
      var byteArray := Hex.HexToU8a(s);
      DecodeName(byteArray)
  }
}
