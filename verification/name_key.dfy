/**
  Where the two halves meet: a caller that stores the 32-byte word built by
  `Utf8StringToHex` as the contract's `Hash` would store the all-zero word,
  `Hash::default()`, for exactly the texts made only of U+0000, the empty name
  among them. That is the one name the registry's invariant cannot tolerate.
 */
module NameKey {
  import opened Bytes
  import opened Wrappers
  import Utf8
  import Convert
  import ConvertProperties
  import NameService

  /** The contract name a successfully encoded text is stored under. */
  function NameHash(text: seq<Utf8.Scalar>): NameService.Hash
    requires Convert.EncodeName(text).Success?
  {
    NameService.Hash(Convert.EncodeName(text).value)
  }

  /** The filter leaves nothing exactly when every byte was zero. */
  lemma {:induction false} RemoveZerosEmpty(b: seq<uint8>)
    ensures Convert.RemoveZeros(b) == [] <==> b == Zeros(|b|)
    decreases |b|
  {
    if b != [] {
      RemoveZerosEmpty(b[1..]);
      assert b == [b[0]] + b[1..];
      assert Zeros(|b|) == [0] + Zeros(|b| - 1);
    }
  }

  /**
    A text is stored under `Hash::default()` exactly when nothing is left of
    it once its U+0000 characters are removed.
   */
  lemma DefaultNameIffOnlyNul(text: seq<Utf8.Scalar>)
    requires Convert.EncodeName(text).Success?
    ensures NameHash(text) == NameService.DefaultHash() <==> ConvertProperties.RemoveNul(text) == []
  {
    var word := Convert.EncodeName(text).value;
    ConvertProperties.RemoveZerosOfWord(text);
    RemoveZerosEmpty(word);
    Utf8.EncodeLength(ConvertProperties.RemoveNul(text));
  }

  /** The empty name is stored under `Hash::default()`. */
  lemma EmptyNameIsDefaultHash()
    ensures Convert.EncodeName([]).Success? && NameHash([]) == NameService.DefaultHash()
  {
    DefaultNameIffOnlyNul([]);
  }

  /** A non-empty name without U+0000 that fits the slot is never stored under `Hash::default()`. */
  lemma NulFreeNameIsNotDefault(text: seq<Utf8.Scalar>)
    requires text != [] && 0 !in text && |Utf8.Encode(text)| <= Convert.MaxByteSize
    ensures Convert.EncodeName(text).Success? && NameHash(text) != NameService.DefaultHash()
  {
    DefaultNameIffOnlyNul(text);
    ConvertProperties.RemoveNulOfNulFree(text);
  }
}
