/**
  What the name codec promises: the zero filter removes zero bytes and nothing
  else, trailing padding of any length is invisible to the reader, and a name
  that fits the slot, holds no U+0000 and does not start with the byte-order
  mark U+FEFF survives the trip through the ledger word unchanged.
 */
module ConvertProperties {
  import opened Bytes
  import opened Wrappers
  import Utf8
  import Hex
  import opened Convert

  /** Filtering distributes over concatenation. */
  lemma {:induction false} RemoveZerosAppend(a: seq<uint8>, b: seq<uint8>)
    ensures RemoveZeros(a + b) == RemoveZeros(a) + RemoveZeros(b)
    decreases |a|
  {
    if a == [] {
      assert a + b == b;
    } else {
      assert (a + b)[0] == a[0];
      assert (a + b)[1..] == a[1..] + b;
      RemoveZerosAppend(a[1..], b);
    }
  }

  /** Bytes without a zero pass the filter unchanged. */
  lemma {:induction false} RemoveZerosOfZeroFree(b: seq<uint8>)
    requires ZeroFree(b)
    ensures RemoveZeros(b) == b
    decreases |b|
  {
    if b != [] {
      assert ZeroFree(b[1..]) by {
        forall i | 0 <= i < |b[1..]|
          ensures b[1..][i] != 0
        {
          assert b[1..][i] == b[i + 1];
        }
      }
      RemoveZerosOfZeroFree(b[1..]);
      assert b == [b[0]] + b[1..];
    }
  }

  /** A run of zero bytes vanishes entirely. */
  lemma {:induction false} RemoveZerosOfZeros(k: nat)
    ensures RemoveZeros(Zeros(k)) == []
    decreases k
  {
    if k > 0 {
      assert Zeros(k)[1..] == Zeros(k - 1);
      RemoveZerosOfZeros(k - 1);
    }
  }

  /** The filter removes a run of zero bytes from the middle of its input. */
  lemma RemoveEmbeddedZeros(a: seq<uint8>, k: nat, b: seq<uint8>)
    ensures RemoveZeros(a + Zeros(k) + b) == RemoveZeros(a + b)
  {
    RemoveZerosAppend(a + Zeros(k), b);
    RemoveZerosAppend(a, Zeros(k));
    RemoveZerosOfZeros(k);
    RemoveZerosAppend(a, b);
    assert RemoveZeros(a) + [] == RemoveZeros(a);
  }

  /** Zero bytes are dropped wherever they sit, not only at the end of the word. */
  lemma EmbeddedZerosIgnored(a: seq<uint8>, k: nat, b: seq<uint8>)
    ensures DecodeName(a + Zeros(k) + b) == DecodeName(a + b)
  {
    RemoveEmbeddedZeros(a, k, b);
  }

  /**
    hexToUtf8String accepts the hex of any byte sequence, whatever its length,
    and reads it exactly as the byte-level decoder does.
   */
  lemma AnyLengthAccepted(b: seq<uint8>)
    ensures HexToUtf8String(Hex.U8aToHex(b)) == DecodeName(b)
    ensures HexToUtf8String(Hex.U8aToHex(b)) != Failure(NotHex(Hex.U8aToHex(b)))
  {
    Hex.HexToU8aOfU8aToHex(b);
  }

  /** Zero padding of any length after the bytes does not change what is read. */
  lemma TrailingPaddingIgnored(b: seq<uint8>, k: nat)
    ensures HexToUtf8String(Hex.U8aToHex(b + Zeros(k))) == HexToUtf8String(Hex.U8aToHex(b))
  {
    AnyLengthAccepted(b + Zeros(k));
    AnyLengthAccepted(b);
    EmbeddedZerosIgnored(b, k, []);
    assert b + Zeros(k) + [] == b + Zeros(k);
    assert b + [] == b;
  }

  /** The text with every U+0000 removed. */
  function RemoveNul(t: seq<Utf8.Scalar>): (r: seq<Utf8.Scalar>)
    ensures 0 !in r
    ensures multiset(r) == multiset(t)[0 := 0]
  {
    if t == [] then []
    else
      assert t == [t[0]] + t[1..];
      (if t[0] == 0 then [] else [t[0]]) + RemoveNul(t[1..])
  }

  /** A scalar's bytes are all zero (U+0000) or all non-zero. */
  lemma RemoveZerosOfEncodeScalar(c: Utf8.Scalar)
    ensures RemoveZeros(Utf8.EncodeScalar(c)) == Utf8.Encode(if c == 0 then [] else [c])
  {
    var e := Utf8.EncodeScalar(c);
    if c == 0 {
      assert e == [0];
      assert RemoveZeros(e) == [] + RemoveZeros([]);
    } else {
      assert ZeroFree(e);
      RemoveZerosOfZeroFree(e);
      assert Utf8.Encode([c]) == e + Utf8.Encode([]);
    }
  }

  /** Filtering the zero bytes of an encoding is the encoding of the text without its U+0000s. */
  lemma {:induction false} RemoveZerosOfEncode(t: seq<Utf8.Scalar>)
    ensures RemoveZeros(Utf8.Encode(t)) == Utf8.Encode(RemoveNul(t))
    decreases |t|
  {
    if t != [] {
      var head: seq<Utf8.Scalar> := if t[0] == 0 then [] else [t[0]];
      RemoveZerosAppend(Utf8.EncodeScalar(t[0]), Utf8.Encode(t[1..]));
      RemoveZerosOfEncodeScalar(t[0]);
      RemoveZerosOfEncode(t[1..]);
      Utf8.EncodeAppend(head, RemoveNul(t[1..]));
      assert RemoveNul(t) == head + RemoveNul(t[1..]);
    }
  }

  /** The text without one leading byte-order mark U+FEFF. */
  function DropBom(t: seq<Utf8.Scalar>): (r: seq<Utf8.Scalar>)
    ensures |t| > 0 && t[0] == 0xFEFF ==> [t[0]] + r == t
    ensures (t == [] || t[0] != 0xFEFF) ==> r == t
  {
    if |t| > 0 && t[0] == 0xFEFF then t[1..] else t
  }

  /**
    What the round trip through the ledger word really computes: every name
    that fits comes back with its U+0000 characters removed and then, if it
    starts with U+FEFF, without that first character.
   */
  lemma RoundTripDropsNul(text: seq<Utf8.Scalar>)
    requires |Utf8.Encode(text)| <= MaxByteSize
    ensures Utf8StringToHex(text).Success?
    ensures HexToUtf8String(Utf8StringToHex(text).value) == Success(DropBom(RemoveNul(text)))
  {
    var word := EncodeName(text).value;
    AnyLengthAccepted(word);
    RemoveZerosOfWord(text);
    U8aToStringOfEncode(RemoveNul(text));
  }

  /** The zero filter recovers a stored name's encoding, minus the encoding of its U+0000s. */
  lemma RemoveZerosOfWord(text: seq<Utf8.Scalar>)
    requires |Utf8.Encode(text)| <= MaxByteSize
    ensures EncodeName(text).Success?
    ensures RemoveZeros(EncodeName(text).value) == Utf8.Encode(RemoveNul(text))
  {
    var e := Utf8.Encode(text);
    var word := EncodeName(text).value;
    assert word == e + Zeros(MaxByteSize - |e|) by {
      assert word == word[..|e|] + word[|e|..];
      assert word[|e|..] == Zeros(MaxByteSize - |e|);
    }
    RemoveZerosAppend(e, Zeros(MaxByteSize - |e|));
    RemoveZerosOfZeros(MaxByteSize - |e|);
    RemoveZerosOfEncode(text);
  }

  /** `u8aToString` reads back any encoded text, less a leading U+FEFF. */
  lemma U8aToStringOfEncode(t: seq<Utf8.Scalar>)
    ensures U8aToString(Utf8.Encode(t)) == Some(DropBom(t))
  {
    Utf8.DecodeEncode(t);
  }

  /**
    Round trip: a name whose UTF-8 encoding fits in 32 bytes, that holds no
    U+0000 and that does not start with U+FEFF is read back exactly as it was
    written.
   */
  lemma RoundTrip(text: seq<Utf8.Scalar>)
    requires |Utf8.Encode(text)| <= MaxByteSize && 0 !in text
    requires text == [] || text[0] != 0xFEFF
    ensures Utf8StringToHex(text).Success?
    ensures HexToUtf8String(Utf8StringToHex(text).value) == Success(text)
  {
    RoundTripDropsNul(text);
    assert RemoveNul(text) == text by {
      RemoveNulOfNulFree(text);
    }
  }

  /** A text without U+0000 is left as it is by RemoveNul. */
  lemma {:induction false} RemoveNulOfNulFree(t: seq<Utf8.Scalar>)
    requires 0 !in t
    ensures RemoveNul(t) == t
    decreases |t|
  {
    if t != [] {
      assert t[0] != 0;
      assert 0 !in t[1..];
      RemoveNulOfNulFree(t[1..]);
      assert t == [t[0]] + t[1..];
    }
  }

  /** RemoveNul on the text "a\0b". */
  lemma RemoveNulExample()
    ensures RemoveNul([0x61, 0, 0x62]) == [0x61, 0x62]
  {
    var tail: seq<Utf8.Scalar> := [0x62];
    assert RemoveNul(tail) == [0x62] by {
      assert tail[1..] == [];
    }
    assert RemoveNul([0, 0x62]) == RemoveNul(tail) by {
      assert [0, 0x62][1..] == tail;
    }
  }

  /** An embedded U+0000 does not survive the round trip: "a\0b" comes back as "ab". */
  lemma NulIsLost()
    ensures HexToUtf8String(Utf8StringToHex([0x61, 0, 0x62]).value) == Success([0x61, 0x62])
  {
    var text: seq<Utf8.Scalar> := [0x61, 0, 0x62];
    Utf8.EncodeLength(text);
    RoundTripDropsNul(text);
    RemoveNulExample();
  }

  /** A leading byte-order mark does not survive the round trip: "\u{FEFF}a" comes back as "a". */
  lemma LeadingBomIsLost()
    ensures HexToUtf8String(Utf8StringToHex([0xFEFF, 0x61]).value) == Success([0x61])
  {
    var text: seq<Utf8.Scalar> := [0xFEFF, 0x61];
    Utf8.EncodeLength(text);
    RoundTripDropsNul(text);
    RemoveNulOfNulFree(text);
  }

  /** More than 32 characters can never fit, since each takes at least one byte. */
  lemma LongTextRejected(text: seq<Utf8.Scalar>)
    requires |text| > MaxByteSize
    ensures Utf8StringToHex(text) == Failure(TooLarge(|Utf8.Encode(text)|))
  {
    Utf8.EncodeLength(text);
  }

  /** "alice" becomes its five ASCII bytes and 27 zero bytes, and reads back as "alice". */
  lemma AliceScenario()
    ensures EncodeName([0x61, 0x6C, 0x69, 0x63, 0x65]) == Success([0x61, 0x6C, 0x69, 0x63, 0x65] + Zeros(27))
    ensures HexToUtf8String(Utf8StringToHex([0x61, 0x6C, 0x69, 0x63, 0x65]).value) == Success([0x61, 0x6C, 0x69, 0x63, 0x65])
  {
    var text: seq<Utf8.Scalar> := [0x61, 0x6C, 0x69, 0x63, 0x65];
    assert Utf8.Encode(text) == [0x61, 0x6C, 0x69, 0x63, 0x65];
    var word := EncodeName(text).value;
    assert word == word[..5] + word[5..];
    assert word[5..] == Zeros(27);
    RoundTrip(text);
  }
}
