/** The bit-string preprocessing of src/lib/sha1.ts: a message of UTF-16
    code units is turned into a string of '0'/'1' characters, a marker byte
    is appended, and the string is zero-padded to a length congruent to 448
    modulo 512. Strings are sequences of characters; the bit strings are
    ordinary strings that happen to hold only '0' and '1'. */
module Sha1 {
  import opened BinaryNumeral

  /** A UTF-16 code unit, as `String.prototype.charCodeAt` yields it. */
  type CodeUnit = c: nat | c < 0x1_0000

  /** The numeral of one code unit has 1 to 16 digits. */
  lemma CodeUnitNumeralLength(c: CodeUnit)
    ensures 1 <= |ToBinary(c)| <= 16
  {
    var r := ToBinary(c);
    if |r| > 16 {
      Pow2Monotone(16, |r| - 1);
      Pow2Values();
    }
  }

  // ---------------------------------------------------------------------
  // stringToBinary
  // ---------------------------------------------------------------------

  /** What `stringToBinary` returns: the numerals `charCodeAt(i).toString(2)`
      of the code units, concatenated in order, with no zero-fill. */
  function StringBits(str: seq<CodeUnit>): (bin: string)
    ensures IsBinary(bin)
    ensures |str| <= |bin| <= 16 * |str|
  {
    if str == [] then ""
    else
      var last := str[|str| - 1];
      CodeUnitNumeralLength(last);
      StringBits(str[..|str| - 1]) + ToBinary(last)
  }

  /** The loop of `stringToBinary`: one numeral appended per code unit. */
  method StringToBinary(str: seq<CodeUnit>) returns (bin: string)
    ensures bin == StringBits(str)
  {
    bin := "";
    for i := 0 to |str|
      invariant bin == StringBits(str[..i])
    {
      assert str[..i + 1][..i] == str[..i];
      bin := bin + ToBinary(str[i]);
    }
    assert str[..|str|] == str;
  }

  lemma StringBitsSnoc(s: seq<CodeUnit>, c: CodeUnit)
    ensures StringBits(s + [c]) == StringBits(s) + ToBinary(c)
  {
    assert (s + [c])[..|s|] == s;
  }

  /** The encoding of a concatenation is the concatenation of the encodings. */
  lemma {:induction false} StringBitsConcat(s: seq<CodeUnit>, t: seq<CodeUnit>)
    ensures StringBits(s + t) == StringBits(s) + StringBits(t)
    decreases |t|
  {
    if t == [] {
      assert s + t == s;
    } else {
      var init, last := t[..|t| - 1], t[|t| - 1];
      assert t == init + [last];
      assert s + t == (s + init) + [last];
      StringBitsSnoc(s + init, last);
      StringBitsSnoc(init, last);
      StringBitsConcat(s, init);
    }
  }

  /** Each code unit contributes exactly its own numeral, wherever it sits. */
  lemma StringBitsChunk(s: seq<CodeUnit>, c: CodeUnit, t: seq<CodeUnit>)
    ensures StringBits(s + [c] + t) == StringBits(s) + ToBinary(c) + StringBits(t)
  {
    StringBitsConcat(s + [c], t);
    StringBitsConcat(s, [c]);
    assert [c][..0] == [];
  }

  /** The empty message encodes to the empty string. */
  lemma StringBitsEmpty()
    ensures StringBits([]) == ""
  {
  }

  /** As written, the encoding is not injective: without zero-fill, the
      messages [1, 0] and [2] both encode to "10". */
  lemma StringBitsNotInjective()
    ensures StringBits([1, 0]) == StringBits([2]) == "10"
  {
  }

  /** The numeral of a code unit zero-filled to 16 digits, as
      `toString(2).padStart(16, '0')` would give it. */
  function CodeUnitBits(c: CodeUnit): (b: string)
    ensures |b| == 16 && IsBinary(b)
    ensures FromBinary(b) == c
  {
    CodeUnitNumeralLength(c);
    var r := ToBinary(c);
    FromToBinary(c);
    LeadingZeros(16 - |r|, r);
    Zeros(16 - |r|) + r
  }

  /** The encoding with every code unit zero-filled to 16 bits: the
      fixed-width encoding that makes the bit string determine the message. */
  function FixedWidthBits(str: seq<CodeUnit>): (bin: string)
    ensures IsBinary(bin)
    ensures |bin| == 16 * |str|
  {
    if str == [] then ""
    else FixedWidthBits(str[..|str| - 1]) + CodeUnitBits(str[|str| - 1])
  }

  /** Reads a fixed-width encoding back, 16 bits per code unit; a trailing
      group shorter than 16 bits is ignored. */
  function DecodeFixedWidth(bin: string): (str: seq<CodeUnit>)
    ensures |str| == |bin| / 16
  {
    if |bin| < 16 then []
    else
      var chunk := bin[|bin| - 16..];
      Pow2Values();
      DecodeFixedWidth(bin[..|bin| - 16]) + [FromBinary(chunk) as CodeUnit]
  }

  /** Decoding a string that ends in one more 16-bit group. */
  lemma DecodeStep(head: string, tail: string)
    requires |head| % 16 == 0 && |tail| == 16
    ensures FromBinary(tail) < 0x1_0000
    ensures DecodeFixedWidth(head + tail) == DecodeFixedWidth(head) + [FromBinary(tail) as CodeUnit]
  {
    var bin := head + tail;
    assert bin[..|bin| - 16] == head;
    assert bin[|bin| - 16..] == tail;
    Pow2Values();
  }

  /** Decoding undoes the fixed-width encoding. */
  lemma {:induction false} FixedWidthRoundTrip(str: seq<CodeUnit>)
    ensures DecodeFixedWidth(FixedWidthBits(str)) == str
  {
    if str != [] {
      var init, last := str[..|str| - 1], str[|str| - 1];
      assert str == init + [last];
      var head, tail := FixedWidthBits(init), CodeUnitBits(last);
      assert FixedWidthBits(str) == head + tail;
      DecodeStep(head, tail);
      assert FromBinary(tail) == last;
      FixedWidthRoundTrip(init);
      assert DecodeFixedWidth(head) == init;
    }
  }

  /** Different messages get different fixed-width encodings. */
  lemma FixedWidthInjective(s: seq<CodeUnit>, t: seq<CodeUnit>)
    requires FixedWidthBits(s) == FixedWidthBits(t)
    ensures s == t
  {
    FixedWidthRoundTrip(s);
    FixedWidthRoundTrip(t);
  }

  // ---------------------------------------------------------------------
  // addOne
  // ---------------------------------------------------------------------

  /** The byte 0x80 as `addOne` appends it: a 1 bit and seven 0 bits. */
  const OneMarker: string := "10000000"

  /** `addOne`: the input, then a '1', then seven '0's. */
  function AddOne(bin: string): (r: string)
    ensures |r| == |bin| + 8
    ensures r[..|bin|] == bin
    ensures r[|bin|] == '1' && r[|bin| + 1..] == Zeros(7)
    ensures IsBinary(r) <==> IsBinary(bin)
  {
    bin + OneMarker
  }

  /** Read as a number, `addOne` appends the byte 0x80. */
  lemma AddOneValue(bin: string)
    ensures FromBinary(AddOne(bin)) == FromBinary(bin) * 256 + 0x80
  {
    FromBinaryAppend(bin, OneMarker);
    Pow2Values();
    assert OneMarker == "1" + Zeros(7);
    FromBinaryAppend("1", Zeros(7));
    FromBinaryZeros(7);
  }

  // ---------------------------------------------------------------------
  // pad
  // ---------------------------------------------------------------------

  /** A length that leaves exactly 64 bits to the next multiple of 512. */
  predicate Congruent448(n: nat)
  {
    n % 512 == 448
  }

  /** The number of zeros `pad` appends to a string of length `len`. */
  function PadLength(len: nat): (k: nat)
    ensures 1 <= k <= 512
    ensures Congruent448(len + k)
    ensures forall n :: len < n < len + k ==> !Congruent448(n)
  {
    var m := len % 512;
    (if m < 448 then 448 else 448 + 512) - m
  }

  /** `pad`: the input followed by '0's up to the first length after it
      that is congruent to 448 modulo 512. */
  function Pad(bin: string): (r: string)
    ensures Congruent448(|r|)
    ensures 1 <= |r| - |bin| <= 512
    ensures forall n :: |bin| < n < |r| ==> !Congruent448(n)
    ensures r[..|bin|] == bin
    ensures forall i :: |bin| <= i < |r| ==> r[i] == '0'
    ensures IsBinary(r) <==> IsBinary(bin)
  {
    bin + Zeros(PadLength(|bin|))
  }

  /** The zero count by cases: 448 - m below 448, 960 - m from 448 on, and
      a full block of 512 zeros when the length is already congruent. */
  lemma PadCount(bin: string)
    ensures var m := |bin| % 512;
            |Pad(bin)| - |bin| == if m < 448 then 448 - m else 960 - m
    ensures Congruent448(|bin|) ==> |Pad(bin)| - |bin| == 512
  {
  }

  /** The fewest zeros, possibly none, that bring `len` to 448 modulo 512:
      the count section 5.1.1 of FIPS PUB 180-4 prescribes. */
  function MinimalZeroCount(len: nat): (k: nat)
    ensures k < 512 && Congruent448(len + k)
    ensures forall n :: len <= n < len + k ==> !Congruent448(n)
  {
    (448 - len % 512) % 512
  }

  /** `pad` appends the minimal count except where that count is zero, where
      it appends 512 zeros instead. */
  lemma PadVersusMinimal(len: nat)
    ensures PadLength(len) == if MinimalZeroCount(len) == 0 then 512 else MinimalZeroCount(len)
  {
  }

  /** `pad` is not idempotent: padding again appends another 512 zeros. */
  lemma PadTwice(bin: string)
    ensures Pad(Pad(bin)) == Pad(bin) + Zeros(512)
  {
  }

  /** Read as a number, `pad` shifts the input left by the zeros it adds. */
  lemma PadValue(bin: string)
    ensures FromBinary(Pad(bin)) == FromBinary(bin) * Pow2(|Pad(bin)| - |bin|)
  {
    var k := PadLength(|bin|);
    FromBinaryAppend(bin, Zeros(k));
    FromBinaryZeros(k);
  }

  /** `addOne` followed by `pad` gives the input, a '1' and a run of zeros
      that is the minimal count of FIPS PUB 180-4 section 5.1.1 when that
      count is at least 8, and 512 more otherwise, since the seven zeros of
      the marker byte are always appended and `pad` always adds one more. */
  lemma AddOneThenPad(bin: string)
    ensures var k := MinimalZeroCount(|bin| + 1);
            Pad(AddOne(bin)) == bin + "1" + Zeros(if k < 8 then k + 512 else k)
  {
  }
}
