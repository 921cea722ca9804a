# SHA-1 message preprocessing over bit strings

This project models `src/lib/sha1.ts`. That file holds the front half of SHA-1 message padding (section 5.1.1 of FIPS PUB 180-4). It works on JavaScript strings made of `'0'` and `'1'` characters:

- `stringToBinary` loops over the input's UTF-16 code units. For each one it appends `charCodeAt(i).toString(2)`, the binary numeral with no leading zeros.
- `addOne` appends `"10000000"`, the byte 0x80.
- `pad` appends `'0'` characters until the length is congruent to 448 modulo 512. When the length is already congruent, it appends a full 512 zeros.

Strings are `seq<char>` (`string`). An input message is a `seq<CodeUnit>`, where a code unit is a natural below 0x10000, as `charCodeAt` yields it.

Files:

- `binary_numeral.dfy`, module `BinaryNumeral`: JavaScript's `Number.prototype.toString(2)` as `ToBinary`, its inverse `FromBinary`, and `'0'.repeat(k)` as `Zeros`.
- `sha1.dfy`, module `Sha1`: the three exported functions, the loop of `stringToBinary` as a method, and the lemmas about them.

The model follows the code where it departs from FIPS PUB 180-4:

- There is no 8-bit zero-fill in `stringToBinary`.
- `pad` appends 512 zeros where the standard's count would be zero.
- No 64-bit length field is appended.

A complete SHA-1 goes on to append the 64-bit length, split the message into 512-bit blocks, expand the message schedule, run the compression rounds and assemble the digest. `sha1.ts` contains none of these, so they are not modelled.

## Model

| member | source | states |
|---|---|---|
| `BinaryNumeral.ToBinary` | src/lib/sha1.ts:4 | `n.toString(2)` is a non-empty binary string. It is `"0"` exactly when n is 0; otherwise it starts with `'1'`. Its length L is the bit length of n: n < 2^L always, and 2^(L-1) <= n for n > 0 |
| `BinaryNumeral.FromToBinary` | src/lib/sha1.ts:4 | Reading the numeral back gives n: `FromBinary(ToBinary(n)) == n` |
| `BinaryNumeral.ToFromBinary` | src/lib/sha1.ts:4 | Every numeral that is `"0"` or starts with `'1'` is the one `toString(2)` writes for its value, so `toString(2)` is a bijection onto such numerals |
| `Sha1.CodeUnitNumeralLength` | src/lib/sha1.ts:4 | The numeral of a code unit has 1 to 16 characters |
| `Sha1.StringBits` | src/lib/sha1.ts:1-7 | The result of `stringToBinary` holds only `'0'`/`'1'`, and its length lies between `len(str)` and `16 * len(str)` |
| `Sha1.StringToBinary` | src/lib/sha1.ts:1-7 | The loop that appends one numeral per code unit returns exactly `StringBits(str)`. Its invariant says `bin` is the encoding of the prefix processed so far |
| `Sha1.StringBitsEmpty` | src/lib/sha1.ts:2-6 | The empty string encodes to the empty string |
| `Sha1.StringBitsConcat` | src/lib/sha1.ts:3-5 | The encoding distributes over concatenation: `StringBits(s + t) == StringBits(s) + StringBits(t)` |
| `Sha1.StringBitsChunk` | src/lib/sha1.ts:3-5 | A code unit anywhere in the message contributes exactly its own numeral, between the encodings of what precedes and what follows it |
| `Sha1.StringBitsNotInjective` | src/lib/sha1.ts:4 | The messages [1, 0] and [2] both encode to `"10"` |
| `Sha1.FixedWidthBits` | src/lib/sha1.ts:1-7 | The corrected encoding, with each numeral zero-filled to 16 bits. It is binary and exactly `16 * len(str)` long |
| `Sha1.FixedWidthRoundTrip` | src/lib/sha1.ts:1-7 | Decoding the corrected encoding 16 bits at a time gives the message back |
| `Sha1.FixedWidthInjective` | src/lib/sha1.ts:1-7 | Different messages have different corrected encodings |
| `Sha1.AddOne` | src/lib/sha1.ts:9-12 | `addOne` adds exactly 8 characters and keeps its input as a prefix. The added characters are a `'1'` and then seven `'0'`s. The result is binary exactly when the input is |
| `Sha1.AddOneValue` | src/lib/sha1.ts:9-12 | Read as a number, `addOne` multiplies by 256 and adds 0x80: it appends the byte 0x80 |
| `Sha1.PadLength` | src/lib/sha1.ts:15-17 | The number of zeros to append lies in 1..512. It brings the length to 448 modulo 512, and no smaller positive count does |
| `Sha1.Pad` | src/lib/sha1.ts:14-21 | The result's length is congruent to 448 modulo 512, and it is the first such length strictly after the input's. The input is a prefix, 1 to 512 characters are added, and every added character is `'0'`. The result is binary exactly when the input is |
| `Sha1.PadCount` | src/lib/sha1.ts:16-17 | The closed form of the count that `Pad`'s contract characterises. With m = length mod 512, `pad` adds 448 - m zeros when m < 448 and 960 - m otherwise. It adds 512 when m = 448 |
| `Sha1.PadVersusMinimal` | src/lib/sha1.ts:17 | `pad` adds the smallest count, possibly zero, that section 5.1.1 of FIPS PUB 180-4 prescribes. When that count is zero, it adds 512 instead |
| `Sha1.PadTwice` | src/lib/sha1.ts:14-21 | `pad` is not idempotent: `pad(pad(b))` is `pad(b)` followed by exactly 512 more zeros |
| `Sha1.PadValue` | src/lib/sha1.ts:18-19 | Read as a number, `pad` shifts its input left by the number of zeros it adds |
| `Sha1.AddOneThenPad` | src/lib/sha1.ts:9-21 | `pad(addOne(b))` is `b`, then `'1'`, then a run of zeros. The run is the standard's minimal count k when k >= 8, and k + 512 when k < 8 |

## Findings

| source | as written | input that shows it | evidently intended | confidence | as-written member | corrected member |
|---|---|---|---|---|---|---|
| src/lib/sha1.ts:4 | Each code unit becomes `toString(2)` with no zero-fill, so the boundaries between code units are lost | `"\u0001\u0000"` (code units [1, 0]) and `"\u0002"` (code unit [2]) both encode to `"10"`, so after `addOne` and `pad` the two messages are indistinguishable | A fixed-width numeral per unit. FIPS PUB 180-4 hashes 8 bits per byte; 16 bits is the width that keeps every UTF-16 code unit | medium, not executed | `Sha1.StringBitsNotInjective` | `Sha1.FixedWidthRoundTrip` |

The method `Sha1.StringToBinary` and the function `Sha1.StringBits` model the code as written. `AddOne` and `Pad` take any Dafny string, so their lemmas hold for the output of both encodings.

## Left out

- src/lib/scroll.ts: DOM scrolling, event listeners and timer-based debouncing, unrelated to the hash preprocessing.
- Block splitting, the 80-word message schedule, compression rounds, the 64-bit length suffix and the hex digest: `sha1.ts` ends after zero-padding and contains none of them.
- Known SHA-1 test vectors: the code computes no digest, and its unpadded encoding would not reproduce the standard bitstream.
- UTF-16 surrogate pairs and text encodings: input is a sequence of code units 0..65535, as `charCodeAt` yields them.
- `AddOne`, `Pad`: the length of a Dafny string counts Unicode scalar values, not UTF-16 code units as JavaScript's `length` does. The two agree on strings made only of BMP characters, which include every binary string. A character outside the BMP counts once here and twice in JavaScript. A lone surrogate, valid in a JavaScript string, cannot be represented as a Dafny `char` at all.
- JavaScript's limit on string length: strings are unbounded sequences here.
- Update in place: `bin += …` on a local string is modelled as building a new sequence, which is what JavaScript strings do anyway.
