# Elias gamma coding, modelled in Dafny

This project models a small Elias gamma codec and proves its laws. The codec
writes a positive integer `x` as a unary length prefix followed by an offset:

- the length prefix is `L = floor(log2 x)` zeros closed by a `1`;
- the offset is the `L` low binary digits of `x`.

The codec has three operations:

- `gamma_encode_number` encodes one number. It rejects `x <= 0`.
- `gamma_encode_list` concatenates the codes of a list, with no delimiter.
- `gamma_decode` reads a stream of `'0'`/`'1'` characters back into a list of
  numbers. It fails on a stream cut off inside a length prefix or inside an
  offset.

The project has three modules.

- `Bits` (`bits.dfy`) defines binary digits. It has its own versions of the
  two Python builtins the codec uses: `Binary` (the digits that `bin(n)[2:]`
  gives) and `BitsToNat` (the value that `int(s, 2)` gives). It also proves
  the facts about powers of two and `floor(log2 n)` that the codec relies on.
- `Gamma` (`gamma.dfy`) holds the codec.
  - `EncodeNumber` and `EncodeList` are pure functions, as in the source.
  - The decoder is the imperative method `Decode`. It keeps the source's two
    nested `while` loops and its index `i`.
  - `Decode` is proved against the functional specification `Decoding`.
  - Its loop invariant: the stream consumed so far is exactly the encoding
    of the numbers decoded so far.
  - A failure carries no partial result. `Result` is `Success(value)` or
    `Failure(error)`. The error is one of `InvalidInput`, `PrefixCutoff` and
    `OffsetCutoff`, one for each `ValueError` the source raises.
- `GammaExamples` (`examples.dfy`) states, as lemmas, the worked examples of the module
  docstring and the list `[1, 3, 5, 10]` from the round-trip test.

The meaning of a gamma code does not depend on the encoder: `IsCodeOf(c, n)`
says that `c` has `floor(log2 n)` zeros, then a one, then an offset of the
same length whose value is `n - 2^floor(log2 n)`. The encoder is proved to
produce such a code, and such a code is proved to be unique.

The module docstring gives the code length as `2*log_2(x) + 1`. The code gives
`2*floor(log2 x) + 1`, and that is the length proved here.

## Model

| member | source | states |
|---|---|---|
| Bits.Log2Bounds | gamma.py:19 | `2^Log2(n) <= n < 2^(Log2(n)+1)`: Log2 is floor(log2 n), so n has Log2(n)+1 binary digits |
| Bits.Log2Unique | gamma.py:19 | it is the only exponent k with `2^k <= n < 2^(k+1)` |
| Bits.Pow2 | gamma.py:46 | 2^k, at least 1 for every k |
| Bits.Log2 | gamma.py:19 | floor(log2 n) for n >= 1, by halving; Log2Bounds and Log2Unique state what it means |
| Bits.Binary | gamma.py:75 | the binary digits of n >= 1 (`bin(n)[2:]`), never empty; BinaryDigits states their length, leading '1' and value |
| Bits.BitsToNat | gamma.py:122 | the value of a k-digit string (as `int(s, 2)` reads it) is below 2^k |
| Bits.BinaryDigits | gamma.py:75 | the digits of n (`bin(n)[2:]`) are floor(log2 n)+1 long, start with '1', and have value n |
| Bits.LeadingOne | gamma.py:121-122 | a '1' in front of L digits adds 2^L to their value: `int("1" + offset, 2) = 2^L + offset` |
| Bits.BitsToNatInjective | gamma.py:117-122 | two offsets of the same length with the same value are the same digits |
| Gamma.Zeros | gamma.py:84 | `"0" * k`: exactly k digits, all '0' |
| Gamma.IsCodeOf | gamma.py:12-23 | the gamma code of n, independent of the encoder: n >= 1 and, with L = floor(log2 n), L zeros, a '1', and an L-digit offset whose value is n - 2^L |
| Gamma.EncodeNumber | gamma.py:71-72 | encoding one number fails exactly when n <= 0, and then with InvalidInput |
| Gamma.EncodeNumberIsCode | gamma.py:75-86 | for n >= 1 the output is the gamma code of n (L zeros, a '1', the L low digits of n) and is 2*floor(log2 n)+1 digits long |
| Gamma.CodeOfUnique | gamma.py:12-23 | a number has only one gamma code |
| Gamma.CodeOfIsEncoding | gamma.py:12-23 | any string with the shape of the gamma code of n is what the encoder outputs for n |
| Gamma.CodeOfInjective | gamma.py:44-46 | a string is the gamma code of at most one number |
| Gamma.EncodeList | gamma.py:92 | a list encoding fails only with InvalidInput |
| Gamma.EncodeListSingleton | gamma.py:92 | a one-element list encodes as its element |
| Gamma.EncodeListCons | gamma.py:92 | encoding `[x] + nums` puts the code of x in front of the encoding of nums |
| Gamma.EncodeListSnoc | gamma.py:92 | encoding `nums + [x]` puts the code of x after the encoding of nums |
| Gamma.EncodeListFails | gamma.py:92 | all or nothing: a list encoding fails if and only if some element is <= 0 |
| Gamma.EncodeListAppend | gamma.py:92 | encoding `a + b` concatenates the encodings of a and b, and fails when either does |
| Gamma.LeadingZeros | gamma.py:103-106 | the inner loop's count: the first k digits are '0' and the next one, if any, is '1' |
| Gamma.ReadCode | gamma.py:103-122 | one outer-loop pass consumes 2L+1 digits for L leading zeros, yields a number >= 1, and those digits are exactly that number's code; otherwise it fails with one of the two cutoffs |
| Gamma.ReadCodeValue | gamma.py:117-122 | the number read is 2^L plus the value of the L offset digits after the marker |
| Gamma.ReadCodeFailures | gamma.py:104-115 | reading fails iff no prefix of the stream is a gamma code; PrefixCutoff iff the rest is all zeros; OffsetCutoff iff a '1' comes with fewer than L digits after it |
| Gamma.LeadingZerosUpTo | gamma.py:104-106 | the count of leading zeros is the position of the first '1' |
| Gamma.CodeStartsWithLength | gamma.py:44-46 | a code at the head of the stream starts with as many zeros as the stream and is 2L+1 digits long |
| Gamma.ReadCodeOfEncoding | gamma.py:58 | the decoder reads the code of n back as n, using exactly its digits, whatever follows |
| Gamma.PrefixFree | gamma.py:58 | the code of one number is never a prefix of the code of another |
| Gamma.Decoding | gamma.py:95-124 | a decoding fails only with a cutoff error, and on success every decoded number is >= 1 |
| Gamma.DecodeEncode | gamma_test.py:4-8 | round trip: for a list of positive numbers the encoding succeeds and decodes back to that list |
| Gamma.EncodeDecode | gamma.py:95-124 | a stream that decodes is exactly the encoding of the list it decodes to |
| Gamma.DecodesExactlyEncodings | gamma.py:95-124 | a stream decodes if and only if it is the encoding of some list |
| Gamma.DecodingFailsAtBoundary | gamma.py:108-115 | a failed decoding fails at a code boundary: the stream before it encodes the numbers read, and the code at it is cut off with the reported error |
| Gamma.DecodingAfterCode | gamma.py:101-122 | after a complete code of n, decoding yields n and then the decoding of the rest, or the rest's failure |
| Gamma.DecodingAfterPrefix | gamma.py:101-124 | after the encoding of a list, decoding yields that list and then the decoding of the rest, or the rest's failure |
| Gamma.PrefixCutoffAt | gamma.py:104-109 | a stream that is all zeros from position start fails to read with PrefixCutoff |
| Gamma.OffsetCutoffAt | gamma.py:111-115 | L zeros and a '1' with fewer than L digits after them fail to read with OffsetCutoff |
| Gamma.CodeAt | gamma.py:111-122 | L zeros, a '1' and L more digits read as `int("1" + offset, 2)`, using 2L+1 digits |
| Gamma.DecodeStep | gamma.py:111-122 | one outer iteration keeps the invariant that the consumed stream is the encoding of what has been decoded |
| Gamma.DecodeStop | gamma.py:108-115 | a cutoff at a code boundary fails the whole decoding with the same error |
| Gamma.Decode | gamma.py:95-124 | the loop decoder returns the functional decoding, and on success the stream is exactly the encoding of its output |
| GammaExamples.EncodeTen | gamma.py:27-32 | the code of 10 is 0001010 |
| GammaExamples.EncodeFive | gamma.py:35-40 | the code of 5 is 00101 |
| GammaExamples.EncodeOne | gamma.py:75-86 | the code of 1 is 1, with an empty offset |
| GammaExamples.EncodeThree | gamma_test.py:5 | the code of 3 is 011 |
| GammaExamples.EncodeNonPositive | gamma.py:71-72 | 0 and negative numbers fail with InvalidInput, alone or inside a list |
| GammaExamples.CodeLengths | gamma.py:61 | codes of 1, 3, 4, 7, 8, 1023 and 1024 are 2*floor(log2 n)+1 digits long |
| GammaExamples.DecodeFive | gamma.py:50-55 | 00101 decodes to [5] |
| GammaExamples.EncodeEmpty | gamma.py:92 | the empty list encodes to the empty stream |
| GammaExamples.DecodeEmpty | gamma.py:98-101 | the empty stream decodes to the empty list |
| GammaExamples.DecodePrefixCutoff | gamma.py:108-109 | 000 fails with PrefixCutoff |
| GammaExamples.DecodeOffsetCutoff | gamma.py:114-115 | 0010 fails with OffsetCutoff |
| GammaExamples.EncodeListExample | gamma_test.py:5-6 | [1, 3, 5, 10] encodes to 1011001010001010 |
| GammaExamples.RoundTripExample | gamma_test.py:5-8 | 1011001010001010 decodes back to [1, 3, 5, 10] |

## Left out

- Characters other than '0' and '1' are left out: streams and codes have type `seq<Bit>`. In the source's decoder such a character, in the place of the marker, ends the length prefix like a '1' and is skipped without being checked (`gamma_decode("2")` gives `[1]`). Only inside an offset does it reach `int(_, 2)`. That raises on most such characters (`gamma_decode("01a")`), but accepts whitespace around the digits and single underscores between them (`gamma_decode("01 ")` gives `[1]`, `gamma_decode("001_1")` gives `[3]`).
- Exception messages and raising are left out. Each `ValueError` becomes one `Error` value, and a failure carries no partial output, as a raised exception does.
- Python's `bin` and `int(_, 2)` are replaced by `Bits.Binary` and `Bits.BitsToNat`. Their relevant behaviour is proved in `Bits.BinaryDigits` and `Bits.LeadingOne`.
- `int(_, 2)` raising on an empty string is left out: the decoder always passes it a string that starts with '1'.
- Integers are unbounded, as in Python, so there is no fixed-width overflow to model.
- The lazy generator inside `"".join` is left out. It stops at the first non-positive number, and `Gamma.Concat`, which keeps the first failure in list order, stops at the same element, so the results agree.
- The pytest harness is left out. Its one test case is `GammaExamples.RoundTripExample`, with `Gamma.DecodeEncode` for every list.
