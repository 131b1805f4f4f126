# Extended UTF-8 character codec of bytebuffer.js, in Dafny

This project models the UTF-8 character codec in `src/encodings/utf8/native.js`
of bytebuffer.js and proves properties of it. The codec follows the original
six-byte form of UTF-8 from section 2 of RFC 2279, so it covers code points
0 .. 0x7FFFFFFF. It has four operations:

- `utf8_decode_char` reads one character at an offset of a byte buffer;
- `utf8_encode_char` writes one character at an offset;
- `utf8_calc_char` gives the byte length of one code point;
- `utf8_calc_string` sums those lengths over the code points of a UTF-16
  string, which it reads with `codePointAt` (the CodePointAt operation of
  section 11.1.4 of ECMA-262).

Layout:

- `bytes.dfy` (`Bytes`) holds bytes, the buffer the codec borrows, and `Splice`,
  the effect of writing a run of bytes.
- `utf8_format.dfy` (`Utf8Format`) holds the byte grammar shared by both
  directions: lead-byte classes, capacities, error kinds and `CalcChar`.
- `utf8_decode.dfy` (`Utf8Decode`) holds `Decode`, the reference definition,
  and `DecodeChar`, the method that follows the source branch by branch.
- `utf8_encode.dfy` (`Utf8Encode`) holds `Encoding`, the reference definition,
  and `EncodeChar`, the method that writes the buffer in place.
- `utf8_roundtrip.dfy` (`Utf8RoundTrip`) holds the lemmas that connect the two
  directions.
- `utf8_string.dfy` (`Utf16String`) holds `codePointAt` and `CalcString`, the
  loop of `utf8_calc_string`.
- `arith.dfy` (`Arith`) holds facts about multiplication and division.

The model works like this:

- Bit masks and shifts are written arithmetically. `(a & 0xE0) === 0xC0` is
  `a / 0x20 == 0x06`, `(cp >> 6) & 0x1F` is `cp / 0x40 % 0x20`, and `|` on
  disjoint bits is `+`.
- Thrown `RangeError`s become `Err` values of `CodecError`: `OutOfRange`,
  `InvalidLead` and `IllegalCodePoint`.
- The source text contains two buffer access paths, and a preprocessor picks
  one. The model uses the path that checks bounds before it reads
  continuation bytes, and reads through a single array.

Three behaviours of the code are easy to miss:

- The decoder reports an invalid lead byte at the offset *after* that byte,
  because the cursor has already moved past it (native.js:18, 113).
- It rejects continuation-shaped lead bytes 0x80..0xBF as well as 0xFE/0xFF
  (native.js:22-113).
- The string loop advances two units for every code point from 0xFFFF up,
  although only code points from 0x10000 up take two UTF-16 units
  (native.js:196). See "## Findings".

## Model

| member | source | states |
|---|---|---|
| Utf8Format.LeadLength | src/encodings/utf8/native.js:22-113 | the length a lead byte announces is the unique length class containing it; there is none exactly for 0x80..0xBF and 0xFE..0xFF |
| Utf8Format.CapacityValues | src/encodings/utf8/native.js:177-182 | the capacities of the six length classes are 0x80, 0x800, 0x10000, 0x200000, 0x4000000 and 0x80000000 |
| Utf8Format.CalcChar | src/encodings/utf8/native.js:174-184 | succeeds exactly for 0 <= cp < 0x80000000, otherwise fails with IllegalCodePoint(cp); the length lies in 1..6, the code point fits its class's capacity and does not fit the next shorter class |
| Utf8Format.CalcCharIsShortest | src/encodings/utf8/native.js:177-182 | any length whose capacity holds cp is at least the length utf8_calc_char returns |
| Utf8Format.CalcCharRanges | src/encodings/utf8/native.js:175-183 | utf8_calc_char returns n exactly on [Capacity(n-1), Capacity(n)), which is [0,0x80), [0x80,0x800), … [0x4000000,0x80000000) |
| Utf8Decode.Assemble | src/encodings/utf8/native.js:35-111 | defines the assembly of a code point: the lead payload followed by the low 6 bits (`& 0x3F`) of each continuation byte, most significant first |
| Utf8Decode.Decode | src/encodings/utf8/native.js:11-118 | fails with InvalidLead exactly when the lead byte is in 0x80..0xBF or 0xFE..0xFF; fails with OutOfRange exactly when the lead byte or the announced continuation bytes lie past the end; on success the length is the one the lead byte announces and fits the buffer |
| Utf8Decode.DecodeFlat2 | src/encodings/utf8/native.js:24-35 | a 110xxxxx lead with room decodes to ((a&0x1F)<<6)\|(b&0x3F) with length 2 |
| Utf8Decode.DecodeFlat3 | src/encodings/utf8/native.js:36-51 | a 1110xxxx lead with room decodes to the three-byte formula with length 3 |
| Utf8Decode.DecodeFlat4 | src/encodings/utf8/native.js:52-64 | a 11110xxx lead with room decodes to the four-byte formula with length 4 |
| Utf8Decode.DecodeFlat5 | src/encodings/utf8/native.js:65-86 | a 111110xx lead with room decodes to the five-byte formula with length 5 |
| Utf8Decode.DecodeFlat6 | src/encodings/utf8/native.js:87-111 | a 1111110x lead with room decodes to the six-byte formula with length 6 |
| Utf8Decode.LeadMasks | src/encodings/utf8/native.js:22-87 | each of the six mask tests on the lead byte holds exactly on its lead range |
| Utf8Decode.DecodeChar | src/encodings/utf8/native.js:11-118 | the branch-by-branch decoder, which only reads the buffer, returns exactly Decode of the buffer at the offset, including every error with its offset and byte count |
| Utf8Encode.Continuations | src/encodings/utf8/native.js:138-161 | k bytes, each of the form 10xxxxxx |
| Utf8Encode.Encoding | src/encodings/utf8/native.js:135-161 | the bytes of a legal code point: as many as utf8_calc_char says, a lead byte in that length's class, then continuation bytes only |
| Utf8Encode.EncodingFlat1 | src/encodings/utf8/native.js:135-136 | below 0x80 the encoding is the single byte cp&0x7F, and writing it stores that byte |
| Utf8Encode.EncodingFlat2 | src/encodings/utf8/native.js:137-139 | below 0x800 the encoding is the two bytes the source writes, in order |
| Utf8Encode.EncodingFlat3 | src/encodings/utf8/native.js:140-143 | below 0x10000 the encoding is the three bytes the source writes, in order |
| Utf8Encode.EncodingFlat4 | src/encodings/utf8/native.js:144-148 | below 0x200000 the encoding is the four bytes the source writes, in order |
| Utf8Encode.EncodingFlat5 | src/encodings/utf8/native.js:149-154 | below 0x4000000 the encoding is the five bytes the source writes, in order |
| Utf8Encode.EncodingFlat6 | src/encodings/utf8/native.js:155-161 | below 0x80000000 the encoding is the six bytes the source writes, in order |
| Utf8Encode.EncodeChar | src/encodings/utf8/native.js:131-165 | succeeds exactly for a legal code point and returns utf8_calc_char's length; the new buffer is the old one with Encoding(cp) written at the offset and nothing else changed; an illegal code point fails with IllegalCodePoint and leaves the buffer unchanged |
| Bytes.ToUint8 | src/encodings/utf8/native.js:136-161 | a value already in 0..255 is stored as it is |
| Bytes.ByteBuffer.SetUint8 | src/encodings/utf8/native.js:136-161 | a write changes the one position it names, storing the value modulo 256 |
| Bytes.Splice | src/encodings/utf8/native.js:131-165 | writing w at offset keeps the length, puts w in [offset, offset+\|w\|) and leaves every other position unchanged |
| Utf8RoundTrip.AssembleShift | src/encodings/utf8/native.js:35-111 | assembling 6-bit groups after an accumulator shifts the accumulator left by 6 bits per group |
| Utf8RoundTrip.AssembleBound | src/encodings/utf8/native.js:35-111 | k continuation groups contribute less than 64^k |
| Utf8RoundTrip.ContinuationsValue | src/encodings/utf8/native.js:138-161 | the continuation bytes the encoder writes carry exactly the low 6k bits of the code point |
| Utf8RoundTrip.ContinuationsOfValue | src/encodings/utf8/native.js:138-161 | bytes of the form 10xxxxxx are the encoder's continuation bytes for any value whose low 6k bits they carry |
| Utf8RoundTrip.EncodingParts | src/encodings/utf8/native.js:135-161 | the lead byte is the length pattern plus the code point's bits above the continuation groups |
| Utf8RoundTrip.DecodeEncoding | src/encodings/utf8/native.js:11-165 | decoding the bytes of an encoding alone gives (cp, utf8_calc_char(cp)) |
| Utf8RoundTrip.DecodeLocal | src/encodings/utf8/native.js:16-111 | decoding at an offset equals decoding the announced window on its own |
| Utf8RoundTrip.RoundTrip | src/encodings/utf8/native.js:11-165 | for every legal code point with room, decoding at the offset after encoding there gives (cp, utf8_calc_char(cp)), whatever the rest of the buffer holds |
| Utf8RoundTrip.DecodeRange | src/encodings/utf8/native.js:22-111 | a decoded code point is non-negative and strictly below the capacity of its length class, and that capacity is at most 0x80000000 (two bytes give at most 0x7FF) |
| Utf8RoundTrip.DecodeWindow | src/encodings/utf8/native.js:16-111 | a successful decode depends only on the bytes of the sequence it read |
| Utf8RoundTrip.CanonicalDecode | src/encodings/utf8/native.js:22-161 | a decoded sequence whose continuation bytes are 10xxxxxx and whose length is the shortest for its value is exactly the encoder's output for that value |
| Utf8RoundTrip.OverlongAccepted | src/encodings/utf8/native.js:24-35 | the overlong form C0 80 decodes to U+0000 with length 2 |
| Utf8RoundTrip.ContinuationNotChecked | src/encodings/utf8/native.js:33-35 | C3 41 decodes to 0xC1 with length 2, since the second byte's form is never checked |
| Utf8RoundTrip.InvalidLeads | src/encodings/utf8/native.js:112-113 | lead 0xFE, and a continuation-shaped lead 0x80, fail with InvalidLead one position after the lead, naming the byte |
| Utf8RoundTrip.TruncatedSequence | src/encodings/utf8/native.js:16-39 | E0 80 fails with OutOfRange(1, 2), and an empty buffer with OutOfRange(0, 1) |
| Utf16String.CodePointAt | src/encodings/utf8/native.js:195 | the code point is below 0x110000; it is a supplementary code point exactly when a lead surrogate is followed by a trail surrogate, and otherwise it is the unit itself |
| Utf16String.Step | src/encodings/utf8/native.js:196 | defines the index step: one unit below the threshold, two units from it up |
| Utf16String.Scan | src/encodings/utf8/native.js:194-196 | every visited code point is below 0x110000, and the loop visits at most as many code points as there are units left |
| Utf16String.Visited | src/encodings/utf8/native.js:194-196 | defines the code points the loop visits from index 0 with the source's threshold 0xFFFF |
| Utf16String.IntendedVisited | src/encodings/utf8/native.js:196 | defines the corrected visit with the threshold 0x10000, where two units are taken exactly when codePointAt read a surrogate pair |
| Utf16String.EncodedLength | src/encodings/utf8/native.js:195 | the summed utf8_calc_char of n code points lies between n and 6n |
| Utf16String.EncodedLengthIsSize | src/encodings/utf8/native.js:192-199 | the summed length is exactly the size of the concatenated encodings |
| Utf16String.CalcString | src/encodings/utf8/native.js:192-199 | the loop returns the summed utf8_calc_char of the code points it visits, advancing one unit below 0xFFFF and two units otherwise |
| Utf16String.CodePointAtShift | src/encodings/utf8/native.js:195 | codePointAt at an index depends only on the units from that index on |
| Utf16String.ScanShift | src/encodings/utf8/native.js:194-196 | the code points visited after a prefix are those of the rest of the string |
| Utf16String.Utf16Char | src/encodings/utf8/native.js:196 | a scalar value takes one unit below 0x10000 and two units from 0x10000 up |
| Utf16String.CodePointAtUtf16Char | src/encodings/utf8/native.js:195 | codePointAt reads a scalar value back from the start of its UTF-16 form |
| Utf16String.ScanUtf16 | src/encodings/utf8/native.js:194-196 | with any step threshold that agrees with 0x10000 on the given scalar values, the loop visits exactly those values |
| Utf16String.VisitedUtf16 | src/encodings/utf8/native.js:194-196 | as written, the loop visits exactly the scalar values of a string that has no U+FFFF |
| Utf16String.ScanAgree | src/encodings/utf8/native.js:194-196 | on any string without a U+FFFF unit, unpaired surrogates included, the thresholds 0xFFFF and 0x10000 visit the same code points |
| Utf16String.CalcStringIsEncodedSize | src/encodings/utf8/native.js:192-199 | for such a string, utf8_calc_string is the size of the encoder's output for its code points |
| Utf16String.AsciiLength | src/encodings/utf8/native.js:192-199 | an all-ASCII string needs as many bytes as it has units |
| Utf16String.CalcStringExamples | src/encodings/utf8/native.js:192-199 | "AB" needs 2 bytes; the surrogate pair D83D DE00 is visited as U+1F600 and needs 4 |
| Utf16String.FfffSkipsNextUnit | src/encodings/utf8/native.js:196 | for U+FFFF followed by "A" the loop visits U+FFFF alone and counts 3 bytes; with the threshold 0x10000 it visits both and counts 4 |
| Utf16String.IntendedVisitedUtf16 | src/encodings/utf8/native.js:196 | with the threshold 0x10000 the loop visits exactly the scalar values of every UTF-16 string, U+FFFF included |
| Utf16String.IntendedLengthIsEncodedSize | src/encodings/utf8/native.js:192-199 | with the threshold 0x10000 the summed length is the size of the encoder's output for every string of scalar values, U+FFFF included |

## Left out

- The buffer container of bytebuffer.js is not part of this model. That covers allocation, growth, its own offsets, and the `view`/`buffer`, NODE and INLINE variants. The codec sees one array of bytes.
- `src/methods/order.js` is not part of this model. It only sets the byte-order flag, which has no effect on UTF-8.
- Offsets are `nat`, so negative offsets are not modelled.
- Code points are mathematical integers. JavaScript number semantics are not modelled: non-integer or NaN values, and signed 32-bit shifts of numbers outside the int32 range.
- Error messages are not modelled. Errors are the `CodecError` values, and the formatted hexadecimal text is left out.
- Utf8Encode.EncodeChar: a legal code point requires room for all of its bytes. The source would write some bytes and then throw when `setUint8` runs past the end, and that partial write is not modelled.
- Utf8Decode.DecodeChar: the browser path has no explicit bounds check, and its `getUint8` throws on its own at the first byte past the end. The model uses the bounds-checked path, whose errors name the offset and the bytes still needed.
- Utf16String.CodePointAt: a code unit is a value 0..0xFFFF. JavaScript strings and `codePointAt` past the end, which returns `undefined`, are not modelled, because the loop never reads past the end.
- Idempotence of the calls (no hidden state) is not stated as a lemma. Every operation is a function or a method over its parameters; the encoder changes only the buffer, and the decoder changes nothing.

## Findings

| source | as written | input that shows it | evidently intended | confidence | as-written member | corrected member |
|---|---|---|---|---|---|---|
| src/encodings/utf8/native.js:196 | the loop advances two UTF-16 units for every code point not below 0xFFFF, so a U+FFFF unit also skips the unit after it | the units FFFF 0041: the loop visits only U+FFFF and returns 3 instead of 4 | advance two units only for a supplementary code point (0x10000 and above), which is when codePointAt read a surrogate pair | high; not executed | Utf16String.FfffSkipsNextUnit | Utf16String.IntendedVisitedUtf16 |

`Utf16String.CalcString` keeps the source's threshold 0xFFFF, so it models the
code as written. `Utf16String.IntendedVisited` uses the intended threshold
0x10000. `Utf16String.ScanAgree` shows that the two agree on every string
without a U+FFFF unit, well-formed or not, and
`Utf16String.IntendedLengthIsEncodedSize` shows that the corrected sum is the
size of the encoder's output for every string of scalar values.
