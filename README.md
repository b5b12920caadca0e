# Steganographer: the LSB codec in Dafny

This project models the least-significant-bit (LSB) codec of `Steganographer.java`.
The codec hides a text message in the flat byte buffer of an image's colour samples.
A carrier byte holds one bit of the message, in its least-significant bit.
The other seven bits of that byte stay as they were.

The model follows the Java code:

- `encode` (lines 55-58) writes a four-byte length header at bit-slot 0 and then the message bytes at bit-slot 32. Each byte goes most significant bit first.
- Both writes go through `encodeImage` (lines 77-89). It mutates the carrier array in place.
- The header comes from `getBytesFromInt` (lines 196-198). These are the big-endian bytes of the message length as a Java `int`.
- `decodeImage` (lines 112-128) accumulates the header back into an `int`, allocates a fresh array of that many bytes, and fills it from the carrier's least significant bits.
- `encode` derives the output file name at lines 65-71.

Files:

- `bit_packing.dfy` (module `BitPacking`) holds the bit-level operations. They are: reading and replacing a least significant bit, taking a bit of a byte, and the shift-and-or accumulations. The accumulations work in an 8-bit byte and in a Java `int`, with the `int`'s 32-bit wrap-around written out.
- `steganographer.dfy` (module `Steganographer`) holds the codec. It has a specification function on sequences for each operation: `EncodeImageSpec`, `EncodeSpec` and `Decode`, and for the corrected guard `EncodeImageCheckedSpec` and `EncodeCheckedSpec`. It also has methods over arrays (`EncodeImage`, `Encode`, `DecodeImage`, `EncodeImageChecked`, `EncodeChecked`) with the source's loops, proved against those functions. The lemmas relate encoding and decoding.
- `file_names.dfy` (module `FileNames`) holds the output file name.

Bytes are `bv8`, because the Java `(byte)` casts keep exactly the low eight bits.
A Java `int` is `Int32`, the integers from -2^31 to 2^31 - 1.
An exception is a `Failure` with the kind of the exception.
A write into the carrier that stops part way is an `Encoding` with the carrier as it was left and a `Failed` status.

On these points the model follows the code exactly:

- The header is read as a signed Java `int`. A header with its top bit set makes `new byte[length]` throw NegativeArraySizeException (`Decode` returns `Failure(NegativeArraySize)`).
- `decodeImage` reads without a bounds check. A length that runs past the carrier ends in ArrayIndexOutOfBoundsException (`Failure(IndexOutOfBounds)`). The catch in `decode` turns both into an empty result.
- The capacity guard of `encodeImage` counts payload bytes against carrier bytes (see Findings). `encode` calls `encodeImage` as written, so a carrier of 4 to 31 bytes gets every least significant bit overwritten before the index error, and a payload that does not fit after the header may be partly written.
- The guard adds `addition.length + offset` as a Java `int`, so the sum wraps around for a payload of 2^31 - 32 bytes or more at offset 32 (see Findings).
- The output file always gets the extension `png`, whatever the input's extension was.

The corrected guard is modelled beside the code as written: `EncodeImageChecked` and `EncodeChecked`, with the specifications `EncodeImageCheckedSpec` and `EncodeCheckedSpec`.

## Model

| member | source | states |
|---|---|---|
| BitPacking.Lsb | Steganographer.java:117 | `image[i] & 0x1`, the bit that lines 117 and 124 read from a carrier byte, is a single bit, 0 or 1 |
| BitPacking.BitOf | Steganographer.java:84 | `(additionByte >>> bit) & 1` is a single bit, 0 or 1 |
| BitPacking.SetLsb | Steganographer.java:85 | the written byte keeps the upper seven bits of the old one, and its least significant bit is the payload bit |
| BitPacking.SameByte | Steganographer.java:85 | a byte is determined by its upper seven bits and its least significant bit, so rewriting an equal bit changes nothing |
| BitPacking.Fold8 | Steganographer.java:122-125 | no contract of its own: the byte accumulation of lines 122-125, starting from 0; `Fold8Spells` and `Fold8Value` state what it computes |
| BitPacking.Fold8Spells | Steganographer.java:122-125 | eight bits accumulated into a byte give `x` exactly when they are the bits of `x`, most significant first (both directions) |
| BitPacking.Fold8OfBits | Steganographer.java:122-125 | bits spelling `x` accumulate to `x` |
| BitPacking.Fold8Bits | Steganographer.java:122-125 | each of the eight bits read is the matching bit of the accumulated byte |
| BitPacking.Signed | Steganographer.java:117 | the `int` read from a 32-bit pattern agrees with it modulo 2^32, and is negative exactly when the top bit is set |
| BitPacking.ShiftIn | Steganographer.java:117 | the shift-and-or step of the header loop on a Java `int`: the new bit is the low bit, the result is `2·length + bit` modulo 2^32, and exactly `2·length + bit` while no bit is shifted into or past the sign bit |
| BitPacking.AddInt32 | Steganographer.java:78 | Java `int` addition: the exact sum when it is in the `int` range, and otherwise the sum minus or plus 2^32 |
| BitPacking.FoldInt32 | Steganographer.java:113-118 | the header accumulation from `length = 0`; its low bit is the last bit read, and `FoldInt32Wraps` states its value |
| BitPacking.FoldInt32Wraps | Steganographer.java:116-118 | the `int` accumulator, shifted left and or-ed with each bit, holds the low 32 bits of the binary number read so far, as two's complement |
| BitPacking.Accumulate8Step | Steganographer.java:116-118 | reading eight more bits multiplies the number read so far by 256 and adds the byte those bits make |
| BitPacking.Accumulate32 | Steganographer.java:116-118 | the 32 header bits, read as a number, are the four bytes they spell in big-endian order |
| BitPacking.Fold8Value | Steganographer.java:124 | up to eight bits fit the byte accumulator without loss, and it then holds their number |
| BitPacking.Fold8SameLsbs | Steganographer.java:124 | the byte accumulation reads only least significant bits |
| BitPacking.FoldInt32SameLsbs | Steganographer.java:117 | the `int` accumulation reads only least significant bits |
| Steganographer.BytesValueOfBytes | Steganographer.java:197 | the four base-256 digits of a 32-bit value put back together give that value |
| Steganographer.BytesOfBytesValue | Steganographer.java:197 | the digits of the value of four bytes are those bytes |
| Steganographer.GetBytesFromInt | Steganographer.java:196-198 | the four bytes are the big-endian two's-complement pattern of `n`, so read back as a Java `int` they give `n` |
| Steganographer.GetBytesFromIntOfValue | Steganographer.java:196-198 | every four bytes are the `getBytesFromInt` of the `int` they spell |
| Steganographer.GetBytesFromIntExamples | Steganographer.java:197 | 1, 0x12345678 and -1 give their big-endian two's-complement bytes |
| Steganographer.PayloadBit | Steganographer.java:82-84 | the bit that the loops write into bit-slot `j` is a single bit, 0 or 1; `PayloadBitAt` states which bit of which byte it is |
| Steganographer.PayloadBitAt | Steganographer.java:81-86 | bit-slot `8i + (7 - k)` of a write receives bit `k` of byte `i` |
| Steganographer.Embed | Steganographer.java:81-86 | the carrier after the first `n` bit-slots of the loops have been written keeps its length; `EmbedEffect` states what it holds |
| Steganographer.EmbedAt | Steganographer.java:85 | byte `k` after the write keeps its upper seven bits, and if its bit-slot was written its least significant bit is that slot's payload bit |
| Steganographer.EmbedEffect | Steganographer.java:81-87 | after `n` bit-slots every byte keeps its upper seven bits, bytes outside those slots are unchanged, written bytes hold the payload's bits, and a complete write carries the payload |
| Steganographer.EmbedCarried | Steganographer.java:81-87 | writing bits the carrier already carries leaves the carrier unchanged |
| Steganographer.EncodeImageSpec | Steganographer.java:77-89 | the guard throws exactly when the `int` sum `addition.length + offset`, wrapped around 2^32, is greater than `image.length`, and so exactly when the true sum is greater while it stays below 2^31; an offset past the end passes a wrapped guard and fails on the first write; the call completes exactly when `offset + 8·addition.length <= image.length`; every other call ends in an index error |
| Steganographer.EncodeImageEffect | Steganographer.java:78-87 | a rejected call changes nothing; a completed one carries the payload; one that runs off the end has written the payload's leading bits into every byte from `offset` on; upper bits and bytes outside the payload's bit-slots are always kept |
| Steganographer.EncodeImage | Steganographer.java:77-89 | the loops leave the array as `EncodeImageSpec` says and end the same way, and a successful call returns the array it was given |
| Steganographer.EncodeImageCheckedSpec | Steganographer.java:78-79 | with the bit-count guard, a call completes exactly when the bits fit, is rejected untouched otherwise, and agrees with `encodeImage` as written whenever it completes |
| Steganographer.EncodeImageChecked | Steganographer.java:77-89 | the corrected method leaves the array as `EncodeImageCheckedSpec` says |
| Steganographer.EncodeSpec | Steganographer.java:55-58 | the encoding completes exactly when `32 + 8·length <= carrier length`; it fails with the guard's capacity error exactly when the carrier is shorter than 4 bytes or, with the header written, shorter than `32 + length` while `32 + length` does not overflow an `int`; every other failure is an index error |
| Steganographer.EncodeEffect | Steganographer.java:55-58 | a completed encoding carries the header `getBytesFromInt(length)` at bit-slot 0 and the payload at bit-slot 32; upper bits and the bytes after the payload are always kept |
| Steganographer.EncodeFailureEffect | Steganographer.java:55-56 | a carrier under 4 bytes is untouched; one of 4 to 31 bytes has the header's leading bits in every least significant bit |
| Steganographer.EncodePayloadFailureEffect | Steganographer.java:55-58 | a carrier of at least 32 bytes carries the header; when it is shorter than `32 + length` and that sum does not overflow, every byte from 32 on is untouched; when the encoding ends in an index error, the bytes from 32 on hold the payload's leading bits |
| Steganographer.Encode | Steganographer.java:55-58 | the two `encodeImage` calls leave the array as `EncodeSpec` says, end the same way, and return the array on success |
| Steganographer.EncodeCheckedSpec | Steganographer.java:55-58 | with the corrected guard in both calls, the encoding completes exactly when `32 + 8·length <= carrier length`, and otherwise fails with a capacity error |
| Steganographer.EncodeCheckedEffect | Steganographer.java:55-58 | the corrected encoding carries header and payload when it completes, keeps upper bits and the bytes after the payload, and leaves a carrier too short for the header untouched |
| Steganographer.EncodeChecked | Steganographer.java:55-58 | the two `EncodeImageChecked` calls leave the array as `EncodeCheckedSpec` says and return it on success |
| Steganographer.HeaderLength | Steganographer.java:113-118 | no contract of its own: the value of `length` after the header loop; `HeaderLengthOfBytes` and `FoldInt32Wraps` state what it is |
| Steganographer.HeaderLengthOfBytes | Steganographer.java:116-118 | the header accumulated by `decodeImage` is the signed value of the four bytes the carrier spells |
| Steganographer.Decode | Steganographer.java:112-128 | on success the bytes fit the carrier and their number is the header; the result is a NegativeArraySizeException exactly when the header is negative; no other exception than that and an index error occurs |
| Steganographer.DecodeImage | Steganographer.java:112-128 | the loops return exactly what `Decode` says, including the exception |
| Steganographer.CarriesBitOrder | Steganographer.java:82-85 | bit order is most significant first: the least significant bit of carrier byte `offset + 8i + (7 - k)` is bit `k` of byte `i` |
| Steganographer.CarriedBytes | Steganographer.java:122-125 | a carried payload is read back byte by byte by the byte accumulation |
| Steganographer.BytesCarried | Steganographer.java:122-125 | bytes that the accumulation reads back are carried |
| Steganographer.CarriedHeader | Steganographer.java:116-118 | a carrier that carries `getBytesFromInt(n)` at bit-slot 0 makes `decodeImage` read the length `n` |
| Steganographer.DecodeCharacterized | Steganographer.java:112-128 | `decodeImage` returns `payload` exactly when the carrier carries `getBytesFromInt(payload.length)` at bit-slot 0 and `payload` at bit-slot 32 |
| Steganographer.DecodedIsCarried | Steganographer.java:112-128 | a decoded payload is carried, with its length header |
| Steganographer.DecodedHeaderCarried | Steganographer.java:116-118 | the header of a carrier that decodes is `getBytesFromInt` of the decoded length |
| Steganographer.HeaderCarried | Steganographer.java:113-118 | every carrier of at least 32 bytes carries, at bit-slot 0, the `getBytesFromInt` of the length `decodeImage` reads from it |
| Steganographer.CarriedIsDecoded | Steganographer.java:112-128 | a carried payload with its length header is decoded |
| Steganographer.DecodeOfParts | Steganographer.java:120-127 | `decodeImage` succeeds with the bytes it reads when the header holds their number and they fit |
| Steganographer.RoundTrip | Steganographer.java:55-58 | when `32 + 8·length <= carrier length`, encoding completes and decoding its carrier gives the payload back, for every carrier and every payload, the empty one included; the corrected encoding gives the same carrier |
| Steganographer.EncodeDecoded | Steganographer.java:55-58 | encoding a carrier's own decoded message into it succeeds and changes nothing |
| Steganographer.DecodeReadsOnlyLsbs | Steganographer.java:116-125 | carriers with the same least significant bits decode alike |
| Steganographer.GuardTooWeak | Steganographer.java:78-79 | a 10-byte carrier and a 4-byte addition at offset 0 pass the guard, get all ten bytes rewritten, and end in an index error |
| Steganographer.GuardOverflows | Steganographer.java:78-79 | a 100-byte carrier and a payload of 2^31 - 32 bytes at offset 32 make the guard's sum -2^31, pass the guard, get bytes 32 to 99 rewritten, and end in an index error |
| Steganographer.EncodeCheckedAgrees | Steganographer.java:55-63 | the encoding as written fails exactly when the corrected one fails, and on success leaves the same carrier |
| FileNames.LastIndexOf | Steganographer.java:66 | the result is the index of the last `.`, or -1 when there is none |
| FileNames.LastIndexOfIs | Steganographer.java:66 | a position that holds the character, with none of it after, is the last index |
| FileNames.OutputFileName | Steganographer.java:65-71 | the name ends with `_with_hidden_message.png`; before that comes the whole path when no `.` follows its first character, and otherwise the path cut just before its last `.` |
| FileNames.OutputFileNameLastDot | Steganographer.java:65-71 | only the last `.` is cut off: `archive.tar.gz` gives `archive.tar_with_hidden_message.png` |
| FileNames.OutputFileNameLeadingDot | Steganographer.java:67 | a `.` at position 0 is kept: `.profile` gives `.profile_with_hidden_message.png` |
| FileNames.OutputFileNameDirectoryDot | Steganographer.java:65-71 | a `.` in a directory name counts as well: `../cat` gives `._with_hidden_message.png` |

## Left out

- Reading and writing images (`ImageIO`, `BufferedImage`, `Graphics2D`, the raster's `DataBufferByte`). These are library calls. The carrier is a given byte array.
- Reading the text file and writing `hidden_text.txt`. This is file I/O.
- The conversions between `String` and bytes (`getBytes`, `new String`). They depend on the platform's default charset, so the payload is opaque bytes.
- `main`, its argument dispatch and help text, and every `println`. Exceptions are modelled by their kind, not their message.
- The `catch` blocks of `encode` and `decode` appear only through the outcomes (`Failure`) they catch. Saving the image after a successful encoding is I/O.
- OutOfMemoryError from `new byte[length]` with a large, positive header is not modelled. A carrier that is too short for that length fails with the index error instead.
- Steganographer.EncodeImage: `offset` is a `nat`, so a negative `int` offset is not modelled. The two calls in `encode` pass only 0 and 32.
- Steganographer.EncodeImageSpec: requires `addition.length` and `offset` below 2^31, because both are Java `int`s. The wrap-around of their sum is modelled.
- Steganographer.EncodeSpec: the payload length is at most 2^31 - 1, since a Java array length is an `int`.
- Steganographer.EncodeImage: `addition` is a sequence rather than an array, so aliasing of the addition array with the carrier is not modelled. `encode` never passes aliased arrays.

## Findings

| source | as written | input that shows it | evidently intended | confidence | as-written member | corrected member |
|---|---|---|---|---|---|---|
| Steganographer.java:78-79 | the guard `addition.length + offset > image.length` counts payload bytes against carrier bytes, but the loop at lines 81-86 writes 8 carrier bytes per payload byte | a 10-byte image, a 4-byte addition, offset 0: the guard passes, all ten image bytes are rewritten, then an ArrayIndexOutOfBoundsException is thrown | reject, before any write, every call with `offset + 8·addition.length > image.length` (the message says the image is not long enough) | not executed; the guard and the loop bounds fix the behaviour | Steganographer.GuardTooWeak | Steganographer.EncodeImageCheckedSpec |
| Steganographer.java:78 | `addition.length + offset` is `int` addition, which wraps around to a negative number once the sum reaches 2^31 | a 100-byte image, a payload of 0x7FFF_FFE0 bytes, offset 32 (the payload call of `encode`): the sum is -2^31, the guard passes, bytes 32 to 99 are rewritten, then an ArrayIndexOutOfBoundsException is thrown | compare the sum without overflow, and reject the call before any write | not executed; Java `int` arithmetic fixes the behaviour | Steganographer.GuardOverflows | Steganographer.EncodeImageCheckedSpec |

`encode` catches every exception and does not save the image after a failure. So through `encode` the weak guard only changes the kind of exception: `Steganographer.EncodeCheckedAgrees` proves that the as-written and corrected encodings succeed in the same cases and leave the same carrier. A caller that reuses the array after a failed `encodeImage` would still see a partially overwritten carrier.
