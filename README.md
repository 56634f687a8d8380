# ArrayBufferStream and joinArrayBuffers in Dafny

This project models two parts of a small TypeScript binary-reading library and proves properties about them.

- **`ArrayBufferStream`** is a forward-only cursor over a byte buffer. It reads:
  - raw byte ranges;
  - little-endian unsigned integers of 8, 16, 32 and 64 bits;
  - an unsigned LEB128 varint (section 7.6 of DWARF version 5; section 5.2.2 of the WebAssembly Core Specification);
  - ASCII and UTF-16LE text.

  Every read moves the cursor `offset`, and nothing writes the buffer.
- **`joinArrayBuffers`** concatenates a list of buffers into a fresh one. It first sums their lengths, then copies each one in at a running offset.

## Files and modules

- `bytes.dfy`, module `Bytes`:
  - the `byte` type;
  - `Pow`;
  - `LittleEndian`, the value Σ b[i]·256^i that a DataView `getUint*(0, true)` reads.
- `leb128.dfy`, module `Leb128`:
  - JavaScript's 32-bit `|` and `<<` written out on naturals below 2^32 (`Or`, `ShiftLeft`, `Int32`);
  - the reader's accumulator as a fold over the consumed bytes (`Bits`);
  - the mathematical LEB128 value (`Value`);
  - the lemmas that connect `Bits` and `Value`.
- `array_buffer_stream.dfy`, module `ArrayBufferStreams`: the class `ArrayBufferStream`, with fields `buffer: seq<byte>` and `offset: nat` and one method per reader.
  - A reader that the source lets throw returns `Result.RangeError`. This is the exception the `DataView` constructor raises when its window does not fit.
- `join_array_buffers.dfy`, module `JoinArrayBuffers`: the method `JoinArrayBuffers`, which fills a fresh `array<byte>`. `Set` models `Uint8Array.prototype.set`.
  - The method is proved against three ghost functions: `Concat` (in-order concatenation), `TotalLength` (the length `reduce`) and `Offset` (the running offset before buffer i).

## Model

| member | source | states |
|---|---|---|
| ArrayBufferStreams.ArrayBufferStream.constructor | src/array-buffer-stream.ts:5-13 | the stream holds the given buffer and its cursor starts at 0 |
| ArrayBufferStreams.ArrayBufferStream.Eof | src/array-buffer-stream.ts:18-20 | end of stream holds exactly when no bytes remain after the cursor; it reads state and changes nothing |
| ArrayBufferStreams.Slice | src/array-buffer-stream.ts:27 | `slice(begin, end)` for non-negative arguments: the bytes from begin, cut to at most end - begin, and empty when end <= begin |
| ArrayBufferStreams.ArrayBufferStream.ReadBytes | src/array-buffer-stream.ts:26-30 | never fails; returns the next min(k, remaining) bytes of the buffer; the cursor moves by k even past the end, after which Eof holds |
| ArrayBufferStreams.ArrayBufferStream.ReadUint8 | src/array-buffer-stream.ts:32-36 | with a byte left: that byte, and the cursor moves by 1; otherwise RangeError and the cursor stays; the buffer never changes |
| ArrayBufferStreams.ArrayBufferStream.ReadUint16LE | src/array-buffer-stream.ts:38-42 | with 2 bytes left: their little-endian value (< 2^16), and the cursor moves by 2; otherwise RangeError and the cursor stays |
| ArrayBufferStreams.ArrayBufferStream.ReadUint32LE | src/array-buffer-stream.ts:44-48 | with 4 bytes left: their little-endian value (< 2^32), and the cursor moves by 4; otherwise RangeError and the cursor stays |
| ArrayBufferStreams.ArrayBufferStream.ReadUint64LE | src/array-buffer-stream.ts:50-54 | with 8 bytes left: their little-endian value (< 2^64, a BigInt), and the cursor moves by 8; otherwise RangeError and the cursor stays |
| ArrayBufferStreams.ArrayBufferStream.ReadLEB128 | src/array-buffer-stream.ts:56-68 | consumes exactly the bytes up to and including the first one with bit 0x80 clear; returns the int32 reading of the ORed chunks; with no such byte it fails after consuming every remaining byte |
| ArrayBufferStreams.ArrayBufferStream.ReadAsciiString | src/array-buffer-stream.ts:74-79 | with byteLength bytes left: the decoder applied to exactly that window, and the cursor moves by byteLength; otherwise RangeError and the cursor stays |
| ArrayBufferStreams.ArrayBufferStream.ReadUTF16LEString | src/array-buffer-stream.ts:85-90 | the same window and cursor rule as the ASCII reader: the cursor moves by bytes, not characters |
| Bytes.LittleEndian | src/array-buffer-stream.ts:38-54 | `getUint16`, `getUint32` and `getBigUint64` with littleEndian set: n bytes, least significant first, give a value below 256^n |
| Bytes.LittleEndianFour | src/array-buffer-stream.ts:44-48 | the little-endian value of 4 bytes is b0 + 2^8·b1 + 2^16·b2 + 2^24·b3 |
| Bytes.LittleEndianAppend | src/array-buffer-stream.ts:50-54 | the bytes of a second window weigh 256^(length of the first) more, so the 64-bit value is low + 2^32·high |
| Leb128.Or | src/array-buffer-stream.ts:62 | `|` keeps every bit of either operand and adds none: the result is at least each operand and at most their sum |
| Leb128.Payload | src/array-buffer-stream.ts:62 | `byte & 0x7f` is below 0x80, and the byte is its payload plus 0x80 when bit 7 is set |
| Leb128.Continues | src/array-buffer-stream.ts:64 | `byte & 0x80` is nonzero exactly for the bytes from 0x80 up |
| Leb128.ShiftLeft | src/array-buffer-stream.ts:62 | `<<` yields a 32-bit pattern |
| Leb128.Int32 | src/array-buffer-stream.ts:62 | the number a JavaScript bitwise operator yields lies in the int32 range and agrees with the pattern modulo 2^32 |
| Leb128.OrBound | src/array-buffer-stream.ts:62 | OR of two values below 2^n is below 2^n, so `num` stays a 32-bit pattern |
| Leb128.OrDisjoint | src/array-buffer-stream.ts:62 | OR of a value below 2^k with a multiple of 2^k is their sum |
| Leb128.FirstStop | src/array-buffer-stream.ts:59-66 | the index of the first byte with bit 0x80 clear, where every byte before it has the bit set; None exactly when every byte has it set |
| Leb128.Chunk | src/array-buffer-stream.ts:62 | each `(byte & 0x7f) << shift` is a 32-bit pattern |
| Leb128.Bits | src/array-buffer-stream.ts:57-66 | the accumulator after ORing the chunks of a run of bytes is a 32-bit pattern |
| Leb128.ShiftSmall | src/array-buffer-stream.ts:62 | a shift below 32 that loses no bits multiplies by 2^s |
| Leb128.ChunkLow | src/array-buffer-stream.ts:62-65 | for bytes 0 to 3 the chunk is the payload times 128^i, below 2^28 |
| Leb128.ChunkHigh | src/array-buffer-stream.ts:62-65 | for byte 4 (shift 28) only the low four payload bits remain |
| Leb128.BitsStep | src/array-buffer-stream.ts:60-62 | reading byte k ORs `(byte & 0x7f) << 7k` into the accumulator of the bytes before it |
| Leb128.BitsValue | src/array-buffer-stream.ts:57-66 | for up to 5 bytes the accumulator is the LEB128 value mod 2^32; for up to 4 bytes it is the value itself, and that value is below 128^n |
| Leb128.DecodedNumber | src/array-buffer-stream.ts:56-68 | the returned number is the LEB128 value for up to 4 bytes, and agrees with it mod 2^32 for 5 bytes |
| Leb128.Decode624485 | src/array-buffer-stream.ts:56-68 | E5 8E 26 stops at its third byte and reads as 624485 |
| Leb128.NoSignExtension | src/array-buffer-stream.ts:56-68 | 7F reads as 127: no sign extension |
| Leb128.FiveBytesSigned | src/array-buffer-stream.ts:62 | FF FF FF FF 0F, which encodes 2^32 - 1, reads as -1 |
| Leb128.ShiftWraps | src/array-buffer-stream.ts:62-65 | `1 << 35` is 8: the shift count is taken mod 32 |
| Leb128.SixthChunk | src/array-buffer-stream.ts:57-66 | after five bytes with empty payloads the accumulator is the sixth byte's chunk alone |
| Leb128.SixthByteWraps | src/array-buffer-stream.ts:62-65 | 80 80 80 80 80 01, which encodes 2^35, reads as 8 |
| Leb128.ZeroPayloads | src/array-buffer-stream.ts:57-66 | bytes whose payload bits are all zero leave the accumulator 0 |
| JoinArrayBuffers.TotalLengthBounds | src/join-array-buffers.ts:7-10 | the summed `byteLength` is at least each buffer's length, and 0 exactly when every buffer is empty |
| JoinArrayBuffers.TotalLengthPrefix | src/join-array-buffers.ts:7-10 | the sum over the first i buffers is at most the sum over all of them |
| JoinArrayBuffers.Offset | src/join-array-buffers.ts:13-16 | the running offset starts at 0, and the offset of buffer i plus its length stays within the total, so each `out.set` fits |
| JoinArrayBuffers.TotalLengthIsConcatLength | src/join-array-buffers.ts:7-10 | the folded total of the byte lengths is the length of the concatenation |
| JoinArrayBuffers.ConcatAppend | src/join-array-buffers.ts:13-17 | concatenation distributes over splitting the list of parts |
| JoinArrayBuffers.ConcatAt | src/join-array-buffers.ts:13-17 | part i fills the window that begins after all the parts before it |
| JoinArrayBuffers.ConcatFewParts | src/join-array-buffers.ts:7-17 | no inputs give an empty result; one input gives a byte-equal copy |
| JoinArrayBuffers.JoinStep | src/join-array-buffers.ts:14-17 | one more iteration grows the running offset by the buffer's length, keeps it within the total, and extends the filled prefix by that buffer |
| JoinArrayBuffers.JoinAt | src/join-array-buffers.ts:13-17 | buffer i's bytes start at Offset(i) in the concatenation |
| JoinArrayBuffers.JoinLayout | src/join-array-buffers.ts:13-17 | buffer i occupies exactly the window from Offset(i) to Offset(i+1) = Offset(i) + its length |
| JoinArrayBuffers.Set | src/join-array-buffers.ts:15 | `out.set(source, offset)` replaces the bytes of out from offset with those of source and leaves the rest alone |
| JoinArrayBuffers.JoinArrayBuffers | src/join-array-buffers.ts:5-18 | a fresh buffer distinct from every input, as long as the summed lengths, equal to the in-order concatenation, with buffer i at Offset(i); inputs unchanged; loop invariant: offset is the fold so far and the filled prefix is the concatenation so far |

## Behaviour of the code worth knowing

The model follows the code in each case.

- **`readBytes` never fails.** `slice` clamps the copied range to the buffer, and the cursor moves by the requested count with no bounds test, so it can move past the end (src/array-buffer-stream.ts:26-30).
  - Here `offset` is a `nat` with no upper bound. Past the end `Eof` holds, and every fixed-width reader fails.
- **`readLEB128` returns an int32.** Unsigned LEB128 (section 7.6 of DWARF version 5) denotes the sum of the payloads times 128^i. The code accumulates that sum with JavaScript's `|=` and `<<` (src/array-buffer-stream.ts:62), which work on 32-bit two's-complement patterns:
  - a five-byte input with bit 31 set comes back negative (`FiveBytesSigned`);
  - from the sixth byte on, the shift count wraps modulo 32, so the high payloads land in low bits (`SixthByteWraps`).
- **The cursor after a failure.**
  - Every fixed-width and text reader builds its `DataView` before it moves the cursor. When the window does not fit, the constructor throws and the cursor stays where it was (src/array-buffer-stream.ts:32-54, 74-90).
  - `readLEB128` fails inside the `readUint8` of the byte past the end. It leaves the cursor after every byte it has already consumed (src/array-buffer-stream.ts:59-66).

## Left out

- **Text decoding.** `TextDecoder('ascii')` and `TextDecoder('utf-16le')` are host library calls. `ReadAsciiString` and `ReadUTF16LEString` take the decoder as a function parameter, so only the window and cursor behaviour is modelled.
- **JavaScript number semantics.** `byteLength` arguments and `offset` are natural numbers. Negative, fractional or non-numeric arguments are not modelled, and neither is the precision loss of a `number` above 2^53.
- **`shift` as a double.** The LEB128 `shift` counter is an unbounded `nat`. In JavaScript it is a double that would lose precision only after about 2^50 bytes.
- **Bitwise operators.** They are modelled on naturals below 2^32 rather than on `bv32`, as integer arithmetic that the verifier can relate to the LEB128 value.
- **Errors.** Exceptions are modelled as results. `Result.RangeError` stands for the exception the `DataView` constructor throws; no other exception path exists in these two files.
- **Buffer objects.** The stream's `ArrayBuffer` is a `seq<byte>`, because the stream never writes it. In `joinArrayBuffers` the inputs and the output are `array<byte>`, and `new Uint8Array(buffer)` is the array's current contents.
- Leb128.BitsValue: relates the accumulator to the LEB128 value only for runs of at most five bytes. Longer runs are described exactly by `Bits`, whose shift count wraps.
- JoinArrayBuffers.Set: requires the source to fit at the offset. `TypedArray.prototype.set` would throw a RangeError otherwise, but the only caller always stays in range.
