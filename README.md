# Logo bitmap packer and CAN telemetry frames

A Dafny model of the two binary-packing routines of a small Teensy demo
project (an OLED display and a CAN bus):

- **The logo generator** (`src/generator.cpp`), a host-side program. It copies
  the exported one-byte-per-pixel raster into a `std::array` (`to_array`). It
  packs the raster into one bit per pixel, eight pixels per byte, with the first
  pixel of each group in the most significant bit (`compressBinaryArray`). Then
  `main` writes the result as a C++ header. The header has an include guard, the
  `images::mas245splash` namespaces and the `width` and `height` constants. Then
  comes one `0bXXXXXXXX,` literal per packed byte. Modules `BitPacking`
  (`bit_packing.dfy`) and `HeaderEmitter` (`header_emitter.dfy`).
- **The CAN frames of the firmware** (`src/main.cpp`). `sendCan()` writes a fixed
  heartbeat frame into the shared global message: id 0x007, length 3, bytes
  0x26 0x42 0x00. `sendCan(const Message&)` fills a local frame: id 0x245, length
  1 + sizeof(float), byte 0 the sequence number and bytes 1..4 the temperature's
  bytes. `loop()` sends both for x = 0 .. 127. Module `CanFrames`
  (`can_frames.dfy`). The frame is a class `Frame` with fields `id` and `len` and
  an 8-byte `array` buffer.

`options.dfy` holds the `Option` type used by the read-back functions. `bits.dfy`
(module `Bits`) holds the single-bit view of a byte and the step
`byte |= pixel << shift` of the packer's inner loop, with the bit facts that
the packing and digit proofs rest on.

Pixels and packed bytes are `bv8` because the packer works with shifts and ORs.
In the CAN module, bytes are the integer newtype `uint8`, and the loop counter
is `int16`. The temperature is four opaque bytes (`FloatBytes`).

Some read-back functions are not in the source: `Unpack`, `DigitsValue`,
`ParseLiteral`, `ParseLine`, `ParseBitmapLines`, `DecimalValue` and
`DecodeTelemetry`. They exist only to state the round-trip properties. The
source has no decoder.

Three behaviours of the code shape the model:

- The packer does not pad. When the raster size is not a multiple of 8, its
  loop reads `data[i + j]` and writes `compressedArray[i / 8]` past the end of
  both arrays. So `CompressBinaryArray` requires `|data| % 8 == 0`.
- The packer shifts the raw pixel value, so a pixel of 2 sets the neighbouring
  bit (`PixelTwoMisplaced`). The packing properties are therefore stated for
  0/1 pixels, and `CompressBinaryArray` requires them.
- The heartbeat is written into the global `msg`. The telemetry routine has no
  layout, frame-too-large or truncated-frame errors. It reports only the bus
  result.

## Model

| member | source | states |
|---|---|---|
| `Bits.BitOfPixelOr` | src/generator.cpp:37 | OR-ing a 0/1 pixel shifted to a clear bit sets that bit to the pixel and leaves the other seven bits unchanged |
| `Bits.OrPixel` | src/generator.cpp:37 | one pass of the inner loop: the byte OR-ed with the pixel shifted left by `shift`, cut to 8 bits as the store into a `uint8_t` element does; `Bits.BitOfPixelOr` gives its effect on each bit |
| `BitPacking.ToArray` | src/generator.cpp:22-30 | the result has the input's length N and element i equals input element i for every i < N |
| `BitPacking.Packed` | src/generator.cpp:32-41 | for a raster whose size N is a multiple of 8, the packed bitmap has exactly N/8 bytes |
| `BitPacking.Unpack` | src/generator.cpp:37 | the reference reading of a packed bitmap: 8 pixels per byte, each 0 or 1, taken from the most significant bit down |
| `BitPacking.CompressBinaryArray` | src/generator.cpp:32-41 | for N % 8 == 0 and 0/1 pixels, the zero-initialised array OR-ed by the nested loops holds exactly N/8 bytes; they are the packed bitmap and unpack to the input raster |
| `BitPacking.GroupPrefix` | src/generator.cpp:36-38 | output byte k after the first j passes of the inner loop over its eight pixels, starting from the zero the array is initialised with; `BitPacking.GroupPrefixBits` states its bits |
| `BitPacking.GroupPrefixBits` | src/generator.cpp:36-38 | after m passes of the inner loop, bit 7-j of the output byte holds pixel j for every j < m, and the bits below are still zero |
| `BitPacking.PackedBit` | src/generator.cpp:37 | bit p of packed byte k is pixel 8k+7-p, so the first pixel of each group is the most significant bit |
| `BitPacking.UnpackPacked` | src/generator.cpp:35-38 | unpacking the packed bytes gives back the original 0/1 raster |
| `BitPacking.PackedUnpack` | src/generator.cpp:35-38 | packing the unpacked pixels of any byte sequence gives back those bytes, so packing is a bijection between 0/1 rasters and byte sequences |
| `BitPacking.PackedByteLocal` | src/generator.cpp:37 | output byte k depends only on pixels 8k..8k+7 |
| `BitPacking.PackedUniform` | src/generator.cpp:34-37 | an all-off raster packs to all 0x00 bytes and an all-on raster to all 0xFF bytes |
| `BitPacking.PixelTwoMisplaced` | src/generator.cpp:37 | a pixel value of 2 in the last position sets bit 1, which unpacks as the neighbouring pixel on and the pixel itself off |
| `BitPacking.PackingOrderExamples` | src/generator.cpp:37 | [1,0,0,0,0,0,0,0] packs to 0x80, [0,0,0,0,0,0,0,1] to 0x01, and [1,1,1,1,0,0,0,0,1,0,1,0,1,0,1,0] to [0xF0, 0xAA] |
| `HeaderEmitter.BinaryDigits` | src/generator.cpp:74 | a byte is printed as exactly 8 characters, each '0' or '1' |
| `HeaderEmitter.DigitsValueBits` | src/generator.cpp:74 | bit p of the value of a binary digit string is 1 exactly when the p-th digit from the right is '1' |
| `HeaderEmitter.DigitsRoundTrip` | src/generator.cpp:74 | reading the 8 printed digits back, most significant first, gives the byte |
| `HeaderEmitter.DigitsCanonical` | src/generator.cpp:74 | any 8 binary digits are exactly the digits printed for their value |
| `HeaderEmitter.LiteralParses` | src/generator.cpp:74 | a text reads as the literal for byte b if and only if it is "0b" followed by b's 8 digits |
| `HeaderEmitter.Line` | src/generator.cpp:74 | every bitmap line is 24 characters long |
| `HeaderEmitter.LineParses` | src/generator.cpp:74 | a 24-character text reads as byte b if and only if it is the indentation, b's literal and ",\n" |
| `HeaderEmitter.BitmapLines` | src/generator.cpp:73-75 | the bitmap body has 24 characters per packed byte |
| `HeaderEmitter.BitmapLinesParse` | src/generator.cpp:73-75 | a body reads back as a byte sequence if and only if it is the body rendered for that sequence: one line per byte, in array order |
| `HeaderEmitter.BitmapLineAt` | src/generator.cpp:73-75 | line k of the body is the literal line of packed byte k |
| `HeaderEmitter.DecimalString` | src/generator.cpp:68-69 | width and height are printed as a non-empty run of decimal digits with no leading zero |
| `HeaderEmitter.DecimalRoundTrip` | src/generator.cpp:68-69 | reading the printed decimal digits back gives the number |
| `HeaderEmitter.HeaderText` | src/generator.cpp:63-80 | the header is the fixed template around one bitmap line per packed byte; its length is the prologue's, plus 24 per byte, plus the epilogue's |
| `HeaderEmitter.Prologue` | src/generator.cpp:63-70 | the text before the first bitmap line: the `#ifndef` guard line, then the declarations |
| `HeaderEmitter.Declarations` | src/generator.cpp:64-70 | the `#define`, the `#include <avr/pgmspace.h>`, the two namespaces, `width` and `height` in decimal and the opening of the `bitmap` array, with the code's spacing and blank lines |
| `HeaderEmitter.Epilogue` | src/generator.cpp:77-80 | the text after the last bitmap line: the three closing braces, then the `#endif` line |
| `HeaderEmitter.Closings` | src/generator.cpp:77-79 | the closing of the array and of the two namespaces, each followed by a blank line |
| `HeaderEmitter.HeaderGuards` | src/generator.cpp:63-80 | the header begins with `#ifndef MAS245_LOGO_BITMAP_H` and ends with `#endif // MAS245_LOGO_BITMAP_H` |
| `HeaderEmitter.HeaderLineAt` | src/generator.cpp:70-75 | the k-th line after the prologue is the literal line of packed byte k |
| `HeaderEmitter.HeaderBitmap` | src/generator.cpp:63-80 | the text between the prologue and the epilogue reads back as exactly the packed bytes |
| `HeaderEmitter.EmitHeader` | src/generator.cpp:63-80 | the text built by the loop is the header function of width, height and the packed bytes alone, so the same inputs always give the same text |
| `HeaderEmitter.GenerateHeader` | src/generator.cpp:45-87 | `main` produces the header of the packed raster; its bitmap reads back as the packed bytes, which unpack to the raster |
| `CanFrames.Message` | src/main.cpp:84-87 | a message is a `uint8_t` sequence number and a `float` temperature, kept as its four bytes |
| `CanFrames.HeartbeatState` | src/main.cpp:164-170 | the heartbeat frame has id 0x007, length 3 and bytes 0x26 0x42 0x00, and keeps the rest of the buffer |
| `CanFrames.HeartbeatIdempotent` | src/main.cpp:164-170 | writing the heartbeat twice leaves the same frame as writing it once |
| `CanFrames.Frame.SendHeartbeat` | src/main.cpp:164-175 | writes exactly the heartbeat state into the shared frame; only `id`, `len` and the buffer may change, and buffer bytes 3..7 keep their values |
| `CanFrames.TelemetryPayload` | src/main.cpp:185-191 | the telemetry payload is 1 + 4 = 5 bytes, within the capacity of 8; byte 0 is the sequence number and bytes 1..4 are the temperature's bytes in order |
| `CanFrames.TelemetryState` | src/main.cpp:179-191 | the telemetry frame has id 0x245 and length 5, starts with the payload and keeps buffer bytes 5..7 |
| `CanFrames.TelemetryRoundTrip` | src/main.cpp:188-191 | the used bytes of a telemetry frame read back as exactly the encoded message |
| `CanFrames.TelemetryDecodes` | src/main.cpp:188-191 | a payload reads back as message m if and only if it has at least 5 bytes and starts with m's telemetry bytes |
| `CanFrames.Frame.constructor` | src/main.cpp:181 | a new frame has an 8-byte buffer |
| `CanFrames.Frame.WriteTelemetry` | src/main.cpp:184-191 | writes the telemetry state of the message into the frame; only `id`, `len` and the buffer may change |
| `CanFrames.SendTelemetry` | src/main.cpp:179-198 | the fresh frame has id 0x245, length 5 and the message's 5 bytes, which read back as the message; the failure line is logged exactly when the bus reports a negative result |
| `CanFrames.ToUint8` | src/main.cpp:155 | the sequence number is the `int16_t` counter modulo 256, and it equals the counter for 0 <= x < 256 |
| `CanFrames.LoopTraffic` | src/main.cpp:137-160 | over x = 0..127, the heartbeat frame handed to the bus on pass x is the heartbeat state of the shared frame; the telemetry frame of pass x has id 0x245, length 5 and the bytes of the message numbered x with the x-th temperature, and reads back as that message; failures are logged exactly for negative bus results; the shared frame ends in the heartbeat state |

## Left out

- File output of the generator is not modelled: the path, `ofstream` and the "Error opening file" exit, and the console messages (src/generator.cpp:47, 52-60, 82-84). The header is returned as a string.
- The export header that defines `header_data`, `width` and `height` is not part of this model. The raster is an input, and `width` and `height` are taken as unsigned integers that `operator<<` prints in decimal.
- Display work is not modelled: `setup`, `demoMessage`, `drawSplash`, the invert effects and the sine curve in `loop`. It is display I/O and timing.
- The temperature `23.10 * std::sin(x)` (src/main.cpp:156) and any IEEE-754 meaning of it are not modelled, because they are floating point. Temperatures are inputs, four opaque bytes each, copied in memory order.
- The CAN driver is foreign code: `can0.begin`, `setBaudRate` and `write`. For the telemetry frame, `write`'s result is the input `writeStatus`. For the heartbeat, the source ignores it, and so does the model.
- `CAN_message_t` is reduced to `id`, `len` and `buf`. Its other fields belong to the driver library and neither routine writes them. `id` and `len` are unbounded naturals, not the library's fixed-width fields; the values written are small constants.
- `CanFrames.Frame.constructor`: promises only an 8-byte buffer and not the library's default field values, because the library is not part of this model.
- Pin and display constants and the pumpkin bitmap (src/main.cpp:14-66) are data only.
- `BitPacking.CompressBinaryArray`: requires 0/1 pixels, as the code's shifting assumes. `Packed` still gives the code's result for other values (see `PixelTwoMisplaced`).
