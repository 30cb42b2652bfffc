# ntp_clock: serial frame builder and seven-segment glyph table

This project models two self-contained pieces of the WiFi clock repository and
proves properties about them in Dafny.

- **Improv test frames** (`test_improv.py`). The host-side test script sends
  frames to the clock over a serial line. A frame is the bytes `'I'` `'M'`, the
  version (1), a command byte, a payload-length byte, the payload, and a CRC-8
  of all of those bytes. The CRC uses polynomial 0x31, starts at 0, processes
  bits most significant first and applies no final XOR. `improv_crc.dfy` models
  `calculate_crc` as the script's nested loop, `ImprovCrc.CalculateCrc`, over a
  wide register masked to 8 bits after each shift. The method is proved equal to
  a left fold, `ImprovCrc.Crc`. `improv_packet.dfy` models
  `create_improv_packet` as `ImprovPacket.CreateImprovPacket`, which builds the
  packet step by step. It returns an error where Python's `bytearray` raises
  for a value outside 0..255. The method is proved to return
  `ImprovPacket.EncodeFrame`. `ImprovPacket.ParseFrame` is the receiving side's
  reading of the same layout. The encoder is proved to be its exact inverse,
  and a frame with any one byte changed is proved to be rejected.
- **Glyph table** (`SevenSegmentDisplay/glyphs.h`). `Glyphs.CharToSegment` is
  the `switch` from a character to the raw segment byte, with blank for
  characters the table does not list. `Glyphs.IsCodeBCompatible` is the test
  for characters that the MAX7219's built-in Code-B font can show. The proved
  table facts:
  - lookup ignores case;
  - the aliased letters have the same byte as their alias;
  - a character is blank exactly when it is the space or unlisted;
  - the ten digits have ten different bytes;
  - the Code-B predicate holds for exactly the Code-B font, is case-sensitive,
    and accepts only characters the table lists.

Bytes on the Python side are `bv8` (the script's register, which masks to
`& 0xFF` after each shift, is a `bv16` in the loop). The C `uint8_t` is an
integer in 0..255. The table's binary literals are written in hexadecimal.

## Model

| member | source | states |
|---|---|---|
| `ImprovCrc.CalculateCrc` | test_improv.py:24-35 | the nested byte/bit loop, with its register masked to 0..255 after every shift, returns the CRC-8 fold `Crc` of the input |
| `ImprovCrc.Crc` | test_improv.py:26-35 | the checksum of the empty sequence is the initial value 0 |
| `ImprovCrc.BitStep` | test_improv.py:30-34 | one inner-loop step sends a register to 0 only if it was 0, because polynomial 0x31 has its constant term |
| `ImprovCrc.Shifts` | test_improv.py:29-34 | eight (any number of) inner-loop steps keep a nonzero register nonzero |
| `ImprovCrc.UpdateByte` | test_improv.py:28-34 | feeding a byte clears the register exactly when the byte equals the register |
| `ImprovCrc.CrcFrom` | test_improv.py:27-34 | the register after feeding the bytes in order through the outer loop; feeding no bytes leaves it unchanged, and feeding only zero bytes neither clears a nonzero register nor sets a zero one |
| `ImprovCrc.CrcFromAppend` | test_improv.py:27-34 | the fold over `a ++ b` continues the fold over `a` across `b` |
| `ImprovCrc.CrcAppend` | test_improv.py:27-34 | CRC(a ++ b) is the per-byte step continued from CRC(a) over b |
| `ImprovCrc.CrcAppendByte` | test_improv.py:27-34 | appending one byte performs exactly one outer-loop pass on CRC(a) |
| `ImprovCrc.CrcResidue` | test_improv.py:26-35 | the CRC over a whole message is 0 if and only if its last byte is the CRC of the bytes before it (initial value 0, no final XOR) |
| `ImprovCrc.BitStepInjective` | test_improv.py:30-34 | distinct registers stay distinct after one bit step |
| `ImprovCrc.ShiftsInjective` | test_improv.py:29-34 | distinct registers stay distinct after any number of bit steps |
| `ImprovCrc.CrcFromInjective` | test_improv.py:27-34 | the same bytes fed into two different registers leave them different |
| `ImprovCrc.SingleByteChangeDetected` | test_improv.py:24-35 | changing any one byte of a message changes its CRC |
| `ImprovPacket.CreateImprovPacket` | test_improv.py:37-45 | fails exactly when the command is outside 0..255 or the payload is longer than 255 bytes; otherwise returns `EncodeFrame(command, data)` |
| `ImprovPacket.EncodeFrame` | test_improv.py:41-44 | the frame the builder produces: the five header bytes and the payload, followed by their CRC; it is six bytes longer than the payload and carries the payload verbatim from byte 5 to the last byte but one |
| `ImprovPacket.FrameLayout` | test_improv.py:38-44 | a frame is `len(data) + 6` bytes: `'I'`, `'M'`, version 1, the command, `len(data)`, then the payload verbatim, then the CRC of every byte before it |
| `ImprovPacket.FrameChecksToZero` | test_improv.py:41-44 | the CRC over a whole frame, trailing CRC byte included, is 0 |
| `ImprovPacket.ParseFrame` | test_improv.py:38-44 | an accepted frame's payload is six bytes shorter than the frame |
| `ImprovPacket.ParseEncode` | test_improv.py:38-45 | every built frame is accepted and yields back its command and payload |
| `ImprovPacket.EncodeParse` | test_improv.py:38-45 | every accepted byte string is exactly the frame built from what it yields |
| `ImprovPacket.EncodeInjective` | test_improv.py:41-45 | different commands or payloads never give the same frame |
| `ImprovPacket.CorruptedFrameRejected` | test_improv.py:43-44 | a frame with any one byte altered fails the header, length or CRC check |
| `Glyphs.CharToSegment` | SevenSegmentDisplay/glyphs.h:10-54 | the raw segment byte for each character of the `switch`, letters in both cases sharing one entry; any character without a `case` gets 0 |
| `Glyphs.IsCodeBCompatible` | SevenSegmentDisplay/glyphs.h:56-62 | true for the digits, `-`, `E`, `H`, `L`, `P` and space; every character it accepts has its own `case` in the glyph table |
| `Glyphs.UnlistedIsBlank` | SevenSegmentDisplay/glyphs.h:52 | a character with no `case` maps to 0, blank |
| `Glyphs.BlankExactly` | SevenSegmentDisplay/glyphs.h:12-52 | the byte is 0 exactly for the space and for unlisted characters; every other listed character lights a segment |
| `Glyphs.LetterCasesAgree` | SevenSegmentDisplay/glyphs.h:22-47 | each upper-case letter maps to the same byte as its lower-case form |
| `Glyphs.CaseInsensitive` | SevenSegmentDisplay/glyphs.h:22-47 | upper-casing or lower-casing any character never changes its byte |
| `Glyphs.LetterAliases` | SevenSegmentDisplay/glyphs.h:22-45 | K and X map to H's byte, M to A's, V to U's |
| `Glyphs.DigitAliases` | SevenSegmentDisplay/glyphs.h:12-47 | S maps to 5's byte, W to 0's, Z to 2's |
| `Glyphs.DigitsDistinct` | SevenSegmentDisplay/glyphs.h:12-21 | two digits with the same byte are the same digit |
| `Glyphs.CodeBExactly` | SevenSegmentDisplay/glyphs.h:56-61 | the predicate holds exactly for 0-9, `-`, `E`, `H`, `L`, `P` and space, and is false for `e`, `h`, `l`, `p` |
| `Glyphs.CodeBListed` | SevenSegmentDisplay/glyphs.h:12-61 | every Code-B character has its own `case`, so it never reaches the default, and is blank only if it is the space |

## Left out

- `send_command` and `main` (test_improv.py:47-168): serial-port I/O, sleeping, printing and exception handling. The only logic in them is the check that a response starts with `IM`.
- The `IMPROV_STATE_*` constants (test_improv.py:18-22): the script never uses them. The `IMPROV_CMD_*` constants are kept as byte values only.
- `CreateImprovPacket`: the growing `bytearray` is a local sequence that the method reassigns. The `TypeError` for a non-integer command cannot arise in the typed model.
- `CreateImprovPacket`: `data` is typed as a byte sequence, so the model cannot show the `ValueError` that `packet.extend(data)` raises for a list holding integers outside 0..255, nor the `TypeError` it raises for a `str`.
- `ParseFrame` is the receiving side's reading of the layout that the builder's docstring states. The device's own parser is not part of this model. The framing is the script's own, not the published Improv serial framing.
- The bit-layout comment and the per-case segment comments in glyphs.h (lines 6-7 and 12-50) disagree with the table's values, so contracts speak of byte values only, not named segments.
- `CharToSegment`: C's `char` is one byte and Dafny's `char` is a Unicode scalar. The characters beyond one byte have no `case` and map to blank in both.
- The connectivity state machine, reconnect backoff, display arbitration and button controller are not part of this model. Their sources are not among the modelled files. Neither are the MAX7219 wire protocol or the display hardware.
