# RTCM3 frame scanning, CRC-24Q and message classification

This project models the core of `rtk`, a small Rust program that reads RTCM3
differential-GNSS correction messages out of a byte buffer. It proves
properties of that model in Dafny. The model has three modules:

- `Crc24` (`crc24q.dfy`) covers `crc24q_new`, the CRC-24Q of the RTCM
  10403.x transport layer. This is an MSB-first CRC with polynomial
  0x1864CFB, initial value 0, no reflection and no final XOR, computed in a
  32-bit register.
  - `Crc24q` is the routine with its two nested loops.
  - `Register` and `Checksum` specify it.
  - The lemmas prove that the register never leaves 24 bits. They also prove
    that a message followed by its own CRC, big-endian, has CRC zero. The
    frame scanner's acceptance rule relies on this.
  - A round is one-to-one on 24-bit registers. From this the lemmas prove that
    changing any one octet of a sequence whose CRC is zero makes its CRC
    nonzero. Flipping any single bit is one such change.
- `Messages` (`messages.dfy`) covers the preamble byte, the message payload,
  the `MessageType` enum and `get_type`. `get_type` reads the 12-bit message
  number and maps it through the fixed table.
- `Scanner` (`scanner.dfy`) covers the `while` loop of `parse_rtcm3`. It runs
  over a buffer that is passed in.
  - The loop moves a cursor through the buffer.
  - At a cursor holding the preamble 0xD3, it reads a 16-bit big-endian
    length L from the next two bytes.
  - It accepts the L + 6 bytes there when their CRC-24Q is zero. It then
    copies the L payload bytes out and moves on by L + 7.
  - Otherwise it moves on by one byte.
  - A preamble among the last two bytes makes the program index past the end
    of the buffer and panic. Here that is the outcome `IndexOutOfBounds(offset)`.

  `ScanFrom` describes the scan frame by frame, with each reported frame's
  offset. The step after a good frame is a parameter of `ScanFrom`: 7 as the
  code has it, 6 for the first byte after the frame. `ScanLoop` is the same
  scan written with an accumulator, as the loop runs it. `ParseRtcm3` is the
  loop as written, proved equal to `ScanFrom` at step 7. The validity,
  ordering, panic, missed-frame, corruption and prefix lemmas about `ScanFrom`
  hold for every step of 6 or more. The lemmas about streams of frames are
  each stated for one step: step 6, or step 7 for the lost frame. The program has no encoder.
  `EncodeFrame` builds frames only so that the lemmas can state what the
  scanner does with them.

## Model

| member | source | states |
|---|---|---|
| Crc24.Crc24q | src/main.rs:147-161 | The routine returns exactly the CRC-24Q of its input, and the result is below 2^24. In the inner loop the register stays below 2^24 after every round. |
| Crc24.ShiftAndReduce | src/main.rs:154-157 | One round, `crc <<= 1` then XOR of the polynomial when bit 24 is set, is the specification's round. It keeps a 24-bit register within 24 bits. |
| Crc24.Register | src/main.rs:151-159 | After every octet the 32-bit register holds a value below 2^24. |
| Crc24.Checksum | src/main.rs:161 | The final mask `& 0xFFFFFF` changes nothing: the result equals the register and is below 2^24. |
| Crc24.ChecksumOfEmpty | src/main.rs:147-161 | The CRC of the empty input is 0. |
| Crc24.ShiftRoundStaysIn24Bits | src/main.rs:154-157 | For a register below 2^24, the shifted value stays below 2^25 and shifting it back gives the register again, so the left shift of the u32 loses no bit. The reduced result is below 2^24 again. |
| Crc24.RoundsStayIn24Bits | src/main.rs:153-158 | Any number of rounds keeps a 24-bit register within 24 bits. |
| Crc24.ResidueIsZero | src/main.rs:147-161 | For every input, appending its CRC as three big-endian bytes gives a sequence whose CRC is 0. This is the acceptance rule "good if the calculated CRC is zero". |
| Crc24.ChecksumOfEmptyFrameHeader | src/main.rs:147-161 | The bytes D3 00 00 have CRC-24Q 0x47EA4B. |
| Crc24.Inject | src/main.rs:152 | Defines how an octet enters the register: XORed into bits 16 to 23. |
| Crc24.ShiftRound | src/main.rs:154-157 | Defines one round: shift left by one, then XOR the polynomial in when bit 24 is set. |
| Crc24.ByteStep | src/main.rs:151-158 | Defines the processing of one octet: inject it, then eight rounds. |
| Crc24.ShiftRoundInjective | src/main.rs:154-157 | Two different 24-bit registers give two different registers after a round. |
| Crc24.RoundsInjective | src/main.rs:153-158 | Two different 24-bit registers stay different after any number of rounds. |
| Crc24.ChangedOctetChangesRegister | src/main.rs:147-161 | Changing any one octet of any input changes the final register. |
| Crc24.ChangedOctetDetected | src/main.rs:147-161 | If a sequence has CRC 0, then changing any one of its octets, in any number of bits, gives a nonzero CRC. |
| Crc24.FlippedBitDetected | src/main.rs:147-161 | If a sequence has CRC 0, then flipping any single bit of it gives a nonzero CRC. |
| Messages.MessageNumber | src/main.rs:44 | The message number is first byte * 16 + second byte / 16, and it is below 4096. |
| Messages.GetType | src/main.rs:43-64 | The type carries exactly the message number read from the payload. The type is `Unknown` if and only if that number is not one of the twelve listed codes. |
| Messages.MessageNumberOfHeader | src/main.rs:44 | A 12-bit number written into the first two payload bytes reads back unchanged. |
| Messages.GetTypeOfHeader | src/main.rs:47-63 | Each of the twelve codes selects its own named variant. Every other 12-bit code comes back as `Unknown` with that code. |
| Scanner.FrameLength | src/main.rs:101 | Defines the length field: the two bytes after the preamble, shifted together into a 16-bit value. |
| Scanner.PanicsAt | src/main.rs:99-100 | Defines the panic condition: a 0xD3 byte with fewer than three bytes from it to the end of the buffer. |
| Scanner.ValidFrameAt | src/main.rs:90-119 | Defines what the loop accepts at a cursor: byte 0xD3, all L + 6 frame bytes inside the buffer, and CRC-24Q 0 over them. |
| Scanner.Payload | src/main.rs:122 | Defines the message of an accepted frame: the L bytes after the 3-byte header. |
| Scanner.ScanLoop | src/main.rs:84-140 | Defines the loop's run from a cursor with some messages already read. It follows the loop's branches in order and keeps the messages in an accumulator. |
| Scanner.FrameLengthIsBigEndian | src/main.rs:99-101 | The length is byte2 * 256 + byte3, all 16 bits, with the six reserved bits not masked. It is below 2^16. |
| Scanner.NextOffset | src/main.rs:89-139 | The cursor strictly advances on every path, by 1 on a skip and past the frame on a success, so the scan terminates. |
| Scanner.ScanFrom | src/main.rs:84-140 | A completed scan reports exactly one offset per message. |
| Scanner.ParseRtcm3 | src/main.rs:84-140 | The loop returns the messages of the frame-level scan from offset 0 with step 7. When the scan runs into a preamble among the last two bytes, the loop returns the out-of-bounds outcome at that cursor instead. |
| Scanner.LoopMatchesScan | src/main.rs:84-140 | Resuming the loop at any cursor with some messages already read gives those messages followed by what the frame-level scan finds from that cursor, or the same panic. |
| Scanner.FoundFramesAreValid | src/main.rs:104-126 | Every reported message comes from an offset at or after the cursor. At that offset the byte is 0xD3, all L + 6 frame bytes lie in the buffer, their CRC-24Q is 0, and the message is exactly the L bytes after the 3-byte header. |
| Scanner.FoundFramesAreOrdered | src/main.rs:139 | Reported frames are in strictly ascending order and do not overlap. Each next frame starts at least L + `step` bytes after the previous frame's start, where L is that frame's payload length. So with step 7 the byte right after a frame is never a reported frame start. |
| Scanner.NoPreambleNoMessages | src/main.rs:90-93 | A buffer with no 0xD3 byte from the cursor on yields no message and no panic. |
| Scanner.PanicOnlyAtLateMarker | src/main.rs:99-100 | The scan panics only at a 0xD3 byte among the last two bytes of the buffer. |
| Scanner.NoLateMarkerNoPanic | src/main.rs:99-100 | Without a 0xD3 byte among the last two bytes, the scan completes. |
| Scanner.MissedFramesLieInJumps | src/main.rs:104-139 | A valid frame that the scan does not report starts strictly inside the span from some reported frame to where the cursor jumped after it. |
| Scanner.CorruptedFrameRejected | src/main.rs:104-119 | Take a valid frame and change one of its bytes, other than the two length bytes. The result is no longer accepted at the frame's start. |
| Scanner.CorruptedFrameNotReported | src/main.rs:84-140 | After such a change, no scan of the buffer reports a message from the corrupted frame's start. |
| Scanner.EncodedLength | src/main.rs:101 | The length field of a frame that an encoder writes reads back as the payload length. |
| Scanner.EncodedFrameIsValid | src/main.rs:104-122 | An encoded frame, whatever follows it, passes every check at its first byte, and its payload reads back as the one encoded. |
| Scanner.ScanAfterPrefix | src/main.rs:85-140 | The bytes before the cursor do not matter: scanning after a prefix gives the scan of the rest with every offset moved by the prefix length. |
| Scanner.IntendedScanReadsFirstFrame | src/main.rs:139 | With step 6, an encoded frame in front of a stream adds its payload in front of the stream's messages. |
| Scanner.IntendedScanFindsEveryFrame | src/main.rs:139 | With step 6, a stream of encoded frames back to back is read completely: every payload, in order. |
| Scanner.SourceScanDropsBackToBackFrame | src/main.rs:139 | With step 7, take two encoded frames back to back where the second holds no other 0xD3 byte. Only the first is read. |
| Scanner.EmptyFrameBytes | src/main.rs:104-113 | The frame with an empty payload is D3 00 00 47 EA 4B. |
| Scanner.BackToBackEmptyFrames | src/main.rs:139 | On D3 00 00 47 EA 4B D3 00 00 47 EA 4B, step 7 reads one message and step 6 reads two. |

## Left out

- Reading the file `sample_data` and mapping its errors to strings (src/main.rs:76-80) are left out. The buffer is a parameter of `ParseRtcm3`.
- `main` and every `println!` (src/main.rs:67-73, 131, 142) are console output and are left out. So is the `crc` slice at src/main.rs:111, which only feeds the print.
- The `strum_macros::Display` derive and its format strings (src/main.rs:14-16) are left out, and `MessageType` is a plain datatype. The `Message` trait (src/main.rs:38-40) is left out, and `GetType` takes the message directly.
- Messages.GetType requires a payload of at least two bytes. The code indexes `raw[0]` and `raw[1]` and panics on a shorter payload. Such a panic can only arise in `main`, which is not part of this model. The case does occur on valid input: the scanner accepts frames with a payload of 0 or 1 bytes, such as the empty frame D3 00 00 47 EA 4B of `EmptyFrameBytes`, and `main` calls `get_type` on every message (src/main.rs:71).
- `usize` overflow in `length + 6` and `offset + length + 7` is not modelled, because integers here are unbounded. Both sums stay far below the range for any buffer that fits in memory.
- RTCM 10403.x defines a 10-bit length after six reserved zero bits. The code reads all 16 bits and does not mask them (src/main.rs:96-101), and so does the model. The encoder used in the round-trip lemmas writes payloads below 1024 bytes, so its reserved bits are zero.
- Scanner.CorruptedFrameRejected: a corrupted length byte is not covered. The loop then reads a different span, and that span may happen to pass the CRC check. The lemma also does not rule out a message from a frame that starts inside the corrupted frame's span. Nothing prevents one, because after a rejection the loop moves on by a single byte.
- Crc24.ChangedOctetDetected: errors in two or more octets are not covered. Burst-error detection would need the CRC's linearity over XOR, which is not part of this model.
- The inner round of `crc24q_new` is a separate method, `ShiftAndReduce`, called from the inner loop. Its body is the source's shift and conditional XOR.

## Findings

| source | as written | input that shows it | evidently intended | confidence | as-written member | corrected member |
|---|---|---|---|---|---|---|
| src/main.rs:139 | After a valid frame of payload length L, the cursor advances by L + 7. A frame is 3 + L + 3 = L + 6 bytes, and the comment at lines 134-138 counts "4 bytes - type + crc". The cursor therefore skips the first byte of a frame that follows directly, and that frame is lost. | `D3 00 00 47 EA 4B D3 00 00 47 EA 4B`, two empty frames back to back, yields one message instead of two. | Advance by L + 6, to the first byte after the frame. | not executed | Scanner.SourceScanDropsBackToBackFrame | Scanner.IntendedScanFindsEveryFrame |

`ParseRtcm3` keeps the code's step of 7, since it models the code as written. The validity, ordering, panic and prefix lemmas are proved for every step of 6 or more, so they hold both for the code and for the corrected step.
