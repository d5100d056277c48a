/**
 * The RTCM3 frame scanner of `parse_rtcm3`.
 *
 * A frame is the preamble 0xD3, a big-endian 16-bit length field L, L bytes
 * of payload and three CRC bytes: L + 6 bytes in all. A cursor walks the
 * buffer. Where it does not find a frame whose CRC-24Q is zero it moves on by
 * one byte; where it does, it copies the payload out and moves on by L + 7.
 * A preamble among the last two bytes makes the length read fall off the end
 * of the buffer, which in the program is a panic; here it is the outcome
 * `IndexOutOfBounds`.
 *
 * `ScanFrom` is the reference definition, over frames rather than bytes, and
 * takes the cursor step after a good frame as a parameter: 7 as the program
 * has it, 6 for a frame followed directly by the next one. `ParseRtcm3` is the
 * loop as the program writes it.
 */
module Scanner {
  import opened Crc24
  import opened Messages

  /** Preamble, two length bytes and three CRC bytes: a frame's size beyond its payload. */
  const FRAME_OVERHEAD: nat := 6

  /** The cursor step after an accepted frame, beyond its payload, in the program. */
  const SOURCE_ADVANCE: nat := 7

  /** The step that puts the cursor on the first byte after an accepted frame, beyond its payload. */
  const INTENDED_ADVANCE: nat := FRAME_OVERHEAD

  /** The length field: the two bytes after the preamble, shifted together into 16 bits. */
  function FrameLength(byte2: bv8, byte3: bv8): nat {
    (((byte2 as bv16) << 8) | (byte3 as bv16)) as nat
  }

  /** The length field is big-endian and all 16 bits count: the six reserved bits are not masked off. */
  lemma FrameLengthIsBigEndian(byte2: bv8, byte3: bv8)
    ensures FrameLength(byte2, byte3) == byte2 as nat * 256 + byte3 as nat
    ensures FrameLength(byte2, byte3) < 0x1_0000
  {
  }

  /** The length field of the frame that would start at `s`. */
  function LengthAt(buffer: seq<bv8>, s: nat): nat
    requires s + 3 <= |buffer|
  {
    FrameLength(buffer[s + 1], buffer[s + 2])
  }

  /** A preamble so close to the end that reading the length field runs off the buffer. */
  predicate PanicsAt(buffer: seq<bv8>, s: nat) {
    s < |buffer| && buffer[s] == EXPECTED_FIRST_BYTE && |buffer| - s < 3
  }

  /** A whole frame starts at `s`: preamble, room for all of it, and CRC-24Q zero over all of it. */
  predicate ValidFrameAt(buffer: seq<bv8>, s: nat) {
    s + 3 <= |buffer| && buffer[s] == EXPECTED_FIRST_BYTE
    && LengthAt(buffer, s) + FRAME_OVERHEAD <= |buffer| - s
    && Checksum(buffer[s..s + LengthAt(buffer, s) + FRAME_OVERHEAD]) == 0
  }

  /** The payload of the frame at `s`. */
  function Payload(buffer: seq<bv8>, s: nat): seq<bv8>
    requires ValidFrameAt(buffer, s)
  {
    buffer[s + 3..s + 3 + LengthAt(buffer, s)]
  }

  /** Where the cursor goes from `s`: past the frame and `advance` more if one is there, else one byte on. */
  function NextOffset(buffer: seq<bv8>, s: nat, advance: nat): (next: nat)
    requires advance >= FRAME_OVERHEAD
    ensures next > s
  {
    if ValidFrameAt(buffer, s) then s + LengthAt(buffer, s) + advance else s + 1
  }

  /** The frames a scan finds from some cursor on, or the cursor where it ran off the buffer. */
  datatype Scan = Found(starts: seq<nat>, messages: seq<Rtcm3Message>) | Panicked(at: nat)

  /** The scan from cursor `offset` to the end of `buffer`. */
  function ScanFrom(buffer: seq<bv8>, offset: nat, advance: nat): (r: Scan)
    requires advance >= FRAME_OVERHEAD
    ensures r.Found? ==> |r.starts| == |r.messages|
    decreases |buffer| - offset
  {
    if offset >= |buffer| then Found([], [])
    else if PanicsAt(buffer, offset) then Panicked(offset)
    else
      var rest := ScanFrom(buffer, NextOffset(buffer, offset, advance), advance);
      if ValidFrameAt(buffer, offset) && rest.Found? then
        Found([offset] + rest.starts, [Rtcm3Message(Payload(buffer, offset))] + rest.messages)
      else rest
  }

  /** What `parse_rtcm3` returns for an in-memory buffer, or where it panics. */
  datatype ParseResult = Parsed(messages: seq<Rtcm3Message>) | IndexOutOfBounds(offset: nat)

  /** The program's view of a scan: the messages without their offsets. */
  function Outcome(scan: Scan): ParseResult {
    match scan
    case Found(_, messages) => Parsed(messages)
    case Panicked(at) => IndexOutOfBounds(at)
  }

  /** `result` with `messages` in front, if it is not a panic. */
  function Prepend(messages: seq<Rtcm3Message>, result: ParseResult): ParseResult {
    match result
    case Parsed(rest) => Parsed(messages + rest)
    case IndexOutOfBounds(_) => result
  }

  /**
   * What the loop returns when it resumes at cursor `offset` with `messages`
   * already read: the scan written with an accumulator, as the loop runs it.
   */
  function ScanLoop(buffer: seq<bv8>, offset: nat, advance: nat, messages: seq<Rtcm3Message>): (r: ParseResult)
    requires advance >= FRAME_OVERHEAD
    decreases |buffer| - offset
  {
    if offset >= |buffer| then Parsed(messages)
    else if PanicsAt(buffer, offset) then IndexOutOfBounds(offset)
    else if ValidFrameAt(buffer, offset) then
      ScanLoop(buffer, offset + LengthAt(buffer, offset) + advance, advance,
               messages + [Rtcm3Message(Payload(buffer, offset))])
    else ScanLoop(buffer, offset + 1, advance, messages)
  }

  /** The scanning loop of `parse_rtcm3`, over a buffer already read into memory. */
  method ParseRtcm3(buffer: seq<bv8>) returns (result: ParseResult)
    ensures result == Outcome(ScanFrom(buffer, 0, SOURCE_ADVANCE))
  {
    var messages: seq<Rtcm3Message> := [];
    var offset: nat := 0;
    while offset < |buffer|
      invariant ScanLoop(buffer, offset, SOURCE_ADVANCE, messages) == ScanLoop(buffer, 0, SOURCE_ADVANCE, [])
      decreases |buffer| - offset
    {
      var byte1 := buffer[offset];
      if byte1 != EXPECTED_FIRST_BYTE {
        offset := offset + 1;
        continue;
      }
      if |buffer| - offset < 3 {
        LoopMatchesScan(buffer, 0, SOURCE_ADVANCE, []);
        return IndexOutOfBounds(offset);
      }
      var byte2 := buffer[offset + 1];
      var byte3 := buffer[offset + 2];
      var length := FrameLength(byte2, byte3);
      if |buffer| - offset < length + 6 {
        offset := offset + 1;
        continue;
      }
      var calculatedCrc := Crc24q(buffer[offset..offset + length + 6]);
      if calculatedCrc != 0 {
        offset := offset + 1;
        continue;
      }
      assert ValidFrameAt(buffer, offset) && length == LengthAt(buffer, offset);
      messages := messages + [Rtcm3Message(buffer[offset + 3..offset + length + 3])];
      offset := offset + length + 7;
    }
    LoopMatchesScan(buffer, 0, SOURCE_ADVANCE, []);
    return Parsed(messages);
  }

  /**
   * The loop's accumulator and the frame-level scan agree: resuming at a
   * cursor with some messages read gives those messages followed by what the
   * scan from that cursor finds, or the same panic.
   */
  lemma {:induction false} LoopMatchesScan(buffer: seq<bv8>, offset: nat, advance: nat, messages: seq<Rtcm3Message>)
    requires advance >= FRAME_OVERHEAD
    ensures ScanLoop(buffer, offset, advance, messages) == Prepend(messages, Outcome(ScanFrom(buffer, offset, advance)))
    decreases |buffer| - offset
  {
    if offset < |buffer| && !PanicsAt(buffer, offset) {
      var next := NextOffset(buffer, offset, advance);
      if ValidFrameAt(buffer, offset) {
        var m := [Rtcm3Message(Payload(buffer, offset))];
        LoopMatchesScan(buffer, next, advance, messages + m);
        PrependTwice(messages, m, Outcome(ScanFrom(buffer, next, advance)));
      } else {
        LoopMatchesScan(buffer, next, advance, messages);
      }
    } else if offset >= |buffer| {
      assert messages + [] == messages;
    }
  }

  lemma PrependTwice(first: seq<Rtcm3Message>, second: seq<Rtcm3Message>, result: ParseResult)
    ensures Prepend(first, Prepend(second, result)) == Prepend(first + second, result)
  {
    if result.Parsed? {
      assert first + (second + result.messages) == (first + second) + result.messages;
    }
  }

  // ---------------------------------------------------------------------------
  // What a scan finds.

  /**
   * Every message comes from a whole frame at or after the cursor: preamble
   * 0xD3, all L + 6 bytes inside the buffer, CRC-24Q zero over them, and the
   * message is exactly the L payload bytes after the three header bytes.
   */
  lemma {:induction false} FoundFramesAreValid(buffer: seq<bv8>, offset: nat, advance: nat)
    requires advance >= FRAME_OVERHEAD
    requires ScanFrom(buffer, offset, advance).Found?
    ensures var r := ScanFrom(buffer, offset, advance);
            forall i :: 0 <= i < |r.starts| ==>
              offset <= r.starts[i] && ValidFrameAt(buffer, r.starts[i])
              && r.messages[i] == Rtcm3Message(Payload(buffer, r.starts[i]))
    decreases |buffer| - offset
  {
    if offset < |buffer| {
      FoundFramesAreValid(buffer, NextOffset(buffer, offset, advance), advance);
    }
  }

  /**
   * Frames are found in strictly ascending order and do not overlap: each
   * next one starts at least L + `advance` bytes after the start of the
   * previous one, whose payload length is L, so with the program's step the
   * byte right after a frame is never the start of the next.
   */
  lemma {:induction false} FoundFramesAreOrdered(buffer: seq<bv8>, offset: nat, advance: nat)
    requires advance >= FRAME_OVERHEAD
    requires ScanFrom(buffer, offset, advance).Found?
    ensures var r := ScanFrom(buffer, offset, advance);
            forall i, j :: 0 <= i < j < |r.starts| ==>
              r.starts[i] + 3 <= |buffer| && r.starts[i] + LengthAt(buffer, r.starts[i]) + advance <= r.starts[j]
    decreases |buffer| - offset
  {
    if offset < |buffer| {
      var next := NextOffset(buffer, offset, advance);
      FoundFramesAreOrdered(buffer, next, advance);
      FoundFramesAreValid(buffer, next, advance);
    }
  }

  /** A buffer with no preamble byte from the cursor on yields no message and no panic. */
  lemma {:induction false} NoPreambleNoMessages(buffer: seq<bv8>, offset: nat, advance: nat)
    requires advance >= FRAME_OVERHEAD
    requires forall i :: offset <= i < |buffer| ==> buffer[i] != EXPECTED_FIRST_BYTE
    ensures ScanFrom(buffer, offset, advance) == Found([], [])
    decreases |buffer| - offset
  {
    if offset < |buffer| {
      NoPreambleNoMessages(buffer, offset + 1, advance);
    }
  }

  /** A scan only stops short at a preamble among the last two bytes of the buffer. */
  lemma {:induction false} PanicOnlyAtLateMarker(buffer: seq<bv8>, offset: nat, advance: nat)
    requires advance >= FRAME_OVERHEAD
    requires ScanFrom(buffer, offset, advance).Panicked?
    ensures var p := ScanFrom(buffer, offset, advance).at;
            offset <= p < |buffer| && |buffer| - p < 3 && buffer[p] == EXPECTED_FIRST_BYTE
    decreases |buffer| - offset
  {
    if offset < |buffer| && !PanicsAt(buffer, offset) {
      PanicOnlyAtLateMarker(buffer, NextOffset(buffer, offset, advance), advance);
    }
  }

  /** Without a preamble among the last two bytes the scan never runs off the buffer. */
  lemma {:induction false} NoLateMarkerNoPanic(buffer: seq<bv8>, offset: nat, advance: nat)
    requires advance >= FRAME_OVERHEAD
    requires forall i :: offset <= i < |buffer| && |buffer| - i < 3 ==> buffer[i] != EXPECTED_FIRST_BYTE
    ensures ScanFrom(buffer, offset, advance).Found?
    decreases |buffer| - offset
  {
    if offset < |buffer| {
      NoLateMarkerNoPanic(buffer, NextOffset(buffer, offset, advance), advance);
    }
  }

  /**
   * Nothing valid is passed over except where the cursor jumps: a whole frame
   * at or after the cursor that the scan does not report starts inside the
   * span from a reported frame to where the cursor went after it.
   */
  lemma {:induction false} MissedFramesLieInJumps(buffer: seq<bv8>, offset: nat, advance: nat, s: nat)
    requires advance >= FRAME_OVERHEAD
    requires ScanFrom(buffer, offset, advance).Found?
    requires offset <= s && ValidFrameAt(buffer, s)
    requires s !in ScanFrom(buffer, offset, advance).starts
    ensures var starts := ScanFrom(buffer, offset, advance).starts;
            exists i :: 0 <= i < |starts| && InJump(buffer, starts, i, advance, s)
    decreases |buffer| - offset
  {
    var next := NextOffset(buffer, offset, advance);
    if ValidFrameAt(buffer, offset) {
      FoundAtFrame(buffer, offset, advance);
      if next <= s {
        MissedFramesLieInJumps(buffer, next, advance, s);
        var i :| 0 <= i < |ScanFrom(buffer, next, advance).starts|
                 && InJump(buffer, ScanFrom(buffer, next, advance).starts, i, advance, s);
        JumpAfterFrame(buffer, offset, advance, s, i);
      } else {
        JumpAtFrame(buffer, offset, advance, s);
      }
    } else {
      MissedFramesLieInJumps(buffer, next, advance, s);
    }
  }

  /** A scan that finds a frame at its cursor reports that frame first, then the rest. */
  lemma FoundAtFrame(buffer: seq<bv8>, offset: nat, advance: nat)
    requires advance >= FRAME_OVERHEAD
    requires ValidFrameAt(buffer, offset) && ScanFrom(buffer, offset, advance).Found?
    ensures ScanFrom(buffer, NextOffset(buffer, offset, advance), advance).Found?
    ensures ScanFrom(buffer, offset, advance).starts
            == [offset] + ScanFrom(buffer, NextOffset(buffer, offset, advance), advance).starts
  {
  }

  lemma JumpAtFrame(buffer: seq<bv8>, offset: nat, advance: nat, s: nat)
    requires advance >= FRAME_OVERHEAD
    requires ValidFrameAt(buffer, offset) && ScanFrom(buffer, offset, advance).Found?
    requires offset <= s < NextOffset(buffer, offset, advance)
    requires s !in ScanFrom(buffer, offset, advance).starts
    ensures |ScanFrom(buffer, offset, advance).starts| > 0
    ensures InJump(buffer, ScanFrom(buffer, offset, advance).starts, 0, advance, s)
  {
    FoundAtFrame(buffer, offset, advance);
  }

  lemma JumpAfterFrame(buffer: seq<bv8>, offset: nat, advance: nat, s: nat, i: nat)
    requires advance >= FRAME_OVERHEAD
    requires ValidFrameAt(buffer, offset) && ScanFrom(buffer, offset, advance).Found?
    requires i < |ScanFrom(buffer, NextOffset(buffer, offset, advance), advance).starts|
    requires InJump(buffer, ScanFrom(buffer, NextOffset(buffer, offset, advance), advance).starts, i, advance, s)
    ensures i + 1 < |ScanFrom(buffer, offset, advance).starts|
    ensures InJump(buffer, ScanFrom(buffer, offset, advance).starts, i + 1, advance, s)
  {
    FoundAtFrame(buffer, offset, advance);
    var starts := ScanFrom(buffer, offset, advance).starts;
    var rest := ScanFrom(buffer, NextOffset(buffer, offset, advance), advance).starts;
    assert starts[i + 1] == rest[i];
  }

  /** The frame reported `i`-th in `starts` begins before `s`, and the cursor jumps past `s` after it. */
  predicate InJump(buffer: seq<bv8>, starts: seq<nat>, i: nat, advance: nat, s: nat)
    requires i < |starts|
  {
    starts[i] < s && starts[i] + 3 <= |buffer| && s < starts[i] + LengthAt(buffer, starts[i]) + advance
  }

  // ---------------------------------------------------------------------------
  // Corrupted frames.

  /**
   * A whole frame with one byte corrupted, anywhere but in its length field,
   * is no longer accepted at its start: the length still reads the same, so
   * the CRC runs over the same span, and that span now holds one changed octet.
   */
  lemma CorruptedFrameRejected(buffer: seq<bv8>, s: nat, i: nat, octet: bv8)
    requires ValidFrameAt(buffer, s)
    requires i == s || s + 3 <= i < s + LengthAt(buffer, s) + FRAME_OVERHEAD
    requires octet != buffer[i]
    ensures !ValidFrameAt(buffer[i := octet], s)
  {
    var corrupted := buffer[i := octet];
    if i != s {
      var end := s + LengthAt(buffer, s) + FRAME_OVERHEAD;
      assert LengthAt(corrupted, s) == LengthAt(buffer, s);
      assert corrupted[s..end] == buffer[s..end][i - s := octet];
      ChangedOctetDetected(buffer[s..end], i - s, octet);
    }
  }

  /** So no scan of the corrupted buffer reports a message from that frame's start. */
  lemma CorruptedFrameNotReported(buffer: seq<bv8>, s: nat, i: nat, octet: bv8, offset: nat, advance: nat)
    requires advance >= FRAME_OVERHEAD
    requires ValidFrameAt(buffer, s)
    requires i == s || s + 3 <= i < s + LengthAt(buffer, s) + FRAME_OVERHEAD
    requires octet != buffer[i]
    requires ScanFrom(buffer[i := octet], offset, advance).Found?
    ensures s !in ScanFrom(buffer[i := octet], offset, advance).starts
  {
    CorruptedFrameRejected(buffer, s, i, octet);
    FoundFramesAreValid(buffer[i := octet], offset, advance);
  }

  // ---------------------------------------------------------------------------
  // Frames as an encoder writes them, and streams of frames.

  /**
   * The frame an encoder following RTCM 10403.x writes for `payload`: the
   * preamble, six reserved zero bits and a 10-bit length, the payload, then
   * the CRC-24Q of all of that, most significant byte first. The program has
   * no encoder; this one builds the frames the lemmas below scan.
   */
  function EncodeFrame(payload: seq<bv8>): (frame: seq<bv8>)
    requires |payload| < 1024
    ensures |frame| == |payload| + FRAME_OVERHEAD
  {
    var header := [EXPECTED_FIRST_BYTE, OctetOf(|payload| / 256), OctetOf(|payload| % 256)];
    header + payload + CrcBytes(Checksum(header + payload))
  }

  /**
   * The octet whose value is `n`, counted up from zero. It stands in for
   * `n as bv8`: a conversion from an unbounded integer to a bit-vector is
   * very expensive for the solver once it also checks proofs for
   * contradictory assumptions, while this recursion is cheap to reason about.
   */
  function OctetOf(n: nat): bv8
    requires n < 256
  {
    if n == 0 then 0 else OctetOf(n - 1) + 1
  }

  lemma {:induction false} OctetOfValue(n: nat)
    requires n < 256
    ensures OctetOf(n) as nat == n
  {
    if n > 0 {
      OctetOfValue(n - 1);
      OctetIncrement(OctetOf(n - 1));
    }
  }

  lemma OctetIncrement(b: bv8)
    requires b < 255
    ensures (b + 1) as nat == b as nat + 1
  {
  }

  /** The length field of an encoded frame reads back as the payload length. */
  lemma EncodedLength(payload: seq<bv8>, rest: seq<bv8>)
    requires |payload| < 1024
    ensures |EncodeFrame(payload) + rest| >= 3
    ensures LengthAt(EncodeFrame(payload) + rest, 0) == |payload|
  {
    var b := EncodeFrame(payload) + rest;
    FrameLengthIsBigEndian(b[1], b[2]);
    OctetOfValue(|payload| / 256);
    OctetOfValue(|payload| % 256);
    assert b[1] as nat == |payload| / 256;
    assert b[2] as nat == |payload| % 256;
  }

  /**
   * Round trip: an encoded frame, whatever follows it, is a valid frame at its
   * first byte, and its payload is the one encoded.
   */
  lemma EncodedFrameIsValid(payload: seq<bv8>, rest: seq<bv8>)
    requires |payload| < 1024
    ensures ValidFrameAt(EncodeFrame(payload) + rest, 0)
    ensures LengthAt(EncodeFrame(payload) + rest, 0) == |payload|
    ensures Payload(EncodeFrame(payload) + rest, 0) == payload
  {
    var b := EncodeFrame(payload) + rest;
    var header := [EXPECTED_FIRST_BYTE, OctetOf(|payload| / 256), OctetOf(|payload| % 256)];
    EncodedLength(payload, rest);
    ResidueIsZero(header + payload);
    assert b[0..|payload| + FRAME_OVERHEAD] == EncodeFrame(payload);
    assert b[3..3 + |payload|] == payload;
  }

  /** Offsets moved on by `n`. */
  function ShiftAll(starts: seq<nat>, n: nat): (shifted: seq<nat>)
    ensures |shifted| == |starts|
  {
    if starts == [] then [] else [starts[0] + n] + ShiftAll(starts[1..], n)
  }

  /** A scan result with every offset moved on by `n`. */
  function Shift(r: Scan, n: nat): Scan {
    match r
    case Found(starts, messages) => Found(ShiftAll(starts, n), messages)
    case Panicked(at) => Panicked(at + n)
  }

  /** The length field at a cursor is read from the bytes after the cursor only. */
  lemma PrefixKeepsLength(prefix: seq<bv8>, buffer: seq<bv8>, offset: nat)
    requires offset + 3 <= |buffer|
    ensures LengthAt(prefix + buffer, |prefix| + offset) == LengthAt(buffer, offset)
  {
    var b := prefix + buffer;
    var o := |prefix| + offset;
    assert b[o + 1] == buffer[offset + 1] && b[o + 2] == buffer[offset + 2];
  }

  /** The checks at a cursor look only at the bytes from the cursor on. */
  lemma PrefixKeepsChecks(prefix: seq<bv8>, buffer: seq<bv8>, offset: nat)
    requires offset < |buffer|
    ensures PanicsAt(prefix + buffer, |prefix| + offset) == PanicsAt(buffer, offset)
    ensures ValidFrameAt(prefix + buffer, |prefix| + offset) == ValidFrameAt(buffer, offset)
    ensures ValidFrameAt(buffer, offset) ==>
              LengthAt(prefix + buffer, |prefix| + offset) == LengthAt(buffer, offset)
              && Payload(prefix + buffer, |prefix| + offset) == Payload(buffer, offset)
  {
    var b := prefix + buffer;
    var o := |prefix| + offset;
    assert b[o] == buffer[offset];
    if offset + 3 <= |buffer| {
      PrefixKeepsLength(prefix, buffer, offset);
      var length := LengthAt(buffer, offset);
      if length + FRAME_OVERHEAD <= |buffer| - offset {
        FrameBytesAfterPrefix(prefix, buffer, offset, length);
      }
    }
  }

  lemma FrameBytesAfterPrefix(prefix: seq<bv8>, buffer: seq<bv8>, offset: nat, length: nat)
    requires offset + length + FRAME_OVERHEAD <= |buffer|
    ensures (prefix + buffer)[|prefix| + offset..|prefix| + offset + length + FRAME_OVERHEAD]
            == buffer[offset..offset + length + FRAME_OVERHEAD]
    ensures (prefix + buffer)[|prefix| + offset + 3..|prefix| + offset + 3 + length]
            == buffer[offset + 3..offset + 3 + length]
  {
  }

  /** What precedes the cursor does not matter: scanning after a prefix is scanning the rest, shifted. */
  lemma {:induction false} ScanAfterPrefix(prefix: seq<bv8>, buffer: seq<bv8>, offset: nat, advance: nat)
    requires advance >= FRAME_OVERHEAD
    ensures ScanFrom(prefix + buffer, |prefix| + offset, advance) == Shift(ScanFrom(buffer, offset, advance), |prefix|)
    decreases |buffer| - offset
  {
    if offset < |buffer| {
      var whole := prefix + buffer;
      var o := |prefix| + offset;
      PrefixKeepsChecks(prefix, buffer, offset);
      if !PanicsAt(buffer, offset) {
        var next := NextOffset(buffer, offset, advance);
        assert NextOffset(whole, o, advance) == |prefix| + next;
        ScanAfterPrefix(prefix, buffer, next, advance);
        var rest := ScanFrom(buffer, next, advance);
        if ValidFrameAt(buffer, offset) && rest.Found? {
          var m := [Rtcm3Message(Payload(buffer, offset))];
          assert ScanFrom(whole, o, advance) == Found([o] + Shift(rest, |prefix|).starts, m + rest.messages);
          assert ScanFrom(buffer, offset, advance) == Found([offset] + rest.starts, m + rest.messages);
          ShiftFound(offset, rest, m + rest.messages, |prefix|);
        } else {
          assert ScanFrom(whole, o, advance) == Shift(rest, |prefix|);
        }
      }
    }
  }

  lemma ShiftFound(offset: nat, rest: Scan, messages: seq<Rtcm3Message>, n: nat)
    requires rest.Found?
    ensures Shift(Found([offset] + rest.starts, messages), n) == Found([offset + n] + Shift(rest, n).starts, messages)
  {
    assert ([offset] + rest.starts)[1..] == rest.starts;
  }

  /** The bytes of frames for `payloads`, one after another with nothing between. */
  function Stream(payloads: seq<seq<bv8>>): (stream: seq<bv8>)
    requires forall i :: 0 <= i < |payloads| ==> |payloads[i]| < 1024
  {
    if payloads == [] then [] else EncodeFrame(payloads[0]) + Stream(payloads[1..])
  }

  /** The messages that carry `payloads`, in order. */
  function AsMessages(payloads: seq<seq<bv8>>): (messages: seq<Rtcm3Message>)
    ensures |messages| == |payloads|
  {
    if payloads == [] then [] else [Rtcm3Message(payloads[0])] + AsMessages(payloads[1..])
  }

  /**
   * With the cursor moved to the first byte after a frame, a stream of
   * frames back to back is read completely: every payload, in order.
   */
  lemma {:induction false} IntendedScanFindsEveryFrame(payloads: seq<seq<bv8>>)
    requires forall i :: 0 <= i < |payloads| ==> |payloads[i]| < 1024
    ensures ScanFrom(Stream(payloads), 0, INTENDED_ADVANCE).Found?
    ensures ScanFrom(Stream(payloads), 0, INTENDED_ADVANCE).messages == AsMessages(payloads)
  {
    if payloads != [] {
      IntendedScanFindsEveryFrame(payloads[1..]);
      IntendedScanReadsFirstFrame(payloads[0], Stream(payloads[1..]));
    }
  }

  /** With the intended step, a frame in front of a stream adds its payload in front of the messages. */
  lemma IntendedScanReadsFirstFrame(payload: seq<bv8>, rest: seq<bv8>)
    requires |payload| < 1024
    requires ScanFrom(rest, 0, INTENDED_ADVANCE).Found?
    ensures ScanFrom(EncodeFrame(payload) + rest, 0, INTENDED_ADVANCE).Found?
    ensures ScanFrom(EncodeFrame(payload) + rest, 0, INTENDED_ADVANCE).messages
            == [Rtcm3Message(payload)] + ScanFrom(rest, 0, INTENDED_ADVANCE).messages
  {
    var frame := EncodeFrame(payload);
    EncodedFrameIsValid(payload, rest);
    ScanAfterPrefix(frame, rest, 0, INTENDED_ADVANCE);
    assert NextOffset(frame + rest, 0, INTENDED_ADVANCE) == |frame| + 0;
  }

  /**
   * As written, the cursor lands on the second byte of a frame that follows
   * a good one directly, so that frame is lost: of two frames back to back,
   * when the second holds no other preamble byte, only the first is read.
   */
  lemma SourceScanDropsBackToBackFrame(first: seq<bv8>, second: seq<bv8>)
    requires |first| < 1024 && |second| < 1024
    requires forall i :: 1 <= i < |EncodeFrame(second)| ==> EncodeFrame(second)[i] != EXPECTED_FIRST_BYTE
    ensures ScanFrom(EncodeFrame(first) + EncodeFrame(second), 0, SOURCE_ADVANCE)
            == Found([0], [Rtcm3Message(first)])
  {
    var a := EncodeFrame(first);
    var b := a + EncodeFrame(second);
    EncodedFrameIsValid(first, EncodeFrame(second));
    assert NextOffset(b, 0, SOURCE_ADVANCE) == |a| + 1;
    forall i | |a| + 1 <= i < |b|
      ensures b[i] != EXPECTED_FIRST_BYTE
    {
      assert b[i] == EncodeFrame(second)[i - |a|];
    }
    NoPreambleNoMessages(b, |a| + 1, SOURCE_ADVANCE);
  }

  /** The smallest frame, an empty payload: D3 00 00 and the CRC bytes 47 EA 4B. */
  lemma EmptyFrameBytes()
    ensures EncodeFrame([]) == [0xD3, 0x00, 0x00, 0x47, 0xEA, 0x4B]
  {
    ChecksumOfEmptyFrameHeader();
    assert [EXPECTED_FIRST_BYTE, OctetOf(0 / 256), OctetOf(0 % 256)] + [] == [0xD3, 0, 0];
    assert CrcBytes(0x47_EA4B) == [0x47, 0xEA, 0x4B];
  }

  /**
   * Two empty frames back to back, D3 00 00 47 EA 4B D3 00 00 47 EA 4B: as
   * written the scan reads one message; with the cursor on the byte after
   * the first frame it reads both.
   */
  lemma BackToBackEmptyFrames()
    ensures ScanFrom(EncodeFrame([]) + EncodeFrame([]), 0, SOURCE_ADVANCE) == Found([0], [Rtcm3Message([])])
    ensures ScanFrom(EncodeFrame([]) + EncodeFrame([]), 0, INTENDED_ADVANCE).Found?
    ensures ScanFrom(EncodeFrame([]) + EncodeFrame([]), 0, INTENDED_ADVANCE).messages
            == [Rtcm3Message([]), Rtcm3Message([])]
  {
    EmptyFrameBytes();
    SourceScanDropsBackToBackFrame([], []);
    var payloads: seq<seq<bv8>> := [[], []];
    IntendedScanFindsEveryFrame(payloads);
    assert Stream(payloads) == EncodeFrame([]) + EncodeFrame([]);
    assert AsMessages(payloads) == [Rtcm3Message([]), Rtcm3Message([])];
  }
}
