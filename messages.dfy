/**
 * RTCM3 messages and their classification.
 *
 * A message is the payload of a frame. Its first 12 bits are the message
 * number: the whole first byte followed by the high nibble of the second.
 * `GetType` names the numbers the program knows and keeps any other number
 * in `Unknown`.
 */
module Messages {

  /** The preamble byte that opens every RTCM3 frame (binary 11010011). */
  const EXPECTED_FIRST_BYTE: bv8 := 0xD3

  /** The payload of one frame, header and CRC removed. */
  datatype Rtcm3Message = Rtcm3Message(raw: seq<bv8>)

  datatype MessageType =
    | Unknown(val: bv16)
    | StationaryRTKReferenceStationARPWithAntennaHeight
    | AntennaDescriptorAndSerialNumber
    | ReceiverWithAntennaDescriptors
    | GPSExtendedL1AndL2RTKObservables
    | GPSMSM7
    | BeiDouEphemeris
    | BeiDouMSM7
    | GalileoEphemeris
    | GalileoMSM7
    | GLONASSMSM7
    | GLONASSL1AndL2CodePhaseBiases
    | QZSSMSM7

  /** The message numbers that have a named type. */
  const KNOWN_NUMBERS: set<bv16> :=
    {1004, 1042, 1046, 1127, 1077, 1087, 1117, 1097, 1006, 1008, 1033, 1230}

  /** The message number a type stands for; an unknown type carries its own. */
  function Number(t: MessageType): bv16 {
    match t
    case Unknown(val) => val
    case StationaryRTKReferenceStationARPWithAntennaHeight => 1006
    case AntennaDescriptorAndSerialNumber => 1008
    case ReceiverWithAntennaDescriptors => 1033
    case GPSExtendedL1AndL2RTKObservables => 1004
    case GPSMSM7 => 1077
    case BeiDouEphemeris => 1042
    case BeiDouMSM7 => 1127
    case GalileoEphemeris => 1046
    case GalileoMSM7 => 1097
    case GLONASSMSM7 => 1087
    case GLONASSL1AndL2CodePhaseBiases => 1230
    case QZSSMSM7 => 1117
  }

  /**
   * The 12-bit message number at the start of a payload: the first byte
   * shifted up by four, ORed with the second byte shifted down by four.
   */
  function MessageNumber(raw: seq<bv8>): (n: bv16)
    requires |raw| >= 2
    ensures n == (raw[0] as bv16) * 16 + (raw[1] as bv16) / 16
    ensures n < 4096
  {
    ((raw[0] as bv16) << 4) | ((raw[1] as bv16) >> 4)
  }

  /** The type of a message, from its message number. */
  function GetType(msg: Rtcm3Message): (t: MessageType)
    requires |msg.raw| >= 2
    ensures Number(t) == MessageNumber(msg.raw)
    ensures t.Unknown? <==> MessageNumber(msg.raw) !in KNOWN_NUMBERS
  {
    var msgtype := MessageNumber(msg.raw);
    match msgtype
    case 1004 => GPSExtendedL1AndL2RTKObservables
    case 1042 => BeiDouEphemeris
    case 1046 => GalileoEphemeris
    case 1127 => BeiDouMSM7
    case 1077 => GPSMSM7
    case 1087 => GLONASSMSM7
    case 1117 => QZSSMSM7
    case 1097 => GalileoMSM7
    case 1006 => StationaryRTKReferenceStationARPWithAntennaHeight
    case 1008 => AntennaDescriptorAndSerialNumber
    case 1033 => ReceiverWithAntennaDescriptors
    case 1230 => GLONASSL1AndL2CodePhaseBiases
    case _ => Unknown(msgtype)
  }

  /** The two leading payload bytes that carry message number `n`, reserved bits zero. */
  function NumberHeader(n: bv16): (h: seq<bv8>)
    requires n < 4096
    ensures |h| == 2
  {
    [(n >> 4) as bv8, ((n & 0xF) << 4) as bv8]
  }

  /** Reading back a message number written into a payload's header gives that number. */
  lemma MessageNumberOfHeader(n: bv16, rest: seq<bv8>)
    requires n < 4096
    ensures MessageNumber(NumberHeader(n) + rest) == n
  {
  }

  /**
   * Every type the program can produce is recovered from a payload that starts
   * with its number: each known number selects its own named type, and every
   * other 12-bit number comes back as `Unknown` with that number.
   */
  lemma GetTypeOfHeader(t: MessageType, rest: seq<bv8>)
    requires Number(t) < 4096
    requires t.Unknown? ==> t.val !in KNOWN_NUMBERS
    ensures GetType(Rtcm3Message(NumberHeader(Number(t)) + rest)) == t
  {
    MessageNumberOfHeader(Number(t), rest);
  }
}
