/**
 * The NMEA 2000 vocabulary the PGN 128006 group-function handlers use:
 * bytes, the acknowledgment codes of PGN 126208 and the acknowledgment
 * envelope, and the message byte cursor the handlers read from.
 */
module N2k {

  datatype Option<T> = None | Some(value: T)

  /** uint8_t */
  type Byte = x: int | 0 <= x < 0x100

  /** int16_t */
  type Int16 = x: int | -0x8000 <= x < 0x8000

  /** The PGN the handlers serve: Thruster Control Status. */
  const ThrusterControlStatusPgn: nat := 128006

  /** The NMEA 2000 "data not available" raw values of a 1-byte unsigned and a 2-byte signed field. */
  const ByteNotAvailable: Byte := 0xFF
  const Int16NotAvailable: Int16 := 0x7FFF

  /** Per-pair acknowledgment codes (tN2kGroupFunctionParameterErrorCode) that the handlers emit. */
  datatype ParameterErrorCode =
    | Acknowledge                // N2kgfpec_Acknowledge
    | InvalidField               // N2kgfpec_InvalidRequestOrCommandParameterField
    | TemporarilyUnableToComply  // N2kgfpec_TemporarilyUnableToComply
    | ParameterOutOfRange        // N2kgfpec_RequestOrCommandParameterOutOfRange

  /** tN2kGroupFunctionTransmissionOrPriorityErrorCode */
  datatype TransmissionErrorCode =
    | TransmitAcknowledge                      // N2kgfTPec_Acknowledge
    | TransmitIntervalOrPriorityNotSupported   // N2kgfTPec_TransmitIntervalOrPriorityNotSupported
    | TransmitIntervalIsLessThanMeasurementInterval
    | TransmitAccessDenied
    | TransmitRequestNotSupported

  /** The PGN-level error code; both handlers always answer with N2kgfPGNec_Acknowledge. */
  datatype PgnErrorCode = PgnAcknowledge

  /**
   * The acknowledgment message as SetStartAcknowledge starts it and
   * AddAcknowledgeParameter extends it: its destination, the PGN, the
   * PGN-level and transmission/priority codes, the pair count announced in
   * its header, and the per-pair codes appended so far, in order.
   */
  datatype Ack = Ack(
    destination: Byte,
    pgn: nat,
    pgnError: PgnErrorCode,
    transmissionError: TransmissionErrorCode,
    declaredPairs: Byte,
    codes: seq<ParameterErrorCode>)

  /** SetStartAcknowledge: an acknowledgment addressed to `source` with no pair codes yet. */
  function StartAcknowledge(source: Byte, pec: TransmissionErrorCode, pairs: Byte): Ack
  {
    Ack(source, ThrusterControlStatusPgn, PgnAcknowledge, pec, pairs, [])
  }

  /** AddAcknowledgeParameter: append one pair code. */
  function AddAcknowledgeParameter(ack: Ack, code: ParameterErrorCode): Ack
  {
    ack.(codes := ack.codes + [code])
  }

  /**
   * tN2kMsg::GetByte: the byte under the cursor, and the cursor one past it;
   * past the end of the payload, the not-available byte and an unmoved cursor.
   * Get1ByteUDouble reads its raw byte the same way.
   */
  function GetByte(data: seq<Byte>, index: nat): (Byte, nat)
  {
    if index < |data| then (data[index], index + 1) else (ByteNotAvailable, index)
  }

  /** The byte GetByte would return at `index`, without the cursor. */
  function ByteAt(data: seq<Byte>, index: nat): Byte
  {
    GetByte(data, index).0
  }

  /** Two's-complement reading of a 16-bit unsigned value. */
  function ToInt16(u: nat): Int16
    requires u < 0x10000
  {
    if u < 0x8000 then u else u - 0x10000
  }

  /**
   * The raw little-endian int16 that Get2ByteDouble scales, and the cursor
   * two bytes on; with fewer than two bytes left, the not-available value
   * and an unmoved cursor.
   */
  function Get2ByteInt(data: seq<Byte>, index: nat): (Int16, nat)
  {
    if index + 2 <= |data| then (ToInt16(data[index] as int + 0x100 * data[index + 1] as int), index + 2)
    else (Int16NotAvailable, index)
  }

  /** The two little-endian bytes that carry a signed 16-bit value on the wire. */
  function EncodeInt16(v: Int16): (bytes: seq<Byte>)
    ensures |bytes| == 2
  {
    var u := if v < 0 then v + 0x10000 else v;
    [u % 0x100, u / 0x100]
  }

  /** Reading back the two bytes written for `v` yields `v` and moves the cursor past both. */
  lemma Int16RoundTrip(v: Int16, rest: seq<Byte>)
    ensures Get2ByteInt(EncodeInt16(v) + rest, 0) == (v, 2)
  {
  }
}
