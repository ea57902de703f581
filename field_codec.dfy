/**
 * The per-field decode rules HandleCommand applies to the value of one
 * (field-index, value) pair of a PGN 128006 command: which bytes each field
 * index takes from the cursor, which raw values it accepts, and what it
 * stages.
 */
module FieldCodec {
  import opened N2k

  /** N2kDD473, thruster direction control (field 3). */
  datatype ThrusterDirection = DirectionOff | ThrusterReady | ThrusterToPort | ThrusterToStarboard

  /** N2kDD002, generic on/off/error/unavailable status (field 4). */
  datatype OnOffStatus = Off | On | Error | Unavailable

  /** N2kDD474, thruster retract control (field 5). */
  datatype RetractControl = RetractOff | Extend | Retract

  /** The wire value of each direction. */
  function DirectionCode(d: ThrusterDirection): nat
  {
    match d
    case DirectionOff => 0
    case ThrusterReady => 1
    case ThrusterToPort => 2
    case ThrusterToStarboard => 3
  }

  /** The wire value of each on/off status. */
  function StatusCode(s: OnOffStatus): nat
  {
    match s
    case Off => 0
    case On => 1
    case Error => 2
    case Unavailable => 3
  }

  /** The wire value of each retract command. */
  function RetractCode(r: RetractControl): nat
  {
    match r
    case RetractOff => 0
    case Extend => 1
    case Retract => 2
  }

  /**
   * The value of one slot of the staging array (the PGN128006 field union).
   * Zero is the all-zero value every slot starts with; F08 keeps the raw
   * byte that Get1ByteUDouble would scale by 0.005, F09 the raw signed
   * 16-bit value that Get2ByteDouble would scale by 0.0001.
   */
  datatype FieldValue =
    | Zero
    | F02(identifier: Byte)
    | F03(direction: ThrusterDirection)
    | F04(power: OnOffStatus)
    | F05(retract: RetractControl)
    | F06(speed: Byte)
    | F07(events: Byte)
    | F08(timeout: Byte)
    | F09(azimuth: Int16)

  /** The field index whose slot a value belongs in. */
  function FieldNumber(v: FieldValue): nat
  {
    match v
    case Zero => 0
    case F02(_) => 2
    case F03(_) => 3
    case F04(_) => 4
    case F05(_) => 5
    case F06(_) => 6
    case F07(_) => 7
    case F08(_) => 8
    case F09(_) => 9
  }

  /** The field indices the command handler has a case for. */
  predicate IsSupportedField(field: Byte)
  {
    2 <= field <= 9
  }

  /** Bytes a supported field's value occupies on the wire. */
  function ValueWidth(field: Byte): nat
  {
    if field == 9 then 2 else 1
  }

  /** What one pair's value decoding produced: a value to stage, or the pair's error code. */
  datatype Outcome = Staged(value: FieldValue) | Rejected(code: ParameterErrorCode)

  /** The acknowledgment code of a pair with this outcome. */
  function CodeOf(o: Outcome): ParameterErrorCode
  {
    match o
    case Staged(_) => Acknowledge
    case Rejected(c) => c
  }

  /** Field 3: the low nibble of the byte, a direction when 0..3. */
  function DecodeDirection(b: Byte): Outcome
  {
    match b % 0x10
    case 0 => Staged(F03(DirectionOff))
    case 1 => Staged(F03(ThrusterReady))
    case 2 => Staged(F03(ThrusterToPort))
    case 3 => Staged(F03(ThrusterToStarboard))
    case _ => Rejected(ParameterOutOfRange)
  }

  /** Field 4: the low two bits of the byte; all four values name a status. */
  function DecodeStatus(b: Byte): Outcome
  {
    match b % 4
    case 0 => Staged(F04(Off))
    case 1 => Staged(F04(On))
    case 2 => Staged(F04(Error))
    case _ => Staged(F04(Unavailable))
  }

  /** Field 5: the low two bits of the byte, a retract command when 0..2. */
  function DecodeRetract(b: Byte): Outcome
  {
    match b % 4
    case 0 => Staged(F05(RetractOff))
    case 1 => Staged(F05(Extend))
    case 2 => Staged(F05(Retract))
    case _ => Rejected(ParameterOutOfRange)
  }

  /**
   * The switch on the field index in HandleCommand, applied to the value at
   * cursor `index`: the outcome and the cursor after the value. An index
   * outside 2..9 reads nothing.
   */
  function DecodeValue(field: Byte, data: seq<Byte>, index: nat): (r: (Outcome, nat))
    // Only indices outside 2..9 are invalid fields, and they consume nothing.
    ensures r.0 == Rejected(InvalidField) <==> !IsSupportedField(field)
    ensures !IsSupportedField(field) ==> r.1 == index
    // A supported field takes its fixed width when the payload holds it, and never more.
    ensures IsSupportedField(field) && index + ValueWidth(field) <= |data| ==> r.1 == index + ValueWidth(field)
    ensures index <= r.1 <= index + ValueWidth(field)
    // A staged value always belongs in the slot of the field it was read for.
    ensures r.0.Staged? ==> FieldNumber(r.0.value) == field
    // Only the enumerated fields 3 and 5 can be out of range; nothing else is ever reported.
    ensures r.0 == Rejected(ParameterOutOfRange) ==> field == 3 || field == 5
    ensures r.0.Rejected? ==> r.0.code == InvalidField || r.0.code == ParameterOutOfRange
  {
    var (b, next) := GetByte(data, index);
    match field
    case 2 => (Staged(F02(b)), next)
    case 3 => (DecodeDirection(b), next)
    case 4 => (DecodeStatus(b), next)
    case 5 => (DecodeRetract(b), next)
    case 6 => (Staged(F06(b)), next)
    case 7 => (Staged(F07(b)), next)
    case 8 => (Staged(F08(b)), next)
    case 9 =>
      var (v, next2) := Get2ByteInt(data, index);
      (Staged(F09(v)), next2)
    case _ => (Rejected(InvalidField), index)
  }

  /**
   * Field 3 accepts exactly the low nibbles 0..3 and stages the direction
   * whose wire value is that nibble; any other nibble is out of range.
   */
  lemma Field3Rule(data: seq<Byte>, index: nat)
    ensures var o := DecodeValue(3, data, index).0;
            (o.Staged? <==> ByteAt(data, index) % 0x10 < 4) &&
            (o.Staged? ==> o.value.F03? && DirectionCode(o.value.direction) == ByteAt(data, index) % 0x10) &&
            (o.Rejected? ==> o.code == ParameterOutOfRange)
  {
  }

  /** Field 4 accepts every byte and stages the status whose wire value is its low two bits. */
  lemma Field4Rule(data: seq<Byte>, index: nat)
    ensures var o := DecodeValue(4, data, index).0;
            o.Staged? && o.value.F04? && StatusCode(o.value.power) == ByteAt(data, index) % 4
  {
  }

  /**
   * Field 5 accepts exactly the low two-bit values 0..2 and stages the
   * retract command whose wire value they are; the value 3 is out of range.
   */
  lemma Field5Rule(data: seq<Byte>, index: nat)
    ensures var o := DecodeValue(5, data, index).0;
            (o.Staged? <==> ByteAt(data, index) % 4 != 3) &&
            (o.Staged? ==> o.value.F05? && RetractCode(o.value.retract) == ByteAt(data, index) % 4) &&
            (o.Rejected? ==> o.code == ParameterOutOfRange)
  {
  }

  /** Fields 2, 6, 7 and 8 stage the raw byte they read, whatever it is. */
  lemma RawByteFieldsRule(field: Byte, b: Byte, rest: seq<Byte>)
    requires field == 2 || field == 6 || field == 7 || field == 8
    ensures var r := DecodeValue(field, [b] + rest, 0);
            r.1 == 1 && r.0.Staged? && r.0.value == (match field
                                                     case 2 => F02(b)
                                                     case 6 => F06(b)
                                                     case 7 => F07(b)
                                                     case _ => F08(b))
  {
  }

  /** Field 9 stages the signed 16-bit value its two little-endian bytes encode. */
  lemma Field9RoundTrip(v: Int16, rest: seq<Byte>)
    ensures DecodeValue(9, EncodeInt16(v) + rest, 0) == (Staged(F09(v)), 2)
  {
    Int16RoundTrip(v, rest);
  }

  /** Every direction survives being written as its wire value and decoded as field 3. */
  lemma DirectionRoundTrip(d: ThrusterDirection, rest: seq<Byte>)
    ensures DecodeValue(3, [DirectionCode(d)] + rest, 0) == (Staged(F03(d)), 1)
  {
  }

  /** Every status survives being written as its wire value and decoded as field 4. */
  lemma StatusRoundTrip(s: OnOffStatus, rest: seq<Byte>)
    ensures DecodeValue(4, [StatusCode(s)] + rest, 0) == (Staged(F04(s)), 1)
  {
  }

  /** Every retract command survives being written as its wire value and decoded as field 5. */
  lemma RetractRoundTrip(r: RetractControl, rest: seq<Byte>)
    ensures DecodeValue(5, [RetractCode(r)] + rest, 0) == (Staged(F05(r)), 1)
  {
  }
}
