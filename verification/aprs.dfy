/**
 * What the APRS-IS parser hands the bridge for one received frame: the
 * source callsign and the parsed information field. Only the shape the
 * bridge inspects is kept: whether the field is a position report, its
 * data-type identifier and its comment bytes.
 */
module Aprs {
  import opened Ascii

  /** A station identifier such as `W1FN-10`, as the parser renders it. */
  type Callsign = string

  /**
   * The data-type identifier, the first character of an APRS information
   * field (chapter 5 of the APRS 1.0.1 protocol specification).
   */
  datatype DataType = DataType(identifier: char)

  /** `T`: telemetry data (chapter 13 of APRS 1.0.1). */
  const TELEMETRY_DATA := DataType('T')
  /** `<`: station capabilities, the field an IGate's status beacon uses. */
  const STATION_CAPABILITIES := DataType('<')

  /** A decoded position; the bridge never reads it. */
  datatype Position = Position(latitude: int, longitude: int)

  /**
   * The parsed information field. A position report is an information field
   * of its own kind, so it too carries a data type and a comment.
   */
  datatype Info =
    | PositionReport(dataType: DataType, position: Position, comment: seq<Byte>)
    | InformationField(dataType: DataType, comment: seq<Byte>)

  datatype Packet = Packet(source: Callsign, info: Info)
}
