/**
 * `APRSListener.handle_packet`: how one parsed frame becomes the arguments
 * of a passive check, or an error that drops the frame.
 *
 * The information field is matched in a fixed order, first match wins:
 *  1. a position report;
 *  2. a telemetry field (`T`) whose comment starts with `#`: the comment
 *     `#seq,a0,...,an,bits` gives `telem_*` metrics (chapter 13 of APRS 1.0.1);
 *  3. a station-capabilities field (`<`) whose comment starts with `IGATE,`:
 *     an IGate status beacon whose remaining tokens are passed on as metrics;
 *  4. any other information field.
 * In every branch the message is the whole comment decoded as ASCII.
 */
module Classifier {
  import opened Wrappers
  import opened Aprs
  import opened Ascii
  import opened Strings
  import opened CheckSubmitter

  /** The four arms of the match, in the order they are tried. */
  datatype Branch = PositionBranch | TelemetryBranch | IgateStatusBranch | GenericBranch

  /** The comment prefixes `b"#"` and `b"IGATE,"`. */
  const TELEMETRY_TAG: seq<Byte> := Encode("#")
  const IGATE_TAG: seq<Byte> := Encode("IGATE,")

  /**
   * Which arm a field takes. Every field takes exactly one arm; a position
   * report always takes the first, whatever its comment; each special arm
   * needs both its data type and its comment prefix; everything else, such
   * as a telemetry field without `#`, falls through to the generic arm.
   */
  function Classify(info: Info): (b: Branch)
    ensures b == PositionBranch <==> info.PositionReport?
    ensures b == TelemetryBranch <==>
      info.InformationField? && info.dataType == TELEMETRY_DATA && TELEMETRY_TAG <= info.comment
    ensures b == IgateStatusBranch <==>
      info.InformationField? && info.dataType == STATION_CAPABILITIES && IGATE_TAG <= info.comment
    ensures b == GenericBranch <==>
      && info.InformationField?
      && !(info.dataType == TELEMETRY_DATA && TELEMETRY_TAG <= info.comment)
      && !(info.dataType == STATION_CAPABILITIES && IGATE_TAG <= info.comment)
  {
    match info
    case PositionReport(_, _, _) => PositionBranch
    case InformationField(dataType, comment) =>
      if dataType == TELEMETRY_DATA && TELEMETRY_TAG <= comment then TelemetryBranch
      else if dataType == STATION_CAPABILITIES && IGATE_TAG <= comment then IgateStatusBranch
      else GenericBranch
  }

  /** The two ways `handle_packet` raises instead of submitting a check. */
  datatype HandleError =
    | NonAsciiComment       // `UnicodeDecodeError` from `comment.decode("ascii")`
    | TelemetryUnpackError  // `ValueError` from `seq, *analog, bits = ...` with fewer than two fields

  /** The label telemetry field `k` of `n` gets: `telem_seq`, `telem_analog<i>`, `telem_bits`. */
  function TelemetryLabel(k: nat, n: nat): string
  {
    if k == 0 then "telem_seq"
    else if k == n - 1 then "telem_bits"
    else "telem_analog" + NatToString(k - 1)
  }

  /**
   * The metrics of the comma-separated telemetry fields: the first field is
   * the sequence number, the last the digital bits, those between the analog
   * values numbered from 0.
   */
  function TelemetryMetrics(fields: seq<string>): (metrics: seq<string>)
    requires |fields| >= 2
    ensures |metrics| == |fields|
  {
    var analog := fields[1..|fields| - 1];
    ["telem_seq=" + fields[0]]
    + seq(|analog|, idx requires 0 <= idx < |analog| => "telem_analog" + NatToString(idx) + "=" + analog[idx])
    + ["telem_bits=" + fields[|fields| - 1]]
  }

  /** One metric per field, in field order, each the field's label, `=`, and the field verbatim. */
  lemma TelemetryMetricsFields(fields: seq<string>)
    requires |fields| >= 2
    ensures |TelemetryMetrics(fields)| == |fields|
    ensures forall k :: 0 <= k < |fields| ==>
      TelemetryMetrics(fields)[k] == TelemetryLabel(k, |fields|) + "=" + fields[k]
  {
    var n := |fields|;
    var m := TelemetryMetrics(fields);
    forall k | 0 <= k < n ensures m[k] == TelemetryLabel(k, n) + "=" + fields[k] {
      if 0 < k < n - 1 {
        assert m[k] == "telem_analog" + NatToString(k - 1) + "=" + fields[1..n - 1][k - 1];
      }
    }
  }

  /** The part of a `label=value` metric before its first `=`. */
  function MetricLabel(metric: string): string
  {
    metric[..IndexOf(metric, '=')]
  }

  /** The part of a `label=value` metric after its first `=`. */
  function MetricValue(metric: string): string
  {
    var i := IndexOf(metric, '=');
    if i < |metric| then metric[i + 1..] else ""
  }

  lemma MetricParts(name: string, value: string)
    requires '=' !in name
    ensures MetricLabel(name + "=" + value) == name
    ensures MetricValue(name + "=" + value) == value
  {
    IndexOfAfter(name, '=', value);
    assert name + "=" + value == name + ['='] + value;
  }

  lemma {:induction false} LabelHasNoEquals(k: nat, n: nat)
    ensures '=' !in TelemetryLabel(k, n)
  {
    if k != 0 && k != n - 1 {
      var digits := NatToString(k - 1);
      assert "telem_analog" + digits == TelemetryLabel(k, n);
      forall j | 0 <= j < |digits| ensures digits[j] != '=' {
        assert '0' <= digits[j] <= '9';
      }
    }
  }

  /** No two fields of one telemetry report get the same label. */
  lemma TelemetryLabelsDistinct(i: nat, j: nat, n: nat)
    requires i < j < n
    ensures TelemetryLabel(i, n) != TelemetryLabel(j, n)
  {
    var li, lj := TelemetryLabel(i, n), TelemetryLabel(j, n);
    if i != 0 && j != n - 1 {
      var prefix := "telem_analog";
      assert li[|prefix|..] == NatToString(i - 1);
      assert lj[|prefix|..] == NatToString(j - 1);
      if li == lj {
        NatToStringInjective(i - 1, j - 1);
      }
    } else {
      // "telem_seq", "telem_analog..." and "telem_bits" differ at index 6.
      assert li[6] != lj[6];
    }
  }

  /**
   * Read back as `label=value` pairs, the telemetry metrics carry every field
   * verbatim under a label of its own: no two metrics share a label.
   */
  lemma TelemetryMetricsReadBack(fields: seq<string>)
    requires |fields| >= 2
    ensures |TelemetryMetrics(fields)| == |fields|
    ensures forall k :: 0 <= k < |fields| ==> MetricValue(TelemetryMetrics(fields)[k]) == fields[k]
    ensures forall i, j :: 0 <= i < j < |fields| ==>
      MetricLabel(TelemetryMetrics(fields)[i]) != MetricLabel(TelemetryMetrics(fields)[j])
  {
    var n := |fields|;
    var m := TelemetryMetrics(fields);
    TelemetryMetricsFields(fields);
    forall k | 0 <= k < n
      ensures MetricValue(m[k]) == fields[k] && MetricLabel(m[k]) == TelemetryLabel(k, n)
    {
      LabelHasNoEquals(k, n);
      MetricParts(TelemetryLabel(k, n), fields[k]);
    }
    forall i, j | 0 <= i < j < n ensures MetricLabel(m[i]) != MetricLabel(m[j]) {
      TelemetryLabelsDistinct(i, j, n);
    }
  }

  /** The position and generic arms: the decoded comment, no performance data. */
  function PlainCheck(source: Callsign, comment: seq<Byte>): (r: Result<CheckResult, HandleError>)
    ensures r.Success? <==> IsAscii(comment)
    ensures r.Failure? ==> r.error == NonAsciiComment
    ensures r.Success? ==> r.value.callsign == source && r.value.performanceData.None?
    ensures r.Success? ==> |r.value.message| == |comment|
  {
    match Decode(comment)
    case None => Failure(NonAsciiComment)
    case Some(message) => Success(CheckResult(source, message, None))
  }

  /** The telemetry arm, for a comment that starts with `#`. */
  function TelemetryCheck(source: Callsign, comment: seq<Byte>): (r: Result<CheckResult, HandleError>)
    requires |comment| >= 1
    ensures r.Success? ==> IsAscii(comment) && r.value.callsign == source && Decode(comment) == Some(r.value.message)
    ensures r.Success? ==> r.value.performanceData.Some? && |r.value.performanceData.value| >= 2
    ensures r == Failure(TelemetryUnpackError) ==> IsAscii(comment[1..]) && ',' !in Decode(comment[1..]).value
  {
    match Decode(comment[1..])
    case None => Failure(NonAsciiComment)
    case Some(body) =>
      var fields := Split(body, ',');
      if |fields| < 2 then
        Failure(TelemetryUnpackError)
      else
        match Decode(comment)
        case None => Failure(NonAsciiComment)
        case Some(message) => Success(CheckResult(source, message, Some(TelemetryMetrics(fields))))
  }

  /** The IGate status-beacon arm: every comma-separated token after the first. */
  function IgateCheck(source: Callsign, comment: seq<Byte>): (r: Result<CheckResult, HandleError>)
    ensures r.Success? <==> IsAscii(comment)
    ensures r.Failure? ==> r.error == NonAsciiComment
    ensures r.Success? ==> r.value.callsign == source && Decode(comment) == Some(r.value.message)
    ensures r.Success? ==> r.value.performanceData.Some?
    ensures r.Success? ==> forall k :: 0 <= k < |r.value.performanceData.value| ==> ',' !in r.value.performanceData.value[k]
  {
    match Decode(comment)
    case None => Failure(NonAsciiComment)
    case Some(message) => Success(CheckResult(source, message, Some(Split(message, ',')[1..])))
  }

  /** `handle_packet` up to the `submit_check` call: the check to submit, or why the frame is dropped. */
  function HandlePacket(packet: Packet): (r: Result<CheckResult, HandleError>)
    ensures r.Success? ==> r.value.callsign == packet.source
    ensures r.Success? ==> Decode(packet.info.comment) == Some(r.value.message)
  {
    var comment := packet.info.comment;
    match Classify(packet.info)
    case PositionBranch => PlainCheck(packet.source, comment)
    case TelemetryBranch => TelemetryCheck(packet.source, comment)
    case IgateStatusBranch => IgateCheck(packet.source, comment)
    case GenericBranch => PlainCheck(packet.source, comment)
  }

  /** A comment with a byte outside ASCII is an error in every arm; nothing is coerced. */
  lemma HandleNonAscii(packet: Packet)
    requires !IsAscii(packet.info.comment)
    ensures HandlePacket(packet) == Failure(NonAsciiComment)
  {
    var comment := packet.info.comment;
    if Classify(packet.info) == TelemetryBranch {
      DecodeTail(comment);
    }
  }

  /**
   * A position report or a generic information field with an ASCII comment
   * gives the decoded comment as message and no performance data.
   */
  lemma PlainPacket(packet: Packet)
    requires Classify(packet.info) == PositionBranch || Classify(packet.info) == GenericBranch
    requires IsAscii(packet.info.comment)
    ensures HandlePacket(packet) == Success(CheckResult(packet.source, Decode(packet.info.comment).value, None))
  {
  }

  /**
   * A telemetry comment `#f0,f1,...,fk` with k >= 1 gives exactly k+1 metrics
   * in field order: `telem_seq=f0`, `telem_analog0=f1`, ...,
   * `telem_analog{k-2}=f{k-1}`, `telem_bits=fk`; the message is the whole
   * comment, `#` included.
   */
  lemma TelemetryPacket(packet: Packet, fields: seq<string>)
    requires packet.info.InformationField? && packet.info.dataType == TELEMETRY_DATA
    requires |fields| >= 2 && forall k :: 0 <= k < |fields| ==> ',' !in fields[k]
    requires Decode(packet.info.comment) == Some("#" + Join(',', fields))
    ensures HandlePacket(packet).Success?
    ensures HandlePacket(packet).value.message == "#" + Join(',', fields)
    ensures HandlePacket(packet).value.performanceData.Some?
    ensures |HandlePacket(packet).value.performanceData.value| == |fields|
    ensures forall k :: 0 <= k < |fields| ==>
      HandlePacket(packet).value.performanceData.value[k] == TelemetryLabel(k, |fields|) + "=" + fields[k]
  {
    var text := "#" + Join(',', fields);
    TelemetryClassified(packet.info, text);
    TelemetryDispatch(packet);
    TelemetryArm(packet.source, packet.info.comment, fields);
    TelemetryMetricsFields(fields);
  }

  lemma TelemetryClassified(info: Info, text: string)
    requires info.InformationField? && info.dataType == TELEMETRY_DATA
    requires Decode(info.comment) == Some(text) && |text| >= 1 && text[0] == '#'
    ensures Classify(info) == TelemetryBranch
  {
    assert info.comment[0] == TELEMETRY_TAG[0];
    assert TELEMETRY_TAG <= info.comment;
  }

  lemma TelemetryDispatch(packet: Packet)
    requires Classify(packet.info) == TelemetryBranch
    ensures |packet.info.comment| >= 1
    ensures HandlePacket(packet) == TelemetryCheck(packet.source, packet.info.comment)
  {
  }

  lemma TelemetryArm(source: Callsign, comment: seq<Byte>, fields: seq<string>)
    requires |fields| >= 2 && forall k :: 0 <= k < |fields| ==> ',' !in fields[k]
    requires Decode(comment) == Some("#" + Join(',', fields))
    ensures |comment| >= 1
    ensures TelemetryCheck(source, comment) == Success(CheckResult(source, "#" + Join(',', fields), Some(TelemetryMetrics(fields))))
  {
    var text := "#" + Join(',', fields);
    assert Decode(comment[1..]) == Some(Join(',', fields)) by {
      DecodeTail(comment);
      assert text[1..] == Join(',', fields);
    }
    SplitJoin(',', fields);
  }

  /**
   * A telemetry comment is dropped with an unpacking error exactly when it
   * has no comma, that is fewer than two fields after the `#` (`#`, `#5`).
   */
  lemma TelemetryTooFewFields(packet: Packet)
    requires Classify(packet.info) == TelemetryBranch && IsAscii(packet.info.comment)
    ensures HandlePacket(packet).Failure? <==> ',' !in Decode(packet.info.comment).value
    ensures HandlePacket(packet).Failure? ==> HandlePacket(packet).error == TelemetryUnpackError
  {
    var comment := packet.info.comment;
    DecodeTail(comment);
    var text := Decode(comment).value;
    var body := Decode(comment[1..]).value;
    assert text == ['#'] + body;
    assert ',' in text <==> ',' in body;
  }

  /**
   * An IGate status beacon `IGATE,t1,...,tn` gives the tokens after the tag,
   * verbatim and in order: at least one, none holding a comma, and `IGATE`
   * joined with them by commas is the whole comment again.
   */
  lemma IgatePacket(packet: Packet)
    requires Classify(packet.info) == IgateStatusBranch && IsAscii(packet.info.comment)
    ensures HandlePacket(packet).Success?
    ensures HandlePacket(packet).value.performanceData.Some?
    ensures |HandlePacket(packet).value.performanceData.value| >= 1
    ensures forall k :: 0 <= k < |HandlePacket(packet).value.performanceData.value| ==>
      ',' !in HandlePacket(packet).value.performanceData.value[k]
    ensures Join(',', ["IGATE"] + HandlePacket(packet).value.performanceData.value)
      == HandlePacket(packet).value.message
  {
    var text := Decode(packet.info.comment).value;
    DecodedStartsWith(packet.info.comment, "IGATE,");
    assert "IGATE" + [','] == "IGATE,";
    SplitHead(text, ',', "IGATE");
    var parts := Split(text, ',');
    assert parts == ["IGATE"] + parts[1..];
  }

  /** The bare tag `IGATE,` gives a single empty token. */
  lemma IgateTagAlone(packet: Packet)
    requires packet.info.InformationField? && packet.info.dataType == STATION_CAPABILITIES
    requires packet.info.comment == IGATE_TAG
    ensures HandlePacket(packet) == Success(CheckResult(packet.source, "IGATE,", Some([""])))
  {
    DecodeEncode("IGATE,");
    assert Classify(packet.info) == IgateStatusBranch;
    var parts := ["IGATE", ""];
    assert Join(',', parts) == "IGATE" + [','] + "" == "IGATE,";
    SplitJoin(',', parts);
    assert Split("IGATE,", ',') == parts;
    assert HandlePacket(packet) == IgateCheck(packet.source, IGATE_TAG);
  }

  lemma ExampleMetrics(fields: seq<string>)
    requires fields == ["005", "099", "128", "00000000"]
    ensures TelemetryMetrics(fields) == ["telem_seq=005", "telem_analog0=099", "telem_analog1=128", "telem_bits=00000000"]
  {
    var m := TelemetryMetrics(fields);
    TelemetryMetricsFields(fields);
    assert NatToString(0) == "0" && NatToString(1) == "1";
    assert m[0] == "telem_seq" + "=" + "005" == "telem_seq=005";
    assert m[1] == "telem_analog" + "0" + "=" + "099" == "telem_analog0=099";
    assert m[2] == "telem_analog" + "1" + "=" + "128" == "telem_analog1=128";
    assert m[3] == "telem_bits" + "=" + "00000000" == "telem_bits=00000000";
  }

  lemma ExampleJoin(fields: seq<string>)
    requires fields == ["005", "099", "128", "00000000"]
    ensures "#" + Join(',', fields) == "#005,099,128,00000000"
  {
    var tail := fields[1..][1..];
    assert tail == ["128", "00000000"] && tail[1..] == ["00000000"];
    assert Join(',', tail) == "128" + [','] + "00000000";
    assert Join(',', fields[1..]) == "099" + [','] + Join(',', tail);
    assert Join(',', fields) == "005" + [','] + Join(',', fields[1..]);
  }

  lemma ExampleFields(fields: seq<string>)
    requires fields == ["005", "099", "128", "00000000"]
    ensures forall k :: 0 <= k < |fields| ==> ',' !in fields[k]
  {
    forall k | 0 <= k < |fields| ensures ',' !in fields[k] {
      assert forall j :: 0 <= j < |fields[k]| ==> '0' <= fields[k][j] <= '9';
    }
  }

  lemma ExampleAscii(text: string)
    requires text == "#005,099,128,00000000"
    ensures IsAsciiText(text) && Decode(Encode(text)) == Some(text)
  {
    DecodeEncode(text);
  }

  /** The comment `#005,099,128,00000000` gives the four `telem_*` metrics. */
  lemma TelemetryExample(packet: Packet)
    requires packet.info == InformationField(TELEMETRY_DATA, Encode("#005,099,128,00000000"))
    ensures HandlePacket(packet) == Success(CheckResult(packet.source, "#005,099,128,00000000",
      Some(["telem_seq=005", "telem_analog0=099", "telem_analog1=128", "telem_bits=00000000"])))
  {
    var fields := ["005", "099", "128", "00000000"];
    var text := "#005,099,128,00000000";
    ExampleJoin(fields);
    ExampleFields(fields);
    ExampleAscii(text);
    TelemetryClassified(packet.info, text);
    TelemetryDispatch(packet);
    TelemetryArm(packet.source, packet.info.comment, fields);
    ExampleMetrics(fields);
  }

  lemma IgateExampleSplit(parts: seq<string>)
    requires parts == ["IGATE", "RF=0", "DIR=1"]
    ensures Split("IGATE,RF=0,DIR=1", ',') == parts
  {
    var tail := parts[1..];
    assert tail == ["RF=0", "DIR=1"] && tail[1..] == ["DIR=1"];
    assert Join(',', tail) == "RF=0" + [','] + "DIR=1";
    assert Join(',', parts) == "IGATE" + [','] + Join(',', tail);
    assert Join(',', parts) == "IGATE,RF=0,DIR=1";
    SplitJoin(',', parts);
  }

  /** The beacon `IGATE,RF=0,DIR=1` gives the metrics `RF=0` and `DIR=1`. */
  lemma IgateExample(packet: Packet)
    requires packet.info == InformationField(STATION_CAPABILITIES, Encode("IGATE,RF=0,DIR=1"))
    ensures HandlePacket(packet) == Success(CheckResult(packet.source, "IGATE,RF=0,DIR=1", Some(["RF=0", "DIR=1"])))
  {
    var text := "IGATE,RF=0,DIR=1";
    assert "IGATE," <= text;
    EncodePrefix("IGATE,", text);
    assert Classify(packet.info) == IgateStatusBranch;
    DecodeEncode(text);
    assert HandlePacket(packet) == IgateCheck(packet.source, Encode(text));
    var parts := ["IGATE", "RF=0", "DIR=1"];
    IgateExampleSplit(parts);
    assert parts[1..] == ["RF=0", "DIR=1"];
  }
}
