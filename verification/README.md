# check_aprs in Dafny

A model of `check_aprs`, a daemon that bridges APRS-IS (the internet relay
network of the Automatic Packet Reporting System) to Icinga 2 passive checks.
For every monitored station the daemon hears, it submits an `OK` result for
that station's `aprsis` service, with the station's comment as the message
and, for telemetry and IGate status beacons, performance data built from
the comment.

What the model covers:

- **Classification** (`Classifier`). The parsed information field is either a
  position report or a plain information field with a data-type identifier and
  comment bytes (`Aprs`). It is matched in a fixed order:
  1. position report;
  2. telemetry (`T`) with a `#` comment;
  3. station capabilities (`<`) with an `IGATE,` comment;
  4. anything else.

  Each arm gives the arguments of one `submit_check` call (`CheckResult`), or
  an error that drops the frame. The two errors are a non-ASCII comment and a
  telemetry comment too short for `seq, *analog, bits`.
- **Check request** (`CheckSubmitter`). This is the JSON body of the "process
  check result" request as a map, with `performance_data` present exactly when
  metrics were given. `ReadCheckRequest`, the model's own inverse of that body,
  recovers the arguments from it.
- **Start-up and packet loop** (`Listener`):
  - an empty callsign list means no connection;
  - otherwise the login carries the APRS-IS budlist filter `filter b/<cs1>/<cs2>/...`;
  - each received packet becomes one task.

  The packet stream is a finite sequence parameter. Because the tasks complete
  in no fixed order, the submitted checks are a multiset.
- **Fingerprint option** (`Fingerprint`). Colons are removed and the rest is read
  by a model of `bytes.fromhex` (`Hex`). Like CPython, that model also skips
  ASCII whitespace before a hex pair.
- Supporting models of Python built-ins: `str.split`/`str.join`/`str.replace`/
  `str(n)` (`Strings`), and strict ASCII decoding (`Ascii`).

Two details the model keeps from the code:

- The monitored callsigns are the list the backend returns, not a set. Its order is the order of the budlist filter, and duplicates are kept.
- A frame that fails classification is not explicitly logged. The exception ends that packet's task and nothing is submitted for it. The model records the frame as dropped.

## Model

| member | source | states |
|---|---|---|
| `Classifier.Classify` | check_aprs.py:48-73 | exactly one arm per field; a position report always takes the position arm; the telemetry arm needs data type `T` and a leading `#`, the IGate arm data type `<` and a leading `IGATE,`; everything else, such as `T` without `#`, is generic |
| `Classifier.HandlePacket` | check_aprs.py:46-73 | a submitted check is for the packet's source and its message is the whole comment decoded as ASCII, in every arm |
| `Classifier.PlainCheck` | check_aprs.py:49-73 | the position and generic arms succeed iff the comment is ASCII, with one character per byte and no performance data; otherwise they fail with the decode error |
| `Classifier.TelemetryCheck` | check_aprs.py:52-61 | the telemetry arm succeeds only on an ASCII comment, with the decoded comment as message and at least two metrics; it fails with the unpacking error only when the text after `#` is ASCII and has no comma |
| `Classifier.IgateCheck` | check_aprs.py:63-70 | the IGate arm succeeds iff the comment is ASCII, with the decoded comment as message and metrics that hold no comma; otherwise it fails with the decode error |
| `Classifier.HandleNonAscii` | check_aprs.py:49-73 | a comment with a byte of 128 or more is an error in every arm, never coerced |
| `Classifier.PlainPacket` | check_aprs.py:49-73 | position reports and generic fields give the decoded comment and no performance data |
| `Classifier.TelemetryPacket` | check_aprs.py:52-61 | the comment `#f0,...,fk` with k >= 1 gives k+1 metrics in field order: `telem_seq=f0`, `telem_analog0=f1` ... `telem_analog{k-2}=f{k-1}`, `telem_bits=fk`; the message keeps the `#` |
| `Classifier.TelemetryTooFewFields` | check_aprs.py:55 | a telemetry comment is dropped with the unpacking error exactly when it has no comma (`#`, `#5`) |
| `Classifier.TelemetryMetrics` | check_aprs.py:56-60 | the `telem` list has one metric per field; its entries are stated by `TelemetryMetricsFields` |
| `Classifier.TelemetryMetricsFields` | check_aprs.py:55-60 | one metric per field, each `label=field` with the field verbatim, analog labels numbered from 0 |
| `Classifier.TelemetryMetricsReadBack` | check_aprs.py:55-60 | read as `label=value`, the metrics give back every field, and no two metrics share a label |
| `Classifier.TelemetryLabelsDistinct` | check_aprs.py:57-59 | the labels `telem_seq`, `telem_analog<i>` and `telem_bits` of one report are pairwise distinct |
| `Classifier.TelemetryExample` | check_aprs.py:55-61 | `#005,099,128,00000000` gives `telem_seq=005`, `telem_analog0=099`, `telem_analog1=128`, `telem_bits=00000000` |
| `Classifier.IgatePacket` | check_aprs.py:63-70 | an `IGATE,` beacon gives at least one token; no token has a comma; `IGATE` joined with the tokens by commas is the comment again |
| `Classifier.IgateTagAlone` | check_aprs.py:67 | the bare comment `IGATE,` gives one empty token |
| `Classifier.IgateExample` | check_aprs.py:67-70 | `IGATE,RF=0,DIR=1` gives the metrics `RF=0`, `DIR=1` |
| `CheckSubmitter.ServiceFilter` | check_aprs.py:29 | the filter starts with the `aprsis` service selector and quotes the callsign, which can be read back from it |
| `CheckSubmitter.CheckRequestBody` | check_aprs.py:26-36 | type `Service`, exit status 0, check source `APRSIS`, output `OK: ` + message, the callsign's filter; `performance_data` present iff metrics were given; `ReadCheckRequest` recovers exactly the arguments |
| `Listener.RelayCommand` | check_aprs.py:77-88 | no command (no connection) iff the callsign list is empty; otherwise the command starts `filter b/` |
| `Listener.RelayCommandLists` | check_aprs.py:88 | the filter lists exactly the callsigns, `/`-separated, in list order |
| `Listener.Run` | check_aprs.py:75-93 | no callsigns: nothing to monitor, no connection, no checks; otherwise one login to port 14580 as `KC1GDW` with passcode `-1` and the budlist filter, and the checks and drops of exactly the received packets |
| `Listener.SubmittedAppend` | check_aprs.py:91-93 | the checks of two runs of packets add up: tasks do not affect each other |
| `Listener.SubmittedAccounting` | check_aprs.py:91-93 | every received packet is either submitted as one check or dropped |
| `Listener.DroppedPacketIsIsolated` | check_aprs.py:93 | a packet that raises leaves every other packet's check unchanged |
| `Listener.SubmittedOrderFree` | check_aprs.py:93 | which checks are submitted depends on which packets arrive, not on their order |
| `Listener.SubmittedFromPackets` | check_aprs.py:91-93 | every submitted check is the check of a received packet, for that packet's source |
| `Fingerprint.ValidateFingerprint` | check_aprs.py:96-100 | the only error is `BadParameter` with the hexadecimal-string message |
| `Fingerprint.ValidateColonised` | check_aprs.py:96-100 | colon-separated hex pairs are accepted and give back their bytes |
| `Fingerprint.ValidateBareHex` | check_aprs.py:96-100 | bare hex digits are accepted and give back their bytes |
| `Fingerprint.ColonAnywhere` | check_aprs.py:98 | inserting a colon anywhere changes neither acceptance nor result |
| `Fingerprint.ValidateHexAndColons` | check_aprs.py:96-100 | hex digits of either case and colons, in any arrangement: with the colons removed only hex digits are left; the fingerprint is accepted iff their count is even, and byte `k` is the value of digits `2k` and `2k+1` |
| `Fingerprint.ValidateRejects` | check_aprs.py:96-100 | any character other than a hex digit, colon or whitespace is rejected with `BadParameter` |
| `Strings.Split` | check_aprs.py:55 | `str.split(",")`: at least one piece, none containing the separator, and joined by it they give the input back |
| `Strings.Join` | check_aprs.py:88 | `'/'.join(callsigns)` starts with the first callsign; `Split` and `SplitJoin` make it the inverse of splitting |
| `Strings.SplitJoin` | check_aprs.py:67 | splitting undoes joining for pieces without the separator |
| `Strings.RemoveAll` | check_aprs.py:98 | `str.replace(":", "")`: no colon is left in the result |
| `Strings.RemoveAllCounts` | check_aprs.py:98 | every other character is kept with its multiplicity and every colon is removed; together with `RemoveAllAppend` and `RemoveAllOne` this pins down the result, order included |
| `Strings.RemoveAllAppend` | check_aprs.py:98 | removing works piece by piece: on `a + b` it gives the result on `a` followed by the result on `b`, so the kept characters stay in their order |
| `Strings.RemoveAllOne` | check_aprs.py:98 | a single character is dropped if it is the colon and kept otherwise |
| `Strings.RemoveAllAbsent` | check_aprs.py:98 | a string without a colon is left unchanged |
| `Strings.NatToString` | check_aprs.py:58 | `str(idx)`: decimal digits without a leading zero |
| `Strings.ParseNatToString` | check_aprs.py:58 | the rendering of an index reads back as that index |
| `Ascii.Decode` | check_aprs.py:50 | `bytes.decode("ascii")` succeeds iff every byte is below 128, one character per byte |
| `Ascii.DecodeEncode` | check_aprs.py:50 | decoding the ASCII encoding of a text gives the text back |
| `Hex.FromHex` | check_aprs.py:98 | `bytes.fromhex`: a result never has more than half as many bytes as the input has characters; what it accepts and gives is stated by `FromHexDigits`, `FromHexRejects` and `FromHexToHex` |
| `Hex.FromHexToHex` | check_aprs.py:98 | `bytes.fromhex(bs.hex()) == bs` |
| `Hex.FromHexDigits` | check_aprs.py:98 | a string of hex digits decodes iff its length is even, each byte from one pair of digits |
| `Hex.FromHexRejects` | check_aprs.py:98 | a character that is neither a hex digit nor whitespace makes `fromhex` fail |

## Left out

- HTTP traffic to Icinga is left out because it is network I/O through aiohttp:
  - the GET of the monitored callsigns in `get_callsigns` (check_aprs.py:17-24); the callsigns are a parameter of `Listener.Run`;
  - sending the POST in `submit_check` and checking its status (check_aprs.py:38-44);
  - the session, basic auth and TLS pinning in `main` (check_aprs.py:142-148).
- The APRS-IS TCP connection and the third-party frame parser (`aprs.create_aprsis_connection`, `protocol.read()`) are left out. The login is a `Listener.Connection` value, the received packets are a finite sequence of parsed `Aprs.Packet` values.
- `asyncio.create_task` concurrency is not modelled. Tasks are independent and their completion order is unobservable, so the submitted checks are a multiset.
- `Listener.Run` assumes every task it starts runs to its `submit_check` call. In the code the tasks are never awaited: when `protocol.read()` ends, `run` returns (check_aprs.py:91-93), `main` closes the HTTP session (check_aprs.py:142-148) and the event loop stops, so tasks still pending then may never submit. The promise of `Run` holds for the packets of a stream whose tasks all get to run, not for the last packets before a dropped connection.
- Information objects that are not an `InformationField` at all match no case of `handle_packet` (check_aprs.py:48-73). For such an object it submits nothing and raises nothing, and `Aprs.Info` cannot represent it. Every parser type that is an `InformationField` with a comment is `Aprs.InformationField` here; it takes the generic, telemetry or IGate arm by its data type and comment.
- `Aprs.Position` holds placeholder coordinates, because the bridge never reads the decoded position.
- The click command-line options, environment variables and every `click.echo` log line (check_aprs.py:44, 47, 78-80, 92, 103-152) are left out. They are configuration and output only.
- `Classifier.HandlePacket`: in the IGate arm the source decodes the comment twice (check_aprs.py:67, 69). The model decodes once, because both decodes give the same text.
- `Fingerprint.ValidateHexAndColons`: covers only fingerprints made of hex digits and colons. `bytes.fromhex` also skips whitespace before a hex pair. `Hex.FromHex` models that skipping, but no lemma states which bytes such a fingerprint gives.
