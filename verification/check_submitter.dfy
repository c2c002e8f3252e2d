/**
 * `submit_check`: the JSON body of one "process check result" request to the
 * monitoring backend (Icinga 2), for the service `aprsis` of the host whose
 * `vars.aprs.callsign` is the station heard. Sending it is left out.
 */
module CheckSubmitter {
  import opened Wrappers
  import opened Aprs

  /** The arguments of one `submit_check` call: station, message, optional metrics. */
  datatype CheckResult = CheckResult(callsign: Callsign, message: string, performanceData: Option<seq<string>>)

  /** The JSON values a request body holds. */
  datatype Json = JString(text: string) | JNumber(number: int) | JStringArray(items: seq<string>)

  const FILTER_HEAD := "service.name==\"aprsis\" && host.vars.aprs.callsign==\""
  const OK_PREFIX := "OK: "
  /** The keys every request body has; `performance_data` is the one optional key. */
  const BASE_KEYS := {"type", "filter", "exit_status", "plugin_output", "check_source"}

  /** The filter expression that selects the `aprsis` service of the station's host. */
  function ServiceFilter(callsign: Callsign): (filter: string)
    ensures FILTER_HEAD <= filter && |filter| > |FILTER_HEAD| && filter[|filter| - 1] == '"'
    ensures filter[|FILTER_HEAD|..|filter| - 1] == callsign
  {
    var filter := FILTER_HEAD + callsign + "\"";
    assert filter[|FILTER_HEAD|..|filter| - 1] == callsign;
    filter
  }

  /**
   * The inverse of `CheckRequestBody`, the partner its contract is stated
   * against: the callsign quoted at the end of the filter, the plugin output
   * without its `OK: ` status prefix, and the performance data if the key is
   * there. `None` for a map that is not such a body.
   */
  function ReadCheckRequest(data: map<string, Json>): Option<CheckResult>
  {
    if "filter" in data && data["filter"].JString? && "plugin_output" in data && data["plugin_output"].JString? then
      var filter, output := data["filter"].text, data["plugin_output"].text;
      if FILTER_HEAD <= filter && |filter| > |FILTER_HEAD| && filter[|filter| - 1] == '"' && OK_PREFIX <= output then
        var metrics :=
          if "performance_data" in data && data["performance_data"].JStringArray?
          then Some(data["performance_data"].items) else None;
        Some(CheckResult(filter[|FILTER_HEAD|..|filter| - 1], output[|OK_PREFIX|..], metrics))
      else
        None
    else
      None
  }

  /**
   * The request body `submit_check` builds: a passive result of type
   * `Service`, always exit status 0 (OK) from check source `APRSIS`, the
   * message behind `OK: `, and `performance_data` added exactly when metrics
   * were given. `ReadCheckRequest` recovers exactly the arguments.
   */
  method CheckRequestBody(callsign: Callsign, message: string, performanceData: Option<seq<string>>)
    returns (data: map<string, Json>)
    ensures data.Keys == if performanceData.Some? then BASE_KEYS + {"performance_data"} else BASE_KEYS
    ensures data["type"] == JString("Service")
    ensures data["exit_status"] == JNumber(0)
    ensures data["check_source"] == JString("APRSIS")
    ensures data["plugin_output"] == JString(OK_PREFIX + message)
    ensures data["filter"] == JString(ServiceFilter(callsign))
    ensures performanceData.Some? ==> data["performance_data"] == JStringArray(performanceData.value)
    ensures ReadCheckRequest(data) == Some(CheckResult(callsign, message, performanceData))
  {
    data := map[
      "type" := JString("Service"),
      "filter" := JString(ServiceFilter(callsign)),
      "exit_status" := JNumber(0),
      "plugin_output" := JString(OK_PREFIX + message),
      "check_source" := JString("APRSIS")
    ];
    if performanceData.Some? {
      data := data["performance_data" := JStringArray(performanceData.value)];
    }
    assert (OK_PREFIX + message)[|OK_PREFIX|..] == message;
  }
}
