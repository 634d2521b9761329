/** The stored facts: timeline events and scenarios. */
module Timeline {
  import opened Wrappers

  datatype RequestData = RequestData(method_: string, path: string, query: string, headers: map<string, string>,
                                     bodyPreview: string, replayable: bool)

  datatype ResponseData = ResponseData(statusCode: int, headers: map<string, string>)

  /** `valid` is the verdict of the field validation, which is not modelled further. */
  datatype Event = Event(id: string, scenarioId: Option<string>, timestamp: int, source: string,
                         request: Option<RequestData>, response: Option<ResponseData>, valid: bool)

  datatype ScenarioStatus = Recording | Completed

  datatype Scenario = Scenario(id: string, name: string, status: ScenarioStatus, eventCount: nat, replayableCount: nat)

  const SOURCE_HTTP_PROXY := "http_proxy"

  predicate Replayable(e: Event) {
    e.request.Some? && e.request.value.replayable
  }
}
