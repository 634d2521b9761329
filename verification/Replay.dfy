/** Replay of a recorded scenario: the plan, the gate on unsafe methods, the run with its tallies,
    and the headers that leave the machine. RFC 9110 section 9.2.1 also counts TRACE as safe;
    the program does not. */
module Replay {
  import opened Wrappers
  import opened Timeline
  import opened Ordering
  import EventStore
  import Redaction
  import BodyTee

  /** Letter case, and the canonical case of header names, belong to Go's library. So does the order
      in which ranging over a map visits its keys: `visit` may choose another one each time. */
  datatype Library = Library(upper: string -> string, lower: string -> string, canonical: string -> string,
                             visit: (nat, map<string, string>) -> seq<string>)

  /** Each key once. */
  ghost predicate IsRange(order: seq<string>, headers: map<string, string>) {
    && (forall k :: k in order <==> k in headers)
    && forall i, j :: 0 <= i < j < |order| ==> order[i] != order[j]
  }

  ghost predicate Ranges(lib: Library) {
    forall i, headers :: IsRange(lib.visit(i, headers), headers)
  }

  datatype PlanEntry = PlanEntry(eventId: string, method_: string, path: string, headers: map<string, string>,
                                 body: string, originalStatus: int, safe: bool)

  datatype Options = Options(baseURL: string, skipUnsafe: bool, confirmUnsafe: bool)

  // --- The plan ---

  predicate IsSafeMethod(lib: Library, method_: string) {
    lib.upper(method_) in {"GET", "HEAD", "OPTIONS"}
  }

  predicate Planned(e: Event) {
    e.source == SOURCE_HTTP_PROXY && Replayable(e)
  }

  function EntryOf(lib: Library, e: Event): PlanEntry
    requires Planned(e)
  {
    var req := e.request.value;
    PlanEntry(e.id, req.method_, req.path, req.headers, req.bodyPreview,
              if e.response.Some? then e.response.value.statusCode else 0, IsSafeMethod(lib, req.method_))
  }

  function PlanOf(lib: Library, events: seq<Event>): seq<PlanEntry> {
    if events == [] then []
    else
      PlanOf(lib, events[..|events| - 1]) +
      if Planned(events[|events| - 1]) then [EntryOf(lib, events[|events| - 1])] else []
  }

  function CountReplayable(events: seq<Event>): nat {
    if events == [] then 0
    else CountReplayable(events[..|events| - 1]) + if Replayable(events[|events| - 1]) then 1 else 0
  }

  lemma {:induction false} PlanIsReplayable(lib: Library, events: seq<Event>)
    ensures |PlanOf(lib, events)| <= CountReplayable(events)
    ensures forall p | p in PlanOf(lib, events) :: exists e | e in events && Planned(e) :: p == EntryOf(lib, e)
    ensures forall e | e in events && Planned(e) :: EntryOf(lib, e) in PlanOf(lib, events)
  {
    if events != [] {
      var init, last := events[..|events| - 1], events[|events| - 1];
      PlanIsReplayable(lib, init);
      assert events == init + [last];
    }
  }

  /** The recorded request, what it came back with if it did, and whether it is safe to send again. */
  ghost predicate Repeats(lib: Library, p: PlanEntry, e: Event) {
    && e.request.Some? && p.eventId == e.id && p.method_ == e.request.value.method_ && p.path == e.request.value.path
    && p.headers == e.request.value.headers && p.body == e.request.value.bodyPreview
    && (e.response.Some? ==> p.originalStatus == e.response.value.statusCode)
    && (e.response.None? ==> p.originalStatus == 0)
    && (p.safe <==> lib.upper(p.method_) in {"GET", "HEAD", "OPTIONS"})
  }

  ghost function ReplayableAt(events: seq<Event>): nat -> bool {
    (k: nat) => k < |events| && events[k].source == "http_proxy"
                && events[k].request.Some? && events[k].request.value.replayable
  }

  ghost function RepeatsAt(lib: Library, events: seq<Event>): (PlanEntry, nat) -> bool {
    (p: PlanEntry, k: nat) => k < |events| && Repeats(lib, p, events[k])
  }

  lemma PlanMore(lib: Library, events: seq<Event>, k: nat)
    requires k < |events|
    ensures PlanOf(lib, events[..k + 1]) ==
      PlanOf(lib, events[..k]) + if Planned(events[k]) then [EntryOf(lib, events[k])] else []
  {
    assert events[..k + 1][..k] == events[..k];
  }

  /** The plan repeats, in the order of the listing, exactly the replayable requests of the proxy. */
  lemma {:induction false} PlanFollowsListing(lib: Library, events: seq<Event>, n: nat) returns (at: seq<nat>)
    requires n <= |events|
    ensures Selection(PlanOf(lib, events[..n]), at, n, ReplayableAt(events), RepeatsAt(lib, events))
  {
    if n == 0 {
      at := [];
    } else {
      var k := n - 1;
      var earlier := PlanFollowsListing(lib, events, k);
      PlanMore(lib, events, k);
      at := SelectNext(PlanOf(lib, events[..k]), earlier, k, ReplayableAt(events), RepeatsAt(lib, events),
                       if Planned(events[k]) then [EntryOf(lib, events[k])] else []);
    }
  }

  method Plan(lib: Library, events: seq<Event>) returns (plan: seq<PlanEntry>)
    ensures plan == PlanOf(lib, events)
  {
    plan := [];
    for i := 0 to |events|
      invariant plan == PlanOf(lib, events[..i])
    {
      assert events[..i + 1][..i] == events[..i];
      if events[i].source != SOURCE_HTTP_PROXY {
        continue;
      }
      if events[i].request.None? || !events[i].request.value.replayable {
        continue;
      }
      plan := plan + [EntryOf(lib, events[i])];
    }
    assert events[..|events|] == events;
  }

  // --- One request ---

  datatype Request = Request(method_: string, url: string, headers: map<string, string>, body: string)

  /** What the network makes of a request. */
  datatype Outcome = CannotBuild | Fails | Responds(status: int)

  datatype Diff = Diff(eventId: string, originalStatus: int, replayStatus: int, statusMatch: bool, error: bool)

  function TrimSlashes(s: string): string {
    if s != [] && s[|s| - 1] == '/' then TrimSlashes(s[..|s| - 1]) else s
  }

  /** All slashes at the end go, and nothing else. */
  lemma {:induction false} SlashesAreTrimmed(s: string)
    ensures var t := TrimSlashes(s);
      && t <= s && (t != [] ==> t[|t| - 1] != '/')
      && forall i :: |t| <= i < |s| ==> s[i] == '/'
  {
    if s != [] && s[|s| - 1] == '/' {
      SlashesAreTrimmed(s[..|s| - 1]);
    }
  }

  predicate Forwarded(lib: Library, name: string, value: string) {
    lib.lower(name) !in {"host", "connection", "content-length"} && value != Redaction.REDACTED
  }

  /** The headers set by visiting names in the given order: a name that differs from an earlier one
      in case only replaces it. */
  function SentHeaders(lib: Library, headers: map<string, string>, order: seq<string>): map<string, string> {
    if order == [] then map[]
    else
      var earlier := SentHeaders(lib, headers, order[..|order| - 1]);
      var k := order[|order| - 1];
      if k in headers && Forwarded(lib, k, headers[k]) then earlier[lib.canonical(k) := headers[k]] else earlier
  }

  /** Header `k` is held back if it belongs to the connection or is marked as redacted. */
  ghost predicate HeldBack(lib: Library, headers: map<string, string>, k: string)
    requires k in headers
  {
    || lib.lower(k) == "host" || lib.lower(k) == "connection" || lib.lower(k) == "content-length"
    || headers[k] == "[REDACTED]"
  }

  /** What is set was set by some header that is not held back, */
  lemma {:induction false} SetByWhom(lib: Library, headers: map<string, string>, order: seq<string>, name: string)
      returns (k: string)
    requires name in SentHeaders(lib, headers, order)
    ensures k in order && k in headers && !HeldBack(lib, headers, k)
    ensures lib.canonical(k) == name && headers[k] == SentHeaders(lib, headers, order)[name]
  {
    var init, last := order[..|order| - 1], order[|order| - 1];
    assert order == init + [last];
    if last in headers && Forwarded(lib, last, headers[last]) && lib.canonical(last) == name {
      k := last;
    } else {
      k := SetByWhom(lib, headers, init, name);
    }
  }

  /** and every header that is not sets its name. */
  lemma {:induction false} ForwardedIsSet(lib: Library, headers: map<string, string>, order: seq<string>, k: string)
    requires k in order && k in headers && !HeldBack(lib, headers, k)
    ensures lib.canonical(k) in SentHeaders(lib, headers, order)
  {
    var init, last := order[..|order| - 1], order[|order| - 1];
    assert order == init + [last];
    if k != last {
      ForwardedIsSet(lib, headers, init, k);
    }
  }

  ghost predicate CanonicalNames(lib: Library, headers: map<string, string>) {
    forall k | k in headers :: lib.canonical(k) == k
  }

  /** Canonical names, as every captured request has them, never replace each other. */
  lemma CanonicalHeadersSurvive(lib: Library, headers: map<string, string>, order: seq<string>)
    requires IsRange(order, headers) && CanonicalNames(lib, headers)
    ensures SentHeaders(lib, headers, order) == map k | k in headers && !HeldBack(lib, headers, k) :: headers[k]
  {
    var sent := SentHeaders(lib, headers, order);
    forall n | n in sent ensures n in headers && !HeldBack(lib, headers, n) && sent[n] == headers[n] {
      var k := SetByWhom(lib, headers, order, n);
    }
    forall k | k in headers && !HeldBack(lib, headers, k) ensures k in sent {
      ForwardedIsSet(lib, headers, order, k);
    }
  }

  /** The request for the entry with index `i`. */
  function RequestFor(lib: Library, opts: Options, entry: PlanEntry, i: nat): Request {
    Request(entry.method_, TrimSlashes(opts.baseURL) + entry.path,
            SentHeaders(lib, entry.headers, lib.visit(i, entry.headers)), entry.body)
  }

  function DiffFor(entry: PlanEntry, outcome: Outcome): Diff {
    match outcome
    case CannotBuild => Diff(entry.eventId, entry.originalStatus, 0, false, true)
    case Fails => Diff(entry.eventId, entry.originalStatus, 0, false, true)
    case Responds(status) => Diff(entry.eventId, entry.originalStatus, status, entry.originalStatus == status, false)
  }

  predicate Passes(d: Diff) {
    !d.error && d.statusMatch
  }

  method CopyHeaders(lib: Library, headers: map<string, string>, order: seq<string>) returns (sent: map<string, string>)
    requires IsRange(order, headers)
    ensures sent == SentHeaders(lib, headers, order)
  {
    sent := map[];
    for j := 0 to |order|
      invariant sent == SentHeaders(lib, headers, order[..j])
    {
      assert order[..j + 1][..j] == order[..j];
      var k := order[j];
      assert k in order;
      if lib.lower(k) == "host" || lib.lower(k) == "connection" || lib.lower(k) == "content-length" {
        continue;
      }
      if headers[k] != Redaction.REDACTED {
        sent := sent[lib.canonical(k) := headers[k]];
      }
    }
    assert order[..|order|] == order;
  }

  // --- The run ---

  predicate Skips(entry: PlanEntry, opts: Options) {
    !entry.safe && opts.skipUnsafe
  }

  function DiffsOf(plan: seq<PlanEntry>, opts: Options, outcomes: nat -> Outcome): seq<Diff> {
    if plan == [] then []
    else
      var i := |plan| - 1;
      DiffsOf(plan[..i], opts, outcomes) + if Skips(plan[i], opts) then [] else [DiffFor(plan[i], outcomes(i))]
  }

  /** What one entry sends: nothing if it is skipped or its request cannot be built. */
  function Asked(lib: Library, entry: PlanEntry, i: nat, opts: Options, outcome: Outcome): seq<Request> {
    if Skips(entry, opts) || outcome.CannotBuild? then [] else [RequestFor(lib, opts, entry, i)]
  }

  function RequestsOf(lib: Library, plan: seq<PlanEntry>, opts: Options, outcomes: nat -> Outcome): seq<Request> {
    if plan == [] then []
    else
      var i := |plan| - 1;
      RequestsOf(lib, plan[..i], opts, outcomes) + Asked(lib, plan[i], i, opts, outcomes(i))
  }

  function CountPassed(diffs: seq<Diff>): nat {
    if diffs == [] then 0 else CountPassed(diffs[..|diffs| - 1]) + if Passes(diffs[|diffs| - 1]) then 1 else 0
  }

  datatype RunStatus = Running | Passed | Failed

  datatype RunRow = RunRow(status: RunStatus, requestCount: nat, passed: nat, failed: nat)

  datatype Report = Report(total: nat, passed: nat, failed: nat, skipped: nat, diffs: seq<Diff>)

  predicate Gated(plan: seq<PlanEntry>, opts: Options) {
    (exists p | p in plan :: !p.safe) && !opts.confirmUnsafe && !opts.skipUnsafe
  }

  /** The report on the first `ran` entries: every diff is a pass or a failure, and every entry
      without a diff was skipped. */
  ghost predicate Reports(report: Report, plan: seq<PlanEntry>, ran: nat, opts: Options, outcomes: nat -> Outcome)
    requires ran <= |plan|
  {
    && report.total == |plan|
    && report.diffs == DiffsOf(plan[..ran], opts, outcomes)
    && report.passed == CountPassed(report.diffs)
    && report.passed + report.failed == |report.diffs|
    && report.skipped + |report.diffs| == ran
  }

  function WithDiff(report: Report, d: Diff): Report {
    var added := report.(diffs := report.diffs + [d]);
    if Passes(d) then added.(passed := report.passed + 1) else added.(failed := report.failed + 1)
  }

  /** The report with one more entry. */
  function Entered(report: Report, entry: PlanEntry, opts: Options, outcome: Outcome): Report {
    if Skips(entry, opts) then report.(skipped := report.skipped + 1) else WithDiff(report, DiffFor(entry, outcome))
  }

  lemma DiffsMore(plan: seq<PlanEntry>, i: nat, opts: Options, outcomes: nat -> Outcome)
    requires i < |plan|
    ensures DiffsOf(plan[..i + 1], opts, outcomes) ==
      DiffsOf(plan[..i], opts, outcomes) + if Skips(plan[i], opts) then [] else [DiffFor(plan[i], outcomes(i))]
  {
    assert plan[..i + 1][..i] == plan[..i];
  }

  lemma PassedMore(diffs: seq<Diff>, d: Diff)
    ensures CountPassed(diffs + [d]) == CountPassed(diffs) + if Passes(d) then 1 else 0
  {
    assert (diffs + [d])[..|diffs|] == diffs;
  }

  lemma ReportsMore(report: Report, plan: seq<PlanEntry>, i: nat, opts: Options, outcomes: nat -> Outcome)
    requires i < |plan| && Reports(report, plan, i, opts, outcomes)
    ensures Reports(Entered(report, plan[i], opts, outcomes(i)), plan, i + 1, opts, outcomes)
  {
    DiffsMore(plan, i, opts, outcomes);
    PassedMore(report.diffs, DiffFor(plan[i], outcomes(i)));
  }

  /** What was sent after one more entry, where `before` was sent ahead of the run. */
  lemma SentMore(before: seq<Request>, lib: Library, plan: seq<PlanEntry>, i: nat, opts: Options,
      outcomes: nat -> Outcome)
    requires i < |plan|
    ensures before + RequestsOf(lib, plan[..i + 1], opts, outcomes) ==
      (before + RequestsOf(lib, plan[..i], opts, outcomes)) + Asked(lib, plan[i], i, opts, outcomes(i))
  {
    assert plan[..i + 1][..i] == plan[..i];
  }

  /** The plan of a scenario that may be replayed at all. */
  function PlanFor(lib: Library, scenario: Option<Scenario>, events: seq<Event>): seq<PlanEntry> {
    if scenario.None? || scenario.value.status == Recording then []
    else PlanOf(lib, EventStore.ListByScenario(events, scenario.value.id))
  }

  /** How far a run gets. */
  function Reached(plan: seq<PlanEntry>, cancelAt: nat): (ran: nat)
    ensures ran <= |plan|
  {
    if cancelAt < |plan| then cancelAt else |plan|
  }

  function FinalRow(report: Report): RunRow {
    RunRow(if report.failed > 0 then Failed else Passed, report.total, report.passed, report.failed)
  }

  /** An event of the scenario that is replayed. */
  ghost predicate IsReplayed(events: seq<Event>, scenarioId: string, e: Event) {
    && e in events && e.scenarioId == Some(scenarioId)
    && e.source == "http_proxy" && e.request.Some? && e.request.value.replayable
  }

  /** There is no such scenario, it is still being recorded, nothing in it is replayed, or a request
      with an unsafe method is, without leave to send or to skip it. */
  ghost predicate MayNotRun(lib: Library, scenario: Option<Scenario>, events: seq<Event>, opts: Options) {
    || scenario.None?
    || scenario.value.status == Recording
    || (forall e :: !IsReplayed(events, scenario.value.id, e))
    || (!opts.confirmUnsafe && !opts.skipUnsafe
        && exists e :: IsReplayed(events, scenario.value.id, e)
                       && lib.upper(e.request.value.method_) !in {"GET", "HEAD", "OPTIONS"})
  }

  lemma RefusedIffMayNotRun(lib: Library, scenario: Option<Scenario>, events: seq<Event>, opts: Options)
    ensures var plan := PlanFor(lib, scenario, events);
      plan == [] || Gated(plan, opts) <==> MayNotRun(lib, scenario, events, opts)
  {
    if scenario.Some? && scenario.value.status != Recording {
      var listed := EventStore.ListByScenario(events, scenario.value.id);
      EventStore.TaggedRows(events, scenario.value.id);
      EventStore.ArrangedRows(EventStore.Tagged(events, scenario.value.id), false);
      PlanIsReplayable(lib, listed);
      assert forall e :: IsReplayed(events, scenario.value.id, e) <==> e in listed && Planned(e);
      PlannedIffSome(lib, listed, PlanOf(lib, listed));
    }
  }

  lemma PlannedIffSome(lib: Library, listed: seq<Event>, plan: seq<PlanEntry>)
    requires plan == PlanOf(lib, listed)
    ensures plan == [] <==> forall e | e in listed :: !Planned(e)
    ensures (exists p | p in plan :: !p.safe) <==>
      exists e | e in listed && Planned(e) :: lib.upper(e.request.value.method_) !in {"GET", "HEAD", "OPTIONS"}
  {
    PlanIsReplayable(lib, listed);
    if plan != [] {
      var p := plan[0];
      assert p in plan;
    }
    if exists p | p in plan :: !p.safe {
      var p :| p in plan && !p.safe;
      var e :| e in listed && Planned(e) && p == EntryOf(lib, e);
      assert lib.upper(e.request.value.method_) !in {"GET", "HEAD", "OPTIONS"};
    }
    if exists e | e in listed && Planned(e) :: lib.upper(e.request.value.method_) !in {"GET", "HEAD", "OPTIONS"} {
      var e :| e in listed && Planned(e) && lib.upper(e.request.value.method_) !in {"GET", "HEAD", "OPTIONS"};
      assert EntryOf(lib, e) in plan && !EntryOf(lib, e).safe;
    }
  }

  class Executor {
    var sent: seq<Request>
    var runs: map<string, RunRow>

    constructor ()
      ensures sent == [] && runs == map[]
    {
      sent, runs := [], map[];
    }

    /** `outcomes` decides each request, `cancelAt` is the plan index at which the context is found
        to be done, and `runId` is the id drawn for the run. The final update runs under the same
        context, so it fails for every run that was cut off. */
    method Execute(lib: Library, scenario: Option<Scenario>, events: seq<Event>, opts: Options, runId: string,
                   insertFails: bool, updateFails: bool, outcomes: nat -> Outcome, cancelAt: nat)
      returns (r: Result<Report, string>)
      requires Ranges(lib)
      modifies this
      ensures r.Err? <==> MayNotRun(lib, scenario, events, opts) || insertFails
      ensures r.Err? ==> sent == old(sent) && runs == old(runs)
      ensures r.Ok? ==>
        var plan := PlanOf(lib, EventStore.ListByScenario(events, scenario.value.id));
        var ran := if cancelAt < |plan| then cancelAt else |plan|;
        && Reports(r.value, plan, ran, opts, outcomes)
        && sent == old(sent) + RequestsOf(lib, plan[..ran], opts, outcomes)
        && runs == old(runs)[runId :=
             if cancelAt < |plan| || updateFails then RunRow(Running, |plan|, 0, 0)
             else RunRow(if r.value.failed > 0 then Failed else Passed, |plan|, r.value.passed, r.value.failed)]
    {
      RefusedIffMayNotRun(lib, scenario, events, opts);
      var admitted := Admit(lib, scenario, events, opts);
      if admitted.Err? {
        return Err(admitted.error);
      }
      if insertFails {
        return Err("replay: insert run");
      }
      var report := RunRecorded(lib, admitted.value, opts, runId, updateFails, outcomes, cancelAt);
      r := Ok(report);
    }

    /** Everything that is checked before a run begins. */
    method Admit(lib: Library, scenario: Option<Scenario>, events: seq<Event>, opts: Options)
      returns (r: Result<seq<PlanEntry>, string>)
      ensures r.Err? <==> PlanFor(lib, scenario, events) == [] || Gated(PlanFor(lib, scenario, events), opts)
      ensures r.Ok? ==> r.value == PlanFor(lib, scenario, events)
    {
      if scenario.None? {
        return Err("replay: scenario not found");
      }
      if scenario.value.status == Recording {
        return Err("replay: cannot replay active recording");
      }
      var plan := Plan(lib, EventStore.ListByScenario(events, scenario.value.id));
      if |plan| == 0 {
        return Err("replay: no replayable events in scenario");
      }
      var hasUnsafe := HasUnsafe(plan);
      if hasUnsafe && !opts.confirmUnsafe && !opts.skipUnsafe {
        return Err("replay: scenario contains unsafe methods");
      }
      r := Ok(plan);
    }

    /** The run between the insert of its row and the update of it. */
    method RunRecorded(lib: Library, plan: seq<PlanEntry>, opts: Options, runId: string, updateFails: bool,
                       outcomes: nat -> Outcome, cancelAt: nat)
      returns (report: Report)
      requires Ranges(lib)
      modifies this
      ensures Reports(report, plan, Reached(plan, cancelAt), opts, outcomes)
      ensures sent == old(sent) + RequestsOf(lib, plan[..Reached(plan, cancelAt)], opts, outcomes)
      ensures runs == old(runs)[runId := if Reached(plan, cancelAt) < |plan| || updateFails
                                         then RunRow(Running, |plan|, 0, 0) else FinalRow(report)]
    {
      runs := runs[runId := RunRow(Running, |plan|, 0, 0)];
      var cutOff;
      report, cutOff := RunPlan(lib, plan, opts, outcomes, cancelAt);
      if !cutOff && !updateFails {
        runs := runs[runId := FinalRow(report)];
      }
    }

    method HasUnsafe(plan: seq<PlanEntry>) returns (found: bool)
      ensures found <==> exists p | p in plan :: !p.safe
    {
      for i := 0 to |plan|
        invariant forall j :: 0 <= j < i ==> plan[j].safe
      {
        if !plan[i].safe {
          var p := plan[i];
          assert p in plan;
          return true;
        }
      }
      return false;
    }

    method RunPlan(lib: Library, plan: seq<PlanEntry>, opts: Options, outcomes: nat -> Outcome, cancelAt: nat)
      returns (report: Report, cutOff: bool)
      requires Ranges(lib)
      modifies this`sent
      ensures cutOff <==> Reached(plan, cancelAt) < |plan|
      ensures Reports(report, plan, Reached(plan, cancelAt), opts, outcomes)
      ensures sent == old(sent) + RequestsOf(lib, plan[..Reached(plan, cancelAt)], opts, outcomes)
    {
      report := Report(|plan|, 0, 0, 0, []);
      var i := 0;
      while i < |plan| && i != cancelAt
        invariant 0 <= i <= |plan| && i <= cancelAt
        invariant Reports(report, plan, i, opts, outcomes)
        invariant sent == old(sent) + RequestsOf(lib, plan[..i], opts, outcomes)
      {
        SentMore(old(sent), lib, plan, i, opts, outcomes);
        ReportsMore(report, plan, i, opts, outcomes);
        report := RunEntry(lib, opts, plan[i], i, outcomes(i), report);
        i := i + 1;
      }
      cutOff := i < |plan|;
    }

    /** One turn of the loop. */
    method RunEntry(lib: Library, opts: Options, entry: PlanEntry, i: nat, outcome: Outcome, before: Report)
      returns (report: Report)
      requires Ranges(lib)
      modifies this`sent
      ensures report == Entered(before, entry, opts, outcome)
      ensures sent == old(sent) + Asked(lib, entry, i, opts, outcome)
    {
      if !entry.safe && opts.skipUnsafe {
        return before.(skipped := before.skipped + 1);
      }
      var diff := ExecuteEntry(lib, opts, entry, i, outcome);
      report := before.(diffs := before.diffs + [diff]);
      if Passes(diff) {
        report := report.(passed := report.passed + 1);
      } else {
        report := report.(failed := report.failed + 1);
      }
    }

    method ExecuteEntry(lib: Library, opts: Options, entry: PlanEntry, i: nat, outcome: Outcome) returns (d: Diff)
      requires Ranges(lib)
      modifies this`sent
      ensures d == DiffFor(entry, outcome)
      ensures sent == old(sent) + if outcome.CannotBuild? then [] else [RequestFor(lib, opts, entry, i)]
    {
      if outcome.CannotBuild? {
        return Diff(entry.eventId, entry.originalStatus, 0, false, true);
      }
      var headers := CopyHeaders(lib, entry.headers, lib.visit(i, entry.headers));
      sent := sent + [Request(entry.method_, TrimSlashes(opts.baseURL) + entry.path, headers, entry.body)];
      if outcome.Fails? {
        return Diff(entry.eventId, entry.originalStatus, 0, false, true);
      }
      d := Diff(entry.eventId, entry.originalStatus, outcome.status, entry.originalStatus == outcome.status, false);
    }
  }

  // --- What a run shows ---

  /** The entries of a plan that are not skipped: all, unless unsafe ones are to be skipped. */
  ghost function UnskippedAt(plan: seq<PlanEntry>, opts: Options): nat -> bool {
    (k: nat) => k < |plan| && (plan[k].safe || !opts.skipUnsafe)
  }

  /** Those of them that came back with the status on record. */
  ghost function CameBackAt(plan: seq<PlanEntry>, opts: Options, outcomes: nat -> Outcome): nat -> bool {
    (k: nat) => UnskippedAt(plan, opts)(k) && outcomes(k) == Responds(plan[k].originalStatus)
  }

  ghost predicate IsDiffOf(d: Diff, p: PlanEntry, outcome: Outcome) {
    && d.eventId == p.eventId && d.originalStatus == p.originalStatus
    && d.replayStatus == (match outcome case Responds(status) => status case CannotBuild => 0 case Fails => 0)
    && (d.statusMatch <==> outcome == Responds(p.originalStatus))
    && (d.error <==> !outcome.Responds?)
  }

  ghost function DiffAt(plan: seq<PlanEntry>, outcomes: nat -> Outcome): (Diff, nat) -> bool {
    (d: Diff, k: nat) => k < |plan| && IsDiffOf(d, plan[k], outcomes(k))
  }

  /** The diffs compare, in order, exactly the entries that are not skipped with what came back. */
  lemma {:induction false} DiffsFollowThePlan(plan: seq<PlanEntry>, n: nat, opts: Options, outcomes: nat -> Outcome)
      returns (at: seq<nat>)
    requires n <= |plan|
    ensures Selection(DiffsOf(plan[..n], opts, outcomes), at, n, UnskippedAt(plan, opts), DiffAt(plan, outcomes))
  {
    if n == 0 {
      at := [];
    } else {
      var k := n - 1;
      var earlier := DiffsFollowThePlan(plan, k, opts, outcomes);
      DiffsMore(plan, k, opts, outcomes);
      at := SelectNext(DiffsOf(plan[..k], opts, outcomes), earlier, k, UnskippedAt(plan, opts), DiffAt(plan, outcomes),
                       if Skips(plan[k], opts) then [] else [DiffFor(plan[k], outcomes(k))]);
    }
  }

  lemma {:induction false} PassedAreCounted(plan: seq<PlanEntry>, n: nat, opts: Options, outcomes: nat -> Outcome)
      returns (diffs: seq<Diff>)
    requires n <= |plan|
    ensures diffs == DiffsOf(plan[..n], opts, outcomes)
    ensures |diffs| == |Kept(n, UnskippedAt(plan, opts))|
    ensures CountPassed(diffs) == |Kept(n, CameBackAt(plan, opts, outcomes))|
  {
    if n == 0 {
      KeptNext(0, UnskippedAt(plan, opts));
      KeptNext(0, CameBackAt(plan, opts, outcomes));
      diffs := [];
    } else {
      var earlier := PassedAreCounted(plan, n - 1, opts, outcomes);
      KeptNext(n - 1, UnskippedAt(plan, opts));
      KeptNext(n - 1, CameBackAt(plan, opts, outcomes));
      diffs := NextDiff(plan, n - 1, opts, outcomes, earlier);
    }
  }

  lemma NextDiff(plan: seq<PlanEntry>, k: nat, opts: Options, outcomes: nat -> Outcome, earlier: seq<Diff>)
      returns (diffs: seq<Diff>)
    requires k < |plan| && earlier == DiffsOf(plan[..k], opts, outcomes)
    ensures diffs == DiffsOf(plan[..k + 1], opts, outcomes)
    ensures |diffs| == |earlier| + if UnskippedAt(plan, opts)(k) then 1 else 0
    ensures CountPassed(diffs) == CountPassed(earlier) + if CameBackAt(plan, opts, outcomes)(k) then 1 else 0
  {
    DiffsMore(plan, k, opts, outcomes);
    if Skips(plan[k], opts) {
      diffs := earlier;
      assert earlier + [] == earlier;
    } else {
      var d := DiffFor(plan[k], outcomes(k));
      PassedMore(earlier, d);
      diffs := earlier + [d];
    }
  }

  lemma {:induction false} FailedIffSomeDiffers(ran: nat, all: nat -> bool, good: nat -> bool)
    requires forall k: nat | good(k) :: all(k)
    ensures |Kept(ran, good)| <= |Kept(ran, all)|
    ensures |Kept(ran, good)| < |Kept(ran, all)| <==> exists k: nat :: k < ran && all(k) && !good(k)
  {
    if ran == 0 {
      KeptNext(0, all);
      KeptNext(0, good);
    } else {
      FailedIffSomeDiffers(ran - 1, all, good);
      KeptNext(ran - 1, all);
      KeptNext(ran - 1, good);
    }
  }

  /** Of the first `ran` entries, passed counts those not skipped that came back with the status on
      record, failed the others not skipped, skipped the rest; the run is failed exactly when one
      came back otherwise. The tallies reach the total exactly when the run was not cut off. */
  lemma TalliesAddUp(report: Report, plan: seq<PlanEntry>, ran: nat, opts: Options, outcomes: nat -> Outcome)
    requires ran <= |plan| && Reports(report, plan, ran, opts, outcomes)
    ensures report.passed == |Kept(ran, CameBackAt(plan, opts, outcomes))|
    ensures report.passed + report.failed == |Kept(ran, UnskippedAt(plan, opts))|
    ensures report.passed + report.failed + report.skipped == ran && report.total == |plan|
    ensures report.failed > 0 <==>
      exists k: nat :: k < ran && UnskippedAt(plan, opts)(k) && outcomes(k) != Responds(plan[k].originalStatus)
  {
    var diffs := PassedAreCounted(plan, ran, opts, outcomes);
    FailedIffSomeDiffers(ran, UnskippedAt(plan, opts), CameBackAt(plan, opts, outcomes));
    if exists k: nat :: k < ran && UnskippedAt(plan, opts)(k) && outcomes(k) != Responds(plan[k].originalStatus) {
      var k: nat :| k < ran && UnskippedAt(plan, opts)(k) && outcomes(k) != Responds(plan[k].originalStatus);
      assert !CameBackAt(plan, opts, outcomes)(k);
    }
    if exists k: nat :: k < ran && UnskippedAt(plan, opts)(k) && !CameBackAt(plan, opts, outcomes)(k) {
      var k: nat :| k < ran && UnskippedAt(plan, opts)(k) && !CameBackAt(plan, opts, outcomes)(k);
      assert outcomes(k) != Responds(plan[k].originalStatus);
    }
  }

  /** The entries whose requests go out. */
  ghost function SentAt(plan: seq<PlanEntry>, opts: Options, outcomes: nat -> Outcome): nat -> bool {
    (k: nat) => UnskippedAt(plan, opts)(k) && !outcomes(k).CannotBuild?
  }

  ghost predicate IsRequestOf(lib: Library, opts: Options, q: Request, p: PlanEntry, i: nat) {
    && q.method_ == p.method_ && q.url == TrimSlashes(opts.baseURL) + p.path && q.body == p.body
    && q.headers == SentHeaders(lib, p.headers, lib.visit(i, p.headers))
  }

  ghost function RequestAt(lib: Library, opts: Options, plan: seq<PlanEntry>): (Request, nat) -> bool {
    (q: Request, k: nat) => k < |plan| && IsRequestOf(lib, opts, q, plan[k], k)
  }

  /** The requests sent are, in order, those of exactly the entries not skipped that can be built. */
  lemma {:induction false} RequestsFollowThePlan(lib: Library, plan: seq<PlanEntry>, n: nat, opts: Options,
      outcomes: nat -> Outcome) returns (at: seq<nat>)
    requires n <= |plan|
    ensures Selection(RequestsOf(lib, plan[..n], opts, outcomes), at, n, SentAt(plan, opts, outcomes),
                      RequestAt(lib, opts, plan))
  {
    if n == 0 {
      at := [];
    } else {
      var k := n - 1;
      var earlier := RequestsFollowThePlan(lib, plan, k, opts, outcomes);
      SentMore([], lib, plan, k, opts, outcomes);
      var requests := RequestsOf(lib, plan[..k], opts, outcomes);
      var sent := RequestsOf(lib, plan[..n], opts, outcomes);
      assert [] + requests == requests && [] + sent == sent;
      at := SelectNext(requests, earlier, k, SentAt(plan, opts, outcomes), RequestAt(lib, opts, plan),
                       Asked(lib, plan[k], k, opts, outcomes(k)));
    }
  }

  /** Behind the gate an unsafe request goes out only when the user confirmed unsafe methods and
      did not ask to skip them. */
  lemma {:induction false} UnsafeNeedsConfirmation(lib: Library, events: seq<Event>, plan: seq<PlanEntry>,
      opts: Options, outcomes: nat -> Outcome, ran: nat)
    requires plan == PlanOf(lib, events) && ran <= |plan|
    requires (forall p | p in plan :: p.safe) || opts.confirmUnsafe || opts.skipUnsafe
    ensures forall q | q in RequestsOf(lib, plan[..ran], opts, outcomes) ::
      lib.upper(q.method_) in {"GET", "HEAD", "OPTIONS"} || (opts.confirmUnsafe && !opts.skipUnsafe)
  {
    if ran > 0 {
      var i := ran - 1;
      var p := plan[i];
      assert p in plan;
      PlanIsReplayable(lib, events);
      assert p.safe == IsSafeMethod(lib, p.method_);
      assert plan[..ran][..i] == plan[..i] && plan[..ran][i] == p;
      UnsafeNeedsConfirmation(lib, events, plan, opts, outcomes, i);
    }
  }

  // --- From capture to replay ---

  /** The request headers went through `RedactHeaders` before the event was stored. */
  ghost predicate CapturedRedacted(e: Event, denylist: seq<string>, lower: string -> string) {
    e.request.Some? ==> exists raw :: e.request.value.headers == Redaction.Redacted(raw, denylist, lower)
  }

  /** The canonical form of a name differs from it in case only. */
  ghost predicate CaseOnly(lib: Library) {
    forall k :: lib.lower(lib.canonical(k)) == lib.lower(k)
  }

  lemma NoDeniedHeader(lib: Library, raw: map<string, string>, denylist: seq<string>, order: seq<string>)
    requires CaseOnly(lib)
    ensures forall n | n in SentHeaders(lib, Redaction.Redacted(raw, denylist, lib.lower), order) ::
      !Redaction.Denied(denylist, lib.lower, n)
  {
    var stored := Redaction.Redacted(raw, denylist, lib.lower);
    Redaction.RedactionIsExactAndIdempotent(raw, denylist, lib.lower);
    forall n | n in SentHeaders(lib, stored, order) ensures !Redaction.Denied(denylist, lib.lower, n) {
      var k := SetByWhom(lib, stored, order, n);
      assert !Redaction.Denied(denylist, lib.lower, k);
    }
  }

  /** No header on the denylist at capture is copied into a replayed request. */
  lemma {:induction false} ReplaySendsNoDeniedHeader(lib: Library, events: seq<Event>, plan: seq<PlanEntry>,
      opts: Options, outcomes: nat -> Outcome, ran: nat, denylist: seq<string>)
    requires CaseOnly(lib) && forall e | e in events :: CapturedRedacted(e, denylist, lib.lower)
    requires plan == PlanOf(lib, events) && ran <= |plan|
    ensures forall q, k | q in RequestsOf(lib, plan[..ran], opts, outcomes) && k in q.headers ::
      !Redaction.Denied(denylist, lib.lower, k)
  {
    if ran > 0 {
      var i := ran - 1;
      var p := plan[i];
      assert p in plan;
      assert plan[..ran][..i] == plan[..i] && plan[..ran][i] == p;
      ReplaySendsNoDeniedHeader(lib, events, plan, opts, outcomes, i, denylist);
      PlanIsReplayable(lib, events);
      var e :| e in events && Planned(e) && p == EntryOf(lib, e);
      EntrySendsNoDeniedHeader(lib, e, i, opts, denylist);
    }
  }

  lemma EntrySendsNoDeniedHeader(lib: Library, e: Event, i: nat, opts: Options, denylist: seq<string>)
    requires CaseOnly(lib) && Planned(e) && CapturedRedacted(e, denylist, lib.lower)
    ensures forall k | k in RequestFor(lib, opts, EntryOf(lib, e), i).headers ::
      !Redaction.Denied(denylist, lib.lower, k)
  {
    var raw :| e.request.value.headers == Redaction.Redacted(raw, denylist, lib.lower);
    NoDeniedHeader(lib, raw, denylist, lib.visit(i, e.request.value.headers));
  }

  // --- When a replay sends what was captured ---

  /** A request as it reaches the proxy. */
  datatype HttpRequest = HttpRequest(method_: string, path: string, query: string, headers: map<string, string>,
    body: string)

  datatype Policy = Policy(denylist: seq<string>, bodyMaxBytes: nat, redactJSON: string -> string)

  /** What the proxy stores of it. */
  function Capture(lib: Library, policy: Policy, raw: HttpRequest): RequestData {
    RequestData(raw.method_, raw.path, raw.query, Redaction.Redacted(raw.headers, policy.denylist, lib.lower),
                policy.redactJSON(BodyTee.AtMost(raw.body, policy.bodyMaxBytes)), true)
  }

  /** The headers that Go's client does not write by itself. */
  function OwnHeaders(lib: Library, headers: map<string, string>): map<string, string> {
    map k | k in headers && lib.lower(k) !in {"host", "connection", "content-length"} :: headers[k]
  }

  function Target(opts: Options, raw: HttpRequest): string {
    TrimSlashes(opts.baseURL) + raw.path + if raw.query == "" then "" else "?" + raw.query
  }

  predicate SameRequest(lib: Library, opts: Options, raw: HttpRequest, sent: Request) {
    && sent.method_ == raw.method_ && sent.url == Target(opts, raw)
    && sent.headers == OwnHeaders(lib, raw.headers) && sent.body == raw.body
  }

  predicate BodyKept(policy: Policy, body: string) {
    var preview := BodyTee.AtMost(body, policy.bodyMaxBytes);
    if policy.redactJSON(preview) == preview then |body| <= policy.bodyMaxBytes else policy.redactJSON(preview) == body
  }

  /** None of the own headers is redacted, or marked as if it were. */
  predicate HeadersKept(lib: Library, policy: Policy, headers: map<string, string>) {
    forall k | k in OwnHeaders(lib, headers) ::
      !Redaction.Denied(policy.denylist, lib.lower, k) && headers[k] != Redaction.REDACTED
  }

  lemma HeadersComeBackIffKept(lib: Library, policy: Policy, headers: map<string, string>, order: seq<string>)
    requires CanonicalNames(lib, headers) && IsRange(order, headers)
    ensures SentHeaders(lib, Redaction.Redacted(headers, policy.denylist, lib.lower), order) == OwnHeaders(lib, headers)
      <==> HeadersKept(lib, policy, headers)
  {
    var stored := Redaction.Redacted(headers, policy.denylist, lib.lower);
    CanonicalHeadersSurvive(lib, stored, order);
    var sent, own := SentHeaders(lib, stored, order), OwnHeaders(lib, headers);
    forall k | k in own
      ensures k in sent && sent[k] == own[k]
        <==> !Redaction.Denied(policy.denylist, lib.lower, k) && headers[k] != Redaction.REDACTED
    {
    }
    if sent == own {
      assert forall k | k in own :: k in sent && sent[k] == own[k];
    }
    if HeadersKept(lib, policy, headers) {
      assert forall k | k in own :: k in sent && sent[k] == own[k];
      assert forall k | k in sent :: k in own;
    }
  }

  /** A replay sends what was captured if and only if the request had no query, its body fitted the
      preview and was not changed by redaction, and no header of its own was redacted. */
  lemma ResentIsCapturedIff(lib: Library, policy: Policy, raw: HttpRequest, e: Event, opts: Options, i: nat)
    requires Ranges(lib) && CanonicalNames(lib, raw.headers)
    requires Planned(e) && e.request == Some(Capture(lib, policy, raw))
    ensures SameRequest(lib, opts, raw, RequestFor(lib, opts, EntryOf(lib, e), i)) <==>
      raw.query == "" && BodyKept(policy, raw.body) && HeadersKept(lib, policy, raw.headers)
  {
    var entry := EntryOf(lib, e);
    var sent := RequestFor(lib, opts, entry, i);
    assert |Target(opts, raw)| == |sent.url| <==> raw.query == "";
    assert raw.query == "" ==> Target(opts, raw) == sent.url;
    assert sent.body == raw.body <==> BodyKept(policy, raw.body);
    assert IsRange(lib.visit(i, entry.headers), entry.headers);
    HeadersComeBackIffKept(lib, policy, raw.headers, lib.visit(i, entry.headers));
  }
}
