/** Recording scenarios: the scenario and event tables, the agent's start and stop, and the sink
    that tags, stores and publishes events. Calls here run one at a time; RecordingProtocol
    interleaves their steps. */
module Recording {
  import opened Wrappers
  import opened Timeline
  import opened Ordering
  import opened EventStore
  import opened Replay

  /** What a lookup by name answers when there is no such row. The code hands on sql.ErrNoRows,
      which `StartRecording` takes for a failure; it expects nil. */
  datatype NoRows = NoRowsIsError | NoRowsIsNil

  predicate NameTaken(scenarios: map<string, Scenario>, name: string) {
    exists id | id in scenarios :: scenarios[id].name == name
  }

  /** Primary key, unique name, and the foreign key: `StartRecording` leaves the id of the config
      snapshot empty, so a snapshot with the empty id has to exist. */
  predicate ScenarioInsertable(scenarios: map<string, Scenario>, snapshots: set<string>, id: string, name: string) {
    id !in scenarios && !NameTaken(scenarios, name) && "" in snapshots
  }

  predicate Startable(scenarios: map<string, Scenario>, snapshots: set<string>, noRows: NoRows, id: string,
      name: string) {
    noRows == NoRowsIsNil && ScenarioInsertable(scenarios, snapshots, id, name)
  }

  function Opened(scenarios: map<string, Scenario>, id: string, name: string): map<string, Scenario> {
    scenarios[id := Scenario(id, name, ScenarioStatus.Recording, 0, 0)]
  }

  function Closed(scenarios: map<string, Scenario>, id: string, count: nat, replayable: nat): map<string, Scenario> {
    if id !in scenarios then scenarios
    else scenarios[id := scenarios[id].(status := Completed, eventCount := count, replayableCount := replayable)]
  }

  /** Primary key and the foreign key of the tag. */
  predicate EventInsertable(events: seq<Event>, scenarios: map<string, Scenario>, e: Event) {
    (forall x | x in events :: x.id != e.id) && (e.scenarioId.Some? ==> e.scenarioId.value in scenarios)
  }

  function TaggedWith(e: Event, active: Option<string>): Event {
    if active.Some? && active.value != "" && e.scenarioId.None? then e.(scenarioId := active) else e
  }

  /** The event with a tag and nothing else changed: its own tag if it brought one, and else the
      active recording if that has an id. */
  ghost predicate CarriesTag(tagged: Event, event: Event, active: Option<string>) {
    && tagged == event.(scenarioId := tagged.scenarioId)
    && (event.scenarioId.Some? ==> tagged.scenarioId == event.scenarioId)
    && (event.scenarioId.None? && active.Some? && active.value != "" ==> tagged.scenarioId == active)
    && (event.scenarioId.None? && (active.None? || active.value == "") ==> tagged.scenarioId == None)
  }

  /** A fresh row with status `recording` and no counts. */
  ghost predicate Began(before: map<string, Scenario>, after: map<string, Scenario>, id: string, name: string) {
    && id !in before && after.Keys == before.Keys + {id} && (forall k | k in before :: after[k] == before[k])
    && after[id].id == id && after[id].name == name && after[id].status == ScenarioStatus.Recording
    && after[id].eventCount == after[id].replayableCount == 0
  }

  /** The row is completed with the counts of its stored and of its replayable events. */
  ghost predicate Ended(before: map<string, Scenario>, after: map<string, Scenario>, id: string, events: seq<Event>) {
    && id in before && after.Keys == before.Keys && (forall k | k in before && k != id :: after[k] == before[k])
    && after[id].id == before[id].id && after[id].name == before[id].name && after[id].status == Completed
    && after[id].eventCount == |Kept(|events|, TaggedAt(events, id))|
    && after[id].replayableCount == |Kept(|events|, TaggedReplayableAt(events, id))|
  }

  /** Where events carry the tag, */
  ghost function TaggedAt(events: seq<Event>, id: string): nat -> bool {
    (k: nat) => k < |events| && events[k].scenarioId == Some(id)
  }

  /** and where they also hold a request that may be replayed. */
  ghost function TaggedReplayableAt(events: seq<Event>, id: string): nat -> bool {
    (k: nat) => k < |events| && events[k].scenarioId == Some(id)
                && events[k].request.Some? && events[k].request.value.replayable
  }

  lemma {:induction false} TaggedAreCounted(events: seq<Event>, n: nat, id: string) returns (tagged: seq<Event>)
    requires n <= |events|
    ensures tagged == Tagged(events[..n], id)
    ensures |tagged| == |Kept(n, TaggedAt(events, id))|
    ensures CountReplayable(tagged) == |Kept(n, TaggedReplayableAt(events, id))|
  {
    if n == 0 {
      KeptNext(0, TaggedAt(events, id));
      KeptNext(0, TaggedReplayableAt(events, id));
      tagged := [];
    } else {
      var earlier := TaggedAreCounted(events, n - 1, id);
      KeptNext(n - 1, TaggedAt(events, id));
      KeptNext(n - 1, TaggedReplayableAt(events, id));
      tagged := NextTagged(events, n - 1, id, earlier);
    }
  }

  lemma NextTagged(events: seq<Event>, k: nat, id: string, earlier: seq<Event>) returns (tagged: seq<Event>)
    requires k < |events| && earlier == Tagged(events[..k], id)
    ensures tagged == Tagged(events[..k + 1], id)
    ensures |tagged| == |earlier| + if TaggedAt(events, id)(k) then 1 else 0
    ensures CountReplayable(tagged) == CountReplayable(earlier) + if TaggedReplayableAt(events, id)(k) then 1 else 0
  {
    var e := events[k];
    assert events[..k + 1][..k] == events[..k];
    if e.scenarioId == Some(id) {
      tagged := earlier + [e];
      assert tagged[..|earlier|] == earlier;
    } else {
      tagged := earlier;
      assert earlier + [] == earlier;
    }
  }

  lemma ClosedIsEnded(scenarios: map<string, Scenario>, events: seq<Event>, id: string)
    requires id in scenarios
    ensures var tagged := Tagged(events, id);
      Ended(scenarios, Closed(scenarios, id, |tagged|, CountReplayable(tagged)), id, events)
  {
    var tagged := TaggedAreCounted(events, |events|, id);
    assert events[..|events|] == events;
  }

  ghost predicate UniqueNames(scenarios: map<string, Scenario>) {
    && (forall id | id in scenarios :: scenarios[id].id == id)
    && forall a, b | a in scenarios && b in scenarios && scenarios[a].name == scenarios[b].name :: a == b
  }

  ghost predicate TagsExist(events: seq<Event>, scenarios: map<string, Scenario>) {
    forall e | e in events && e.scenarioId.Some? :: e.scenarioId.value in scenarios
  }

  /** The rows with status `recording` are the active one, or none. */
  ghost predicate OnlyRecording(scenarios: map<string, Scenario>, active: Option<string>) {
    && (active.Some? ==> active.value in scenarios)
    && forall id | id in scenarios :: scenarios[id].status == ScenarioStatus.Recording <==> active == Some(id)
  }

  ghost predicate Sound(scenarios: map<string, Scenario>, events: seq<Event>) {
    UniqueNames(scenarios) && DistinctIds(events) && TagsExist(events, scenarios)
  }

  /** The insert checks refuse exactly what would break the tables. */
  lemma EventInsertableIffSound(scenarios: map<string, Scenario>, events: seq<Event>, e: Event)
    requires Sound(scenarios, events)
    ensures EventInsertable(events, scenarios, e) <==> Sound(scenarios, events + [e])
  {
    var more := events + [e];
    assert more[|events|] == e;
    if Sound(scenarios, more) {
      forall x | x in events ensures x.id != e.id {
        var i :| 0 <= i < |events| && events[i] == x;
        assert OtherId()(more[i], more[|events|]);
      }
      assert e in more;
    }
  }

  lemma ScenarioInsertableIffSound(scenarios: map<string, Scenario>, events: seq<Event>, snapshots: set<string>,
      id: string, name: string)
    requires Sound(scenarios, events) && "" in snapshots && id !in scenarios
    ensures ScenarioInsertable(scenarios, snapshots, id, name) <==> Sound(Opened(scenarios, id, name), events)
  {
    var more := Opened(scenarios, id, name);
    assert more[id].name == name;
    if NameTaken(scenarios, name) {
      var other :| other in scenarios && scenarios[other].name == name;
      assert more[other].name == more[id].name && other != id;
    }
  }

  class Database {
    var scenarios: map<string, Scenario>
    var events: seq<Event>
    const configSnapshots: set<string>
    const noRows: NoRows

    /** The constraints of the two tables. */
    ghost predicate Valid()
      reads this
    {
      Sound(scenarios, events)
    }

    constructor (configSnapshots: set<string>, noRows: NoRows)
      ensures Valid() && scenarios == map[] && events == []
      ensures this.configSnapshots == configSnapshots && this.noRows == noRows
    {
      scenarios, events := map[], [];
      this.configSnapshots, this.noRows := configSnapshots, noRows;
    }

    method GetByName(name: string, fails: bool) returns (r: Result<Option<Scenario>, string>)
      ensures r.Err? <==> fails || ((forall s | s in scenarios.Values :: s.name != name) && noRows == NoRowsIsError)
      ensures r.Ok? ==> (r.value.Some? <==> exists s | s in scenarios.Values :: s.name == name)
      ensures r.Ok? && r.value.Some? ==> r.value.value.name == name && r.value.value in scenarios.Values
    {
      if fails {
        return Err("storage: lookup");
      }
      if NameTaken(scenarios, name) {
        var id :| id in scenarios && scenarios[id].name == name;
        return Ok(Some(scenarios[id]));
      }
      r := if noRows == NoRowsIsError then Err("sql: no rows in result set") else Ok(None);
    }

    method InsertScenario(id: string, name: string, fails: bool) returns (ok: bool)
      requires Valid()
      modifies this`scenarios
      ensures Valid()
      ensures ok <==> !fails && ScenarioInsertable(old(scenarios), configSnapshots, id, name)
      ensures ok <==>
        !fails && id !in old(scenarios) && "" in configSnapshots && Sound(Opened(old(scenarios), id, name), events)
      ensures scenarios == if ok then Opened(old(scenarios), id, name) else old(scenarios)
    {
      if id !in scenarios && "" in configSnapshots {
        ScenarioInsertableIffSound(scenarios, events, configSnapshots, id, name);
      }
      ok := !fails && ScenarioInsertable(scenarios, configSnapshots, id, name);
      if ok {
        scenarios := Opened(scenarios, id, name);
      }
    }

    method UpdateStatus(id: string, count: nat, replayable: nat, fails: bool)
      requires Valid()
      modifies this`scenarios
      ensures Valid()
      ensures scenarios == if fails then old(scenarios) else Closed(old(scenarios), id, count, replayable)
    {
      if !fails {
        scenarios := Closed(scenarios, id, count, replayable);
      }
    }

    method InsertEvent(e: Event, fails: bool) returns (ok: bool)
      requires Valid()
      modifies this`events
      ensures Valid()
      ensures ok <==> !fails && EventInsertable(old(events), scenarios, e)
      ensures ok <==> !fails && Sound(scenarios, old(events) + [e])
      ensures events == if ok then old(events) + [e] else old(events)
    {
      EventInsertableIffSound(scenarios, events, e);
      ok := !fails && EventInsertable(events, scenarios, e);
      if ok {
        events := events + [e];
      }
    }
  }

  class Agent {
    const db: Database
    var activeRecording: Option<string>
    var published: seq<Event>

    /** The active recording is the one row with status `recording`, and what was published was
        stored before. */
    ghost predicate Valid()
      reads this, db
    {
      && db.Valid()
      && OnlyRecording(db.scenarios, activeRecording)
      && forall e | e in published :: e in db.events
    }

    /** No row is left over with status `recording`. */
    constructor (db: Database)
      requires db.Valid() && OnlyRecording(db.scenarios, None)
      ensures Valid() && this.db == db && activeRecording == None && published == []
    {
      this.db := db;
      activeRecording := None;
      published := [];
    }

    /** Succeeds exactly when nothing is being recorded, the lookup says the name is free, and the
        row can be inserted; otherwise changes nothing. */
    method StartRecording(name: string, newId: string, lookupFails: bool, insertFails: bool)
        returns (r: Result<string, string>)
      requires Valid()
      modifies this`activeRecording, db`scenarios
      ensures Valid()
      ensures r.Ok? <==>
        && old(activeRecording) == None && !lookupFails && !insertFails && db.noRows == NoRowsIsNil
        && newId !in old(db.scenarios) && (forall s | s in old(db.scenarios).Values :: s.name != name)
        && "" in db.configSnapshots
      ensures r.Ok? ==>
        && r.value == newId && activeRecording == Some(newId)
        && Began(old(db.scenarios), db.scenarios, newId, name) && db.scenarios == Opened(old(db.scenarios), newId, name)
      ensures r.Err? ==> activeRecording == old(activeRecording) && db.scenarios == old(db.scenarios)
    {
      if activeRecording.Some? {
        return Err("recording already active");
      }
      var existing := db.GetByName(name, lookupFails);
      if existing.Err? {
        return Err("agent: check scenario name");
      }
      if existing.value.Some? {
        return Err("scenario already exists");
      }
      var ok := db.InsertScenario(newId, name, insertFails);
      if !ok {
        return Err("agent: insert scenario");
      }
      activeRecording := Some(newId);
      r := Ok(newId);
    }

    /** Freezes the counts of the tagged events stored by now. */
    method StopRecording(listFails: bool, updateFails: bool) returns (r: Result<string, string>)
      requires Valid()
      modifies this`activeRecording, db`scenarios
      ensures Valid()
      ensures r.Ok? <==> old(activeRecording).Some? && !listFails && !updateFails
      ensures r.Ok? ==>
        var id := old(activeRecording).value;
        && r.value == id && activeRecording == None
        && Ended(old(db.scenarios), db.scenarios, id, db.events)
        && db.scenarios ==
             Closed(old(db.scenarios), id, |Tagged(db.events, id)|, CountReplayable(Tagged(db.events, id)))
      ensures r.Err? ==> activeRecording == old(activeRecording) && db.scenarios == old(db.scenarios)
    {
      if activeRecording.None? {
        return Err("no active recording");
      }
      if listFails {
        return Err("agent: list scenario events");
      }
      var id := activeRecording.value;
      var count, replayableCount := CountListed(id);
      ClosedIsEnded(db.scenarios, db.events, id);
      db.UpdateStatus(id, count, replayableCount, updateFails);
      if updateFails {
        return Err("agent: update scenario");
      }
      activeRecording := None;
      r := Ok(id);
    }

    /** The listing of a scenario and the counting loop over it. */
    method CountListed(id: string) returns (count: nat, replayableCount: nat)
      ensures count == |Tagged(db.events, id)| && replayableCount == CountReplayable(Tagged(db.events, id))
    {
      var events := ListByScenario(db.events, id);
      replayableCount := 0;
      for i := 0 to |events|
        invariant replayableCount == CountReplayable(events[..i])
      {
        assert events[..i + 1][..i] == events[..i];
        if events[i].request.Some? && events[i].request.value.replayable {
          replayableCount := replayableCount + 1;
        }
      }
      assert events[..|events|] == events;
      ArrangedRows(Tagged(db.events, id), false);
      CountArranged(Tagged(db.events, id), false);
      count := |events|;
    }

    function ActiveRecording(): Option<string>
      reads this`activeRecording
    {
      activeRecording
    }

    /** The sink: an event is published only after it was stored, with the tag it was stored with. */
    method Emit(event: Event, insertFails: bool) returns (ok: bool)
      requires Valid()
      modifies this`published, db`events
      ensures Valid()
      ensures ok <==> event.valid && !insertFails
                      && EventInsertable(old(db.events), db.scenarios, TaggedWith(event, activeRecording))
      ensures ok <==>
        && event.valid && !insertFails && (forall x | x in old(db.events) :: x.id != event.id)
        && (event.scenarioId.Some? ==> event.scenarioId.value in db.scenarios)
      ensures ok ==> db.events == old(db.events) + [TaggedWith(event, activeRecording)]
                     && published == old(published) + [TaggedWith(event, activeRecording)]
      ensures ok ==> CarriesTag(db.events[|db.events| - 1], event, activeRecording)
      ensures !ok ==> db.events == old(db.events) && published == old(published)
    {
      if !event.valid {
        return false;
      }
      var tagged := event;
      var active := ActiveRecording();
      if active.Some? && active.value != "" && event.scenarioId.None? {
        tagged := event.(scenarioId := active);
      }
      ok := db.InsertEvent(tagged, insertFails);
      if ok {
        published := published + [tagged];
      }
    }
  }

  // --- Counting does not depend on the order of the listing ---

  lemma {:induction false} CountSplits(a: seq<Event>, b: seq<Event>)
    ensures CountReplayable(a + b) == CountReplayable(a) + CountReplayable(b)
  {
    if b == [] {
      assert a + b == a;
    } else {
      assert (a + b)[..|a + b| - 1] == a + b[..|b| - 1];
      CountSplits(a, b[..|b| - 1]);
    }
  }

  lemma {:induction false} CountPlaced(events: seq<Event>, e: Event, newestFirst: bool)
    ensures CountReplayable(Placed(events, e, newestFirst)) == CountReplayable(events) + CountReplayable([e])
  {
    if events == [] || Rank(e, newestFirst) < Rank(events[0], newestFirst) {
      CountSplits([e], events);
    } else {
      CountPlaced(events[1..], e, newestFirst);
      CountSplits([events[0]], Placed(events[1..], e, newestFirst));
      CountSplits([events[0]], events[1..]);
      assert events == [events[0]] + events[1..];
    }
  }

  lemma {:induction false} CountArranged(events: seq<Event>, newestFirst: bool)
    ensures CountReplayable(Arranged(events, newestFirst)) == CountReplayable(events)
  {
    if events != [] {
      var init, last := events[..|events| - 1], events[|events| - 1];
      CountArranged(init, newestFirst);
      CountPlaced(Arranged(init, newestFirst), last, newestFirst);
      assert Arranged(events, newestFirst) == Placed(Arranged(init, newestFirst), last, newestFirst);
      assert CountReplayable([last]) == if Replayable(last) then 1 else 0 by {
        assert [last][..0] == [];
      }
    }
  }
}
