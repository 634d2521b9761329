/** Start, stop and any number of emitters, step by step. Start and stop hold the agent's lock
    from their first step to their last. An emitter needs that lock only to read the active
    recording; it stores and publishes later, possibly after the recording was stopped. */
module RecordingProtocol {
  import opened Wrappers
  import opened Timeline
  import opened EventStore
  import opened Recording
  import Replay

  datatype Emitter =
    | Idle
    | Validated(event: Event)
    | Holding(event: Event)  // has read the active recording, has not stored yet
    | Stored(event: Event)

  /** What a stop saw: the counts, the emitters then holding the tag, and how long the list of
      notes was. */
  datatype Frozen = Frozen(count: nat, replayable: nat, held: nat, mark: nat)

  datatype Writer =
    | Free
    | StartHeld(name: string)
    | StartInserted(id: string)
    | StopHeld
    | StopCounted(frozen: Frozen)
    | StopUpdated

  /** Things that befall a tag: an emitter brought it along, or the insert of a tagged event failed. */
  datatype Note = Brought(tag: string) | Lost(tag: string)

  datatype State = State(scenarios: map<string, Scenario>, events: seq<Event>, active: Option<string>, writer: Writer,
                         emitters: seq<Emitter>, published: seq<Event>, notes: seq<Note>, frozen: map<string, Frozen>,
                         noRows: NoRows, snapshots: set<string>)

  datatype Step =
    | Arrive(i: nat, event: Event)
    | Tag(i: nat)
    | Store(i: nat, ok: bool)
    | Publish(i: nat)
    | LockStart(name: string)
    | StartInsert(id: string, ok: bool)
    | StartActivate
    | LockStop
    | StopList(ok: bool)
    | StopUpdate(ok: bool)
    | StopClear

  predicate CanStep(s: State, step: Step) {
    match step
    case Arrive(i, event) => i < |s.emitters| && s.emitters[i].Idle? && event.valid
    case Tag(i) => i < |s.emitters| && s.emitters[i].Validated? && s.writer.Free?
    case Store(i, _) => i < |s.emitters| && s.emitters[i].Holding?
    case Publish(i) => i < |s.emitters| && s.emitters[i].Stored?
    case LockStart(_) => s.writer.Free? && s.active.None?
    case StartInsert(_, _) => s.writer.StartHeld?
    case StartActivate => s.writer.StartInserted?
    case LockStop => s.writer.Free? && s.active.Some?
    case StopList(_) => s.writer.StopHeld? && s.active.Some?
    case StopUpdate(_) => s.writer.StopCounted? && s.active.Some?
    case StopClear => s.writer.StopUpdated?
  }

  function Next(s: State, step: Step): State
    requires CanStep(s, step)
  {
    match step
    case Arrive(i, event) => s.(emitters := s.emitters[i := Validated(event)])
    case Tag(i) =>
      var event := s.emitters[i].event;
      s.(emitters := s.emitters[i := Holding(TaggedWith(event, s.active))],
         notes := if event.scenarioId.Some? then s.notes + [Brought(event.scenarioId.value)] else s.notes)
    case Store(i, ok) =>
      var event := s.emitters[i].event;
      if ok && EventInsertable(s.events, s.scenarios, event) then
        s.(events := s.events + [event], emitters := s.emitters[i := Stored(event)])
      else
        s.(emitters := s.emitters[i := Idle],
           notes := if event.scenarioId.Some? then s.notes + [Lost(event.scenarioId.value)] else s.notes)
    case Publish(i) =>
      s.(published := s.published + [s.emitters[i].event], emitters := s.emitters[i := Idle])
    case LockStart(name) => s.(writer := StartHeld(name))
    case StartInsert(id, ok) =>
      if ok && Startable(s.scenarios, s.snapshots, s.noRows, id, s.writer.name) then
        s.(scenarios := Opened(s.scenarios, id, s.writer.name), writer := StartInserted(id))
      else s.(writer := Free)
    case StartActivate => s.(active := Some(s.writer.id), writer := Free)
    case LockStop => s.(writer := StopHeld)
    case StopList(ok) =>
      s.(writer := if ok then StopCounted(Seen(s, s.active.value)) else Free)
    case StopUpdate(ok) =>
      if ok then
        s.(scenarios := Closed(s.scenarios, s.active.value, s.writer.frozen.count, s.writer.frozen.replayable),
           frozen := s.frozen[s.active.value := s.writer.frozen], writer := StopUpdated)
      else s.(writer := Free)
    case StopClear => s.(active := None, writer := Free)
  }

  /** An emitter waits for the lock only to read the active recording; it stores and publishes
      whoever holds it. */
  lemma EmitterWaitsOnlyToTag(s: State, i: nat, event: Event, ok: bool)
    requires i < |s.emitters|
    ensures s.emitters[i].Idle? && event.valid ==> CanStep(s, Arrive(i, event))
    ensures s.emitters[i].Validated? ==> (CanStep(s, Tag(i)) <==> s.writer == Free)
    ensures s.emitters[i].Holding? ==> CanStep(s, Store(i, ok))
    ensures s.emitters[i].Stored? ==> CanStep(s, Publish(i))
  {
  }

  ghost predicate IsRun(s: State, steps: seq<Step>)
    decreases |steps|
  {
    steps == [] || (CanStep(s, steps[0]) && IsRun(Next(s, steps[0]), steps[1..]))
  }

  ghost function After(s: State, steps: seq<Step>): State
    requires IsRun(s, steps)
    decreases |steps|
  {
    if steps == [] then s else After(Next(s, steps[0]), steps[1..])
  }

  ghost predicate Reaches(s: State, end: State) {
    exists steps :: IsRun(s, steps) && After(s, steps) == end
  }

  lemma {:induction false} OneMore(s: State, steps: seq<Step>, last: Step)
    requires IsRun(s, steps) && CanStep(After(s, steps), last)
    ensures IsRun(s, steps + [last]) && After(s, steps + [last]) == Next(After(s, steps), last)
    decreases |steps|
  {
    if steps == [] {
      assert ([] + [last])[1..] == [];
    } else {
      OneMore(Next(s, steps[0]), steps[1..], last);
      assert (steps + [last])[1..] == steps[1..] + [last];
    }
  }

  lemma ReachesNext(s: State, mid: State, step: Step) returns (end: State)
    requires Reaches(s, mid) && CanStep(mid, step)
    ensures end == Next(mid, step) && Reaches(s, end)
  {
    end := Next(mid, step);
    var steps :| IsRun(s, steps) && After(s, steps) == mid;
    OneMore(s, steps, step);
  }

  lemma ReachesItself(s: State)
    ensures Reaches(s, s)
  {
    assert IsRun(s, []) && After(s, []) == s;
  }

  /** Undisturbed, the steps of a start do what `Agent.StartRecording` does, failures included:
      `ok` says that neither the lookup nor the insert fails. */
  lemma LoneStartRefinesAgent(s: State, name: string, id: string, ok: bool) returns (end: State)
    requires s.writer.Free? && s.active.None?
    ensures Reaches(s, end)
    ensures end == if ok && Startable(s.scenarios, s.snapshots, s.noRows, id, name)
                   then s.(scenarios := Opened(s.scenarios, id, name), active := Some(id)) else s
  {
    ReachesItself(s);
    end := ReachesNext(s, s, LockStart(name));
    end := ReachesNext(s, end, StartInsert(id, ok));
    if end.writer.StartInserted? {
      end := ReachesNext(s, end, StartActivate);
    }
  }

  /** What a stop freezes. */
  function Seen(s: State, tag: string): Frozen {
    var tagged := Tagged(s.events, tag);
    Frozen(|tagged|, Replay.CountReplayable(tagged), Held(s.emitters, tag), |s.notes|)
  }

  /** Undisturbed, the steps of a stop do what `Agent.StopRecording` does, failures included. */
  lemma LoneStopRefinesAgent(s: State, listOk: bool, updateOk: bool) returns (end: State)
    requires s.writer.Free? && s.active.Some?
    ensures Reaches(s, end)
    ensures var seen := Seen(s, s.active.value);
      end == if listOk && updateOk
             then s.(scenarios := Closed(s.scenarios, s.active.value, seen.count, seen.replayable),
                     frozen := s.frozen[s.active.value := seen], active := None)
             else s
  {
    ReachesItself(s);
    end := ReachesNext(s, s, LockStop);
    end := ReachesNext(s, end, StopList(listOk));
    if listOk {
      end := ReachesNext(s, end, StopUpdate(updateOk));
      if updateOk {
        end := ReachesNext(s, end, StopClear);
      }
    }
  }

  /** Undisturbed, the steps of an emitter do what `Agent.Emit` does: the event is stored and then
      published with its tag, or neither. */
  lemma LoneEmitRefinesAgent(s: State, i: nat, event: Event, ok: bool) returns (end: State, tagged: Event)
    requires i < |s.emitters| && s.emitters[i] == Idle && s.writer.Free? && event.valid
    ensures Reaches(s, end) && CarriesTag(tagged, event, s.active)
    ensures var stored := ok && (forall x | x in s.events :: x.id != event.id)
                          && (tagged.scenarioId.Some? ==> tagged.scenarioId.value in s.scenarios);
      end == s.(events := s.events + if stored then [tagged] else [],
                published := s.published + if stored then [tagged] else [], notes := end.notes)
  {
    tagged := TaggedWith(event, s.active);
    ReachesItself(s);
    end := ReachesNext(s, s, Arrive(i, event));
    end := ReachesNext(s, end, Tag(i));
    end := ReachesNext(s, end, Store(i, ok));
    if end.emitters[i].Stored? {
      end := ReachesNext(s, end, Publish(i));
    }
    assert s.events + [] == s.events && s.published + [] == s.published;
    assert end.emitters == s.emitters;
  }

  // --- Counting ---

  predicate Holds(e: Emitter, tag: string) {
    e.Holding? && e.event.scenarioId == Some(tag)
  }

  /** Emitters that hold an event with the tag and have not stored it yet. */
  function Held(emitters: seq<Emitter>, tag: string): nat {
    if emitters == [] then 0 else (if Holds(emitters[0], tag) then 1 else 0) + Held(emitters[1..], tag)
  }

  function CountNote(notes: seq<Note>, note: Note): nat {
    if notes == [] then 0 else CountNote(notes[..|notes| - 1], note) + if notes[|notes| - 1] == note then 1 else 0
  }

  lemma {:induction false} HeldUpdate(emitters: seq<Emitter>, i: nat, e: Emitter, tag: string)
    requires i < |emitters|
    ensures Held(emitters[i := e], tag) ==
      Held(emitters, tag) + (if Holds(e, tag) then 1 else 0) - (if Holds(emitters[i], tag) then 1 else 0)
  {
    if i == 0 {
      assert emitters[0 := e][1..] == emitters[1..];
    } else {
      HeldUpdate(emitters[1..], i - 1, e, tag);
      assert emitters[i := e][1..] == emitters[1..][i - 1 := e];
    }
  }

  lemma NotesMore(notes: seq<Note>, mark: nat, n: Note, note: Note)
    requires mark <= |notes|
    ensures CountNote((notes + [n])[mark..], note) == CountNote(notes[mark..], note) + if n == note then 1 else 0
  {
    assert (notes + [n])[mark..] == notes[mark..] + [n];
    assert (notes[mark..] + [n])[..|notes[mark..]|] == notes[mark..];
  }

  lemma TaggedMore(events: seq<Event>, e: Event, tag: string)
    ensures Tagged(events + [e], tag) == if e.scenarioId == Some(tag) then Tagged(events, tag) + [e]
      else Tagged(events, tag)
  {
    assert (events + [e])[..|events|] == events;
  }

  lemma ReplayableMore(events: seq<Event>, e: Event)
    ensures Replay.CountReplayable(events + [e]) == Replay.CountReplayable(events) + if Replayable(e) then 1 else 0
  {
    assert (events + [e])[..|events|] == events;
  }

  // --- The books of a stopped scenario ---

  /** Since the listing that froze the counts: every event stored with the tag, or still held, was
      held then or brought the tag along; the others lost their insert. */
  ghost predicate Balanced(s: State, tag: string, f: Frozen) {
    var tagged := Tagged(s.events, tag);
    && f.mark <= |s.notes|
    && |tagged| + Held(s.emitters, tag) + CountNote(s.notes[f.mark..], Lost(tag))
         == f.count + f.held + CountNote(s.notes[f.mark..], Brought(tag))
    && f.count <= |tagged|
    && f.replayable <= Replay.CountReplayable(tagged) <= f.replayable + (|tagged| - f.count)
  }

  lemma TagKeepsBalance(s: State, i: nat, tag: string, f: Frozen)
    requires CanStep(s, Tag(i)) && Balanced(s, tag, f) && s.active != Some(tag)
    ensures Balanced(Next(s, Tag(i)), tag, f)
  {
    var event := s.emitters[i].event;
    HeldUpdate(s.emitters, i, Holding(TaggedWith(event, s.active)), tag);
    if event.scenarioId.Some? {
      NotesMore(s.notes, f.mark, Brought(event.scenarioId.value), Brought(tag));
      NotesMore(s.notes, f.mark, Brought(event.scenarioId.value), Lost(tag));
    }
  }

  lemma StoreKeepsBalance(s: State, i: nat, ok: bool, tag: string, f: Frozen)
    requires CanStep(s, Store(i, ok)) && Balanced(s, tag, f)
    ensures Balanced(Next(s, Store(i, ok)), tag, f)
  {
    var event := s.emitters[i].event;
    if ok && EventInsertable(s.events, s.scenarios, event) {
      HeldUpdate(s.emitters, i, Stored(event), tag);
      TaggedMore(s.events, event, tag);
      ReplayableMore(Tagged(s.events, tag), event);
    } else {
      HeldUpdate(s.emitters, i, Idle, tag);
      if event.scenarioId.Some? {
        NotesMore(s.notes, f.mark, Lost(event.scenarioId.value), Brought(tag));
        NotesMore(s.notes, f.mark, Lost(event.scenarioId.value), Lost(tag));
      }
    }
  }

  lemma StepKeepsBalance(s: State, step: Step, tag: string, f: Frozen)
    requires CanStep(s, step) && Balanced(s, tag, f)
    requires step.Tag? ==> s.active != Some(tag)
    ensures Balanced(Next(s, step), tag, f)
  {
    match step
    case Arrive(i, event) => HeldUpdate(s.emitters, i, Validated(event), tag);
    case Tag(i) => TagKeepsBalance(s, i, tag, f);
    case Store(i, ok) => StoreKeepsBalance(s, i, ok, tag, f);
    case Publish(i) => HeldUpdate(s.emitters, i, Idle, tag);
    case _ =>
  }

  // --- What every step keeps ---

  /** The active recording is the one row with status `recording`, but for the moments inside a
      start or stop, under the lock, in which only one of the two has been written. */
  ghost predicate OneRecording(s: State) {
    && (s.active.Some? ==> s.active.value in s.scenarios)
    && (s.writer.StartHeld? || s.writer.StartInserted? ==> s.active.None?)
    && (s.writer.StopHeld? || s.writer.StopCounted? || s.writer.StopUpdated? ==> s.active.Some?)
    && (s.writer.StartInserted? ==> s.writer.id in s.scenarios)
    && forall id | id in s.scenarios ::
         s.scenarios[id].status == ScenarioStatus.Recording <==>
           if s.writer.StartInserted? then id == s.writer.id
           else s.active == Some(id) && !s.writer.StopUpdated?
  }

  ghost predicate SoundEvents(s: State) {
    && TagsExist(s.events, s.scenarios)
    && DistinctIds(s.events)
    && (forall e | e in s.published :: e in s.events)
    && forall i :: 0 <= i < |s.emitters| && s.emitters[i].Stored? ==> s.emitters[i].event in s.events
  }

  ghost predicate SoundBooks(s: State) {
    && (s.writer.StopCounted? ==>
         s.active.Some? && s.active.value !in s.frozen && Balanced(s, s.active.value, s.writer.frozen))
    && (s.active.Some? && s.active.value in s.frozen ==> s.writer.StopUpdated?)
    && (forall id | id in s.frozen :: Balanced(s, id, s.frozen[id]))
    && (s.writer.StartInserted? ==> s.writer.id !in s.frozen)
    && forall id | id in s.frozen ::
         id in s.scenarios && s.scenarios[id].eventCount == s.frozen[id].count &&
           s.scenarios[id].replayableCount == s.frozen[id].replayable
  }

  ghost predicate Inv(s: State) {
    OneRecording(s) && UniqueNames(s.scenarios) && SoundEvents(s) && SoundBooks(s)
  }

  lemma StepKeepsOneRecording(s: State, step: Step)
    requires Inv(s) && CanStep(s, step)
    ensures OneRecording(Next(s, step)) && UniqueNames(Next(s, step).scenarios)
  {
  }

  lemma StepKeepsEvents(s: State, step: Step)
    requires Inv(s) && CanStep(s, step)
    ensures SoundEvents(Next(s, step))
  {
    var s' := Next(s, step);
    forall i | 0 <= i < |s'.emitters| && s'.emitters[i].Stored? ensures s'.emitters[i].event in s'.events {
      if s'.emitters[i] != s.emitters[i] {
        assert step.Store? && s'.events[|s.events|] == s'.emitters[i].event;
      }
    }
  }

  predicate ByEmitter(step: Step) {
    step.Arrive? || step.Tag? || step.Store? || step.Publish?
  }

  lemma EmitterKeepsBooks(s: State, step: Step)
    requires Inv(s) && CanStep(s, step) && ByEmitter(step)
    ensures SoundBooks(Next(s, step))
  {
    var s' := Next(s, step);
    assert s'.frozen == s.frozen && s'.scenarios == s.scenarios && s'.writer == s.writer && s'.active == s.active;
    forall id | id in s.frozen ensures Balanced(s', id, s.frozen[id]) {
      StepKeepsBalance(s, step, id, s.frozen[id]);
    }
    if s.writer.StopCounted? {
      StepKeepsBalance(s, step, s.active.value, s.writer.frozen);
    }
  }

  /** The books speak of events, emitters and notes only. */
  lemma SameBooks(s: State, s': State, tag: string, f: Frozen)
    requires Balanced(s, tag, f) && s'.events == s.events && s'.emitters == s.emitters && s'.notes == s.notes
    ensures Balanced(s', tag, f)
  {
  }

  lemma FreshListingBalances(s: State, tag: string)
    ensures Balanced(s, tag, Seen(s, tag))
  {
    assert s.notes[|s.notes|..] == [];
  }

  lemma ListingKeepsBooks(s: State, ok: bool)
    requires OneRecording(s) && SoundBooks(s) && CanStep(s, StopList(ok))
    ensures SoundBooks(Next(s, StopList(ok)))
  {
    var s' := Next(s, StopList(ok));
    FreshListingBalances(s, s.active.value);
    if ok {
      SameBooks(s, s', s.active.value, s'.writer.frozen);
    }
    forall id | id in s.frozen ensures Balanced(s', id, s.frozen[id]) {
      SameBooks(s, s', id, s.frozen[id]);
    }
  }

  lemma UpdateKeepsBooks(s: State, ok: bool)
    requires OneRecording(s) && SoundBooks(s) && CanStep(s, StopUpdate(ok))
    ensures SoundBooks(Next(s, StopUpdate(ok)))
  {
    var s' := Next(s, StopUpdate(ok));
    SameBooks(s, s', s.active.value, s.writer.frozen);
    forall id | id in s.frozen ensures Balanced(s', id, s.frozen[id]) {
      SameBooks(s, s', id, s.frozen[id]);
    }
  }

  lemma WriterKeepsBooks(s: State, step: Step)
    requires OneRecording(s) && SoundBooks(s) && CanStep(s, step) && !ByEmitter(step)
    ensures SoundBooks(Next(s, step))
  {
    if step.StopList? {
      ListingKeepsBooks(s, step.ok);
    } else if step.StopUpdate? {
      UpdateKeepsBooks(s, step.ok);
    } else {
      var s' := Next(s, step);
      forall id | id in s.frozen ensures Balanced(s', id, s.frozen[id]) {
        SameBooks(s, s', id, s.frozen[id]);
      }
    }
  }

  lemma {:induction false} RunKeepsInv(s: State, steps: seq<Step>)
    requires IsRun(s, steps) && Inv(s)
    ensures Inv(After(s, steps))
    decreases |steps|
  {
    if steps != [] {
      StepKeepsOneRecording(s, steps[0]);
      StepKeepsEvents(s, steps[0]);
      if ByEmitter(steps[0]) {
        EmitterKeepsBooks(s, steps[0]);
      } else {
        WriterKeepsBooks(s, steps[0]);
      }
      RunKeepsInv(Next(s, steps[0]), steps[1..]);
    }
  }

  /** A database without a stale `recording` row, and an agent that just came up. */
  ghost predicate Initial(s: State) {
    && s.active == None && s.writer == Free && s.frozen == map[] && s.published == [] && s.notes == []
    && (forall i :: 0 <= i < |s.emitters| ==> s.emitters[i] == Idle)
    && UniqueNames(s.scenarios) && OnlyRecording(s.scenarios, None)
    && TagsExist(s.events, s.scenarios)
    && DistinctIds(s.events)
  }

  /** In every reachable state, failed inserts and updates included: while nobody is inside a start
      or stop, the agent's active recording is exactly the one row with status `recording`;
      names stay unique, tags name existing scenarios, and what was published was stored before. */
  lemma RecordingInvariant(s: State, steps: seq<Step>)
    requires Initial(s) && IsRun(s, steps)
    ensures var t := After(s, steps);
      && (t.writer.Free? ==> OnlyRecording(t.scenarios, t.active))
      && UniqueNames(t.scenarios) && DistinctIds(t.events) && TagsExist(t.events, t.scenarios)
      && (forall e | e in t.published :: e in t.events)
  {
    RunKeepsInv(s, steps);
  }

  /** Events with the tag that were stored after the stop counted. */
  function Late(t: State, tag: string, f: Frozen): int
    requires f.mark <= |t.notes|
  {
    f.held + CountNote(t.notes[f.mark..], Brought(tag)) - CountNote(t.notes[f.mark..], Lost(tag)) -
      Held(t.emitters, tag)
  }

  /** The event count frozen by a stop is at most the number of stored events with the tag, for
      ever after; the exact difference is what was held when the stop counted, plus what was
      brought since, less what lost its insert since and what is still held. The replayable
      count, and with it the plan of a later replay, is off by at most as much. */
  lemma FrozenCountLags(s: State, steps: seq<Step>, id: string, lib: Replay.Library)
    requires Initial(s) && IsRun(s, steps) && id in After(s, steps).frozen
    ensures var t := After(s, steps);
      var f := t.frozen[id];
      && id in t.scenarios && f.mark <= |t.notes|
      && 0 <= Late(t, id, f)
      && |Tagged(t.events, id)| == t.scenarios[id].eventCount + Late(t, id, f)
      && t.scenarios[id].replayableCount <= Replay.CountReplayable(Tagged(t.events, id))
           <= t.scenarios[id].replayableCount + Late(t, id, f)
      && |Replay.PlanOf(lib, ListByScenario(t.events, id))| <= t.scenarios[id].replayableCount + Late(t, id, f)
  {
    RunKeepsInv(s, steps);
    var t := After(s, steps);
    assert Balanced(t, id, t.frozen[id]);
    Replay.PlanIsReplayable(lib, ListByScenario(t.events, id));
    CountArranged(Tagged(t.events, id), false);
  }

  /** With no emitter holding the tag when the stop counted, and none bringing it since, the frozen
      event count is exact and the plan of a later replay is no longer than the frozen
      replayable count. */
  lemma QuietStopIsExact(s: State, steps: seq<Step>, id: string, lib: Replay.Library)
    requires Initial(s) && IsRun(s, steps) && id in After(s, steps).frozen
    requires var t := After(s, steps);
      var f := t.frozen[id];
      f.mark <= |t.notes| && f.held == 0 && CountNote(t.notes[f.mark..], Brought(id)) == 0
    ensures var t := After(s, steps);
      && id in t.scenarios && t.scenarios[id].eventCount == |Tagged(t.events, id)|
      && |Replay.PlanOf(lib, ListByScenario(t.events, id))| <= t.scenarios[id].replayableCount
  {
    FrozenCountLags(s, steps, id, lib);
  }

  /** As the code stands a free name makes the lookup fail, and every start with it: in no run
      does a recording ever become active. */
  lemma {:induction false} NothingIsRecordedAsCoded(s: State, steps: seq<Step>)
    requires IsRun(s, steps) && s.active.None? && !s.writer.StartInserted?
    requires s.noRows == NoRowsIsError || "" !in s.snapshots
    ensures After(s, steps).active.None? && After(s, steps).scenarios == s.scenarios
    decreases |steps|
  {
    if steps != [] {
      NothingIsRecordedAsCoded(Next(s, steps[0]), steps[1..]);
    }
  }

  /** The lag is real: an emitter that reads the tag before the stop and stores after it leaves a
      completed scenario with one event more than its frozen count. */
  lemma LateInsertIsNotCounted(s: State, name: string, id: string, event: Event) returns (end: State)
    requires Initial(s) && s.emitters == [Idle] && s.events == []
    requires Startable(s.scenarios, s.snapshots, s.noRows, id, name) && id != ""
    requires event.valid && event.scenarioId.None?
    ensures Reaches(s, end) && end.writer.Free? && end.active.None?
    ensures id in end.scenarios && end.scenarios[id].eventCount == 0 && |Tagged(end.events, id)| == 1
  {
    end := LoneStartRefinesAgent(s, name, id, true);
    end := EmitterTags(s, end, event, id);
    end := StopKeepsReach(s, end);
    end := LateStore(s, end, TaggedWith(event, Some(id)), id);
  }

  lemma EmitterTags(s: State, mid: State, event: Event, id: string) returns (end: State)
    requires Reaches(s, mid) && mid.writer.Free? && mid.active == Some(id) && mid.emitters == [Idle] && event.valid
    ensures Reaches(s, end) && end.emitters == [Holding(TaggedWith(event, Some(id)))]
    ensures end.writer == mid.writer && end.active == mid.active && end.scenarios == mid.scenarios &&
      end.events == mid.events
  {
    end := ReachesNext(s, mid, Arrive(0, event));
    end := ReachesNext(s, end, Tag(0));
  }

  lemma LateStore(s: State, mid: State, tagged: Event, id: string) returns (end: State)
    requires Reaches(s, mid) && mid.emitters == [Holding(tagged)] && mid.events == []
    requires id in mid.scenarios && tagged.scenarioId == Some(id)
    ensures Reaches(s, end) && end.scenarios == mid.scenarios && end.writer == mid.writer && end.active == mid.active
    ensures |Tagged(end.events, id)| == 1
  {
    TaggedMore([], tagged, id);
    assert Tagged([], id) == [];
    assert EventInsertable(mid.events, mid.scenarios, tagged);
    end := ReachesNext(s, mid, Store(0, true));
    assert end == mid.(events := [] + [tagged], emitters := mid.emitters[0 := Stored(tagged)]);
  }

  lemma StopKeepsReach(s: State, mid: State) returns (end: State)
    requires Reaches(s, mid) && mid.writer.Free? && mid.active.Some? && mid.active.value in mid.scenarios
    ensures Reaches(s, end) && end.writer.Free? && end.active.None?
    ensures end.scenarios.Keys == mid.scenarios.Keys
    ensures end.scenarios[mid.active.value].eventCount == |Tagged(mid.events, mid.active.value)|
    ensures end.events == mid.events && end.emitters == mid.emitters
  {
    end := LoneStopRefinesAgent(mid, true, true);
    ReachesFurther(s, mid, end);
  }

  lemma ReachesFurther(s: State, mid: State, end: State)
    requires Reaches(s, mid) && Reaches(mid, end)
    ensures Reaches(s, end)
  {
    var first :| IsRun(s, first) && After(s, first) == mid;
    var then_ :| IsRun(mid, then_) && After(mid, then_) == end;
    RunsJoin(s, first, then_);
  }

  lemma {:induction false} RunsJoin(s: State, first: seq<Step>, then_: seq<Step>)
    requires IsRun(s, first) && IsRun(After(s, first), then_)
    ensures IsRun(s, first + then_) && After(s, first + then_) == After(After(s, first), then_)
    decreases |first|
  {
    if first == [] {
      assert first + then_ == then_;
    } else {
      RunsJoin(Next(s, first[0]), first[1..], then_);
      assert (first + then_)[1..] == first[1..] + then_;
    }
  }
}
