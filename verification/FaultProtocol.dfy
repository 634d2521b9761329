/** Overlapping `Engine.Check` calls. Each call lists the rules, decides on its private copy, and
    counts the hit with a separate statement; rules come and go meanwhile. */
module FaultProtocol {
  import opened Wrappers
  import opened FaultRules
  import opened FaultEngine

  datatype Phase =
    | Idle
    | Listed(snapshot: seq<FaultRule>, req: Request)
    | Decided(rule: FaultRule)

  /** A finished check that injected a fault; `counted` when its increment did not fail. */
  datatype Applied = Applied(rule: string, counted: bool)

  /** `born` remembers every rule ever inserted: rule ids are never used twice. */
  datatype State = State(rules: seq<FaultRule>, born: map<string, FaultRule>, now: int,
                         checkers: seq<Phase>, applied: seq<Applied>)

  datatype Step =
    | Tick(delta: nat)
    | Insert(rule: FaultRule)
    | Delete(id: string)
    | SetEnabled(id: string, enabled: bool)
    | List(checker: nat, req: Request)
    | Decide(checker: nat)
    | Increment(checker: nat, ok: bool)

  function Initial(n: nat, now: int): State {
    State([], map[], now, seq(n, _ => Idle), [])
  }

  predicate CanStep(s: State, step: Step) {
    match step
    case Tick(_) => true
    case Insert(rule) => rule.id !in s.born
    case Delete(_) => true
    case SetEnabled(_, _) => true
    case List(c, _) => c < |s.checkers| && s.checkers[c].Idle?
    case Decide(c) => c < |s.checkers| && s.checkers[c].Listed?
    case Increment(c, _) => c < |s.checkers| && s.checkers[c].Decided?
  }

  function Next(lib: Library, s: State, step: Step): State
    requires CanStep(s, step)
  {
    match step
    case Tick(delta) => s.(now := s.now + delta)
    case Insert(rule) =>
      if Insertable(s.rules, rule) then s.(rules := Placed(s.rules, rule), born := s.born[rule.id := rule]) else s
    case Delete(id) => s.(rules := Without(s.rules, id))
    case SetEnabled(id, enabled) => s.(rules := WithEnabled(s.rules, id, enabled))
    case List(c, req) => s.(checkers := s.checkers[c := Listed(s.rules, req)])
    case Decide(c) =>
      var Listed(snapshot, req) := s.checkers[c];
      (match FirstMatch(lib, snapshot, req, s.now)
       case None => s.(checkers := s.checkers[c := Idle])
       case Some(i) => s.(checkers := s.checkers[c := Decided(snapshot[i])]))
    case Increment(c, ok) =>
      var rule := s.checkers[c].rule;
      s.(rules := if ok then WithHit(s.rules, rule.id) else s.rules,
         checkers := s.checkers[c := Idle],
         applied := s.applied + [Applied(rule.id, ok)])
  }

  /** Every step can be taken when its turn comes. */
  ghost predicate IsRun(lib: Library, s: State, steps: seq<Step>)
    decreases |steps|
  {
    steps == [] || (CanStep(s, steps[0]) && IsRun(lib, Next(lib, s, steps[0]), steps[1..]))
  }

  ghost function After(lib: Library, s: State, steps: seq<Step>): State
    requires IsRun(lib, s, steps)
    decreases |steps|
  {
    if steps == [] then s else After(lib, Next(lib, s, steps[0]), steps[1..])
  }

  lemma {:induction false} OneMore(lib: Library, s: State, end: State, steps: seq<Step>, last: Step)
    requires IsRun(lib, s, steps) && CanStep(After(lib, s, steps), last)
    requires end == Next(lib, After(lib, s, steps), last)
    ensures IsRun(lib, s, steps + [last]) && After(lib, s, steps + [last]) == end
    decreases |steps|
  {
    if steps == [] {
      assert ([] + [last])[1..] == [];
    } else {
      OneMore(lib, Next(lib, s, steps[0]), end, steps[1..], last);
      assert (steps + [last])[1..] == steps[1..] + [last];
    }
  }

  /** A check with nobody else about is `List`, `Decide`, `Increment`, and does what
      `Engine.Check` does: to the table, also where the increment fails, and in the rule it injects. */
  lemma LoneCheckRefinesEngine(lib: Library, s: State, c: nat, req: Request, ok: bool) returns (steps: seq<Step>)
    requires c < |s.checkers| && s.checkers[c] == Idle
    ensures IsRun(lib, s, steps)
    ensures var hit := FirstMatch(lib, s.rules, req, s.now);
      After(lib, s, steps) ==
        s.(rules := if ok then Checked(lib, s.rules, req, s.now) else s.rules,
           applied := s.applied + if hit.Some? then [Applied(s.rules[hit.value].id, ok)] else [])
  {
    var s1 := Next(lib, s, List(c, req));
    var s2 := Next(lib, s1, Decide(c));
    OneMore(lib, s, s1, [], List(c, req));
    steps := [] + [List(c, req)];
    OneMore(lib, s, s2, steps, Decide(c));
    steps := steps + [Decide(c)];
    assert s.applied + [] == s.applied;
    if FirstMatch(lib, s.rules, req, s.now).Some? {
      OneMore(lib, s, Next(lib, s2, Increment(c, ok)), steps, Increment(c, ok));
      steps := steps + [Increment(c, ok)];
    }
  }

  /** No checker ever waits: whatever the others and the table are up to, it can take its next step. */
  lemma CheckerNeverWaits(s: State, c: nat, req: Request, ok: bool)
    requires c < |s.checkers|
    ensures s.checkers[c].Idle? ==> CanStep(s, List(c, req))
    ensures s.checkers[c].Listed? ==> CanStep(s, Decide(c))
    ensures s.checkers[c].Decided? ==> CanStep(s, Increment(c, ok))
  {
  }

  /** The other steps do what the repository and the clock do. */
  lemma OtherStepsActOnTable(lib: Library, s: State, step: Step)
    requires CanStep(s, step)
    ensures step.Tick? ==> Next(lib, s, step) == s.(now := s.now + step.delta)
    ensures step.Delete? ==>
      && Next(lib, s, step).(rules := s.rules) == s
      && forall r :: r in Next(lib, s, step).rules <==> r in s.rules && r.id != step.id
    ensures step.SetEnabled? ==>
      && Next(lib, s, step).(rules := s.rules) == s
      && |Next(lib, s, step).rules| == |s.rules|
      && forall i :: 0 <= i < |s.rules| ==>
           Next(lib, s, step).rules[i] ==
             if s.rules[i].id == step.id then s.rules[i].(enabled := step.enabled) else s.rules[i]
    ensures step.Insert? ==>
      if forall r | r in s.rules :: r.id != step.rule.id && r.name != step.rule.name
      then forall r :: r in Next(lib, s, step).rules <==> r == step.rule || r in s.rules
      else Next(lib, s, step) == s
  {
    if step.Delete? {
      WithoutRows(s.rules, step.id);
    } else if step.Insert? {
      PlacedRows(s.rules, step.rule);
    }
  }

  // --- Counting ---

  function CountApplied(log: seq<Applied>, id: string): nat {
    if log == [] then 0
    else CountApplied(log[..|log| - 1], id) + if log[|log| - 1].rule == id then 1 else 0
  }

  function CountCounted(log: seq<Applied>, id: string): nat {
    if log == [] then 0
    else CountCounted(log[..|log| - 1], id) + if log[|log| - 1] == Applied(id, true) then 1 else 0
  }

  function CountFailed(log: seq<Applied>, id: string): nat {
    if log == [] then 0
    else CountFailed(log[..|log| - 1], id) + if log[|log| - 1] == Applied(id, false) then 1 else 0
  }

  lemma {:induction false} AppliedSplits(log: seq<Applied>, id: string)
    ensures CountApplied(log, id) == CountCounted(log, id) + CountFailed(log, id)
  {
    if log != [] {
      AppliedSplits(log[..|log| - 1], id);
      assert log[|log| - 1] == Applied(log[|log| - 1].rule, log[|log| - 1].counted);
    }
  }

  /** A checker that may still inject the fault of rule `id`: it has decided to, or it holds a
      copy of the row that can still match. */
  ghost predicate Live(lib: Library, phase: Phase, id: string, now: int) {
    match phase
    case Idle => false
    case Listed(snapshot, _) => exists i :: 0 <= i < |snapshot| && snapshot[i].id == id && Armed(lib, snapshot[i], now)
    case Decided(rule) => rule.id == id
  }

  ghost function CountLive(lib: Library, checkers: seq<Phase>, id: string, now: int): nat {
    if checkers == [] then 0
    else (if Live(lib, checkers[0], id, now) then 1 else 0) + CountLive(lib, checkers[1..], id, now)
  }

  function CountBusy(checkers: seq<Phase>): nat {
    if checkers == [] then 0
    else (if checkers[0].Idle? then 0 else 1) + CountBusy(checkers[1..])
  }

  function CountDecided(checkers: seq<Phase>, id: string): nat {
    if checkers == [] then 0
    else (if checkers[0].Decided? && checkers[0].rule.id == id then 1 else 0) + CountDecided(checkers[1..], id)
  }

  lemma {:induction false} LiveBounds(lib: Library, checkers: seq<Phase>, id: string, now: int)
    ensures CountDecided(checkers, id) <= CountLive(lib, checkers, id, now) <= CountBusy(checkers) <= |checkers|
  {
    if checkers != [] {
      LiveBounds(lib, checkers[1..], id, now);
    }
  }

  lemma {:induction false} LiveUpdate(lib: Library, checkers: seq<Phase>, c: nat, phase: Phase, id: string, now: int)
    requires c < |checkers|
    ensures CountLive(lib, checkers[c := phase], id, now) ==
      CountLive(lib, checkers, id, now) + (if Live(lib, phase, id, now) then 1 else 0)
      - (if Live(lib, checkers[c], id, now) then 1 else 0)
  {
    if c == 0 {
      assert checkers[0 := phase][1..] == checkers[1..];
    } else {
      LiveUpdate(lib, checkers[1..], c - 1, phase, id, now);
      assert checkers[c := phase][1..] == checkers[1..][c - 1 := phase];
    }
  }

  lemma {:induction false} LiveFades(lib: Library, checkers: seq<Phase>, id: string, now: int, later: int)
    requires now <= later
    ensures CountLive(lib, checkers, id, later) <= CountLive(lib, checkers, id, now)
  {
    if checkers != [] {
      LiveFades(lib, checkers[1..], id, now, later);
      if Live(lib, checkers[0], id, later) && checkers[0].Listed? {
        var snapshot := checkers[0].snapshot;
        var i :| 0 <= i < |snapshot| && snapshot[i].id == id && Armed(lib, snapshot[i], later);
        assert Armed(lib, snapshot[i], now);
      }
    }
  }

  lemma {:induction false} NobodyLive(lib: Library, checkers: seq<Phase>, id: string, now: int)
    requires forall c :: 0 <= c < |checkers| ==> !Live(lib, checkers[c], id, now)
    ensures CountLive(lib, checkers, id, now) == 0
  {
    if checkers != [] {
      assert checkers[0] == checkers[..][0];
      forall c | 0 <= c < |checkers[1..]| ensures !Live(lib, checkers[1..][c], id, now) {
        assert checkers[1..][c] == checkers[c + 1];
      }
      NobodyLive(lib, checkers[1..], id, now);
    }
  }

  // --- What every step keeps ---

  predicate SameRule(row: FaultRule, born: FaultRule) {
    row == born.(enabled := row.enabled, hitCount := row.hitCount)
  }

  ghost predicate KnownCopy(born: map<string, FaultRule>, row: FaultRule) {
    row.id in born && SameRule(row, born[row.id])
  }

  ghost predicate KnownPhase(born: map<string, FaultRule>, phase: Phase) {
    match phase
    case Idle => true
    case Listed(snapshot, _) => forall row | row in snapshot :: KnownCopy(born, row)
    case Decided(rule) => KnownCopy(born, rule)
  }

  /** Rows differ from the rule as inserted only in the enabled flag and in a hit count that has
      grown by the counted hits; copies in flight are copies of such rows. */
  ghost predicate Consistent(s: State) {
    && DistinctIds(s.rules)
    && (forall id | id in s.born :: s.born[id].id == id)
    && (forall row | row in s.rules ::
         KnownCopy(s.born, row) && row.hitCount == s.born[row.id].hitCount + CountCounted(s.applied, row.id))
    && (forall c | 0 <= c < |s.checkers| :: KnownPhase(s.born, s.checkers[c]))
    && (forall a | a in s.applied :: a.rule in s.born)
  }

  lemma {:induction false} CountedUnknown(log: seq<Applied>, id: string)
    requires forall a | a in log :: a.rule != id
    ensures CountApplied(log, id) == CountCounted(log, id) == CountFailed(log, id) == 0
  {
    if log != [] {
      assert log[|log| - 1] in log;
      CountedUnknown(log[..|log| - 1], id);
    }
  }

  lemma AppendedCounts(log: seq<Applied>, a: Applied, id: string)
    ensures CountApplied(log + [a], id) == CountApplied(log, id) + if a.rule == id then 1 else 0
    ensures CountCounted(log + [a], id) == CountCounted(log, id) + if a == Applied(id, true) then 1 else 0
    ensures CountFailed(log + [a], id) == CountFailed(log, id) + if a == Applied(id, false) then 1 else 0
  {
    assert (log + [a])[..|log + [a]| - 1] == log;
  }

  lemma InsertKeepsConsistent(lib: Library, s: State, rule: FaultRule)
    requires Consistent(s) && CanStep(s, Insert(rule))
    ensures Consistent(Next(lib, s, Insert(rule)))
  {
    if Insertable(s.rules, rule) {
      var s' := Next(lib, s, Insert(rule));
      PlacedRows(s.rules, rule);
      PlacedKeepsIds(s.rules, rule);
      CountedUnknown(s.applied, rule.id);
      forall c | 0 <= c < |s.checkers| ensures KnownPhase(s'.born, s.checkers[c]) {
        assert KnownPhase(s.born, s.checkers[c]);
      }
    }
  }

  lemma IncrementKeepsConsistent(lib: Library, s: State, c: nat, ok: bool)
    requires Consistent(s) && CanStep(s, Increment(c, ok))
    ensures Consistent(Next(lib, s, Increment(c, ok)))
  {
    var s' := Next(lib, s, Increment(c, ok));
    var hit := s.checkers[c].rule.id;
    assert KnownPhase(s.born, s.checkers[c]);
    forall row | row in s'.rules
      ensures KnownCopy(s.born, row) && row.hitCount == s.born[row.id].hitCount + CountCounted(s'.applied, row.id)
    {
      var i :| 0 <= i < |s'.rules| && s'.rules[i] == row;
      assert s.rules[i] in s.rules;
      AppendedCounts(s.applied, Applied(hit, ok), row.id);
    }
  }

  lemma DecideKeepsConsistent(lib: Library, s: State, c: nat)
    requires Consistent(s) && CanStep(s, Decide(c))
    ensures Consistent(Next(lib, s, Decide(c)))
  {
    assert KnownPhase(s.born, s.checkers[c]);
  }

  lemma SetEnabledKeepsConsistent(lib: Library, s: State, id: string, enabled: bool)
    requires Consistent(s)
    ensures Consistent(Next(lib, s, SetEnabled(id, enabled)))
  {
    var after := WithEnabled(s.rules, id, enabled);
    forall row | row in after
      ensures KnownCopy(s.born, row) && row.hitCount == s.born[row.id].hitCount + CountCounted(s.applied, row.id)
    {
      var i :| 0 <= i < |after| && after[i] == row;
      assert s.rules[i] in s.rules;
    }
  }

  lemma StepKeepsConsistent(lib: Library, s: State, step: Step)
    requires Consistent(s) && CanStep(s, step)
    ensures Consistent(Next(lib, s, step))
  {
    match step
    case Tick(_) =>
    case Insert(rule) => InsertKeepsConsistent(lib, s, rule);
    case Delete(id) =>
      WithoutRows(s.rules, id);
      WithoutKeeps(OtherId(), s.rules, id);
    case SetEnabled(id, enabled) => SetEnabledKeepsConsistent(lib, s, id, enabled);
    case List(c, req) =>
    case Decide(c) => DecideKeepsConsistent(lib, s, c);
    case Increment(c, ok) => IncrementKeepsConsistent(lib, s, c, ok);
  }

  // --- The hit limit under concurrency ---

  /** How many hits `n` checkers can get out of a rule whose limit leaves it `limit - start` hits. */
  function Ceiling(rule: FaultRule, n: nat): int {
    if rule.hitCount >= rule.maxHits then 0 else rule.maxHits - rule.hitCount + n - 1
  }

  /** The limit holds for the hits counted so far and those that can still be counted. */
  ghost predicate WithinLimit(lib: Library, s: State, id: string) {
    id in s.born && s.born[id].maxHits > 0 ==>
      CountCounted(s.applied, id) + CountLive(lib, s.checkers, id, s.now) <= Ceiling(s.born[id], |s.checkers|)
  }

  /** A fresh copy is live only while the row's own count leaves room. */
  lemma ListKeepsLimit(lib: Library, s: State, c: nat, req: Request, id: string)
    requires Consistent(s) && WithinLimit(lib, s, id) && CanStep(s, List(c, req))
    ensures WithinLimit(lib, Next(lib, s, List(c, req)), id)
  {
    if id in s.born && s.born[id].maxHits > 0 {
      var s' := Next(lib, s, List(c, req));
      LiveUpdate(lib, s.checkers, c, Listed(s.rules, req), id, s.now);
      LiveBounds(lib, s'.checkers, id, s.now);
      if Live(lib, Listed(s.rules, req), id, s.now) {
        var i :| 0 <= i < |s.rules| && s.rules[i].id == id && Armed(lib, s.rules[i], s.now);
        assert s.rules[i] in s.rules;
        assert CountCounted(s.applied, id) < s.born[id].maxHits - s.born[id].hitCount;
      }
    }
  }

  lemma DecideMovesLive(lib: Library, s: State, c: nat, id: string)
    requires CanStep(s, Decide(c))
    ensures Next(lib, s, Decide(c)).applied == s.applied && Next(lib, s, Decide(c)).now == s.now
    ensures CountLive(lib, Next(lib, s, Decide(c)).checkers, id, s.now) <= CountLive(lib, s.checkers, id, s.now)
  {
    var Listed(snapshot, req) := s.checkers[c];
    var phase := match FirstMatch(lib, snapshot, req, s.now) case None => Idle case Some(i) => Decided(snapshot[i]);
    LiveUpdate(lib, s.checkers, c, phase, id, s.now);
  }

  lemma IncrementMovesLive(lib: Library, s: State, c: nat, ok: bool, id: string)
    requires CanStep(s, Increment(c, ok))
    ensures var s' := Next(lib, s, Increment(c, ok));
      && CountApplied(s'.applied, id) + CountLive(lib, s'.checkers, id, s'.now)
           == CountApplied(s.applied, id) + CountLive(lib, s.checkers, id, s.now)
      && CountCounted(s'.applied, id) + CountLive(lib, s'.checkers, id, s'.now)
           <= CountCounted(s.applied, id) + CountLive(lib, s.checkers, id, s.now)
  {
    LiveUpdate(lib, s.checkers, c, Idle, id, s.now);
    AppendedCounts(s.applied, Applied(s.checkers[c].rule.id, ok), id);
  }

  /** The steps that start no check can only lose live copies. */
  lemma StepMovesLive(lib: Library, s: State, step: Step, id: string)
    requires CanStep(s, step) && !step.List?
    ensures CountApplied(Next(lib, s, step).applied, id)
         + CountLive(lib, Next(lib, s, step).checkers, id, Next(lib, s, step).now)
         <= CountApplied(s.applied, id) + CountLive(lib, s.checkers, id, s.now)
    ensures CountCounted(Next(lib, s, step).applied, id)
         + CountLive(lib, Next(lib, s, step).checkers, id, Next(lib, s, step).now)
         <= CountCounted(s.applied, id) + CountLive(lib, s.checkers, id, s.now)
  {
    match step
    case Tick(delta) => LiveFades(lib, s.checkers, id, s.now, s.now + delta);
    case Decide(c) => DecideMovesLive(lib, s, c, id);
    case Increment(c, ok) => IncrementMovesLive(lib, s, c, ok, id);
    case _ =>
  }

  lemma StepKeepsLimit(lib: Library, s: State, step: Step, id: string)
    requires Consistent(s) && WithinLimit(lib, s, id) && CanStep(s, step)
    ensures WithinLimit(lib, Next(lib, s, step), id)
  {
    match step
    case List(c, req) => ListKeepsLimit(lib, s, c, req, id);
    case Insert(rule) =>
      if rule.id == id && Insertable(s.rules, rule) {
        NewbornUntouched(lib, s, id);
      }
    case _ => StepMovesLive(lib, s, step, id);
  }

  lemma NewbornUntouched(lib: Library, s: State, id: string)
    requires Consistent(s) && id !in s.born
    ensures CountApplied(s.applied, id) == CountCounted(s.applied, id) == CountLive(lib, s.checkers, id, s.now) == 0
  {
    CountedUnknown(s.applied, id);
    forall c | 0 <= c < |s.checkers| ensures !Live(lib, s.checkers[c], id, s.now) {
      assert KnownPhase(s.born, s.checkers[c]);
      if s.checkers[c].Listed? {
        assert forall i :: 0 <= i < |s.checkers[c].snapshot| ==> KnownCopy(s.born, s.checkers[c].snapshot[i]);
      }
    }
    NobodyLive(lib, s.checkers, id, s.now);
  }

  lemma {:induction false} RunKeepsLimits(lib: Library, s: State, steps: seq<Step>)
    requires IsRun(lib, s, steps) && Consistent(s) && forall id :: WithinLimit(lib, s, id)
    ensures var s' := After(lib, s, steps);
      Consistent(s') && |s'.checkers| == |s.checkers| && forall id :: WithinLimit(lib, s', id)
    decreases |steps|
  {
    if steps != [] {
      StepKeepsConsistent(lib, s, steps[0]);
      forall id ensures WithinLimit(lib, Next(lib, s, steps[0]), id) {
        StepKeepsLimit(lib, s, steps[0], id);
      }
      RunKeepsLimits(lib, Next(lib, s, steps[0]), steps[1..]);
    }
  }

  /** The hit limit is soft. In every reachable state of `n` checkers, whatever the interleaving,
      a rule inserted with count 0 and limit m > 0 has been injected, or is about to be, at most
      m + n - 1 times, plus the hits whose increment failed; its row counts the others. */
  lemma HitLimitOvershoot(lib: Library, n: nat, now: int, steps: seq<Step>, id: string)
    requires IsRun(lib, Initial(n, now), steps)
    requires var s := After(lib, Initial(n, now), steps);
      id in s.born && s.born[id].hitCount == 0 && s.born[id].maxHits > 0
    ensures var s := After(lib, Initial(n, now), steps);
      && CountApplied(s.applied, id) + CountDecided(s.checkers, id)
           <= s.born[id].maxHits + n - 1 + CountFailed(s.applied, id)
      && forall row | row in s.rules && row.id == id ::
           row.hitCount + CountDecided(s.checkers, id) <= s.born[id].maxHits + n - 1
  {
    var s0 := Initial(n, now);
    RunKeepsLimits(lib, s0, steps);
    var s := After(lib, s0, steps);
    assert WithinLimit(lib, s, id);
    LiveBounds(lib, s.checkers, id, s.now);
    AppliedSplits(s.applied, id);
  }

  // --- Rules that can no longer match ---

  /** Spent and expired are for good; switched off is for as long as nobody switches it on. */
  ghost predicate Finished(lib: Library, s: State, id: string, staysOff: bool) {
    && id in s.born
    && forall row | row in s.rules && row.id == id ::
         Spent(row) || Expired(lib, row, s.now) || (staysOff && !row.enabled)
  }

  lemma StepKeepsFinished(lib: Library, s: State, step: Step, id: string, staysOff: bool)
    requires CanStep(s, step) && Finished(lib, s, id, staysOff)
    requires staysOff ==> step != SetEnabled(id, true)
    ensures Finished(lib, Next(lib, s, step), id, staysOff)
  {
    var s' := Next(lib, s, step);
    match step
    case Insert(rule) => PlacedRows(s.rules, rule);
    case Delete(d) => WithoutRows(s.rules, d);
    case _ =>
      forall row | row in s'.rules && row.id == id
        ensures Spent(row) || Expired(lib, row, s'.now) || (staysOff && !row.enabled)
      {
        var i :| 0 <= i < |s'.rules| && s'.rules[i] == row;
        assert s.rules[i] in s.rules && s.rules[i].id == id;
      }
  }

  lemma FinishedMovesLive(lib: Library, s: State, step: Step, id: string, staysOff: bool)
    requires CanStep(s, step) && Finished(lib, s, id, staysOff)
    ensures CountApplied(Next(lib, s, step).applied, id)
         + CountLive(lib, Next(lib, s, step).checkers, id, Next(lib, s, step).now)
         <= CountApplied(s.applied, id) + CountLive(lib, s.checkers, id, s.now)
  {
    match step
    case List(c, req) =>
      LiveUpdate(lib, s.checkers, c, Listed(s.rules, req), id, s.now);
      assert !Live(lib, Listed(s.rules, req), id, s.now) by {
        forall i | 0 <= i < |s.rules| && s.rules[i].id == id ensures !Armed(lib, s.rules[i], s.now) {
          assert s.rules[i] in s.rules;
        }
      }
    case _ => StepMovesLive(lib, s, step, id);
  }

  /** Once a rule is spent, expired, deleted, or disabled and not re-enabled, its row never matches any
      request again, and it is injected at most once more for each check then in flight. */
  lemma {:induction false} FinishedRuleDrains(lib: Library, s: State, steps: seq<Step>, id: string, staysOff: bool)
    requires IsRun(lib, s, steps) && Finished(lib, s, id, staysOff)
    requires staysOff ==> SetEnabled(id, true) !in steps
    ensures var s' := After(lib, s, steps);
      && CountApplied(s'.applied, id) + CountDecided(s'.checkers, id)
         <= CountApplied(s.applied, id) + CountBusy(s.checkers)
      && forall row, req | row in s'.rules && row.id == id :: !Match(lib, row, req, s'.now)
    decreases |steps|
  {
    FinishedRuns(lib, s, steps, id, staysOff);
    LiveBounds(lib, s.checkers, id, s.now);
    var s' := After(lib, s, steps);
    LiveBounds(lib, s'.checkers, id, s'.now);
  }

  lemma {:induction false} FinishedRuns(lib: Library, s: State, steps: seq<Step>, id: string, staysOff: bool)
    requires IsRun(lib, s, steps) && Finished(lib, s, id, staysOff)
    requires staysOff ==> SetEnabled(id, true) !in steps
    ensures var s' := After(lib, s, steps);
      && Finished(lib, s', id, staysOff)
      && CountApplied(s'.applied, id) + CountLive(lib, s'.checkers, id, s'.now)
           <= CountApplied(s.applied, id) + CountLive(lib, s.checkers, id, s.now)
    decreases |steps|
  {
    if steps != [] {
      StepKeepsFinished(lib, s, steps[0], id, staysOff);
      FinishedMovesLive(lib, s, steps[0], id, staysOff);
      FinishedRuns(lib, Next(lib, s, steps[0]), steps[1..], id, staysOff);
    }
  }

  // --- The overshoot bound is exact ---

  ghost predicate Reaches(lib: Library, s: State, end: State) {
    exists steps :: IsRun(lib, s, steps) && After(lib, s, steps) == end
  }

  lemma ReachesNext(lib: Library, s: State, mid: State, step: Step, end: State)
    requires Reaches(lib, s, mid) && CanStep(mid, step) && Next(lib, mid, step) == end
    ensures Reaches(lib, s, end)
  {
    var steps :| IsRun(lib, s, steps) && After(lib, s, steps) == mid;
    OneMore(lib, s, end, steps, step);
  }

  /** One rule with `hits` hits counted, and the checkers as given. */
  ghost function WithHits(rule: FaultRule, now: int, hits: nat, checkers: seq<Phase>): State {
    State([rule.(hitCount := hits)], map[rule.id := rule], now, checkers, seq(hits, _ => Applied(rule.id, true)))
  }

  /** The first `j` checkers are in one phase and the others in another. */
  function Split(n: nat, j: nat, done: Phase, todo: Phase): seq<Phase> {
    seq(n, i => if i < j then done else todo)
  }

  lemma {:induction false} OneCheckerAtATime(lib: Library, n: nat, now: int, rule: FaultRule, req: Request, hits: nat)
    requires n > 0 && rule.hitCount == 0 && Match(lib, rule, req, now) && hits <= rule.maxHits
    ensures Reaches(lib, Initial(n, now), WithHits(rule, now, hits, Split(n, n, Idle, Idle)))
  {
    var s0 := Initial(n, now);
    var idle := Split(n, n, Idle, Idle);
    if hits == 0 {
      assert IsRun(lib, s0, []) && After(lib, s0, []) == s0;
      assert Next(lib, s0, Insert(rule)) == WithHits(rule, now, 0, idle);
      ReachesNext(lib, s0, s0, Insert(rule), WithHits(rule, now, 0, idle));
    } else {
      OneCheckerAtATime(lib, n, now, rule, req, hits - 1);
      var row := rule.(hitCount := hits - 1);
      var s1 := WithHits(rule, now, hits - 1, idle);
      var s2 := Next(lib, s1, List(0, req));
      ReachesNext(lib, s0, s1, List(0, req), s2);
      assert Match(lib, row, req, now);
      var s3 := Next(lib, s2, Decide(0));
      ReachesNext(lib, s0, s2, Decide(0), s3);
      assert s3.checkers[0] == Decided(row);
      var s4 := Next(lib, s3, Increment(0, true));
      assert s4 == WithHits(rule, now, hits, idle);
      ReachesNext(lib, s0, s3, Increment(0, true), s4);
    }
  }

  lemma {:induction false} EveryoneLists(lib: Library, s0: State, n: nat, now: int, rule: FaultRule, req: Request,
      hits: nat, j: nat)
    requires j <= n && Reaches(lib, s0, WithHits(rule, now, hits, Split(n, n, Idle, Idle)))
    ensures Reaches(lib, s0, WithHits(rule, now, hits, Split(n, j, Listed([rule.(hitCount := hits)], req), Idle)))
  {
    var copy := Listed([rule.(hitCount := hits)], req);
    if j == 0 {
      assert Split(n, n, Idle, Idle) == Split(n, 0, copy, Idle);
    } else {
      EveryoneLists(lib, s0, n, now, rule, req, hits, j - 1);
      assert Split(n, j - 1, copy, Idle)[j - 1 := copy] == Split(n, j, copy, Idle);
      ReachesNext(lib, s0, WithHits(rule, now, hits, Split(n, j - 1, copy, Idle)), List(j - 1, req),
                  WithHits(rule, now, hits, Split(n, j, copy, Idle)));
    }
  }

  lemma {:induction false} EveryoneDecides(lib: Library, s0: State, n: nat, now: int, rule: FaultRule, req: Request,
      hits: nat, j: nat)
    requires j <= n && Match(lib, rule.(hitCount := hits), req, now)
    requires Reaches(lib, s0, WithHits(rule, now, hits, Split(n, n, Listed([rule.(hitCount := hits)], req), Idle)))
    ensures Reaches(lib, s0,
      WithHits(rule, now, hits, Split(n, j, Decided(rule.(hitCount := hits)), Listed([rule.(hitCount := hits)], req))))
  {
    var row := rule.(hitCount := hits);
    var copy := Listed([row], req);
    if j == 0 {
      assert Split(n, n, copy, Idle) == Split(n, 0, Decided(row), copy);
    } else {
      EveryoneDecides(lib, s0, n, now, rule, req, hits, j - 1);
      assert Split(n, j - 1, Decided(row), copy)[j - 1 := Decided(row)] == Split(n, j, Decided(row), copy);
      ReachesNext(lib, s0, WithHits(rule, now, hits, Split(n, j - 1, Decided(row), copy)), Decide(j - 1),
                  WithHits(rule, now, hits, Split(n, j, Decided(row), copy)));
    }
  }

  lemma {:induction false} EveryoneIncrements(lib: Library, s0: State, n: nat, now: int, rule: FaultRule,
      decided: FaultRule, hits: nat, j: nat)
    requires j <= n && decided.id == rule.id
    requires Reaches(lib, s0, WithHits(rule, now, hits, Split(n, 0, Idle, Decided(decided))))
    ensures Reaches(lib, s0, WithHits(rule, now, hits + j, Split(n, j, Idle, Decided(decided))))
  {
    if j > 0 {
      EveryoneIncrements(lib, s0, n, now, rule, decided, hits, j - 1);
      var before := WithHits(rule, now, hits + j - 1, Split(n, j - 1, Idle, Decided(decided)));
      var after := WithHits(rule, now, hits + j, Split(n, j, Idle, Decided(decided)));
      assert before.checkers[j - 1 := Idle] == after.checkers;
      assert before.applied + [Applied(rule.id, true)] == after.applied;
      assert WithHit(before.rules, rule.id) == after.rules;
      ReachesNext(lib, s0, before, Increment(j - 1, true), after);
    }
  }

  /** For every limit and every number of checkers some interleaving overshoots by n - 1 hits,
      with all increments succeeding. */
  lemma OvershootIsReached(lib: Library, n: nat, now: int, rule: FaultRule, req: Request)
    requires n > 0 && rule.hitCount == 0 && rule.maxHits > 0 && Match(lib, rule, req, now)
    ensures exists s :: Reaches(lib, Initial(n, now), s) && s.rules == [rule.(hitCount := rule.maxHits + n - 1)]
  {
    var s0 := Initial(n, now);
    var hits := rule.maxHits - 1;
    var row := rule.(hitCount := hits);
    OneCheckerAtATime(lib, n, now, rule, req, hits);
    EveryoneLists(lib, s0, n, now, rule, req, hits, n);
    EveryoneDecides(lib, s0, n, now, rule, req, hits, n);
    assert Split(n, n, Decided(row), Listed([row], req)) == Split(n, 0, Idle, Decided(row));
    EveryoneIncrements(lib, s0, n, now, rule, row, hits, n);
    assert Reaches(lib, s0, WithHits(rule, now, hits + n, Split(n, n, Idle, Decided(row))));
  }
}
