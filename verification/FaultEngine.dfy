/** `Engine.Check`, and what it amounts to when checks do not overlap: the rule list hands out
    its hit budgets greedily, front to back. */
module FaultEngine {
  import opened Wrappers
  import opened Ordering
  import opened FaultRules

  function Checked(lib: Library, rules: seq<FaultRule>, req: Request, now: int): seq<FaultRule> {
    match FirstMatch(lib, rules, req, now)
    case None => rules
    case Some(i) => WithHit(rules, rules[i].id)
  }

  /** `List` reads the table in creation order, so of several matching rules the oldest one acts. */
  lemma FirstMatchIsOldest(lib: Library, rules: seq<FaultRule>, req: Request, now: int, i: nat)
    requires InCreationOrder(rules) && FirstMatch(lib, rules, req, now) == Some(i)
    ensures forall r | r in rules && Match(lib, r, req, now) :: rules[i].createdAt <= r.createdAt
  {
    forall r | r in rules && Match(lib, r, req, now) ensures rules[i].createdAt <= r.createdAt {
      var j :| 0 <= j < |rules| && rules[j] == r;
      assert j > i ==> NotOlder()(rules[i], rules[j]);
    }
  }

  /** The rule at index `i` gained one hit, and nothing else changed. */
  ghost predicate HitAt(before: seq<FaultRule>, after: seq<FaultRule>, rule: FaultRule, i: nat)
    requires i < |before|
  {
    before[i] == rule && after == before[i := rule.(hitCount := rule.hitCount + 1)]
  }

  lemma CheckedHits(lib: Library, rules: seq<FaultRule>, req: Request, now: int, i: nat)
    requires DistinctIds(rules) && FirstMatch(lib, rules, req, now) == Some(i)
    ensures HitAt(rules, Checked(lib, rules, req, now), rules[i], i)
  {
    assert forall a, b :: 0 <= a < b < |rules| ==> OtherId()(rules[a], rules[b]);
  }

  class Engine {
    const faults: FaultRuleRepository

    constructor (faults: FaultRuleRepository)
      ensures this.faults == faults
    {
      this.faults := faults;
    }

    /** A failed increment is logged and the fault is injected all the same. */
    method Check(lib: Library, req: Request, now: int, listFails: bool, incrementFails: bool)
      returns (r: Result<Option<FaultRule>, string>)
      requires faults.Valid()
      modifies faults
      ensures faults.Valid()
      ensures listFails <==> r.Err?
      ensures !listFails ==>
        r.value == match FirstMatch(lib, old(faults.rules), req, now)
                   case None => None case Some(i) => Some(old(faults.rules)[i])
      ensures r.Ok? && r.value.Some? ==>
        forall rule | rule in old(faults.rules) && Match(lib, rule, req, now) ::
          r.value.value.createdAt <= rule.createdAt
      ensures !listFails && r.value.Some? && !incrementFails ==>
        exists i | 0 <= i < |old(faults.rules)| :: HitAt(old(faults.rules), faults.rules, r.value.value, i)
      ensures faults.rules ==
        if listFails || incrementFails then old(faults.rules) else Checked(lib, old(faults.rules), req, now)
    {
      if listFails {
        return Err("fault: list rules");
      }
      var rules := faults.List();
      var matched := FindFirstMatch(lib, rules, req, now);
      if matched.Some? {
        FirstMatchIsOldest(lib, rules, req, now, FirstMatch(lib, rules, req, now).value);
        CheckedHits(lib, rules, req, now, FirstMatch(lib, rules, req, now).value);
      }
      if matched.Some? && !incrementFails {
        faults.IncrementHitCount(matched.value.id);
      }
      r := Ok(matched);
    }
  }

  // --- Sequential runs ---

  /** The table after one check at each of the given times, all for the same request. */
  function AfterChecks(lib: Library, rules: seq<FaultRule>, req: Request, times: seq<int>): seq<FaultRule> {
    if times == [] then rules
    else Checked(lib, AfterChecks(lib, rules, req, times[..|times| - 1]), req, times[|times| - 1])
  }

  /** How many of those checks injected a fault. */
  function Injected(lib: Library, rules: seq<FaultRule>, req: Request, times: seq<int>): nat {
    if times == [] then 0
    else
      var earlier := times[..|times| - 1];
      Injected(lib, rules, req, earlier) +
      if FirstMatch(lib, AfterChecks(lib, rules, req, earlier), req, times[|times| - 1]).Some? then 1 else 0
  }

  /** What a rule can still give to `n` checks: nothing if it cannot match the request, all of
      them if it has no limit, and otherwise what is left of its limit. */
  function Budget(lib: Library, rule: FaultRule, req: Request, now: int, n: nat): nat {
    if !rule.enabled || Expired(lib, rule, now) || !Accepts(lib, rule.criteria, req) then 0
    else if rule.maxHits <= 0 then n
    else if rule.hitCount >= rule.maxHits then 0
    else rule.maxHits - rule.hitCount
  }

  function Budgets(lib: Library, rules: seq<FaultRule>, req: Request, now: int, n: nat): seq<nat> {
    seq(|rules|, i requires 0 <= i < |rules| => Budget(lib, rules[i], req, now, n))
  }

  /** Sum of the first `i` budgets. */
  function Ahead(budgets: seq<nat>, i: nat): nat
    requires i <= |budgets|
  {
    if i == 0 then 0 else Ahead(budgets, i - 1) + budgets[i - 1]
  }

  /** The greedy share of rule `i` in `k` checks: what the rules ahead leave over, up to its budget. */
  function Share(budgets: seq<nat>, i: nat, k: nat): nat
    requires i < |budgets|
  {
    var left := k - Ahead(budgets, i);
    if left <= 0 then 0 else if left <= budgets[i] then left else budgets[i]
  }

  lemma {:induction false} AheadGrows(budgets: seq<nat>, i: nat, j: nat)
    requires i <= j <= |budgets|
    ensures Ahead(budgets, i) <= Ahead(budgets, j)
  {
    if i < j {
      AheadGrows(budgets, i, j - 1);
    }
  }

  lemma {:induction false} ExhaustedAhead(budgets: seq<nat>, i: nat, k: nat)
    requires i <= |budgets|
    requires forall j: nat {:trigger Share(budgets, j, k)} :: j < i ==> Share(budgets, j, k) == budgets[j]
    ensures Ahead(budgets, i) <= k
  {
    if i > 0 {
      ExhaustedAhead(budgets, i - 1, k);
      assert Share(budgets, i - 1, k) == budgets[i - 1];
    }
  }

  lemma FullShareStays(budgets: seq<nat>, j: nat, k: nat)
    requires j < |budgets| && Share(budgets, j, k) == budgets[j]
    ensures Share(budgets, j, k + 1) == budgets[j]
  {
  }

  lemma NoShareBehind(budgets: seq<nat>, i: nat, j: nat, k: nat)
    requires i < j < |budgets| && k < Ahead(budgets, i + 1)
    ensures Share(budgets, j, k) == Share(budgets, j, k + 1) == 0
  {
    AheadGrows(budgets, i + 1, j);
  }

  /** One more check moves exactly the first rule with something left. */
  lemma NextShare(budgets: seq<nat>, i: nat, k: nat)
    requires i < |budgets| && Share(budgets, i, k) < budgets[i]
    requires forall j: nat {:trigger Share(budgets, j, k)} :: j < i ==> Share(budgets, j, k) == budgets[j]
    ensures k < Ahead(budgets, |budgets|)
    ensures Share(budgets, i, k + 1) == Share(budgets, i, k) + 1
    ensures forall j: nat {:trigger Share(budgets, j, k + 1)} :: j < |budgets| && j != i ==>
      Share(budgets, j, k + 1) == Share(budgets, j, k)
  {
    ExhaustedAhead(budgets, i, k);
    assert Ahead(budgets, i + 1) == Ahead(budgets, i) + budgets[i];
    assert k < Ahead(budgets, i + 1);
    AheadGrows(budgets, i + 1, |budgets|);
    forall j: nat | j < |budgets| && j != i
      ensures Share(budgets, j, k + 1) == Share(budgets, j, k)
    {
      if j > i {
        NoShareBehind(budgets, i, j, k);
      } else {
        FullShareStays(budgets, j, k);
      }
    }
  }

  lemma NoShareLeft(budgets: seq<nat>, k: nat)
    requires forall j: nat {:trigger Share(budgets, j, k)} :: j < |budgets| ==> Share(budgets, j, k) == budgets[j]
    ensures Ahead(budgets, |budgets|) <= k
    ensures forall j: nat {:trigger Share(budgets, j, k + 1)} :: j < |budgets| ==>
      Share(budgets, j, k + 1) == budgets[j]
  {
    ExhaustedAhead(budgets, |budgets|, k);
    forall j: nat | j < |budgets|
      ensures Share(budgets, j, k + 1) == budgets[j]
    {
      FullShareStays(budgets, j, k);
    }
  }

  /** No rule expires, or stops being expired, between `now` and the checks. */
  ghost predicate SameExpiry(lib: Library, rules: seq<FaultRule>, now: int, times: seq<int>) {
    forall i, j :: 0 <= i < |rules| && 0 <= j < |times| ==>
      Expired(lib, rules[i], times[j]) == Expired(lib, rules[i], now)
  }

  /** `after` is `before` with `k` checks handed out greedily. */
  ghost predicate SharedOut(before: seq<FaultRule>, after: seq<FaultRule>, budgets: seq<nat>, k: nat)
    requires |budgets| == |before|
  {
    && |after| == |before|
    && forall i {:trigger after[i]} :: 0 <= i < |before| ==>
         after[i] == before[i].(hitCount := before[i].hitCount + Share(budgets, i, k))
  }

  lemma MatchIffShareLeft(lib: Library, rule: FaultRule, req: Request, now: int, t: int, n: nat, share: nat)
    requires Expired(lib, rule, t) == Expired(lib, rule, now)
    requires share <= Budget(lib, rule, req, now, n) && share < n
    ensures Match(lib, rule.(hitCount := rule.hitCount + share), req, t) <==> share < Budget(lib, rule, req, now, n)
  {
  }

  /** With `k` checks handed out, exactly the rules with something left match. */
  ghost predicate MatchesWhereShareIsLeft(lib: Library, mid: seq<FaultRule>, req: Request, t: int,
                                          budgets: seq<nat>, k: nat)
    requires |budgets| == |mid|
  {
    forall i: nat {:trigger mid[i]} :: i < |mid| ==> (Match(lib, mid[i], req, t) <==> Share(budgets, i, k) < budgets[i])
  }

  lemma ShareLeftMatches(lib: Library, rules: seq<FaultRule>, mid: seq<FaultRule>, req: Request,
                         now: int, t: int, n: nat, k: nat)
    requires SharedOut(rules, mid, Budgets(lib, rules, req, now, n), k) && k < n
    requires forall i :: 0 <= i < |rules| ==> Expired(lib, rules[i], t) == Expired(lib, rules[i], now)
    ensures MatchesWhereShareIsLeft(lib, mid, req, t, Budgets(lib, rules, req, now, n), k)
  {
    var budgets := Budgets(lib, rules, req, now, n);
    forall i: nat | i < |rules|
      ensures Match(lib, mid[i], req, t) <==> Share(budgets, i, k) < budgets[i]
    {
      assert Share(budgets, i, k) <= k;
      MatchIffShareLeft(lib, rules[i], req, now, t, n, Share(budgets, i, k));
    }
  }

  /** One check on a greedily shared-out table leaves a greedily shared-out table. */
  lemma GreedyHit(lib: Library, rules: seq<FaultRule>, mid: seq<FaultRule>, req: Request, t: int,
                  budgets: seq<nat>, k: nat, i: nat)
    requires |budgets| == |rules| && DistinctIds(rules) && SharedOut(rules, mid, budgets, k)
    requires MatchesWhereShareIsLeft(lib, mid, req, t, budgets, k)
    requires FirstMatch(lib, mid, req, t) == Some(i)
    ensures SharedOut(rules, WithHit(mid, mid[i].id), budgets, k + 1) && k < Ahead(budgets, |rules|)
  {
    forall j: nat | j < i ensures Share(budgets, j, k) == budgets[j] {
      assert !Match(lib, mid[j], req, t);
    }
    NextShare(budgets, i, k);
    var after := WithHit(mid, mid[i].id);
    forall j: nat | j < |rules|
      ensures after[j] == rules[j].(hitCount := rules[j].hitCount + Share(budgets, j, k + 1))
    {
      assert mid[j].id == rules[j].id && mid[i].id == rules[i].id;
    }
  }

  lemma GreedyMiss(lib: Library, rules: seq<FaultRule>, mid: seq<FaultRule>, req: Request, t: int,
                   budgets: seq<nat>, k: nat)
    requires |budgets| == |rules| && SharedOut(rules, mid, budgets, k)
    requires MatchesWhereShareIsLeft(lib, mid, req, t, budgets, k)
    requires FirstMatch(lib, mid, req, t) == None
    ensures SharedOut(rules, mid, budgets, k + 1) && Ahead(budgets, |rules|) <= k
  {
    forall j: nat | j < |rules| ensures Share(budgets, j, k) == budgets[j] {
      assert !Match(lib, mid[j], req, t);
    }
    NoShareLeft(budgets, k);
  }

  lemma {:induction false} GreedySteps(lib: Library, rules: seq<FaultRule>, req: Request, now: int, times: seq<int>,
      n: nat)
    requires DistinctIds(rules) && SameExpiry(lib, rules, now, times) && |times| <= n
    ensures SharedOut(rules, AfterChecks(lib, rules, req, times), Budgets(lib, rules, req, now, n), |times|)
    ensures var total := Ahead(Budgets(lib, rules, req, now, n), |rules|);
      Injected(lib, rules, req, times) == if |times| <= total then |times| else total
  {
    if times != [] {
      var k := |times| - 1;
      GreedySteps(lib, rules, req, now, times[..k], n);
      assert forall i :: 0 <= i < |rules| ==> Expired(lib, rules[i], times[k]) == Expired(lib, rules[i], now);
      var mid := AfterChecks(lib, rules, req, times[..k]);
      var budgets := Budgets(lib, rules, req, now, n);
      ShareLeftMatches(lib, rules, mid, req, now, times[k], n, k);
      match FirstMatch(lib, mid, req, times[k])
      case Some(i) => GreedyHit(lib, rules, mid, req, times[k], budgets, k, i);
      case None => GreedyMiss(lib, rules, mid, req, times[k], budgets, k);
    }
  }

  /** Greedy budget law. For `N` checks in a row for the same request, rule `i` takes exactly
      clamp(N - budgets ahead of it, 0, its budget), and the checks that inject a fault
      number min(N, all budgets together). */
  lemma GreedyBudgetLaw(lib: Library, rules: seq<FaultRule>, req: Request, now: int, times: seq<int>)
    requires DistinctIds(rules) && SameExpiry(lib, rules, now, times)
    ensures SharedOut(rules, AfterChecks(lib, rules, req, times), Budgets(lib, rules, req, now, |times|), |times|)
    ensures var total := Ahead(Budgets(lib, rules, req, now, |times|), |rules|);
      Injected(lib, rules, req, times) == if |times| <= total then |times| else total
  {
    GreedySteps(lib, rules, req, now, times, |times|);
  }
}
