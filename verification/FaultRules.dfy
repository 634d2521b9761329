/** Fault rules, the table that stores them, and the matcher that picks the rule for a request.

    Unicode case folding and duration parsing belong to Go's libraries. They enter as the two
    functions of `Library`, and everything below holds whatever those functions compute. */
module FaultRules {
  import opened Wrappers
  import opened Ordering

  datatype Library = Library(equalFold: (string, string) -> bool, parseDuration: string -> Option<int>)

  datatype FaultMatch = FaultMatch(service: string, method_: string, path: string, pathPrefix: string,
                                   host: string, headers: map<string, string>)

  datatype FaultRule = FaultRule(id: string, name: string, enabled: bool, criteria: FaultMatch,
                                 maxHits: int, expiresAfter: string, createdAt: int, hitCount: int)

  datatype Request = Request(method_: string, path: string, service: string, host: string,
                             headers: map<string, string>)

  // --- The matcher ---

  predicate Spent(rule: FaultRule) {
    rule.maxHits > 0 && rule.hitCount >= rule.maxHits
  }

  predicate Expired(lib: Library, rule: FaultRule, now: int) {
    rule.expiresAfter != "" &&
    match lib.parseDuration(rule.expiresAfter)
    case None => false
    case Some(duration) => now - rule.createdAt > duration
  }

  predicate Accepts(lib: Library, m: FaultMatch, req: Request) {
    && (m.service == "" || lib.equalFold(m.service, req.service))
    && (m.method_ == "" || lib.equalFold(m.method_, req.method_))
    && (m.path == "" || m.path == req.path)
    && (m.pathPrefix == "" || m.pathPrefix <= req.path)
    && (m.host == "" || lib.equalFold(m.host, req.host))
    && forall k | k in m.headers :: k in req.headers && lib.equalFold(req.headers[k], m.headers[k])
  }

  /** The part of `Match` that does not look at the request. */
  predicate Armed(lib: Library, rule: FaultRule, now: int) {
    rule.enabled && !Spent(rule) && !Expired(lib, rule, now)
  }

  predicate Match(lib: Library, rule: FaultRule, req: Request, now: int) {
    Armed(lib, rule, now) && Accepts(lib, rule.criteria, req)
  }

  /** What a match takes, criterion by criterion: one that is not set demands nothing. */
  lemma MatchDemands(lib: Library, rule: FaultRule, req: Request, now: int)
    ensures Match(lib, rule, req, now) <==>
      && rule.enabled
      && (rule.maxHits > 0 ==> rule.hitCount < rule.maxHits)
      && (rule.expiresAfter != "" && lib.parseDuration(rule.expiresAfter).Some? ==>
           now <= rule.createdAt + lib.parseDuration(rule.expiresAfter).value)
      && (rule.criteria.service != "" ==> lib.equalFold(rule.criteria.service, req.service))
      && (rule.criteria.method_ != "" ==> lib.equalFold(rule.criteria.method_, req.method_))
      && (rule.criteria.path != "" ==> req.path == rule.criteria.path)
      && (rule.criteria.pathPrefix != "" ==> exists rest :: req.path == rule.criteria.pathPrefix + rest)
      && (rule.criteria.host != "" ==> lib.equalFold(rule.criteria.host, req.host))
      && (forall k | k in rule.criteria.headers ::
           k in req.headers && lib.equalFold(req.headers[k], rule.criteria.headers[k]))
  {
    var prefix := rule.criteria.pathPrefix;
    if prefix <= req.path {
      assert req.path == prefix + req.path[|prefix|..];
    }
  }

  /** The index of the first rule that matches. */
  function FirstMatch(lib: Library, rules: seq<FaultRule>, req: Request, now: int): (r: Option<nat>)
    ensures r.Some? ==> r.value < |rules| && Match(lib, rules[r.value], req, now)
    ensures forall j: nat :: j < (if r.Some? then r.value else |rules|) ==> !Match(lib, rules[j], req, now)
  {
    if rules == [] then None
    else if Match(lib, rules[0], req, now) then Some(0)
    else
      match FirstMatch(lib, rules[1..], req, now)
      case None => None
      case Some(k) => Some(k + 1)
  }

  /** The checks one by one, with an early return at the first that fails. */
  method TestMatch(lib: Library, rule: FaultRule, req: Request, now: int) returns (matches: bool)
    ensures matches <==> Match(lib, rule, req, now)
  {
    if !rule.enabled {
      return false;
    }
    if rule.maxHits > 0 && rule.hitCount >= rule.maxHits {
      return false;
    }
    if rule.expiresAfter != "" {
      var duration := lib.parseDuration(rule.expiresAfter);
      if duration.Some? && now - rule.createdAt > duration.value {
        return false;
      }
    }
    var m := rule.criteria;
    if m.service != "" && !lib.equalFold(m.service, req.service) {
      return false;
    }
    if m.method_ != "" && !lib.equalFold(m.method_, req.method_) {
      return false;
    }
    if m.path != "" && m.path != req.path {
      return false;
    }
    if m.pathPrefix != "" && !(m.pathPrefix <= req.path) {
      return false;
    }
    if m.host != "" && !lib.equalFold(m.host, req.host) {
      return false;
    }
    var todo := m.headers.Keys;
    while todo != {}
      invariant todo <= m.headers.Keys
      invariant forall k | k in m.headers && k !in todo ::
        k in req.headers && lib.equalFold(req.headers[k], m.headers[k])
      decreases |todo|
    {
      var k :| k in todo;
      if k !in req.headers || !lib.equalFold(req.headers[k], m.headers[k]) {
        return false;
      }
      todo := todo - {k};
    }
    return true;
  }

  method FindFirstMatch(lib: Library, rules: seq<FaultRule>, req: Request, now: int) returns (r: Option<FaultRule>)
    ensures r == match FirstMatch(lib, rules, req, now) case None => None case Some(i) => Some(rules[i])
    ensures r.None? <==> forall j :: 0 <= j < |rules| ==> !Match(lib, rules[j], req, now)
  {
    for i := 0 to |rules|
      invariant forall j :: 0 <= j < i ==> !Match(lib, rules[j], req, now)
    {
      var matches := TestMatch(lib, rules[i], req, now);
      if matches {
        return Some(rules[i]);
      }
    }
    return None;
  }

  // --- The table ---

  function OtherId(): (FaultRule, FaultRule) -> bool {
    (a: FaultRule, b: FaultRule) => a.id != b.id
  }

  function NotOlder(): (FaultRule, FaultRule) -> bool {
    (a: FaultRule, b: FaultRule) => a.createdAt <= b.createdAt
  }

  ghost predicate DistinctIds(rules: seq<FaultRule>) {
    Pairwise(OtherId(), rules)
  }

  ghost predicate InCreationOrder(rules: seq<FaultRule>) {
    Pairwise(NotOlder(), rules)
  }

  /** A new row goes behind every row that is not newer: `List` reads the table in creation order. */
  function Placed(rules: seq<FaultRule>, rule: FaultRule): (r: seq<FaultRule>)
    ensures |r| == |rules| + 1
  {
    if rules == [] || rule.createdAt < rules[0].createdAt then [rule] + rules
    else [rules[0]] + Placed(rules[1..], rule)
  }

  /** Primary key and unique name. */
  predicate Insertable(rules: seq<FaultRule>, rule: FaultRule) {
    forall i :: 0 <= i < |rules| ==> rules[i].id != rule.id && rules[i].name != rule.name
  }

  function WithHit(rules: seq<FaultRule>, id: string): seq<FaultRule> {
    seq(|rules|, i requires 0 <= i < |rules| =>
      if rules[i].id == id then rules[i].(hitCount := rules[i].hitCount + 1) else rules[i])
  }

  function WithEnabled(rules: seq<FaultRule>, id: string, enabled: bool): seq<FaultRule> {
    seq(|rules|, i requires 0 <= i < |rules| =>
      if rules[i].id == id then rules[i].(enabled := enabled) else rules[i])
  }

  function Without(rules: seq<FaultRule>, id: string): seq<FaultRule> {
    if rules == [] then []
    else (if rules[0].id == id then [] else [rules[0]]) + Without(rules[1..], id)
  }

  lemma {:induction false} PlacedRows(rules: seq<FaultRule>, rule: FaultRule)
    ensures forall r :: r in Placed(rules, rule) <==> r == rule || r in rules
  {
    if rules != [] && rule.createdAt >= rules[0].createdAt {
      PlacedRows(rules[1..], rule);
      HeadAndTail(OtherId(), rules);
    }
  }

  /** Behind every row that is not newer, ahead of every newer one. */
  ghost predicate PutAt(before: seq<FaultRule>, rule: FaultRule, after: seq<FaultRule>, k: nat)
    requires k <= |before|
  {
    && after == before[..k] + [rule] + before[k..]
    && (forall i :: 0 <= i < k ==> before[i].createdAt <= rule.createdAt)
    && forall i :: k <= i < |before| ==> before[i].createdAt > rule.createdAt
  }

  lemma {:induction false} PlacedAt(rules: seq<FaultRule>, rule: FaultRule) returns (k: nat)
    requires InCreationOrder(rules)
    ensures k <= |rules| && PutAt(rules, rule, Placed(rules, rule), k)
  {
    if rules == [] || rule.createdAt < rules[0].createdAt {
      k := 0;
      assert forall i :: 0 < i < |rules| ==> NotOlder()(rules[0], rules[i]);
      assert Placed(rules, rule) == rules[..0] + [rule] + rules[0..];
    } else {
      HeadAndTail(NotOlder(), rules);
      var j := PlacedAt(rules[1..], rule);
      k := j + 1;
      PutBehindHead(rules[0], rules[1..], rule, Placed(rules[1..], rule), j, rules);
    }
  }

  lemma PutBehindHead(head: FaultRule, before: seq<FaultRule>, rule: FaultRule, after: seq<FaultRule>, j: nat,
                      all: seq<FaultRule>)
    requires j <= |before| && PutAt(before, rule, after, j) && head.createdAt <= rule.createdAt
    requires all == [head] + before
    ensures PutAt(all, rule, [head] + after, j + 1)
  {
    assert all[..j + 1] == [head] + before[..j] && all[j + 1..] == before[j..];
    assert [head] + (before[..j] + [rule] + before[j..]) == ([head] + before[..j]) + [rule] + before[j..];
  }

  lemma {:induction false} PlacedKeepsIds(rules: seq<FaultRule>, rule: FaultRule)
    requires DistinctIds(rules) && forall r | r in rules :: r.id != rule.id
    ensures DistinctIds(Placed(rules, rule))
  {
    var placed := Placed(rules, rule);
    HeadAndTail(OtherId(), placed);
    if rules == [] || rule.createdAt < rules[0].createdAt {
      assert placed[1..] == rules;
    } else {
      assert placed[1..] == Placed(rules[1..], rule);
      HeadAndTail(OtherId(), rules);
      PlacedKeepsIds(rules[1..], rule);
      PlacedRows(rules[1..], rule);
    }
  }

  lemma {:induction false} PlacedKeepsOrder(rules: seq<FaultRule>, rule: FaultRule)
    requires InCreationOrder(rules)
    ensures InCreationOrder(Placed(rules, rule))
  {
    var placed := Placed(rules, rule);
    HeadAndTail(NotOlder(), placed);
    if rules != [] {
      HeadAndTail(NotOlder(), rules);
    }
    if rules == [] || rule.createdAt < rules[0].createdAt {
      assert placed[1..] == rules;
    } else {
      assert placed[1..] == Placed(rules[1..], rule);
      PlacedKeepsOrder(rules[1..], rule);
      PlacedRows(rules[1..], rule);
    }
  }

  lemma {:induction false} WithoutRows(rules: seq<FaultRule>, id: string)
    ensures forall r :: r in Without(rules, id) <==> r in rules && r.id != id
  {
    if rules != [] {
      WithoutRows(rules[1..], id);
      HeadAndTail(OtherId(), rules);
    }
  }

  /** Whatever holds between every two rows in order still does when a row goes. */
  lemma {:induction false} WithoutKeeps(rel: (FaultRule, FaultRule) -> bool, rules: seq<FaultRule>, id: string)
    requires Pairwise(rel, rules)
    ensures Pairwise(rel, Without(rules, id))
  {
    if rules != [] {
      HeadAndTail(rel, rules);
      WithoutKeeps(rel, rules[1..], id);
      if rules[0].id != id {
        var left := Without(rules, id);
        assert left[1..] == Without(rules[1..], id);
        WithoutRows(rules[1..], id);
        HeadAndTail(rel, left);
      } else {
        assert Without(rules, id) == Without(rules[1..], id);
      }
    }
  }

  /** The rows of the fault_rules table, kept in the order in which `List` returns them. */
  class FaultRuleRepository {
    var rules: seq<FaultRule>

    ghost predicate Valid()
      reads this
    {
      DistinctIds(rules) && InCreationOrder(rules)
    }

    constructor ()
      ensures Valid() && rules == []
    {
      rules := [];
    }

    method Insert(rule: FaultRule) returns (ok: bool)
      requires Valid()
      modifies this
      ensures Valid()
      ensures ok <==> forall r | r in old(rules) :: r.id != rule.id && r.name != rule.name
      ensures ok ==> exists k | 0 <= k <= |old(rules)| :: PutAt(old(rules), rule, rules, k)
      ensures rules == if ok then Placed(old(rules), rule) else old(rules)
    {
      ok := Insertable(rules, rule);
      if ok {
        PlacedKeepsIds(rules, rule);
        PlacedKeepsOrder(rules, rule);
        var k := PlacedAt(rules, rule);
        rules := Placed(rules, rule);
      }
    }

    method List() returns (listed: seq<FaultRule>)
      ensures listed == rules
    {
      listed := rules;
    }

    method SetEnabled(id: string, enabled: bool)
      requires Valid()
      modifies this
      ensures Valid() && rules == WithEnabled(old(rules), id, enabled)
      ensures |rules| == |old(rules)| && forall i :: 0 <= i < |rules| ==>
        && (rules[i].id == id ==> rules[i].enabled == enabled)
        && (rules[i].id != id ==> rules[i] == old(rules)[i])
        && rules[i].(enabled := old(rules)[i].enabled) == old(rules)[i]
    {
      rules := WithEnabled(rules, id, enabled);
    }

    /** Changes nothing when the row is gone; the statement still succeeds. */
    method IncrementHitCount(id: string)
      requires Valid()
      modifies this
      ensures Valid() && rules == WithHit(old(rules), id)
      ensures |rules| == |old(rules)| && forall i :: 0 <= i < |rules| ==>
        && rules[i].hitCount - old(rules)[i].hitCount == (if rules[i].id == id then 1 else 0)
        && rules[i].(hitCount := old(rules)[i].hitCount) == old(rules)[i]
    {
      rules := WithHit(rules, id);
    }

    method Delete(id: string)
      requires Valid()
      modifies this
      ensures Valid() && rules == Without(old(rules), id)
      ensures forall r :: r in rules <==> r in old(rules) && r.id != id
    {
      WithoutKeeps(OtherId(), rules, id);
      WithoutKeeps(NotOlder(), rules, id);
      WithoutRows(rules, id);
      rules := Without(rules, id);
    }
  }
}
