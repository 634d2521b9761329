/** The in-process bus: subscription ids written by a hand-made `itoa`, and fan-out to a snapshot
    of the subscribers. */
module EventBus {

  const MAX_INT: int := 0x7fff_ffff_ffff_ffff

  // --- Decimal notation ---

  function Digit(d: nat): char
    requires d < 10
  {
    '0' + d as char
  }

  function Decimal(n: nat): string {
    if n < 10 then [Digit(n)] else Decimal(n / 10) + [Digit(n % 10)]
  }

  /** Reads decimal notation back. */
  function Value(s: string): int {
    if s == [] then 0 else 10 * Value(s[..|s| - 1]) + (s[|s| - 1] as int - '0' as int)
  }

  lemma {:induction false} DecimalReadsBack(n: nat)
    ensures Value(Decimal(n)) == n
    ensures forall i :: 0 <= i < |Decimal(n)| ==> '0' <= Decimal(n)[i] <= '9'
    ensures |Decimal(n)| > 0
  {
    if n >= 10 {
      DecimalReadsBack(n / 10);
      assert Decimal(n)[..|Decimal(n)| - 1] == Decimal(n / 10);
    } else {
      assert Decimal(n)[..0] == [];
    }
  }

  lemma DecimalIsInjective(m: nat, n: nat)
    requires Decimal(m) == Decimal(n)
    ensures m == n
  {
    DecimalReadsBack(m);
    DecimalReadsBack(n);
  }

  function Pow10(k: nat): nat {
    if k == 0 then 1 else 10 * Pow10(k - 1)
  }

  lemma {:induction false} DecimalLength(n: nat, k: nat)
    requires n < Pow10(k)
    ensures 0 < |Decimal(n)| <= if k == 0 then 1 else k
  {
    if n >= 10 {
      DecimalLength(n / 10, k - 1);
    }
  }

  lemma TwentyBytesSuffice(n: nat)
    requires n <= MAX_INT
    ensures |Decimal(n)| <= 20
  {
    assert Pow10(5) == 100_000;
    assert Pow10(10) == 10_000_000_000;
    assert Pow10(15) == 1_000_000_000_000_000;
    assert Pow10(20) == 100_000_000_000_000_000_000;
    DecimalLength(n, 20);
  }

  /** `tail` already holds the digits behind the part `m` that is still to be written. */
  ghost predicate Rendered(n: nat, m: nat, tail: string) {
    Decimal(n) == if m == 0 then tail else Decimal(m) + tail
  }

  lemma OneDigitMore(n: nat, m: nat, tail: string)
    requires m > 0 && Rendered(n, m, tail)
    ensures Rendered(n, m / 10, [Digit(m % 10)] + tail)
    ensures |tail| < |Decimal(n)|
  {
  }

  /** Fills a 20-byte buffer from the back. A negative number, which only a wrapped counter could
      produce, comes out empty. */
  method Itoa(n: int) returns (s: string)
    requires -MAX_INT - 1 <= n <= MAX_INT
    ensures s == if n < 0 then "" else Decimal(n)
  {
    if n == 0 {
      return "0";
    }
    var buf := new char[20];
    var i := buf.Length;
    var m := n;
    ghost var tail: string := [];
    if n > 0 {
      TwentyBytesSuffice(n);
    }
    while m > 0
      invariant 0 <= i <= buf.Length && tail == buf[i..]
      invariant if n > 0 then m >= 0 && Rendered(n, m, tail) else m == n && tail == []
      decreases m
    {
      OneDigitMore(n, m, tail);
      i := i - 1;
      buf[i] := Digit(m % 10);
      tail := [Digit(m % 10)] + tail;
      m := m / 10;
    }
    s := buf[i..];
  }

  // --- The bus ---

  /** Handlers are named by numbers; `delivered` records each call a handler gets, and whether the
      handler came to its end or panicked. */
  datatype Call = Call(subscription: string, handler: nat, event: nat, panicked: bool)

  function SubscriptionId(n: int): string {
    "sub_" + if n < 0 then "" else Decimal(n)
  }

  lemma SubscriptionIdsDiffer(m: nat, n: nat)
    requires SubscriptionId(m) == SubscriptionId(n)
    ensures m == n
  {
    assert SubscriptionId(m)[4..] == Decimal(m);
    assert SubscriptionId(n)[4..] == Decimal(n);
    DecimalIsInjective(m, n);
  }

  ghost predicate IsSnapshot(subs: seq<(string, nat)>, subscribers: map<string, nat>) {
    && (forall i :: 0 <= i < |subs| ==> subs[i].0 in subscribers && subs[i].1 == subscribers[subs[i].0])
    && (forall id | id in subscribers :: exists i :: 0 <= i < |subs| && subs[i].0 == id)
    && forall i, j :: 0 <= i < j < |subs| ==> subs[i].0 != subs[j].0
  }

  ghost function OneCallEach(subscribers: map<string, nat>, event: nat, panics: set<nat>): set<Call> {
    set id | id in subscribers :: Call(id, subscribers[id], event, subscribers[id] in panics)
  }

  ghost function CallsInOrder(subs: seq<(string, nat)>, event: nat, panics: set<nat>): seq<Call> {
    seq(|subs|, i requires 0 <= i < |subs| => Call(subs[i].0, subs[i].1, event, subs[i].1 in panics))
  }

  lemma SnapshotCalls(subs: seq<(string, nat)>, subscribers: map<string, nat>, event: nat, panics: set<nat>)
    requires IsSnapshot(subs, subscribers)
    ensures multiset(CallsInOrder(subs, event, panics)) == multiset(OneCallEach(subscribers, event, panics))
  {
    var calls, all := CallsInOrder(subs, event, panics), OneCallEach(subscribers, event, panics);
    forall c ensures multiset(calls)[c] == multiset(all)[c] {
      if c in all {
        assert c.subscription in subscribers;
        var i :| 0 <= i < |subs| && subs[i].0 == c.subscription;
        assert calls[i] == c;
      }
      if c in calls {
        var i :| 0 <= i < |calls| && calls[i] == c;
        assert subs[i].0 in subscribers;
        OnceInDistinct(calls, c);
      }
    }
  }

  lemma SnapshotServed(subs: seq<(string, nat)>, subscribers: map<string, nat>, event: nat, panics: set<nat>)
    requires IsSnapshot(subs, subscribers)
    ensures var calls := CallsInOrder(subs, event, panics);
      && (forall i, j :: 0 <= i < j < |calls| ==> calls[i].subscription != calls[j].subscription)
      && (forall c | c in calls ::
           && c.subscription in subscribers && c.handler == subscribers[c.subscription] && c.event == event
           && (c.panicked <==> c.handler in panics))
      && forall id | id in subscribers :: exists c | c in calls :: c.subscription == id
  {
    var calls := CallsInOrder(subs, event, panics);
    forall id | id in subscribers ensures exists c | c in calls :: c.subscription == id {
      var i :| 0 <= i < |subs| && subs[i].0 == id;
      assert calls[i] in calls && calls[i].subscription == id;
    }
  }

  /** Every live id was given out by the counter. */
  ghost predicate Issued(subscribers: map<string, nat>, nextID: int) {
    forall id | id in subscribers :: exists k: nat :: 1 <= k <= nextID && id == SubscriptionId(k)
  }

  class Bus {
    var subscribers: map<string, nat>
    var nextID: int
    var delivered: seq<Call>

    ghost predicate Valid()
      reads this
    {
      0 <= nextID <= MAX_INT && Issued(subscribers, nextID)
    }

    constructor ()
      ensures Valid() && subscribers == map[] && nextID == 0 && delivered == []
    {
      subscribers := map[];
      nextID := 0;
      delivered := [];
    }

    /** Never overwrites a live handler, as long as the counter has not run through all of its
        2^63 - 1 values. */
    method Subscribe(handler: nat) returns (id: string)
      requires Valid() && nextID < MAX_INT
      modifies this`nextID, this`subscribers
      ensures Valid() && nextID == old(nextID) + 1
      ensures id == "sub_" + Decimal(nextID) && id !in old(subscribers)
      ensures subscribers == old(subscribers)[id := handler]
    {
      nextID := nextID + 1;
      var digits := Itoa(nextID);
      id := "sub_" + digits;
      assert id == SubscriptionId(nextID);
      if id in subscribers {
        var k: nat :| 1 <= k < nextID && id == SubscriptionId(k);
        SubscriptionIdsDiffer(k, nextID);
      }
      subscribers := subscribers[id := handler];
    }

    method Unsubscribe(id: string)
      requires Valid()
      modifies this`subscribers
      ensures Valid() && subscribers == old(subscribers) - {id}
    {
      subscribers := subscribers - {id};
    }

    /** Calls every handler of the snapshot exactly once, those behind a panicking one included.
        `panics` says which handlers panic: a panic is recovered around the one call. */
    method Publish(event: nat, panics: set<nat>)
      modifies this`delivered
      ensures old(delivered) <= delivered
      ensures multiset(delivered[|old(delivered)|..]) ==
        multiset(OneCallEach(subscribers, event, panics))
      ensures var calls := delivered[|old(delivered)|..];
        && (forall i, j :: 0 <= i < j < |calls| ==> calls[i].subscription != calls[j].subscription)
        && (forall c | c in calls ::
             && c.subscription in subscribers && c.handler == subscribers[c.subscription] && c.event == event
             && (c.panicked <==> c.handler in panics))
        && forall id | id in subscribers :: exists c | c in calls :: c.subscription == id
    {
      ghost var start := delivered;
      var snapshot := Snapshot();
      ghost var calls := CallsInOrder(snapshot, event, panics);
      for i := 0 to |snapshot|
        invariant delivered == start + calls[..i]
      {
        Invoke(snapshot[i].0, snapshot[i].1, event, snapshot[i].1 in panics);
      }
      assert delivered[|start|..] == calls;
      SnapshotCalls(snapshot, subscribers, event, panics);
      SnapshotServed(snapshot, subscribers, event, panics);
    }

    /** The copy taken under the read lock: each live subscription once, in any order. */
    method Snapshot() returns (subs: seq<(string, nat)>)
      ensures IsSnapshot(subs, subscribers)
    {
      subs := [];
      var todo := subscribers.Keys;
      while todo != {}
        invariant todo <= subscribers.Keys
        invariant forall i :: 0 <= i < |subs| ==>
          subs[i].0 in subscribers && subs[i].1 == subscribers[subs[i].0] && subs[i].0 !in todo
        invariant forall id | id in subscribers && id !in todo :: exists i :: 0 <= i < |subs| && subs[i].0 == id
        invariant forall i, j :: 0 <= i < j < |subs| ==> subs[i].0 != subs[j].0
        decreases |todo|
      {
        var id :| id in todo;
        ghost var before := subs;
        subs := subs + [(id, subscribers[id])];
        assert subs[|before|].0 == id;
        forall other | other in subscribers && other !in todo - {id}
          ensures exists i :: 0 <= i < |subs| && subs[i].0 == other
        {
          if other != id {
            var i :| 0 <= i < |before| && before[i].0 == other;
            assert subs[i].0 == other;
          }
        }
        todo := todo - {id};
      }
    }

    /** One handler call; the deferred recover hands back control whether or not it panics. */
    method Invoke(subscription: string, handler: nat, event: nat, panics: bool)
      modifies this`delivered
      ensures delivered == old(delivered) + [Call(subscription, handler, event, panics)]
    {
      delivered := delivered + [Call(subscription, handler, event, panics)];
    }
  }

  lemma {:induction false} OnceInDistinct(calls: seq<Call>, c: Call)
    requires c in calls
    requires forall i, j :: 0 <= i < j < |calls| ==> calls[i] != calls[j]
    ensures multiset(calls)[c] == 1
  {
    assert calls == [calls[0]] + calls[1..];
    if calls[0] == c {
      assert c !in calls[1..];
      assert c !in multiset(calls[1..]);
    } else {
      OnceInDistinct(calls[1..], c);
    }
  }

  // --- Publishing while subscribers come and go ---

  /** A running `Publish`: the lock is held for the snapshot only, and the calls follow one by one. */
  datatype Publication = Publication(event: nat, todo: seq<(string, nat)>, calls: seq<Call>)

  datatype State = State(subscribers: map<string, nat>, nextID: nat, publications: seq<Publication>)

  datatype Step =
    | Join(handler: nat)
    | Leave(id: string)
    | Begin(event: nat, snapshot: seq<(string, nat)>)
    | CallNext(p: nat, panics: bool)

  ghost predicate CanStep(s: State, step: Step) {
    match step
    case Join(_) => true
    case Leave(_) => true
    case Begin(_, snapshot) => IsSnapshot(snapshot, s.subscribers)
    case CallNext(p, _) => p < |s.publications| && s.publications[p].todo != []
  }

  function Served(p: Publication, panics: bool): Publication
    requires p.todo != []
  {
    p.(todo := p.todo[1..], calls := p.calls + [Call(p.todo[0].0, p.todo[0].1, p.event, panics)])
  }

  ghost function Next(s: State, step: Step): State
    requires CanStep(s, step)
  {
    match step
    case Join(handler) =>
      s.(nextID := s.nextID + 1, subscribers := s.subscribers[SubscriptionId(s.nextID + 1) := handler])
    case Leave(id) => s.(subscribers := s.subscribers - {id})
    case Begin(event, snapshot) => s.(publications := s.publications + [Publication(event, snapshot, [])])
    case CallNext(p, panics) => s.(publications := s.publications[p := Served(s.publications[p], panics)])
  }

  ghost predicate IsRun(s: State, steps: seq<Step>)
    decreases |steps|
  {
    steps == [] || (CanStep(s, steps[0]) && IsRun(Next(s, steps[0]), steps[1..]))
  }

  ghost function After(s: State, steps: seq<Step>): State
    requires IsRun(s, steps)
    decreases |steps|
  {
    if steps == [] then s else After(Next(s, steps[0]), steps[1..])
  }

  /** The calls so far are those of the front of the snapshot, in order; the rest is still to do. */
  ghost predicate Follows(p: Publication, event: nat, snapshot: seq<(string, nat)>) {
    && p.event == event && |p.calls| <= |snapshot| && p.todo == snapshot[|p.calls|..]
    && forall i :: 0 <= i < |p.calls| ==>
         p.calls[i] == Call(snapshot[i].0, snapshot[i].1, event, p.calls[i].panicked)
  }

  lemma {:induction false} RunFollows(s: State, steps: seq<Step>, p: nat, event: nat, snapshot: seq<(string, nat)>)
    requires IsRun(s, steps) && p < |s.publications| && Follows(s.publications[p], event, snapshot)
    ensures p < |After(s, steps).publications| && Follows(After(s, steps).publications[p], event, snapshot)
    decreases |steps|
  {
    if steps != [] {
      RunFollows(Next(s, steps[0]), steps[1..], p, event, snapshot);
    }
  }

  function CountCalls(calls: seq<Call>, id: string): nat {
    if calls == [] then 0
    else CountCalls(calls[..|calls| - 1], id) + if calls[|calls| - 1].subscription == id then 1 else 0
  }

  lemma {:induction false} CountedOnce(p: Publication, event: nat, snapshot: seq<(string, nat)>, n: nat, id: string)
    requires Follows(p, event, snapshot) && n <= |p.calls|
    requires forall i, j :: 0 <= i < j < |snapshot| ==> snapshot[i].0 != snapshot[j].0
    ensures CountCalls(p.calls[..n], id) == if exists i :: 0 <= i < n && snapshot[i].0 == id then 1 else 0
  {
    if n > 0 {
      CountedOnce(p, event, snapshot, n - 1, id);
      assert p.calls[..n][..n - 1] == p.calls[..n - 1];
      assert p.calls[n - 1].subscription == snapshot[n - 1].0;
    }
  }

  /** However other publications, joins and leaves interleave with it, a finished `Publish` has called
      every handler subscribed at its snapshot exactly once, with its event, also where the
      handler left meanwhile or an earlier one panicked, and no handler that joined since. */
  lemma PublishServesItsSnapshot(s: State, event: nat, snapshot: seq<(string, nat)>, steps: seq<Step>, id: string)
    requires IsSnapshot(snapshot, s.subscribers) && IsRun(Next(s, Begin(event, snapshot)), steps)
    ensures var t := After(Next(s, Begin(event, snapshot)), steps);
      && |s.publications| < |t.publications|
      && var p := t.publications[|s.publications|];
      && (forall c | c in p.calls ::
           c.subscription in s.subscribers && c.handler == s.subscribers[c.subscription] && c.event == event)
      && CountCalls(p.calls, id) <= (if id in s.subscribers then 1 else 0)
      && (p.todo == [] ==> CountCalls(p.calls, id) == if id in s.subscribers then 1 else 0)
  {
    RunFollows(Next(s, Begin(event, snapshot)), steps, |s.publications|, event, snapshot);
    var p := After(Next(s, Begin(event, snapshot)), steps).publications[|s.publications|];
    CountedOnce(p, event, snapshot, |p.calls|, id);
    assert p.calls[..|p.calls|] == p.calls;
  }

  /** A subscription given out after the snapshot gets a new id, so that publication never calls it. */
  lemma LaterSubscriberIsNotCalled(s: State, event: nat, snapshot: seq<(string, nat)>, steps: seq<Step>, k: nat)
    requires IsSnapshot(snapshot, s.subscribers) && IsRun(Next(s, Begin(event, snapshot)), steps)
    requires Issued(s.subscribers, s.nextID) && k > s.nextID
    ensures var t := After(Next(s, Begin(event, snapshot)), steps);
      |s.publications| < |t.publications| && CountCalls(t.publications[|s.publications|].calls, SubscriptionId(k)) == 0
  {
    PublishServesItsSnapshot(s, event, snapshot, steps, SubscriptionId(k));
    if SubscriptionId(k) in s.subscribers {
      var earlier: nat :| 1 <= earlier <= s.nextID && SubscriptionId(k) == SubscriptionId(earlier);
      SubscriptionIdsDiffer(k, earlier);
    }
  }

  /** The steps of joining and leaving do what the bus does. */
  lemma StepsActOnSubscribers(s: State, step: Step)
    requires CanStep(s, step)
    ensures step.Join? ==>
      Next(s, step) ==
        s.(nextID := s.nextID + 1, subscribers := s.subscribers["sub_" + Decimal(s.nextID + 1) := step.handler])
    ensures step.Leave? ==>
      && Next(s, step).(subscribers := s.subscribers) == s
      && Next(s, step).subscribers.Keys == s.subscribers.Keys - {step.id}
      && forall id | id in Next(s, step).subscribers :: Next(s, step).subscribers[id] == s.subscribers[id]
    ensures !step.Join? && !step.Leave? ==> Next(s, step).subscribers == s.subscribers
  {
  }
}
